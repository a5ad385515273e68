/** The event administration routes over the `events` and `event_images`
    tables: the filtered, paged listing, lookup, partial update, delete,
    image delete, and the names under which uploaded images are saved.
    Query results come back in table order. */
module EventAdmin {
  import opened Wrappers
  import opened Text
  import opened Http
  import opened EventSchemas
  import Seqs

  /** An event row. Every column the update form can reach may be null. */
  datatype Event = Event(
    id: nat,
    subject: Option<string>,
    description: Option<string>,
    text: Option<string>,
    startDate: Option<int>,
    endDate: Option<int>,
    code: Option<string>,
    createdAt: int)

  /** An image row: `imageId` holds the image's permanent link. */
  datatype EventImage = EventImage(id: nat, imageId: string, eventId: nat)

  /** The optional query parameters of the listing. */
  datatype EventFilter = EventFilter(startDate: Option<int>, endDate: Option<int>, search: Option<string>)

  /** One entry of the listing: the event's columns and its first image. */
  datatype EventView = EventView(event: Event, imageUrl: Option<string>)

  const EventNotFoundDetail := "Event not found"
  const ImageNotFoundDetail := "Image not found"

  /** `column ILIKE '%term%'`: a null column never matches. */
  predicate ILike(column: Option<string>, term: string) {
    column.Some? && Contains(Lower(column.value), Lower(term))
  }

  /** The three optional conditions of the listing. A date condition on a
      null column fails, as SQL comparison with null does; an empty search
      term is no condition at all. */
  predicate MatchesFilter(e: Event, f: EventFilter) {
    && (f.startDate.None? || (e.startDate.Some? && e.startDate.value >= f.startDate.value))
    && (f.endDate.None? || (e.endDate.Some? && e.endDate.value <= f.endDate.value))
    && (f.search.None? || |f.search.value| == 0 || ILike(e.subject, f.search.value) || ILike(e.description, f.search.value))
  }

  /** The events meeting the filter, in table order. */
  function Matching(events: seq<Event>, f: EventFilter): (r: seq<Event>)
    ensures forall i :: 0 <= i < |r| ==> MatchesFilter(r[i], f) && r[i] in events
    ensures forall i :: 0 <= i < |events| && MatchesFilter(events[i], f) ==> events[i] in r
    ensures Seqs.IsSubsequence(r, events)
    ensures forall e :: multiset(r)[e] == if MatchesFilter(e, f) then multiset(events)[e] else 0
  {
    Seqs.Filter(events, (e: Event) => MatchesFilter(e, f))
  }

  /** The first image of an event, if it has any. */
  function ImageUrl(images: seq<EventImage>, eventId: nat): (r: Option<string>)
    ensures r.None? <==> forall j :: 0 <= j < |images| ==> images[j].eventId != eventId
    ensures r.Some? ==> exists i :: (0 <= i < |images| && images[i].eventId == eventId && r.value == images[i].imageId
      && forall j :: 0 <= j < i ==> images[j].eventId != eventId)
  {
    match Seqs.FindFirst(images, (img: EventImage) => img.eventId == eventId)
    case None => None
    case Some(i) => Some(images[i].imageId)
  }

  function View(e: Event, images: seq<EventImage>): EventView {
    EventView(e, ImageUrl(images, e.id))
  }

  /** `list_events`: the matching events with `skip` dropped and at most
      `limit` kept, each with its first image. */
  function ListEvents(events: seq<Event>, images: seq<EventImage>, skip: nat, limit: nat, f: EventFilter): (r: seq<EventView>)
    ensures |r| <= limit
    ensures var n := |Matching(events, f)|;
      |r| == if n <= skip then 0 else Seqs.Min(n - skip, limit)
    ensures forall i :: 0 <= i < |r| ==>
      && MatchesFilter(r[i].event, f) && r[i].event in events
      && r[i].event == Matching(events, f)[skip + i]
      && r[i].imageUrl == ImageUrl(images, r[i].event.id)
  {
    var page := Seqs.Page(Matching(events, f), skip, limit);
    seq(|page|, i requires 0 <= i < |page| => View(page[i], images))
  }

  function EventsOf(views: seq<EventView>): seq<Event> {
    seq(|views|, i requires 0 <= i < |views| => views[i].event)
  }

  /** The listing keeps table order: its events are a subsequence of the
      table. */
  lemma ListEventsInTableOrder(events: seq<Event>, images: seq<EventImage>, skip: nat, limit: nat, f: EventFilter)
    ensures Seqs.IsSubsequence(EventsOf(ListEvents(events, images, skip, limit, f)), events)
  {
    var m := Matching(events, f);
    var page := Seqs.Page(m, skip, limit);
    assert EventsOf(ListEvents(events, images, skip, limit, f)) == page;
    Seqs.PageIsSubsequence(m, skip, limit);
    Seqs.SubsequenceTransitive(page, m, events);
  }

  /** From the first row and with room for the whole table, the listing
      misses no matching event. */
  lemma ListEventsComplete(events: seq<Event>, images: seq<EventImage>, limit: nat, f: EventFilter, e: Event)
    requires limit >= |events|
    requires e in events && MatchesFilter(e, f)
    ensures e in EventsOf(ListEvents(events, images, 0, limit, f))
  {
    var m := Matching(events, f);
    var r := ListEvents(events, images, 0, limit, f);
    assert EventsOf(r) == m;
  }

  /** An empty search term lets through rows whose subject and description
      are both null, which any non-empty term would drop. */
  lemma EmptySearchIsNoCondition(e: Event, f: EventFilter, term: string)
    requires e.subject.None? && e.description.None?
    ensures MatchesFilter(e, f.(search := Some(""))) == MatchesFilter(e, f.(search := None))
    ensures |term| > 0 ==> !MatchesFilter(e, f.(search := Some(term)))
  {
  }

  /** The search is case-insensitive: the term's case never matters. */
  lemma SearchIgnoresCase(e: Event, f: EventFilter, term: string)
    requires f.search == Some(term)
    ensures MatchesFilter(e, f) == MatchesFilter(e, f.(search := Some(Lower(term))))
  {
    LowerIdempotent(term);
  }

  lemma LowerIdempotent(s: string)
    ensures Lower(Lower(s)) == Lower(s)
  {
    var l := Lower(s);
    assert forall i :: 0 <= i < |s| ==> Lower(l)[i] == LowerChar(LowerChar(s[i]));
  }

  /** `i` is the first event row with the id: what `.first()` returns. */
  predicate IsFirstEvent(events: seq<Event>, id: nat, i: int) {
    0 <= i < |events| && events[i].id == id
    && forall j :: 0 <= j < i ==> events[j].id != id
  }

  predicate NoEvent(events: seq<Event>, id: nat) {
    forall j :: 0 <= j < |events| ==> events[j].id != id
  }

  function FindEvent(events: seq<Event>, id: nat): (r: Option<nat>)
    ensures r.Some? ==> IsFirstEvent(events, id, r.value)
    ensures r.None? <==> NoEvent(events, id)
  {
    Seqs.FindFirst(events, (e: Event) => e.id == id)
  }

  /** The row as the creation form it was stored from: subject and both
      dates must be present. */
  function BaseOf(e: Event): (b: Option<EventBase>)
    ensures b.Some? <==> e.subject.Some? && e.startDate.Some? && e.endDate.Some?
  {
    if e.subject.Some? && e.startDate.Some? && e.endDate.Some? then
      Some(EventBase(e.subject.value, e.description, e.text, e.startDate.value, e.endDate.value, e.code))
    else None
  }

  /** The row a creation form is stored as. */
  function RowOf(id: nat, b: EventBase, createdAt: int): Event {
    Event(id, Some(b.subject), b.description, b.text, Some(b.startDate), Some(b.endDate), b.code, createdAt)
  }

  /** The rules the `EventDB` response model checks on a returned row: those
      of the creation form, with the subject and both dates required. */
  predicate EventDBValid(e: Event) {
    BaseOf(e).Some? && ValidEventBase(BaseOf(e).value)
  }

  /** A row stored from a creation form reads back as that form, so it
      passes the response model exactly when the form passed its rules. */
  lemma StoredRowServed(id: nat, b: EventBase, createdAt: int)
    ensures BaseOf(RowOf(id, b, createdAt)) == Some(b)
    ensures EventDBValid(RowOf(id, b, createdAt)) <==> ValidEventBase(b)
  {
  }

  /** Returning a row through `response_model=EventDB`: a row breaking its
      rules fails the response validation, which the client sees as a 500. */
  function Serve(e: Event): (r: Result<Event, HttpError>)
    ensures r.Success? <==> EventDBValid(e)
    ensures r.Success? ==> r.value == e
    ensures r.Failure? ==> r.error == HttpError(500, InternalErrorDetail)
  {
    if EventDBValid(e) then Success(e) else Failure(HttpError(InternalServerError, InternalErrorDetail))
  }

  /** `get_event`: a missing id is a 404; otherwise the first event with the
      id, served through the response model. */
  function GetEvent(events: seq<Event>, id: nat): (r: Result<Event, HttpError>)
    ensures r == Failure(HttpError(404, EventNotFoundDetail)) <==> NoEvent(events, id)
    ensures r.Success? <==> exists i :: IsFirstEvent(events, id, i) && EventDBValid(events[i])
    ensures r.Success? ==> exists i :: IsFirstEvent(events, id, i) && r.value == events[i]
    ensures r.Failure? && !NoEvent(events, id) ==> r.error == HttpError(500, InternalErrorDetail)
  {
    match FindEvent(events, id)
    case None => Failure(HttpError(NotFound, EventNotFoundDetail))
    case Some(i) =>
      assert forall k :: IsFirstEvent(events, id, k) ==> k == i;
      Serve(events[i])
  }

  /** The fields set in the form overwrite their columns; the rest stay. */
  function ApplyEventUpdate(e: Event, u: EventUpdate): (v: Event)
    ensures v.id == e.id && v.createdAt == e.createdAt
    ensures v.subject == (if u.subject.Set? then u.subject.value else e.subject)
    ensures v.description == (if u.description.Set? then u.description.value else e.description)
    ensures v.text == (if u.text.Set? then u.text.value else e.text)
    ensures v.startDate == (if u.startDate.Set? then u.startDate.value else e.startDate)
    ensures v.endDate == (if u.endDate.Set? then u.endDate.value else e.endDate)
    ensures v.code == (if u.code.Set? then u.code.value else e.code)
  {
    var e1 := if u.subject.Set? then e.(subject := u.subject.value) else e;
    var e2 := if u.description.Set? then e1.(description := u.description.value) else e1;
    var e3 := if u.text.Set? then e2.(text := u.text.value) else e2;
    var e4 := if u.startDate.Set? then e3.(startDate := u.startDate.value) else e3;
    var e5 := if u.endDate.Set? then e4.(endDate := u.endDate.value) else e4;
    if u.code.Set? then e5.(code := u.code.value) else e5
  }

  /** What `update_event` leaves behind: the table after the commit, and the
      answer the client gets. */
  datatype UpdateOutcome = UpdateOutcome(table: seq<Event>, answer: Result<Event, HttpError>)

  /** `update_event`: a missing id is a 404 and changes nothing. Otherwise
      the first event with the id takes the set fields and is committed, and
      only then is it served through the response model, so an updated row
      breaking its rules stays in the table behind a 500. */
  function UpdateEvent(events: seq<Event>, id: nat, u: EventUpdate): (r: UpdateOutcome)
    ensures r.answer == Failure(HttpError(404, EventNotFoundDetail)) <==> NoEvent(events, id)
    ensures NoEvent(events, id) ==> r.table == events
    ensures !NoEvent(events, id) ==> |r.table| == |events| && exists i :: (IsFirstEvent(events, id, i)
      && r.table[i] == ApplyEventUpdate(events[i], u)
      && (forall j :: 0 <= j < |events| && j != i ==> r.table[j] == events[j])
      && (r.answer.Success? <==> EventDBValid(r.table[i]))
      && (r.answer.Success? ==> r.answer.value == r.table[i])
      && (r.answer.Failure? ==> r.answer.error == HttpError(500, InternalErrorDetail)))
  {
    match FindEvent(events, id)
    case None => UpdateOutcome(events, Failure(HttpError(NotFound, EventNotFoundDetail)))
    case Some(i) =>
      var updated := ApplyEventUpdate(events[i], u);
      UpdateOutcome(events[i := updated], Serve(updated))
  }

  lemma FirstEventUnique(events: seq<Event>, id: nat, i: int, k: int)
    requires IsFirstEvent(events, id, i) && IsFirstEvent(events, id, k)
    ensures i == k
  {
  }

  /** An update with nothing set changes no row, and answers as `get_event`
      does. */
  lemma EmptyEventUpdateIsNoOp(events: seq<Event>, id: nat)
    ensures UpdateEvent(events, id, EmptyEventUpdate).table == events
    ensures UpdateEvent(events, id, EmptyEventUpdate).answer == GetEvent(events, id)
  {
    if !NoEvent(events, id) {
      var r := UpdateEvent(events, id, EmptyEventUpdate);
      var i :| IsFirstEvent(events, id, i) && r.table[i] == ApplyEventUpdate(events[i], EmptyEventUpdate)
        && forall j :: 0 <= j < |events| && j != i ==> r.table[j] == events[j];
      assert r.table[i] == events[i];
      assert r.table == events;
    }
  }

  /** Whatever `update_event` answers, a later `get_event` of the same id
      answers too: an update that ends in the 500 leaves a row that every
      later lookup also answers with the 500. */
  lemma UpdateThenGet(events: seq<Event>, id: nat, u: EventUpdate)
    ensures GetEvent(UpdateEvent(events, id, u).table, id) == UpdateEvent(events, id, u).answer
  {
    var r := UpdateEvent(events, id, u);
    if !NoEvent(events, id) {
      var i :| IsFirstEvent(events, id, i) && r.table[i] == ApplyEventUpdate(events[i], u)
        && forall j :: 0 <= j < |events| && j != i ==> r.table[j] == events[j];
      assert IsFirstEvent(r.table, id, i);
      assert r.answer == Serve(r.table[i]);
    }
  }

  /** Sending the same update twice leaves the table, and the answer, as
      sending it once. */
  lemma UpdateEventIdempotent(events: seq<Event>, id: nat, u: EventUpdate)
    ensures UpdateEvent(UpdateEvent(events, id, u).table, id, u).table == UpdateEvent(events, id, u).table
    ensures UpdateEvent(UpdateEvent(events, id, u).table, id, u).answer == UpdateEvent(events, id, u).answer
  {
    if !NoEvent(events, id) {
      var once := UpdateEvent(events, id, u);
      var i :| IsFirstEvent(events, id, i) && once.table[i] == ApplyEventUpdate(events[i], u)
        && forall j :: 0 <= j < |events| && j != i ==> once.table[j] == events[j];
      assert IsFirstEvent(once.table, id, i);
      var twice := UpdateEvent(once.table, id, u);
      var k :| IsFirstEvent(once.table, id, k) && twice.table[k] == ApplyEventUpdate(once.table[k], u)
        && forall j :: 0 <= j < |once.table| && j != k ==> twice.table[j] == once.table[j];
      FirstEventUnique(once.table, id, i, k);
      assert twice.table[i] == once.table[i];
      assert twice.table == once.table;
    }
  }

  /** The update form with only an empty subject set. */
  const BlankSubject := EmptyEventUpdate.(subject := Set(Some("")))

  /** The update form carries none of the creation form's length rules: an
      event created within them can be updated out of them, after which the
      row no longer passes the response model. */
  lemma UpdateCanBreakCreationRules(e: Event)
    ensures var v := ApplyEventUpdate(e, BlankSubject);
      && (forall b: EventBase :: ValidEventBase(b) ==> v.subject != Some(b.subject))
      && !EventDBValid(v)
    ensures ApplyEventUpdate(e, EmptyEventUpdate.(subject := Set(None))).subject.None?
  {
  }

  /** Blanking an existing event's subject commits the empty subject and
      answers 500, and every later lookup of the event answers 500 too. */
  lemma BlankSubjectCommittedBehind500(events: seq<Event>, id: nat)
    ensures var r := UpdateEvent(events, id, BlankSubject);
      !NoEvent(events, id) ==>
        && (exists i :: IsFirstEvent(events, id, i) && r.table[i].subject == Some(""))
        && r.answer == Failure(HttpError(500, InternalErrorDetail))
        && GetEvent(r.table, id) == Failure(HttpError(500, InternalErrorDetail))
  {
    var r := UpdateEvent(events, id, BlankSubject);
    if !NoEvent(events, id) {
      var i :| IsFirstEvent(events, id, i) && r.table[i] == ApplyEventUpdate(events[i], BlankSubject)
        && (r.answer.Success? <==> EventDBValid(r.table[i]))
        && (r.answer.Failure? ==> r.answer.error == HttpError(500, InternalErrorDetail));
      UpdateCanBreakCreationRules(events[i]);
      UpdateThenGet(events, id, BlankSubject);
    }
  }

  /** `delete_event`: a missing id is a 404; otherwise exactly the first
      event with the id is removed. The event's image rows are not touched. */
  function DeleteEvent(events: seq<Event>, id: nat): (r: Result<seq<Event>, HttpError>)
    ensures r.Failure? <==> NoEvent(events, id)
    ensures r.Failure? ==> r.error == HttpError(404, EventNotFoundDetail)
    ensures r.Success? ==> exists i :: IsFirstEvent(events, id, i) && r.value == events[..i] + events[i + 1..]
  {
    match FindEvent(events, id)
    case None => Failure(HttpError(NotFound, EventNotFoundDetail))
    case Some(i) => Success(events[..i] + events[i + 1..])
  }

  predicate EventIdsUnique(events: seq<Event>) {
    forall i, j :: 0 <= i < j < |events| ==> events[i].id != events[j].id
  }

  /** With unique ids a deleted event is gone: looking it up, or deleting it
      again, is the 404. */
  lemma DeleteEventThenGet(events: seq<Event>, id: nat)
    requires EventIdsUnique(events)
    requires DeleteEvent(events, id).Success?
    ensures GetEvent(DeleteEvent(events, id).value, id) == Failure(HttpError(404, EventNotFoundDetail))
    ensures DeleteEvent(DeleteEvent(events, id).value, id) == Failure(HttpError(404, EventNotFoundDetail))
    ensures |DeleteEvent(events, id).value| == |events| - 1
  {
    var after := DeleteEvent(events, id).value;
    var i :| IsFirstEvent(events, id, i) && after == events[..i] + events[i + 1..];
    assert forall j :: 0 <= j < |after| ==> after[j] == (if j < i then events[j] else events[j + 1]);
  }

  /** `i` is the first image row with both ids. */
  predicate IsFirstImage(images: seq<EventImage>, eventId: nat, imageId: nat, i: int) {
    0 <= i < |images| && images[i].id == imageId && images[i].eventId == eventId
    && forall j :: 0 <= j < i ==> !(images[j].id == imageId && images[j].eventId == eventId)
  }

  /** `delete_event_image`: removes the first image that has this id and
      belongs to this event; an image of another event is never removed. */
  function DeleteEventImage(images: seq<EventImage>, eventId: nat, imageId: nat): (r: Result<seq<EventImage>, HttpError>)
    ensures r.Failure? <==> forall j :: 0 <= j < |images| ==> !(images[j].id == imageId && images[j].eventId == eventId)
    ensures r.Failure? ==> r.error == HttpError(404, ImageNotFoundDetail)
    ensures r.Success? ==> exists i :: IsFirstImage(images, eventId, imageId, i) && r.value == images[..i] + images[i + 1..]
  {
    match Seqs.FindFirst(images, (img: EventImage) => img.id == imageId && img.eventId == eventId)
    case None => Failure(HttpError(NotFound, ImageNotFoundDetail))
    case Some(i) => Success(images[..i] + images[i + 1..])
  }

  /** Every image of another event survives an image delete. */
  lemma DeleteEventImageKeepsOtherEvents(images: seq<EventImage>, eventId: nat, imageId: nat, img: EventImage)
    requires DeleteEventImage(images, eventId, imageId).Success?
    requires img in images && img.eventId != eventId
    ensures img in DeleteEventImage(images, eventId, imageId).value
  {
    var after := DeleteEventImage(images, eventId, imageId).value;
    var i :| IsFirstImage(images, eventId, imageId, i) && after == images[..i] + images[i + 1..];
    var k :| 0 <= k < |images| && images[k] == img;
    assert k != i;
    if k < i {
      assert after[k] == img;
    } else {
      assert after[k - 1] == img;
    }
  }

  /** The name an uploaded image is saved under: the event id, an
      underscore, and a fresh identifier. */
  function SaveName(eventId: nat, uuid: string): string {
    NatToString(eventId) + "_" + uuid
  }

  /** One save name per uploaded file, in upload order; the identifiers are
      generated outside the model and passed in. */
  function SaveNames(eventId: nat, uuids: seq<string>): (r: seq<string>)
    ensures |r| == |uuids|
    ensures forall i :: 0 <= i < |r| ==> r[i] == SaveName(eventId, uuids[i])
  {
    seq(|uuids|, i requires 0 <= i < |uuids| => SaveName(eventId, uuids[i]))
  }

  /** Reads a save name back: the digits before the first underscore and
      everything after it. */
  function SplitSaveName(s: string): (r: Option<(nat, string)>)
    ensures r.Some? ==> SaveName(r.value.0, r.value.1) == s
  {
    match Seqs.FindFirst(s, (c: char) => c == '_')
    case None => None
    case Some(k) =>
      match ParseNat(s[..k])
      case None => None
      case Some(n) =>
        if NatToString(n) == s[..k] then
          assert s == s[..k] + "_" + s[k + 1..];
          Some((n, s[k + 1..]))
        else None
  }

  /** A save name gives back the event id and the identifier it was made
      from, whatever the identifier holds. */
  lemma SaveNameRoundTrip(eventId: nat, uuid: string)
    ensures SplitSaveName(SaveName(eventId, uuid)) == Some((eventId, uuid))
  {
    var digits := NatToString(eventId);
    var s := SaveName(eventId, uuid);
    assert s[|digits|] == '_';
    assert forall j :: 0 <= j < |digits| ==> s[j] == digits[j] && s[j] != '_';
    var k := Seqs.FindFirst(s, (c: char) => c == '_');
    assert k == Some(|digits|);
    assert s[..|digits|] == digits;
    ParseNatToString(eventId);
    assert s[|digits| + 1..] == uuid;
  }

  /** Distinct identifiers give distinct save names. */
  lemma SaveNamesDistinct(eventId: nat, uuids: seq<string>)
    requires forall i, j :: 0 <= i < j < |uuids| ==> uuids[i] != uuids[j]
    ensures var names := SaveNames(eventId, uuids);
      forall i, j :: 0 <= i < j < |names| ==> names[i] != names[j]
  {
    var names := SaveNames(eventId, uuids);
    forall i, j | 0 <= i < j < |names|
      ensures names[i] != names[j]
    {
      SaveNameRoundTrip(eventId, uuids[i]);
      SaveNameRoundTrip(eventId, uuids[j]);
    }
  }
}
