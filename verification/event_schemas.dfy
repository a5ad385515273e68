/** The request shapes of the event routes: the creation form with its
    length rules, and the update form whose every field may be left out.
    Timestamps are integer seconds. */
module EventSchemas {
  import opened Wrappers

  /** The creation form. `description`, `text` and `code` may be null; when
      they are strings their length rules apply. */
  datatype EventBase = EventBase(
    subject: string,
    description: Option<string>,
    text: Option<string>,
    startDate: int,
    endDate: int,
    code: Option<string>)

  predicate OptionalWithin(v: Option<string>, min: nat, max: nat) {
    v.None? || min <= |v.value| <= max
  }

  /** The field constraints of the creation form. */
  predicate ValidEventBase(e: EventBase) {
    && 3 <= |e.subject| <= 20
    && OptionalWithin(e.description, 3, 50)
    && OptionalWithin(e.text, 0, 300)
    && OptionalWithin(e.code, 0, 20)
  }

  /** The two dates are independent fields: an event that ends before it
      starts passes every rule, and so does one with its dates swapped. */
  lemma DatesNotOrdered(e: EventBase)
    requires ValidEventBase(e)
    ensures ValidEventBase(e.(startDate := e.endDate, endDate := e.startDate))
    ensures exists bad: EventBase :: ValidEventBase(bad) && bad.startDate > bad.endDate
  {
    var bad := EventBase("abc", None, None, 1, 0, None);
    assert ValidEventBase(bad) && bad.startDate > bad.endDate;
  }

  /** The update form: every field may be left out; one given as null sets
      the column to null. */
  datatype EventUpdate = EventUpdate(
    subject: Field<Option<string>>,
    description: Field<Option<string>>,
    text: Field<Option<string>>,
    startDate: Field<Option<int>>,
    endDate: Field<Option<int>>,
    code: Field<Option<string>>)

  /** The update form as it arrives when nothing was sent. */
  const EmptyEventUpdate := EventUpdate(Unset, Unset, Unset, Unset, Unset, Unset)
}
