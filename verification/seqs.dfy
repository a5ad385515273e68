/** Query shapes over an in-memory table: `.filter(...).all()`,
    `.filter(...).first()`, and `.offset(k).limit(n)`. */
module Seqs {
  import opened Wrappers

  /** `a` occurs in `b` in the same order, possibly with gaps. */
  predicate IsSubsequence<T(==)>(a: seq<T>, b: seq<T>)
    decreases |b|
  {
    |a| == 0 || (|b| > 0 && ((a[0] == b[0] && IsSubsequence(a[1..], b[1..])) || IsSubsequence(a, b[1..])))
  }

  /** The rows satisfying `p`, in table order. */
  function Filter<T(==,!new)>(s: seq<T>, p: T -> bool): (r: seq<T>)
    ensures |r| <= |s|
    ensures forall i :: 0 <= i < |r| ==> r[i] in s && p(r[i])
    ensures forall i :: 0 <= i < |s| && p(s[i]) ==> s[i] in r
    ensures IsSubsequence(r, s)
    ensures forall x :: multiset(r)[x] == if p(x) then multiset(s)[x] else 0
  {
    if |s| == 0 then []
    else
      assert s == [s[0]] + s[1..];
      if p(s[0]) then [s[0]] + Filter(s[1..], p)
      else Filter(s[1..], p)
  }

  /** The index of the first row satisfying `p`, if any. */
  function FindFirst<T>(s: seq<T>, p: T -> bool): (r: Option<nat>)
    ensures r.Some? ==> r.value < |s| && p(s[r.value])
    ensures r.Some? ==> forall j :: 0 <= j < r.value ==> !p(s[j])
    ensures r.None? <==> forall j :: 0 <= j < |s| ==> !p(s[j])
  {
    if |s| == 0 then None
    else if p(s[0]) then Some(0)
    else match FindFirst(s[1..], p)
      case None => None
      case Some(i) => Some(i + 1)
  }

  /** SQL `OFFSET skip LIMIT limit` on a result in query order. */
  function Page<T>(s: seq<T>, skip: nat, limit: nat): (r: seq<T>)
    ensures |r| <= limit
    ensures skip <= |s| ==> |r| == if |s| - skip < limit then |s| - skip else limit
    ensures skip >= |s| ==> |r| == 0
    ensures forall i :: 0 <= i < |r| ==> skip + i < |s| && r[i] == s[skip + i]
  {
    var rest := if skip <= |s| then s[skip..] else [];
    if |rest| <= limit then rest else rest[..limit]
  }

  /** A contiguous slice keeps the order of the sequence it is cut from. */
  lemma {:induction false} SliceIsSubsequence<T>(s: seq<T>, a: nat, b: nat)
    requires a <= b <= |s|
    ensures IsSubsequence(s[a..b], s)
    decreases |s|
  {
    if a < b {
      if a > 0 {
        assert s[1..][a - 1..b - 1] == s[a..b];
        SliceIsSubsequence(s[1..], a - 1, b - 1);
      } else {
        assert s[0..b][1..] == s[1..][0..b - 1];
        SliceIsSubsequence(s[1..], 0, b - 1);
      }
    }
  }

  lemma {:induction false} SubsequenceTransitive<T>(a: seq<T>, b: seq<T>, c: seq<T>)
    requires IsSubsequence(a, b) && IsSubsequence(b, c)
    ensures IsSubsequence(a, c)
    decreases |c|
  {
    if |a| > 0 {
      if b[0] == c[0] && IsSubsequence(b[1..], c[1..]) {
        if a[0] == b[0] && IsSubsequence(a[1..], b[1..]) {
          SubsequenceTransitive(a[1..], b[1..], c[1..]);
        } else {
          SubsequenceTransitive(a, b[1..], c[1..]);
        }
      } else {
        SubsequenceTransitive(a, b, c[1..]);
      }
    }
  }

  /** A page is a slice of the result, so it keeps the result's order. */
  lemma PageIsSubsequence<T>(s: seq<T>, skip: nat, limit: nat)
    ensures IsSubsequence(Page(s, skip, limit), s)
  {
    var p := Page(s, skip, limit);
    if skip <= |s| {
      assert p == s[skip..skip + |p|];
      SliceIsSubsequence(s, skip, skip + |p|);
    }
  }

  /** `zip(a, b)` pairs the two lists up to the shorter one. */
  function Min(a: nat, b: nat): nat {
    if a <= b then a else b
  }
}
