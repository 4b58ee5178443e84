/** Shared helpers for the in-memory tables that stand in for the SQL database. */
module Tables {

  datatype Option<+T> = None | Some(value: T)

  /** Index of the first element of `s` that satisfies `p`: what a `SELECT ... WHERE`
      followed by `rows[0]` yields when the rows come back in insertion order. */
  function FirstIndex<T>(s: seq<T>, p: T -> bool): (r: Option<nat>)
    ensures r.Some? ==> r.value < |s| && p(s[r.value])
    ensures r.Some? ==> forall j :: 0 <= j < r.value ==> !p(s[j])
    ensures r.None? <==> forall j :: 0 <= j < |s| ==> !p(s[j])
  {
    if |s| == 0 then None
    else if p(s[0]) then Some(0)
    else match FirstIndex(s[1..], p)
      case None => None
      case Some(k) => Some(k + 1)
  }

  /** The first element satisfying `p`, or None. */
  function First<T>(s: seq<T>, p: T -> bool): (r: Option<T>)
    ensures r.Some? ==> r.value in s && p(r.value)
    ensures r.None? <==> forall j :: 0 <= j < |s| ==> !p(s[j])
  {
    match FirstIndex(s, p)
    case None => None
    case Some(i) => Some(s[i])
  }

  /** Auto-increment ids: strictly increasing in insertion order and all below the next id to hand out. */
  ghost predicate FreshIds(ids: seq<nat>, next: nat) {
    && (forall i, j :: 0 <= i < j < |ids| ==> ids[i] < ids[j])
    && (forall i :: 0 <= i < |ids| ==> ids[i] < next)
  }

  /** Handing out `next` and advancing the counter keeps the ids fresh. */
  lemma FreshIdsAppend(ids: seq<nat>, next: nat)
    requires FreshIds(ids, next)
    ensures FreshIds(ids + [next], next + 1)
  {
  }

  /** Under fresh ids at most one row carries a given id. */
  lemma FreshIdsUnique(ids: seq<nat>, next: nat, i: nat, j: nat)
    requires FreshIds(ids, next) && i < |ids| && j < |ids| && ids[i] == ids[j]
    ensures i == j
  {
  }

  /** When no earlier element qualifies, the first match in `s + [x]` is `x` or nothing. */
  lemma FirstAfterNoMatch<T>(s: seq<T>, x: T, p: T -> bool)
    requires forall j :: 0 <= j < |s| ==> !p(s[j])
    ensures First(s + [x], p) == if p(x) then Some(x) else None
  {
    var t := s + [x];
    assert forall j :: 0 <= j < |s| ==> t[j] == s[j];
    assert t[|s|] == x;
  }

  /** Appending a row the predicate rejects leaves the first match where it was. */
  lemma FirstAppendOther<T>(s: seq<T>, x: T, p: T -> bool)
    requires !p(x)
    ensures First(s + [x], p) == First(s, p)
  {
    var t := s + [x];
    assert forall j :: 0 <= j < |s| ==> t[j] == s[j];
  }

  /** Appending leaves an existing first match in place. */
  lemma FirstAppendMatched<T>(s: seq<T>, x: T, p: T -> bool)
    requires First(s, p).Some?
    ensures First(s + [x], p) == First(s, p)
  {
    var t := s + [x];
    assert forall j :: 0 <= j < |s| ==> t[j] == s[j];
  }

  lemma FirstAppendMatchedOrNew<T>(s: seq<T>, x: T, p: T -> bool)
    requires p(x)
    ensures First(s + [x], p) == if First(s, p).Some? then First(s, p) else Some(x)
  {
    if First(s, p).Some? {
      FirstAppendMatched(s, x, p);
    } else {
      FirstAfterNoMatch(s, x, p);
    }
  }
}
