/** Searches over sequences: the first and the last position whose element satisfies a test. */
module Seqs {

  import opened Wrappers

  /** The position of the first element that satisfies `p`, if any. */
  function FirstWhere<T>(s: seq<T>, p: T -> bool): (r: Option<nat>)
    ensures r.Some? ==> r.value < |s| && p(s[r.value])
    ensures r.Some? ==> forall j :: 0 <= j < r.value ==> !p(s[j])
    ensures r.None? <==> forall j :: 0 <= j < |s| ==> !p(s[j])
  {
    if s == [] then None
    else if p(s[0]) then Some(0)
    else match FirstWhere(s[1..], p)
      case None => None
      case Some(k) => Some(k + 1)
  }

  /** The position of the last element that satisfies `p`, if any. */
  function LastWhere<T>(s: seq<T>, p: T -> bool): (r: Option<nat>)
    ensures r.Some? ==> r.value < |s| && p(s[r.value])
    ensures r.Some? ==> forall j :: r.value < j < |s| ==> !p(s[j])
    ensures r.None? <==> forall j :: 0 <= j < |s| ==> !p(s[j])
  {
    if s == [] then None
    else if p(s[|s| - 1]) then Some(|s| - 1)
    else LastWhere(s[..|s| - 1], p)
  }

  /** The last element that satisfies `p`, if any. */
  function LastMatch<T>(s: seq<T>, p: T -> bool): (r: Option<T>)
    ensures r.Some? ==> r.value in s && p(r.value)
    ensures r.None? <==> forall j :: 0 <= j < |s| ==> !p(s[j])
  {
    match LastWhere(s, p)
    case None => None
    case Some(k) => Some(s[k])
  }

  /** Looking at one more element: it becomes the last match iff it satisfies the test. */
  lemma LastMatchStep<T>(s: seq<T>, k: nat, p: T -> bool)
    requires k < |s|
    ensures LastMatch(s[..k + 1], p) == if p(s[k]) then Some(s[k]) else LastMatch(s[..k], p)
  {
    assert s[..k + 1][..k] == s[..k];
  }

  /** Two tests that agree on every element pick the same last element. */
  lemma {:induction false} LastWhereCongruent<T>(s: seq<T>, p: T -> bool, q: T -> bool)
    requires forall j :: 0 <= j < |s| ==> p(s[j]) == q(s[j])
    ensures LastWhere(s, p) == LastWhere(s, q)
  {
    if s != [] && !p(s[|s| - 1]) {
      LastWhereCongruent(s[..|s| - 1], p, q);
    }
  }
}
