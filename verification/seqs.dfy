/** The two sequence scans the utilities are built from: "first element satisfying p" and
    "last element satisfying p before a given position". */
module Seqs {
  import opened Wrappers

  /** Index of the first element of `s` satisfying `p`, or `|s|` when there is none. */
  function FirstWhere<T>(s: seq<T>, p: T -> bool): (k: nat)
    ensures k <= |s|
    ensures forall j :: 0 <= j < k ==> !p(s[j])
    ensures k < |s| ==> p(s[k])
  {
    if s == [] then 0
    else if p(s[0]) then 0
    else 1 + FirstWhere(s[1..], p)
  }

  /** Index of the last element among `s[..k]` satisfying `p`, or None when there is none. */
  function LastWhereBefore<T>(s: seq<T>, p: T -> bool, k: nat): (r: Option<nat>)
    requires k <= |s|
    ensures r.Some? ==> r.value < k && p(s[r.value])
    ensures r.Some? ==> forall j :: r.value < j < k ==> !p(s[j])
    ensures r.None? <==> forall j :: 0 <= j < k ==> !p(s[j])
    decreases k
  {
    if k == 0 then None
    else if p(s[k - 1]) then Some(k - 1)
    else LastWhereBefore(s, p, k - 1)
  }

  /** Positions that do not satisfy `p` can be added to the end of the search range without
      changing what the backward search finds. */
  lemma {:induction false} LastWhereBeforeStable<T>(s: seq<T>, p: T -> bool, k: nat, m: nat)
    requires k <= m <= |s|
    requires forall j :: k <= j < m ==> !p(s[j])
    ensures LastWhereBefore(s, p, m) == LastWhereBefore(s, p, k)
    decreases m
  {
    if m > k {
      LastWhereBeforeStable(s, p, k, m - 1);
    }
  }

  /** Scans over position-wise equivalent sequences stop at the same position. */
  lemma {:induction false} FirstWhereAgrees<T, U>(s: seq<T>, p: T -> bool, t: seq<U>, q: U -> bool)
    requires |s| == |t|
    requires forall i :: 0 <= i < |s| ==> p(s[i]) == q(t[i])
    ensures FirstWhere(s, p) == FirstWhere(t, q)
  {
    if s != [] && !p(s[0]) {
      FirstWhereAgrees(s[1..], p, t[1..], q);
    }
  }

  /** Backward searches over position-wise equivalent sequences find the same position. */
  lemma {:induction false} LastWhereBeforeAgrees<T, U>(s: seq<T>, p: T -> bool, t: seq<U>, q: U -> bool, k: nat)
    requires k <= |s| == |t|
    requires forall i :: 0 <= i < |s| ==> p(s[i]) == q(t[i])
    ensures LastWhereBefore(s, p, k) == LastWhereBefore(t, q, k)
    decreases k
  {
    if k > 0 && !p(s[k - 1]) {
      LastWhereBeforeAgrees(s, p, t, q, k - 1);
    }
  }

  /** The element at an optional index. */
  function At<T>(s: seq<T>, i: Option<nat>): (r: Option<T>)
    requires i.Some? ==> i.value < |s|
  {
    match i
    case None => None
    case Some(k) => Some(s[k])
  }
}
