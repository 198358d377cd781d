/** Small facts about sequences shared by the table models. */
module Seqs {

  /** No element occurs twice. */
  predicate Distinct<T(==)>(s: seq<T>)
  {
    forall i, j :: 0 <= i < j < |s| ==> s[i] != s[j]
  }

  /** Equal entries of a distinct sequence sit at the same position. */
  lemma DistinctAt<T>(s: seq<T>, i: nat, j: nat)
    requires Distinct(s) && i < |s| && j < |s| && s[i] == s[j]
    ensures i == j
  {
  }

  /** The row numbers 0, 1, ..., n - 1 in order. */
  function Range(n: nat): (r: seq<nat>)
    ensures |r| == n
    ensures forall i :: 0 <= i < n ==> r[i] == i
  {
    seq(n, i => i)
  }

  /** The elements of `xs` whose flag in `keep` is set, in their original order (a row filter). */
  function Select<T>(xs: seq<T>, keep: seq<bool>): (r: seq<T>)
    requires |keep| == |xs|
    ensures |r| == Count(keep) <= |xs|
    ensures forall x :: x in r ==> x in xs
  {
    if |xs| == 0 then []
    else Select(xs[..|xs| - 1], keep[..|keep| - 1]) + (if keep[|keep| - 1] then [xs[|xs| - 1]] else [])
  }

  /** The number of set flags. */
  function Count(keep: seq<bool>): nat
  {
    if |keep| == 0 then 0 else Count(keep[..|keep| - 1]) + (if keep[|keep| - 1] then 1 else 0)
  }

  /** Every selected element comes from a kept position. */
  lemma {:induction false} SelectOrigin<T>(xs: seq<T>, keep: seq<bool>, t: nat)
    requires |keep| == |xs| && t < |Select(xs, keep)|
    ensures exists i :: 0 <= i < |xs| && keep[i] && xs[i] == Select(xs, keep)[t]
  {
    var n := |xs| - 1;
    var p := Select(xs[..n], keep[..n]);
    if t < |p| {
      SelectOrigin(xs[..n], keep[..n], t);
      var i :| 0 <= i < n && keep[..n][i] && xs[..n][i] == p[t];
      assert keep[i] && xs[i] == Select(xs, keep)[t];
    } else {
      assert keep[n] && xs[n] == Select(xs, keep)[t];
    }
  }
}
