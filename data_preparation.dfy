/**
 * The bookkeeping of `cmfapoc.data_preparation`: closing a column within groups, extracting the
 * sample and replicate numbers and the metabolite/isotopologue parts of identifiers, the loop
 * that adds three simulated columns to Sergi's table, and the re-closure of Daria's measurements
 * after the right join.
 */
module DataPreparation {
  import opened Wrappers
  import opened Seqs
  import opened Strings
  import opened GroupBy
  import opened Simulation

  /** `SIM_ERROR_SD`. */
  const SimErrorSd: real := 0.1

  // ---------------------------------------------------------------------------------------------
  // close

  /**
   * A cell of a closed float column: null, a finite value, or the NaN or infinity that dividing
   * by a zero group sum gives.
   */
  datatype Cell = Null | Finite(value: real) | NonFinite

  /** `expr.sum().over(keys)` at key `k`: the sum of the non-null values with that key (0 if none). */
  function GroupSum<K(==)>(values: seq<Option<real>>, keys: seq<K>, k: K): real
    requires |values| == |keys|
  {
    if |values| == 0 then 0.0
    else
      var n := |values| - 1;
      GroupSum(values[..n], keys[..n], k) + (if keys[n] == k && values[n].Some? then values[n].value else 0.0)
  }

  /** Float division of a nullable value by a group sum. */
  function Divide(v: Option<real>, total: real): Cell
  {
    match v
    case None => Null
    case Some(x) => if total == 0.0 then NonFinite else Finite(x / total)
  }

  /** Every value divided by its key's sum in the reference column `refValues` keyed by `refKeys`. */
  function ScaleBy<K(==)>(values: seq<Option<real>>, keys: seq<K>, refValues: seq<Option<real>>, refKeys: seq<K>): (cells: seq<Cell>)
    requires |values| == |keys| && |refValues| == |refKeys|
    ensures |cells| == |values|
    ensures forall i :: 0 <= i < |values| ==> cells[i] == Divide(values[i], GroupSum(refValues, refKeys, keys[i]))
  {
    seq(|values|, i requires 0 <= i < |values| => Divide(values[i], GroupSum(refValues, refKeys, keys[i])))
  }

  /**
   * `close(expr, over)`: each value divided by the sum of the values sharing its key. A null
   * stays null, and a value whose group sums to zero becomes NaN or infinite.
   */
  function Close<K(==)>(values: seq<Option<real>>, keys: seq<K>): (closed: seq<Cell>)
    requires |values| == |keys|
    ensures |closed| == |values|
    ensures forall i :: 0 <= i < |values| ==> (closed[i].Null? <==> values[i].None?)
    ensures forall i :: 0 <= i < |values| ==>
      (closed[i].NonFinite? <==> values[i].Some? && GroupSum(values, keys, keys[i]) == 0.0)
    ensures forall i :: 0 <= i < |values| ==> closed[i] == Divide(values[i], GroupSum(values, keys, keys[i]))
  {
    ScaleBy(values, keys, values, keys)
  }

  /** The sum of the finite cells with key `k`. */
  function FiniteSum<K(==)>(cells: seq<Cell>, keys: seq<K>, k: K): real
    requires |cells| == |keys|
  {
    if |cells| == 0 then 0.0
    else
      var n := |cells| - 1;
      FiniteSum(cells[..n], keys[..n], k) + (if keys[n] == k && cells[n].Finite? then cells[n].value else 0.0)
  }

  /** Cells that hold the values of group `k` divided by `t` sum to the group's sum divided by `t`. */
  lemma {:induction false} ScaledGroupSum<K>(values: seq<Option<real>>, cells: seq<Cell>, keys: seq<K>, k: K, t: real)
    requires |values| == |cells| == |keys| && t != 0.0
    requires forall i :: 0 <= i < |keys| && keys[i] == k ==> cells[i] == Divide(values[i], t)
    ensures FiniteSum(cells, keys, k) * t == GroupSum(values, keys, k)
  {
    if |values| > 0 {
      var n := |values| - 1;
      ScaledGroupSum(values[..n], cells[..n], keys[..n], k, t);
      var f, g := FiniteSum(cells[..n], keys[..n], k), GroupSum(values[..n], keys[..n], k);
      if keys[n] == k && values[n].Some? {
        assert cells[n] == Finite(values[n].value / t);
        AddQuotient(f, t, g, values[n].value);
      } else if keys[n] == k {
        assert cells[n] == Null;
      }
    }
  }

  lemma UnitFactor(x: real, t: real)
    requires t != 0.0 && x * t == t
    ensures x == 1.0
  {
  }

  lemma AddQuotient(f: real, t: real, g: real, v: real)
    requires t != 0.0 && f * t == g
    ensures (f + v / t) * t == g + v
  {
  }

  /** Within a group whose sum is not zero, the closed values sum to 1. */
  lemma CloseSumsToOne<K>(values: seq<Option<real>>, keys: seq<K>, k: K)
    requires |values| == |keys| && GroupSum(values, keys, k) != 0.0
    ensures FiniteSum(Close(values, keys), keys, k) == 1.0
  {
    GroupSumsToOne(values, Close(values, keys), keys, k);
  }

  lemma GroupSumsToOne<K>(values: seq<Option<real>>, cells: seq<Cell>, keys: seq<K>, k: K)
    requires |values| == |cells| == |keys| && GroupSum(values, keys, k) != 0.0
    requires forall i :: 0 <= i < |keys| && keys[i] == k ==> cells[i] == Divide(values[i], GroupSum(values, keys, k))
    ensures FiniteSum(cells, keys, k) == 1.0
  {
    var total := GroupSum(values, keys, k);
    ScaledGroupSum(values, cells, keys, k, total);
    UnitFactor(FiniteSum(cells, keys, k), total);
  }

  /** Closing keeps the ratio of any two values of one group. */
  lemma CloseKeepsRatios<K>(values: seq<Option<real>>, keys: seq<K>, i: nat, j: nat)
    requires |values| == |keys| && i < |values| && j < |values| && keys[i] == keys[j]
    requires values[i].Some? && values[j].Some? && values[j].value != 0.0
    requires GroupSum(values, keys, keys[i]) != 0.0
    ensures var c := Close(values, keys);
      c[i].Finite? && c[j].Finite? && c[j].value != 0.0 && c[i].value / c[j].value == values[i].value / values[j].value
  {
    RatioOfQuotients(values[i].value, values[j].value, GroupSum(values, keys, keys[i]));
  }

  lemma RatioOfQuotients(a: real, b: real, s: real)
    requires b != 0.0 && s != 0.0
    ensures b / s != 0.0 && (a / s) / (b / s) == a / b
  {
    assert (a / s) / (b / s) == (a / s) * (s / b);
  }

  /** The docstring example: `[1, 2, 3]` over keys `[x, x, y]`. */
  lemma CloseDocExample()
    ensures Close([Some(1.0), Some(2.0), Some(3.0)], ["x", "x", "y"])
         == [Finite(1.0 / 3.0), Finite(2.0 / 3.0), Finite(1.0)]
  {
    var values, keys := [Some(1.0), Some(2.0), Some(3.0)], ["x", "x", "y"];
    assert values[..2] == [Some(1.0), Some(2.0)] && keys[..2] == ["x", "x"];
    assert values[..1] == [Some(1.0)] && keys[..1] == ["x"];
    assert GroupSum(values[..1], keys[..1], "x") == 1.0;
    assert GroupSum(values[..2], keys[..2], "x") == 3.0;
    assert GroupSum(values, keys, "x") == 3.0;
    assert GroupSum(values[..1], keys[..1], "y") == 0.0;
    assert GroupSum(values[..2], keys[..2], "y") == 0.0;
    assert GroupSum(values, keys, "y") == 3.0;
  }

  /** A closed column read back as nullable floats (no NaN or infinity in it). */
  function Reopen(cells: seq<Cell>): (values: seq<Option<real>>)
    requires forall i :: 0 <= i < |cells| ==> !cells[i].NonFinite?
    ensures |values| == |cells|
    ensures forall i :: 0 <= i < |cells| ==> values[i] == (if cells[i].Null? then None else Some(cells[i].value))
  {
    seq(|cells|, i requires 0 <= i < |cells| => if cells[i].Null? then None else Some(cells[i].value))
  }

  lemma {:induction false} ReopenSum<K>(cells: seq<Cell>, keys: seq<K>, k: K)
    requires |cells| == |keys| && forall i :: 0 <= i < |cells| ==> !cells[i].NonFinite?
    ensures GroupSum(Reopen(cells), keys, k) == FiniteSum(cells, keys, k)
  {
    if |cells| > 0 {
      var n := |cells| - 1;
      ReopenSum(cells[..n], keys[..n], k);
      assert Reopen(cells)[..n] == Reopen(cells[..n]);
    }
  }

  /** No group that holds a value sums to zero. */
  ghost predicate NoZeroSums<K>(values: seq<Option<real>>, keys: seq<K>)
    requires |values| == |keys|
  {
    forall i :: 0 <= i < |values| && values[i].Some? ==> GroupSum(values, keys, keys[i]) != 0.0
  }

  /** Closing an already closed column changes nothing. */
  lemma CloseIdempotent<K>(values: seq<Option<real>>, keys: seq<K>)
    requires |values| == |keys| && NoZeroSums(values, keys)
    ensures Close(Reopen(Close(values, keys)), keys) == Close(values, keys)
  {
    var c := Close(values, keys);
    var again := Close(Reopen(c), keys);
    forall i | 0 <= i < |values|
      ensures again[i] == c[i]
    {
      if values[i].Some? {
        CloseSumsToOne(values, keys, keys[i]);
        ReopenSum(c, keys, keys[i]);
      }
    }
  }

  /** Dropping rows of other groups, or null rows, leaves a group's sum unchanged. */
  lemma {:induction false} GroupSumSelect<K>(values: seq<Option<real>>, keys: seq<K>, keep: seq<bool>, k: K)
    requires |values| == |keys| == |keep|
    requires forall j :: 0 <= j < |values| && keys[j] == k && values[j].Some? ==> keep[j]
    ensures GroupSum(Select(values, keep), Select(keys, keep), k) == GroupSum(values, keys, k)
  {
    if |values| > 0 {
      var n := |values| - 1;
      GroupSumSelect(values[..n], keys[..n], keep[..n], k);
      var sv, sk := Select(values[..n], keep[..n]), Select(keys[..n], keep[..n]);
      if keep[n] {
        assert Select(values, keep) == sv + [values[n]];
        assert Select(keys, keep) == sk + [keys[n]];
        assert (sv + [values[n]])[..|sv|] == sv && (sk + [keys[n]])[..|sk|] == sk;
      } else {
        assert Select(values, keep) == sv && Select(keys, keep) == sk;
      }
    }
  }

  lemma {:induction false} SelectScaleBy<K>(values: seq<Option<real>>, keys: seq<K>, keep: seq<bool>,
                                            refValues: seq<Option<real>>, refKeys: seq<K>)
    requires |values| == |keys| == |keep| && |refValues| == |refKeys|
    ensures Select(ScaleBy(values, keys, refValues, refKeys), keep)
         == ScaleBy(Select(values, keep), Select(keys, keep), refValues, refKeys)
  {
    if |values| > 0 {
      var n := |values| - 1;
      SelectScaleBy(values[..n], keys[..n], keep[..n], refValues, refKeys);
      ScaleByFront(values, keys, refValues, refKeys);
      if keep[n] {
        ScaleBySnoc(Select(values[..n], keep[..n]), Select(keys[..n], keep[..n]), values[n], keys[n], refValues, refKeys);
      }
    }
  }

  lemma ScaleByFront<K>(values: seq<Option<real>>, keys: seq<K>, refValues: seq<Option<real>>, refKeys: seq<K>)
    requires |values| == |keys| > 0 && |refValues| == |refKeys|
    ensures ScaleBy(values, keys, refValues, refKeys)[..|values| - 1]
         == ScaleBy(values[..|values| - 1], keys[..|keys| - 1], refValues, refKeys)
  {
  }

  lemma ScaleBySnoc<K>(values: seq<Option<real>>, keys: seq<K>, v: Option<real>, k: K,
                       refValues: seq<Option<real>>, refKeys: seq<K>)
    requires |values| == |keys| && |refValues| == |refKeys|
    ensures ScaleBy(values + [v], keys + [k], refValues, refKeys)
         == ScaleBy(values, keys, refValues, refKeys) + [Divide(v, GroupSum(refValues, refKeys, k))]
  {
  }

  /** A row filter that drops either null rows or whole groups: every kept key keeps all its values. */
  ghost predicate KeepsWholeGroups<K>(values: seq<Option<real>>, keys: seq<K>, keep: seq<bool>)
    requires |values| == |keys| == |keep|
  {
    forall i, j :: 0 <= i < |keys| && 0 <= j < |keys| && keep[i] && keys[j] == keys[i] && values[j].Some? ==> keep[j]
  }

  /**
   * Closing after such a filter gives the kept rows of the closure before it: re-closing a
   * filtered column is a no-op.
   */
  lemma CloseSelect<K>(values: seq<Option<real>>, keys: seq<K>, keep: seq<bool>)
    requires |values| == |keys| == |keep| && KeepsWholeGroups(values, keys, keep)
    ensures Close(Select(values, keep), Select(keys, keep)) == Select(Close(values, keys), keep)
  {
    var sv, sk := Select(values, keep), Select(keys, keep);
    SelectScaleBy(values, keys, keep, values, keys);
    forall t | 0 <= t < |sk|
      ensures GroupSum(sv, sk, sk[t]) == GroupSum(values, keys, sk[t])
    {
      SelectOrigin(keys, keep, t);
      var i :| 0 <= i < |keys| && keep[i] && keys[i] == sk[t];
      GroupSumSelect(values, keys, keep, sk[t]);
    }
  }

  // ---------------------------------------------------------------------------------------------
  // Identifiers

  /**
   * The two patterns extracted from a measurement id: `ID_(\d+)_` for the sample and
   * `ID_\d+_rep_(\d+)` for the replicate (`\d` is an ASCII digit).
   */
  datatype IdPattern = SampleIdPattern | ReplicatePattern

  /** The bounds of the captured digits when the pattern matches `s` starting at `p`. */
  function MatchAt(pat: IdPattern, s: string, p: nat): (g: Option<(nat, nat)>)
    requires p <= |s|
    ensures g.Some? ==> OccursAt(s, p, "ID_") && p + 3 <= g.value.0 < g.value.1 <= |s|
    ensures g.Some? ==> AllDigits(s[g.value.0..g.value.1])
    ensures g.Some? ==> g.value.1 == |s| || !IsDigit(s[g.value.1])
  {
    if !OccursAt(s, p, "ID_") then None
    else
      var n := DigitRun(s, p + 3);
      if n == 0 then None
      else
        match pat
        case SampleIdPattern =>
          if OccursAt(s, p + 3 + n, "_") then DigitRunDigits(s, p + 3); Some((p + 3, p + 3 + n)) else None
        case ReplicatePattern =>
          if OccursAt(s, p + 3 + n, "_rep_") then
            var m := DigitRun(s, p + 8 + n);
            if m == 0 then None else DigitRunDigits(s, p + 8 + n); Some((p + 8 + n, p + 8 + n + m))
          else None
  }

  /** The leftmost position at or after `from` where the pattern matches. */
  function Search(pat: IdPattern, s: string, from: nat): (p: Option<nat>)
    requires from <= |s|
    ensures p.Some? ==> from <= p.value <= |s| && MatchAt(pat, s, p.value).Some?
    ensures forall q :: from <= q <= |s| && (p.None? || q < p.value) ==> MatchAt(pat, s, q).None?
    decreases |s| - from
  {
    if MatchAt(pat, s, from).Some? then Some(from)
    else if from == |s| then None
    else Search(pat, s, from + 1)
  }

  /** `str.extract(pattern)`: the captured digits of the leftmost match, or null. */
  function Extract(pat: IdPattern, s: string): (r: Option<string>)
    ensures r.Some? ==> |r.value| > 0 && AllDigits(r.value)
    ensures r.None? <==> forall q :: 0 <= q <= |s| ==> MatchAt(pat, s, q).None?
  {
    match Search(pat, s, 0)
    case None => None
    case Some(p) =>
      var g := MatchAt(pat, s, p).value;
      Some(s[g.0..g.1])
  }

  lemma SearchFindsFirst(pat: IdPattern, s: string, p: nat)
    requires p <= |s| && MatchAt(pat, s, p).Some?
    requires forall q :: 0 <= q < p ==> MatchAt(pat, s, q).None?
    ensures Search(pat, s, 0) == Some(p)
  {
  }

  const Int64Max: int := 0x7FFF_FFFF_FFFF_FFFF

  /** The error a strict cast raises for a value outside the 64-bit range (abridged). */
  const CastToInt64Failure: string := "conversion from `str` to `i64` failed"

  /** `.cast(int)`: null stays null, and a number beyond the 64-bit signed range raises. */
  function CastInt64(d: Option<string>): (r: Result<Option<int>>)
    requires d.Some? ==> AllDigits(d.value)
    ensures d.None? ==> r == Ok(None)
    ensures d.Some? ==> (r.Ok? <==> ParseNat(d.value) <= Int64Max)
    ensures d.Some? && r.Ok? ==> r.value == Some(ParseNat(d.value))
    ensures r.Ok? && r.value.Some? ==> 0 <= r.value.value <= Int64Max
    ensures r.Err? ==> r.error == CastToInt64Failure
  {
    match d
    case None => Ok(None)
    case Some(digits) =>
      var v := ParseNat(digits);
      if v <= Int64Max then Ok(Some(v)) else Err(CastToInt64Failure)
  }

  /** The `sample_id` column. */
  function SampleId(measurementId: string): (r: Result<Option<int>>)
    ensures var e := Extract(SampleIdPattern, measurementId);
      && (e.None? ==> r == Ok(None))
      && (e.Some? ==> (r.Ok? <==> ParseNat(e.value) <= Int64Max) && (r.Ok? ==> r.value == Some(ParseNat(e.value))))
      && (r.Err? ==> r.error == CastToInt64Failure)
  {
    CastInt64(Extract(SampleIdPattern, measurementId))
  }

  /** The `replicate_id` column. */
  function ReplicateId(measurementId: string): (r: Result<Option<int>>)
    ensures var e := Extract(ReplicatePattern, measurementId);
      && (e.None? ==> r == Ok(None))
      && (e.Some? ==> (r.Ok? <==> ParseNat(e.value) <= Int64Max) && (r.Ok? ==> r.value == Some(ParseNat(e.value))))
      && (r.Err? ==> r.error == CastToInt64Failure)
  {
    CastInt64(Extract(ReplicatePattern, measurementId))
  }

  /** The `is_c12` column: `sample_id == 0`, null when the sample id is null. */
  function IsC12(sampleId: Option<int>): (r: Option<bool>)
    ensures r.Some? <==> sampleId.Some?
    ensures r.Some? ==> (r.value <==> sampleId.value == 0)
  {
    match sampleId
    case None => None
    case Some(v) => Some(v == 0)
  }

  /** No position before the end of `pre` can start a match, because a match starts with `I`. */
  lemma NoMatchBefore(pat: IdPattern, pre: string, s: string)
    requires 'I' !in pre && |pre| <= |s| && s[..|pre|] == pre
    ensures forall q :: 0 <= q < |pre| ==> MatchAt(pat, s, q).None?
  {
    forall q | 0 <= q < |pre|
      ensures MatchAt(pat, s, q).None?
    {
      assert s[q] == pre[q];
    }
  }

  /**
   * The sample number follows `ID_` up to the next `_`; the one digit string that ends there is
   * read back as the number, and a number beyond the 64-bit range fails the cast.
   */
  lemma {:induction false} SampleIdOf(pre: string, n: nat, post: string)
    requires 'I' !in pre
    ensures var id := pre + "ID_" + NatToString(n) + "_" + post;
      && (n <= Int64Max ==> SampleId(id) == Ok(Some(n)) && IsC12(SampleId(id).value) == Some(n == 0))
      && (n > Int64Max ==> SampleId(id) == Err(CastToInt64Failure))
  {
    SampleIdExtract(pre, NatToString(n), post);
  }

  /** The sample pattern captures the digit run between `ID_` and the next `_`. */
  lemma SampleIdExtract(pre: string, d: string, post: string)
    requires 'I' !in pre && |d| > 0 && AllDigits(d)
    ensures Extract(SampleIdPattern, pre + "ID_" + d + "_" + post) == Some(d)
  {
    var id := pre + "ID_" + d + "_" + post;
    SampleLayout(id, pre, d, post);
    SampleExtractAt(id, pre, d);
  }

  /** The sample pattern over a string laid out as `pre` without an `I`, `ID_`, digits `d`, `_`. */
  lemma SampleExtractAt(s: string, pre: string, d: string)
    requires 'I' !in pre && |d| > 0 && AllDigits(d) && |pre| + 3 + |d| < |s| && s[..|pre|] == pre
    requires var at := |pre|;
      s[at..at + 3] == "ID_" && s[at + 3..at + 3 + |d|] == d && s[at + 3 + |d|] == '_'
    ensures Extract(SampleIdPattern, s) == Some(d)
  {
    var at := |pre|;
    SampleMatchAt(s, at, d);
    assert Search(SampleIdPattern, s, 0) == Some(at) by {
      NoMatchBefore(SampleIdPattern, pre, s);
      SearchFindsFirst(SampleIdPattern, s, at);
    }
    var g := MatchAt(SampleIdPattern, s, at).value;
    assert Extract(SampleIdPattern, s) == Some(s[g.0..g.1]);
  }

  /** Where the parts of `pre + "ID_" + d + "_" + post` lie. */
  lemma SampleLayout(s: string, pre: string, d: string, post: string)
    requires s == pre + "ID_" + d + "_" + post
    ensures var at := |pre|;
      && at + 4 + |d| + |post| == |s|
      && s[..at] == pre
      && s[at..at + 3] == "ID_" && s[at + 3..at + 3 + |d|] == d && s[at + 3 + |d|] == '_'
  {
  }

  /** The sample pattern over a string laid out as `ID_`, digits `d`, `_`. */
  lemma SampleMatchAt(s: string, at: nat, d: string)
    requires |d| > 0 && AllDigits(d) && at + 3 + |d| < |s|
    requires s[at..at + 3] == "ID_" && s[at + 3..at + 3 + |d|] == d && s[at + 3 + |d|] == '_'
    ensures MatchAt(SampleIdPattern, s, at).Some?
    ensures MatchAt(SampleIdPattern, s, at).value.0 == at + 3
    ensures MatchAt(SampleIdPattern, s, at).value.1 == at + 3 + |d|
  {
    DigitRunOf(s, at + 3, d);
    assert OccursAt(s, at, "ID_");
    assert OccursAt(s, at + 3 + |d|, "_") by {
      assert s[at + 3 + |d|..at + 4 + |d|] == [s[at + 3 + |d|]];
    }
  }

  /** The replicate pattern captures the digit run after `_rep_` when the digits are not followed by another digit. */
  lemma {:induction false} ReplicateExtract(pre: string, d: string, e: string, post: string)
    requires 'I' !in pre && |d| > 0 && AllDigits(d) && |e| > 0 && AllDigits(e)
    requires |post| == 0 || !IsDigit(post[0])
    ensures Extract(ReplicatePattern, pre + "ID_" + d + "_rep_" + e + post) == Some(e)
  {
    var id := pre + "ID_" + d + "_rep_" + e + post;
    var at := |pre|;
    ReplicateLayout(id, pre, d, e, post);
    ReplicateMatchAt(id, at, d, e);
    assert Search(ReplicatePattern, id, 0) == Some(at) by {
      NoMatchBefore(ReplicatePattern, pre, id);
      SearchFindsFirst(ReplicatePattern, id, at);
    }
  }

  /** Where the parts of `pre + "ID_" + d + "_rep_" + e + post` lie. */
  lemma ReplicateLayout(s: string, pre: string, d: string, e: string, post: string)
    requires s == pre + "ID_" + d + "_rep_" + e + post
    ensures var at := |pre|;
      && at + 8 + |d| + |e| + |post| == |s|
      && s[..at] == pre
      && s[at..at + 3] == "ID_" && s[at + 3..at + 3 + |d|] == d && s[at + 3 + |d|] == '_'
      && s[at + 3 + |d|..at + 8 + |d|] == "_rep_" && s[at + 8 + |d|..at + 8 + |d| + |e|] == e
      && (|post| > 0 ==> s[at + 8 + |d| + |e|] == post[0])
  {
  }

  /** The replicate pattern over a string laid out as `ID_`, digits `d`, `_rep_`, digits `e`, non-digit. */
  lemma ReplicateMatchAt(s: string, at: nat, d: string, e: string)
    requires |d| > 0 && AllDigits(d) && |e| > 0 && AllDigits(e)
    requires at + 3 + |d| + 5 + |e| <= |s|
    requires s[at..at + 3] == "ID_" && s[at + 3..at + 3 + |d|] == d && s[at + 3 + |d|] == '_'
    requires s[at + 3 + |d|..at + 8 + |d|] == "_rep_" && s[at + 8 + |d|..at + 8 + |d| + |e|] == e
    requires at + 8 + |d| + |e| < |s| ==> !IsDigit(s[at + 8 + |d| + |e|])
    ensures MatchAt(ReplicatePattern, s, at).Some?
    ensures MatchAt(ReplicatePattern, s, at).value.0 == at + 8 + |d|
    ensures MatchAt(ReplicatePattern, s, at).value.1 == at + 8 + |d| + |e|
  {
    var n := |d|;
    DigitRunOf(s, at + 3, d);
    DigitRunOf(s, at + 8 + n, e);
    assert OccursAt(s, at, "ID_");
    assert OccursAt(s, at + 3 + n, "_rep_");
    ReplicateMatchOfRuns(s, at, n, |e|);
  }

  lemma ReplicateMatchOfRuns(s: string, at: nat, n: nat, m: nat)
    requires at + 3 <= |s| && OccursAt(s, at, "ID_") && n > 0 && m > 0
    requires DigitRun(s, at + 3) == n
    requires OccursAt(s, at + 3 + n, "_rep_")
    requires DigitRun(s, at + 8 + n) == m
    ensures MatchAt(ReplicatePattern, s, at).Some?
    ensures MatchAt(ReplicatePattern, s, at).value.0 == at + 8 + n
    ensures MatchAt(ReplicatePattern, s, at).value.1 == at + 8 + n + m
  {
  }

  /**
   * In `…ID_<n>_rep_<r>…` the replicate number is the whole digit run after `_rep_`, and the
   * sample number is `n`.
   */
  lemma {:induction false} ReplicateIdOf(pre: string, n: nat, r: nat, post: string)
    requires 'I' !in pre && (|post| == 0 || !IsDigit(post[0]))
    ensures var id := pre + "ID_" + NatToString(n) + "_rep_" + NatToString(r) + post;
      && (r <= Int64Max ==> ReplicateId(id) == Ok(Some(r)))
      && (r > Int64Max ==> ReplicateId(id) == Err(CastToInt64Failure))
      && (n <= Int64Max ==> SampleId(id) == Ok(Some(n)))
  {
    var d, e := NatToString(n), NatToString(r);
    var id := pre + "ID_" + d + "_rep_" + e + post;
    assert Extract(ReplicatePattern, id) == Some(e) by {
      ReplicateExtract(pre, d, e, post);
    }
    assert n <= Int64Max ==> SampleId(id) == Ok(Some(n)) by {
      RepTail(pre + "ID_" + d, e, post);
      SampleIdOf(pre, n, "rep_" + e + post);
    }
  }

  lemma RepTail(head: string, e: string, post: string)
    ensures head + "_rep_" + e + post == head + "_" + ("rep_" + e + post)
  {
    assert "_rep_" == "_" + "rep_";
  }

  /** An id without `ID_` has a null sample, replicate and `is_c12`. */
  lemma NoIdTag(s: string)
    requires forall q :: 0 <= q <= |s| ==> !OccursAt(s, q, "ID_")
    ensures SampleId(s) == Ok(None) && ReplicateId(s) == Ok(None) && IsC12(SampleId(s).value) == None
  {
  }

  /**
   * Where `.*_(m\d+)$` and `(.*)_m\d+$` match a natural id: the start of the match and the
   * position of the `_` before the isotopologue. Only the last `_` can be followed by `m` and
   * digits up to the end, and the leftmost start is just after the last line break before it,
   * since `.` does not match a line break.
   */
  function NaturalIdMatch(id: string): (r: Option<(nat, nat)>)
    ensures r.Some? ==> r.value.0 <= r.value.1 && r.value.1 + 2 < |id|
  {
    match LastIndex(id, '_')
    case None => None
    case Some(q) =>
      if q + 2 < |id| && id[q + 1] == 'm' && AllDigits(id[q + 2..]) then
        match LastIndex(id[..q], '\n')
        case None => Some((0, q))
        case Some(j) => Some((j + 1, q))
      else None
  }

  /** The `isotopologue` column of the natural table: `m` and the digits at the end of the id. */
  function IsotopologueOf(id: string): (iso: Option<string>)
    ensures iso.Some? ==> |iso.value| >= 2 && iso.value[0] == 'm' && AllDigits(iso.value[1..])
    ensures iso.Some? ==> |iso.value| < |id| && id[|id| - |iso.value| - 1..] == "_" + iso.value
  {
    match NaturalIdMatch(id)
    case None => None
    case Some((start, q)) =>
      assert id[q..] == "_" + id[q + 1..];
      Some(id[q + 1..])
  }

  /** The `metabolite` column of the natural table: the id up to that `_`, from the last line break on. */
  function MetaboliteOf(id: string): (met: Option<string>)
    ensures met.Some? <==> IsotopologueOf(id).Some?
    ensures met.Some? ==> '\n' !in met.value
  {
    match NaturalIdMatch(id)
    case None => None
    case Some((start, q)) =>
      assert id[start..q] == id[..q][start..];
      Some(id[start..q])
  }

  /** A single-line id splits back into metabolite, `_` and isotopologue. */
  lemma NaturalIdRoundTrip(id: string)
    requires '\n' !in id && IsotopologueOf(id).Some?
    ensures MetaboliteOf(id).value + "_" + IsotopologueOf(id).value == id
  {
    var q := NaturalIdMatch(id).value.1;
    assert NaturalIdMatch(id).value.0 == 0 by {
      assert forall i :: 0 <= i < q ==> id[..q][i] == id[i] && id[i] in id;
    }
    assert id == id[..q] + "_" + id[q + 1..];
  }

  /**
   * `<met>_m<n>` splits into `met` and `m<n>`: the metabolite is the longest prefix, so it may
   * itself contain `_`.
   */
  lemma {:induction false} NaturalIdOf(met: string, n: nat)
    requires '\n' !in met
    ensures var id := met + "_m" + NatToString(n);
      IsotopologueOf(id) == Some("m" + NatToString(n)) && MetaboliteOf(id) == Some(met)
  {
    var d := NatToString(n);
    var id := met + "_m" + d;
    var q := |met|;
    NaturalIdMatchOf(met, d);
    assert IsotopologueOf(id) == Some(id[q + 1..]);
    assert id[q + 1..] == "m" + d;
    assert MetaboliteOf(id) == Some(id[0..q]);
    assert id[0..q] == met;
  }

  /** The last `_` of `met + "_m" + d` is the one before `m`, and no line break precedes it. */
  lemma NaturalIdMatchOf(met: string, d: string)
    requires '\n' !in met && |d| > 0 && AllDigits(d)
    ensures var r := NaturalIdMatch(met + "_m" + d);
      r.Some? && r.value.0 == 0 && r.value.1 == |met|
  {
    var id := met + "_m" + d;
    var q := |met|;
    assert id[q] == '_' && id[q + 1] == 'm' && id[q + 2..] == d;
    assert LastIndex(id, '_').Some? && LastIndex(id, '_').value == q by {
      assert forall i :: q + 2 <= i < |id| ==> id[i] == d[i - q - 2] && IsDigit(d[i - q - 2]);
    }
    assert id[..q] == met;
    assert LastIndex(id[..q], '\n').None?;
  }

  lemma NaturalIdExample()
    ensures IsotopologueOf("ru5p_m0") == Some("m0") && MetaboliteOf("ru5p_m0") == Some("ru5p")
  {
    NaturalIdOf("ru5p", 0);
    assert NatToString(0) == "0";
    assert "ru5p" + "_m" + NatToString(0) == "ru5p_m0";
  }

  /** The substrings whose ids and metabolites are dropped from Daria's tables. */
  const MetabolitesToExclude: seq<string> := ["6pgc", "oaa", "g3p"]

  /** `str.contains_any(patterns)`. */
  predicate ContainsAny(s: string, patterns: seq<string>)
  {
    exists p, q :: 0 <= p < |patterns| && 0 <= q <= |s| && OccursAt(s, q, patterns[p])
  }

  // ---------------------------------------------------------------------------------------------
  // prepare_data_sergi

  /** A row of Sergi's table once renamed, filtered to `peak_apex_int` and unpivoted. */
  datatype SergiRow = SergiRow(isotopologue: string, species: string, measurementId: string, rawFraction: Option<real>)

  /** A row with the derived columns of the first two `with_columns` calls. */
  datatype PreparedRow = PreparedRow(isotopologue: string, species: string, measurementId: string,
                                     rawFraction: Option<real>, sampleId: Option<int>, replicateId: Option<int>,
                                     fraction: Cell, isC12: Option<bool>)

  function RawFractions(rows: seq<SergiRow>): (col: seq<Option<real>>)
    ensures |col| == |rows| && forall i :: 0 <= i < |rows| ==> col[i] == rows[i].rawFraction
  {
    seq(|rows|, i requires 0 <= i < |rows| => rows[i].rawFraction)
  }

  /** The closure key of Sergi's table: (`measurement_id`, `species`). */
  function MeasurementKeys(rows: seq<SergiRow>): (keys: seq<(string, string)>)
    ensures |keys| == |rows| && forall i :: 0 <= i < |rows| ==> keys[i] == (rows[i].measurementId, rows[i].species)
  {
    seq(|rows|, i requires 0 <= i < |rows| => (rows[i].measurementId, rows[i].species))
  }

  /** The sample and replicate ids of one measurement id. */
  function Ids(measurementId: string): (r: Result<(Option<int>, Option<int>)>)
    ensures r.Ok? <==> SampleId(measurementId).Ok? && ReplicateId(measurementId).Ok?
    ensures r.Ok? ==> r.value == (SampleId(measurementId).value, ReplicateId(measurementId).value)
  {
    match SampleId(measurementId)
    case Err(e) => Err(e)
    case Ok(sample) =>
      match ReplicateId(measurementId)
      case Err(e) => Err(e)
      case Ok(replicate) => Ok((sample, replicate))
  }

  /** The sample and replicate ids of one row. */
  function RowIds(row: SergiRow): Result<(Option<int>, Option<int>)>
  {
    Ids(row.measurementId)
  }

  /** The ids of every row; a strict cast that fails anywhere fails the whole column. */
  function AllIds(rows: seq<SergiRow>): (r: Result<seq<(Option<int>, Option<int>)>>)
    ensures r.Ok? <==> forall i :: 0 <= i < |rows| ==> Ids(rows[i].measurementId).Ok?
    ensures r.Ok? ==> |r.value| == |rows| && forall i :: 0 <= i < |rows| ==> Ids(rows[i].measurementId) == Ok(r.value[i])
  {
    MapAll(rows, RowIds)
  }

  /** `sample_id`, `replicate_id`, the closed `fraction` and `is_c12`. */
  function DeriveColumns(rows: seq<SergiRow>): (r: Result<seq<PreparedRow>>)
    ensures r.Ok? <==> forall i :: 0 <= i < |rows| ==> SampleId(rows[i].measurementId).Ok? && ReplicateId(rows[i].measurementId).Ok?
    ensures r.Ok? ==> |r.value| == |rows|
    ensures r.Ok? ==> forall i :: 0 <= i < |rows| ==>
      var row := r.value[i];
      && row.isotopologue == rows[i].isotopologue && row.species == rows[i].species
      && row.measurementId == rows[i].measurementId && row.rawFraction == rows[i].rawFraction
      && Ok(row.sampleId) == SampleId(rows[i].measurementId) && Ok(row.replicateId) == ReplicateId(rows[i].measurementId)
      && row.fraction == Close(RawFractions(rows), MeasurementKeys(rows))[i]
      && row.isC12 == IsC12(row.sampleId)
  {
    match AllIds(rows)
    case Err(e) => Err(e)
    case Ok(ids) =>
      var fractions := Close(RawFractions(rows), MeasurementKeys(rows));
      Ok(seq(|rows|, i requires 0 <= i < |rows| =>
        PreparedRow(rows[i].isotopologue, rows[i].species, rows[i].measurementId, rows[i].rawFraction,
                    ids[i].0, ids[i].1, fractions[i], IsC12(ids[i].0))))
  }

  /** The table `out` of the loop: the prepared rows and the simulated columns added so far. */
  datatype SergiTable = SergiTable(rows: seq<PreparedRow>, simulated: seq<(string, seq<real>)>)

  /** The names the loop iterates over, in order. */
  const SergiTransformations: seq<string> := ["alr", "clr", "ilr"]

  /** What `simulate` reads of the table. */
  function SimulationInput(rows: seq<PreparedRow>): (dataset: seq<Row<Cell>>)
    ensures |dataset| == |rows|
  {
    seq(|rows|, i requires 0 <= i < |rows| => Row(rows[i].measurementId, rows[i].species, rows[i].fraction))
  }

  function ShapeErrorMessage(length: nat, height: nat): string
  {
    "unable to add a column of length " + NatToString(length) + " to a DataFrame of height " + NatToString(height)
  }

  /** `out.with_columns(column.alias(name))`: a column must have one value per row. */
  function AddColumn(t: SergiTable, name: string, column: seq<real>): (r: Result<SergiTable>)
    ensures r.Ok? <==> |column| == |t.rows|
    ensures r.Ok? ==> r.value.rows == t.rows && r.value.simulated == t.simulated + [(name, column)]
    ensures r.Err? ==> r.error == ShapeErrorMessage(|column|, |t.rows|)
  {
    if |column| == |t.rows| then Ok(SergiTable(t.rows, t.simulated + [(name, column)]))
    else Err(ShapeErrorMessage(|column|, |t.rows|))
  }

  /** The first `names` passes of the loop, threading the random stream from `from`. */
  function SimulationPasses(t: SergiTable, names: seq<string>, family: Family<Cell>, rng: nat -> real, from: nat)
    : (r: Result<(SergiTable, nat)>)
    ensures r.Ok? ==> r.value.0.rows == t.rows && |r.value.0.simulated| == |t.simulated| + |names|
    ensures r.Ok? ==> r.value.0.simulated[..|t.simulated|] == t.simulated
    ensures r.Ok? ==> from <= r.value.1
    decreases |names|
  {
    if |names| == 0 then Ok((t, from))
    else
      match SimulationPasses(t, names[..|names| - 1], family, rng, from)
      case Err(e) => Err(e)
      case Ok((out, next)) =>
        var name := names[|names| - 1];
        match Simulate(SimulationInput(out.rows), SimErrorSd, name, family, rng, next)
        case Err(e) => Err(e)
        case Ok(sim) =>
          match AddColumn(out, "sim_fraction_" + name, sim.values)
          case Err(e) => Err(e)
          case Ok(added) => Ok((added, sim.next))
  }

  /** `prepare_data_sergi` from the unpivoted rows on. */
  function PrepareSergiSpec(raw: seq<SergiRow>, family: Family<Cell>, rng: nat -> real, from: nat)
    : (r: Result<(SergiTable, nat)>)
    ensures DeriveColumns(raw).Err? ==> r == Err(DeriveColumns(raw).error)
    ensures r.Ok? ==> DeriveColumns(raw).Ok? && r.value.0.rows == DeriveColumns(raw).value
    ensures r.Ok? ==> |r.value.0.simulated| == 3 && from <= r.value.1
  {
    match DeriveColumns(raw)
    case Err(e) => Err(e)
    case Ok(rows) => SimulationPasses(SergiTable(rows, []), SergiTransformations, family, rng, from)
  }

  /** Once a pass fails, the loop's outcome is that failure. */
  lemma {:induction false} PassesErrorPersists(t: SergiTable, names: seq<string>, k: nat, family: Family<Cell>,
                                               rng: nat -> real, from: nat)
    requires k <= |names| && SimulationPasses(t, names[..k], family, rng, from).Err?
    ensures SimulationPasses(t, names, family, rng, from) == SimulationPasses(t, names[..k], family, rng, from)
    decreases |names|
  {
    if k < |names| {
      var shorter := names[..|names| - 1];
      assert shorter[..k] == names[..k];
      PassesErrorPersists(t, shorter, k, family, rng, from);
    } else {
      assert names[..k] == names;
    }
  }

  /**
   * The loop rebinding `out` once per transformation: each pass simulates the same fraction
   * column, draws from the stream where the previous pass stopped and adds one column.
   */
  method PrepareSergi(raw: seq<SergiRow>, family: Family<Cell>, rng: nat -> real, from: nat)
    returns (r: Result<(SergiTable, nat)>)
    ensures r == PrepareSergiSpec(raw, family, rng, from)
  {
    var derived := DeriveColumns(raw);
    if derived.Err? {
      return Err(derived.error);
    }
    r := SimulateAll(SergiTable(derived.value, []), SergiTransformations, family, rng, from);
  }

  /** The loop of `prepare_data_sergi` over the transformation names, rebinding `out` each pass. */
  method SimulateAll(start: SergiTable, names: seq<string>, family: Family<Cell>, rng: nat -> real, from: nat)
    returns (r: Result<(SergiTable, nat)>)
    ensures r == SimulationPasses(start, names, family, rng, from)
  {
    var out := start;
    var next := from;
    for k := 0 to |names|
      invariant SimulationPasses(start, names[..k], family, rng, from).Ok?
      invariant SimulationPasses(start, names[..k], family, rng, from).value.0 == out
      invariant SimulationPasses(start, names[..k], family, rng, from).value.1 == next
    {
      PassStep(start, names, k, family, rng, from);
      var sim := Simulate(SimulationInput(out.rows), SimErrorSd, names[k], family, rng, next);
      if sim.Err? {
        PassesErrorPersists(start, names, k + 1, family, rng, from);
        return Err(sim.error);
      }
      var added := AddColumn(out, "sim_fraction_" + names[k], sim.value.values);
      if added.Err? {
        PassesErrorPersists(start, names, k + 1, family, rng, from);
        return Err(added.error);
      }
      out := added.value;
      next := sim.value.next;
    }
    assert names[..|names|] == names;
    return Ok((out, next));
  }

  /** Pass `k` runs on the table and stream position the first `k` passes left. */
  lemma PassStep(start: SergiTable, names: seq<string>, k: nat, family: Family<Cell>, rng: nat -> real, from: nat)
    requires k < |names| && SimulationPasses(start, names[..k], family, rng, from).Ok?
    ensures var before := SimulationPasses(start, names[..k], family, rng, from).value;
      var sim := Simulate(SimulationInput(before.0.rows), SimErrorSd, names[k], family, rng, before.1);
      var after := SimulationPasses(start, names[..k + 1], family, rng, from);
      && (sim.Err? ==> after == Err(sim.error))
      && (sim.Ok? ==> var added := AddColumn(before.0, "sim_fraction_" + names[k], sim.value.values);
            && (added.Err? ==> after == Err(added.error))
            && (added.Ok? ==> after.Ok? && after.value.0 == added.value && after.value.1 == sim.value.next))
  {
    assert names[..k + 1][..k] == names[..k];
  }

  /** Passes keep the rows, add one column per name, named after it, with one value per row. */
  lemma {:induction false} PassesColumns(t: SergiTable, names: seq<string>, family: Family<Cell>, rng: nat -> real, from: nat)
    requires t.simulated == []
    ensures var r := SimulationPasses(t, names, family, rng, from);
      r.Ok? ==> && r.value.0.rows == t.rows
                && |r.value.0.simulated| == |names|
                && forall k :: 0 <= k < |names| ==>
                     r.value.0.simulated[k].0 == "sim_fraction_" + names[k] && |r.value.0.simulated[k].1| == |t.rows|
    decreases |names|
  {
    var r := SimulationPasses(t, names, family, rng, from);
    if |names| > 0 && r.Ok? {
      var shorter := names[..|names| - 1];
      PassesColumns(t, shorter, family, rng, from);
      var p := SimulationPasses(t, shorter, family, rng, from);
      var out := p.value.0;
      var name := names[|names| - 1];
      var sim := Simulate(SimulationInput(out.rows), SimErrorSd, name, family, rng, p.value.1);
      var added := AddColumn(out, "sim_fraction_" + name, sim.value.values);
      assert r.value.0 == added.value;
      var cols := r.value.0.simulated;
      forall k | 0 <= k < |names|
        ensures cols[k].0 == "sim_fraction_" + names[k] && |cols[k].1| == |t.rows|
      {
        if k < |shorter| {
          assert cols[k] == out.simulated[k] && shorter[k] == names[k];
        } else {
          assert cols[k] == ("sim_fraction_" + name, sim.value.values);
        }
      }
    }
  }

  /**
   * A successful run keeps one prepared row per unpivoted row, with `fraction` closed over
   * (`measurement_id`, `species`), and adds `sim_fraction_alr`, `sim_fraction_clr` and
   * `sim_fraction_ilr` in that order, each with one value per row.
   */
  lemma SergiOutput(raw: seq<SergiRow>, family: Family<Cell>, rng: nat -> real, from: nat)
    ensures var r := PrepareSergiSpec(raw, family, rng, from);
      r.Ok? ==> && |r.value.0.rows| == |raw|
                && (forall i :: 0 <= i < |raw| ==> r.value.0.rows[i].fraction == Close(RawFractions(raw), MeasurementKeys(raw))[i])
                && |r.value.0.simulated| == 3
                && r.value.0.simulated[0].0 == "sim_fraction_alr"
                && r.value.0.simulated[1].0 == "sim_fraction_clr"
                && r.value.0.simulated[2].0 == "sim_fraction_ilr"
                && forall k :: 0 <= k < 3 ==> |r.value.0.simulated[k].1| == |raw|
  {
    var derived := DeriveColumns(raw);
    if derived.Ok? {
      PassesColumns(SergiTable(derived.value, []), SergiTransformations, family, rng, from);
    }
  }

  /**
   * Without noise and with pairs whose round trips reproduce the cells' values, every pass
   * succeeds and each added column holds, at position `j`, the value of row `RowOrder[j]`.
   */
  lemma {:induction false} PassesAligned(t: SergiTable, names: seq<string>, family: Family<Cell>, value: Cell -> real,
                                         rng: nat -> real, from: nat)
    requires forall k :: 0 <= k < |names| ==> names[k] in TransformationNames
    requires FamilyReproduces(family, value) && Silent(SimErrorSd, rng)
    ensures var r := SimulationPasses(t, names, family, rng, from);
      var dataset := SimulationInput(t.rows);
      var order := RowOrder(GroupKeys(dataset));
      && r.Ok?
      && |order| == |t.rows| && (forall j :: 0 <= j < |order| ==> order[j] < |t.rows|)
      && forall k :: |t.simulated| <= k < |r.value.0.simulated| ==>
           r.value.0.simulated[k].1 == Values(Gather(dataset, order), value)
    decreases |names|
  {
    var dataset := SimulationInput(t.rows);
    var keys := GroupKeys(dataset);
    RowOrderIsPermutation(keys);
    StackedBounded(keys, FirstAppearance(keys));
    if |names| > 0 {
      var shorter := names[..|names| - 1];
      PassesAligned(t, shorter, family, value, rng, from);
      var p := SimulationPasses(t, shorter, family, rng, from).value;
      var name := names[|names| - 1];
      var tr := ParseTransformation(name).value;
      assert Reproduces(PairOf(family, tr), value) by { match tr case Alr => case Clr => case Ilr => }
      SimulateAlignment(dataset, SimErrorSd, tr, family, value, rng, p.1);
      var sim := Simulate(dataset, SimErrorSd, name, family, rng, p.1);
      var added := AddColumn(p.0, "sim_fraction_" + name, sim.value.values);
      var r := SimulationPasses(t, names, family, rng, from);
      assert r == Ok((added.value, sim.value.next));
      var column := Values(Gather(dataset, RowOrder(keys)), value);
      forall k | |t.simulated| <= k < |r.value.0.simulated|
        ensures r.value.0.simulated[k].1 == column
      {
        if k < |p.0.simulated| {
          assert r.value.0.simulated[k] == p.0.simulated[k];
        }
      }
    }
  }

  /**
   * Each `sim_fraction_<name>` column lines up with the rows only when every (`measurement_id`,
   * `species`) group is contiguous. Without noise and with pairs whose round trips reproduce the
   * cells' values, a run fails only where deriving the columns fails, and position `j` of each
   * simulated column holds the value of the closed fraction of row `RowOrder[j]`: the row's own
   * fraction for contiguous groups, and another row's at some position otherwise.
   */
  lemma SergiAlignment(raw: seq<SergiRow>, family: Family<Cell>, value: Cell -> real, rng: nat -> real, from: nat)
    requires FamilyReproduces(family, value) && Silent(SimErrorSd, rng)
    ensures PrepareSergiSpec(raw, family, rng, from).Ok? <==> DeriveColumns(raw).Ok?
    ensures var order := RowOrder(MeasurementKeys(raw));
      |order| == |raw| && forall j :: 0 <= j < |raw| ==> order[j] < |raw|
    ensures var r := PrepareSergiSpec(raw, family, rng, from);
      var order := RowOrder(MeasurementKeys(raw));
      var fractions := Close(RawFractions(raw), MeasurementKeys(raw));
      r.Ok? ==> && |r.value.0.simulated| == 3
                && (forall k :: 0 <= k < 3 ==> |r.value.0.simulated[k].1| == |raw|)
                && forall k, j :: 0 <= k < 3 && 0 <= j < |raw| ==>
                     r.value.0.simulated[k].1[j] == value(fractions[order[j]])
    ensures var r := PrepareSergiSpec(raw, family, rng, from);
      var fractions := Close(RawFractions(raw), MeasurementKeys(raw));
      r.Ok? && Contiguous(MeasurementKeys(raw)) ==> forall k, j :: 0 <= k < 3 && 0 <= j < |raw| ==>
        r.value.0.simulated[k].1[j] == value(fractions[j])
    ensures !Contiguous(MeasurementKeys(raw)) ==> exists j :: 0 <= j < |raw| && RowOrder(MeasurementKeys(raw))[j] != j
  {
    var keys := MeasurementKeys(raw);
    RowOrderIsPermutation(keys);
    StackedBounded(keys, FirstAppearance(keys));
    RowOrderIdentityIffContiguous(keys);
    var order := RowOrder(keys);
    if !Contiguous(keys) {
      assert order != Range(|raw|);
      var j :| 0 <= j < |raw| && order[j] != Range(|raw|)[j];
    }
    if DeriveColumns(raw).Ok? {
      SergiColumns(raw, family, value, rng, from);
      if Contiguous(keys) {
        var cols := PrepareSergiSpec(raw, family, rng, from).value.0.simulated;
        var fractions := Close(RawFractions(raw), keys);
        forall k, j | 0 <= k < 3 && 0 <= j < |raw|
          ensures cols[k].1[j] == value(fractions[j])
        {
          assert order[j] == Range(|raw|)[j] == j;
        }
      }
    }
  }

  /** The column facts of `SergiAlignment`, for a table whose columns derive. */
  lemma SergiColumns(raw: seq<SergiRow>, family: Family<Cell>, value: Cell -> real, rng: nat -> real, from: nat)
    requires FamilyReproduces(family, value) && Silent(SimErrorSd, rng) && DeriveColumns(raw).Ok?
    ensures var r := PrepareSergiSpec(raw, family, rng, from);
      var order := RowOrder(MeasurementKeys(raw));
      var fractions := Close(RawFractions(raw), MeasurementKeys(raw));
      && r.Ok?
      && |order| == |raw| && (forall j :: 0 <= j < |raw| ==> order[j] < |raw|)
      && |r.value.0.simulated| == 3
      && (forall k :: 0 <= k < 3 ==> |r.value.0.simulated[k].1| == |raw|)
      && forall k, j :: 0 <= k < 3 && 0 <= j < |raw| ==> r.value.0.simulated[k].1[j] == value(fractions[order[j]])
  {
    var keys := MeasurementKeys(raw);
    var derived := DeriveColumns(raw);
    var dataset := SimulationInput(derived.value);
    SergiInput(raw);
    PassesAligned(SergiTable(derived.value, []), SergiTransformations, family, value, rng, from);
    var cols := PrepareSergiSpec(raw, family, rng, from).value.0.simulated;
    var order := RowOrder(keys);
    var fractions := Close(RawFractions(raw), keys);
    var column := Values(Gather(dataset, order), value);
    assert forall k :: 0 <= k < 3 ==> cols[k].1 == column;
    assert forall j :: 0 <= j < |raw| ==> column[j] == value(fractions[order[j]]);
  }

  /** The simulation sees the closure key and the closed fraction of every derived row. */
  lemma SergiInput(raw: seq<SergiRow>)
    requires DeriveColumns(raw).Ok?
    ensures var dataset := SimulationInput(DeriveColumns(raw).value);
      && GroupKeys(dataset) == MeasurementKeys(raw)
      && forall i :: 0 <= i < |raw| ==> dataset[i].fraction == Close(RawFractions(raw), MeasurementKeys(raw))[i]
  {
    var dataset := SimulationInput(DeriveColumns(raw).value);
    assert GroupKeys(dataset) == MeasurementKeys(raw);
  }

  /** Every name the loop passes is accepted, so `simulate` never raises the name error there. */
  lemma SergiNamesAccepted()
    ensures forall k :: 0 <= k < |SergiTransformations| ==> ParseTransformation(SergiTransformations[k]).Ok?
  {
  }

  // ---------------------------------------------------------------------------------------------
  // prepare_data_daria

  /** A row of the theoretical table: an id such as `ru5p_m0` and its natural abundance. */
  datatype NaturalRow = NaturalRow(id: string, theoretical: Option<real>)

  /** A row of `natural` after its filter and derived columns. */
  datatype NaturalFraction = NaturalFraction(id: string, isotopologue: Option<string>, metabolite: Option<string>,
                                             naturalFraction: Cell)

  function KeepNatural(rows: seq<NaturalRow>): (keep: seq<bool>)
    ensures |keep| == |rows| && forall i :: 0 <= i < |rows| ==> (keep[i] <==> !ContainsAny(rows[i].id, MetabolitesToExclude))
  {
    seq(|rows|, i requires 0 <= i < |rows| => !ContainsAny(rows[i].id, MetabolitesToExclude))
  }

  function Theoreticals(rows: seq<NaturalRow>): (col: seq<Option<real>>)
    ensures |col| == |rows| && forall i :: 0 <= i < |rows| ==> col[i] == rows[i].theoretical
  {
    seq(|rows|, i requires 0 <= i < |rows| => rows[i].theoretical)
  }

  function Metabolites(rows: seq<NaturalRow>): (col: seq<Option<string>>)
    ensures |col| == |rows| && forall i :: 0 <= i < |rows| ==> col[i] == MetaboliteOf(rows[i].id)
  {
    seq(|rows|, i requires 0 <= i < |rows| => MetaboliteOf(rows[i].id))
  }

  /** `natural`: excluded ids dropped, id split, `Theoretical` closed per metabolite. */
  function PrepareNatural(rows: seq<NaturalRow>): (out: seq<NaturalFraction>)
    ensures var kept := Select(rows, KeepNatural(rows));
      && |out| == |kept|
      && forall i :: 0 <= i < |kept| ==>
           && out[i].id == kept[i].id
           && out[i].isotopologue == IsotopologueOf(kept[i].id)
           && out[i].metabolite == MetaboliteOf(kept[i].id)
           && out[i].naturalFraction == Close(Theoreticals(kept), Metabolites(kept))[i]
  {
    var kept := Select(rows, KeepNatural(rows));
    var closed := Close(Theoreticals(kept), Metabolites(kept));
    seq(|kept|, i requires 0 <= i < |kept| =>
      NaturalFraction(kept[i].id, IsotopologueOf(kept[i].id), MetaboliteOf(kept[i].id), closed[i]))
  }

  /** No excluded id survives the filter. */
  lemma NaturalExcludes(rows: seq<NaturalRow>)
    ensures forall i :: 0 <= i < |PrepareNatural(rows)| ==> !ContainsAny(PrepareNatural(rows)[i].id, MetabolitesToExclude)
  {
    var kept := Select(rows, KeepNatural(rows));
    forall i | 0 <= i < |kept|
      ensures !ContainsAny(kept[i].id, MetabolitesToExclude)
    {
      SelectOrigin(rows, KeepNatural(rows), i);
    }
  }

  /** A measurement row once renamed and cast, with the isotopologue taken from the component name. */
  datatype MstRow = MstRow(sample: string, metabolite: string, isotopologue: Option<string>, measurement: Option<real>)

  /** The aggregation key (`sample`, `metabolite`, `isotopologue`). */
  type MstKey = (string, string, Option<string>)

  function MstKeys(rows: seq<MstRow>): (keys: seq<MstKey>)
    ensures |keys| == |rows| && forall i :: 0 <= i < |rows| ==> keys[i] == (rows[i].sample, rows[i].metabolite, rows[i].isotopologue)
  {
    seq(|rows|, i requires 0 <= i < |rows| => (rows[i].sample, rows[i].metabolite, rows[i].isotopologue))
  }

  function Heights(rows: seq<MstRow>): (col: seq<Option<real>>)
    ensures |col| == |rows| && forall i :: 0 <= i < |rows| ==> col[i] == rows[i].measurement
  {
    seq(|rows|, i requires 0 <= i < |rows| => rows[i].measurement)
  }

  /**
   * `group_by(sample, metabolite, isotopologue).agg(measurement.sum())`: one total per key, the
   * sum of its non-null heights.
   */
  function Aggregate(rows: seq<MstRow>): (totals: map<MstKey, real>)
    ensures forall k :: k in totals <==> k in MstKeys(rows)
    ensures forall k :: k in totals ==> totals[k] == GroupSum(Heights(rows), MstKeys(rows), k)
  {
    var keys := MstKeys(rows);
    map k | k in keys :: GroupSum(Heights(rows), keys, k)
  }

  /** A group sum over rows that are all null is 0. */
  lemma {:induction false} GroupSumOfNulls<K>(values: seq<Option<real>>, keys: seq<K>, k: K)
    requires |values| == |keys|
    requires forall i :: 0 <= i < |keys| && keys[i] == k ==> values[i].None?
    ensures GroupSum(values, keys, k) == 0.0
  {
    if |values| > 0 {
      var n := |values| - 1;
      GroupSumOfNulls(values[..n], keys[..n], k);
    }
  }

  /** A key whose heights all failed the cast aggregates to a measurement of 0, not to null. */
  lemma AggregateOfNulls(rows: seq<MstRow>, i: nat)
    requires i < |rows|
    requires forall j :: 0 <= j < |rows| && MstKeys(rows)[j] == MstKeys(rows)[i] ==> rows[j].measurement.None?
    ensures Aggregate(rows)[MstKeys(rows)[i]] == 0.0
  {
    GroupSumOfNulls(Heights(rows), MstKeys(rows), MstKeys(rows)[i]);
  }

  /** A row of `natural_with_samples`: a natural fraction paired with a sample measuring that metabolite. */
  datatype NaturalSample = NaturalSample(sample: string, metabolite: string, isotopologue: Option<string>, naturalFraction: Cell)

  /** A row of the prepared calibration table. */
  datatype DariaRow = DariaRow(sample: string, metabolite: string, isotopologue: Option<string>,
                               measurement: Option<real>, naturalFraction: Cell, measuredFraction: Cell)

  /** The total the right join attaches to a natural row; a null isotopologue never matches a key. */
  function JoinedMeasurement(totals: map<MstKey, real>, r: NaturalSample): Option<real>
  {
    var key := (r.sample, r.metabolite, r.isotopologue);
    if r.isotopologue.Some? && key in totals then Some(totals[key]) else None
  }

  function JoinedMeasurements(totals: map<MstKey, real>, right: seq<NaturalSample>): (col: seq<Option<real>>)
    ensures |col| == |right| && forall i :: 0 <= i < |right| ==> col[i] == JoinedMeasurement(totals, right[i])
  {
    seq(|right|, i requires 0 <= i < |right| => JoinedMeasurement(totals, right[i]))
  }

  /** The closure key of the calibration table: (`sample`, `metabolite`). */
  function SampleMetaboliteKeys(right: seq<NaturalSample>): (keys: seq<(string, string)>)
    ensures |keys| == |right| && forall i :: 0 <= i < |right| ==> keys[i] == (right[i].sample, right[i].metabolite)
  {
    seq(|right|, i requires 0 <= i < |right| => (right[i].sample, right[i].metabolite))
  }

  /**
   * The right join of the aggregated measurements onto `natural_with_samples`, then
   * `measured_fraction` closed over (`sample`, `metabolite`).
   */
  function PrepareDaria(msts: seq<MstRow>, right: seq<NaturalSample>): (out: seq<DariaRow>)
    ensures |out| == |right|
    ensures forall i :: 0 <= i < |right| ==>
      && out[i].sample == right[i].sample && out[i].metabolite == right[i].metabolite
      && out[i].isotopologue == right[i].isotopologue && out[i].naturalFraction == right[i].naturalFraction
      && out[i].measurement == JoinedMeasurement(Aggregate(msts), right[i])
      && out[i].measuredFraction == Close(JoinedMeasurements(Aggregate(msts), right), SampleMetaboliteKeys(right))[i]
  {
    var measurement := JoinedMeasurements(Aggregate(msts), right);
    var measured := Close(measurement, SampleMetaboliteKeys(right));
    seq(|right|, i requires 0 <= i < |right| =>
      DariaRow(right[i].sample, right[i].metabolite, right[i].isotopologue, measurement[i], right[i].naturalFraction, measured[i]))
  }

  /**
   * A natural row with no matching measurement keeps a null measurement and a null
   * `measured_fraction`; every other row has the aggregated total of its key.
   */
  lemma DariaNulls(msts: seq<MstRow>, right: seq<NaturalSample>, i: nat)
    requires i < |right|
    ensures var out := PrepareDaria(msts, right);
      var key := (right[i].sample, right[i].metabolite, right[i].isotopologue);
      && (out[i].measurement.None? <==> right[i].isotopologue.None? || key !in MstKeys(msts))
      && (out[i].measuredFraction.Null? <==> out[i].measurement.None?)
      && (out[i].measurement.Some? ==> out[i].measurement.value == GroupSum(Heights(msts), MstKeys(msts), key))
  {
  }

  /** The measured fractions of the calibration table with their (`sample`, `metabolite`) keys. */
  function MeasuredFractions(out: seq<DariaRow>): (col: seq<Cell>)
    ensures |col| == |out| && forall i :: 0 <= i < |out| ==> col[i] == out[i].measuredFraction
  {
    seq(|out|, i requires 0 <= i < |out| => out[i].measuredFraction)
  }

  /** In every (`sample`, `metabolite`) group with a non-zero total, the non-null measured fractions sum to 1. */
  lemma DariaSumsToOne(msts: seq<MstRow>, right: seq<NaturalSample>, k: (string, string))
    requires GroupSum(JoinedMeasurements(Aggregate(msts), right), SampleMetaboliteKeys(right), k) != 0.0
    ensures FiniteSum(MeasuredFractions(PrepareDaria(msts, right)), SampleMetaboliteKeys(right), k) == 1.0
  {
    var values, keys := JoinedMeasurements(Aggregate(msts), right), SampleMetaboliteKeys(right);
    CloseSumsToOne(values, keys, k);
    assert MeasuredFractions(PrepareDaria(msts, right)) == Close(values, keys);
  }
}
