/**
 * The bookkeeping of the calibration notebook: the null and zero filter with its re-closure, the
 * sign matrix of the sequential binary partition, and the labels, total measurements and
 * residuals that `func_clr`, `func_alr` and `func_ilr` build for one (sample, metabolite) group.
 *
 * The log-ratio transformations and `sbp_basis` belong to scikit-bio; they are parameters here.
 */
module Calibration {
  import opened Wrappers
  import opened Seqs
  import opened Strings
  import opened GroupBy
  import opened DataPreparation

  // ---------------------------------------------------------------------------------------------
  // msts_no_zeros

  /** A row of the prepared calibration table as read back from its CSV file. */
  datatype CalRow = CalRow(sample: string, metabolite: string, isotopologue: Option<string>,
                           measurement: Option<real>, naturalFraction: Option<real>)

  function Keys(rows: seq<CalRow>): (keys: seq<(string, string)>)
    ensures |keys| == |rows| && forall i :: 0 <= i < |rows| ==> keys[i] == (rows[i].sample, rows[i].metabolite)
  {
    seq(|rows|, i requires 0 <= i < |rows| => (rows[i].sample, rows[i].metabolite))
  }

  function Measurements(rows: seq<CalRow>): (col: seq<Option<real>>)
    ensures |col| == |rows| && forall i :: 0 <= i < |rows| ==> col[i] == rows[i].measurement
  {
    seq(|rows|, i requires 0 <= i < |rows| => rows[i].measurement)
  }

  function NaturalFractions(rows: seq<CalRow>): (col: seq<Option<real>>)
    ensures |col| == |rows| && forall i :: 0 <= i < |rows| ==> col[i] == rows[i].naturalFraction
  {
    seq(|rows|, i requires 0 <= i < |rows| => rows[i].naturalFraction)
  }

  /** `count().over(keys)` at key `k`: the number of non-null values with that key. */
  function NonNullCount<K(==)>(values: seq<Option<real>>, keys: seq<K>, k: K): nat
    requires |values| == |keys|
  {
    if |values| == 0 then 0
    else
      var n := |values| - 1;
      NonNullCount(values[..n], keys[..n], k) + (if keys[n] == k && values[n].Some? then 1 else 0)
  }

  /** The metabolite left out of the exploration. */
  const ExcludedMetabolite: string := "akg"

  /** The filter of `msts_no_zeros`: a measured row kept when its group has at least two measurements. */
  function NoZerosKeep(rows: seq<CalRow>): (keep: seq<bool>)
    ensures |keep| == |rows|
    ensures forall i :: 0 <= i < |rows| ==>
      (keep[i] <==> rows[i].measurement.Some? && rows[i].metabolite != ExcludedMetabolite
                    && NonNullCount(Measurements(rows), Keys(rows), Keys(rows)[i]) > 1)
  {
    seq(|rows|, i requires 0 <= i < |rows| =>
      rows[i].measurement.Some? && rows[i].metabolite != ExcludedMetabolite
      && NonNullCount(Measurements(rows), Keys(rows), Keys(rows)[i]) > 1)
  }

  /** A row of `msts_no_zeros`. */
  datatype ClosedRow = ClosedRow(sample: string, metabolite: string, isotopologue: Option<string>,
                                 measurement: Option<real>, naturalFraction: Cell, measuredFraction: Cell)

  /** `msts_no_zeros`: the filter, then both fraction columns closed again over (`sample`, `metabolite`). */
  function NoZeros(rows: seq<CalRow>): (out: seq<ClosedRow>)
    ensures var kept := Select(rows, NoZerosKeep(rows));
      && |out| == |kept|
      && forall i :: 0 <= i < |kept| ==>
           && out[i].sample == kept[i].sample && out[i].metabolite == kept[i].metabolite
           && out[i].isotopologue == kept[i].isotopologue && out[i].measurement == kept[i].measurement
           && out[i].naturalFraction == Close(NaturalFractions(kept), Keys(kept))[i]
           && out[i].measuredFraction == Close(Measurements(kept), Keys(kept))[i]
  {
    var kept := Select(rows, NoZerosKeep(rows));
    var natural := Close(NaturalFractions(kept), Keys(kept));
    var measured := Close(Measurements(kept), Keys(kept));
    seq(|kept|, i requires 0 <= i < |kept| =>
      ClosedRow(kept[i].sample, kept[i].metabolite, kept[i].isotopologue, kept[i].measurement, natural[i], measured[i]))
  }

  /** Every row that passes the filter has a measurement. */
  lemma NoZerosMeasured(rows: seq<CalRow>)
    ensures forall i :: 0 <= i < |NoZeros(rows)| ==> NoZeros(rows)[i].measurement.Some?
  {
    var keep := NoZerosKeep(rows);
    forall t | 0 <= t < |NoZeros(rows)|
      ensures NoZeros(rows)[t].measurement.Some?
    {
      SelectOrigin(rows, keep, t);
    }
  }

  lemma {:induction false} SelectColumns(rows: seq<CalRow>, keep: seq<bool>)
    requires |keep| == |rows|
    ensures Keys(Select(rows, keep)) == Select(Keys(rows), keep)
    ensures Measurements(Select(rows, keep)) == Select(Measurements(rows), keep)
  {
    if |rows| > 0 {
      var n := |rows| - 1;
      SelectColumns(rows[..n], keep[..n]);
      assert Keys(rows[..n]) == Keys(rows)[..n];
      assert Measurements(rows[..n]) == Measurements(rows)[..n];
      var p := Select(rows[..n], keep[..n]);
      if keep[n] {
        assert Keys(p + [rows[n]]) == Keys(p) + [Keys(rows)[n]];
        assert Measurements(p + [rows[n]]) == Measurements(p) + [Measurements(rows)[n]];
      }
    }
  }

  /** The filter keeps, for each key, either none of its rows or all of its measured ones. */
  lemma NoZerosKeepsWholeGroups(rows: seq<CalRow>)
    ensures KeepsWholeGroups(Measurements(rows), Keys(rows), NoZerosKeep(rows))
  {
  }

  /**
   * Re-closing the measurements after the filter gives the same fractions as closing them before
   * it, so `measured_fraction` of `msts_no_zeros` is the kept part of the column it replaces.
   */
  lemma NoZerosMeasuredUnchanged(rows: seq<CalRow>)
    ensures var keep := NoZerosKeep(rows);
      forall i :: 0 <= i < |NoZeros(rows)| ==>
        NoZeros(rows)[i].measuredFraction == Select(Close(Measurements(rows), Keys(rows)), keep)[i]
  {
    var keep := NoZerosKeep(rows);
    NoZerosKeepsWholeGroups(rows);
    SelectColumns(rows, keep);
    CloseSelect(Measurements(rows), Keys(rows), keep);
  }

  /** The three rows of one group whose third isotopologue went undetected. */
  function UndetectedExampleRows(): seq<CalRow>
  {
    [CalRow("s", "fdp", Some("m0"), Some(1.0), Some(0.4)),
     CalRow("s", "fdp", Some("m1"), Some(1.0), Some(0.4)),
     CalRow("s", "fdp", Some("m2"), None, Some(0.2))]
  }

  lemma UndetectedExampleKeep()
    ensures NoZerosKeep(UndetectedExampleRows()) == [true, true, false]
  {
    var rows := UndetectedExampleRows();
    var k := ("s", "fdp");
    var keys, ms := Keys(rows), Measurements(rows);
    assert keys == [k, k, k] && ms == [Some(1.0), Some(1.0), None];
    assert keys[..2] == [k, k] && ms[..2] == [Some(1.0), Some(1.0)];
    assert keys[..2][..1] == [k] && ms[..2][..1] == [Some(1.0)];
    assert NonNullCount(ms[..2][..1], keys[..2][..1], k) == 1;
    assert NonNullCount(ms[..2], keys[..2], k) == 2;
    assert NonNullCount(ms, keys, k) == 2;
  }

  lemma UndetectedExampleKept()
    ensures Select(UndetectedExampleRows(), NoZerosKeep(UndetectedExampleRows()))
         == UndetectedExampleRows()[..2]
  {
    var rows := UndetectedExampleRows();
    UndetectedExampleKeep();
    var keep := [true, true, false];
    assert rows[..2][..1] == [rows[0]] && keep[..2] == [true, true] && keep[..2][..1] == [true];
    assert Select(rows[..2][..1], keep[..2][..1]) == [rows[0]];
    assert Select(rows[..2], keep[..2]) == [rows[0], rows[1]];
  }

  /**
   * The natural fractions, by contrast, are renormalised over the isotopologues that were
   * measured: with the third isotopologue undetected, 0.4 and 0.4 become 0.5 and 0.5.
   */
  lemma NoZerosRenormalisesNatural()
    ensures var rows := UndetectedExampleRows();
      && Close(NaturalFractions(rows), Keys(rows))[0] == Finite(0.4)
      && |NoZeros(rows)| == 2
      && NoZeros(rows)[0].naturalFraction == Finite(0.5)
      && NoZeros(rows)[1].naturalFraction == Finite(0.5)
  {
    var rows := UndetectedExampleRows();
    var k := ("s", "fdp");
    UndetectedExampleKept();
    var kept := rows[..2];
    var nf, kk := NaturalFractions(kept), Keys(kept);
    assert nf == [Some(0.4), Some(0.4)] && nf[..1] == [Some(0.4)];
    assert kk == [k, k] && kk[..1] == [k];
    assert GroupSum(nf[..1], kk[..1], k) == 0.4;
    assert GroupSum(nf, kk, k) == 0.8;
    var all, keys := NaturalFractions(rows), Keys(rows);
    assert all == [Some(0.4), Some(0.4), Some(0.2)] && keys == [k, k, k];
    assert all[..2] == nf && keys[..2] == kk;
    assert GroupSum(all, keys, k) == 1.0;
  }

  /** Among the rows of one key, the filter keeps exactly the measured ones when it keeps any. */
  lemma {:induction false} FilteredGroupSize<K>(values: seq<Option<real>>, keys: seq<K>, keep: seq<bool>, k: K)
    requires |values| == |keys| == |keep|
    requires forall j :: 0 <= j < |keys| && keys[j] == k ==> (keep[j] <==> values[j].Some?)
    ensures |Members(Select(keys, keep), k)| == NonNullCount(values, keys, k)
  {
    if |keys| > 0 {
      var n := |keys| - 1;
      FilteredGroupSize(values[..n], keys[..n], keep[..n], k);
      var p := Select(keys[..n], keep[..n]);
      assert NonNullCount(values, keys, k)
          == NonNullCount(values[..n], keys[..n], k) + (if keys[n] == k && values[n].Some? then 1 else 0);
      if keep[n] {
        assert Select(keys, keep) == p + [keys[n]];
        MembersSnoc(p, keys[n], k);
      } else {
        assert Select(keys, keep) == p;
      }
    }
  }

  /** Every group the filter keeps has at least two rows, so each one has a log-ratio basis. */
  lemma NoZerosGroupsHaveTwoRows(rows: seq<CalRow>)
    ensures var keys := Keys(Select(rows, NoZerosKeep(rows)));
      forall k :: k in keys ==> |Members(keys, k)| >= 2 && BasisAndLabels(|Members(keys, k)|).Ok?
  {
    var keep := NoZerosKeep(rows);
    SelectColumns(rows, keep);
    var keys := Keys(Select(rows, keep));
    forall k | k in keys
      ensures |Members(keys, k)| >= 2
    {
      var t :| 0 <= t < |keys| && keys[t] == k;
      SelectOrigin(Keys(rows), keep, t);
      var i :| 0 <= i < |rows| && keep[i] && Keys(rows)[i] == k;
      FilteredGroupSize(Measurements(rows), Keys(rows), keep, k);
    }
  }

  // ---------------------------------------------------------------------------------------------
  // get_orthonormal_basis_and_labels

  /** The sign of part `j` in row `i` of the partition: part `i` against every later part. */
  function Sign(i: nat, j: nat): int
  {
    if j < i then 0 else if j == i then -1 else 1
  }

  /** Each row splits the parts on the `+1` side of the row above it: its first part against the rest. */
  lemma SequentialPartition(i: nat, j: nat)
    requires i >= 1
    ensures Sign(i, j) != 0 <==> Sign(i - 1, j) == 1
    ensures Sign(i - 1, j) == -1 ==> j == i - 1
  {
  }

  /** The ratio labels of the ILR view: `m{i+1}+:m{i}`, part `i` against all later ones. */
  function IlrLabels(size: nat): (labels: seq<string>)
    ensures |labels| == if size == 0 then 0 else size - 1
  {
    if size == 0 then []
    else seq(size - 1, i requires 0 <= i < size - 1 => IlrLabel(i))
  }

  function IlrLabel(i: nat): string
  {
    "m" + NatToString(i + 1) + ("+:m" + NatToString(i))
  }

  /** The sign matrix as rows. */
  function SignRows(size: nat): (rows: seq<seq<int>>)
    requires size >= 1
    ensures |rows| == size - 1
    ensures forall i :: 0 <= i < size - 1 ==> |rows[i]| == size && forall j :: 0 <= j < size ==> rows[i][j] == Sign(i, j)
  {
    seq(size - 1, i requires 0 <= i < size - 1 => seq(size, j requires 0 <= j < size => Sign(i, j)))
  }

  const BasisSizeMessage: string := "size must be greater than 1"

  /**
   * What `get_orthonormal_basis_and_labels(size)` computes, with the sign matrix in place of the
   * basis `sbp_basis` derives from it.
   */
  function BasisAndLabels(size: int): (r: Result<(seq<seq<int>>, seq<string>)>)
    ensures r.Err? <==> size < 2
    ensures r.Err? ==> r.error == BasisSizeMessage
    ensures r.Ok? ==> |r.value.0| == size - 1 == |r.value.1|
  {
    if size < 2 then Err(BasisSizeMessage) else Ok((SignRows(size), IlrLabels(size)))
  }

  /**
   * `get_orthonormal_basis_and_labels` up to `sbp_basis`: a zero (size−1)×size matrix filled row
   * by row with −1 on the diagonal and +1 to its right, and one label per row.
   */
  method SignMatrixAndLabels(size: int) returns (r: Result<(array2<int>, seq<string>)>)
    ensures r.Err? <==> size < 2
    ensures r.Err? ==> r.error == BasisSizeMessage
    ensures r.Ok? ==> var (out, labels) := r.value;
      && fresh(out) && out.Length0 == size - 1 && out.Length1 == size
      && (forall i, j :: 0 <= i < size - 1 && 0 <= j < size ==> out[i, j] == Sign(i, j))
      && labels == IlrLabels(size)
      && BasisAndLabels(size) == Ok((SignRows(size), labels))
  {
    if size < 2 {
      return Err(BasisSizeMessage);
    }
    var out := new int[size - 1, size]((i, j) => 0);
    var labels := IlrLabels(size);
    for row := 0 to size - 1
      invariant forall i, j :: 0 <= i < row && 0 <= j < size ==> out[i, j] == Sign(i, j)
      invariant forall i, j :: row <= i < size - 1 && 0 <= j < size ==> out[i, j] == 0
    {
      out[row, row] := -1;
      for col := row + 1 to size
        invariant forall i, j :: 0 <= i < row && 0 <= j < size ==> out[i, j] == Sign(i, j)
        invariant forall i, j :: row < i < size - 1 && 0 <= j < size ==> out[i, j] == 0
        invariant forall j :: 0 <= j < col ==> out[row, j] == Sign(row, j)
        invariant forall j :: col <= j < size ==> out[row, j] == 0
      {
        out[row, col] := 1;
      }
    }
    return Ok((out, labels));
  }

  // ---------------------------------------------------------------------------------------------
  // Sorting a group by isotopologue

  /** Lexicographic order on strings, character by character, as polars sorts a string column. */
  predicate StrLe(a: string, b: string)
  {
    |a| == 0 || (|b| > 0 && (a[0] < b[0] || (a[0] == b[0] && StrLe(a[1..], b[1..]))))
  }

  lemma {:induction false} StrLeTotal(a: string, b: string)
    ensures StrLe(a, b) || StrLe(b, a)
  {
    if |a| > 0 && |b| > 0 && a[0] == b[0] {
      StrLeTotal(a[1..], b[1..]);
    }
  }

  /** The ascending order of `sort("isotopologue")`: nulls first, then strings. */
  predicate IsotopologueLe(a: Option<string>, b: Option<string>)
  {
    match (a, b)
    case (None, _) => true
    case (Some(_), None) => false
    case (Some(x), Some(y)) => StrLe(x, y)
  }

  lemma IsotopologueLeTotal(a: Option<string>, b: Option<string>)
    ensures IsotopologueLe(a, b) || IsotopologueLe(b, a)
  {
    if a.Some? && b.Some? {
      StrLeTotal(a.value, b.value);
    }
  }

  /** The names sort as strings, so the eleventh isotopologue comes before the third. */
  lemma IsotopologueOrderIsTextual()
    ensures IsotopologueLe(Some("m10"), Some("m2")) && !IsotopologueLe(Some("m2"), Some("m10"))
  {
    assert "m10"[1..] == "10" && "m2"[1..] == "2";
  }

  predicate SortedByIsotopologue(rows: seq<ClosedRow>)
  {
    forall i :: 0 <= i < |rows| - 1 ==> IsotopologueLe(rows[i].isotopologue, rows[i + 1].isotopologue)
  }

  function Insert(x: ClosedRow, s: seq<ClosedRow>): (r: seq<ClosedRow>)
    ensures |r| == |s| + 1
    ensures multiset(r) == multiset(s) + multiset{x}
    ensures r[0] == x || (|s| > 0 && r[0] == s[0])
    ensures SortedByIsotopologue(s) ==> SortedByIsotopologue(r)
  {
    if |s| == 0 || IsotopologueLe(x.isotopologue, s[0].isotopologue) then [x] + s
    else
      IsotopologueLeTotal(x.isotopologue, s[0].isotopologue);
      assert s == [s[0]] + s[1..];
      [s[0]] + Insert(x, s[1..])
  }

  /** `subdf.sort("isotopologue")`: the same rows, ascending by isotopologue. */
  function SortByIsotopologue(rows: seq<ClosedRow>): (r: seq<ClosedRow>)
    ensures |r| == |rows| && multiset(r) == multiset(rows)
    ensures SortedByIsotopologue(r)
  {
    if |rows| == 0 then []
    else
      assert rows == [rows[0]] + rows[1..];
      Insert(rows[0], SortByIsotopologue(rows[1..]))
  }

  // ---------------------------------------------------------------------------------------------
  // func_clr, func_alr, func_ilr

  /**
   * The scikit-bio transformations, as parameters. `alr` is taken with `denominator_idx=0`; `ilr`
   * receives the sign matrix its basis is built from.
   */
  datatype LogRatio = LogRatio(clr: seq<Cell> -> seq<real>, alr: seq<Cell> -> seq<real>,
                               ilr: (seq<Cell>, seq<seq<int>>) -> seq<real>)

  /** The coordinate counts of the three transformations: n, n − 1 and one per basis vector. */
  ghost predicate RespectsShapes(lr: LogRatio)
  {
    && (forall x :: |lr.clr(x)| == |x|)
    && (forall x :: |x| > 0 ==> |lr.alr(x)| == |x| - 1)
    && (forall x, b :: |lr.ilr(x, b)| == |b|)
  }

  /** A measurement as a float cell (a null becomes a missing value). */
  function AsCell(v: Option<real>): Cell
  {
    if v.None? then Null else Finite(v.value)
  }

  function MeasurementColumn(rows: seq<ClosedRow>): (col: seq<Option<real>>)
    ensures |col| == |rows| && forall i :: 0 <= i < |rows| ==> col[i] == rows[i].measurement
  {
    seq(|rows|, i requires 0 <= i < |rows| => rows[i].measurement)
  }

  function MeasuredCells(rows: seq<ClosedRow>): (col: seq<Cell>)
    ensures |col| == |rows|
  {
    seq(|rows|, i requires 0 <= i < |rows| => AsCell(rows[i].measurement))
  }

  function NaturalCells(rows: seq<ClosedRow>): (col: seq<Cell>)
    ensures |col| == |rows|
  {
    seq(|rows|, i requires 0 <= i < |rows| => rows[i].naturalFraction)
  }

  /** The CLR labels `m{i}:gmean`, one per part. */
  function ClrLabels(n: nat): (labels: seq<string>)
    ensures |labels| == n
  {
    seq(n, i requires 0 <= i < n => ClrLabel(i))
  }

  function ClrLabel(i: nat): string
  {
    "m" + NatToString(i) + ":gmean"
  }

  /** The ALR labels `m{i+1}:m0`, one per part after the first. */
  function AlrLabels(n: nat): (labels: seq<string>)
    ensures |labels| == if n == 0 then 0 else n - 1
  {
    if n == 0 then [] else seq(n - 1, i requires 0 <= i < n - 1 => AlrLabel(i))
  }

  function AlrLabel(i: nat): string
  {
    "m" + NatToString(i + 1) + ":m0"
  }

  /** No two ratios of one view share a label. */
  lemma ClrLabelsDistinct(n: nat)
    ensures Distinct(ClrLabels(n))
  {
    forall i, j | 0 <= i < j < n ensures ClrLabels(n)[i] != ClrLabels(n)[j] {
      LabelsDiffer(i, ":gmean", j, ":gmean");
    }
  }

  lemma AlrLabelsDistinct(n: nat)
    ensures Distinct(AlrLabels(n))
  {
    forall i, j | 0 <= i < j < n - 1 ensures AlrLabels(n)[i] != AlrLabels(n)[j] {
      AlrLabelsDiffer(i, j);
    }
  }

  lemma AlrLabelsDiffer(i: nat, j: nat)
    requires i != j
    ensures AlrLabel(i) != AlrLabel(j)
  {
    LabelsDiffer(i + 1, ":m0", j + 1, ":m0");
  }

  lemma IlrLabelsDistinct(n: nat)
    ensures Distinct(IlrLabels(n))
  {
    forall i, j | 0 <= i < j < n - 1 ensures IlrLabels(n)[i] != IlrLabels(n)[j] {
      IlrLabelsDiffer(i, j);
    }
  }

  lemma IlrLabelsDiffer(i: nat, j: nat)
    requires i != j
    ensures IlrLabel(i) != IlrLabel(j)
  {
    var ri, rj := "+:m" + NatToString(i), "+:m" + NatToString(j);
    assert ri[0] == '+' && rj[0] == '+';
    LabelsDiffer(i + 1, ri, j + 1, rj);
  }

  lemma LabelsDiffer(i: nat, ri: string, j: nat, rj: string)
    requires i != j && |ri| > 0 && |rj| > 0 && !IsDigit(ri[0]) && !IsDigit(rj[0])
    ensures "m" + NatToString(i) + ri != "m" + NatToString(j) + rj
  {
    assert ParseNat(NatToString(i)) != ParseNat(NatToString(j));
    LabelIndex(NatToString(i), ri, NatToString(j), rj);
  }

  /** Labels `m<a><rest>` with different leading numbers differ, since a digit run ends before `rest`. */
  lemma LabelIndex(a: string, ra: string, b: string, rb: string)
    requires AllDigits(a) && AllDigits(b) && |ra| > 0 && |rb| > 0 && !IsDigit(ra[0]) && !IsDigit(rb[0])
    requires a != b
    ensures "m" + a + ra != "m" + b + rb
  {
    var x, y := "m" + a + ra, "m" + b + rb;
    if |a| < |b| {
      assert x[|a| + 1] == ra[0] && y[|a| + 1] == b[|a|];
    } else if |b| < |a| {
      assert y[|b| + 1] == rb[0] && x[|b| + 1] == a[|b|];
    } else {
      var i :| 0 <= i < |a| && a[i] != b[i];
      assert x[i + 1] == a[i] && y[i + 1] == b[i];
    }
  }

  function OptAdd(a: Option<real>, b: Option<real>): Option<real>
  {
    if a.Some? && b.Some? then Some(a.value + b.value) else None
  }

  /** The sum of the non-null values. */
  function SomeSum(ms: seq<Option<real>>): real
  {
    if |ms| == 0 then 0.0 else (if ms[0].Some? then ms[0].value else 0.0) + SomeSum(ms[1..])
  }

  /**
   * `cum_sum(reverse=True)`: position `i` holds the sum of the non-null values from `i` to the
   * end, and a null stays null.
   */
  function ReverseCumSum(ms: seq<Option<real>>): (r: seq<Option<real>>)
    ensures |r| == |ms|
    ensures forall i :: 0 <= i < |ms| ==> r[i] == if ms[i].None? then None else Some(SomeSum(ms[i..]))
  {
    if |ms| == 0 then []
    else
      var rest := ReverseCumSum(ms[1..]);
      assert forall i :: 1 <= i < |ms| ==> ms[1..][i - 1..] == ms[i..];
      [if ms[0].None? then None else Some(SomeSum(ms))] + rest
  }

  /**
   * The ALR totals: the first measurement plus each later one. A null operand gives a null sum;
   * a null first measurement in Python would raise instead, but the group functions only see rows
   * that passed the zero-and-null filter, whose measurements are never null (`NoZerosMeasured`).
   */
  function AlrTotals(ms: seq<Option<real>>): (r: seq<Option<real>>)
    requires |ms| > 0
    ensures |r| == |ms| - 1
    ensures forall i :: 0 <= i < |ms| - 1 ==> (r[i].Some? <==> ms[0].Some? && ms[i + 1].Some?)
    ensures forall i :: 0 <= i < |ms| - 1 && r[i].Some? ==> r[i].value == ms[0].value + ms[i + 1].value
  {
    seq(|ms| - 1, i requires 0 <= i < |ms| - 1 => OptAdd(ms[0], ms[i + 1]))
  }

  /** The ILR totals: the reverse cumulative sum without its last entry. */
  function IlrTotals(ms: seq<Option<real>>): (r: seq<Option<real>>)
    requires |ms| > 0
    ensures |r| == |ms| - 1
  {
    ReverseCumSum(ms)[..|ms| - 1]
  }

  /** The measurements a row of the sign matrix touches; the others are masked as null. */
  function Support(ms: seq<Option<real>>, i: nat): (r: seq<Option<real>>)
    ensures |r| == |ms|
  {
    seq(|ms|, j requires 0 <= j < |ms| => if Sign(i, j) == 0 then None else ms[j])
  }

  lemma {:induction false} SupportSum(ms: seq<Option<real>>, i: nat)
    requires i <= |ms|
    ensures SomeSum(Support(ms, i)) == SomeSum(ms[i..])
  {
    if i == 0 {
      assert Support(ms, 0) == ms;
    } else {
      SupportSum(ms[1..], i - 1);
      assert Support(ms, i)[1..] == Support(ms[1..], i - 1);
      assert ms[1..][i - 1..] == ms[i..];
    }
  }

  /**
   * The ILR total of ratio `i` is the total of exactly the isotopologues row `i` of the sign
   * matrix puts on either side of that ratio, so every total matches its label.
   */
  lemma IlrTotalIsPartitionTotal(ms: seq<Option<real>>, i: nat)
    requires i < |ms| - 1
    ensures ms[i].Some? ==> IlrTotals(ms)[i] == Some(SomeSum(Support(ms, i)))
    ensures ms[i].None? ==> IlrTotals(ms)[i] == None
  {
    SupportSum(ms, i);
  }

  const BroadcastMessage: string := "operands could not be broadcast together"

  /** `m - nf` on two numpy vectors, with numpy's broadcasting of a length-one operand. */
  function Residual(m: seq<real>, nf: seq<real>): (r: Result<seq<real>>)
    ensures r.Ok? <==> |m| == |nf| || |m| == 1 || |nf| == 1
    ensures r.Err? ==> r.error == BroadcastMessage
    ensures r.Ok? && |m| == |nf| ==> |r.value| == |m|
  {
    if |m| == |nf| then Ok(seq(|m|, i requires 0 <= i < |m| => m[i] - nf[i]))
    else if |m| == 1 then Ok(seq(|nf|, i requires 0 <= i < |nf| => m[0] - nf[i]))
    else if |nf| == 1 then Ok(seq(|m|, i requires 0 <= i < |m| => m[i] - nf[0]))
    else Err(BroadcastMessage)
  }

  /** Equal-length residuals vanish exactly where the two coordinate vectors agree. */
  lemma ResidualZeroIff(m: seq<real>, nf: seq<real>)
    requires |m| == |nf|
    ensures forall i :: 0 <= i < |m| ==> (Residual(m, nf).value[i] == 0.0 <==> m[i] == nf[i])
    ensures Residual(m, nf) == Ok(seq(|m|, i => 0.0)) <==> m == nf
  {
    var r := Residual(m, nf).value;
    if r == seq(|m|, i => 0.0) {
      assert forall i :: 0 <= i < |m| ==> r[i] == 0.0;
    }
  }

  datatype RatioRow = RatioRow(metabolite: string, sample: string, ratio: string, m: real, nf: real,
                               resid: real, totalMeasurement: Option<real>)

  const FrameShapeMessage: string := "could not create a new DataFrame: lengths don't match"

  /** The `pl.DataFrame` a group function returns: the two names broadcast, the columns side by side. */
  function RatioFrame(metabolite: string, sample: string, ratio: seq<string>, m: seq<real>, nf: seq<real>,
                      resid: seq<real>, total: seq<Option<real>>): (r: Result<seq<RatioRow>>)
    ensures r.Ok? <==> |ratio| == |m| == |nf| == |resid| == |total|
    ensures r.Err? ==> r.error == FrameShapeMessage
    ensures r.Ok? ==> |r.value| == |ratio| && forall i :: 0 <= i < |ratio| ==>
      r.value[i] == RatioRow(metabolite, sample, ratio[i], m[i], nf[i], resid[i], total[i])
  {
    if |ratio| == |m| == |nf| == |resid| == |total| then
      Ok(seq(|ratio|, i requires 0 <= i < |ratio| => RatioRow(metabolite, sample, ratio[i], m[i], nf[i], resid[i], total[i])))
    else Err(FrameShapeMessage)
  }

  const EmptyGroupMessage: string := "index 0 is out of bounds for a frame of height 0"

  /**
   * `func_clr`: the group sorted by isotopologue, one row per isotopologue holding its CLR
   * coordinates, their residual and its own measurement as total.
   */
  function FuncClr(subdf: seq<ClosedRow>, lr: LogRatio): (r: Result<seq<RatioRow>>)
    ensures |subdf| == 0 ==> r == Err(EmptyGroupMessage)
    ensures r.Err? ==> r.error == EmptyGroupMessage || r.error == BroadcastMessage || r.error == FrameShapeMessage
    ensures r.Ok? ==> var s := SortByIsotopologue(subdf);
      var m := lr.clr(MeasuredCells(s)); var nf := lr.clr(NaturalCells(s));
      && |r.value| == |subdf| == |m| == |nf|
      && forall i :: 0 <= i < |subdf| ==>
           && r.value[i].metabolite == s[0].metabolite && r.value[i].sample == s[0].sample
           && r.value[i].ratio == ClrLabel(i)
           && r.value[i].m == m[i] && r.value[i].nf == nf[i] && r.value[i].resid == m[i] - nf[i]
           && r.value[i].totalMeasurement == s[i].measurement
  {
    var s := SortByIsotopologue(subdf);
    if |s| == 0 then Err(EmptyGroupMessage)
    else
      var m := lr.clr(MeasuredCells(s));
      var nf := lr.clr(NaturalCells(s));
      match Residual(m, nf)
      case Err(e) => Err(e)
      case Ok(resid) => RatioFrame(s[0].metabolite, s[0].sample, ClrLabels(|s|), m, nf, resid, MeasurementColumn(s))
  }

  /**
   * `func_alr`: one row per isotopologue after the first, holding the ALR coordinates against
   * `m0`, their residual and the sum of `m0`'s measurement and its own.
   */
  function FuncAlr(subdf: seq<ClosedRow>, lr: LogRatio): (r: Result<seq<RatioRow>>)
    ensures |subdf| == 0 ==> r == Err(EmptyGroupMessage)
    ensures r.Err? ==> r.error == EmptyGroupMessage || r.error == BroadcastMessage || r.error == FrameShapeMessage
    ensures r.Ok? ==> var s := SortByIsotopologue(subdf);
      var m := lr.alr(MeasuredCells(s)); var nf := lr.alr(NaturalCells(s));
      && |subdf| > 0 && |r.value| == |subdf| - 1 == |m| == |nf|
      && forall i :: 0 <= i < |subdf| - 1 ==>
           && r.value[i].metabolite == s[0].metabolite && r.value[i].sample == s[0].sample
           && r.value[i].ratio == AlrLabel(i)
           && r.value[i].m == m[i] && r.value[i].nf == nf[i] && r.value[i].resid == m[i] - nf[i]
           && r.value[i].totalMeasurement == OptAdd(s[0].measurement, s[i + 1].measurement)
  {
    var s := SortByIsotopologue(subdf);
    if |s| == 0 then Err(EmptyGroupMessage)
    else
      var total := AlrTotals(MeasurementColumn(s));
      var m := lr.alr(MeasuredCells(s));
      var nf := lr.alr(NaturalCells(s));
      match Residual(m, nf)
      case Err(e) => Err(e)
      case Ok(resid) => RatioFrame(s[0].metabolite, s[0].sample, AlrLabels(|s|), m, nf, resid, total)
  }

  /**
   * `func_ilr`: one row per step of the sequential partition, holding the ILR coordinates over
   * the sign matrix, their residual and the reverse cumulative measurement total of that step.
   */
  function FuncIlr(subdf: seq<ClosedRow>, lr: LogRatio): (r: Result<seq<RatioRow>>)
    ensures |subdf| == 0 ==> r == Err(EmptyGroupMessage)
    ensures |subdf| == 1 ==> r == Err(BasisSizeMessage)
    ensures r.Err? ==> || r.error == EmptyGroupMessage || r.error == BasisSizeMessage
                       || r.error == BroadcastMessage || r.error == FrameShapeMessage
    ensures r.Ok? ==> var s := SortByIsotopologue(subdf);
      var m := lr.ilr(MeasuredCells(s), SignRows(|s|)); var nf := lr.ilr(NaturalCells(s), SignRows(|s|));
      && |subdf| >= 2 && |r.value| == |subdf| - 1 == |m| == |nf|
      && forall i :: 0 <= i < |subdf| - 1 ==>
           && r.value[i].metabolite == s[0].metabolite && r.value[i].sample == s[0].sample
           && r.value[i].ratio == IlrLabel(i)
           && r.value[i].m == m[i] && r.value[i].nf == nf[i] && r.value[i].resid == m[i] - nf[i]
           && r.value[i].totalMeasurement == IlrTotals(MeasurementColumn(s))[i]
  {
    var s := SortByIsotopologue(subdf);
    if |s| == 0 then Err(EmptyGroupMessage)
    else
      var total := IlrTotals(MeasurementColumn(s));
      match BasisAndLabels(|s|)
      case Err(e) => Err(e)
      case Ok((basis, ratios)) =>
        var m := lr.ilr(MeasuredCells(s), basis);
        var nf := lr.ilr(NaturalCells(s), basis);
        match Residual(m, nf)
        case Err(e) => Err(e)
        case Ok(resid) => RatioFrame(s[0].metabolite, s[0].sample, ratios, m, nf, resid, total)
  }

  /** With shape-respecting transformations a non-empty group yields one CLR row per isotopologue. */
  lemma FuncClrShape(subdf: seq<ClosedRow>, lr: LogRatio)
    requires RespectsShapes(lr) && |subdf| > 0
    ensures var s := SortByIsotopologue(subdf); var r := FuncClr(subdf, lr);
      && r.Ok? && |r.value| == |subdf|
      && forall i :: 0 <= i < |subdf| ==>
           && r.value[i].ratio == "m" + NatToString(i) + ":gmean"
           && r.value[i].totalMeasurement == s[i].measurement
           && r.value[i].resid == r.value[i].m - r.value[i].nf
  {
  }

  /** A non-empty group yields one ALR row per isotopologue after the first. */
  lemma FuncAlrShape(subdf: seq<ClosedRow>, lr: LogRatio)
    requires RespectsShapes(lr) && |subdf| > 0
    ensures var s := SortByIsotopologue(subdf); var r := FuncAlr(subdf, lr);
      && r.Ok? && |r.value| == |subdf| - 1
      && forall i :: 0 <= i < |subdf| - 1 ==>
           && r.value[i].ratio == "m" + NatToString(i + 1) + ":m0"
           && r.value[i].totalMeasurement == OptAdd(s[0].measurement, s[i + 1].measurement)
           && r.value[i].resid == r.value[i].m - r.value[i].nf
  {
    var s := SortByIsotopologue(subdf);
    assert |MeasuredCells(s)| > 0;
  }

  /**
   * A group of two or more isotopologues yields one ILR row per partition step, labelled and
   * totalled as that step of the sign matrix says.
   */
  lemma FuncIlrShape(subdf: seq<ClosedRow>, lr: LogRatio)
    requires RespectsShapes(lr) && |subdf| >= 2
    ensures var s := SortByIsotopologue(subdf); var r := FuncIlr(subdf, lr);
      && r.Ok? && |r.value| == |subdf| - 1
      && forall i :: 0 <= i < |subdf| - 1 ==>
           && r.value[i].ratio == IlrLabels(|subdf|)[i]
           && r.value[i].totalMeasurement == IlrTotals(MeasurementColumn(s))[i]
           && r.value[i].resid == r.value[i].m - r.value[i].nf
  {
    var s := SortByIsotopologue(subdf);
    var n := |s|;
    var basis := SignRows(n);
    assert BasisAndLabels(n) == Ok((basis, IlrLabels(n)));
    var m := lr.ilr(MeasuredCells(s), basis);
    var nf := lr.ilr(NaturalCells(s), basis);
    assert |m| == n - 1 && |nf| == n - 1;
    var resid := Residual(m, nf).value;
    assert forall i :: 0 <= i < n - 1 ==> resid[i] == m[i] - nf[i];
    var total := IlrTotals(MeasurementColumn(s));
    assert FuncIlr(subdf, lr) == RatioFrame(s[0].metabolite, s[0].sample, IlrLabels(n), m, nf, resid, total);
  }

  // ---------------------------------------------------------------------------------------------
  // group_by("sample", "metabolite", maintain_order=True).map_groups(func)

  datatype View = ClrView | AlrView | IlrView

  function ApplyView(view: View, subdf: seq<ClosedRow>, lr: LogRatio): Result<seq<RatioRow>>
  {
    match view
    case ClrView => FuncClr(subdf, lr)
    case AlrView => FuncAlr(subdf, lr)
    case IlrView => FuncIlr(subdf, lr)
  }

  function ClosedKeys(rows: seq<ClosedRow>): (keys: seq<(string, string)>)
    ensures |keys| == |rows| && forall i :: 0 <= i < |rows| ==> keys[i] == (rows[i].sample, rows[i].metabolite)
  {
    seq(|rows|, i requires 0 <= i < |rows| => (rows[i].sample, rows[i].metabolite))
  }

  /** The rows of group `k`, in table order. */
  function GroupRows(rows: seq<ClosedRow>, k: (string, string)): (g: seq<ClosedRow>)
    ensures |g| == |Members(ClosedKeys(rows), k)|
  {
    var m := Members(ClosedKeys(rows), k);
    seq(|m|, t requires 0 <= t < |m| => rows[m[t]])
  }

  /** Group `t` is the first of `groups` on which the view fails, and it fails with `e`. */
  predicate FirstFailure(rows: seq<ClosedRow>, groups: seq<(string, string)>, view: View, lr: LogRatio, t: int, e: string)
  {
    && 0 <= t < |groups|
    && ApplyView(view, GroupRows(rows, groups[t]), lr) == Err(e)
    && forall u :: 0 <= u < t ==> ApplyView(view, GroupRows(rows, groups[u]), lr).Ok?
  }

  /** A first failure among the later groups is the first failure overall when group 0 succeeds. */
  lemma FirstFailureShift(rows: seq<ClosedRow>, groups: seq<(string, string)>, view: View, lr: LogRatio, e: string)
    requires |groups| > 0 && ApplyView(view, GroupRows(rows, groups[0]), lr).Ok?
    requires exists t :: FirstFailure(rows, groups[1..], view, lr, t, e)
    ensures exists t :: FirstFailure(rows, groups, view, lr, t, e)
  {
    var rest := groups[1..];
    var t :| FirstFailure(rows, rest, view, lr, t, e);
    assert groups[t + 1] == rest[t];
    forall u | 0 <= u < t + 1
      ensures ApplyView(view, GroupRows(rows, groups[u]), lr).Ok?
    {
      if u > 0 {
        assert groups[u] == rest[u - 1];
      }
    }
    assert FirstFailure(rows, groups, view, lr, t + 1, e);
  }

  /** The view of the groups `groups`, in that order, stacked; the first failing group raises. */
  function MapGroupsFrom(rows: seq<ClosedRow>, groups: seq<(string, string)>, view: View, lr: LogRatio)
    : (r: Result<seq<RatioRow>>)
    ensures r.Ok? <==> forall k :: k in groups ==> ApplyView(view, GroupRows(rows, k), lr).Ok?
    ensures r.Err? ==> exists t :: FirstFailure(rows, groups, view, lr, t, r.error)
  {
    if |groups| == 0 then Ok([])
    else
      match ApplyView(view, GroupRows(rows, groups[0]), lr)
      case Err(e) =>
        assert FirstFailure(rows, groups, view, lr, 0, e);
        Err(e)
      case Ok(first) =>
        assert forall k :: k in groups <==> k == groups[0] || k in groups[1..];
        match MapGroupsFrom(rows, groups[1..], view, lr)
        case Err(e) =>
          FirstFailureShift(rows, groups, view, lr, e);
          Err(e)
        case Ok(rest) => Ok(first + rest)
  }

  /** `map_groups`: it fails exactly when the view fails on the group of some row. */
  function MapGroups(rows: seq<ClosedRow>, view: View, lr: LogRatio): (r: Result<seq<RatioRow>>)
    ensures r.Ok? <==> forall i :: 0 <= i < |rows| ==>
      ApplyView(view, GroupRows(rows, (rows[i].sample, rows[i].metabolite)), lr).Ok?
  {
    MapGroupsFrom(rows, FirstAppearance(ClosedKeys(rows)), view, lr)
  }

  lemma {:induction false} MapGroupsFromLength(rows: seq<ClosedRow>, groups: seq<(string, string)>, view: View, lr: LogRatio)
    requires RespectsShapes(lr)
    requires forall t :: 0 <= t < |groups| ==> |Members(ClosedKeys(rows), groups[t])| >= (if view.IlrView? then 2 else 1)
    ensures var r := MapGroupsFrom(rows, groups, view, lr);
      && r.Ok?
      && |r.value| + (if view.ClrView? then 0 else |groups|) == |Stacked(ClosedKeys(rows), groups)|
  {
    if |groups| > 0 {
      MapGroupsFromLength(rows, groups[1..], view, lr);
      var g := GroupRows(rows, groups[0]);
      match view
      case ClrView => FuncClrShape(g, lr);
      case AlrView => FuncAlrShape(g, lr);
      case IlrView => FuncIlrShape(g, lr);
    }
  }

  /** Every group of a table is non-empty. */
  lemma GroupsNonEmpty<K>(keys: seq<K>)
    ensures forall t :: 0 <= t < |FirstAppearance(keys)| ==> |Members(keys, FirstAppearance(keys)[t])| >= 1
  {
    var ks := FirstAppearance(keys);
    forall t | 0 <= t < |ks| ensures |Members(keys, ks[t])| >= 1 {
      assert ks[t] in ks;
      var i :| 0 <= i < |keys| && keys[i] == ks[t];
      assert i in Members(keys, ks[t]);
    }
  }

  /** The CLR view has one row per measurement; the ALR view one fewer per group. */
  lemma ClrAlrViewLength(rows: seq<ClosedRow>, lr: LogRatio)
    requires RespectsShapes(lr)
    ensures var r := MapGroups(rows, ClrView, lr); r.Ok? && |r.value| == |rows|
    ensures var r := MapGroups(rows, AlrView, lr);
      r.Ok? && |r.value| == |rows| - |FirstAppearance(ClosedKeys(rows))|
  {
    var keys := ClosedKeys(rows);
    var ks := FirstAppearance(keys);
    GroupsNonEmpty(keys);
    MapGroupsFromLength(rows, ks, ClrView, lr);
    MapGroupsFromLength(rows, ks, AlrView, lr);
    RowOrderIsPermutation(ClosedKeys(rows));
  }

  lemma NoZerosKeys(raw: seq<CalRow>)
    ensures ClosedKeys(NoZeros(raw)) == Keys(Select(raw, NoZerosKeep(raw)))
  {
  }

  /**
   * On `msts_no_zeros` the ILR view never raises the size error: every group the filter keeps has
   * at least two isotopologues, so the view has one row per measurement less one per group.
   */
  lemma IlrViewOfNoZeros(raw: seq<CalRow>, lr: LogRatio)
    requires RespectsShapes(lr)
    ensures var rows := NoZeros(raw); var r := MapGroups(rows, IlrView, lr);
      r.Ok? && |r.value| == |rows| - |FirstAppearance(ClosedKeys(rows))|
  {
    var rows := NoZeros(raw);
    NoZerosKeys(raw);
    NoZerosGroupsHaveTwoRows(raw);
    var keys := ClosedKeys(rows);
    var ks := FirstAppearance(keys);
    forall t | 0 <= t < |ks| ensures |Members(keys, ks[t])| >= 2 {
      assert ks[t] in ks;
    }
    MapGroupsFromLength(rows, ks, IlrView, lr);
    RowOrderIsPermutation(keys);
  }
}
