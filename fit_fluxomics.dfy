/**
 * The data shaping of the fluxomics fitting script: the string lambdas that cut metabolite,
 * parent group and sample fields out of identifiers, the rescaling of theoretical percentages,
 * `replace_strict`, and the 1-based index maps built with `enumerate` over `unique()` values.
 */
module FitFluxomics {
  import opened Wrappers
  import opened Seqs
  import opened Strings

  // ---------------------------------------------------------------------------------------------
  // String lambdas

  /** `x[:-3]`: the metabolite part of a theoretical ID such as `ru5p_m0`. */
  function MetOf(id: string): (met: string)
    ensures |id| >= 3 ==> id == met + id[|id| - 3..]
    ensures |id| < 3 ==> met == ""
  {
    DropLast(id, 3)
  }

  /** The metabolite of `<met>_m<d>` is `<met>` for a single-digit isotopologue. */
  lemma MetOfIsotopologueId(met: string, n: nat)
    requires n < 10
    ensures MetOf(met + "_m" + NatToString(n)) == met
  {
    var id := met + "_m" + NatToString(n);
    assert |NatToString(n)| == 1;
    assert id[..|id| - 3] == met;
  }

  /** With two digits the cut keeps the separator: `x_m10` has the metabolite `x_`. */
  lemma MetOfTwoDigitIsotopologue()
    ensures MetOf("x_m10") == "x_"
  {
  }

  const IndexErrorMessage: string := "string index out of range"
  const CastToInt8Failure: string := "conversion from `str` to `i8` failed"

  /** `f[1]` cast to a small integer, plus one: the parent group a field names. */
  function SecondDigitPlusOne(f: string): (r: Result<nat>)
    ensures r.Ok? <==> |f| >= 2 && IsDigit(f[1])
    ensures r.Ok? ==> 1 <= r.value <= 10 && r.value == DigitValue(f[1]) + 1
    ensures |f| < 2 ==> r == Err(IndexErrorMessage)
    ensures |f| >= 2 && !IsDigit(f[1]) ==> r == Err(CastToInt8Failure)
  {
    if |f| < 2 then Err(IndexErrorMessage)
    else if !IsDigit(f[1]) then Err(CastToInt8Failure)
    else Ok(DigitValue(f[1]) + 1)
  }

  /** `s.split(sep)[-1]`: a field of `s`, so without the separator. */
  function LastField(s: string, sep: char): (f: string)
    ensures sep !in f && |f| <= |s|
  {
    var fields := Split(s, sep);
    JoinEnds(fields, sep);
    fields[|fields| - 1]
  }

  /** The last field is the longest suffix without the separator. */
  lemma LastFieldIsSuffix(s: string, sep: char)
    ensures var f := LastField(s, sep);
      && s[|s| - |f|..] == f
      && (|f| < |s| ==> s[|s| - |f| - 1] == sep)
  {
    JoinEnds(Split(s, sep), sep);
  }

  /** `s.split(sep)[0]`: a field of `s`, so without the separator. */
  function FirstField(s: string, sep: char): (f: string)
    ensures sep !in f && |f| <= |s|
  {
    var fields := Split(s, sep);
    JoinEnds(fields, sep);
    fields[0]
  }

  /** The first field is the longest prefix without the separator. */
  lemma FirstFieldIsPrefix(s: string, sep: char)
    ensures var f := FirstField(s, sep); s[..|f|] == f && (|f| < |s| ==> s[|f|] == sep)
  {
    JoinEnds(Split(s, sep), sep);
  }

  /** The theoretical `parent_group`: `int(x.split("_")[-1][1]) + 1`. */
  function ParentGroup(id: string): (r: Result<nat>)
    ensures var f := LastField(id, '_');
      && (r.Ok? <==> |f| >= 2 && IsDigit(f[1]))
      && (r.Ok? ==> r.value == DigitValue(f[1]) + 1)
      && (|f| < 2 ==> r == Err(IndexErrorMessage))
      && (|f| >= 2 && !IsDigit(f[1]) ==> r == Err(CastToInt8Failure))
  {
    SecondDigitPlusOne(LastField(id, '_'))
  }

  /** The measurement `parent_group`: `int(x.split("_")[-1].split("-")[0][1]) + 1`. */
  function MeasurementParentGroup(componentName: string): (r: Result<nat>)
    ensures var f := FirstField(LastField(componentName, '_'), '-');
      && (r.Ok? <==> |f| >= 2 && IsDigit(f[1]))
      && (r.Ok? ==> r.value == DigitValue(f[1]) + 1)
      && (|f| < 2 ==> r == Err(IndexErrorMessage))
      && (|f| >= 2 && !IsDigit(f[1]) ==> r == Err(CastToInt8Failure))
  {
    SecondDigitPlusOne(FirstField(LastField(componentName, '_'), '-'))
  }

  /** The isotopologue `m<n>` of `<met>_m<n>` has parent group n + 1 for every single digit n. */
  lemma ParentGroupOfId(met: string, n: nat)
    requires n < 10
    ensures ParentGroup(met + "_m" + NatToString(n)) == Ok(n + 1)
  {
    var tail := "m" + NatToString(n);
    assert met + "_m" + NatToString(n) == met + ['_'] + tail;
    assert '_' !in tail;
    SplitLast(met, '_', tail);
  }

  /** Only the first digit is read: `x_m12` gives parent group 2, not 13. */
  lemma ParentGroupReadsOneDigit()
    ensures ParentGroup("x_m12") == Ok(2)
  {
    assert "x_m12" == "x" + ['_'] + "m12";
    SplitLast("x", '_', "m12");
  }

  /** A component name `<met>_m<n>-<rest>` has parent group n + 1 for every single digit n. */
  lemma MeasurementParentGroupOf(met: string, n: nat, rest: string)
    requires n < 10 && '_' !in rest
    ensures MeasurementParentGroup(met + "_m" + NatToString(n) + "-" + rest) == Ok(n + 1)
  {
    var head := "m" + NatToString(n);
    assert met + "_m" + NatToString(n) + "-" + rest == met + "_" + head + "-" + rest;
    assert |head| == 2 && head[1] == NatToString(n)[0];
    ComponentLastField(met, head, rest);
    HeadBeforeDash(head, rest);
  }

  lemma ComponentLastField(met: string, head: string, rest: string)
    requires '_' !in head && '_' !in rest
    ensures LastField(met + "_" + head + "-" + rest, '_') == head + "-" + rest
  {
    var tail := head + "-" + rest;
    assert met + "_" + head + "-" + rest == met + ['_'] + tail;
    assert '_' !in tail;
    SplitLast(met, '_', tail);
  }

  lemma HeadBeforeDash(head: string, rest: string)
    requires '-' !in head
    ensures FirstField(head + "-" + rest, '-') == head
  {
    assert head + "-" + rest == head + ['-'] + rest;
    SplitAt(head, '-', rest);
    SplitNoSep(head, '-');
  }

  /** The `split`, `injection` and `sample` fields of a sample name: `_`-fields −2, −1 and 2. */
  datatype SampleFields = SampleFields(split: string, injection: string, sample: string)

  function SampleFieldsOf(sampleName: string): (r: Result<SampleFields>)
    ensures var f := Split(sampleName, '_');
      && (r.Ok? <==> |f| >= 3)
      && (r.Err? ==> r.error == "list index out of range")
      && (r.Ok? ==> r.value == SampleFields(f[|f| - 2], f[|f| - 1], f[2]))
  {
    var f := Split(sampleName, '_');
    match (PyAt(f, -2), PyAt(f, -1), PyAt(f, 2))
    case (Some(split), Some(injection), Some(sample)) => Ok(SampleFields(split, injection, sample))
    case _ => Err("list index out of range")
  }

  /** `concat_str(["split", "injection", "sample"])`: the three fields with no separator. */
  function SampleId(fields: SampleFields): string
  {
    fields.split + fields.injection + fields.sample
  }

  /** A name made of `_`-free fields has those fields at positions −2, −1 and 2. */
  lemma SampleFieldsOfJoin(fields: seq<string>)
    requires |fields| >= 3 && forall i :: 0 <= i < |fields| ==> '_' !in fields[i]
    ensures var r := SampleFieldsOf(Join(fields, '_'));
      r.Ok? && r.value.split == fields[|fields| - 2] && r.value.injection == fields[|fields| - 1] && r.value.sample == fields[2]
  {
    SplitJoin(fields, '_');
    SampleFieldsOfSplit(Join(fields, '_'), fields);
  }

  lemma SampleFieldsOfSplit(name: string, fields: seq<string>)
    requires Split(name, '_') == fields && |fields| >= 3
    ensures var r := SampleFieldsOf(name);
      r.Ok? && r.value.split == fields[|fields| - 2] && r.value.injection == fields[|fields| - 1] && r.value.sample == fields[2]
  {
  }

  /** A name of the calibration runs: `HEK_Wt_QC1_1x_split2_inj1` is sample `split2inj1QC1`. */
  lemma SampleIdExample()
    ensures var fields := ["HEK", "Wt", "QC1", "1x", "split2", "inj1"];
      var r := SampleFieldsOf(Join(fields, '_'));
      r.Ok? && r.value.split == "split2" && r.value.injection == "inj1" && r.value.sample == "QC1"
    ensures SampleId(SampleFields("split2", "inj1", "QC1")) == "split2inj1QC1"
  {
    var fields := ["HEK", "Wt", "QC1", "1x", "split2", "inj1"];
    assert forall i :: 0 <= i < |fields| ==> '_' !in fields[i];
    SampleFieldsOfJoin(fields);
    assert "split2" + "inj1" == "split2inj1";
  }

  /** Without a separator two different field triples can share a sample id. */
  lemma SampleIdAmbiguous()
    ensures SampleId(SampleFields("split1", "inj12", "QC1")) == SampleId(SampleFields("split1", "inj1", "2QC1"))
  {
  }

  /** Well-formed fields (`split<digits>`, `inj<digits>`, a sample not starting with a digit) give distinct ids. */
  predicate WellFormedFields(f: SampleFields)
  {
    && |f.split| >= 5 && f.split[..5] == "split" && AllDigits(f.split[5..])
    && |f.injection| >= 3 && f.injection[..3] == "inj" && AllDigits(f.injection[3..])
    && |f.sample| > 0 && !IsDigit(f.sample[0])
  }

  lemma SampleIdInjective(f: SampleFields, g: SampleFields)
    requires WellFormedFields(f) && WellFormedFields(g)
    ensures SampleId(f) == SampleId(g) <==> f == g
  {
    if SampleId(f) == SampleId(g) {
      var x, y := f.injection + f.sample, g.injection + g.sample;
      assert SampleId(f) == f.split + x && SampleId(g) == g.split + y;
      assert x[0] == 'i' && y[0] == 'i';
      TaggedNumberInjective("split", f.split, x, g.split, y);
      TaggedNumberInjective("inj", f.injection, f.sample, g.injection, g.sample);
    }
  }

  /** `<tag><digits>` followed by a non-digit can be split off only one way. */
  lemma TaggedNumberInjective(tag: string, a: string, x: string, b: string, y: string)
    requires |a| >= |tag| && a[..|tag|] == tag && AllDigits(a[|tag|..])
    requires |b| >= |tag| && b[..|tag|] == tag && AllDigits(b[|tag|..])
    requires |x| > 0 && |y| > 0 && !IsDigit(x[0]) && !IsDigit(y[0])
    requires a + x == b + y
    ensures a == b && x == y
  {
    var n := |tag|;
    assert a == tag + a[n..] && b == tag + b[n..];
    assert (a + x)[n..] == a[n..] + x && (b + y)[n..] == b[n..] + y;
    DigitRunPrefix(a[n..], x, b[n..], y);
  }

  /** `concat_str([met_group, sample_group], separator="-")`. */
  function MetSample(metGroup: nat, sampleGroup: nat): string
  {
    NatToString(metGroup) + "-" + NatToString(sampleGroup)
  }

  /** Different (met_group, sample_group) pairs get different `met_sample` strings. */
  lemma MetSampleInjective(a: nat, b: nat, c: nat, d: nat)
    ensures MetSample(a, b) == MetSample(c, d) <==> a == c && b == d
  {
    if MetSample(a, b) == MetSample(c, d) {
      DashedDigitsInjective(NatToString(a), NatToString(b), NatToString(c), NatToString(d));
      NatToStringInjective(a, c);
      NatToStringInjective(b, d);
    }
  }

  lemma DashedDigitsInjective(a: string, b: string, c: string, d: string)
    requires AllDigits(a) && AllDigits(c) && a + "-" + b == c + "-" + d
    ensures a == c && b == d
  {
    var x, y := "-" + b, "-" + d;
    assert a + "-" + b == a + x && c + "-" + d == c + y;
    DigitRunPrefix(a, x, c, y);
    assert x[1..] == b && y[1..] == d;
  }

  /** `Theoretical / 100`: a percentage as a fraction. */
  function FromPercent(theoretical: real): (fraction: real)
    ensures fraction * 100.0 == theoretical
  {
    theoretical / 100.0
  }

  // ---------------------------------------------------------------------------------------------
  // Index maps

  /** `{k: ix + 1 for ix, k in enumerate(u)}`; a repeated key keeps its last position. */
  function DenseIndex<K(==,!new)>(u: seq<K>): (m: map<K, nat>)
    ensures forall i :: 0 <= i < |u| ==> u[i] in m
    ensures forall k :: k in m ==> k in u
    ensures forall k {:trigger m[k]} :: k in m ==> 1 <= m[k] <= |u| && u[m[k] - 1] == k
  {
    if |u| == 0 then map[]
    else
      var n := |u| - 1;
      var front := DenseIndex(u[..n]);
      assert forall i :: 0 <= i < n ==> u[..n][i] == u[i];
      front[u[n] := n + 1]
  }

  /** `u` lists the distinct values of `col`, each once, in some order (what `unique()` returns). */
  ghost predicate EnumeratesUnique<K(!new)>(u: seq<K>, col: seq<K>)
  {
    Distinct(u) && (forall k :: k in u ==> k in col) && (forall k :: k in col ==> k in u)
  }

  /** Over distinct keys the map is a bijection onto 1..|u|, so its size is the number of keys. */
  lemma DenseIndexBijective<K(!new)>(u: seq<K>)
    requires Distinct(u)
    ensures forall i :: 0 <= i < |u| ==> DenseIndex(u)[u[i]] == i + 1
    ensures |DenseIndex(u)| == |u|
  {
    DenseIndexSize(u);
    forall i | 0 <= i < |u| ensures DenseIndex(u)[u[i]] == i + 1 {
      DenseIndexAt(u, i);
    }
  }

  lemma DenseIndexAt<K(!new)>(u: seq<K>, i: nat)
    requires Distinct(u) && i < |u|
    ensures DenseIndex(u)[u[i]] == i + 1
  {
    var m := DenseIndex(u);
    assert u[i] in m;
    var j := m[u[i]] - 1;
    assert 0 <= j < |u| && u[j] == u[i];
    DistinctAt(u, i, j);
  }

  lemma {:induction false} DenseIndexSize<K(!new)>(u: seq<K>)
    requires Distinct(u)
    ensures |DenseIndex(u)| == |u|
  {
    if |u| > 0 {
      var n := |u| - 1;
      var front := u[..n];
      assert Distinct(front);
      DenseIndexSize(front);
      assert u[n] !in front by {
        assert forall j :: 0 <= j < n ==> front[j] != u[n];
      }
    }
  }

  const IncompleteMappingMessage: string := "incomplete mapping specified for replace_strict"

  /** `replace_strict(mapping)`: every value replaced by its image, an error if one has none. */
  function ReplaceStrict<K(==), V>(col: seq<K>, mapping: map<K, V>): (r: Result<seq<V>>)
    ensures r.Ok? <==> forall i :: 0 <= i < |col| ==> col[i] in mapping
    ensures r.Err? ==> r.error == IncompleteMappingMessage
    ensures r.Ok? ==> |r.value| == |col| && forall i :: 0 <= i < |col| ==> r.value[i] == mapping[col[i]]
  {
    if forall i :: 0 <= i < |col| ==> col[i] in mapping then
      Ok(seq(|col|, i requires 0 <= i < |col| => mapping[col[i]]))
    else Err(IncompleteMappingMessage)
  }

  /**
   * Coding a column with the index map of its own unique values never fails; the codes lie in
   * 1..n and two rows get the same code exactly when they hold the same key.
   */
  lemma DenseCodes<K(!new)>(col: seq<K>, u: seq<K>)
    requires EnumeratesUnique(u, col)
    ensures var r := ReplaceStrict(col, DenseIndex(u));
      && r.Ok?
      && (forall i :: 0 <= i < |col| ==> 1 <= r.value[i] <= |u|)
      && (forall i, j :: 0 <= i < |col| && 0 <= j < |col| ==> (r.value[i] == r.value[j] <==> col[i] == col[j]))
      && |DenseIndex(u)| == |u|
  {
    DenseIndexBijective(u);
    DenseIndexCovers(col, u);
    var m := DenseIndex(u);
    var r := ReplaceStrict(col, m).value;
    forall i, j | 0 <= i < |col| && 0 <= j < |col| && r[i] == r[j] ensures col[i] == col[j] {
      DenseIndexInjective(u, col[i], col[j]);
    }
  }

  lemma DenseIndexCovers<K(!new)>(col: seq<K>, u: seq<K>)
    requires EnumeratesUnique(u, col)
    ensures forall i :: 0 <= i < |col| ==> col[i] in DenseIndex(u)
  {
    forall i | 0 <= i < |col| ensures col[i] in DenseIndex(u) {
      assert col[i] in col;
    }
  }

  /** Different keys get different positions. */
  lemma DenseIndexInjective<K(!new)>(u: seq<K>, a: K, b: K)
    requires a in DenseIndex(u) && b in DenseIndex(u) && DenseIndex(u)[a] == DenseIndex(u)[b]
    ensures a == b
  {
    var m := DenseIndex(u);
    assert a == u[m[a] - 1] && b == u[m[b] - 1];
  }

  // ---------------------------------------------------------------------------------------------
  // The two tables

  datatype TheoreticalRow = TheoreticalRow(id: string, theoretical: real)

  datatype PreparedTheoretical = PreparedTheoretical(id: string, met: string, parentGroup: nat,
                                                     metGroup: nat, theoretical: real)

  function Ids(rows: seq<TheoreticalRow>): (ids: seq<string>)
    ensures |ids| == |rows| && forall i :: 0 <= i < |rows| ==> ids[i] == rows[i].id
  {
    seq(|rows|, i requires 0 <= i < |rows| => rows[i].id)
  }

  function Mets(rows: seq<TheoreticalRow>): (mets: seq<string>)
    ensures |mets| == |rows| && forall i :: 0 <= i < |rows| ==> mets[i] == MetOf(rows[i].id)
  {
    seq(|rows|, i requires 0 <= i < |rows| => MetOf(rows[i].id))
  }

  /**
   * The theoretical table after its two `with_columns` steps, and the `met_group` map; `metOrder`
   * is the order `unique()` returned the metabolites in.
   */
  function PrepareTheoretical(rows: seq<TheoreticalRow>, metOrder: seq<string>)
    : (r: Result<(seq<PreparedTheoretical>, map<string, nat>)>)
    ensures r.Ok? <==> (forall i :: 0 <= i < |rows| ==> ParentGroup(rows[i].id).Ok? && MetOf(rows[i].id) in DenseIndex(metOrder))
    ensures r.Ok? ==> r.value.1 == DenseIndex(metOrder) && |r.value.0| == |rows|
    ensures r.Ok? ==> forall i :: 0 <= i < |rows| ==>
      r.value.0[i] == PreparedTheoretical(rows[i].id, MetOf(rows[i].id), ParentGroup(rows[i].id).value,
                                          DenseIndex(metOrder)[MetOf(rows[i].id)], FromPercent(rows[i].theoretical))
  {
    match ParentGroups(rows)
    case Err(e) => Err(e)
    case Ok(parents) =>
      var metGroup := DenseIndex(metOrder);
      match MetGroups(rows, metGroup)
      case Err(e) => Err(e)
      case Ok(codes) =>
        Ok((seq(|rows|, i requires 0 <= i < |rows| =>
              PreparedTheoretical(rows[i].id, MetOf(rows[i].id), parents[i], codes[i], FromPercent(rows[i].theoretical))),
            metGroup))
  }

  /** The `met_group` column: `replace_strict` of the `met` column. */
  function MetGroups(rows: seq<TheoreticalRow>, metGroup: map<string, nat>): (r: Result<seq<nat>>)
    ensures r.Ok? <==> forall i :: 0 <= i < |rows| ==> MetOf(rows[i].id) in metGroup
    ensures r.Ok? ==> |r.value| == |rows| && forall i :: 0 <= i < |rows| ==> r.value[i] == metGroup[MetOf(rows[i].id)]
  {
    ReplaceStrict(Mets(rows), metGroup)
  }

  /** The `parent_group` column: one failing ID fails the column. */
  function ParentGroups(rows: seq<TheoreticalRow>): (r: Result<seq<nat>>)
    ensures r.Ok? <==> forall i :: 0 <= i < |rows| ==> ParentGroup(rows[i].id).Ok?
    ensures r.Ok? ==> |r.value| == |rows| && forall i :: 0 <= i < |rows| ==> r.value[i] == ParentGroup(rows[i].id).value
  {
    MapAll(Ids(rows), ParentGroup)
  }

  /**
   * When every ID carries a parent group, the table is prepared, with N_mets the number of
   * metabolites and each `met_group` in 1..N_mets, shared exactly by the rows of one metabolite.
   */
  lemma TheoreticalPrepared(rows: seq<TheoreticalRow>, metOrder: seq<string>)
    requires EnumeratesUnique(metOrder, Mets(rows))
    requires forall i :: 0 <= i < |rows| ==> ParentGroup(rows[i].id).Ok?
    ensures PrepareTheoretical(rows, metOrder).Ok?
    ensures |PrepareTheoretical(rows, metOrder).value.1| == |metOrder|
    ensures var out := PrepareTheoretical(rows, metOrder).value.0;
      forall i :: 0 <= i < |rows| ==> 1 <= out[i].metGroup <= |metOrder|
    ensures var out := PrepareTheoretical(rows, metOrder).value.0;
      forall i, j :: 0 <= i < |rows| && 0 <= j < |rows| ==> (out[i].metGroup == out[j].metGroup <==> out[i].met == out[j].met)
  {
    var m := DenseIndex(metOrder);
    DenseCodes(Mets(rows), metOrder);
    var codes := ReplaceStrict(Mets(rows), m).value;
    assert MetGroups(rows, m) == Ok(codes);
    var r := PrepareTheoretical(rows, metOrder);
    assert r.Ok?;
    var out := r.value.0;
    forall i | 0 <= i < |rows|
      ensures 1 <= out[i].metGroup <= |metOrder|
    {
      assert out[i].metGroup == codes[i];
    }
    forall i, j | 0 <= i < |rows| && 0 <= j < |rows|
      ensures out[i].metGroup == out[j].metGroup <==> out[i].met == out[j].met
    {
      assert out[i].metGroup == codes[i] && out[j].metGroup == codes[j];
      assert out[i].met == Mets(rows)[i] && out[j].met == Mets(rows)[j];
    }
  }

  /** Without a parent group in every ID the preparation raises. */
  lemma TheoreticalNeedsParentGroups(rows: seq<TheoreticalRow>, metOrder: seq<string>, i: nat)
    requires i < |rows| && ParentGroup(rows[i].id).Err?
    ensures PrepareTheoretical(rows, metOrder).Err?
  {
    assert !ParentGroup(Ids(rows)[i]).Ok?;
  }

  datatype SampleRow = SampleRow(sampleName: string, componentName: string, componentGroupName: string, height: real)

  datatype PreparedSample = PreparedSample(height: real, parentGroup: nat, metGroup: nat, sampleGroup: nat)

  /** The columns the string lambdas derive from one row: its sample id and its parent group. */
  function ParseSampleRow(row: SampleRow): (r: Result<(string, nat)>)
    ensures r.Ok? <==> SampleFieldsOf(row.sampleName).Ok? && MeasurementParentGroup(row.componentName).Ok?
    ensures r.Ok? ==> r.value == (SampleId(SampleFieldsOf(row.sampleName).value), MeasurementParentGroup(row.componentName).value)
  {
    match SampleFieldsOf(row.sampleName)
    case Err(e) => Err(e)
    case Ok(fields) =>
      match MeasurementParentGroup(row.componentName)
      case Err(e) => Err(e)
      case Ok(parent) => Ok((SampleId(fields), parent))
  }

  function ComponentGroups(rows: seq<SampleRow>): (names: seq<string>)
    ensures |names| == |rows| && forall i :: 0 <= i < |rows| ==> names[i] == rows[i].componentGroupName
  {
    seq(|rows|, i requires 0 <= i < |rows| => rows[i].componentGroupName)
  }

  function SampleIdColumn(parsed: seq<(string, nat)>): (ids: seq<string>)
    ensures |ids| == |parsed| && forall i :: 0 <= i < |parsed| ==> ids[i] == parsed[i].0
  {
    seq(|parsed|, i requires 0 <= i < |parsed| => parsed[i].0)
  }

  /**
   * The undiluted samples after their `with_columns` steps, reduced to the four columns that are
   * kept, and the `sample_group` map; `sampleOrder` is the order `unique()` returned the sample
   * ids in, and `metGroup` the map of the theoretical table.
   */
  function PrepareSamples(rows: seq<SampleRow>, metGroup: map<string, nat>, sampleOrder: seq<string>)
    : (r: Result<(seq<PreparedSample>, map<string, nat>)>)
    ensures r.Ok? ==> r.value.1 == DenseIndex(sampleOrder) && |r.value.0| == |rows|
  {
    match MapAll(rows, ParseSampleRow)
    case Err(e) => Err(e)
    case Ok(parsed) =>
      var sampleGroup := DenseIndex(sampleOrder);
      match ReplaceStrict(ComponentGroups(rows), metGroup)
      case Err(e) => Err(e)
      case Ok(mets) =>
        match ReplaceStrict(SampleIdColumn(parsed), sampleGroup)
        case Err(e) => Err(e)
        case Ok(samples) =>
          Ok((seq(|rows|, i requires 0 <= i < |rows| => PreparedSample(rows[i].height, parsed[i].1, mets[i], samples[i])),
              sampleGroup))
  }

  /**
   * The preparation succeeds exactly when every name parses, every compound group has a
   * metabolite code and every sample id a sample code.
   */
  lemma PrepareSamplesOkIff(rows: seq<SampleRow>, metGroup: map<string, nat>, sampleOrder: seq<string>)
    ensures PrepareSamples(rows, metGroup, sampleOrder).Ok? <==>
      && (forall i :: 0 <= i < |rows| ==> ParseSampleRow(rows[i]).Ok?)
      && (forall i :: 0 <= i < |rows| ==> rows[i].componentGroupName in metGroup)
      && (forall i :: 0 <= i < |rows| ==> ParseSampleRow(rows[i]).value.0 in DenseIndex(sampleOrder))
  {
    var p := MapAll(rows, ParseSampleRow);
    if p.Ok? && ReplaceStrict(ComponentGroups(rows), metGroup).Ok? {
      SampleCodesOk(rows, p.value, DenseIndex(sampleOrder));
    }
  }

  lemma SampleCodesOk(rows: seq<SampleRow>, parsed: seq<(string, nat)>, sampleGroup: map<string, nat>)
    requires NamesParse(rows)
    requires |parsed| == |rows| && forall i :: 0 <= i < |rows| ==> parsed[i] == ParseSampleRow(rows[i]).value
    ensures ReplaceStrict(SampleIdColumn(parsed), sampleGroup).Ok? <==>
      forall i :: 0 <= i < |rows| ==> ParseSampleRow(rows[i]).value.0 in sampleGroup
  {
  }

  /** Each prepared row keeps its height and carries its parent group and its two codes. */
  lemma PrepareSamplesRows(rows: seq<SampleRow>, metGroup: map<string, nat>, sampleOrder: seq<string>)
    requires PrepareSamples(rows, metGroup, sampleOrder).Ok?
    ensures forall i :: 0 <= i < |rows| ==> ParseSampleRow(rows[i]).Ok? && rows[i].componentGroupName in metGroup
    ensures forall i :: 0 <= i < |rows| ==>
      PrepareSamples(rows, metGroup, sampleOrder).value.0[i]
      == PreparedSample(rows[i].height, ParseSampleRow(rows[i]).value.1, metGroup[rows[i].componentGroupName],
                        DenseIndex(sampleOrder)[ParseSampleRow(rows[i]).value.0])
  {
  }

  /** Every row parses: its sample name has three fields and its component name a parent group. */
  predicate NamesParse(rows: seq<SampleRow>)
  {
    forall j :: 0 <= j < |rows| ==> ParseSampleRow(rows[j]).Ok?
  }

  /** The `sample_id` column of rows whose names all parse. */
  function SampleIds(rows: seq<SampleRow>): (ids: seq<string>)
    requires NamesParse(rows)
    ensures |ids| == |rows| && forall i :: 0 <= i < |rows| ==> ids[i] == ParseSampleRow(rows[i]).value.0
  {
    seq(|rows|, i requires 0 <= i < |rows| && NamesParse(rows) => ParseSampleRow(rows[i]).value.0)
  }

  /**
   * A measured compound group missing from the theoretical table makes `replace_strict` raise:
   * the metabolite map is built from one table and applied to the other.
   */
  lemma SamplesNeedTheoreticalGroups(rows: seq<SampleRow>, metGroup: map<string, nat>, sampleOrder: seq<string>, i: nat)
    requires i < |rows| && rows[i].componentGroupName !in metGroup
    requires NamesParse(rows)
    ensures PrepareSamples(rows, metGroup, sampleOrder) == Err(IncompleteMappingMessage)
  {
    assert MapAll(rows, ParseSampleRow).Ok?;
    assert ComponentGroups(rows)[i] !in metGroup;
  }

  /**
   * When every name parses and every compound group has a metabolite code, the samples are
   * prepared, with N_samples the number of sample ids and each `sample_group` in 1..N_samples,
   * shared exactly by the rows of one sample id.
   */
  lemma SamplesPrepared(rows: seq<SampleRow>, metGroup: map<string, nat>, sampleOrder: seq<string>)
    requires NamesParse(rows)
    requires forall j :: 0 <= j < |rows| ==> rows[j].componentGroupName in metGroup
    requires EnumeratesUnique(sampleOrder, SampleIds(rows))
    ensures PrepareSamples(rows, metGroup, sampleOrder).Ok?
    ensures |PrepareSamples(rows, metGroup, sampleOrder).value.1| == |sampleOrder|
    ensures var out := PrepareSamples(rows, metGroup, sampleOrder).value.0;
      forall i :: 0 <= i < |rows| ==> 1 <= out[i].sampleGroup <= |sampleOrder|
    ensures var out := PrepareSamples(rows, metGroup, sampleOrder).value.0;
      var ids := SampleIds(rows);
      forall i, j :: 0 <= i < |rows| && 0 <= j < |rows| ==> (out[i].sampleGroup == out[j].sampleGroup <==> ids[i] == ids[j])
  {
    var ids := SampleIds(rows);
    DenseIndexCovers(ids, sampleOrder);
    DenseIndexSize(sampleOrder);
    PrepareSamplesOkIff(rows, metGroup, sampleOrder);
    PrepareSamplesRows(rows, metGroup, sampleOrder);
    var out := PrepareSamples(rows, metGroup, sampleOrder).value.0;
    forall i, j | 0 <= i < |rows| && 0 <= j < |rows| && out[i].sampleGroup == out[j].sampleGroup
      ensures ids[i] == ids[j]
    {
      DenseIndexInjective(sampleOrder, ids[i], ids[j]);
    }
  }

  /**
   * `met_sample_ix`: coding the `met_sample` strings of the joined rows with the map of their own
   * unique values gives codes in 1..N_met_samples, equal exactly for rows of the same
   * (met_group, sample_group) pair.
   */
  function MetSamples(pairs: seq<(nat, nat)>): (col: seq<string>)
    ensures |col| == |pairs| && forall i :: 0 <= i < |pairs| ==> col[i] == MetSample(pairs[i].0, pairs[i].1)
  {
    seq(|pairs|, i requires 0 <= i < |pairs| => MetSample(pairs[i].0, pairs[i].1))
  }

  lemma MetSampleCodes(pairs: seq<(nat, nat)>, order: seq<string>)
    requires EnumeratesUnique(order, MetSamples(pairs))
    ensures var r := ReplaceStrict(MetSamples(pairs), DenseIndex(order));
      && r.Ok?
      && |DenseIndex(order)| == |order|
      && (forall i :: 0 <= i < |pairs| ==> 1 <= r.value[i] <= |order|)
      && (forall i, j :: 0 <= i < |pairs| && 0 <= j < |pairs| ==> (r.value[i] == r.value[j] <==> pairs[i] == pairs[j]))
  {
    DenseCodes(MetSamples(pairs), order);
    PairCodes(pairs, ReplaceStrict(MetSamples(pairs), DenseIndex(order)).value);
  }

  /** Codes that tell the `met_sample` strings apart tell the (met_group, sample_group) pairs apart. */
  lemma PairCodes(pairs: seq<(nat, nat)>, codes: seq<nat>)
    requires |codes| == |pairs|
    requires forall i, j :: 0 <= i < |pairs| && 0 <= j < |pairs| ==>
      (codes[i] == codes[j] <==> MetSamples(pairs)[i] == MetSamples(pairs)[j])
    ensures forall i, j :: 0 <= i < |pairs| && 0 <= j < |pairs| ==> (codes[i] == codes[j] <==> pairs[i] == pairs[j])
  {
    forall i, j | 0 <= i < |pairs| && 0 <= j < |pairs| ensures codes[i] == codes[j] <==> pairs[i] == pairs[j] {
      MetSampleInjective(pairs[i].0, pairs[i].1, pairs[j].0, pairs[j].1);
    }
  }
}
