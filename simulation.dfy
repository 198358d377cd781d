/**
 * The simulation driver of `cmfapoc.simulation`: a transformation is chosen by name, every
 * (measurement_id, species) group of a dataset is mapped to unconstrained space, perturbed by
 * one scaled normal draw per coordinate and mapped back, and the per-group results are stacked
 * in group order.
 *
 * The log-ratio transformations themselves belong to scikit-bio; here each is an opaque pair of
 * functions that may fail (a raised exception). The process-wide random generator is the stream
 * `rng` of standard normal draws together with the position `from` of the next draw.
 */
module Simulation {
  import opened Wrappers
  import opened Seqs
  import opened GroupBy

  datatype Transformation = Alr | Clr | Ilr

  /** The keys of the table of transformations, in the table's order. */
  const TransformationNames: seq<string> := ["alr", "clr", "ilr"]

  const DefaultTransformation: string := "clr"
  const DefaultErrorSd: real := 0.1

  function NameOf(t: Transformation): string
  {
    match t
    case Alr => "alr"
    case Clr => "clr"
    case Ilr => "ilr"
  }

  /** Python's `str` of a list of plain strings: `['a', 'b']`. */
  function PyListRepr(names: seq<string>): string
  {
    "[" + PyItems(names) + "]"
  }

  function PyItems(names: seq<string>): string
  {
    if |names| == 0 then ""
    else if |names| == 1 then "'" + names[0] + "'"
    else "'" + names[0] + "', " + PyItems(names[1..])
  }

  /** The message of the error raised for a name that is not in the table. */
  function UnknownTransformationMessage(): string
  {
    "Parameter 'transformation' must be one of: " + PyListRepr(TransformationNames) + "."
  }

  lemma UnknownTransformationMessageText()
    ensures UnknownTransformationMessage()
         == "Parameter 'transformation' must be one of: ['alr', 'clr', 'ilr']."
  {
  }

  /** The table lookup; only the three table keys are accepted. */
  function ParseTransformation(name: string): (r: Result<Transformation>)
    ensures r.Ok? <==> name in TransformationNames
    ensures r.Ok? ==> NameOf(r.value) == name
    ensures r.Err? ==> r.error == UnknownTransformationMessage()
  {
    if name == "alr" then Ok(Alr)
    else if name == "clr" then Ok(Clr)
    else if name == "ilr" then Ok(Ilr)
    else Err(UnknownTransformationMessage())
  }

  lemma DefaultTransformationAccepted()
    ensures ParseTransformation(DefaultTransformation) == Ok(Clr)
  {
  }

  /** A forward transformation and its inverse; either may raise. */
  datatype Pair<!C> = Pair(forward: seq<C> -> Result<seq<real>>, inverse: seq<real> -> Result<seq<real>>)

  /** The scikit-bio functions the table refers to. */
  datatype Family<!C> = Family(alr: Pair<C>, clr: Pair<C>, ilr: Pair<C>)

  function PairOf<C>(family: Family<C>, t: Transformation): Pair<C>
  {
    match t
    case Alr => family.alr
    case Clr => family.clr
    case Ilr => family.ilr
  }

  /** The outcome of a simulation and the position of the random stream after it. */
  datatype Simulated = Simulated(values: seq<real>, next: nat)

  /** Coordinates plus the next `|u|` draws of the stream, each scaled by `errorSd`. */
  function Perturb(u: seq<real>, errorSd: real, rng: nat -> real, from: nat): (p: seq<real>)
    ensures |p| == |u|
    ensures forall j :: 0 <= j < |u| ==> p[j] - u[j] == rng(from + j) * errorSd
  {
    seq(|u|, j requires 0 <= j < |u| => u[j] + rng(from + j) * errorSd)
  }

  /** `simulate_compositional_measurement` on the fraction column of one group. */
  function SimulateMeasurement<C>(fraction: seq<C>, errorSd: real, transformation: string,
                                  family: Family<C>, rng: nat -> real, from: nat): (r: Result<Simulated>)
    ensures ParseTransformation(transformation).Err? ==> r == Err(UnknownTransformationMessage())
    ensures r.Ok? ==> from <= r.value.next
  {
    match ParseTransformation(transformation)
    case Err(e) => Err(e)
    case Ok(t) =>
      var pair := PairOf(family, t);
      match pair.forward(fraction)
      case Err(e) => Err(e)
      case Ok(u) =>
        match pair.inverse(Perturb(u, errorSd, rng, from))
        case Err(e) => Err(e)
        case Ok(v) => Ok(Simulated(v, from + |u|))
  }

  /**
   * For an accepted name: the inverse receives the transformed coordinates, each plus its own
   * scaled draw, and exactly one draw per coordinate is taken from the stream.
   */
  lemma {:induction false} SimulateMeasurementNoise<C>(fraction: seq<C>, errorSd: real, t: Transformation,
                                                       family: Family<C>, rng: nat -> real, from: nat, u: seq<real>)
    requires PairOf(family, t).forward(fraction) == Ok(u)
    ensures var r := SimulateMeasurement(fraction, errorSd, NameOf(t), family, rng, from);
      var noisy := PairOf(family, t).inverse(Perturb(u, errorSd, rng, from));
      && (r.Ok? <==> noisy.Ok?)
      && (r.Ok? ==> r.value == Simulated(noisy.value, from + |u|))
      && (noisy.Err? ==> r == Err(noisy.error))
    ensures var p := Perturb(u, errorSd, rng, from);
      |p| == |u| && forall j :: 0 <= j < |u| ==> p[j] == u[j] + rng(from + j) * errorSd
  {
    assert ParseTransformation(NameOf(t)) == Ok(t) by { match t case Alr => case Clr => case Ilr => }
  }

  /** The forward map followed by the inverse, with no noise. */
  function RoundTrip<C>(pair: Pair<C>, fraction: seq<C>): Result<seq<real>>
  {
    match pair.forward(fraction)
    case Err(e) => Err(e)
    case Ok(u) => pair.inverse(u)
  }

  /** Every draw, once scaled by `errorSd`, is zero: `error_sd = 0`, or a stream of zero draws. */
  ghost predicate Silent(errorSd: real, rng: nat -> real)
  {
    forall n :: rng(n) * errorSd == 0.0
  }

  /** Without noise the result is `finv(f(fraction))`. */
  lemma {:induction false} ZeroNoiseIsRoundTrip<C>(fraction: seq<C>, errorSd: real, t: Transformation, family: Family<C>,
                                                   rng: nat -> real, from: nat)
    requires Silent(errorSd, rng)
    ensures var r := SimulateMeasurement(fraction, errorSd, NameOf(t), family, rng, from);
      var rt := RoundTrip(PairOf(family, t), fraction);
      && (r.Ok? <==> rt.Ok?)
      && (r.Ok? ==> r.value.values == rt.value)
  {
    var pair := PairOf(family, t);
    assert ParseTransformation(NameOf(t)) == Ok(t) by { match t case Alr => case Clr => case Ilr => }
    match pair.forward(fraction)
    case Err(e) =>
    case Ok(u) =>
      var p := Perturb(u, errorSd, rng, from);
      forall j | 0 <= j < |u|
        ensures p[j] == u[j]
      {
        assert rng(from + j) * errorSd == 0.0;
      }
      assert p == u;
  }

  /** One row of the dataset: its group key columns and its fraction. */
  datatype Row<C> = Row(measurementId: string, species: string, fraction: C)

  function GroupKeys<C>(dataset: seq<Row<C>>): (keys: seq<(string, string)>)
    ensures |keys| == |dataset|
  {
    seq(|dataset|, i requires 0 <= i < |dataset| => (dataset[i].measurementId, dataset[i].species))
  }

  /** The fraction column at the given rows, in that order. */
  function Gather<C>(dataset: seq<Row<C>>, rows: seq<nat>): (col: seq<C>)
    requires forall t :: 0 <= t < |rows| ==> rows[t] < |dataset|
    ensures |col| == |rows|
  {
    seq(|rows|, t requires 0 <= t < |rows| => dataset[rows[t]].fraction)
  }

  /** The fraction column of group `k`, in dataset order: what the group function sees. */
  function GroupFractions<C>(dataset: seq<Row<C>>, k: (string, string)): (g: seq<C>)
    ensures var m := Members(GroupKeys(dataset), k);
      |g| == |m| && forall t :: 0 <= t < |m| ==> g[t] == dataset[m[t]].fraction
    ensures forall i :: 0 <= i < |dataset| && GroupKeys(dataset)[i] == k ==> dataset[i].fraction in g
  {
    var m := Members(GroupKeys(dataset), k);
    var g := Gather(dataset, m);
    assert forall i :: 0 <= i < |dataset| && GroupKeys(dataset)[i] == k ==> dataset[i].fraction in g by {
      forall i | 0 <= i < |dataset| && GroupKeys(dataset)[i] == k
        ensures dataset[i].fraction in g
      {
        var t :| 0 <= t < |m| && m[t] == i;
        assert g[t] == dataset[i].fraction;
      }
    }
    g
  }

  /** The rows of the groups `groups` are simulated in that order and their outputs stacked. */
  function SimulateGroups<C>(dataset: seq<Row<C>>, groups: seq<(string, string)>, errorSd: real,
                             transformation: string, family: Family<C>, rng: nat -> real, from: nat): (r: Result<Simulated>)
    ensures |groups| == 0 ==> r == Ok(Simulated([], from))
    ensures |groups| > 0 && ParseTransformation(transformation).Err? ==> r == Err(UnknownTransformationMessage())
    ensures r.Ok? ==> from <= r.value.next
  {
    if |groups| == 0 then Ok(Simulated([], from))
    else
      match SimulateMeasurement(GroupFractions(dataset, groups[0]), errorSd, transformation, family, rng, from)
      case Err(e) => Err(e)
      case Ok(first) =>
        match SimulateGroups(dataset, groups[1..], errorSd, transformation, family, rng, first.next)
        case Err(e) => Err(e)
        case Ok(rest) => Ok(Simulated(first.values + rest.values, rest.next))
  }

  /**
   * `simulate`: the groups in order of first appearance, each simulated and the results stacked.
   * The name is checked by the per-group function, so a dataset without rows never checks it.
   */
  function Simulate<C>(dataset: seq<Row<C>>, errorSd: real, transformation: string,
                       family: Family<C>, rng: nat -> real, from: nat): (r: Result<Simulated>)
    ensures |dataset| > 0 && transformation !in TransformationNames ==> r == Err(UnknownTransformationMessage())
    ensures |dataset| == 0 ==> r == Ok(Simulated([], from))
    ensures r.Ok? ==> from <= r.value.next
  {
    var keys := GroupKeys(dataset);
    assert |dataset| > 0 ==> keys[0] in keys;
    assert |dataset| == 0 ==> FirstAppearance(keys) == [];
    SimulateGroups(dataset, FirstAppearance(keys), errorSd, transformation, family, rng, from)
  }

  /** `simulate` with the defaults of its signature (`error_sd = 0.1`, `transformation = "clr"`). */
  function SimulateWithDefaults<C>(dataset: seq<Row<C>>, family: Family<C>, rng: nat -> real, from: nat): Result<Simulated>
  {
    Simulate(dataset, DefaultErrorSd, DefaultTransformation, family, rng, from)
  }

  /** A pair whose inverse returns as many values as the forward map was given. */
  ghost predicate KeepsShape<C(!new)>(pair: Pair<C>)
  {
    forall x, y :: pair.forward(x).Ok? && pair.inverse(y).Ok? && |y| == |pair.forward(x).value|
      ==> |pair.inverse(y).value| == |x|
  }

  ghost predicate FamilyKeepsShape<C(!new)>(family: Family<C>)
  {
    KeepsShape(family.alr) && KeepsShape(family.clr) && KeepsShape(family.ilr)
  }

  /** Each group contributes as many values as it has rows. */
  lemma {:induction false} SimulateGroupsLength<C(!new)>(dataset: seq<Row<C>>, groups: seq<(string, string)>, errorSd: real,
                                                   transformation: string, family: Family<C>, rng: nat -> real, from: nat)
    requires FamilyKeepsShape(family)
    ensures var r := SimulateGroups(dataset, groups, errorSd, transformation, family, rng, from);
      r.Ok? ==> |r.value.values| == |Stacked(GroupKeys(dataset), groups)|
    decreases |groups|
  {
    if |groups| > 0 {
      var fraction := GroupFractions(dataset, groups[0]);
      var first := SimulateMeasurement(fraction, errorSd, transformation, family, rng, from);
      if first.Ok? {
        var t := ParseTransformation(transformation).value;
        var pair := PairOf(family, t);
        var u := pair.forward(fraction).value;
        assert KeepsShape(pair);
        assert |Perturb(u, errorSd, rng, from)| == |u|;
        assert |first.value.values| == |fraction|;
        SimulateGroupsLength(dataset, groups[1..], errorSd, transformation, family, rng, first.value.next);
      }
    }
  }

  /** If every inverse returns one value per row of its group, the output has one value per row. */
  lemma SimulateLength<C(!new)>(dataset: seq<Row<C>>, errorSd: real, transformation: string,
                          family: Family<C>, rng: nat -> real, from: nat)
    requires FamilyKeepsShape(family)
    ensures var r := Simulate(dataset, errorSd, transformation, family, rng, from);
      r.Ok? ==> |r.value.values| == |dataset|
  {
    SimulateGroupsLength(dataset, FirstAppearance(GroupKeys(dataset)), errorSd, transformation, family, rng, from);
    RowOrderIsPermutation(GroupKeys(dataset));
  }

  /** The defaults select the `clr` pair, so a default run keeps the dataset's row count. */
  lemma SimulateWithDefaultsLength<C(!new)>(dataset: seq<Row<C>>, family: Family<C>, rng: nat -> real, from: nat)
    requires FamilyKeepsShape(family)
    ensures var r := SimulateWithDefaults(dataset, family, rng, from);
      (|dataset| == 0 ==> r == Ok(Simulated([], from))) && (r.Ok? ==> |r.value.values| == |dataset|)
  {
    SimulateLength(dataset, DefaultErrorSd, DefaultTransformation, family, rng, from);
  }

  /** The real values the cells of a column stand for. */
  function Values<C>(col: seq<C>, value: C -> real): (v: seq<real>)
    ensures |v| == |col| && forall i :: 0 <= i < |col| ==> v[i] == value(col[i])
  {
    seq(|col|, i requires 0 <= i < |col| => value(col[i]))
  }

  lemma ValuesAppend<C>(a: seq<C>, b: seq<C>, value: C -> real)
    ensures Values(a + b, value) == Values(a, value) + Values(b, value)
  {
    var l, r := Values(a + b, value), Values(a, value) + Values(b, value);
    forall i | 0 <= i < |a| + |b|
      ensures l[i] == r[i]
    {
      if i < |a| {
        assert (a + b)[i] == a[i];
      } else {
        assert (a + b)[i] == b[i - |a|];
      }
    }
  }

  /** A pair whose round trip returns, for any column, the values its cells stand for. */
  ghost predicate Reproduces<C(!new)>(pair: Pair<C>, value: C -> real)
  {
    forall x :: pair.forward(x).Ok? && pair.inverse(pair.forward(x).value) == Ok(Values(x, value))
  }

  ghost predicate FamilyReproduces<C(!new)>(family: Family<C>, value: C -> real)
  {
    Reproduces(family.alr, value) && Reproduces(family.clr, value) && Reproduces(family.ilr, value)
  }

  lemma GatherAppend<C>(dataset: seq<Row<C>>, a: seq<nat>, b: seq<nat>)
    requires forall t :: 0 <= t < |a| ==> a[t] < |dataset|
    requires forall t :: 0 <= t < |b| ==> b[t] < |dataset|
    ensures Gather(dataset, a + b) == Gather(dataset, a) + Gather(dataset, b)
  {
  }

  /** Without noise and with a reproducing pair, output position `j` holds the value of row `order[j]`. */
  lemma {:induction false} SimulateGroupsGathers<C(!new)>(dataset: seq<Row<C>>, groups: seq<(string, string)>, errorSd: real,
                                                         t: Transformation, family: Family<C>, value: C -> real,
                                                         rng: nat -> real, from: nat)
    requires Reproduces(PairOf(family, t), value) && Silent(errorSd, rng)
    ensures forall j :: 0 <= j < |Stacked(GroupKeys(dataset), groups)| ==> Stacked(GroupKeys(dataset), groups)[j] < |dataset|
    ensures var r := SimulateGroups(dataset, groups, errorSd, NameOf(t), family, rng, from);
      r.Ok? && r.value.values == Values(Gather(dataset, Stacked(GroupKeys(dataset), groups)), value)
    decreases |groups|
  {
    StackedBounded(GroupKeys(dataset), groups);
    if |groups| > 0 {
      var keys := GroupKeys(dataset);
      var fraction := GroupFractions(dataset, groups[0]);
      ZeroNoiseIsRoundTrip(fraction, errorSd, t, family, rng, from);
      var first := SimulateMeasurement(fraction, errorSd, NameOf(t), family, rng, from);
      assert first.Ok? && first.value.values == Values(fraction, value);
      SimulateGroupsGathers(dataset, groups[1..], errorSd, t, family, value, rng, first.value.next);
      StackedBounded(keys, groups[1..]);
      GatherAppend(dataset, Members(keys, groups[0]), Stacked(keys, groups[1..]));
      ValuesAppend(fraction, Gather(dataset, Stacked(keys, groups[1..])), value);
    }
  }

  /**
   * The stacked output lines up with the input rows exactly when every group's rows are
   * contiguous: without noise and with a pair that reproduces its input, output position `j`
   * holds the value of input row `RowOrder[j]`, which is the whole fraction column in order
   * for a contiguous dataset, while for any other dataset some position holds another row's value.
   */
  lemma SimulateAlignment<C(!new)>(dataset: seq<Row<C>>, errorSd: real, t: Transformation, family: Family<C>,
                                   value: C -> real, rng: nat -> real, from: nat)
    requires Reproduces(PairOf(family, t), value) && Silent(errorSd, rng)
    ensures var r := Simulate(dataset, errorSd, NameOf(t), family, rng, from);
      var order := RowOrder(GroupKeys(dataset));
      && r.Ok?
      && |order| == |dataset|
      && (forall j :: 0 <= j < |order| ==> order[j] < |dataset|)
      && r.value.values == Values(Gather(dataset, order), value)
      && (Contiguous(GroupKeys(dataset)) ==> r.value.values == Values(Gather(dataset, Range(|dataset|)), value))
      && (!Contiguous(GroupKeys(dataset)) ==> exists j :: 0 <= j < |dataset| && order[j] != j)
  {
    var keys := GroupKeys(dataset);
    StackedBounded(keys, FirstAppearance(keys));
    SimulateGroupsGathers(dataset, FirstAppearance(keys), errorSd, t, family, value, rng, from);
    RowOrderIsPermutation(keys);
    RowOrderIdentityIffContiguous(keys);
    if !Contiguous(keys) {
      var order := RowOrder(keys);
      assert order != Range(|dataset|);
      var j :| 0 <= j < |dataset| && order[j] != Range(|dataset|)[j];
    }
  }
}
