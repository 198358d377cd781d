# cmfapoc bookkeeping, modelled in Dafny

cmfapoc prepares isotopologue measurements for compositional calibration and flux models. The
log-ratio mathematics it relies on (`clr`, `alr`, `ilr`, their inverses and `sbp_basis`) comes
from scikit-bio. This project models the code the repository owns around those calls, and proves
properties of that model:

- **Grouped closure.** `close` divides each value by the sum of its group. It is modelled over
  exact `real`, with `Option<real>` for the nulls a right join leaves behind (`data_preparation.dfy`).
- **Measurement identifiers.** The `ID_<n>_` and `ID_<n>_rep_<r>` extractions with their 64-bit
  cast, the `is_c12` flag, and the `(.*)_(m\d+)$` split of natural-abundance ids
  (`data_preparation.dfy`).
- **Sergi's simulation passes.** The `for` loop of `prepare_data_sergi` is a method with a loop
  invariant, proved equal to a recursive specification (`data_preparation.dfy`). It drives the
  driver of `simulation.py`: the transformation-name check, one noisy forward/inverse pass per
  group, and the concatenation of the groups in first-appearance order (`simulation.dfy`,
  `group_by.dfy`).
- **Daria's calibration table.** The aggregated measurements are right-joined onto
  `natural_with_samples` and re-closed (`data_preparation.dfy`).
- **The calibration notebook.** The zero/null filter and its re-closure; the sign matrix of the
  sequential binary partition, filled into an `array2` by nested loops; and the labels, total
  measurements and residuals of `func_clr`, `func_alr` and `func_ilr`. Each group is processed by
  `group_by(maintain_order=True).map_groups` (`calibration.dfy`).
- **The Stan input of `fit_fluxomics.py`.** The string-slicing lambdas, the `sample_id` and
  `met_sample` concatenations, the `/100` rescale, and the 1-based dense index maps with their
  `replace_strict` lookups and sizes (`fit_fluxomics.dfy`).

`wrappers.dfy` (Option, Result), `seqs.dfy` (distinctness, ranges, filtering) and `strings.dfy`
(digits, integer formatting, Python's `str.split` and negative indexing) hold the shared vocabulary.

The scikit-bio transformations are function parameters. `Simulation.Family` holds a forward and an
inverse map per name. `Calibration.LogRatio` holds `clr`, `alr` with `denominator_idx=0`, and `ilr`,
which receives the sign matrix. `np.random.normal` becomes an input stream `rng: nat -> real` plus
an offset. Each simulation pass returns the offset after the draws it consumed, so successive
groups and passes read disjoint draws.

Zero-sum groups are not excluded by a precondition. `Close` returns a `NonFinite` cell for a value
whose group sums to 0, which is where floating point would produce NaN or infinity, and `Null`
for a null value.

Where the code and its documentation differ, the model follows the code. `simulate` checks the
transformation name inside the per-group function (`simulation.py:39-42`, applied at `70-74`), so
`Simulation.Simulate` rejects an unknown name only for a dataset with at least one row.

## Model

| member | source | states |
|---|---|---|
| Simulation.UnknownTransformationMessageText | src/cmfapoc/simulation.py:39-41 | The error text is exactly `Parameter 'transformation' must be one of: ['alr', 'clr', 'ilr'].`, the Python list of the three names in insertion order |
| Simulation.ParseTransformation | src/cmfapoc/simulation.py:17-43 | A name is accepted iff it is one of "alr", "clr", "ilr"; an accepted name selects the transformation of that name; any other name fails with the message above |
| Simulation.DefaultTransformationAccepted | src/cmfapoc/simulation.py:50-53 | The default name "clr" is accepted and selects CLR |
| Simulation.SimulateMeasurement | src/cmfapoc/simulation.py:39-47 | An unknown name fails with the message before any transform or draw; a success never moves the noise stream backwards |
| Simulation.SimulateMeasurementNoise | src/cmfapoc/simulation.py:43-47 | With the forward map giving u, the draw is one deviation per coordinate: u[j] + rng(from + j) * error_sd; the result is the inverse of that, exactly when the inverse succeeds; the stream then advances by the coordinate count |
| Simulation.ZeroNoiseIsRoundTrip | src/cmfapoc/simulation.py:44-47 | When every scaled draw is zero (error_sd = 0, or a stream of zero draws) the result is finv(f(fraction)), and it fails exactly when that round trip fails |
| Simulation.Perturb | src/cmfapoc/simulation.py:45-46 | One value per coordinate; coordinate j moves by exactly rng(from + j) * error_sd |
| Simulation.GroupFractions | src/cmfapoc/simulation.py:70-73 | The fraction column a group function sees: the fractions of the group's member rows, in dataset order, containing every row with the key |
| Simulation.SimulateGroups | src/cmfapoc/simulation.py:70-74 | No groups give an empty result and no draws; with an unknown name and at least one group the stack fails with the name error; a success never moves the stream backwards |
| Simulation.Simulate | src/cmfapoc/simulation.py:50-74 | On a non-empty dataset an unknown name fails with the message; an empty dataset yields an empty result (see Left out); a success never moves the stream backwards |
| Simulation.SimulateWithDefaultsLength | src/cmfapoc/simulation.py:50-54 | `simulate` with its defaults (0.1, "clr") returns one value per row when the pair keeps the shape, and an empty result on an empty dataset |
| Simulation.SimulateGroupsLength | src/cmfapoc/simulation.py:70-74 | With length-preserving transforms, the stacked output has one value per row of the groups processed |
| Simulation.SimulateLength | src/cmfapoc/simulation.py:47-74 | With length-preserving transforms, a successful `simulate` returns exactly as many values as the dataset has rows |
| Simulation.SimulateGroupsGathers | src/cmfapoc/simulation.py:70-74 | With round trips that return the cells' values and no noise, the output is those values gathered group by group, each group's rows in dataset order, for any cell type |
| Simulation.SimulateAlignment | src/cmfapoc/simulation.py:70-74 | For any cell type, with round trips that return the cells' values and no noise, output position j holds the value of row RowOrder[j]; output equals input order when every group is contiguous, and some position is misaligned otherwise |
| GroupBy.FirstAppearance | src/cmfapoc/simulation.py:70-73 | The group keys are distinct and are exactly the keys occurring in the dataset |
| GroupBy.FirstAppearanceOrdered | src/cmfapoc/simulation.py:70-73 | Groups are listed in order of their first row (`maintain_order=True`) |
| GroupBy.FirstIndex | src/cmfapoc/simulation.py:70-73 | The first row of a key holds that key and no earlier row does |
| GroupBy.Members | src/cmfapoc/simulation.py:70-73 | A group's row indices are strictly increasing, each holds the key, and every row with the key is among them |
| GroupBy.RowOrderIsPermutation | src/cmfapoc/simulation.py:70-74 | `RowOrder`, the groups' row indices concatenated in first-appearance order, is a permutation of 0..n−1 |
| GroupBy.RowOrderIdentityIffContiguous | src/cmfapoc/simulation.py:70-74 | The concatenated order is the identity iff every key's rows are contiguous (both directions) |
| GroupBy.StackedBounded | src/cmfapoc/simulation.py:70-74 | Every index that `Stacked` lists for a sequence of groups is a row of the dataset |
| DataPreparation.Close | src/cmfapoc/data_preparation.py:26-53 | One cell per input row; cell i is value i divided by the sum of the non-null values sharing row i's key; null iff the value is null; non-finite iff the value is present and its group sums to 0 |
| DataPreparation.CloseSumsToOne | src/cmfapoc/data_preparation.py:53 | In a group with non-zero sum, the closed values sum to 1 |
| DataPreparation.CloseKeepsRatios | src/cmfapoc/data_preparation.py:53 | Within a group, c_i / c_j = a_i / a_j whenever a_j ≠ 0 |
| DataPreparation.CloseDocExample | src/cmfapoc/data_preparation.py:35-50 | [1, 2, 3] with keys [x, x, y] closes to [1/3, 2/3, 1] |
| DataPreparation.CloseIdempotent | src/cmfapoc/data_preparation.py:53 | Closing an already closed column, with no zero-sum group, returns it unchanged |
| DataPreparation.CloseSelect | src/cmfapoc/data_preparation.py:53 | When a filter keeps or drops each group's non-null values together, closing after filtering equals filtering after closing |
| DataPreparation.MatchAt | src/cmfapoc/data_preparation.py:74 | A match at p starts with "ID_" and captures a maximal non-empty digit run after it |
| DataPreparation.Search | src/cmfapoc/data_preparation.py:73-77 | The search finds a matching position and no earlier position matches (leftmost match) |
| DataPreparation.Extract | src/cmfapoc/data_preparation.py:73-77 | The extract is a non-empty digit string, and is null iff no position matches |
| DataPreparation.CastInt64 | src/cmfapoc/data_preparation.py:75 | Null stays null; a digit string casts to its value iff that fits in a signed 64-bit integer, and otherwise fails with the cast error |
| DataPreparation.SampleId | src/cmfapoc/data_preparation.py:73-75 | No match gives null; a match gives the number its digits spell iff it fits in 64 bits, else the cast error |
| DataPreparation.ReplicateId | src/cmfapoc/data_preparation.py:76-78 | The same for the `rep_` digits |
| DataPreparation.IsC12 | src/cmfapoc/data_preparation.py:84 | is_c12 is null iff sample_id is null, and otherwise holds iff sample_id = 0 |
| DataPreparation.SampleIdOf | src/cmfapoc/data_preparation.py:73-84 | For an id `…ID_<n>_…` with no earlier `I`, sample_id is n when n fits in 64 bits, and is_c12 holds iff n = 0; a larger n is a cast error |
| DataPreparation.SampleIdExtract | src/cmfapoc/data_preparation.py:73-74 | The sample extract of `…ID_<d>_…` is exactly the digit run d |
| DataPreparation.ReplicateExtract | src/cmfapoc/data_preparation.py:76-77 | The replicate extract of `…ID_<d>_rep_<e>…` is exactly the digit run e |
| DataPreparation.ReplicateIdOf | src/cmfapoc/data_preparation.py:73-78 | For `…ID_<n>_rep_<r>…`, replicate_id is r and sample_id is n when they fit in 64 bits; a larger r is a cast error |
| DataPreparation.NoIdTag | src/cmfapoc/data_preparation.py:73-84 | An id without "ID_" gives null sample_id, replicate_id and is_c12 |
| DataPreparation.NaturalIdMatch | src/cmfapoc/data_preparation.py:119-120 | A match of `(.*)_(m\d+)$` leaves room for "_m" and at least one digit at the end |
| DataPreparation.IsotopologueOf | src/cmfapoc/data_preparation.py:119 | The isotopologue is "m" followed by digits and is the suffix after the last matching "_" |
| DataPreparation.MetaboliteOf | src/cmfapoc/data_preparation.py:120 | The metabolite is present iff the isotopologue is, and never contains a newline |
| DataPreparation.NaturalIdRoundTrip | src/cmfapoc/data_preparation.py:119-120 | For a single-line id that matches, metabolite ++ "_" ++ isotopologue == id |
| DataPreparation.NaturalIdOf | src/cmfapoc/data_preparation.py:119-120 | `<met>_m<n>` splits into met and "m<n>", the metabolite being the longest prefix |
| DataPreparation.NaturalIdMatchOf | src/cmfapoc/data_preparation.py:119-120 | The digit-string form of the split above: the metabolite group is the whole of met |
| DataPreparation.NaturalIdExample | src/cmfapoc/data_preparation.py:119-120 | "ru5p_m0" splits into "ru5p" and "m0" |
| DataPreparation.DeriveColumns | src/cmfapoc/data_preparation.py:72-84 | The columns succeed iff every id's casts succeed; each row keeps its fields and gains sample_id, replicate_id, its closure over (measurement_id, species), and is_c12 |
| DataPreparation.AddColumn | src/cmfapoc/data_preparation.py:92 | Adding a column succeeds iff its length equals the table height; the new column is appended and the rows are untouched |
| DataPreparation.SimulationPasses | src/cmfapoc/data_preparation.py:86-92 | A success keeps the rows and the earlier columns, adds one column per name, and never moves the stream backwards |
| DataPreparation.PrepareSergiSpec | src/cmfapoc/data_preparation.py:72-93 | A failure of the id columns is the result; a success holds the derived rows, three simulated columns, and a stream position no earlier than the start |
| DataPreparation.PrepareSergi | src/cmfapoc/data_preparation.py:56-93 | The implementation equals the staged specification: derived columns, then the simulation passes |
| DataPreparation.SimulateAll | src/cmfapoc/data_preparation.py:86-92 | The loop over transformation names computes exactly the recursive specification of the passes |
| DataPreparation.PassStep | src/cmfapoc/data_preparation.py:86-92 | One more name either fails with simulate's or with_columns' error, or adds `sim_fraction_<name>` and advances the noise stream |
| DataPreparation.PassesErrorPersists | src/cmfapoc/data_preparation.py:86-92 | Once a pass fails, the later passes do not change the failure |
| DataPreparation.PassesColumns | src/cmfapoc/data_preparation.py:86-92 | A successful run adds one `sim_fraction_<name>` column per name, in order, each as long as the table |
| DataPreparation.SergiOutput | src/cmfapoc/data_preparation.py:72-93 | A success has one row per input row with the closed fraction, and columns sim_fraction_alr, _clr and _ilr, each with one value per row |
| DataPreparation.PassesAligned | src/cmfapoc/data_preparation.py:86-92 | With round trips that return the cells' values and a stream of zero draws, every pass succeeds and each added column holds row RowOrder[j]'s value at position j |
| DataPreparation.SergiAlignment | src/cmfapoc/data_preparation.py:72-93 | Under the same conditions a run fails only when deriving the columns fails; position j of each sim_fraction column holds the closed fraction of row RowOrder[j] of the (measurement_id, species) keys, which is row j's own when the groups are contiguous, while otherwise some position holds another row's |
| DataPreparation.SergiNamesAccepted | src/cmfapoc/data_preparation.py:86 | All three names the loop passes are accepted by the name check |
| DataPreparation.KeepNatural | src/cmfapoc/data_preparation.py:110-112 | A natural row is kept iff its id contains none of 6pgc, oaa, g3p |
| DataPreparation.PrepareNatural | src/cmfapoc/data_preparation.py:116-125 | The kept rows, each with its isotopologue and metabolite and its abundance closed over the metabolite |
| DataPreparation.NaturalExcludes | src/cmfapoc/data_preparation.py:110-117 | No excluded metabolite survives the filter |
| DataPreparation.Aggregate | src/cmfapoc/data_preparation.py:144-145 | One total per (sample, metabolite, isotopologue) key present, equal to the sum of its non-null heights |
| DataPreparation.AggregateOfNulls | src/cmfapoc/data_preparation.py:138-145 | A key whose heights all failed the cast aggregates to 0, not to null |
| DataPreparation.GroupSumOfNulls | src/cmfapoc/data_preparation.py:144-145 | A group of nulls sums to 0 |
| DataPreparation.PrepareDaria | src/cmfapoc/data_preparation.py:152-161 | One output row per row of the right table, in its order, with its fields, the joined measurement, and that measurement closed over (sample, metabolite) |
| DataPreparation.DariaNulls | src/cmfapoc/data_preparation.py:152-161 | A row's measurement is null iff its key has no aggregated total; measured_fraction is null iff measurement is; otherwise measurement is the key's total |
| DataPreparation.DariaSumsToOne | src/cmfapoc/data_preparation.py:156-161 | In a (sample, metabolite) group with non-zero total, the non-null measured fractions sum to 1 |
| Calibration.NoZerosKeep | scripts/calibration.py:147-150 | A row is kept iff its measurement is non-null, its metabolite is not "akg", and its (sample, metabolite) group has more than one non-null measurement |
| Calibration.NoZeros | scripts/calibration.py:145-155 | The kept rows, with natural and measured fractions re-closed over (sample, metabolite) among the kept rows |
| Calibration.NoZerosMeasured | scripts/calibration.py:147-150 | Every row left by the filter has a measurement |
| Calibration.NoZerosKeepsWholeGroups | scripts/calibration.py:147-150 | The filter keeps or drops every non-null measurement of a group together |
| Calibration.NoZerosMeasuredUnchanged | scripts/calibration.py:145-155 | A kept row's new measured fraction equals its closure in the unfiltered table |
| Calibration.UndetectedExampleKeep | scripts/calibration.py:147-150 | For a group with one undetected isotopologue, exactly the two measured rows are kept |
| Calibration.UndetectedExampleKept | scripts/calibration.py:147-150 | In that example the filtered table is the first two rows |
| Calibration.NoZerosRenormalisesNatural | scripts/calibration.py:152 | In that example, natural fractions 0.4, 0.4 and 0.2 close to 0.4 in the full group, and the two kept rows re-close to 0.5 each |
| Calibration.NoZerosGroupsHaveTwoRows | scripts/calibration.py:145-155 | Every group left by the filter has at least two rows, so the ILR basis of its size exists |
| Calibration.SequentialPartition | scripts/calibration.py:310-312 | Row i of the sign matrix splits exactly the parts row i−1 marked +1, and only part i−1 is −1 in row i−1 |
| Calibration.IlrLabels | scripts/calibration.py:309 | There are size−1 labels |
| Calibration.SignRows | scripts/calibration.py:308-312 | size−1 rows of size entries: −1 at the diagonal, +1 after it, 0 before it |
| Calibration.BasisAndLabels | scripts/calibration.py:305-313 | Fails with "size must be greater than 1" iff size < 2; otherwise size−1 sign rows and size−1 labels |
| Calibration.SignMatrixAndLabels | scripts/calibration.py:305-313 | Fails iff size < 2; otherwise a fresh (size−1)×size array with −1 on the diagonal, +1 to its right and 0 to its left, and labels `m{i+1}+:m{i}`, agreeing with BasisAndLabels |
| Calibration.IsotopologueOrderIsTextual | scripts/calibration.py:188 | Isotopologues sort as strings: "m10" comes before "m2" |
| Calibration.SortByIsotopologue | scripts/calibration.py:188 | The sorted group is a permutation of the group, ordered by isotopologue with nulls first |
| Calibration.ClrLabels | scripts/calibration.py:193 | There are n CLR labels |
| Calibration.ClrLabelsDistinct | scripts/calibration.py:193 | The CLR labels `m{i}:gmean` are pairwise distinct |
| Calibration.AlrLabels | scripts/calibration.py:257 | There are n−1 ALR labels |
| Calibration.AlrLabelsDistinct | scripts/calibration.py:257 | The ALR labels `m{i+1}:m0` are pairwise distinct |
| Calibration.IlrLabelsDistinct | scripts/calibration.py:309 | The ILR labels `m{i+1}+:m{i}` are pairwise distinct |
| Calibration.ReverseCumSum | scripts/calibration.py:321 | Entry i is the sum of the non-null measurements from i to the end, and null where measurement i is null |
| Calibration.IlrTotals | scripts/calibration.py:321 | There are n−1 ILR totals |
| Calibration.IlrTotalIsPartitionTotal | scripts/calibration.py:321 | ILR total i is the sum of the measurements that sign row i touches, that is parts i..n−1, and null where measurement i is null |
| Calibration.AlrTotals | scripts/calibration.py:256 | There are n−1 ALR totals; total i is m_0 + m_{i+1}, null iff either is null (see Left out) |
| Calibration.Residual | scripts/calibration.py:196 | m − nf succeeds iff the lengths agree or one side has length 1, with numpy's broadcast error otherwise |
| Calibration.ResidualZeroIff | scripts/calibration.py:196 | A residual entry is 0 iff m and nf agree there, and the residual is all zeros iff m = nf |
| Calibration.RatioFrame | scripts/calibration.py:197-207 | The frame builds iff all columns have one length, one row per ratio with the group's metabolite and sample; a length mismatch is the DataFrame shape error |
| Calibration.FuncClr | scripts/calibration.py:187-207 | An empty group raises the row(0) index error; any other failure is the broadcast or DataFrame shape error; a success has one row per isotopologue, row i labelled `m{i}:gmean`, with the group's metabolite and sample, the i-th clr coordinates of the sorted measurements and natural fractions, resid = m − nf, and the sorted measurement i as total |
| Calibration.FuncAlr | scripts/calibration.py:251-271 | The same for ALR: n−1 rows, row i labelled `m{i+1}:m0`, with the alr coordinates, resid = m − nf, and total m_0 + m_{i+1} |
| Calibration.FuncIlr | scripts/calibration.py:316-336 | An empty group raises the index error and a one-row group "size must be greater than 1"; a success has n−1 rows, row i labelled `m{i+1}+:m{i}`, with the ilr coordinates over the sign matrix, resid = m − nf, and ILR total i |
| Calibration.FuncClrShape | scripts/calibration.py:187-207 | A non-empty group yields n rows, row i labelled `m{i}:gmean` with the sorted raw measurement as total and resid = m − nf |
| Calibration.FuncAlrShape | scripts/calibration.py:251-271 | A non-empty group yields n−1 rows, row i labelled `m{i+1}:m0` with total m_0 + m_{i+1} and resid = m − nf |
| Calibration.FuncIlrShape | scripts/calibration.py:316-336 | A group of n ≥ 2 rows yields n−1 rows, row i labelled `m{i+1}+:m{i}` with the reverse cumulative total of i and resid = m − nf |
| Calibration.MapGroupsFrom | scripts/calibration.py:211-215 | Stacking succeeds iff the view succeeds on every group; a failure is the error of the first failing group |
| Calibration.FirstFailureShift | scripts/calibration.py:211-215 | When group 0 succeeds, the first failure among the later groups is the first failure overall |
| Calibration.MapGroups | scripts/calibration.py:211-215 | `map_groups` succeeds iff the view succeeds on the group of every row |
| Calibration.MapGroupsFromLength | scripts/calibration.py:211-215 | Stacking the views of the groups gives n rows per CLR group and n−1 per ALR/ILR group |
| Calibration.ClrAlrViewLength | scripts/calibration.py:273-277 | The CLR view has one row per table row; the ALR view has one fewer per group |
| Calibration.IlrViewOfNoZeros | scripts/calibration.py:338-342 | After the filter, the ILR view never raises the size error and has one row fewer per group than the table |
| FitFluxomics.MetOf | scripts/fit_fluxomics.py:22-24 | `met` is the id with its last three characters removed (empty for shorter ids) |
| FitFluxomics.MetOfIsotopologueId | scripts/fit_fluxomics.py:22-24 | For `<met>_m<d>` with one digit, `met` is the metabolite |
| FitFluxomics.MetOfTwoDigitIsotopologue | scripts/fit_fluxomics.py:22-24 | A two-digit isotopologue leaves a trailing "_" in `met` |
| FitFluxomics.SecondDigitPlusOne | scripts/fit_fluxomics.py:25-27 | Index 1 of the field plus 1, in 1..10; too short is an index error, a non-digit at index 1 a cast error |
| FitFluxomics.LastField | scripts/fit_fluxomics.py:25-27 | `split(sep)[-1]` holds no separator and is no longer than the string |
| FitFluxomics.LastFieldIsSuffix | scripts/fit_fluxomics.py:25-27 | The last field is the longest suffix without the separator: it ends the string and is preceded by the separator unless it is the whole string |
| FitFluxomics.FirstField | scripts/fit_fluxomics.py:47-49 | `split(sep)[0]` holds no separator and is no longer than the string |
| FitFluxomics.FirstFieldIsPrefix | scripts/fit_fluxomics.py:47-49 | The first field is the longest prefix without the separator: it starts the string and is followed by the separator unless it is the whole string |
| FitFluxomics.ParentGroup | scripts/fit_fluxomics.py:25-27 | parent_group is index 1 of the last "_" field plus one; a too short field is the index error, a non-digit the cast error |
| FitFluxomics.MeasurementParentGroup | scripts/fit_fluxomics.py:47-49 | The same on the part before the first "-" of the last "_" field |
| FitFluxomics.ParentGroupOfId | scripts/fit_fluxomics.py:25-27 | `<met>_m<n>` with one digit gives parent_group n+1 |
| FitFluxomics.ParentGroupReadsOneDigit | scripts/fit_fluxomics.py:25-27 | "x_m12" gives 2: only one digit is read |
| FitFluxomics.MeasurementParentGroupOf | scripts/fit_fluxomics.py:47-49 | `<met>_m<n>-<rest>` with one digit gives parent_group n+1 |
| FitFluxomics.SampleFieldsOf | scripts/fit_fluxomics.py:38-46 | Succeeds iff the name has at least three "_" fields; split, injection and sample are fields −2, −1 and 2; otherwise an index error |
| FitFluxomics.SampleFieldsOfJoin | scripts/fit_fluxomics.py:38-46 | For a name joined from "_"-free fields, split, injection and sample are exactly those fields |
| FitFluxomics.SampleIdExample | scripts/fit_fluxomics.py:38-53 | "HEK_Wt_QC1_1x_split2_inj1" gives split2, inj1 and QC1, and sample_id "split2inj1QC1" |
| FitFluxomics.SampleIdAmbiguous | scripts/fit_fluxomics.py:51-53 | Concatenating without a separator can merge different field triples |
| FitFluxomics.SampleIdInjective | scripts/fit_fluxomics.py:51-53 | `SampleId` is the three fields concatenated. For fields of the form split<digits>, inj<digits>, and a sample starting with a non-digit, equal sample_ids mean equal fields |
| FitFluxomics.MetSampleInjective | scripts/fit_fluxomics.py:63-68 | `MetSample`, the met_sample string `<met_group>-<sample_group>`, determines both numbers |
| FitFluxomics.MetSamples | scripts/fit_fluxomics.py:63-68 | The met_sample column has one string per joined row, built from that row's met_group and sample_group |
| FitFluxomics.FromPercent | scripts/fit_fluxomics.py:32 | The rescaled value times 100 is the percentage |
| FitFluxomics.DenseIndex | scripts/fit_fluxomics.py:29 | Every enumerated key is mapped, only those are, and key k maps to a position 1..n holding k |
| FitFluxomics.DenseIndexBijective | scripts/fit_fluxomics.py:29 | For distinct keys, the i-th key maps to i+1, and the map has n entries |
| FitFluxomics.DenseIndexInjective | scripts/fit_fluxomics.py:29 | Different keys never share a number |
| FitFluxomics.DenseIndexSize | scripts/fit_fluxomics.py:74-78 | The map of n distinct keys has n entries (N_mets, N_samples, N_met_samples) |
| FitFluxomics.ReplaceStrict | scripts/fit_fluxomics.py:31 | Succeeds iff every value is a key of the mapping, replacing each; otherwise polars' incomplete-mapping error |
| FitFluxomics.DenseCodes | scripts/fit_fluxomics.py:29-31 | With an enumeration of the column's distinct keys, replace_strict succeeds, codes lie in 1..n, and two rows share a code iff they share a key |
| FitFluxomics.ParentGroups | scripts/fit_fluxomics.py:25-27 | The parent_group column succeeds iff every id has a parent group, holding each row's parent group |
| FitFluxomics.MetGroups | scripts/fit_fluxomics.py:29-31 | The met_group column succeeds iff every row's met is a key of the map, holding the mapped value |
| FitFluxomics.PrepareTheoretical | scripts/fit_fluxomics.py:21-33 | Succeeds iff every parent_group parses and every met is mapped; each row gets met, parent_group, met_group and Theoretical/100; met_group is the dense map |
| FitFluxomics.TheoreticalPrepared | scripts/fit_fluxomics.py:21-33 | With parseable ids, the theoretical table succeeds with met_group in 1..N_mets, and equal met_groups iff equal mets |
| FitFluxomics.TheoreticalNeedsParentGroups | scripts/fit_fluxomics.py:25-27 | One unparseable parent_group fails the table |
| FitFluxomics.ParseSampleRow | scripts/fit_fluxomics.py:38-53 | A measurement row parses iff its Sample Name has the fields and its Component Name a parent group, giving sample_id and parent_group |
| FitFluxomics.PrepareSamples | scripts/fit_fluxomics.py:34-59 | A success has one row per measurement row and returns the sample_group map built from the sample_id enumeration |
| FitFluxomics.PrepareSamplesOkIff | scripts/fit_fluxomics.py:34-59 | The measurement table succeeds iff every row parses, every Component Group Name has a met_group, and every sample_id has a sample_group |
| FitFluxomics.PrepareSamplesRows | scripts/fit_fluxomics.py:56-59 | Each successful row holds its Height, parent_group, met_group and sample_group |
| FitFluxomics.SamplesNeedTheoreticalGroups | scripts/fit_fluxomics.py:57 | A measured metabolite missing from the theoretical table fails with the incomplete-mapping error |
| FitFluxomics.SamplesPrepared | scripts/fit_fluxomics.py:55-59 | With an enumeration of the distinct sample_ids, the table succeeds with sample_group in 1..N_samples, and equal groups iff equal sample_ids |
| FitFluxomics.MetSampleCodes | scripts/fit_fluxomics.py:63-73 | met_sample_ix is in 1..N_met_samples, and two rows share it iff they share met_group and sample_group |
| Wrappers.MapAll | src/cmfapoc/data_preparation.py:73-78 | Applying a failing function to a column succeeds iff it succeeds on every element, with the values in order; a failure is the error of the first element that fails |
| Strings.NatToString | scripts/calibration.py:309 | Integer formatting gives non-empty digits without a leading zero, and reads back as the same number |
| Strings.Split | scripts/fit_fluxomics.py:39 | `str.split` gives at least one field, none containing the separator, which joined back give the string |
| Strings.JoinEnds | scripts/fit_fluxomics.py:25-27 | A join starts with its first field and ends with its last, each cut off by the separator when there are more fields |
| Strings.SplitJoin | scripts/fit_fluxomics.py:38-46 | Splitting a join of separator-free fields gives the fields back |
| Strings.PyAt | scripts/fit_fluxomics.py:39-42 | Python indexing: defined iff −n ≤ i < n, negative indices counting from the end |
| Strings.DropLast | scripts/fit_fluxomics.py:23 | `x[:-k]` is the string minus its last k characters, and empty when it is shorter |

## Left out

- The scikit-bio transformations and `sbp_basis` are abstract parameters. No round-trip or isometry property is claimed for them. `Calibration.RespectsShapes` assumes only their output lengths, on top of the totality that `Calibration.LogRatio` gives them by type.
- Calibration.LogRatio: `clr`, `alr` and `ilr` are modelled as total functions, so scikit-bio's own failures are not modelled. A zero part can reach them: the filter at `calibration.py:146-149` drops null measurements but keeps zeros, such as the 0 an all-null key aggregates to (`DataPreparation.AggregateOfNulls`). The calls are at lines 194-195, 258-259 and 323-324. The success of `IlrViewOfNoZeros` and `ClrAlrViewLength`, and the closed error lists of `FuncClr`, `FuncAlr` and `FuncIlr`, hold only under that modelling.
- Simulation.SimulateAlignment, DataPreparation.SergiAlignment: the alignment is stated for a noiseless run with round trips that return the cells' values. With noise, position j still comes from row RowOrder[j]'s group, but the model does not state it.
- `np.random.normal` is the input stream `rng`. Its distribution is not modelled.
- Floating point is not modelled. Values are exact reals, and NaN or infinity appears only as the `NonFinite` cell of a zero-sum group.
- CSV reading and writing, both `main` functions, the `__main__` block, the Stan fits, ArviZ and matplotlib plots, and the marimo markdown cells are not modelled.
- The steps of `prepare_data_sergi` before the id columns are not modelled: the rename, the `meta_value` filter and the unpivot (`data_preparation.py:58-71`). `SergiRow` is the unpivoted row.
- Several inputs of `prepare_data_daria` are taken as given rather than computed:
  - `MstRow` is a measurement row after the `_1x_` and metabolite filter, the rename, the strict=False height cast and the `(m\d)` extraction (`data_preparation.py:113-143`).
  - The `pl.concat` of the two raw tables is not modelled.
  - The `split`, `injection` and `qc_number` columns are not modelled. The aggregation drops them.
- The inner join that builds `natural_with_samples` (`data_preparation.py:147-151`) is not modelled. Its rows are an input of `DataPreparation.PrepareDaria`.
- General join semantics are not modelled. The right join is modelled by its consequence: one row per right-table row, in right-table order, with a null measurement when the key has no total.
- The `fit_fluxomics.py` aggregation by (parent_group, met_group, sample_group) and its inner join with the theoretical table (lines 61-62) are not modelled. `FitFluxomics.MetSampleCodes` takes the joined (met_group, sample_group) pairs as input.
- The `fit_fluxomics.py` filters are not modelled: `_1x_` and the excluded metabolites (lines 18-20), and `drop_nans` on Height (line 54). The Height cast is not modelled either: heights are already numbers.
- The order of `unique()` is unspecified by polars. The index maps accept any enumeration of the distinct keys (`FitFluxomics.EnumeratesUnique`).
- Calibration.SortByIsotopologue: the result is stated as sorted and a permutation, but not as stable. Polars' sort is not stable by default either.
- `\d` is modelled as the ASCII digits 0-9. Python and Rust regexes also accept other Unicode decimal digits.
- Errors raised by polars, numpy and Python carry abridged messages, such as the cast and index errors. When several columns fail at once, the order in which they are checked is the model's own.
- Simulation.Simulate: the model returns an empty result for an empty dataset, whatever the name. This assumes that `map_groups` over zero groups gives a frame with an empty `sim_fraction` column, so that the lookup at `simulation.py:74` succeeds. The name is only checked inside the per-group function.
- FitFluxomics.MetOf, FitFluxomics.ParentGroupOfId, FitFluxomics.MeasurementParentGroupOf: the clean statements assume a single-digit isotopologue. Two-digit ones behave as the code does, which `MetOfTwoDigitIsotopologue` and `ParentGroupReadsOneDigit` show.
- FitFluxomics.PrepareSamples: its own contract states only the table's shape. The row contents and the success condition are in `PrepareSamplesRows` and `PrepareSamplesOkIff`.
- Calibration.IlrTotals: its own contract states only the length. The values are stated by `IlrTotalIsPartitionTotal`.
- Calibration.AlrTotals: a null first measurement gives null totals, where Python's `None + Series` would raise. The group functions only see rows that passed the filter, and `NoZerosMeasured` shows those are never null.
- DataPreparation.AddColumn: polars broadcasts a length-1 column in `with_columns` (`data_preparation.py:92`); the model demands the table's height and returns an error otherwise.
