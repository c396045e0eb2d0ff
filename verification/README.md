# MRIO direct / domestic / foreign decomposition — a Dafny model

This project models the core of a Multi-Regional Input-Output (MRIO) analysis tool. The tool takes a
stressor-intensity matrix S and a Leontief inverse L. S has stressor names as rows and producers as
columns. L has producers on both axes. A producer is a `(region, sector)` pair. For one stressor and one
target producer `j`, the tool computes the contribution column `r_col[i] = S[stressor, i] * L[i, j]`. It
then splits the column into three parts: the target's direct intensity, a domestic indirect part and a
foreign indirect part. Two policies for the domestic part are supported, `minus_direct` and
`exclude_diagonal`. The model also covers the structural checks the loader applies to parsed tables, and
the catalog of stressors, regions and sectors.

Values are `real`. A missing (NaN) table value is a row/column pair with no entry in the table's cell map.

Modules:

- `Tables` (tables.dfy): the `Key` producer label and the labelled `Table` shared by S and L.
- `Computations` (computations.dfy): the engine. `Decompose` checks the inputs in the source's order.
  `Evaluate` is the partition stage that runs once the checks pass.
- `DecompositionLaws` (decomposition_laws.dfy): the identities relating the two policies to the
  contribution column, and the ordering of the alignment report.
- `Scenario` (scenario.dfy): the worked US/CN construction example, evaluated under both policies and
  under an unknown policy name.
- `DataLoader` (data_loader.py's checks, data_loader.dfy): the checks on L's squareness, S's reindexing
  onto L's columns, and the catalog.
- `LoaderContract` (loader_contract.dfy): how a loaded pair meets what the engine relies on.
- `Seqs`, `StringOrder`, `Wrappers`: order-preserving selection, sums, Python's string ordering and
  sorting, and the `Result` type used for the source's exceptions.

Behaviours of the code worth knowing, each modelled as the code does it:

- The engine has a fifth failure, `TargetNotProducer`. If the target is a column of L but not a row,
  the lookup of the target's own intensity (src/computations.py:40) raises a `KeyError`. The loader's
  squareness check rules this case out, and `LoaderContract.LoadedPairFitsEngine` proves that.
- The loader checks S for missing values only when it reindexes S, that is, when S's columns differ
  from L's (src/data_loader.py:26-30). When the columns already match, missing values pass loading
  and are caught later by the engine's alignment check. `MatchingColumnsSkipMissingCheck` exhibits
  such a case.
- The alignment error lists at most ten missing producers (`[:10]`, src/computations.py:30): the
  first ten in L's row order.

## Model

| member | source | states |
|---|---|---|
| Computations.Decompose | src/computations.py:7-40 | The policy defaults to `minus_direct`. An unknown stressor fails with UnknownStressor. Otherwise, a target missing from L's columns fails with UnknownTarget. Otherwise, a producer of L's rows with no intensity fails with AlignmentGap. That report is non-empty, holds at most 10 keys, and every key is a producer of L with no intensity. Otherwise, a target missing from L's rows fails with TargetNotProducer. Each failure happens exactly when its condition holds. Only a call passing every check reaches the policy stage. |
| Computations.Evaluate | src/computations.py:33-67 | Fails with InvalidPolicy exactly when the name is neither `minus_direct` nor `exclude_diagonal`. A result echoes the stressor, the target and the policy name. Its contribution column is defined on exactly L's rows, with `S[stressor, i] * L[i, j]` at each row. `direct` is the raw `S[stressor, j]`, not scaled by `L[j, j]`. `total` is direct plus the two indirect parts. |
| Computations.Missing | src/computations.py:27-30 | Lists exactly the producers of the index with no intensity for the stressor. It is empty iff the row aligns. |
| Computations.Contribution | src/computations.py:33-37 | The contribution column is defined on exactly L's row index. Only L's target column is read. |
| Computations.Domestic | src/computations.py:42-45 | A producer is counted domestic iff it is in the index and its region equals the target region. |
| Computations.Foreign | src/computations.py:42-46 | A producer is counted foreign iff it is in the index and its region differs from the target region. |
| Computations.OtherDomestic | src/computations.py:50-51 | The reference set for `exclude_diagonal`: the producers in the target's region other than the target itself. |
| DecompositionLaws.PartitionComplete | src/computations.py:42-46 | The domestic total plus the foreign total equals the sum of the whole column, for any column. |
| DecompositionLaws.MinusDirectIsAdditive | src/computations.py:48-49 | Under `minus_direct`, `total` equals the sum of the contribution column. |
| DecompositionLaws.ExcludeDiagonalTotal | src/computations.py:50-56 | Under `exclude_diagonal`, `total == sum(r_col) + direct - r_col[j]`. |
| DecompositionLaws.ExcludeDiagonalIsOtherDomestic | src/computations.py:50-51 | Under `exclude_diagonal`, the domestic indirect part is the sum over the domestic producers other than the target. |
| DecompositionLaws.MinusDirectKeepsSelfFeedback | src/computations.py:48-49 | Under `minus_direct`, the domestic indirect part is the sum over the other domestic producers plus the target's self-feedback `r_col[j] - s[j]`. |
| DecompositionLaws.SelfFeedbackTerm | src/computations.py:37-40 | `r_col[j] == s[j] * L[j, j]`, so the self-feedback `r_col[j] - s[j]` equals `s[j] * (L[j, j] - 1)`. |
| DecompositionLaws.PolicyOnlyChangesDomesticIndirect | src/computations.py:48-55 | The two policies give the same contribution column, direct part and foreign part. Their domestic indirect parts differ by exactly `r_col[j] - s[j]`. |
| DecompositionLaws.PoliciesAgreeOnUnitDiagonal | src/computations.py:48-51 | When `L[j, j] == 1`, `exclude_diagonal` returns the `minus_direct` result with only the policy name changed. |
| DecompositionLaws.ExcludeDiagonalNotAdditive | src/computations.py:50-56 | When `L[j, j] != 1` and `s[j] != 0`, the `exclude_diagonal` total differs from the column sum, by exactly `s[j] - r_col[j]`. |
| DecompositionLaws.GapReportsEarliest | src/computations.py:29-31 | The alignment report names each producer at most once. Any two of its producers appear in the same order as in L's rows. If it names a producer, it also names every missing producer that precedes it in L's rows. |
| DecompositionLaws.GapReportSize | src/computations.py:29-31 | The report's length is the number of missing producers, capped at 10. With at most 10 missing, every missing producer is named. Together with GapReportsEarliest and Decompose's contract, the report is exactly the first `min(10, #missing)` missing producers in L's row order. |
| DecompositionLaws.DefaultPolicyIsMinusDirect | src/computations.py:13 | A call without a policy name equals the call with `minus_direct`, and a successful result records `minus_direct`. |
| Scenario.GapOrderExample | src/computations.py:28-31 | With no CO2 intensity at US or CN construction, the default-policy call reports `[US, CN]`, in L's row order. |
| Scenario.MinusDirectExample | src/computations.py:36-56 | For the US/CN example, `minus_direct` gives r_col {US: 6.0, CN: 0.6}, direct 5.0, domestic indirect 1.0, foreign indirect 0.6 and total 6.6. |
| Scenario.ExcludeDiagonalExample | src/computations.py:50-56 | For the same example, `exclude_diagonal` gives domestic indirect 0.0 and total 5.6, not the column sum 6.6. |
| Scenario.BogusPolicyExample | src/computations.py:52-53 | The policy name "bogus" yields InvalidPolicy and no numbers. |
| DataLoader.LoadSL | src/data_loader.py:23-32 | Fails with NotSquare iff L's row and column labels differ in content or order. Fails with MissingAfterAlignment iff L is square, S's columns differ from L's, and S lacks some value on L's columns. A success returns L unchanged and S with the same rows and with L's columns. S's values are kept unchanged, and each value at a kept column survives. After a reindex, S has no missing value. Matching columns return S as given. |
| DataLoader.ReindexColumns | src/data_loader.py:26-28 | Reindexing keeps S's rows and takes exactly the given columns in their order. A value survives iff its column is kept, and values do not change. The result is complete iff S covers every kept column. |
| DataLoader.BuildCatalog | src/data_loader.py:35-47 | Stressors, regions and sectors are each strictly sorted and duplicate-free. The stressors are exactly S's row labels. The regions (sectors) are exactly the region (sector) components of S's column labels. |
| DataLoader.RegionsOf | src/data_loader.py:40 | A string is listed iff it is the region of some column label. |
| DataLoader.SectorsOf | src/data_loader.py:41 | A string is listed iff it is the sector of some column label. |
| StringOrder.SortUnique | src/data_loader.py:39-45 | `unique()` followed by `sort()` yields a strictly ascending list, in Python's code-point order, with exactly the input's values. |
| LoaderContract.LoadedPairFitsEngine | src/data_loader.py:23-32 | Given an L whose target column has no missing value, a loaded pair satisfies the engine's precondition. The loader itself never reads L's values. TargetNotProducer never occurs on a loaded pair. For a known stressor, UnknownTarget occurs iff the target is not a column of S. |
| LoaderContract.ReindexedPairHasNoGap | src/data_loader.py:26-30 | When the loader had to reindex S, the engine never reports an alignment gap for a known stressor. |
| LoaderContract.MatchingColumnsSkipMissingCheck | src/data_loader.py:26-30 | When S's columns already equal L's, a missing value passes loading and the engine then reports it as an alignment gap. |

## Left out

- CSV parsing and MultiIndex naming (src/data_loader.py:15-21) are file I/O. The checks start from parsed tables.
- Floating-point behaviour is not modelled: rounding, `float(...)` casts and NaN arithmetic. Values are reals, and a missing value is an absent cell.
- Computations.Decompose: requires no missing value in L's column for the target (`L.ColumnComplete`). The engine reads only that column (src/computations.py:34) and never checks it for NaN. pandas' `sum()` skips NaN. So a NaN at `L[i, j]` with `i != j` silently drops producer `i`'s term from the domestic or foreign total (src/computations.py:45-46). A NaN at `L[j, j]` drops the target's term from the domestic total; under `exclude_diagonal` it also makes `domestic_indirect` and `total` NaN (src/computations.py:51). The model has no NaN values, so this behaviour is not modelled.
- Computations.Decompose: requires unique row and column labels on S and L (`Valid()`). A table keyed by labels cannot hold duplicate labels with different values. With duplicates, pandas' `.loc` and `reindex` change behaviour; that is not modelled.
- DataLoader.LoadSL: requires the same label uniqueness, for the same reason.
- Computations.Evaluate: `r_column` is a map over L's rows. The pandas Series order is not carried; sums are taken in L's row order.
- Error messages are modelled by their payload (stressor, key, missing keys), not their text. `InvalidPolicy` also carries the rejected policy name; that payload is an addition of the model, since the source's message (src/computations.py:53) names only the two accepted values.
- `build_catalog` leaves S unchanged. That holds by construction, since every operation here is a pure function on immutable values. No member states it.
- The `astype(str)` conversions in `build_catalog` are not modelled: labels are already strings here.
- streamlit_app.py, src/ui_components.py and src/visualization.py (page layout, caching, charts, number formatting) are presentation, not part of this model.
