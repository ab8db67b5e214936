# csvjoin join-and-fill engine, modelled in Dafny

csvjoin adds value columns to a "target" table. It copies them from a "map"
table by joining on a shared id column. A run is an ordered list of column
sets. Each column set names:

- a source id column on the target;
- an ordered list of map pairs, each a map id column and a map value column;
- a target value column;
- an optional list of transformer names.

For each column set, in list order, the engine works on the table the
previous set produced. It first resets the target value column to all
missing. It then left-joins the map through each pair in declared order and
fills only the cells that are still missing. Last, it runs the listed
transformers over the column. The one registered transformer is
`flip_names`, which turns "Last, First" into "First Last". An unknown
transformer name stops the program with exit status 2.

The model works on in-memory values:

- A table (`Tables.Table`) is a header of column names plus a sequence of
  rows. Each row maps every column name to an `Option<string>` cell, where
  `None` is pandas' missing value.
- A failure is a `Result` error (`Failures.Error`): `MissingColumn` for
  pandas' `KeyError`, and `UnknownTransformer` for the message and
  `sys.exit(2)` of csvjoin.py:72-74.
- The three loops of the source are methods with loops:
  `Join.Generate` (column sets), `Join.ApplyColumnSet` (map pairs) and
  `Transformers.Transform` (transformer names). Each is proved equal to a
  specification function: `Join.Generated`, `Join.ColumnSetApplied` and
  `Transformers.Transformed`. The lemmas in `JoinProperties`,
  `Transformers` and `MapReading` state what the source promises about
  those functions.

Modelling choices:

- The lookup keys of a column set are the source id cells as they were
  before the target column is reset. The source sets the index at line 36,
  before the reset at line 41. This matters when the target column is also
  the source id column.
- Keys are compared as cells, so a missing key matches a map row whose id
  is missing. pandas' join also matches missing keys to each other.
- A lookup returns the value cell of the first map row whose id equals the
  key. The methods require map id values to be unique (`Join.Admissible`).
  With unique ids, "first" is "the", as `JoinProperties.LookupFindsMatchingRow`
  states.
- The join's temporary uuid column is an anonymous sequence, `Join.LeftJoin`,
  that is never added to the table. So it cannot leak.
- Cells the transformers reach that are missing stay missing. See
  "## Findings": the code as written fails on them.
- A lookup uses one key column per column set, the source id column, as
  `set_index` at csvjoin.py:36 and the pairs at line 45 do.
- The target column is reset before the lookups (line 41), so any value it
  held before the column set is dropped, not kept.
- `map_columns` is a dict, so it is modelled as a sequence of pairs in
  declared order. The model accepts any such sequence, and a dict is the
  special case with distinct id columns.

## Model

| member | source | states |
|---|---|---|
| Tables.SetColumn | csvjoin/csvjoin.py:41 | Column assignment. An existing target column is overwritten where it stands, and a new one is appended at the end of the header. Every row gets the given cell in that column. Every other cell is unchanged, and the table stays well formed. |
| StringOps.JoinSplit | csvjoin/csvjoin.py:10 | Joining the pieces of `s.split(sep)` with `sep` gives back `s`. |
| StringOps.SplitPiecesAreFree | csvjoin/csvjoin.py:10 | No piece produced by `split` contains the separator. |
| StringOps.Reverse | csvjoin/csvjoin.py:10 | `[::-1]` keeps the length and puts element `i` at position `n-1-i`. |
| StringOps.SplitCommaPair | csvjoin/csvjoin.py:10 | `"a, b".split(", ")` is `[a, b]` when neither part contains ", ". |
| StringOps.SplitAfterFirst | csvjoin/csvjoin.py:10 | `"a, rest".split(", ")` is `a` followed by the split of `rest` when `a` contains no ", ". |
| StringOps.SplitJoin | csvjoin/csvjoin.py:10 | Splitting on ", " undoes joining with ", " for any nonempty list of ", "-free pieces. So the split is the only cut of a string into such pieces. |
| StringOps.Split | csvjoin/csvjoin.py:10 | Python's `str.split` with a separator always gives at least one piece. `StringOps.JoinSplit`, `SplitPiecesAreFree` and `SplitJoin` characterise it. |
| StringOps.Join | csvjoin/csvjoin.py:10 | Python's `str.join`. `StringOps.JoinSplit` and `SplitJoin` state its relation to `Split`. |
| Transformers.FlipNameWithoutSeparator | csvjoin/csvjoin.py:9-10 | `flip_names` returns a string with no ", " unchanged. |
| Transformers.FlipNameSwaps | csvjoin/csvjoin.py:9-10 | `flip_names("Last, First")` is `"First Last"` when neither name contains ", ". |
| Transformers.FlipNamePieces | csvjoin/csvjoin.py:9-10 | The split pieces of the input are ", "-free and their ", "-join is the input, and `flip_names` space-joins them in reverse order. `StringOps.SplitJoin` shows these pieces are the only such decomposition. |
| Transformers.FlipNameReversesPieces | csvjoin/csvjoin.py:9-10 | For any nonempty list of ", "-free pieces, `flip_names` of their ", "-join is their space-join in reverse order. |
| Transformers.FlipName | csvjoin/csvjoin.py:10 | The `flip_names` lambda. Its meaning is stated by `Transformers.FlipNameWithoutSeparator`, `FlipNameSwaps`, `FlipNamePieces` and `FlipNameReversesPieces`. |
| Transformers.Resolve | csvjoin/csvjoin.py:8-11 | The registry lookup. Its meaning is stated by `Transformers.ResolveAll`, `TransformedMeaning` and `JoinProperties.GeneratedOnlyKnownTransformers`. |
| Transformers.ApplyToColumn | csvjoin/csvjoin.py:71 | `Series.apply` of one transformer keeps the column's length. `Transformers.TransformedInListOrder` states what it does to each cell. |
| Transformers.Transformed | csvjoin/csvjoin.py:68-75 | The corrected pipeline. Its meaning is stated by `Transformers.TransformedMeaning`, `TransformedNoNames` and `TransformedInListOrder`, and `Transformers.Transform` is proved equal to it. |
| Transformers.TransformedAsWritten | csvjoin/csvjoin.py:68-75 | The loop as written. Its meaning is stated by `Transformers.AsWrittenAgreesWithoutMissingCells` and `AsWrittenFailsOnMissingCell`. |
| Transformers.ResolveAll | csvjoin/csvjoin.py:69-74 | Resolution succeeds exactly when every name is registered. It then gives the registered transformer for each name, in order. Otherwise it fails with UnknownTransformer for the first unregistered name. |
| Transformers.ResolveAllKnown | csvjoin/csvjoin.py:69-71 | When every name is registered, resolution returns exactly the registered transformers. |
| Transformers.ResolveAllStopsAt | csvjoin/csvjoin.py:72-74 | The first unregistered name is the one reported. |
| Transformers.Transform | csvjoin/csvjoin.py:68-75 | The loop returns exactly `Transformed`: each registered transformer is applied to the whole column in list order, and the first unknown name stops with an error and no column. |
| Transformers.ApplyAllFirstFirst | csvjoin/csvjoin.py:69-71 | The transformer listed first is applied first. |
| Transformers.TransformedNoNames | csvjoin/csvjoin.py:61-62 | With no transformer names, the column comes back unchanged. |
| Transformers.TransformedMeaning | csvjoin/csvjoin.py:68-75 | The pipeline fails exactly when some name is unregistered, and then names the first such one. On success the column keeps its length, and a cell is missing exactly when it was missing before. |
| Transformers.TransformedInListOrder | csvjoin/csvjoin.py:69-71 | Transforming with `[n] + rest` is applying `n` to every cell, then transforming with `rest`. |
| Transformers.AsWrittenAgreesWithoutMissingCells | csvjoin/csvjoin.py:69-74 | On a column with no missing cell, the loop as written and the corrected pipeline give the same result. |
| Transformers.AsWrittenFailsOnMissingCell | csvjoin/csvjoin.py:71 | With a missing cell and registered names, the loop as written fails at the first transformer. The corrected pipeline succeeds and keeps that cell missing. |
| Join.MissingMapColumn | csvjoin/csvjoin.py:45-48 | Reports a map column exactly when some pair names a column the map table lacks. The reported column is not in the map table. |
| Join.Fill | csvjoin/csvjoin.py:56 | `mask(isnull, joined)`, one cell per row. Its meaning is stated by `Join.FillAfterReset`, `Join.FillFromNothing`, `Join.FillAssociative` and `JoinProperties.FilledIsMaskSteps`. |
| Join.FillAfterReset | csvjoin/csvjoin.py:41-56 | Filling the freshly reset column takes the joined column as it is. |
| Join.FillFromNothing | csvjoin/csvjoin.py:56 | Filling from a join that found nothing leaves the column unchanged. |
| Join.FillAssociative | csvjoin/csvjoin.py:45-56 | Successive fills can be grouped either way: filling from `a` and then `b` equals filling once from `a` filled from `b`. |
| Join.Lookup | csvjoin/csvjoin.py:48-53 | The left lookup through one pair. Its meaning is stated by `JoinProperties.LookupFindsMatchingRow` and `JoinProperties.LookupWithoutMatchingRow`. |
| Join.LeftJoin | csvjoin/csvjoin.py:48-53 | The temporary join column has one looked-up cell per target row. |
| Join.FirstMatch | csvjoin/csvjoin.py:45-56 | The fallback chain for one key. Its meaning is stated by `JoinProperties.FirstMatchTakesFirstHit`, `FirstMatchComesFromFirstHit`, `FirstMatchMissingIff` and `FirstMatchNeverOverwritten`. |
| Join.Filled | csvjoin/csvjoin.py:41-58 | The target column after all lookups has one cell per target row. `JoinProperties.FilledIsMaskSteps` proves it equal to the pair-by-pair fill. |
| JoinProperties.MaskSteps | csvjoin/csvjoin.py:41-58 | A reference definition of the pair loop on values: start from the reset column and fill from each pair's join in declared order. It keeps one cell per key. |
| JoinProperties.FilledIsMaskSteps | csvjoin/csvjoin.py:41-58 | Filling pair by pair from a reset column gives, in every row, the first hit of the fallback chain. |
| JoinProperties.FilledFromTheFront | csvjoin/csvjoin.py:45-56 | The chain seen from the front: the first pair's join, filled where it is missing from the chain of the remaining pairs. |
| Join.FirstMatchSnoc | csvjoin/csvjoin.py:45-56 | Adding one more pair to the fallback chain changes only the cells the chain left missing. Those get the new pair's lookup. |
| Join.ColumnSetApplied | csvjoin/csvjoin.py:35-62 | A successful column set keeps the row count and keeps the table well formed. It adds only the target column to the header, which is `WithColumn`, and changes no cell outside the target column. |
| Join.Generated | csvjoin/csvjoin.py:33-64 | A successful run yields a well-formed table with as many rows as the target. |
| Join.ApplyColumnSet | csvjoin/csvjoin.py:35-62 | The pair loop returns exactly `ColumnSetApplied`. It snapshots the ids, resets the column, joins and fills through each pair in order, checks each pair's columns, then transforms when names are listed. |
| Join.Generate | csvjoin/csvjoin.py:33-64 | The column-set loop returns exactly `Generated`: each set in list order on the previous set's table, and the first failure ends the run. |
| Join.PairColumns | csvjoin/csvjoin.py:29 | One column set's contribution to the flattened list: for each pair, its id column then its value column. |
| Join.MapColumnsToRead | csvjoin/csvjoin.py:29 | The flattened list holds every id and value column of every pair of every column set, and nothing else. |
| JoinProperties.LookupFindsMatchingRow | csvjoin/csvjoin.py:48-53 | With unique map ids, the left lookup gives the value cell of the map row whose id equals the key. |
| JoinProperties.LookupWithoutMatchingRow | csvjoin/csvjoin.py:48-53 | A key that no map row carries looks up a missing cell. |
| JoinProperties.FirstMatchTakesFirstHit | csvjoin/csvjoin.py:45-56 | The cell takes the value of the first pair, in declared order, whose lookup is present. |
| JoinProperties.FirstMatchComesFromFirstHit | csvjoin/csvjoin.py:45-56 | A present cell came from some pair, and every earlier pair looked up nothing. |
| JoinProperties.FirstMatchMissingIff | csvjoin/csvjoin.py:45-56 | The cell is missing exactly when every pair's lookup is missing. |
| JoinProperties.FirstMatchNeverOverwritten | csvjoin/csvjoin.py:56 | Once the first `k` pairs have filled a cell, later pairs never change it. |
| JoinProperties.ColumnSetSucceedsIff | csvjoin/csvjoin.py:35-62 | A column set succeeds exactly when its source id column and all its pair columns exist, and all its transformer names are registered. |
| JoinProperties.ColumnSetFailures | csvjoin/csvjoin.py:36-48 | A missing source id column fails with that name. Otherwise a missing pair column fails with a column the map table lacks. |
| JoinProperties.ColumnSetUnknownTransformer | csvjoin/csvjoin.py:61-74 | The first unregistered transformer name fails the column set with that name, and no table is returned. |
| JoinProperties.ColumnSetFillsTarget | csvjoin/csvjoin.py:41-62 | On success, a row's target cell is the fallback result for the row's old source id, put through the listed transformers in order. |
| JoinProperties.ColumnSetWithoutTransformers | csvjoin/csvjoin.py:45-62 | Without transformers, the target cell is exactly the fallback result. |
| JoinProperties.ColumnSetResetsTarget | csvjoin/csvjoin.py:41 | A row that every pair leaves unmatched ends missing, whatever the target column held before. |
| JoinProperties.GeneratedShape | csvjoin/csvjoin.py:33-64 | A successful run keeps the same rows in the same order. Every cell outside the target columns is unchanged. The old header stays a prefix, and the only new columns are the target columns. |
| JoinProperties.GeneratedInOrder | csvjoin/csvjoin.py:34 | Running `s1 + s2` is running `s1`, then running `s2` on its result. A failure in `s1` ends the run. |
| JoinProperties.GeneratedChains | csvjoin/csvjoin.py:34-36 | When a second set keys on the column the first set wrote, its lookup key for each row is the value the first set filled in and transformed. The second set's cell is that key's fallback result put through the second set's transformers. |
| JoinProperties.GeneratedOnlyKnownTransformers | csvjoin/csvjoin.py:69-74 | A successful run used only registered transformer names. |
| MapReading.KeepColumns | csvjoin/csvjoin.py:19 | The kept header holds exactly the header columns that are listed in `usecols`, and it has no duplicates when the header had none. |
| MapReading.Restrict | csvjoin/csvjoin.py:19 | The narrowed map table is well formed. It has the same rows, only the kept columns, and the same cells in them. |
| MapReading.ReadingNamedColumnsSuffices | csvjoin/csvjoin.py:29-31 | A run on the map narrowed to the flattened column list gives the same result as a run on the whole map. |
| Scenarios.ScenarioFlipNames | csvjoin/csvjoin.py:33-75 | Ids 1 and 2 get "Jane Doe" and "Rich Roe", id 3 stays missing, and the header becomes `id, full_name`. |
| Scenarios.ScenarioFallback | csvjoin/csvjoin.py:45-56 | The first pair finds the row but its value is missing, so the second pair fills the cell with "X". |
| Scenarios.ScenarioUnknownTransformer | csvjoin/csvjoin.py:72-74 | The transformer name "does_not_exist" fails the run with UnknownTransformer. |
| Scenarios.ScenarioFlipNamesAsWritten | csvjoin/csvjoin.py:71 | The column of the flip-names run, with an unmatched third cell, makes the loop as written fail. |

## Left out

- CSV reading and writing (`read_source`, `read_map`, `write`, and their copies in csvjoin/__main__.py) is file I/O through pandas. The model takes and returns tables. Only the column narrowing of `read_map` is modelled, as `MapReading.Restrict`.
- A `usecols` entry that names no existing column makes `read_csv` raise. In the model, the narrowed map simply lacks that column, and the run fails later with `MissingColumn`.
- The command line, JSON configuration loading, progress printing and the loop over several commands in csvjoin/__main__.py are glue. They are not modelled. A run here is one `generate` call.
- The uuid name of the temporary join column is not modelled. The column is an anonymous sequence, so there is no name to collide with.
- The text written to stderr and the process exit are not modelled. The model returns the `UnknownTransformer` error instead.
- pandas internals are not modelled: the index object, the `float64` dtype of the reset column, and `isnull` on non-string values. A missing cell is `None`.
- Duplicate map ids are not modelled. There pandas would repeat target rows. `Join.Generate` and `Join.ApplyColumnSet` instead require unique ids in every map id column (`Join.Admissible`).
- A pair whose id column is also its value column is not modelled. `map_csv[[c, c]]` gives a frame with a duplicated label, and the model requires the two columns to differ.
- JoinProperties.ColumnSetFailures: it says only that some missing map column is reported, not which one. `Join.MissingMapColumn` reports the first in pair order, id before value, while pandas' `KeyError` may list several.
- The `keep_default_na=False` option of the readers in csvjoin/__main__.py (empty text is kept as a value, not read as missing) is part of CSV reading. The model takes cells as already read.
- setup.py is packaging metadata and is not modelled.

## Findings

| source | as written | input that shows it | evidently intended | confidence | as-written member | corrected member |
|---|---|---|---|---|---|---|
| csvjoin/csvjoin.py:71 | `target.apply(TRANSFORMERS[t])` hands every cell to the transformer, missing cells included. `flip_names` calls `.split` on the value, which fails for pandas' missing value. | Target ids 1, 2, 3; map ids 1, 2 with names "Doe, Jane" and "Roe, Rich"; one column set with `transformers: ["flip_names"]`. Row 3 matches nothing, so its cell is missing when `flip_names` runs. | Unmatched rows stay missing and only present cells are transformed, giving "Jane Doe", "Rich Roe", missing. | high; not executed | Transformers.TransformedAsWritten (shown by Scenarios.ScenarioFlipNamesAsWritten and Transformers.AsWrittenFailsOnMissingCell) | Transformers.Transformed (Transformers.TransformedMeaning, Scenarios.ScenarioFlipNames) |
