# Prostate MRI metadata merge and cached volume-property extraction, in Dafny

This project models the two pieces of the repository's data layer that
carry its logic, and proves properties of them.

- **`load_metadata`** (`src/data/loader.py`) merges three tables into one
  row per MR series:
  - The three tables are cases, imaging studies and MR series.
  - All three carry an overloaded `submitter_id`. Each table is first
    renamed through its own map, so that the study and patient keys share
    one name.
  - Series are then left-joined to studies on `study_submitter_id`, and the
    result to cases on `patient_id`.
  - The redundant key copies are dropped and `manufacturer` is upper-cased.
  - The model is pure: tables are a header plus rows, each row a map from
    column to a nullable cell. Polars' `rename`, left `join`, `drop` and
    `str.to_uppercase` are functions with their schema errors (modules
    `Tables` and `Metadata`).
- **`load_annotation_file`** (`src/data/volumes.py`) reads the annotation
  TSV. It keeps the image rows, i.e. those whose file name does not end in
  `_SEG.nii.gz`, in file order, as `(filename, series_submitter_id)`. It is
  a pure function over the filesystem state (module `Manifest`).
- **`extract_volume_properties` / `load_volume_properties`**
  (`src/data/volumes.py`) run as methods over a `Disk` object holding
  files, modification times and directories (modules `FileSystem` and
  `Volumes`). A run:
  1. Checks the Parquet cache: the run is not forced, the cache exists, and
     the cache is strictly newer than the TSV.
  2. Loads the cache. If it cannot be loaded, it is deleted and extraction
     follows.
  3. Extracts: for each manifest entry, a NIfTI header is read and yields a
     property row, or the `(filename, reason)` failure is recorded; the run
     goes on either way.
  4. Finalizes: a run with no row raises; otherwise the processed directory
     is made and the rows are written to the cache once, after the loop.

  Each method is proved against the function `Extract`, which gives the
  outcome of a whole run from the filesystem it starts on: the result or
  error, the failures, the final filesystem, and the headers read. The
  lemmas about `Extract` cover:
  - cache hits, and their converse;
  - recovery from a corrupt cache;
  - accounting for every entry;
  - no cache write on failure;
  - the frame;
  - the round trip through the cache.

The NIfTI reader is an oracle over the file contents (`FileSystem.HeaderOf`).
The clock is a parameter (`now`), which becomes the cache file's
modification time when it is written.

Three behaviours of the code that are easy to miss:

- **Zero divisor.** The shape entries are Python ints, so `width / height`
  with `height == 0`, or a division by a zero `n_slices`, raises
  `ZeroDivisionError` inside the per-file `try`
  (`src/data/volumes.py:167-169`, `196-198`). The file goes to
  `failed_files` with the message `"division by zero"`.
- **Null file names.** The filter at `src/data/volumes.py:37` drops rows
  whose `file_name` is null. A null predicate does not keep the row.
- **Missing TSV during the cache check.** When the run is not forced and a
  cache exists, the TSV is `stat`-ed, so a missing TSV raises
  `FileNotFoundError` (`src/data/volumes.py:88`). This happens before the
  annotation-directory check. `stat` succeeds on a directory, so a
  directory at the TSV path is compared by its modification time instead.

## Model

| member | source | states |
|---|---|---|
| Strings.Upper | src/data/loader.py:58-59 | the result has the input's length and each character is the upper case of the input's character at the same position, so every character of the result is upper-case |
| Strings.UpperIdempotent | src/data/loader.py:58-59 | upper-casing a string twice gives the same string as upper-casing it once |
| Strings.TupleRepr | src/data/volumes.py:145 | definition: Python's repr of an int tuple, `()`, `(5,)` or `(a, b, …)`, as the `{shape}` of the failure message writes it |
| Strings.TupleReprExamples | src/data/volumes.py:145 | the repr of the empty shape is `()`, of a one-axis shape `(5,)`, and of a three-axis shape with a multi-digit and a negative entry `(12, 3, -1)` |
| Tables.Rename | src/data/loader.py:30-50 | renaming succeeds exactly when every old name is a column and the renamed header has no repeats; a missing old name gives ColumnNotFound naming it; on success the table is well formed, its header is the renamed header, it has as many rows, and every cell keeps its value under its column's new name |
| Tables.RenamedIsTargetOrSelf | src/data/loader.py:30-50 | a column is renamed either to itself or to one of the map's new names, and a column that is an old name is always renamed to a new name |
| Tables.RenamedPair | src/data/loader.py:30-50 | when the old names are distinct, the k-th old name is renamed to the k-th new name |
| Tables.RenameRemovesSource | src/data/loader.py:30-50 | after renaming, an old name that is not also a new name is not a column any more |
| Tables.RenameRowsFacts | src/data/loader.py:30-50 | the renamed rows have exactly the new header as keys, and each holds the old row's cells under the new names |
| Tables.LeftJoin | src/data/loader.py:52-54 | a key missing on either side gives ColumnNotFound; otherwise the join succeeds exactly when its header has no repeats (the left columns, then the right side's non-key columns, a name the left already has getting "_right"); on success the result is well formed, has that header, and has at least as many rows as the left table (that each left row gives rise to a row is `Tables.LeftJoinKeepsEveryRow`) |
| Tables.OutName | src/data/loader.py:53-54 | definition: a right column keeps its name unless the left side already has it, and then gets the suffix `_right` |
| Tables.Joins | src/data/loader.py:53-54 | definition: a left row joins a right row exactly when its key cell is non-null and equal to the right row's, so null keys never match |
| Tables.JoinRows | src/data/loader.py:53-54 | definition: the left join's rows, left row by left row, each giving one row per matching right row in right-table order, or one null-padded row when none matches |
| Tables.AtMostOneMatch | src/data/loader.py:52-54 | when no two right rows share a non-null key, a left row joins at most one right row |
| Tables.MatchesByKey | src/data/loader.py:53-54 | which right rows a left row joins depends only on its key cell |
| Tables.RelabelFacts | src/data/loader.py:53-54 | the right-side part of a joined row has exactly the output names as keys, each holding the matched row's cell or null |
| Tables.JoinedRowFacts | src/data/loader.py:53-54 | a joined row has exactly the join's header as keys, keeps every left cell, and holds in each right column the matched row's cell, or null when there is none |
| Tables.JoinRowsWellFormed | src/data/loader.py:53-54 | every row the join emits has exactly the join's header as keys, and there are at least as many rows as left rows |
| Tables.JoinRowsUnique | src/data/loader.py:53-54 | with unique right keys the join emits exactly one row per left row, in left order, each joined to its single match or null-padded |
| Tables.UniqueJoinRowsIndex | src/data/loader.py:53-54 | the one-row-per-left-row join has as many rows as the left side, and row i is left row i joined to its match |
| Tables.LeftJoinKeepsRows | src/data/loader.py:53-54 | with unique right keys the join keeps exactly one row per left row, in order, with its left cells unchanged and each right column holding the matched right row's cell or null |
| Tables.JoinRowsCover | src/data/loader.py:53-54 | whatever the right keys, the rows emitted for left row i include the one joined to its first match, or its null-padded row when nothing matches |
| Tables.LeftJoinKeepsEveryRow | src/data/loader.py:53-54 | whatever the right keys, for each left row some output row holds its left cells and, in each right column, its first matching right row's cell, or null when none matches |
| Tables.LeftJoinUnmatchedIsNull | src/data/loader.py:53-54 | whatever the right keys, a left row that no right row joins is kept: some output row holds its left cells and null in every right-side column |
| Tables.Drop | src/data/loader.py:55-57 | dropping fails exactly when a named column is absent, with ColumnNotFound naming it; on success the header is the old header without the names, in order, none of the names remains, the row count is kept, and every other cell is unchanged |
| Tables.UpperCaseColumn | src/data/loader.py:58-59 | a missing column gives ColumnNotFound; otherwise the step succeeds exactly when the column holds only text or nulls, and fails with InvalidType if not; on success the header and row count are kept, the column's text is upper-cased and every other cell is unchanged |
| Tables.UpperCellIdempotent | src/data/loader.py:58-59 | upper-casing a cell twice equals upper-casing it once |
| Tables.UpperCaseColumnIdempotent | src/data/loader.py:58-59 | upper-casing the manufacturer column a second time changes nothing |
| Metadata.LoadMetadata | src/data/loader.py:26-60 | a case table without one of its renamed columns makes the merge fail with ColumnNotFound; a successful merge is well formed, has at least as many rows as the series table (that each series row gives rise to a row is `Metadata.LoadMetadataCoversSeries`), has none of the four redundant key columns, and has the manufacturer column |
| Metadata.RenameKeepsKeyCell | src/data/loader.py:30-50 | renaming keeps every row's key cell, under the key's new name |
| Metadata.RenameKeepsUniqueKey | src/data/loader.py:30-50 | a key that is unique before the rename is unique under its new name |
| Metadata.CaseRenamesDisambiguate | src/data/loader.py:30-32 | after the case rename, `submitter_id` and `type` are gone and `patient_id` and `case_type` are columns |
| Metadata.StudyRenamesDisambiguate | src/data/loader.py:34-40 | after the study rename, `submitter_id`, `case_ids` and `type` are gone and `study_submitter_id`, `patient_id` and `study_type` are columns |
| Metadata.SeriesRenamesDisambiguate | src/data/loader.py:42-50 | after the series rename, `study_submitter_id`, `patient_id`, `series_submitter_id`, `series_type` and `series_image_data_modified` are columns |
| Metadata.SeriesRenamesRemoveKeys | src/data/loader.py:42-50 | after the series rename, none of `submitter_id`, `case_ids` and `imaging_studies.submitter_id` is a column |
| Metadata.SeriesRenamesRemoveClashes | src/data/loader.py:45-48 | after the series rename, the columns that clash with study columns, `type` and `image_data_modified`, are gone |
| Metadata.RenamedHas | src/data/loader.py:30-50 | with distinct old names, every new name of the map is a column after the rename |
| Metadata.RenameCell | src/data/loader.py:30-50 | column k of the renamed table is the renamed name of column k, and holds the same cell in every row |
| Metadata.RenamedKeysUnique | src/data/loader.py:30-54 | a unique `submitter_id` in studies and in cases makes the study key and the patient key the joins use unique |
| Metadata.JoinKeepsLeftCell | src/data/loader.py:53-54 | with unique right keys, a left column keeps row i's cell through the join |
| Metadata.DropKeepsCell | src/data/loader.py:55-57 | a column that is not dropped keeps row i's cell through the drop |
| Metadata.UpperKeepsCell | src/data/loader.py:58-59 | through the upper-casing, row i's manufacturer cell is upper-cased and every other cell of it is unchanged |
| Metadata.LeftCellSurvives | src/data/loader.py:54-59 | a cell of the first join's result that is not dropped survives the case join, the drop and the upper-casing, upper-cased only in the manufacturer column |
| Metadata.JoinRightCell | src/data/loader.py:53-54 | with unique right keys, a right column of row i holds the matched right row's cell, or null |
| Metadata.MergeTailRows | src/data/loader.py:52-59 | with unique right keys, both joins, the drop and the upper-casing keep the series row count |
| Metadata.MergeTailStudy | src/data/loader.py:52-59 | in the merged table, a study column that is not dropped holds in row i the cell of the study that series row i joined |
| Metadata.MergeTailCase | src/data/loader.py:52-59 | in the merged table, a case column that is not dropped holds in row i the cell of the case whose patient key equals series row i's |
| Metadata.MergeSteps | src/data/loader.py:30-60 | a successful merge is the chain of its three renames, two joins, drop and upper-casing, each of which succeeded |
| Metadata.LoadMetadataOneRowPerSeries | src/data/loader.py:52-54 | with `submitter_id` unique in studies and in cases, the merge has exactly one row per series row |
| Metadata.LoadMetadataKeepsSeries | src/data/loader.py:42-59 | under the same uniqueness, every series cell whose renamed column is not dropped is in the merged row of its series under its renamed name, unchanged, except that manufacturer is upper-cased |
| Metadata.LoadMetadataJoinsStudy | src/data/loader.py:52-53 | under the same uniqueness, every study column that is not dropped holds, in each series' row, the cell of that series' study, or null when there is no such study |
| Metadata.JoinTwice | src/data/loader.py:52-54 | a row of the second join made from a row of the first carries the series row's cells, its study's cells, and the cells of the case matching the series row's own patient key |
| Metadata.TailKeepsCell | src/data/loader.py:55-59 | a column of the second join that is not dropped keeps row b's cell through the drop and the upper-casing, upper-cased only if it is the manufacturer |
| Metadata.TailSeriesCells | src/data/loader.py:55-59 | the series cells of a twice-joined row that are not dropped reach the merged row, the manufacturer upper-cased |
| Metadata.TailStudyCells | src/data/loader.py:55-59 | the study cells of a twice-joined row that are not dropped reach the merged row |
| Metadata.TailCaseCells | src/data/loader.py:55-59 | the case cells of a twice-joined row that are not dropped reach the merged row |
| Metadata.MergeTailCovers | src/data/loader.py:52-59 | whatever the keys, the joins, the drop and the upper-casing keep every series row: some merged row is made from it |
| Metadata.LoadMetadataCoversSeries | src/data/loader.py:26-60 | whatever the keys, no series row is lost: some merged row holds its cells (manufacturer upper-cased), its first matching study's cells and its first matching case's cells, null where there is none |
| Metadata.LoadMetadataUnmatchedSeries | src/data/loader.py:26-60 | whatever the keys, a series row whose study and patient are absent from the study and case tables is kept, with its own cells and null in every study and case column |
| Metadata.LoadMetadataJoinsCase | src/data/loader.py:52-54 | under the same uniqueness, every case column that is not dropped holds, in each series' row, the cell of that series' patient, or null when there is no such patient |
| FileSystem.Join | src/data/volumes.py:122 | the joined path is the directory, a `/`, then the file name |
| FileSystem.HeaderOf | src/data/volumes.py:132-135 | a NIfTI file yields its shape and zooms; anything else (a missing path, another kind of file, unreadable bytes) yields a load error |
| FileSystem.ParquetAt | src/data/volumes.py:90 | the Parquet reader yields rows exactly when the path holds a Parquet table |
| FileSystem.TsvAt | src/data/volumes.py:34 | the TSV reader yields rows exactly when the path holds an annotation TSV |
| FileSystem.Disk.Exists | src/data/volumes.py:125 | `exists()` is true of files and of directories |
| FileSystem.Disk.IsFile | src/data/volumes.py:85 | whether the path is a file on the disk |
| FileSystem.MTimeOf | src/data/volumes.py:88 | `stat().st_mtime` is the modification time of the file or directory at the path, and is absent (the raise) exactly when nothing is there |
| FileSystem.WithDir | src/data/volumes.py:214 | after `mkdir(exist_ok=True)` the directory exists; an existing directory keeps its time, a new one gets the current time |
| FileSystem.Disk.ModifiedTime | src/data/volumes.py:88 | `stat().st_mtime` is the modification time of the file or of the directory at the path, and is absent (the raise) exactly when nothing is there |
| FileSystem.Disk.ReadParquet | src/data/volumes.py:90 | reading the cache yields what the Parquet reader makes of it |
| FileSystem.Disk.ReadHeader | src/data/volumes.py:132-135 | loading a header yields the oracle's answer and logs the path as read, changing nothing else |
| FileSystem.Disk.Unlink | src/data/volumes.py:95 | `unlink(missing_ok=True)` removes the file if present and is a no-op otherwise |
| FileSystem.Disk.MakeDirs | src/data/volumes.py:214 | `mkdir(exist_ok=True)` leaves an existing directory as it is and otherwise adds it, stamped with the current time |
| FileSystem.Disk.WriteParquet | src/data/volumes.py:215 | `write_parquet` replaces whatever the path held by the rows, stamped with the current time |
| Manifest.Kept | src/data/volumes.py:37 | definition: the filter keeps a row exactly when its file name is non-null and does not end with `_SEG.nii.gz` |
| Manifest.EntryOf | src/data/volumes.py:42-45 | definition: the select takes `file_name` as `filename` and `mr_series_files.submitter_id` as `series_submitter_id` |
| Manifest.Entries | src/data/volumes.py:37-45 | definition: the kept rows' entries, in file order |
| Manifest.LoadAnnotationFile | src/data/volumes.py:29-45 | a missing TSV path raises FileNotFoundError; loading succeeds exactly when the path holds a TSV, and then yields the filtered, projected manifest |
| Manifest.EntriesAppend | src/data/volumes.py:37 | filtering a concatenation is the concatenation of the filtered parts, so kept rows stay in file order |
| Manifest.EntriesExcludeSegmentations | src/data/volumes.py:37 | no manifest filename ends with `_SEG.nii.gz` |
| Manifest.EntriesMembership | src/data/volumes.py:37-45 | an entry is in the manifest exactly when some row with a non-null, non-segmentation file name projects to it |
| Manifest.EntriesCount | src/data/volumes.py:37 | the manifest is no longer than the TSV, and is as long exactly when every row is kept |
| Volumes.ExampleManifest | src/data/volumes.py:37-45 | in a TSV listing an image, its mask and another image, the mask is filtered out and the images stay in order |
| Volumes.CacheIsNotTsv | src/data/volumes.py:82-86 | the cache file and the annotation TSV are different paths |
| Volumes.PropertiesOf | src/data/volumes.py:156-194 | a row carries the entry's filename and series id unchanged, takes width, height and n_slices from the shape and the spacings from the first three zooms, and has `total_voxels = width * height * n_slices` |
| Volumes.PhysicalExtents | src/data/volumes.py:162-165 | each physical extent is the voxel count times that axis' spacing, and the physical volume is their product |
| Volumes.FromHeader | src/data/volumes.py:130-198 | a header yields a row exactly when it is 3-D, has at least three zooms and a non-zero height and depth; otherwise the failure names the file with the specific reason: the load error's message, "Unexpected shape: (…)", "Missing spacing information", or "division by zero" |
| Volumes.OutcomeOf | src/data/volumes.py:122-198 | a file missing from disk fails with "File not found on disk" without a header read; otherwise the outcome is that of its header |
| Volumes.Outcomes | src/data/volumes.py:114-198 | each manifest entry has exactly one outcome, in manifest order |
| Volumes.Successes | src/data/volumes.py:111-194 | definition: the rows of the successful outcomes, in order, i.e. the `properties` list |
| Volumes.Failures | src/data/volumes.py:111-198 | definition: the failures among the outcomes, in order, i.e. the `failed_files` list |
| Volumes.HeadersRead | src/data/volumes.py:122-135 | definition: the paths of the entries whose file exists, in manifest order, i.e. the headers the loop loads |
| Volumes.Cached | src/data/volumes.py:213-215 | definition: the filesystem after the processed directory is made (existing one kept) and the rows are written to the cache at the current time |
| Volumes.Extraction | src/data/volumes.py:98-220 | definition: full extraction; a missing annotation directory or a failing annotation load raises with nothing read; otherwise the loop's rows and failures, and a raise when there is no row, else the rows cached |
| Volumes.CacheFresh | src/data/volumes.py:84-88 | definition: the run is not forced, the cache is a file, something is at the TSV path, and the cache is strictly newer than it |
| Volumes.Extract | src/data/volumes.py:48-220 | definition: a whole run; a missing TSV at the cache check raises, a fresh loadable cache answers, a fresh unloadable cache is deleted before full extraction, and anything else goes to full extraction |
| Volumes.LoopStep | src/data/volumes.py:114-198 | one more entry appends its outcome to the rows or to the failures, and its path to the reads exactly when the file exists |
| Volumes.ExtractOne | src/data/volumes.py:115-198 | one pass of the loop body yields that entry's outcome and reads its header exactly when the file exists |
| Volumes.ExtractEntries | src/data/volumes.py:111-198 | the loop collects exactly the successful rows and the failures of the entries, in manifest order, reads the headers of the existing files in that order, and changes nothing on disk |
| Volumes.ExtractAndCache | src/data/volumes.py:98-220 | full extraction returns, raises, writes and reads exactly as `Extraction` states from the starting disk |
| Volumes.ExtractVolumeProperties | src/data/volumes.py:48-220 | the run returns or raises, collects failures, leaves the disk and reads headers exactly as `Extract` states from the starting disk |
| Volumes.LoadVolumeProperties | src/data/volumes.py:223-246 | the public entry point behaves exactly as `extract_volume_properties` |
| Volumes.PartitionAppend | src/data/volumes.py:114-198 | successes and failures of concatenated outcomes are the concatenations, so both lists keep manifest order |
| Volumes.PartitionCount | src/data/volumes.py:114-198 | the number of rows plus the number of failures equals the number of outcomes |
| Volumes.SuccessesFromEntries | src/data/volumes.py:157-194 | every row comes from a manifest entry whose header yielded it, carries that entry's filename and series id, and has `total_voxels = width * height * n_slices` |
| Volumes.FailuresFromEntries | src/data/volumes.py:125-198 | every failure is the outcome of a manifest entry and names that entry's file |
| Volumes.RowsNeedReads | src/data/volumes.py:125-135 | a row can only come from a header that was read |
| Volumes.ExtractionAccounts | src/data/volumes.py:111-211 | every manifest entry yields one row or one failure: rows plus failures number the entries, and the run raises "no properties extracted" exactly when every entry failed |
| Volumes.CacheHit | src/data/volumes.py:85-92 | an unforced run with a cache strictly newer than the TSV that loads returns the cached rows, reads no header, changes nothing, and never reaches the annotation-directory check |
| Volumes.CacheOnlyWhenFresh | src/data/volumes.py:84-96 | a run that succeeds without reading a header was answered by the cache: it was not forced, the cache was strictly newer than the TSV, and the result is the cached rows |
| Volumes.CacheBypassed | src/data/volumes.py:84-88 | a forced run, a missing cache, or a cache not strictly newer than the TSV leads straight to full extraction |
| Volumes.CorruptCacheRecomputed | src/data/volumes.py:89-96 | a fresh cache that fails to load is deleted and the run proceeds as full extraction on the disk without it, instead of raising |
| Volumes.MissingTsvAtCacheCheck | src/data/volumes.py:85-88 | an unforced run with a cache but nothing at the TSV path (neither file nor directory) raises FileNotFoundError for the TSV and changes nothing |
| Volumes.NoCacheWriteOnFailure | src/data/volumes.py:207-215 | a run that raises writes no cache and makes no directory; at most it has deleted a corrupt cache |
| Volumes.ExtractFrame | src/data/volumes.py:95-215 | a run changes no file other than the cache, keeps every existing directory and its time, and adds no directory other than the processed one |
| Volumes.ExtractCachesResult | src/data/volumes.py:213-215 | after a successful run the cache holds exactly the rows returned |
| Volumes.RoundTrip | src/data/volumes.py:84-92 | after a successful run at a time later than the TSV's modification, a later unforced run returns the same rows from the cache, reads no header and changes nothing |
| Volumes.ExampleOutcomes | src/data/volumes.py:114-198 | with only the first of two images on disk, the loop yields that image's row, reports the second as not found, and reads one header |
| Volumes.ExampleRun | src/data/volumes.py:48-220 | on a TSV listing an image, its mask and a missing image, the run returns one row with 24 voxels for a 2x3x4 image, reports the missing image, reads only the present image's header and caches the row |

## Left out

- Volumes.PropertiesOf: spacings, physical sizes, physical volume and aspect ratios are exact reals. The source computes them with numpy float32 and Python floats, so rounding is not modelled, and no arithmetic identity about these fields is claimed of the source.
- Volumes.PropertiesOf: `anisotropy_factor` (a square root, `src/data/volumes.py:172`) is not a field of the model's row.
- Strings.Upper: only the ASCII letters a-z are upper-cased. Polars' `str.to_uppercase` applies full Unicode case mapping, which is not modelled.
- FileSystem.HeaderOf: NIfTI parsing is a foreign library. The header is an oracle over a file's recorded contents, and the messages of the exceptions it raises are taken as given.
- TSV and Parquet parsing are foreign calls. A file's content is the table the reader would produce, or a marker that the reader raises on it. Column typing and the TSV's other columns are not modelled.
- Volumes.ExtractVolumeProperties: `failed_files` is returned as a second result. The source only logs its count and the success rate.
- Logging (progress every 100 rows, warnings, the summary line) is left out.
- Settings come from environment variables in the source; here they are the `Settings` parameter.
- Volumes.ExtractVolumeProperties: the cache is taken to exist only when the cache path is a file. The source's `exists()` is also true of a directory there, whose `stat`/`read_parquet`/`unlink` behaviour is not modelled.
- FileSystem.Disk.MakeDirs: adds only the processed directory itself. The `parents=True` creation of missing ancestors and the error for a file at that path are not modelled.
- FileSystem.Join: a file name is always appended to the directory. pathlib's rule that an absolute file name replaces the directory is not modelled.
- Modification times are integers, and the clock is the `now` parameter.
- FileSystem.Disk.MakeDirs: a directory's modification time is set when it is made. Adding or removing entries in it (the cache write, the unlink) does not update it.
- Tables.LeftJoin: the output rows are assumed to follow the left table's row order, with a left row's several matches in right-table order. `join` at `src/data/loader.py:53-54` does not ask polars to maintain order. Tables.JoinRowsUnique, Tables.LeftJoinKeepsRows, Metadata.LoadMetadataKeepsSeries, Metadata.LoadMetadataJoinsStudy and Metadata.LoadMetadataJoinsCase (which speak of row i) rest on that assumption. Tables.LeftJoinKeepsEveryRow, Metadata.LoadMetadataCoversSeries and Metadata.LoadMetadataUnmatchedSeries speak of some output row, so their content does not depend on the order.
- `src/utils/logger.py`, `src/utils/settings.py`, `src/eda/` (report directories, plots, summary statistics) are not part of this model.
