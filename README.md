# bids-on-flywheel: the query-table editing round trip

This project models the tools that let a researcher edit BIDS metadata (Brain
Imaging Data Structure) for Flywheel acquisitions through a spreadsheet.

1. A query table has one row per acquisition. `group_query.py` collapses it to one
   row per distinct tuple of grouping columns. Each kept row gets a `group_id`, and
   a `groups` cell records the grouping columns.
2. The researcher edits the grouped table. `ungroup_query.py` carries every edited
   cell back to all rows of the original table that belong to the edited group.
3. `upload_bids.py` compares the edited table with the original cell by cell. It
   runs a per-column change checker on each changed cell, collects rejection
   messages in a module-level queue, prints a report, and uploads only when every
   change is acceptable. `scripts/validate_bids_changes.py` is the same pipeline
   with a slightly different checker and no upload.
4. `utils.py` turns list cells into comma-separated text and back.
   `query_gears.py` reads a yes/no command-line flag.

A table is modelled as a header and a list of rows of cells. A cell is text, an
integer, or missing (NaN) (`Cells`, `Frames`). Reading a CSV is modelled as the
checks and the sort each `read_flywheel_csv` applies to an already-parsed table.

The core pieces are:

- Pandas' `duplicated`, `cumsum` and `drop_duplicates` (`FirstOccurrences`).
- Cell-wise comparison after `fillna(0)` (`CellDiff`).
- Python's `re.match` for the BIDS file-name patterns, as a backtracking matcher (`Regex`, `BidsNames`).
- The shared error queue, as a class with in-place `append` and `pop(0)` (`ErrorQueues`).
- The check-then-report loop of `validate_on_unequal_cells` (`Aggregation`).

Each script is a module: `GroupQuery`, `UngroupQuery`, `UploadBids`,
`ValidateBidsChanges`, `Utils` and `QueryGears`.

Where a script loops and updates variables, the model is a method. Each such method
is proved equal to a specification function, and the promised properties are
lemmas about that function. Examples:

- the running count and `drop_duplicates` in `group_query.py`;
- the id and change loops in `ungroup_query.py`;
- the checking and reporting loops in `upload_bids.py`;
- `ls.sort()` in `utils.py`, which rearranges an array in place.

## Model

| member | source | states |
|---|---|---|
| Cells.LowerIdempotent | flywheel_bids_tools/upload_bids.py:66 | Lower-casing twice is lower-casing once, so the checkers' `.lower()` comparisons are stable. |
| Cells.StrLeTotal | flywheel_bids_tools/utils.py:8 | The string order used by `ls.sort()` is total. |
| Cells.StrLeTransitive | flywheel_bids_tools/utils.py:8 | The string order used by `ls.sort()` is transitive. |
| Cells.StrLeAntisymmetric | flywheel_bids_tools/utils.py:8 | The string order used by `ls.sort()` is antisymmetric, so a sorted list is unique. |
| Cells.ValueLeTotal | flywheel_bids_tools/group_query.py:25 | The cell order used by `sort_values` (numbers, then text, NaN last) is total. |
| Cells.ValueLeTransitive | flywheel_bids_tools/group_query.py:25 | The cell order used by `sort_values` is transitive. |
| Cells.ValueLeAntisymmetric | flywheel_bids_tools/group_query.py:25 | Two cells that sort both ways round are equal. |
| Cells.KeyLeTotal | flywheel_bids_tools/group_query.py:25 | The lexicographic order on (`acquisition.id`, `acquisition.label`) keys is total. |
| Cells.KeyLeTransitive | flywheel_bids_tools/group_query.py:25 | The lexicographic key order is transitive. |
| Sorting.Sort | flywheel_bids_tools/utils.py:8 | Sorting returns a permutation of its input. |
| Sorting.SortSorted | flywheel_bids_tools/utils.py:8 | Under a total, transitive order the sorted result is ordered. |
| Sorting.SortOfSorted | flywheel_bids_tools/group_query.py:70 | Sorting an already ordered sequence leaves it unchanged. |
| Sorting.SortedUnique | flywheel_bids_tools/utils.py:8 | Under a total antisymmetric order, two ordered permutations of the same elements are equal. |
| Sorting.SortEqualsSorted | flywheel_bids_tools/utils.py:8 | Any ordered permutation of the input is what sorting returns. |
| Frames.IndexOf | flywheel_bids_tools/ungroup_query.py:88 | The column lookup finds a position holding the name, and fails exactly when the name is absent. |
| Frames.Indices | flywheel_bids_tools/group_query.py:70 | Looking up several columns succeeds exactly when all are present, and gives their positions. |
| Frames.RowKey | flywheel_bids_tools/group_query.py:57 | A row's grouping tuple holds, column by column, the row's cells in the grouping columns. |
| Frames.SetColumn | flywheel_bids_tools/ungroup_query.py:69 | Assigning a column keeps the row count, and adds the column at the end only when it is new. |
| Frames.SetColumnCellAt | flywheel_bids_tools/ungroup_query.py:69 | After assigning a column, that column reads the new values and every other column is unchanged. |
| Frames.SetColumnTwice | flywheel_bids_tools/ungroup_query.py:69-78 | Assigning a column twice equals assigning it once with the second values. |
| Frames.DropColumn | flywheel_bids_tools/ungroup_query.py:97 | Dropping a column removes exactly that column and keeps every row. |
| Frames.DropColumnCellAt | flywheel_bids_tools/ungroup_query.py:97 | After the drop, the dropped column reads as missing and every other cell is unchanged. |
| Frames.DropSetColumn | flywheel_bids_tools/ungroup_query.py:69-97 | Adding a new column and dropping it again gives back the original table. |
| Frames.SortBySorted | flywheel_bids_tools/ungroup_query.py:98 | `sort_values` by (`acquisition.id`, `acquisition.label`) returns rows ordered by that key. |
| Frames.SortByOfSorted | flywheel_bids_tools/ungroup_query.py:98 | Sorting a table already ordered by the key changes nothing. |
| Frames.SortByWf | flywheel_bids_tools/ungroup_query.py:98 | Sorting keeps the header and permutes the rows. |
| Frames.SameRowKey | flywheel_bids_tools/group_query.py:57 | Rows that agree on every grouping column have the same grouping tuple. |
| Frames.RemoveDistinct | flywheel_bids_tools/ungroup_query.py:97 | Removing a column name keeps the names distinct and removes only that name. |
| Frames.DistinctCard | flywheel_bids_tools/upload_bids.py:31 | A header without repeats has as many distinct names as columns. |
| FirstOccurrences.FirstIndices | flywheel_bids_tools/group_query.py:57-58 | `~duplicated`: the listed positions are exactly those whose key has not appeared before. |
| FirstOccurrences.FirstIndicesIncreasing | flywheel_bids_tools/group_query.py:68 | The first occurrences are listed in row order. |
| FirstOccurrences.UniqDistinct | flywheel_bids_tools/group_query.py:68 | `drop_duplicates` keeps no key twice. |
| FirstOccurrences.UniqCovers | flywheel_bids_tools/group_query.py:68 | Every key of the input survives `drop_duplicates`, and nothing new appears. |
| FirstOccurrences.UniqCount | flywheel_bids_tools/group_query.py:68 | As many rows are kept as there are distinct keys. |
| FirstOccurrences.FirstIndicesPrefix | flywheel_bids_tools/group_query.py:59 | The first occurrences in a prefix are an initial run of those in the whole sequence. |
| FirstOccurrences.RunningCountAtFirst | flywheel_bids_tools/group_query.py:59 | The `cumsum` of first occurrences reaches `j + 1` at the `j`-th first occurrence. |
| FirstOccurrences.Position | flywheel_bids_tools/ungroup_query.py:75 | The position of a key is its first index, and is absent exactly when the key is absent. |
| FirstOccurrences.PositionDistinct | flywheel_bids_tools/ungroup_query.py:75 | In a list without repeats, each element is found at its own position. |
| FirstOccurrences.PositionExtend | flywheel_bids_tools/ungroup_query.py:75-79 | Appending a key leaves the positions of earlier keys unchanged and gives the new key the last position. |
| Regex.MatchAppend | flywheel_bids_tools/upload_bids.py:106 | Whatever `re.match` accepts for `p + q` leaves a suffix of the input that `q` matches. |
| BidsNames.NiftiEndMatch | flywheel_bids_tools/upload_bids.py:95 | `\.nii(\.gz)?$` matches only `.nii` or `.nii.gz`, optionally followed by the one newline `$` allows. |
| BidsNames.EndsInNifti | flywheel_bids_tools/upload_bids.py:95 | Any pattern ending in the NIfTI tail accepts only names with a NIfTI extension. |
| BidsNames.BidsFilenameShape | flywheel_bids_tools/upload_bids.py:94-111 | An accepted file name starts `sub-` plus a letter or digit, and ends in `.nii` or `.nii.gz`. |
| BidsNames.RunMatches | flywheel_bids_tools/upload_bids.py:95 | `[a-zA-Z0-9]+` consumes any non-empty run of letters and digits and lets the rest of the pattern continue. |
| BidsNames.EntityTake | flywheel_bids_tools/upload_bids.py:95 | An optional entity `(_tag-[a-zA-Z0-9]+)?` consumes the tag and any label. |
| BidsNames.SkipEntities | flywheel_bids_tools/upload_bids.py:95 | Absent optional entities can be skipped. |
| BidsNames.NiftiEndAccepts | flywheel_bids_tools/upload_bids.py:95 | The tail `.nii(.gz)?$` accepts `.nii` and `.nii.gz`. |
| BidsNames.AnatTailAccepted | flywheel_bids_tools/upload_bids.py:95 | The anatomical pattern after its entities accepts `_<label>.nii` and `_<label>.nii.gz` for any label. |
| BidsNames.AnatAfterSubject | flywheel_bids_tools/upload_bids.py:95 | After the subject, an optional `_ses-<label>` followed by an accepted tail is accepted. |
| BidsNames.AnatNameAccepted | flywheel_bids_tools/upload_bids.py:94-107 | Every `sub-<label>[_ses-<label>]_<label>.nii[.gz]` is a BIDS file name. |
| BidsNames.SessionLabelAccepted | scripts/validate_bids_changes.py:89-93 | The unanchored session pattern accepts a label exactly when its lower-cased form starts `sub-` plus a letter or digit. |
| CellDiff.DiffFrom | flywheel_bids_tools/upload_bids.py:142-144 | The scan lists every differing in-bounds cell from a start point on, in row-major order, and nothing else. |
| CellDiff.UnequalCells | flywheel_bids_tools/upload_bids.py:139-144 | Fails exactly on a shape mismatch. Otherwise lists exactly the cells unequal after `fillna(0)`, in row-major order. |
| CellDiff.DiffOfSelf | flywheel_bids_tools/upload_bids.py:142-144 | A frame compared with itself has no differences. |
| CellDiff.DiffSymmetric | flywheel_bids_tools/upload_bids.py:139-144 | The result does not depend on which frame is passed first. |
| CellDiff.SingleDifference | flywheel_bids_tools/upload_bids.py:142-144 | Frames differing in one cell yield exactly that coordinate. |
| ErrorQueues.ErrorQueue.constructor | flywheel_bids_tools/upload_bids.py:11 | The queue starts empty. |
| ErrorQueues.ErrorQueue.Append | flywheel_bids_tools/upload_bids.py:70 | `append` adds the message at the end and changes nothing else. |
| ErrorQueues.ErrorQueue.PopFront | flywheel_bids_tools/upload_bids.py:198 | `pop(0)` on a non-empty queue returns the oldest message and removes only it. |
| ChangeRules.BoolVerdict | flywheel_bids_tools/upload_bids.py:66-71 | A boolean column accepts exactly the cells reading `true` or `false` in any case, and otherwise rejects with the boolean message. |
| ChangeRules.ModalityVerdict | flywheel_bids_tools/upload_bids.py:74-81 | The modality column accepts exactly the listed options in any case, and otherwise rejects with the drop-down message. |
| ChangeRules.DropDownsIgnoreCase | flywheel_bids_tools/upload_bids.py:66-76 | Cells that differ only in letter case get the same verdict. |
| ChangeRules.DropDownsRejectMissing | flywheel_bids_tools/upload_bids.py:66-81 | An emptied cell reads `nan`, which both drop-downs reject. |
| Aggregation.Verdicts | flywheel_bids_tools/upload_bids.py:179-184 | There is one verdict per changed cell. |
| Aggregation.FirstRaise | flywheel_bids_tools/upload_bids.py:180-184 | Gives the first raising verdict; none comes before it. |
| Aggregation.Drain | flywheel_bids_tools/upload_bids.py:190-198 | Printing pops exactly one queued message per rejected cell, and leaves the rest of the queue. |
| Aggregation.CheckCells | flywheel_bids_tools/upload_bids.py:179-184 | The checking loop appends one reason per rejected cell before the first raise, reports that raise, and otherwise returns a flag per cell that is true exactly when the cell is accepted. |
| Aggregation.ReportRejected | flywheel_bids_tools/upload_bids.py:189-199 | The printed report and the remaining queue are what `Drain` specifies. |
| Aggregation.ValidateOnUnequalCells | flywheel_bids_tools/upload_bids.py:168-199 | The whole function's effect on the queue and its outcome equal `Aggregate` of the verdicts. |
| Aggregation.AggregateRaises | flywheel_bids_tools/upload_bids.py:179-184 | The run raises exactly when some verdict raises, and it raises the first such message. |
| Aggregation.AggregateValid | flywheel_bids_tools/upload_bids.py:186-187 | When nothing raises, the returned flag is true exactly when every change is accepted. |
| Aggregation.DrainOwn | flywheel_bids_tools/upload_bids.py:190-198 | When the queue holds just the rejection reasons, each printed block carries the reason of its own cell. |
| Aggregation.NoRejectNoReasons | flywheel_bids_tools/upload_bids.py:65-89 | Cells that are not rejected queue no messages. |
| Aggregation.AggregateReportsAlign | flywheel_bids_tools/upload_bids.py:188-199 | From an empty queue with some rejection, the report lists the rejected cells in order, each with its own reason, and empties the queue. |
| Aggregation.UploadGateIff | flywheel_bids_tools/upload_bids.py:248 | The upload goes ahead exactly when the queue was empty beforehand and every change is accepted. |
| UploadBids.ReadFlywheelCsv | flywheel_bids_tools/upload_bids.py:14-35 | A table is accepted, unchanged, exactly when its column set is the 18 required columns. Otherwise the format error is raised. |
| UploadBids.ChangeChecker | flywheel_bids_tools/upload_bids.py:38-121 | Raises `not recognised` exactly for the columns no branch knows. Every rejection carries one of the catalogued messages. |
| UploadBids.AcquisitionIdLocked | flywheel_bids_tools/upload_bids.py:116-119 | An edit to `acquisition.id` is always rejected. |
| UploadBids.RequiredColumnsRaising | flywheel_bids_tools/upload_bids.py:61-121 | Of the required columns, exactly `session.label` and `Run` make the checker raise. |
| UploadBids.ColumnCaseIgnored | flywheel_bids_tools/upload_bids.py:65-92 | Apart from `acquisition.id`, column names differing only in case get the same verdict. |
| UploadBids.StringFieldsAcceptTextOrEmpty | flywheel_bids_tools/upload_bids.py:84-89 | Free-text columns accept text or an emptied cell, and reject numbers. |
| UploadBids.AcceptedFilenameShape | flywheel_bids_tools/upload_bids.py:92-114 | An accepted file name starts `sub-` plus a letter or digit, and has a NIfTI extension. |
| UploadBids.FilenameChangeAccepted | flywheel_bids_tools/upload_bids.py:92-107 | Any anatomical name `sub-<label>[_ses-<label>]_<label>.nii[.gz]` is accepted in `Filename`. |
| UploadBids.GetUnequalCells | flywheel_bids_tools/upload_bids.py:124-165 | Returns the differing cells. The provenance log has one record per cell, holding its original and modified value, row and column, and the two values differ. |
| UploadBids.Uploads | flywheel_bids_tools/upload_bids.py:211-228 | One upload per changed cell: the row's acquisition id, the column name and the new value. |
| UploadBids.Run | flywheel_bids_tools/upload_bids.py:234-254 | A malformed table aborts with the format error, and tables of different shapes abort with the shape error. If any changed cell makes the checker raise, the run aborts with the message of the first one. Otherwise it uploads exactly the accepted changes when the queue was empty and every changed cell is accepted, and ends `Exiting` with nothing uploaded in every other case. |
| ValidateBidsChanges.Check | scripts/validate_bids_changes.py:34-104 | For a given free-text list, raises exactly for unknown columns. Every rejection carries a catalogued message. |
| ValidateBidsChanges.ChangeCheckerAsWritten | scripts/validate_bids_changes.py:57-59 | With the list as written (two names fused by the missing comma), the checker raises exactly for the columns that list does not know. |
| ValidateBidsChanges.ChangeChecker | scripts/validate_bids_changes.py:34-104 | With the intended list, the checker raises exactly for unknown columns. |
| ValidateBidsChanges.SubjectLabelRaisesAsWritten | scripts/validate_bids_changes.py:57-104 | As written, any edit to `subject.label` or `error_message` aborts the run. |
| ValidateBidsChanges.RequiredColumnsRecognised | scripts/validate_bids_changes.py:57-59 | With the intended list, no required column makes the checker raise. |
| ValidateBidsChanges.SubjectLabelTakesText | scripts/validate_bids_changes.py:80-85 | With the intended list, a subject label accepts exactly text. |
| ValidateBidsChanges.SessionLabelRule | scripts/validate_bids_changes.py:87-97 | A session label is accepted exactly when, lower-cased, it starts `sub-` plus a letter or digit. |
| ValidateBidsChanges.DiffersFromUploadChecker | scripts/validate_bids_changes.py:80-85 | This checker rejects an emptied free-text cell and takes any text as a file name, where the upload checker does the opposite. |
| ValidateBidsChanges.GetUnequalCells | scripts/validate_bids_changes.py:107-142 | Returns the differing cells, with a log record per cell whose values differ. |
| ValidateBidsChanges.Run | scripts/validate_bids_changes.py:179-192 | A malformed table aborts with the format error, and tables of different shapes abort with the shape error. If any change makes the checker raise, the run aborts with the message of the first one. Otherwise the changes are announced as ready exactly when the queue was empty and every change is accepted, and as not ready in every other case. |
| Utils.Split | flywheel_bids_tools/utils.py:16 | `split(',')` yields one piece more than there are commas, and no piece holds a comma. |
| Utils.SplitJoin | flywheel_bids_tools/utils.py:16 | Joining the pieces with `,` gives back the string. |
| Utils.SplitNoComma | flywheel_bids_tools/utils.py:16 | A string without commas splits into itself. |
| Utils.SplitWithPrefix | flywheel_bids_tools/utils.py:16 | A comma-free head followed by a comma splits off as the first piece. |
| Utils.LeadingSpace | flywheel_bids_tools/utils.py:16 | Counts exactly the white space at the start. |
| Utils.TrailingSpace | flywheel_bids_tools/utils.py:16 | Counts exactly the white space at the end. |
| Utils.Strip | flywheel_bids_tools/utils.py:16 | `strip()` returns a middle slice of the input that neither starts nor ends with white space. |
| Utils.StripUnpadded | flywheel_bids_tools/utils.py:16 | A string without surrounding white space is its own strip. |
| Utils.StripSpacePrefixed | flywheel_bids_tools/utils.py:16 | Stripping undoes the space the join puts after each comma. |
| Utils.RelistItem | flywheel_bids_tools/utils.py:14-18 | Text becomes one piece per comma-separated field, piece `i` being field `i` stripped of surrounding spaces, with no comma left; any other cell comes back unchanged. |
| Utils.StrLeTotalOrder | flywheel_bids_tools/utils.py:8 | The string order is total, transitive and antisymmetric. |
| Utils.SortLength | flywheel_bids_tools/utils.py:8 | Sorting keeps the number of names. |
| Utils.SortInPlace | flywheel_bids_tools/utils.py:8 | `ls.sort()` leaves the array holding the sorted, permuted contents. |
| Utils.UnlistItem | flywheel_bids_tools/utils.py:4-11 | A list argument is sorted in place, and the result is its elements joined by `, `. Anything else gives NaN. |
| Utils.UnlistOrder | flywheel_bids_tools/utils.py:8-9 | The joined names are in order and are a permutation of the input. |
| Utils.SpaceAll | flywheel_bids_tools/utils.py:9 | Puts the separator's space before each name. |
| Utils.SpaceAllCons | flywheel_bids_tools/utils.py:9 | Spacing a non-empty list spaces its head and then its tail. |
| Utils.SplitSpaced | flywheel_bids_tools/utils.py:16 | A leading space stays on the first piece. |
| Utils.SplitCommaSpace | flywheel_bids_tools/utils.py:9-16 | Splitting `head, rest` gives the head and the rest's pieces with their spaces. |
| Utils.SplitJoinSpaced | flywheel_bids_tools/utils.py:9-16 | Splitting names joined by `, ` gives the first name, then the others each with a leading space. |
| Utils.RelistPiece | flywheel_bids_tools/utils.py:9-16 | Each piece, once stripped, is the name it came from. |
| Utils.RelistUnlist | flywheel_bids_tools/utils.py:4-18 | Round trip: relisting the joined text of clean names gives back exactly those names. |
| Utils.RelistEmpty | flywheel_bids_tools/utils.py:9-16 | An empty list joins to `""`, which relists to `[""]`, not `[]`. |
| Utils.ReadFlywheelCsv | flywheel_bids_tools/utils.py:21-38 | Succeeds exactly when the required columns and `acquisition.id` are present. The result is the same rows, permuted and sorted by `acquisition.id`. |
| GroupQuery.ReadFlywheelCsv | flywheel_bids_tools/group_query.py:6-26 | A missing `acquisition.id` gives the format error. Succeeds exactly when `acquisition.id` and `acquisition.label` are present. The result is the same rows, permuted and sorted by that pair. |
| GroupQuery.Keys | flywheel_bids_tools/group_query.py:57 | Gives each row's grouping tuple. |
| GroupQuery.CumulativeIds | flywheel_bids_tools/group_query.py:57-59 | Gives one running count per row. |
| GroupQuery.RunningIds | flywheel_bids_tools/group_query.py:57-60 | The loop computes `(~duplicated).cumsum()`. |
| GroupQuery.KeptIds | flywheel_bids_tools/group_query.py:59-68 | The `j`-th first occurrence carries id `j + 1`. |
| GroupQuery.KeepFirst | flywheel_bids_tools/group_query.py:68 | The loop keeps exactly the first row of each key, in order. |
| GroupQuery.Stamped | flywheel_bids_tools/group_query.py:60 | Storing the ids keeps every row. |
| GroupQuery.Collapsed | flywheel_bids_tools/group_query.py:60-69 | One row per first occurrence, with every input column kept. |
| GroupQuery.Grouped | flywheel_bids_tools/group_query.py:54-70 | With the grouping columns read from `args.group`, the script fails exactly when the input cannot be read and sorted, or a grouping column is missing. |
| GroupQuery.GroupedAsWritten | flywheel_bids_tools/group_query.py:57 | As written, every run that reads its file stops with `AttributeError`, because the arguments hold `group`, not `groups`. |
| GroupQuery.Collapse | flywheel_bids_tools/group_query.py:57-69 | The imperative middle of the script computes `Collapsed`. |
| GroupQuery.Group | flywheel_bids_tools/group_query.py:54-70 | The whole script computes `Grouped`. |
| GroupQuery.StampedCellAt | flywheel_bids_tools/group_query.py:60 | After stamping, `group_id` holds the running count and every other cell is unchanged. |
| GroupQuery.StampedKeys | flywheel_bids_tools/group_query.py:57-60 | Stamping leaves the grouping tuples alone. |
| GroupQuery.CollapsedCellAt | flywheel_bids_tools/group_query.py:68-69 | Collapsed row `j` is the `j`-th first occurrence, with `groups` set. |
| GroupQuery.CollapsedSorted | flywheel_bids_tools/group_query.py:68-70 | Keeping first occurrences of a sorted table keeps it sorted. |
| GroupQuery.GroupedOk | flywheel_bids_tools/group_query.py:70 | The final sort moves nothing: the output is the collapsed sorted input. |
| GroupQuery.GroupedCell | flywheel_bids_tools/group_query.py:57-70 | Output row `j` is the first row of the `j`-th group, with `group_id = j + 1` and `groups` set to the sorted joined column names. |
| GroupQuery.GroupedRowKey | flywheel_bids_tools/group_query.py:68 | Output row `j` carries the `j`-th distinct tuple. |
| GroupQuery.GroupedRow | flywheel_bids_tools/group_query.py:57-70 | There is one output row per distinct tuple; row `j` has id `j + 1` and the `j`-th tuple. |
| GroupQuery.GroupedKeysDistinct | flywheel_bids_tools/group_query.py:68 | No two output rows share a grouping tuple. |
| GroupQuery.PermutedKeys | flywheel_bids_tools/group_query.py:25 | Permuting the rows keeps the set of tuples. |
| GroupQuery.SortedKeysSame | flywheel_bids_tools/group_query.py:25 | The sorted input holds the same tuples as the input. |
| GroupQuery.GroupedKeysCover | flywheel_bids_tools/group_query.py:68 | Every input tuple is represented by an output row. |
| GroupQuery.GroupedCount | flywheel_bids_tools/group_query.py:68 | The output has as many rows as there are distinct input tuples, and no more rows than the input. |
| GroupQuery.GroupedGroupsCell | flywheel_bids_tools/group_query.py:69 | Every `groups` cell holds the grouping columns sorted and joined, a permutation of them. |
| GroupQuery.GroupedSorted | flywheel_bids_tools/group_query.py:70 | The output is sorted by (`acquisition.id`, `acquisition.label`). |
| UngroupQuery.GroupingColumns | flywheel_bids_tools/ungroup_query.py:59 | Succeeds exactly when the edited file has a row and a `groups` column, and the first such cell is text. |
| UngroupQuery.GroupingColumnsRecovered | flywheel_bids_tools/ungroup_query.py:59 | A `groups` cell written by joining clean names gives back exactly those names. |
| UngroupQuery.SortedNamesClean | flywheel_bids_tools/group_query.py:69 | The sorted grouping columns are still a non-empty list of clean names. |
| UngroupQuery.IdsFor | flywheel_bids_tools/ungroup_query.py:71-79 | Gives one id per row. |
| UngroupQuery.AssignIds | flywheel_bids_tools/ungroup_query.py:74-79 | The loop over the groups computes `IdsFor` for the given group order. |
| UngroupQuery.IdsForConsistent | flywheel_bids_tools/ungroup_query.py:71-79 | Rows with the same tuple get the same id, and distinct ids mean distinct tuples. Ids lie in 1..number of groups. Under `groupby`'s order, a row has no id exactly when its tuple holds a NaN. |
| UngroupQuery.FirstAppearanceIds | flywheel_bids_tools/ungroup_query.py:74-79 | Numbering groups by first appearance gives a row id `g` exactly when its tuple is the `g`-th distinct one. |
| UngroupQuery.FirstAppearanceMatchesRunningCount | flywheel_bids_tools/group_query.py:57-60 | First-appearance ids equal the grouping script's running count at each kept row. |
| UngroupQuery.GroupbyOrderMisnumbers | flywheel_bids_tools/ungroup_query.py:71-79 | As written, sorted dictionary order numbers a group differently from the grouping script, and a NaN tuple gets no id. |
| UngroupQuery.Changes | flywheel_bids_tools/ungroup_query.py:85-89 | There is one change per differing cell: the row's `group_id`, the column name and the new value. |
| UngroupQuery.ChangeAtAsWritten | flywheel_bids_tools/ungroup_query.py:87-88 | As written, the key is the `group_id` of the row whose label is the edited position, while column and value come from the edited row. |
| UngroupQuery.LabelLookupMisroutes | flywheel_bids_tools/ungroup_query.py:87 | After a sort that swaps two rows, an edit to group 1 is keyed by group 2. |
| UngroupQuery.LabelLookupInFileOrder | flywheel_bids_tools/ungroup_query.py:87-88 | When the sort leaves the file order alone, the lookup by label and the lookup by position agree. |
| UngroupQuery.ChangeReachesEditedGroup | flywheel_bids_tools/ungroup_query.py:85-94 | An edit to a cell of the edited grouped file reaches exactly the rows carrying the edited row's own id. |
| UngroupQuery.CollectChanges | flywheel_bids_tools/ungroup_query.py:83-89 | The loop builds `Changes`. |
| UngroupQuery.ApplyChange | flywheel_bids_tools/ungroup_query.py:95 | An assignment keeps the rows, and adds the column if new. |
| UngroupQuery.ApplyChangeCellAt | flywheel_bids_tools/ungroup_query.py:95 | Rows of the change's group get the new value in the change's column; every other cell is unchanged. |
| UngroupQuery.ApplyAll | flywheel_bids_tools/ungroup_query.py:94-95 | Applying all changes keeps every row and column. |
| UngroupQuery.ApplyAllStep | flywheel_bids_tools/ungroup_query.py:94-95 | Applying one more change is one more assignment. |
| UngroupQuery.ApplyChanges | flywheel_bids_tools/ungroup_query.py:94-95 | The loop computes `ApplyAll`. |
| UngroupQuery.LastWrite | flywheel_bids_tools/ungroup_query.py:94-95 | Finds a value exactly when some change writes that column for that group. |
| UngroupQuery.ApplyAllCellAt | flywheel_bids_tools/ungroup_query.py:94-95 | Each cell ends up holding the last change to its column in its row's group, or its old value; `group_id` is untouched. |
| UngroupQuery.Labelled | flywheel_bids_tools/ungroup_query.py:69-79 | Numbering keeps the rows and adds only `group_id`. |
| UngroupQuery.Finish | flywheel_bids_tools/ungroup_query.py:94-98 | With the sort columns present the tail succeeds; the result lacks `group_id` and is sorted. |
| UngroupQuery.Prepare | flywheel_bids_tools/ungroup_query.py:58-87 | The reads and lookups succeed exactly when each file is well formed, the `groups` cell is text, the grouping columns exist in the original, the shapes agree, and `group_id` exists when anything changed. The results are what each step gives. |
| UngroupQuery.Ungrouped | flywheel_bids_tools/ungroup_query.py:58-98 | Fails exactly when the reads and lookups fail, with their error. Otherwise gives a table without `group_id`, sorted by the key. |
| UngroupQuery.Label | flywheel_bids_tools/ungroup_query.py:69-79 | The numbering step computes `Labelled`. |
| UngroupQuery.ReadInputs | flywheel_bids_tools/ungroup_query.py:58-87 | The reading steps compute `Prepare`. |
| UngroupQuery.Ungroup | flywheel_bids_tools/ungroup_query.py:27-100 | The whole script computes `Ungrouped`. |
| UngroupQuery.LabelledCellAt | flywheel_bids_tools/ungroup_query.py:69-78 | After numbering, `group_id` holds the row's id and every other cell is unchanged. |
| UngroupQuery.BlankKeys | flywheel_bids_tools/ungroup_query.py:69-71 | Adding the blank `group_id` column leaves the grouping tuples alone. |
| UngroupQuery.LabelledIds | flywheel_bids_tools/ungroup_query.py:71-79 | A row is numbered `g` exactly when its tuple is the `g`-th distinct tuple. |
| UngroupQuery.LabelledIdInRange | flywheel_bids_tools/ungroup_query.py:71-79 | Every row gets an id between 1 and the number of groups. |
| UngroupQuery.IdsAgreeWithGroupQuery | flywheel_bids_tools/ungroup_query.py:71-79 | A row of the original gets id `j + 1` exactly when grouped row `j` exists, carries id `j + 1` and has the same tuple. Every row gets one of the grouped ids. |
| UngroupQuery.UngroupedWithoutEdits | flywheel_bids_tools/ungroup_query.py:58-98 | With no edits, the script returns the sorted original. |
| UngroupQuery.FinishedCellAt | flywheel_bids_tools/ungroup_query.py:94-97 | After the changes and the drop, each cell holds the last change to its column in its group, or its old value. |
| UngroupQuery.LabelledSorted | flywheel_bids_tools/ungroup_query.py:69-79 | Numbering keeps a sorted table sorted. |
| UngroupQuery.UntouchedCell | flywheel_bids_tools/ungroup_query.py:94-97 | A column no change writes keeps its values. |
| UngroupQuery.FinishKeepsOrder | flywheel_bids_tools/ungroup_query.py:94-98 | When no change touches `group_id` or the sort columns, the final sort moves nothing. |
| UngroupQuery.UngroupedCell | flywheel_bids_tools/ungroup_query.py:58-98 | When no change touches `group_id` or the sort columns, output row `i` is original row `i`, each cell holding the last edit to its column in its group, or its old value. |
| QueryGears.WordsDisjoint | flywheel_bids_tools/query_gears.py:38-41 | No word reads both as true and as false. |
| QueryGears.Str2Bool | flywheel_bids_tools/query_gears.py:37-43 | Succeeds exactly for the listed words, in any case. The result is false exactly for the false words. Any other word gives `Boolean value expected.` |
| QueryGears.Str2BoolCaseInsensitive | flywheel_bids_tools/query_gears.py:38-40 | Spellings that differ only in case read alike. |
| QueryGears.Str2BoolOfLower | flywheel_bids_tools/query_gears.py:38-40 | Lower-casing first changes nothing. |

## Left out

- Reading and writing CSV files is not modelled. Each `read_flywheel_csv` is modelled as its column check and its sort applied to an already-parsed table. A header with repeated names is excluded (`Wf`).
- The provenance files written by `get_unequal_cells` are not modelled. Their file names carry the time of day, so the log is returned as a value instead.
- `upload_to_flywheel` (flywheel_bids_tools/upload_bids.py:202-231) talks to the Flywheel server, which is not modelled. The model computes the list of uploads it would send (`UploadBids.Uploads`).
- `print`, `sys.exit`, argument parsing and the progress messages are not modelled.
- Cells are text, integers or NaN. Floating-point values and pandas dtypes are not modelled. `str(x)` of an integer is its decimal digits, and of NaN is `nan`.
- Text is a sequence of characters. Lower-casing is ASCII only; Unicode case rules are not modelled.
- `sort_values` uses quicksort, which is not stable. The model sorts stably, so the order of rows with equal (`acquisition.id`, `acquisition.label`) keys is fixed here but unspecified in pandas.
- UngroupQuery.IdsFor: the order in which Python 2 iterates over the `groupby(...).groups` dictionary is hash order. It is not modelled. It is a parameter, constrained only to list each NaN-free tuple once (`GroupbyOrder`).
- GroupQuery.Grouped: reads the grouping columns from `args.group` (see Findings). As written, every run that reads its file stops at line 57 with `AttributeError`; `GroupQuery.GroupedAsWritten` models that.
- GroupQuery.Group: computes `Grouped`, so it too reads the grouping columns from `args.group` (see Findings).
- UngroupQuery.Ungrouped: numbers groups in order of first appearance rather than in dictionary order, and looks the edited row's `group_id` up by position rather than by index label (see Findings for both). So its ids agree with the grouping script's, and an edit reaches the edited row's own group, which the script as written does not guarantee.
- UngroupQuery.Ungroup: computes `Ungrouped`, with the same first-appearance numbering and positional lookup (see Findings).
- ValidateBidsChanges.Run: runs the corrected checker (see Findings). As written, an edit to `subject.label` or `error_message` raises.
- Utils.SortInPlace: Python's in-place sorting algorithm is not modelled. The sorted order is computed as a value (`Sorting.Sort`, an insertion sort proved sorted and a permutation) and written back into the array.
- UngroupQuery.Prepare: in the script, a missing `groups` column raises only at line 59, and a missing `group_id` only at line 87. The model reports them in that order, but does not tell apart exceptions that pandas raises for other reasons. One case comes out in a different order: when the first `groups` cell is not text (an emptied cell reads as NaN), `relist_item` returns it unchanged (utils.py:17-18), so the script reads the other two files (lines 62 and 65) and fails only at `groupby` on line 71. The model fails it at line 59 with `KeyError: groups`, before those reads, so a read error in the other files is not the one reported then.
- UngroupQuery.Ungroup: stores the ids before computing the differences, where the script computes them in the other order. The numbering cannot fail and does not read the grouped files, so the outcome is the same.
- `query_gears.py` is modelled only for `str2bool`. The rest of it queries the Flywheel server.
- The other scripts (`query_bids.py`, `bids_generator.py`, `autopopulate_bids_fields.py`, `run_gear.py`, `edit_bids_key.py`, `query_bids_validity.py`, `flywheel_to_heudiconv_wrapper.py`) are not part of this model.

## Findings

| source | as written | input that shows it | evidently intended | confidence | as-written member | corrected member |
|---|---|---|---|---|---|---|
| flywheel_bids_tools/ungroup_query.py:71-79 | Ids are assigned by iterating over the `groupby` dictionary, whose order is not the order of first appearance. Rows whose tuple holds a NaN are left out of `groupby` and get no id. | Sorted rows keyed `b` then `a`, with a dictionary order that lists `a` first: the `b` rows are numbered 2, while `group_query.py` gave them 1. A row keyed NaN gets no id, while `group_query.py` numbered it. | Number each group as `group_query.py` did, by first appearance in the sorted table, so that an edit to grouped row `j` reaches exactly the rows of that group. | not executed | UngroupQuery.GroupbyOrderMisnumbers | UngroupQuery.IdsAgreeWithGroupQuery |
| scripts/validate_bids_changes.py:57-58 | A missing comma fuses `'error_message'` and `'subject.label'` into one entry, `'error_messagesubject.label'`. | Any edit to `subject.label` or to `error_message` makes the checker raise `not recognised`, and the run aborts. | Two free-text entries, as in flywheel_bids_tools/upload_bids.py:61-62, so every required column is recognised. | not executed | ValidateBidsChanges.SubjectLabelRaisesAsWritten | ValidateBidsChanges.RequiredColumnsRecognised |
| flywheel_bids_tools/group_query.py:57 | `query_result.duplicated(args.groups)` reads an attribute that does not exist: the grouping columns are stored as `args.group` (line 47). | Any readable input file and any grouping columns: the script stops with `AttributeError` before grouping. | Read `args.group`, as lines 68-69 do, so the script writes one row per distinct grouping tuple. | not executed | GroupQuery.GroupedAsWritten | GroupQuery.GroupedRow |
| flywheel_bids_tools/ungroup_query.py:87 | `df_grouped_modified.loc[x[0], 'group_id']` looks a row up by index label, but `x[0]` is a position in the table that `read_flywheel_csv` has re-sorted. | A grouped file whose rows are out of (`acquisition.id`, `acquisition.label`) order, group 2 before group 1: an edit to group 1 is applied to group 2. | Look the row up by position, as `iloc` on line 88 does, so an edit reaches exactly the edited row's group. | not executed | UngroupQuery.LabelLookupMisroutes | UngroupQuery.ChangeReachesEditedGroup |
