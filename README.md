# hourglass in Dafny

A model of the storage core and command layer of *hourglass*, a command-line
time tracker written in Go, with proofs about it. An activity has an id, a name,
a project, tags, a start and an end. It is running while its end is the zero
timestamp. Activities are kept by one of two backends:

- a flat file with a fixed-width front-matter line (`# version: DDD, last-id:
  DDDDDDDDDDDDDDDDDDD\n`) followed by CSV records (`src/hourglass/csv.go`);
- a relational database reached through `database/sql` (`sql.go`, and the
  same statements in the `DB` type of `src/hourglass/database.go`).

The commands `start`, `stop`, `restart`, `edit`, `delete` and `status` run over
the relational backend. Three snapshots of the command layer are modelled
together: `commands.go`, `src/hourglass/commands/commands.go` and
`src/hourglass/commands.go`. A `Style` value tells apart how they print and
how they fail.

Files:

| file | module | models |
|---|---|---|
| wrappers.dfy | Wrappers | `Option`, `Result` |
| strings.dfy | Strings | `strings.Join`, splitting, substring search, Go's `<` on strings |
| decimal.dfy | Decimal | `strconv.FormatInt`, `%0<w>d`, `strconv.ParseInt`/`Atoi`, int64 ranges |
| database.dfy | Database | the error values and `DatabaseErrors` |
| activity.dfy | Activities | `Activity`, `IsRunning`, `Duration`, tag-list and timestamp text |
| frontmatter.dfy | FrontMatter | the front-matter line: its format, its regular expression, its width |
| csv.dfy | CsvBackend | the `Csv` store over a `DataFile` |
| sql.dfy | SqlBackend | the SQL statements over an `Engine` value, and the `Sql` store |
| totals.dfy | ProjectTotals | `projectDurationList`: sorted per-project totals |
| commands.dfy | Commands | the commands and the activity tables |

State that the Go code changes in place is held in classes:

- `Csv` keeps the cached version and last id. Its `DataFile` keeps the file's contents.
- `Sql` keeps the database state.
- `DatabaseErrors` and `ProjectDurationList` are the accumulators of the same names.

Every such method is specified against a function of the old state:

- `Save` for `Sql.SaveActivity`;
- `StopAll` for the stop loop;
- `WithFrontMatter` and `WithRecord` for the file writes;
- `MigrateAll` for the SQL migration.

The properties are then proved about those functions.

The following are parameters:

- the clock reading `now`, taken once per command. Go reads the clock at every `Duration` call of a running activity. So the activities of one table are timed at slightly different instants, and in `commands.go:346-347` a running activity's printed duration and the duration added to its total come from two readings and can differ. The model uses the one `now` for all of them (`Accumulate`, `Table`, `StatusCommand`);
- the day bounds of the status command;
- the date parser of `edit`;
- the row layout of the tables;
- the outcome of each operating-system call of the flat file (`Option<string>`, `Some` meaning the call failed with that message).

Timestamps are integers, with 0 standing for Go's zero `time.Time`.

The relational database is an `Engine` value: an optional `schema_info`
table of versions and an optional `activities` table of rows. Each SQL
statement the backend issues is a function from one `Engine` to an `Outcome`,
with the usual SQLite meaning, so these functions stand in for the database
rather than for hourglass code:

- `CreateSchemaInfo` and `CreateActivities` fail when the table exists, and otherwise add it empty;
- `InsertVersion`, `UpdateVersion`, `UpdateRow` and `DeleteRows` fail when their table is missing;
- otherwise `InsertVersion` appends a version, `UpdateVersion` sets every version, `UpdateRow` gives the rows with the activity's id its cells (`Replace`), and `DeleteRows` removes the rows with the id (`Without`) and counts them.

What the program does with these statements is stated about `MigrateAll`,
`Save` and `Delete` (for example `MigrateOutcome`, `KeyedReplace`,
`WithoutCount` and `DeleteOutcome` below). Likewise `Labels` is one label per
entry of the totals, and its promise is stated about
`ProjectDurationList.String`.

## Model

| member | source | states |
|---|---|---|
| Strings.SplitJoin | src/hourglass/database.go:30-32 | joining parts with a separator none of them contains and splitting the result gives the parts back |
| Strings.JoinSplit | src/hourglass/activity_test.go:47-73 | splitting a string and joining the parts again gives the string back |
| Strings.JoinSnoc | commands.go:187-201 | a join with one more part is the old join, the separator and the part; a first part stands alone |
| Strings.LessIrreflexive | commands.go:161-168 | Go's `<` on strings is irreflexive |
| Strings.LessTransitive | commands.go:161-168 | Go's `<` on strings is transitive |
| Strings.LessTotal | commands.go:161-168 | two different strings are ordered one way or the other |
| Strings.LessAsymmetric | commands.go:161-168 | no two strings are each below the other |
| Decimal.Wrap64 | src/hourglass/csv.go:143 | int64 addition wraps: the result is an int64 congruent to the sum modulo 2^64, and the sum itself when in range |
| Decimal.ParseInt | src/hourglass/csv.go:79 | a parse without error gives an int64; a syntax error gives 0; a range error gives the nearest int64 bound |
| Decimal.ParseFormatInt | src/hourglass/csv.go:145 | `ParseInt` of the `FormatInt` text of an int64 gives it back without error |
| Decimal.ParseFormatPadded | src/hourglass/csv.go:94 | the zero-padded text of a non-negative int64 is all digits and parses back to it |
| Decimal.FormatPaddedWidth | src/hourglass/csv.go:94 | a value below 10^w has a padded text of exactly w characters |
| Database.ErrorText | src/hourglass/database.go:30-32 | no messages give ""; messages without "; " are recovered by splitting the text at "; " |
| Database.AsError | src/hourglass/database.go:38-40 | the returned error is nil exactly when no message was collected, and its text is then the joined messages |
| Database.ErrorTextEmpty | src/hourglass/database.go:30-32 | with no empty message, the error text is empty exactly when nothing was collected |
| Database.DatabaseErrors.Append | src/hourglass/database.go:34-36 | the error's message is added after the earlier ones, which stay as they were |
| Database.DatabaseErrors.Error | src/hourglass/database.go:30-32 | the collected messages, in order, are what splitting the text at "; " gives |
| Database.DatabaseErrors.IsEmpty | src/hourglass/database.go:38-40 | empty exactly when the collector stands for no error |
| Activities.NewActivity | commands.go:64-67 | a new activity has id 0 and is running |
| Activities.DurationAgainstClock | src/hourglass/activity.go:13-18 | a stopped activity's duration is end minus start whatever the clock; a running one's grows with the clock |
| Activities.DurationOfOneHour | src/hourglass/activity_test.go:8-18 | a stopped one-hour interval has a one-hour duration |
| Activities.TagListRoundTrip | src/hourglass/activity_test.go:38-73 | tags with no ", " inside, other than the single empty tag, survive `TagList` then `SetTagList` |
| Activities.TagListOfSetTagList | src/hourglass/activity_test.go:47-73 | a stored tag string read with `SetTagList` and written with `TagList` is unchanged, so tags read back are stored unchanged |
| Activities.ParseTime | src/hourglass/csv.go:204-211 | a timestamp that parses is an int64 |
| Activities.ParseFormatTime | src/hourglass/csv.go:149-208 | a timestamp written to a record reads back as itself |
| FrontMatter.Parse | src/hourglass/csv.go:61-80 | a line is parsed exactly when the header pattern matches; the version then has no error and is below 1000; the id is a non-negative int64, and an id error is a range error at the int64 maximum |
| FrontMatter.EncodeParse | src/hourglass/csv.go:94 | a header of a version below 1000 and a non-negative int64 id is 45 bytes, its only newline is the last byte, and it parses back to both values |
| FrontMatter.EncodeWrappedIdOverruns | src/hourglass/csv.go:143-159 | the id after the int64 maximum wraps to the minimum, and its header is 46 bytes |
| CsvBackend.HeaderFillsSeekRegion | src/hourglass/csv.go:33-36 | a header that fits is exactly as long as the region `seekPastFrontMatter` skips |
| CsvBackend.WithFrontMatter | src/hourglass/csv.go:83-98 | writing the header at offset 0 keeps the file well formed and the records as they were |
| CsvBackend.ReadLine | src/hourglass/csv.go:61-80 | a line the header pattern does not match is bad front matter with the cache kept; a matching line gives its version and id, fitting a header, with an error exactly when ParseInt overflows |
| CsvBackend.ReadHeader | src/hourglass/csv.go:38-81 | an empty file is no error and changes nothing; a head without a newline is bad front matter when records follow and EOF otherwise, with the cache kept; otherwise the first line is read as `ReadLine` reads it; a successful read means the pattern matched; values that fit stay fitting |
| CsvBackend.ReadAfterWrite | src/hourglass/csv.go:38-98 | reading the front matter back gives exactly the values written, whatever the records and the cache |
| CsvBackend.WithRecord | src/hourglass/csv.go:100-117 | the record is appended after the others and the front matter is untouched |
| CsvBackend.RecordOf | src/hourglass/csv.go:143-150 | a saved record has six fields and its id field parses back to the id |
| CsvBackend.NextId | src/hourglass/csv.go:143 | an id is handed out exactly below the int64 maximum; it is the last id plus one, and from a non-negative last id its header fits with any three-digit version |
| CsvBackend.NextIdAsWritten | src/hourglass/csv.go:143 | as written the next id is an int64, the last id plus one below the maximum |
| CsvBackend.SaveAtMaxIdOverrunsHeader | src/hourglass/csv.go:141-160 | as written, a save at the int64 maximum id hands out the minimum and writes a 46-byte header |
| CsvBackend.SavedHeaderFits | src/hourglass/csv.go:159 | with the corrected id allocation the header written after a save always fits its 45 bytes |
| CsvBackend.MigratedFile | src/hourglass/csv.go:123-139 | migrating from version 0 appends the column names, and reading it back gives version 1 with last id 1 |
| CsvBackend.ReopenAfterMigrate | src/hourglass/csv.go:127 | a store reopened after migration starts ids at 2; the migrated store itself starts at 1 |
| CsvBackend.Decode | src/hourglass/csv.go:200-212 | a matching record gives an activity with the id sought, also when a timestamp fails to parse; the indexing panics exactly for fewer than five fields, or five whose start parses; no error means both timestamps parsed |
| CsvBackend.FiveFieldsBadStart | src/hourglass/csv.go:201-207 | a matching five-field record with an unparsable start gives the partial activity and the parse error, not a panic |
| CsvBackend.ScanFrom | src/hourglass/csv.go:181-216 | neither activity nor error exactly when every later record is passed over; otherwise the first record not passed over decides: a wrong width is a field-count error on its line, a non-integer id is ParseInt's error, and a match is decoded as `Decode` reads it; a found activity is the decode of the first record with the id sought, at least five fields wide |
| CsvBackend.FindIn | src/hourglass/csv.go:163-219 | nothing is found and nothing fails exactly when every data record after the column names is passed over; otherwise the first data record not passed over decides the result as in `ScanFrom`, and a found activity is the decode of the first record with the id |
| CsvBackend.ScanToLast | src/hourglass/csv.go:183-216 | records the scan skips can be stepped over to the last one |
| CsvBackend.ScanIgnoresAppended | src/hourglass/csv.go:183-216 | appending a record with another id does not change what the scan finds |
| CsvBackend.SaveKeepsConsistent | src/hourglass/csv.go:141-161 | appending the next id's record keeps ids positive, at most the last id, and ascending |
| CsvBackend.FindAfterSave | src/hourglass/csv.go:141-219 | the activity saved under the next id is found under it exactly as saved |
| CsvBackend.FindOtherAfterSave | src/hourglass/csv.go:141-219 | a save changes nothing a search for another id finds |
| CsvBackend.Csv.ReadFrontMatter | src/hourglass/csv.go:38-81 | the cache becomes what `ReadHeader` reads; a failed open returns its error and leaves the cache alone; a cache that fitted a header still does |
| CsvBackend.Csv.WriteFrontMatter | src/hourglass/csv.go:83-98 | the file becomes `WithFrontMatter` of the old contents; a failed open changes nothing |
| CsvBackend.Csv.WriteRecord | src/hourglass/csv.go:100-117 | the file becomes `WithRecord` of the old contents; a failed open changes nothing |
| CsvBackend.Csv.Version | src/hourglass/csv.go:119-121 | the cached version, never an error |
| CsvBackend.Csv.Migrate | src/hourglass/csv.go:123-139 | a current store is untouched; otherwise the header, then the column names, are written, and a failure returns its error with the version not advanced |
| CsvBackend.Csv.SaveActivity | src/hourglass/csv.go:141-161 | the record goes in under the last id plus one, which becomes the cached last id and the id of the saved activity, and the header is rewritten; a failed record write changes nothing; at the int64 maximum it refuses |
| CsvBackend.Csv.FindActivity | src/hourglass/csv.go:163-219 | the loop over the records returns what `FindIn` specifies; a failed open returns its error |
| CsvBackend.NewCsv | src/hourglass/csv.go:27-31 | a fresh, valid store over the file whose cache is read from its front matter, with the error of that read |
| SqlBackend.UpdateVersion | sql.go:102 | the update succeeds exactly when the table exists, sets the stored version, and leaves the activities alone |
| SqlBackend.Step | sql.go:87-96 | step 0 leaves a non-empty `schema_info`; other steps leave it alone |
| SqlBackend.MigrateFromOutcome | sql.go:86-108 | the loop ends without error exactly when the stored version reaches `SqlVersion`, and never lowers it |
| SqlBackend.MigrateOutcome | sql.go:72-119 | `Migrate` returns nil exactly when the driver is known and the stored version is current afterwards; the stored version never decreases |
| SqlBackend.MigrateCurrentIsNoop | sql.go:86 | a current database is not touched |
| SqlBackend.MigrateIdempotent | src/hourglass/database.go:88-135 | after a successful migration a second one does nothing |
| SqlBackend.MigrateNewDatabase | sql.go:86-108 | a new database ends with both tables, no activity, and version 2 |
| SqlBackend.MigrateStuckOnEmptySchemaInfo | sql.go:81-91 | an empty `schema_info` reads as version 0, so every migration fails on creating it again |
| SqlBackend.NextRowId | sql.go:150-152 | the id of an inserted row is positive, not yet used, and larger than every id present, so the rows stay in id order |
| SqlBackend.InsertRow | sql.go:133-137 | the insert succeeds exactly when the table exists; the row goes last under a fresh id; on failure nothing changes |
| SqlBackend.Without | sql.go:251 | the rows left are exactly those with another id |
| SqlBackend.ScanRow | sql.go:194-197 | a row that scans gives an activity with its id, start and end |
| SqlBackend.Selected | sql.go:182-184 | the rows a query returns are exactly the rows its clause selects |
| SqlBackend.CollectContents | sql.go:189-202 | the activities collected are those of the rows that scan; there is no error exactly when every row scans |
| SqlBackend.FoundExactly | sql.go:172-214 | every activity a query returns satisfies its clause, and every selected row that scans is returned |
| SqlBackend.FoundWithoutErrors | sql.go:172-214 | rows of the right kinds give no error and one activity per selected row |
| SqlBackend.FindOne | sql.go:216-225 | a result has the id sought, and there is a result exactly when there is no error |
| SqlBackend.FindOneNotFound | sql.go:216-225 | on a usable table the lookup fails with `ErrNotFound` exactly when no row has the id, and succeeds exactly when one does |
| SqlBackend.SelectedAbsent | sql.go:217 | a query by an id no row has returns nothing |
| SqlBackend.Save | sql.go:121-170 | an unsaved activity gets a fresh non-zero id; a saved one keeps its id; only the id changes; a failure changes nothing; ids stay keyed |
| SqlBackend.KeyedReplace | sql.go:139-143 | an update keeps every row's id |
| SqlBackend.SaveStoresRow | sql.go:121-170 | a save into a usable table succeeds, keeps it usable, and leaves the saved activity's row in it |
| SqlBackend.FindAfterSave | src/hourglass/database.go:137-241 | after a save the activity is found exactly as saved |
| SqlBackend.FindOtherAfterInsert | sql.go:133-137 | inserting an activity changes no other id's lookup |
| SqlBackend.SelectedAppend | sql.go:182-184 | an appended row is returned after the rows before it, when selected |
| SqlBackend.CollectWellTyped | sql.go:189-202 | rows of the right kinds scan, one activity per row, in order |
| SqlBackend.DeleteOutcome | sql.go:242-260 | on a usable table a delete succeeds exactly when a row has the id; a failure is `ErrNotFound` and changes nothing; afterwards a lookup of the id fails with `ErrNotFound` |
| SqlBackend.WithoutCount | sql.go:254-256 | in a keyed table deleting by id removes one row when one has the id, none otherwise |
| SqlBackend.WithoutKeyed | sql.go:251 | deleting keeps the ids keyed |
| SqlBackend.WithoutAbsent | sql.go:251 | deleting by an absent id leaves the rows as they were |
| SqlBackend.Sql.Version | sql.go:59-70 | the stored version, 0 when there is none; an unknown driver is an error |
| SqlBackend.Sql.Migrate | sql.go:72-119 | the state and error are those of `MigrateAll` |
| SqlBackend.Sql.SaveActivity | sql.go:121-170 | the state, the saved activity and the error are those of `Save` |
| SqlBackend.Sql.FindActivities | sql.go:172-214 | the activities and error are those of `Found` |
| SqlBackend.Sql.FindActivity | sql.go:216-225 | the result is that of `FindOne` |
| SqlBackend.Sql.FindAllActivities | sql.go:227-230 | every row that scans is returned |
| SqlBackend.Sql.FindRunningActivities | sql.go:232-235 | the result of the query, all of it running |
| SqlBackend.Sql.FindActivitiesBetween | sql.go:237-240 | the result of the query, all of it starting in [lower, upper) |
| SqlBackend.Sql.DeleteActivity | sql.go:242-260 | the state and error are those of `Delete` |
| SqlBackend.ScanRows | sql.go:189-202 | the loop over the rows collects what `Collect` specifies, activities and errors |
| ProjectTotals.BeforeIrreflexive | commands.go:161-168 | no name sorts before itself |
| ProjectTotals.BeforeAsymmetric | commands.go:161-168 | no two names sort before each other |
| ProjectTotals.BeforeTransitive | commands.go:161-168 | the order of `Less` is transitive, with "" after every other name |
| ProjectTotals.BeforeTotal | commands.go:161-168 | two different names are ordered one way or the other |
| ProjectTotals.SortedShape | commands.go:161-168 | in a sorted list names are pairwise distinct and "" can only be last |
| ProjectTotals.Insert | commands.go:180-182 | inserting a new name keeps the list sorted and holds exactly the old entries and the new one |
| ProjectTotals.InsertNames | commands.go:180-182 | inserting adds exactly the new name |
| ProjectTotals.InsertTotals | commands.go:180-182 | inserting changes only the new name's total |
| ProjectTotals.SortedUnique | commands.go:182 | two sorted arrangements of the same entries are equal |
| ProjectTotals.SortAfterAppend | src/hourglass/commands/commands.go:60-62 | whatever `append` then `sort.Sort` leaves, it is the list `Insert` computes |
| ProjectTotals.TotalAfterUpdate | commands.go:183-185 | adding to one entry changes only that name's total |
| ProjectTotals.ProjectDurationList.Add | commands.go:172-186 | the list stays sorted; the name's total grows by the duration and no other changes; a known name adds no entry, a new one exactly one |
| ProjectTotals.ProjectDurationList.String | src/hourglass/commands/commands.go:67-81 | the labels in list order joined by ", ", "" shown as "unsorted" |
| ProjectTotals.UnsortedShownLast | src/hourglass/commands/commands.go:41-48 | the unsorted total, when there is one, is shown last |
| Commands.ReportSnoc | src/hourglass/commands.go:76-83 | one more output line: after "\n" when lines are joined, followed by "\n" when each is terminated |
| Commands.Usage | src/hourglass/commands.go:28-31 | the missing-argument error is a syntax error in the joined style and a plain error in the terminated one |
| Commands.PartitionArgs | src/hourglass/commands.go:33-43 | the name is the first argument, the project the second or "", the tags all from the third or none |
| Commands.StartCommand | commands.go:43-73 | no arguments: the missing-name error and nothing saved; otherwise the state, error and output of saving the requested activity, reporting its new id |
| Commands.StartStoresArguments | src/hourglass/commands/commands.go:92-122 | a start on a usable table stores the name, project, tags, start now and a running end, found under the new id |
| Commands.StopCommand | commands.go:116-139 | with arguments nothing happens; a failed query returns its error; otherwise the state, error and output are those of `StopAll` over the running activities |
| Commands.StopEach | src/hourglass/commands.go:76-83 | the loop's state, error and output are those of `StopAll`, with one line per stopped activity |
| Commands.AppendStopLine | src/hourglass/commands/commands.go:146-150 | the output after one more stopped activity is the report with its line added |
| Commands.StopEndsAllRunning | src/hourglass/commands/commands.go:131-154 | stopping on a usable table succeeds, gives every running row the one end `now` and no other row any change, reports the ids in table order, and leaves nothing running |
| Commands.StopAll | commands.go:125-136 | the loop keeps the ids keyed and stops at most every running activity |
| Commands.StopStep | commands.go:126-127 | saving one running activity with its new end stops its row and no other |
| Commands.StopNext | commands.go:125-135 | one pass of the loop: on success one more id tracked and its line reported; on failure the error recorded and the ids and output unchanged |
| Commands.StopLoopStep | commands.go:126-130 | saving the next running activity either records its error and ends the loop or adds its id and goes on |
| Commands.StopLoopDone | commands.go:125-136 | when the loop ends, by error or by running out of activities, its ids and error are those of `StopAll` |
| Commands.StopSave | commands.go:126-127 | saving the k-th running activity after the first k were stopped succeeds and stops exactly its row as well |
| Commands.StopAllFrom | commands.go:127-137 | from any point the loop stops all remaining rows without error |
| Commands.StoppedRowsIdle | commands.go:116-139 | once every running row has a non-zero end the table is still usable and nothing is running |
| Commands.NoneSelected | sql.go:182-184 | a query selects nothing from rows none of which satisfy its clause |
| Commands.RestartCommand | commands.go:82-107 | a missing or non-integer id is a syntax error with no storage call; a failed lookup returns its error; otherwise the state and error of saving the copy, and the old and new ids |
| Commands.FoundTagsSurvive | commands.go:94-102 | tags read from the table are stored unchanged when saved again |
| Commands.RestartCopies | commands.go:96-105 | restarting adds a running copy started now under a new id and leaves the original as it was |
| Commands.Edited | commands.go:373-415 | only the named field changes and never the id; the edit fails exactly for an unknown field, a missing name or date, or a date that does not parse; a bare `project` clears it; `tags` takes the values |
| Commands.EditCommand | commands.go:358-426 | fewer than two arguments or a non-integer id is a syntax error with no save; a failed lookup or edit returns its error; otherwise the state and error of saving the edit, with "ok" |
| Commands.EditThenFind | commands.go:358-426 | an edit of an existing activity is saved and read back exactly as edited |
| Commands.DeleteCommand | commands.go:435-452 | a missing or non-integer id is a syntax error with no storage call; otherwise the state and error of `Delete`, reporting the id |
| Commands.Table | commands.go:342-353 | the header, one line per activity, each project's total the sum of its activities' durations, and the sorted totals when shown |
| Commands.Accumulate | commands.go:343-348 | the header followed by one line per activity, and totals naming every project of the activities with the sum of its durations |
| Commands.TableStep | commands.go:345-347 | one more activity adds its line to the rows, its project to the names, and its duration to its project's sum only |
| Commands.ActivityTable | commands.go:342-353 | the header of the mode and the rows, with the totals except in the "all" form |
| Commands.StatusCommand | src/hourglass/commands/commands.go:163-214 | a failed query returns its error; no activities give the fixed messages; otherwise the table, with the day's totals |
| Commands.StatusEmptyExactly | src/hourglass/commands/commands.go:180-181 | on a usable table the daily status shows "there have been no activities today" exactly when no row starts in the day |

## Left out

- I/O: opening, seeking, reading and writing files, with `bufio` and `encoding/csv`. The file is a value in `DataFile`. The result of each open or write is a parameter.
- The CSV record codec (quoting, escaping, the framing of records into lines). A record is a sequence of fields. A quoted newline would shift the line numbers that `ErrFieldCount` reports; this is not modelled.
- The `Flush` error of `writeRecord`, and `Close` errors of files and connections.
- Locking with `sync.RWMutex` and everything concurrent.
- RFC 3339 text of timestamps, time zones, `Local`/`UTC`, and the calendar. Timestamps are integers written in decimal. The day bounds of the status command are parameters.
- `time.Duration.String`: `DurationText` prints the integer instead.
- `Duration` is not wrapped to 64 bits.
- The table row layout (`formatActivity`, `Status()`) and the help texts. Row text is a parameter.
- The debug prints of `FindActivity`.
- The process entry point and the clock wrappers.
- `Valid()` of both backends: it only opens a connection or stats a file.
- `sql.Open`, the SQLite driver, `database/sql` conversions, `LastInsertId` and `RowsAffected` are modelled by the `Engine` functions:
  - a new row id is one past the largest in the table, as SQLite picks the id of an `INTEGER PRIMARY KEY` row when none is given. So a new id is larger than every id present. Keeping the rows in id order (`Keyed`) relies on this, and so does the claim that rows come back in id order. After the row with the largest id is deleted, its id can be handed out again, in SQLite as in the model;
  - rows come back in id order;
  - errors of `LastInsertId` and `RowsAffected` are not modelled;
  - a cell that does not convert gives "sql: Scan error".
- Running out of row ids is not modelled.
- `ListCommand.Run`:
  - its day and "all" forms are `ActivityTable` plus the same empty-result messages as the status command;
  - the week form groups by weekday, which needs the calendar.
- The commands run over the relational backend only: `Csv` has no `delete`, and without interfaces one command cannot be written against both stores.
- Go's pointer updates of activities (`a.Id = id`, `activity.End = end`) are modelled as returned values.
- CsvBackend.Csv.SaveActivity: requires the front matter to have been written. `hourglass.go` migrates before any save, and saving into a file without front matter would place the first record inside the region that readers skip.
- CsvBackend.Csv.WriteFrontMatter: requires a version of at most three digits and a non-negative int64 id, the values whose header is 45 bytes. The one way the code reaches other values is the id wrap-around under "## Findings".
- CsvBackend.FindAfterSave: assumes tags without ", " inside and timestamps in the int64 range. Other tags do not come back as they went in.
- Commands.StartStoresArguments: assumes tags without ", " inside, for the same reason.
- Commands.EditThenFind: assumes the same of new tags.
- `TagList` and `SetTagList` are called by the stores but defined in none of the modelled files. Here they are `strings.Join` and splitting on ", ", with "" split to no tags. That is the only behaviour `src/hourglass/activity/activity_test.go:38-73` pins down. Every tag round trip (`TagListRoundTrip`, `FoundTagsSurvive`, both `FindAfterSave` lemmas and those resting on them) holds for this definition only.
- `src/hourglass/csv_test.go:99-144` expects `SaveActivity` of an activity that already has an id to update its record. `src/hourglass/csv.go:141-161` always appends a new record under the next id, and `Csv.SaveActivity` follows the code. Saving an activity again gives a second record, and a search by the old id still finds the old record.
- A matching record that lacks a field the decoding reads makes Go's indexing panic (`src/hourglass/csv.go:201-208`). That is a record of fewer than five fields, or one of five fields whose start parses, so that the end field is read. The model returns this panic as the error value `IndexPanic` from `Decode`, `ScanFrom` and `Csv.FindActivity`. It does not model the unwinding of a panic, which ends the process instead of returning.
- The database never fails on its own. `Engine` statements fail only for an unknown driver and for a table that is missing or already exists. I/O errors, a read-only database file and SQLITE_BUSY are not modelled. So once `FindRunningActivities` has succeeded, every save of the stop loop succeeds, and the partial-output-on-error path of `commands.go:127-130` cannot be reached through `StopCommand` (it is still stated in `StopAll` and `StopNext`). The success halves of `StopEndsAllRunning`, `SaveStoresRow`, `RestartCopies`, `EditThenFind`, `DeleteOutcome` and `StatusEmptyExactly` hold for this fault-free engine only.
- `src/hourglass/commands_test.go:59`, `:105` and `:151` expect "started activity N", and `:214` expects "stopped activity 1\nstopped activity 2", all without a final newline. `src/hourglass/commands.go:51` and `:82` end every line with "\n", and the model's `Terminated` style follows the code.
- `src/hourglass/commands/commands_test.go:260-264` and `:276` expect the daily status table without a totals line. `src/hourglass/commands/commands.go:191` appends one, and `StatusCommand` follows the code.

The flat-file migration writes last-id 1 (`src/hourglass/csv.go:127`) while the cached id stays 0. So a store that saves right after migrating gives its first record id 1, but a reopened store begins at 2 (`CsvBackend.ReopenAfterMigrate`).

## Findings

| source | as written | input that shows it | evidently intended | confidence | as-written member | corrected member |
|---|---|---|---|---|---|---|
| src/hourglass/csv.go:143-159 | `id := db.lastId + 1` on an int64, then the header is written with `%019d` | a store whose last id is 9223372036854775807: the id wraps to -9223372036854775808 and the header becomes 46 bytes. It overwrites the first byte after the 45-byte region, and the next read no longer matches the header pattern | a save that cannot allocate an id fails and leaves the file alone | not executed | CsvBackend.SaveAtMaxIdOverrunsHeader | CsvBackend.Csv.SaveActivity |
