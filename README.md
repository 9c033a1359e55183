# fast_inserter in Dafny

A model of `FastInserter::Base`, the bulk-insert engine of the `fast_inserter` Ruby gem, and proofs about it.

An inserter is built from a parameter hash. Building it does four things:

- it turns every value into a row tuple;
- it removes repeated rows when `unique` is set;
- it cuts the rows into groups of `group_size` (the default is `DEFAULT_GROUP_SIZE`, 1000);
- it settles the static, additional and variable columns.

`fast_insert` then handles the groups in order and writes one multi-row `INSERT` per group. Each tuple of that INSERT holds the static values, then the optional `created_at`/`updated_at` pair, then the additional values, then the row's own values. With `check_for_existing`, each group first runs a `SELECT`. That query is scoped by the static columns and matches the group's rows: an `IN` list when there is one variable column, and an `OR` of per-row conjunctions when there are several. The rows the query returns are subtracted from the group, and the INSERT is skipped when nothing is left.

The model has eight modules, one per file:

- `Optional`: the `Option` type.
- `Text`: `Array#join`.
- `Lists`: `uniq`, `in_groups_of(n, false)`, `flatten`, and the difference `a - b`.
- `OrderedHash`: a Ruby `Hash`, as an insertion-ordered list of pairs with `h[k] = v`.
- `Sql`: column values and records, plus the WHERE predicates the inserter writes, both as text and by the records they select.
- `Storage`: the database as a class. It holds a table of records and a log of the statements sent to it.
- `FastInserter`: the input shaping, the SQL rendering, the effect of one group and of a run, and the class `Base` with the source's methods.
- `InserterProperties`: theorems about groups and whole runs, with and without the existence check.

The class `Base` mutates what the Ruby object mutates: the memoised `@all_static_columns`, and the database it executes on. Its methods are proved against specification functions:

- `GroupEffect` says what one group does to the table and the log.
- `RunGroups` says what the first `n` groups do, stopping at the first group that raises.

Each group theorem is stated for any step function `step` that satisfies `IsGroupStep(step, su)`. Each run theorem is stated for `RunGroups(step, ...)` with such a `step`. An inserter's ghost field `groupStep` meets that condition for its own configuration: this is `Base.StepIsGroupEffect()`, which the constructor ensures. `Base.FastInsert` ensures that the table and the log end as `RunGroups(groupStep, ...)` says. So every run theorem applies to `FastInsert` with `su := Config()`.

## Model

| member | source | states |
|---|---|---|
| Text.JoinShape | lib/fast_inserter/fast_inserter_base.rb:95 | `Array#join`: no parts give the empty string; otherwise the text starts with the first part, ends with the last, and is as long as the parts plus one separator per neighbouring pair |
| Text.JoinConcat | lib/fast_inserter/fast_inserter_base.rb:101 | joining two non-empty lists of parts one after the other is joining each and putting one separator between them |
| Lists.Uniq | lib/fast_inserter/fast_inserter_base.rb:58 | `uniq!` keeps exactly the elements of the input, each once |
| Lists.UniqKeepsFirstOccurrenceOrder | lib/fast_inserter/fast_inserter_base.rb:58 | the survivors of `uniq!` appear in the order of their first occurrences in the input |
| Lists.UniqOfDistinct | lib/fast_inserter/fast_inserter_base.rb:58 | `uniq!` leaves a list without duplicates unchanged |
| Lists.InGroupsOf | lib/fast_inserter/fast_inserter_base.rb:60 | `in_groups_of(n, false)`: the groups concatenate back to the rows; each group holds between 1 and n rows; every group but the last holds exactly n |
| Lists.InGroupsOfCount | lib/fast_inserter/fast_inserter_base.rb:60 | the number of groups is the number of rows divided by n, rounded up |
| Lists.Flatten | lib/fast_inserter/fast_inserter_base.rb:105 | `flatten` of the rows: the rows' values one after another (FlattenMembership: a value is in it exactly when it is in some row) |
| Lists.FlattenMembership | lib/fast_inserter/fast_inserter_base.rb:105 | a value is in the flattened group exactly when it is in one of the group's rows |
| Lists.Difference | lib/fast_inserter/fast_inserter_base.rb:84 | `a - b` holds exactly the elements of `a` that are not in `b`, and is no longer than `a` |
| Lists.DifferenceAppend | lib/fast_inserter/fast_inserter_base.rb:84 | `a - b` works element by element: the difference of a concatenation is the concatenation of the differences, so the order of `a` is kept |
| OrderedHash.Store | lib/fast_inserter/fast_inserter_base.rb:168-169 | `h[k] = v`: an existing key keeps its place, a new key goes last, `k` reads back `v`, and every other key is unchanged |
| OrderedHash.StoreAllFresh | lib/fast_inserter/fast_inserter_base.rb:172-176 | storing pairs whose keys are all new appends them in order |
| Sql.AtomsOfMeaning | lib/fast_inserter/fast_inserter_base.rb:143-152 | the conjunction written for a hash holds of a record exactly when every key holds its value, a nil value matching NULL |
| Sql.ConjunctRendering | lib/fast_inserter/fast_inserter_base.rb:145-149 | a nil value renders as `key IS NULL` and never as `key = ...`; any other value renders as `key = <quoted value>` |
| Sql.ValuesHashToSql | lib/fast_inserter/fast_inserter_base.rb:143-152 | `values_hash_to_sql`: one conjunct per key in hash order, joined by ` AND ` (its conjuncts: ConjunctRendering; their meaning: AtomsOfMeaning) |
| Sql.SanitizeArray | lib/fast_inserter/fast_inserter_base.rb:105 | `sanitize_sql_array(['?', array])`: the quoted elements joined by `,`, and `quote(nil)` for an empty array |
| Storage.SelectRows | lib/fast_inserter/fast_inserter_base.rb:119 | a SELECT returns exactly the projections of the records its predicate selects |
| Storage.Database.Select | lib/fast_inserter/fast_inserter_base.rb:119 | executing a query logs its text; the database returns the selected rows, or raises when the text is not a valid query |
| Storage.Database.Insert | lib/fast_inserter/fast_inserter_base.rb:86-90 | executing an INSERT logs its text; the database accepts it exactly when the text parses (a table, no empty column name, no empty row) and it has tuples, no repeated column and every tuple fills every column, and then appends one record per tuple |
| FastInserter.ColumnValuesHash | lib/fast_inserter/fast_inserter_base.rb:133-141 | the hash's keys are the variable columns without repeats, in first-seen order |
| FastInserter.ColumnValuesHashZip | lib/fast_inserter/fast_inserter_base.rb:133-141 | with distinct variable columns the hash pairs each column with the value at its position, nil past the end |
| FastInserter.VariableColumnsOf | lib/fast_inserter/fast_inserter_base.rb:51 | `Array` of the `variable_columns` parameter when given, else of `variable_column`; nil gives no column |
| FastInserter.ToTuple | lib/fast_inserter/fast_inserter_base.rb:57 | `Array(value)`: nil gives an empty row, an array is the row itself, any other value a one-value row |
| FastInserter.TupledValues | lib/fast_inserter/fast_inserter_base.rb:57 | one row per value, in order (each by ToTuple) |
| FastInserter.ShapedValues | lib/fast_inserter/fast_inserter_base.rb:57-58 | the rows the groups are cut from hold exactly the tupled values; with `unique` no row repeats, and without it they are the tupled values themselves |
| FastInserter.GroupSize | lib/fast_inserter/fast_inserter_base.rb:59 | the `group_size` parameter, else the environment's value, else `DEFAULT_GROUP_SIZE` |
| FastInserter.StringifyValues | lib/fast_inserter/fast_inserter_base.rb:123-131 | `stringify_values` on array rows: one row per row, each value type-cast in place, so every row keeps its length |
| FastInserter.StaticColumnSet | lib/fast_inserter/fast_inserter_base.rb:162-180 | `all_static_columns` with one clock reading (its layout: StaticColumnSetLayout; its timestamps: StaticColumnSetTimestamps) |
| FastInserter.StaticColumnSetLayout | lib/fast_inserter/fast_inserter_base.rb:162-180 | when no key repeats, `all_static_columns` is the static columns, then `created_at` and `updated_at`, then the additional columns |
| FastInserter.StaticColumnSetTimestamps | lib/fast_inserter/fast_inserter_base.rb:166-170 | with timestamps on, `created_at` and `updated_at` hold the same single clock reading, unless an additional column overrides them |
| FastInserter.ExistingValuesSqlRendersWhere | lib/fast_inserter/fast_inserter_base.rb:94-110 | the existence query reads `SELECT <variable columns> FROM <table> WHERE `, then the static conjuncts, then ` AND ` and the group's filter |
| FastInserter.AnyOfRendering | lib/fast_inserter/fast_inserter_base.rb:97-103 | with several variable columns the filter is the parenthesised ` OR ` of one parenthesised conjunction per row |
| FastInserter.TupleAtomsSelect | lib/fast_inserter/fast_inserter_base.rb:98-100 | the conjunction written for one row holds of a record exactly when the record's variable columns equal that row |
| FastInserter.TupleFilterSelects | lib/fast_inserter/fast_inserter_base.rb:97-103 | with several variable columns a record passes the filter exactly when its variable-column tuple is one of the group's rows |
| FastInserter.InFilterSelects | lib/fast_inserter/fast_inserter_base.rb:104-107 | with one variable column a record passes the `IN` list exactly when its value is one of the group's rows, provided no row is nil |
| FastInserter.ExistenceQuerySelects | lib/fast_inserter/fast_inserter_base.rb:94-110 | the existence query selects exactly the records that hold the static values and whose variable-column tuple is one of the group's rows; additional columns and timestamps play no part |
| FastInserter.ExistingValuesSql | lib/fast_inserter/fast_inserter_base.rb:94-110 | `existing_values_sql`, as written (its shape: ExistingValuesSqlRendersWhere; the records it selects: ExistenceQuerySelects) |
| FastInserter.RowSqlAligned | lib/fast_inserter/fast_inserter_base.rb:182-196 | each tuple is the quoted static values followed by the row's quoted values, and it has one item per column whenever the row fills the variable columns |
| FastInserter.StaticValuesSql | lib/fast_inserter/fast_inserter_base.rb:185-188 | the quoted static values followed by `,`: it is empty exactly when there are no static columns, and otherwise ends in `,` |
| FastInserter.RowSql | lib/fast_inserter/fast_inserter_base.rb:190-193 | one parenthesised tuple: the static prefix, then the row's quoted values joined by `,` (RowSqlAligned) |
| FastInserter.InsertValuesSql | lib/fast_inserter/fast_inserter_base.rb:182-196 | `insert_values`: the tuples of the rows joined by `, ` |
| FastInserter.ColumnNamesSql | lib/fast_inserter/fast_inserter_base.rb:158-160 | `column_names`: the static-column keys, then the variable columns, joined by `, ` |
| FastInserter.InsertionSql | lib/fast_inserter/fast_inserter_base.rb:154-156 | `insertion_sql_for_group`: `INSERT INTO <table> (<column names>) VALUES <tuples>` |
| FastInserter.InsertGroup | lib/fast_inserter/fast_inserter_base.rb:89-90 | one executed INSERT: it succeeds only when its text parses (a table, no empty column name, no empty row) and the database stores its tuples, and then it appends one record per row; otherwise nothing changes |
| FastInserter.GroupEffect | lib/fast_inserter/fast_inserter_base.rb:81-92 | `fast_insert_group`: a group that raises changes no record, one that succeeds only appends, after at most two statements with the existence query first (what it appends: CheckedEffect, UncheckedGroupEffect) |
| FastInserter.RejectedQueryFails | lib/fast_inserter/fast_inserter_base.rb:95 | with the check on and no table, no static column, no variable column or an empty column name the query is malformed: the group raises and changes no record |
| FastInserter.RunGroups | lib/fast_inserter/fast_inserter_base.rb:65-77 | `fast_insert` up to group n: the groups in order, stopping at the first that raises, which is one of those n (RunGroupsStopsAtFailure, RunGroupsPrefix) |
| FastInserter.RunGroupsStopsAtFailure | lib/fast_inserter/fast_inserter_base.rb:68-70 | once a group has raised, the later groups change nothing |
| FastInserter.RunGroupsPrefix | lib/fast_inserter/fast_inserter_base.rb:68-70 | the first n groups run the same whatever groups come after them |
| FastInserter.Base.constructor | lib/fast_inserter/fast_inserter_base.rb:47-61 | the fields are the parameters; the variable columns come from `variable_columns`, else `variable_column`; the groups are `in_groups_of` the tupled (and, with `unique`, deduplicated) values, and they concatenate back to them; nothing is memoised yet |
| FastInserter.Base.AllStaticColumns | lib/fast_inserter/fast_inserter_base.rb:162-180 | the first call computes the static-column hash with its clock reading and memoises it; later calls return the memo |
| FastInserter.Base.VariableColumnValuesToHash | lib/fast_inserter/fast_inserter_base.rb:133-141 | the loop builds the hash that `ColumnValuesHash` specifies |
| FastInserter.Base.InsertValues | lib/fast_inserter/fast_inserter_base.rb:182-196 | the loop renders one parenthesised tuple per row, joined by `, ` |
| FastInserter.Base.InsertionSqlForGroup | lib/fast_inserter/fast_inserter_base.rb:154-160 | the INSERT text names the static-column keys, then the variable columns, and memoises the static columns |
| FastInserter.Base.ExistingValues | lib/fast_inserter/fast_inserter_base.rb:113-121 | sends the existence query and returns the normalised rows it selects, or reports that the database rejected it |
| FastInserter.Base.FastInsertGroup | lib/fast_inserter/fast_inserter_base.rb:81-92 | the table and the log change as `GroupEffect` says for this inserter; the static columns are memoised unless the query was rejected |
| FastInserter.Base.FastInsert | lib/fast_inserter/fast_inserter_base.rb:65-77 | nothing happens when there are no groups; otherwise each group runs once, in order, until one raises, and the table and the log end as `RunGroups` says |
| InserterProperties.Absent | lib/fast_inserter/fast_inserter_base.rb:84 | the absent rows are exactly the rows that no record holds under the static scope |
| InserterProperties.PresentGrows | lib/fast_inserter/fast_inserter_base.rb:84-86 | adding records never hides a present row |
| InserterProperties.AbsentIgnoresOtherScopes | lib/fast_inserter/fast_inserter_base.rb:94-95 | records with other static values never make a row present, so different scopes do not suppress each other |
| InserterProperties.StaticColumnSetIsChecked | lib/fast_inserter/fast_inserter_base.rb:158-180 | when no column is named twice and none is named by the empty string, the static-column hash the inserter builds starts with the static columns and gives an INSERT with distinct, non-empty columns |
| InserterProperties.InsertedRecordIsPresent | lib/fast_inserter/fast_inserter_base.rb:154-160 | the record an INSERT of a row creates holds every static value (those of `static_columns` among them) and has the row in the variable columns |
| InserterProperties.InsertedRecordHoldsStatic | lib/fast_inserter/fast_inserter_base.rb:154-160 | when no column of the INSERT repeats, the record of a row holds every value of `all_static_columns`, timestamps and additional columns included, and has the row in the variable columns |
| InserterProperties.InsertedHoldStatic | lib/fast_inserter/fast_inserter_base.rb:182-196 | every record an INSERT of fitting rows creates holds every value of `all_static_columns` |
| InserterProperties.StampedRecord | lib/fast_inserter/fast_inserter_base.rb:162-180 | a record holding `all_static_columns` holds the static and additional values and, with timestamps on, has `created_at` and `updated_at` equal to the one clock reading |
| InserterProperties.StampedRecords | lib/fast_inserter/fast_inserter_base.rb:162-180 | the same for every record of a list |
| InserterProperties.InsertedAt | lib/fast_inserter/fast_inserter_base.rb:190-193 | the k-th record an INSERT creates comes from the static values and the k-th row |
| InserterProperties.InsertedIsRecordsOf | lib/fast_inserter/fast_inserter_base.rb:182-196 | the records of fitting rows are exactly what the database makes of the INSERT's columns and tuples |
| InserterProperties.InsertedRowsArePresent | lib/fast_inserter/fast_inserter_base.rb:85-86 | after the INSERT every inserted row is present |
| InserterProperties.InsertedAppend | lib/fast_inserter/fast_inserter_base.rb:190-193 | inserting two lists of rows creates the records of both, in order |
| InserterProperties.InsertAcceptedFor | lib/fast_inserter/fast_inserter_base.rb:182-196 | the database accepts an INSERT of at least one fitting row when no column repeats |
| InserterProperties.ExistingOnlyIfPresent | lib/fast_inserter/fast_inserter_base.rb:113-121 | a row the existence query returns is present |
| InserterProperties.PresentOnlyIfExisting | lib/fast_inserter/fast_inserter_base.rb:113-121 | a present row of the group is returned by the existence query |
| InserterProperties.DifferenceIsAbsent | lib/fast_inserter/fast_inserter_base.rb:84 | subtracting exactly the present rows leaves the absent rows, in order and with repeats |
| InserterProperties.AbsentOfPresentRows | lib/fast_inserter/fast_inserter_base.rb:84-86 | nothing is absent when every row is present |
| InserterProperties.CheckedNonExisting | lib/fast_inserter/fast_inserter_base.rb:84 | `stringify_values(group) - existing_values(group)` is exactly the absent rows |
| InserterProperties.InsertGroupOfFittingRows | lib/fast_inserter/fast_inserter_base.rb:89-90 | one INSERT of fitting rows is accepted and appends their records |
| InserterProperties.CheckedEffect | lib/fast_inserter/fast_inserter_base.rb:82-87 | a checked group sends its SELECT, inserts exactly the absent rows in order, and sends no INSERT when none are absent |
| InserterProperties.CheckedGroupEffect | lib/fast_inserter/fast_inserter_base.rb:82-87 | the same, for any step that is `GroupEffect` |
| InserterProperties.CheckedGroupMakesRowsPresent | lib/fast_inserter/fast_inserter_base.rb:82-87 | after a checked group every one of its rows is present, and the earlier records are kept |
| InserterProperties.CheckedGroupOfPresentRows | lib/fast_inserter/fast_inserter_base.rb:82-87 | a checked group whose rows are all present changes no record |
| InserterProperties.CheckedRunMakesRowsPresent | lib/fast_inserter/fast_inserter_base.rb:65-87 | a checked run never raises, only appends, and leaves every row of every group present |
| InserterProperties.RerunOfPresentRows | lib/fast_inserter/fast_inserter_base.rb:65-87 | re-running groups whose rows are all present changes no record |
| InserterProperties.CheckedRunIsIdempotent | lib/fast_inserter/fast_inserter_base.rb:65-87 | with the check, running the same groups a second time changes no record, even when the second inserter reads the clock again |
| InserterProperties.CheckedGroupHoldsStatic | lib/fast_inserter/fast_inserter_base.rb:82-87 | a checked group succeeds, only appends, and every record it appends holds every value of `all_static_columns` |
| InserterProperties.CheckedRunRecordsHoldStatic | lib/fast_inserter/fast_inserter_base.rb:65-87 | a checked run never raises, only appends, and every record it appends holds every value of `all_static_columns` |
| InserterProperties.CheckedRunStampsRecords | lib/fast_inserter/fast_inserter_base.rb:65-87 | with the check, every record a run appends holds the static and additional values, and with timestamps on has `created_at` and `updated_at` equal to the clock reading the inserter memoised |
| InserterProperties.UncheckedGroupEffect | lib/fast_inserter/fast_inserter_base.rb:88-91 | without the check, a fitting group inserts all its rows with one INSERT |
| InserterProperties.UncheckedRunStep | lib/fast_inserter/fast_inserter_base.rb:68-70 | without the check, one more fitting group appends its records and its INSERT to the run |
| InserterProperties.UncheckedRunInsertsEveryRow | lib/fast_inserter/fast_inserter_base.rb:65-91 | without the check, with a table, a variable column and no empty column name, a run of fitting groups inserts every row, in order and with repeats, one INSERT per group |
| InserterProperties.UncheckedRunStampsRecords | lib/fast_inserter/fast_inserter_base.rb:65-91 | without the check, every record a run of fitting groups appends holds the static and additional values, and with timestamps on has `created_at` and `updated_at` equal to the clock reading the inserter memoised |
| InserterProperties.UncheckedRunStopsAtMisfit | lib/fast_inserter/fast_inserter_base.rb:65-91 | without the check, the first group with a row that does not fill the columns raises: the groups before it stay inserted and no later group runs |
| InserterProperties.UninsertableRunFails | lib/fast_inserter/fast_inserter_base.rb:88-91 | without the check and with no table, no variable column or an empty column name, a run stops at its first group after sending only that group's INSERT, and changes no record |
| InserterProperties.RejectedQueryRun | lib/fast_inserter/fast_inserter_base.rb:94-95 | with the check on and a malformed query, a run stops at its first group after sending only that group's query, and changes no record |

## Left out

- Statement execution: the database is an in-memory table plus a log. Transactions, connection errors, concurrency and the driver-specific result types (`Array`, `Mysql2::Result`, `PG::Result`) are not modelled. A group that raises changes no record, which is what the transaction around a checked group ensures.
- `sanitize_sql_array`: the escaping of one scalar is a parameter `quote`. An array argument renders as the quoted elements joined by `,`, and an empty array renders as `quote(Null)`.
- `type_cast` and `column_definitions`: these become one column-independent function `normalize`, applied to every value.
- `stringify_values` receives the rows as arrays. The hash-shaped branch for other drivers is not modelled.
- `Time.now` and `ENV['FAST_INSERTER_GROUP_SIZE']` are parameters: one clock reading per group, and an optional group size. Parsing a string with `Integer(...)` is not modelled.
- Base.constructor: a group size below 1 makes `in_groups_of` raise; the model requires a group size of at least 1 instead.
- Base.constructor: Ruby symbol keys and string keys are the same column here, and column names are plain strings.
- Cell values are `nil`, integers, strings, booleans and times; other Ruby objects (and arrays as cell values) are not modelled.
- ToTuple: a time given directly in `values` becomes a one-value row here, while Ruby's `Array(time)` splits it into the ten components of `Time#to_a`. Times are modelled only as cells of array rows and as static or additional values.
- A single-column existence check writes `IN (NULL)` for nil rows and never finds them, so those rows are inserted again on every run. The check theorems require that no row is nil in that case: InserterProperties.WellFormedRows.
- The check theorems require rows that `normalize` leaves unchanged, and that no column is named twice across the static, timestamp, additional and variable columns. An additional column that overrides a static column changes the stored scope, and the existence query would then no longer find the inserted rows.
- The code validates no parameter itself: a missing table or variable column, or a row of the wrong arity, is sent to the database, which rejects the statement. The model does the same. `DEFAULT_GROUP_SIZE` is 1000, as at lib/fast_inserter/fast_inserter_base.rb:45; the test at spec/fast_inserter_base_spec.rb:6 expects 2000.
- With the check on and an empty `static_columns` hash or no variable column, the code writes `WHERE  AND ...` or `SELECT  FROM`, which the database rejects. The model records this as a failing group: FastInserter.RejectedQueryFails. A missing table is a different case, described in the next two lines.
- RejectedQueryFails: `static_columns` left out (nil) is modelled as the empty hash. With the check on, Ruby then raises `NoMethodError` inside `values_hash_to_sql` (lib/fast_inserter/fast_inserter_base.rb:144) before anything is executed, while the model sends the malformed query to the database and logs it; in both no record changes. Without the check, nil and `{}` behave alike (lib/fast_inserter/fast_inserter_base.rb:164). The same holds for a missing or empty table name when the group has a non-empty row. Ruby works out `stringify_values(group)` before the query (lib/fast_inserter/fast_inserter_base.rb:84), and its type cast calls `column_definitions` (lib/fast_inserter/fast_inserter_base.rb:128, lib/fast_inserter/fast_inserter_base.rb:198-204), which asks the connection for the columns of the unnamed table and raises. So no SELECT is written or sent, while the model logs the malformed SELECT.
- RejectedQueryRun: for a missing or empty table name, or missing `static_columns`, Ruby's run raises in its first group before sending anything, while the model logs that group's query; in both the run stops at the first group and no record changes.
- Column names are checked only for being non-empty: the table has no schema, so a column the table lacks is accepted by the model, where a real database would reject the statement.
- The database holds the one table the inserter names: it rejects an empty table name, but a non-empty name of a table that does not exist is not modelled.
- An INSERT with an empty row is rejected: `(<static values>,)` has a dangling comma, and `INSERT INTO t () VALUES ()` is not accepted by PostgreSQL or SQLite. MySQL's acceptance of the latter is not modelled.
- The existence query for an empty group is taken as valid. With one variable column it reads `IN (NULL)`, which is valid SQL and selects nothing; with several it ends in `AND ()`, which a real database rejects. `in_groups_of` never makes an empty group, so `FastInsert` never sends one.
