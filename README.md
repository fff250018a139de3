# SQLiteWrapper in Dafny

This project models the engine of SQLiteWrapper, an Android library that
wraps `SQLiteOpenHelper` so that a program declares its tables in code and
then saves, updates, deletes and queries records without writing SQL. The
engine lives in `SQLiteWrapper.java`. It has six parts, each a Dafny module:

| file | module | what it models |
|---|---|---|
| types.dfy | `Types` | `Option`, `Result` and a few facts about distinct sequences |
| strings.dfy | `Strings` | Java's `indexOf`, `trim`, `replace`, `TextUtils.join`, the private `substringBetween`, and `%d` formatting |
| schema.dfy | `Schema` | the `Table` builder as a class over its mutable lists and flags, with `Field`, `Index`, `Unique`, `Check` and `ForeignKey` as values |
| ddl.dfy | `Ddl` | `getCreateTableScript`, `getCreateIndexScript` and the order of `onCreate`'s scripts |
| codec.dfy | `Codec` | `getContentValues`, `fetchRow` and `fetchRecordLog` between Java values and SQLite cells |
| query.dfy | `Query` | the store (table name to `_id` to row), the soft-delete WHERE composition of every finder, `findById`, `findAll`, `findAllWithCriteria`, `selectQuery`, `findFirst`/`findLast`, `rawSelectQuery` and `count` |
| writes.dfy | `Writes` | the rows that `save`, `update` and `delete` write, and what the finders read back afterwards |
| migration.dfy | `Migration` | the three `MigrationStep` kinds, the migration file names, the `;`-terminated statement splitter `getSQLScript`, and the upgrade and downgrade planner |
| wrapper.dfy | `Wrapper` | the `SQLiteWrapper` object: its table registry, `onCreate`, `onUpgrade`, `onDowngrade`, and `save`/`update`/`delete` over the in-memory store; and `TableClass` records |

Imperative parts are methods with loops, each proved equal to a
specification function: the `Table` builders, `onCreate`, `onUpgrade`,
`onDowngrade`, `getContentValues`, `fetchRow`, `getSQLScript`, and the
writes. The properties are then proved as lemmas about those functions.

Some things are parameters of the model:
- The order in which a Java `HashMap` yields its keys is a sequence `keys` that lists every registered table once.
- The clock (`System.currentTimeMillis()`) is `now`.
- Whether SQLite accepts a statement is `accepted`. A rejected statement raises an `SQLException`, which the source catches.
- The SQL text a caller passes as a WHERE clause is a condition tree `Cond`. Its `Render` gives the text and its `Holds` gives its meaning.
- The plan of a `MigrationPlan` is a pair of functions from version pairs to optional step lists.
- The app's asset folder is a map from path to the file's lines.

## Model

| member | source | states |
|---|---|---|
| Schema.Table.constructor | SQLiteWrapper/src/main/java/com/ahsailabs/sqlitewrapper/SQLiteWrapper.java:994-996 | a new table has the given name, no field, index, unique, check or foreign key, and both flags off |
| Schema.Table.SetName | SQLiteWrapper/src/main/java/com/ahsailabs/sqlitewrapper/SQLiteWrapper.java:1006-1008 | only the name changes |
| Schema.Table.AddField | SQLiteWrapper/src/main/java/com/ahsailabs/sqlitewrapper/SQLiteWrapper.java:1014-1017 | appends the field at the end of the field list; every other list and flag is unchanged |
| Schema.Table.AddIntField | SQLiteWrapper/src/main/java/com/ahsailabs/sqlitewrapper/SQLiteWrapper.java:1027-1033 | appends one INTEGER field of Java type int with the given NOT NULL and UNIQUE flags; nothing else changes |
| Schema.Table.AddLongField | SQLiteWrapper/src/main/java/com/ahsailabs/sqlitewrapper/SQLiteWrapper.java:1040-1046 | appends one INTEGER field of Java type long; nothing else changes |
| Schema.Table.AddStringField | SQLiteWrapper/src/main/java/com/ahsailabs/sqlitewrapper/SQLiteWrapper.java:1053-1059 | appends one TEXT field of Java type String; nothing else changes |
| Schema.Table.AddFloatField | SQLiteWrapper/src/main/java/com/ahsailabs/sqlitewrapper/SQLiteWrapper.java:1067-1073 | appends one REAL field of Java type float; nothing else changes |
| Schema.Table.AddDoubleField | SQLiteWrapper/src/main/java/com/ahsailabs/sqlitewrapper/SQLiteWrapper.java:1080-1086 | appends one REAL field of Java type double; nothing else changes |
| Schema.Table.AddBooleanField | SQLiteWrapper/src/main/java/com/ahsailabs/sqlitewrapper/SQLiteWrapper.java:1093-1099 | appends one INTEGER field of Java type boolean; nothing else changes |
| Schema.Table.AddDateField | SQLiteWrapper/src/main/java/com/ahsailabs/sqlitewrapper/SQLiteWrapper.java:1106-1112 | appends one INTEGER field of Java type Date; nothing else changes |
| Schema.Table.EnableRecordLog | SQLiteWrapper/src/main/java/com/ahsailabs/sqlitewrapper/SQLiteWrapper.java:1120-1123 | turns the record log on and changes nothing else |
| Schema.Table.EnableSoftDelete | SQLiteWrapper/src/main/java/com/ahsailabs/sqlitewrapper/SQLiteWrapper.java:1125-1128 | turns soft delete on and changes nothing else |
| Schema.Table.AddIndex | SQLiteWrapper/src/main/java/com/ahsailabs/sqlitewrapper/SQLiteWrapper.java:1130-1133 | appends one index on this table's name over the given columns; nothing else changes |
| Schema.Table.AddUnique | SQLiteWrapper/src/main/java/com/ahsailabs/sqlitewrapper/SQLiteWrapper.java:1135-1138 | appends one unique constraint over the columns; nothing else changes |
| Schema.Table.AddCheck | SQLiteWrapper/src/main/java/com/ahsailabs/sqlitewrapper/SQLiteWrapper.java:1140-1143 | appends one check constraint; nothing else changes |
| Schema.Table.AddForeignKey | SQLiteWrapper/src/main/java/com/ahsailabs/sqlitewrapper/SQLiteWrapper.java:1146-1149 | appends one foreign key whose parent is the table name given, or the class's name when that is empty (lines 1225-1237); nothing else changes |
| Schema.FirstForeignKey | SQLiteWrapper/src/main/java/com/ahsailabs/sqlitewrapper/SQLiteWrapper.java:417-419 | answers the first foreign key whose child column is the column, and none exactly when no foreign key has that child |
| Ddl.ColumnClausesAt | SQLiteWrapper/src/main/java/com/ahsailabs/sqlitewrapper/SQLiteWrapper.java:189-219 | the column list has 1 + N + 2·recordLog + softDelete entries: `_id INTEGER PRIMARY KEY AUTOINCREMENT` first, then each field's definition in declaration order, then `_created_at` and `_updated_at` exactly with record log, then `_deleted_at` exactly with soft delete |
| Ddl.ConstraintClausesAt | SQLiteWrapper/src/main/java/com/ahsailabs/sqlitewrapper/SQLiteWrapper.java:221-238 | after the columns come one `UNIQUE(...)` per unique, then one `CHECK(...)` per check, then one `FOREIGN KEY` clause per foreign key, each group in list order |
| Ddl.CreateTableScriptLayout | SQLiteWrapper/src/main/java/com/ahsailabs/sqlitewrapper/SQLiteWrapper.java:186-243 | the script is `CREATE TABLE <name> (`, the column and constraint clauses joined by commas, and one closing `)` |
| Ddl.CreateTableScript | SQLiteWrapper/src/main/java/com/ahsailabs/sqlitewrapper/SQLiteWrapper.java:186-243 | specified by `CreateTableScriptLayout`, `ColumnClausesAt` and `ConstraintClausesAt` |
| Ddl.IndexName | SQLiteWrapper/src/main/java/com/ahsailabs/sqlitewrapper/SQLiteWrapper.java:177-178 | specified by `NameParts`, `IndexNameInjective` and `IndexNamesCanCollide` |
| Ddl.CreateIndexScript | SQLiteWrapper/src/main/java/com/ahsailabs/sqlitewrapper/SQLiteWrapper.java:173-183 | `CREATE INDEX <IndexName> ON <table> (<columns>)`; its name is specified by `NameParts` and `IndexNameInjective` |
| Ddl.IndexNameInjective | SQLiteWrapper/src/main/java/com/ahsailabs/sqlitewrapper/SQLiteWrapper.java:177-178 | when no table or column name holds `_`, two indexes with the same `idx_<table>_<cols>` name are the same index |
| Ddl.NameParts | SQLiteWrapper/src/main/java/com/ahsailabs/sqlitewrapper/SQLiteWrapper.java:177-178 | splitting an index name at `_` gives back `idx`, the table name and the columns |
| Ddl.IndexNamesCanCollide | SQLiteWrapper/src/main/java/com/ahsailabs/sqlitewrapper/SQLiteWrapper.java:177-178 | with `_` in names, the index `a_b(c)` and the index `a(b, c)` get the same name |
| Ddl.TableIndexesIn | SQLiteWrapper/src/main/java/com/ahsailabs/sqlitewrapper/SQLiteWrapper.java:145 | an index is among the collected table indexes exactly when one of the visited tables declares it |
| Ddl.TableScriptsCover | SQLiteWrapper/src/main/java/com/ahsailabs/sqlitewrapper/SQLiteWrapper.java:138-147 | every registered table's CREATE TABLE script is emitted, at the position of its key |
| Ddl.TableIndexesCover | SQLiteWrapper/src/main/java/com/ahsailabs/sqlitewrapper/SQLiteWrapper.java:138-147 | the collected table indexes are exactly those the registered tables declare |
| Ddl.KeyOrderCard | SQLiteWrapper/src/main/java/com/ahsailabs/sqlitewrapper/SQLiteWrapper.java:138 | a key order lists as many keys as the table map holds |
| Ddl.CreateScriptsLayout | SQLiteWrapper/src/main/java/com/ahsailabs/sqlitewrapper/SQLiteWrapper.java:131-160 | `onCreate` emits one script per table in key order, then one per wrapper index in order, then one per table index, and nothing else |
| Ddl.CreateScripts | SQLiteWrapper/src/main/java/com/ahsailabs/sqlitewrapper/SQLiteWrapper.java:131-160 | specified by `CreateScriptsLayout`, `TableScriptsCover` and `TableIndexesCover` |
| Codec.ToInt32 | SQLiteWrapper/src/main/java/com/ahsailabs/sqlitewrapper/SQLiteWrapper.java:412 | `getInt` of a stored integer is a 32-bit value congruent to it modulo 2^32, and equal to it when it fits |
| Codec.Encode | SQLiteWrapper/src/main/java/com/ahsailabs/sqlitewrapper/SQLiteWrapper.java:343-389 | every column in the encoded values is the name of some field |
| Codec.GetContentValues | SQLiteWrapper/src/main/java/com/ahsailabs/sqlitewrapper/SQLiteWrapper.java:343-389 | the loop's values are the encoding of the record's value list |
| Codec.EncodeAt | SQLiteWrapper/src/main/java/com/ahsailabs/sqlitewrapper/SQLiteWrapper.java:348-386 | with distinct field names, field i's column is present exactly when its value encodes to a cell, and then holds that cell |
| Codec.NullIsOmitted | SQLiteWrapper/src/main/java/com/ahsailabs/sqlitewrapper/SQLiteWrapper.java:353 | a null value leaves its column out of the values |
| Codec.EncodeFieldFits | SQLiteWrapper/src/main/java/com/ahsailabs/sqlitewrapper/SQLiteWrapper.java:355-385 | an encoded cell is of the field's storage class |
| Codec.EncodeFits | SQLiteWrapper/src/main/java/com/ahsailabs/sqlitewrapper/SQLiteWrapper.java:343-389 | every encoded column holds a cell of its field's storage class |
| Codec.EncodeField | SQLiteWrapper/src/main/java/com/ahsailabs/sqlitewrapper/SQLiteWrapper.java:355-385 | specified by `EncodeFieldFits`, `NullIsOmitted` and `DecodeEncodeField` |
| Codec.DecodeField | SQLiteWrapper/src/main/java/com/ahsailabs/sqlitewrapper/SQLiteWrapper.java:406-449 | decoding answers a value exactly for the storage class and Java type combinations the codec handles |
| Codec.Fetch | SQLiteWrapper/src/main/java/com/ahsailabs/sqlitewrapper/SQLiteWrapper.java:392-453 | at most one value per field |
| Codec.FetchRow | SQLiteWrapper/src/main/java/com/ahsailabs/sqlitewrapper/SQLiteWrapper.java:392-453 | the loop's list is the decoding of the row |
| Codec.FetchAt | SQLiteWrapper/src/main/java/com/ahsailabs/sqlitewrapper/SQLiteWrapper.java:403-451 | when every field is handled, one value per field, in order, each the decoding of that field's cell |
| Codec.DecodeEncodeField | SQLiteWrapper/src/main/java/com/ahsailabs/sqlitewrapper/SQLiteWrapper.java:343-453 | decoding a field's encoded value gives the value back |
| Codec.DecodeEncode | SQLiteWrapper/src/main/java/com/ahsailabs/sqlitewrapper/SQLiteWrapper.java:343-453 | decoding the encoding of a value list gives the list back, for string, int, long, boolean, date and referenced records |
| Codec.FetchRecordLog | SQLiteWrapper/src/main/java/com/ahsailabs/sqlitewrapper/SQLiteWrapper.java:456-470 | without record log the timestamps are untouched; with it, each non-null timestamp column sets the matching field and a null one leaves it |
| Query.SelectSelection | SQLiteWrapper/src/main/java/com/ahsailabs/sqlitewrapper/SQLiteWrapper.java:829-835 | a table without soft delete keeps the selection; a soft-delete table always gets a non-empty one |
| Query.SelectSelectionSql | SQLiteWrapper/src/main/java/com/ahsailabs/sqlitewrapper/SQLiteWrapper.java:829-835 | the soft-delete selection text is `_deleted_at IS NULL` for an empty selection and `(s) AND _deleted_at IS NULL` otherwise |
| Query.SelectSelectionMeaning | SQLiteWrapper/src/main/java/com/ahsailabs/sqlitewrapper/SQLiteWrapper.java:829-835 | a row matches the composed selection exactly when it matches the caller's and is visible |
| Query.FindByIdWhere | SQLiteWrapper/src/main/java/com/ahsailabs/sqlitewrapper/SQLiteWrapper.java:642-646 | `findById`'s condition holds exactly for the row with that `_id` when visible |
| Query.FindByIdSql | SQLiteWrapper/src/main/java/com/ahsailabs/sqlitewrapper/SQLiteWrapper.java:642-646 | its text is `_id=?`, plus ` AND _deleted_at IS NULL` on a soft-delete table |
| Query.FindAllWhere | SQLiteWrapper/src/main/java/com/ahsailabs/sqlitewrapper/SQLiteWrapper.java:690-694 | `findAll` has a WHERE clause exactly on a soft-delete table, and selects exactly the visible rows |
| Query.CriteriaWhere | SQLiteWrapper/src/main/java/com/ahsailabs/sqlitewrapper/SQLiteWrapper.java:759-763 | `findAllWithCriteria`'s condition holds exactly when the criteria hold and the row is visible; null criteria hold nowhere |
| Query.CriteriaWhereSql | SQLiteWrapper/src/main/java/com/ahsailabs/sqlitewrapper/SQLiteWrapper.java:759-763 | its text is `(criteria)`, or `(null)`, plus ` AND _deleted_at IS NULL` on a soft-delete table |
| Query.Min | SQLiteWrapper/src/main/java/com/ahsailabs/sqlitewrapper/SQLiteWrapper.java:837 | the least element of a non-empty set |
| Query.AscendingSpec | SQLiteWrapper/src/main/java/com/ahsailabs/sqlitewrapper/SQLiteWrapper.java:837 | ids listed in `_id` order hold every key once, increasing |
| Query.MatchingSpec | SQLiteWrapper/src/main/java/com/ahsailabs/sqlitewrapper/SQLiteWrapper.java:837 | the filtered list holds exactly the matching ids and stays increasing |
| Query.MatchingIdsSpec | SQLiteWrapper/src/main/java/com/ahsailabs/sqlitewrapper/SQLiteWrapper.java:837 | the matching ids, increasing; none exactly when no row matches |
| Query.ReverseSpec | SQLiteWrapper/src/main/java/com/ahsailabs/sqlitewrapper/SQLiteWrapper.java:837 | reversing puts element i at the mirror position |
| Query.SelectIdsIn | SQLiteWrapper/src/main/java/com/ahsailabs/sqlitewrapper/SQLiteWrapper.java:837 | a query answers only rows that match its selection, whatever the order and limit |
| Query.SelectIdsAll | SQLiteWrapper/src/main/java/com/ahsailabs/sqlitewrapper/SQLiteWrapper.java:837 | without DESC or a limit, a query answers exactly the matching rows, in ascending `_id` (the order taken for a query without `ORDER BY`) |
| Query.FirstMatching | SQLiteWrapper/src/main/java/com/ahsailabs/sqlitewrapper/SQLiteWrapper.java:731-733 | `ORDER BY _id ASC LIMIT 1` answers the least matching id, and nothing exactly when no row matches |
| Query.LastMatching | SQLiteWrapper/src/main/java/com/ahsailabs/sqlitewrapper/SQLiteWrapper.java:740-742 | `ORDER BY _id DESC LIMIT 1` answers the greatest matching id, and nothing exactly when no row matches |
| Query.SelectedMeaning | SQLiteWrapper/src/main/java/com/ahsailabs/sqlitewrapper/SQLiteWrapper.java:817-837 | `selectQuery` selects exactly the visible rows that match the caller's selection |
| Query.ParentId | SQLiteWrapper/src/main/java/com/ahsailabs/sqlitewrapper/SQLiteWrapper.java:413-422 | specified by `ParentIdIsFirst` |
| Query.ParentIdIsFirst | SQLiteWrapper/src/main/java/com/ahsailabs/sqlitewrapper/SQLiteWrapper.java:417-422 | a foreign-key column resolves to the least visible parent row whose parent column holds the value, and to none exactly when no such row exists |
| Query.KnownParentsReadable | SQLiteWrapper/src/main/java/com/ahsailabs/sqlitewrapper/SQLiteWrapper.java:417-422 | when every foreign key of a table names a registered parent table, every row of it reads without the exception `selectQuery` throws for a missing `Table` (line 827) |
| Query.ReadRecord | SQLiteWrapper/src/main/java/com/ahsailabs/sqlitewrapper/SQLiteWrapper.java:888-894 | a record read from an answered row carries the answered `_id`, at most one value per field, exactly one per field (the decoding of its cell) when every field is handled; with record log each non-null timestamp column sets its timestamp, a null one leaves it unset, and without record log no timestamp is set |
| Query.FetchRecord | SQLiteWrapper/src/main/java/com/ahsailabs/sqlitewrapper/SQLiteWrapper.java:704-710 | a record read from a row carries the row's `_id`, at most one value per field, exactly one per field (the decoding of its cell) when every field is handled, and no timestamps without record log |
| Query.FetchAll | SQLiteWrapper/src/main/java/com/ahsailabs/sqlitewrapper/SQLiteWrapper.java:700-715 | one record per listed id, each the read of its row |
| Query.FetchAllIds | SQLiteWrapper/src/main/java/com/ahsailabs/sqlitewrapper/SQLiteWrapper.java:700-715 | the records answered carry the ids asked for, in order |
| Query.ReadAllFails | SQLiteWrapper/src/main/java/com/ahsailabs/sqlitewrapper/SQLiteWrapper.java:700-715 | the cursor loop fails exactly when one listed row has a parent in an unregistered table, and the failure is that one |
| Query.ReadMatchingFails | SQLiteWrapper/src/main/java/com/ahsailabs/sqlitewrapper/SQLiteWrapper.java:700-715 | reading the matching rows fails exactly when a matching row does not read |
| Query.ReadMatchingAnswers | SQLiteWrapper/src/main/java/com/ahsailabs/sqlitewrapper/SQLiteWrapper.java:700-715 | reading the matching rows that read answers one record per matching row, read from it, in ascending `_id` |
| Query.ReadMatchingSpec | SQLiteWrapper/src/main/java/com/ahsailabs/sqlitewrapper/SQLiteWrapper.java:700-715 | both halves together: the failure condition and the records answered |
| Query.SelectQuery | SQLiteWrapper/src/main/java/com/ahsailabs/sqlitewrapper/SQLiteWrapper.java:817-869 | fails exactly when a row the ordered, limited selection picks does not read, and then with the unregistered parent; otherwise answers one record per picked id, in the asked order, each the `FetchRecord` of that stored row |
| Query.FindAllVisible | SQLiteWrapper/src/main/java/com/ahsailabs/sqlitewrapper/SQLiteWrapper.java:680-729 | `findAll` fails exactly when some visible row has a foreign-key value whose parent table is not registered; otherwise it answers exactly the visible rows, in ascending `_id`, each read through `fetchRow` and `fetchRecordLog` |
| Query.FindAllWithCriteria | SQLiteWrapper/src/main/java/com/ahsailabs/sqlitewrapper/SQLiteWrapper.java:749-796 | answers `null` (`SqlError`) exactly when the criteria render as empty text, which makes `WHERE ()` malformed; any other failure is an unregistered parent table |
| Query.FindAllWithCriteriaMeaning | SQLiteWrapper/src/main/java/com/ahsailabs/sqlitewrapper/SQLiteWrapper.java:749-796 | for a well-formed statement: fails exactly when a selected visible row has a foreign-key value whose parent table is not registered; otherwise answers exactly the visible rows the criteria hold for, in ascending `_id` |
| Query.FindAll | SQLiteWrapper/src/main/java/com/ahsailabs/sqlitewrapper/SQLiteWrapper.java:680-729 | specified by `FindAllVisible`: the visible rows in ascending `_id`, or the unregistered-parent failure |
| Query.NullCriteriaSelectsNothing | SQLiteWrapper/src/main/java/com/ahsailabs/sqlitewrapper/SQLiteWrapper.java:759 | null criteria answer no row |
| Query.FindById | SQLiteWrapper/src/main/java/com/ahsailabs/sqlitewrapper/SQLiteWrapper.java:633-676 | the source as written: fails on the empty cursor exactly when the row is missing or deleted; fails on an unregistered parent table exactly when the row is visible but does not read; otherwise the record read from the row |
| Query.FindByIdOrNull | SQLiteWrapper/src/main/java/com/ahsailabs/sqlitewrapper/SQLiteWrapper.java:633-676 | the corrected finder: null exactly when the row is missing or deleted; fails exactly when the visible row has a parent in an unregistered table; otherwise the record read from the row |
| Query.FindByIdMissingFails | SQLiteWrapper/src/main/java/com/ahsailabs/sqlitewrapper/SQLiteWrapper.java:650-658 | on an empty store, `findById` as written fails where the corrected finder answers null |
| Query.PickFirst | SQLiteWrapper/src/main/java/com/ahsailabs/sqlitewrapper/SQLiteWrapper.java:734-737 | null exactly for an empty list, otherwise its first element |
| Query.PickLast | SQLiteWrapper/src/main/java/com/ahsailabs/sqlitewrapper/SQLiteWrapper.java:743-746 | null exactly for an empty list, otherwise its last element |
| Query.PickedRead | SQLiteWrapper/src/main/java/com/ahsailabs/sqlitewrapper/SQLiteWrapper.java:798-814 | with limit 1 at most one row is picked and read; the query fails exactly when that row does not read, and otherwise answers its record alone |
| Query.FindFirstWithCriteria | SQLiteWrapper/src/main/java/com/ahsailabs/sqlitewrapper/SQLiteWrapper.java:798-805 | specified by `FindFirstIsLeast` |
| Query.FindLastWithCriteria | SQLiteWrapper/src/main/java/com/ahsailabs/sqlitewrapper/SQLiteWrapper.java:807-814 | specified by `FindLastIsGreatest` |
| Query.FindFirstIsLeast | SQLiteWrapper/src/main/java/com/ahsailabs/sqlitewrapper/SQLiteWrapper.java:798-805 | `findFirstWithCriteria` answers the selected visible row with the least `_id`, and null exactly when there is none; it fails exactly when that row has a parent in an unregistered table |
| Query.FindLastIsGreatest | SQLiteWrapper/src/main/java/com/ahsailabs/sqlitewrapper/SQLiteWrapper.java:807-814 | `findLastWithCriteria` answers the selected visible row with the greatest `_id`, and null exactly when there is none; it fails exactly when that row has a parent in an unregistered table |
| Query.FindFirst | SQLiteWrapper/src/main/java/com/ahsailabs/sqlitewrapper/SQLiteWrapper.java:731-738 | `findFirst`: null exactly when no row is visible; otherwise the answer concerns the visible row with the least `_id`. The full statement (the record read, or the unregistered-parent failure) is `FindFirstIsLeast` with no selection |
| Query.FindLast | SQLiteWrapper/src/main/java/com/ahsailabs/sqlitewrapper/SQLiteWrapper.java:740-747 | `findLast`: null exactly when no row is visible; otherwise the answer concerns the visible row with the greatest `_id`. The full statement (the record read, or the unregistered-parent failure) is `FindLastIsGreatest` with no selection |
| Query.InferTable | SQLiteWrapper/src/main/java/com/ahsailabs/sqlitewrapper/SQLiteWrapper.java:874 | specified by `InferTableFallback`, `InferTableFinds` and `InferTableFindsUpper` |
| Query.InferTableFallback | SQLiteWrapper/src/main/java/com/ahsailabs/sqlitewrapper/SQLiteWrapper.java:874 | with no `FROM` and no ` from `, the inferred table name is the whole query plus a space |
| Query.InferTableFinds | SQLiteWrapper/src/main/java/com/ahsailabs/sqlitewrapper/SQLiteWrapper.java:874 | for `... from <name> <rest>` with no earlier ` from ` and no `FROM`, the inferred table is `<name>` |
| Query.FromNameLayout | SQLiteWrapper/src/main/java/com/ahsailabs/sqlitewrapper/SQLiteWrapper.java:1613-1617 | the first space after ` from <name>` ends the name |
| Query.FromNameCut | SQLiteWrapper/src/main/java/com/ahsailabs/sqlitewrapper/SQLiteWrapper.java:1613-1618 | `substringBetween(" from ", " ", ...)` of `<pre> from <name> <rest> ` is `<name>` when no ` from ` starts in `<pre>` |
| Query.LowerFrom | SQLiteWrapper/src/main/java/com/ahsailabs/sqlitewrapper/SQLiteWrapper.java:874 | lowering `FROM` in `<pre> FROM<tail>` gives `<pre> from<tail>` when no other `FROM` occurs |
| Query.InferTableFindsUpper | SQLiteWrapper/src/main/java/com/ahsailabs/sqlitewrapper/SQLiteWrapper.java:874 | for `<pre> FROM <name> <rest>` with no other `FROM` and no ` from ` in `<pre>`, the inferred table is `<name>` |
| Query.RawSelectQuery | SQLiteWrapper/src/main/java/com/ahsailabs/sqlitewrapper/SQLiteWrapper.java:872-913 | fails with an unknown table exactly when some row is answered and the inferred table is not registered; fails on an unregistered parent exactly when an answered row of the registered table does not read; otherwise one record per answered row, in order, each read from its row as `ReadRecord` states, and an answered row that is the stored row of its `_id` reads exactly as the finders read it (`FetchRecord`) |
| Query.RawFetch | SQLiteWrapper/src/main/java/com/ahsailabs/sqlitewrapper/SQLiteWrapper.java:887-899 | one record per answered row, in order, each what `ReadRecord` reads from that row with its `_id` |
| Query.CountSelected | SQLiteWrapper/src/main/java/com/ahsailabs/sqlitewrapper/SQLiteWrapper.java:916-925 | `count` is the number of rows the selection matches, deleted ones included |
| Query.Count | SQLiteWrapper/src/main/java/com/ahsailabs/sqlitewrapper/SQLiteWrapper.java:916-925 | specified by `CountSelected` |
| Strings.IndexFrom | SQLiteWrapper/src/main/java/com/ahsailabs/sqlitewrapper/SQLiteWrapper.java:1614-1615 | Java's `indexOf(pat, k)`: -1 or a position from k that leaves room for the pattern |
| Strings.IndexFromSpec | SQLiteWrapper/src/main/java/com/ahsailabs/sqlitewrapper/SQLiteWrapper.java:1614-1615 | the answer is the leftmost occurrence at or after k, and -1 exactly when there is none |
| Strings.IndexFromFinds | SQLiteWrapper/src/main/java/com/ahsailabs/sqlitewrapper/SQLiteWrapper.java:1614-1615 | an occurrence with none before it is the answer |
| Strings.TrimStart | SQLiteWrapper/src/main/java/com/ahsailabs/sqlitewrapper/SQLiteWrapper.java:1617 | trimming the start never lengthens a string |
| Strings.TrimStartSpec | SQLiteWrapper/src/main/java/com/ahsailabs/sqlitewrapper/SQLiteWrapper.java:1617 | removes exactly the leading characters at or below space |
| Strings.TrimEnd | SQLiteWrapper/src/main/java/com/ahsailabs/sqlitewrapper/SQLiteWrapper.java:1617 | trimming the end never lengthens a string |
| Strings.TrimEndSpec | SQLiteWrapper/src/main/java/com/ahsailabs/sqlitewrapper/SQLiteWrapper.java:1617 | removes exactly the trailing characters at or below space |
| Strings.Trim | SQLiteWrapper/src/main/java/com/ahsailabs/sqlitewrapper/SQLiteWrapper.java:1617 | trimming never lengthens a string |
| Strings.TrimSpec | SQLiteWrapper/src/main/java/com/ahsailabs/sqlitewrapper/SQLiteWrapper.java:1617 | Java's `trim`: a slice of the input with only blanks around it that neither starts nor ends with a blank |
| Strings.TrimOfTrimmed | SQLiteWrapper/src/main/java/com/ahsailabs/sqlitewrapper/SQLiteWrapper.java:1617 | text with no outer blanks trims to itself |
| Strings.Replace | SQLiteWrapper/src/main/java/com/ahsailabs/sqlitewrapper/SQLiteWrapper.java:874 | replacing with text of the same length keeps the length; `ReplaceFirst` and `ReplaceNone` give its result |
| Strings.ReplaceNone | SQLiteWrapper/src/main/java/com/ahsailabs/sqlitewrapper/SQLiteWrapper.java:874 | text in which the target does not occur is unchanged |
| Strings.ReplaceSkip | SQLiteWrapper/src/main/java/com/ahsailabs/sqlitewrapper/SQLiteWrapper.java:874 | replacing leaves a prefix in which no occurrence starts as it is, and replaces the rest in turn |
| Strings.ReplaceFirst | SQLiteWrapper/src/main/java/com/ahsailabs/sqlitewrapper/SQLiteWrapper.java:874 | the first occurrence becomes the replacement, the text before it is kept, and the text after it is replaced in turn |
| Strings.SubstringBetweenMissing | SQLiteWrapper/src/main/java/com/ahsailabs/sqlitewrapper/SQLiteWrapper.java:1616 | when `start` does not occur, `substringBetween` answers the whole input |
| Strings.SubstringBetweenFinds | SQLiteWrapper/src/main/java/com/ahsailabs/sqlitewrapper/SQLiteWrapper.java:1613-1618 | with the first `start` at p and the first `end` after it at e, the answer is the trimmed text between them |
| Strings.SubstringBetween | SQLiteWrapper/src/main/java/com/ahsailabs/sqlitewrapper/SQLiteWrapper.java:1613-1618 | specified by `SubstringBetweenMissing` and `SubstringBetweenFinds` |
| Strings.Split | SQLiteWrapper/src/main/java/com/ahsailabs/sqlitewrapper/SQLiteWrapper.java:177-178 | not a function of the source: a proof device, the inverse of the `_` join that builds index names at these lines; splitting yields at least one part, and `SplitJoin` states the inverse |
| Strings.SplitJoin | SQLiteWrapper/src/main/java/com/ahsailabs/sqlitewrapper/SQLiteWrapper.java:177-178 | splitting a `TextUtils.join` at a separator no part holds gives the parts back |
| Strings.Digits | SQLiteWrapper/src/main/java/com/ahsailabs/sqlitewrapper/SQLiteWrapper.java:274 | `%d` of a natural number is a non-empty run of decimal digits |
| Strings.DigitsRoundTrip | SQLiteWrapper/src/main/java/com/ahsailabs/sqlitewrapper/SQLiteWrapper.java:274 | reading those digits back gives the number |
| Migration.StepScripts | SQLiteWrapper/src/main/java/com/ahsailabs/sqlitewrapper/SQLiteWrapper.java:1483-1518 | every step yields one script; it is null exactly for an `AddTableMigrationStep` on an unregistered table; every script that is present is non-empty |
| Migration.KeptSpec | SQLiteWrapper/src/main/java/com/ahsailabs/sqlitewrapper/SQLiteWrapper.java:262-266 | the scripts kept are exactly the non-empty ones that are present, and no more than were given |
| Migration.PlanScriptsKnown | SQLiteWrapper/src/main/java/com/ahsailabs/sqlitewrapper/SQLiteWrapper.java:258-270 | when every step names a known table, the plan yields exactly one script per step, in step order |
| Migration.PlanScriptsUnknown | SQLiteWrapper/src/main/java/com/ahsailabs/sqlitewrapper/SQLiteWrapper.java:1498-1502 | an `AddTableMigrationStep` for an unregistered table adds nothing to the plan's scripts |
| Migration.PlanScriptsNonEmpty | SQLiteWrapper/src/main/java/com/ahsailabs/sqlitewrapper/SQLiteWrapper.java:264 | no script a plan yields is empty |
| Migration.PlanScripts | SQLiteWrapper/src/main/java/com/ahsailabs/sqlitewrapper/SQLiteWrapper.java:258-270 | specified by `PlanScriptsKnown`, `PlanScriptsUnknown` and `PlanScriptsNonEmpty` |
| Migration.FileNameParts | SQLiteWrapper/src/main/java/com/ahsailabs/sqlitewrapper/SQLiteWrapper.java:274 | a migration file name is `<i>-<j>-<db>.sql`, and neither number holds a dash |
| Migration.FileName | SQLiteWrapper/src/main/java/com/ahsailabs/sqlitewrapper/SQLiteWrapper.java:274 | specified by `FileNameParts`, `FileNameInjective` and `UpDownFilesDistinct` |
| Migration.FileNameInjective | SQLiteWrapper/src/main/java/com/ahsailabs/sqlitewrapper/SQLiteWrapper.java:274 | different version pairs or database names give different file names |
| Migration.UpDownFilesDistinct | SQLiteWrapper/src/main/java/com/ahsailabs/sqlitewrapper/SQLiteWrapper.java:319 | no downgrade file name `<i>-<i-1>-<db>.sql` is ever an upgrade file name `<k>-<k+1>-<db>.sql` (line 274) |
| Migration.StatementsText | SQLiteWrapper/src/main/java/com/ahsailabs/sqlitewrapper/SQLiteWrapper.java:1658-1674 | the statements, followed by the unterminated rest, are exactly the lines each followed by a space |
| Migration.StatementsShape | SQLiteWrapper/src/main/java/com/ahsailabs/sqlitewrapper/SQLiteWrapper.java:1664-1670 | one statement per line ending in `;`, and each statement ends with `; ` |
| Migration.LeftoverEmpty | SQLiteWrapper/src/main/java/com/ahsailabs/sqlitewrapper/SQLiteWrapper.java:1664-1671 | nothing is left unterminated exactly when the file's last line ends in `;`, or the file is empty |
| Migration.GetSqlScript | SQLiteWrapper/src/main/java/com/ahsailabs/sqlitewrapper/SQLiteWrapper.java:1658-1674 | the loop's list is the statements of the file's lines |
| Migration.SqlScript | SQLiteWrapper/src/main/java/com/ahsailabs/sqlitewrapper/SQLiteWrapper.java:1658-1674 | specified by `StatementsText`, `StatementsShape` and `LeftoverEmpty` |
| Migration.ReadSqlAsset | SQLiteWrapper/src/main/java/com/ahsailabs/sqlitewrapper/SQLiteWrapper.java:1621-1656 | null exactly for an empty file name |
| Migration.ReadAndGetSqlScript | SQLiteWrapper/src/main/java/com/ahsailabs/sqlitewrapper/SQLiteWrapper.java:1621-1656 | the method answers the asset's statements under `SQLW/`, as the function does |
| Migration.ReadSqlAssetNonEmpty | SQLiteWrapper/src/main/java/com/ahsailabs/sqlitewrapper/SQLiteWrapper.java:1637-1641 | no statement read from a file is empty |
| Migration.PlannedSteps | SQLiteWrapper/src/main/java/com/ahsailabs/sqlitewrapper/SQLiteWrapper.java:257-259 | the plan is used only for a non-null, non-empty step list |
| Migration.UpgradeSplit | SQLiteWrapper/src/main/java/com/ahsailabs/sqlitewrapper/SQLiteWrapper.java:256-279 | the upgrade scripts from old to new are those from old to mid followed by those from mid to new, so version pairs contribute in ascending order |
| Migration.DowngradeSplit | SQLiteWrapper/src/main/java/com/ahsailabs/sqlitewrapper/SQLiteWrapper.java:301-323 | the downgrade scripts from old to new are those from old to mid followed by those from mid to new, so pairs contribute in descending order |
| Migration.PairScriptsNonEmpty | SQLiteWrapper/src/main/java/com/ahsailabs/sqlitewrapper/SQLiteWrapper.java:257-277 | no script for one version pair is empty |
| Migration.PairScripts | SQLiteWrapper/src/main/java/com/ahsailabs/sqlitewrapper/SQLiteWrapper.java:257-277 | specified by `PairScriptsNonEmpty` and `VersionStepScripts` |
| Migration.UpgradeScripts | SQLiteWrapper/src/main/java/com/ahsailabs/sqlitewrapper/SQLiteWrapper.java:253-279 | specified by `UpgradeSplit`, `UpgradeNonEmpty` and `OnUpgrade` |
| Migration.DowngradeScripts | SQLiteWrapper/src/main/java/com/ahsailabs/sqlitewrapper/SQLiteWrapper.java:298-323 | specified by `DowngradeSplit`, `DowngradeNonEmpty` and `OnDowngrade` |
| Migration.UpgradeNonEmpty | SQLiteWrapper/src/main/java/com/ahsailabs/sqlitewrapper/SQLiteWrapper.java:253-279 | no upgrade script is empty |
| Migration.DowngradeNonEmpty | SQLiteWrapper/src/main/java/com/ahsailabs/sqlitewrapper/SQLiteWrapper.java:298-323 | no downgrade script is empty |
| Migration.PlanOverridesFiles | SQLiteWrapper/src/main/java/com/ahsailabs/sqlitewrapper/SQLiteWrapper.java:257-271 | when the plan answers steps for every pair, the files are never read, even where every step's script is dropped |
| Migration.FilesIgnoreTables | SQLiteWrapper/src/main/java/com/ahsailabs/sqlitewrapper/SQLiteWrapper.java:274-277 | without a plan, the upgrade depends on the files alone, not on the registered tables |
| Migration.KeepScripts | SQLiteWrapper/src/main/java/com/ahsailabs/sqlitewrapper/SQLiteWrapper.java:262-267 | the loop keeps the non-empty scripts, as `Kept` does |
| Migration.CollectPlanScripts | SQLiteWrapper/src/main/java/com/ahsailabs/sqlitewrapper/SQLiteWrapper.java:260-269 | the loop over a plan's steps gives the plan's scripts |
| Migration.VersionStepScripts | SQLiteWrapper/src/main/java/com/ahsailabs/sqlitewrapper/SQLiteWrapper.java:257-277 | one version pair's scripts: the plan's when it answers steps, otherwise the file's |
| Wrapper.Record.constructor | SQLiteWrapper/src/main/java/com/ahsailabs/sqlitewrapper/SQLiteWrapper.java:1357-1363 | a new record has its table and values and no `_id` or timestamps |
| Wrapper.SQLiteWrapper.constructor | SQLiteWrapper/src/main/java/com/ahsailabs/sqlitewrapper/SQLiteWrapper.java:124-129 | a new wrapper has its database name and assets, no table, index, plan or row |
| Wrapper.SQLiteWrapper.AddTable | SQLiteWrapper/src/main/java/com/ahsailabs/sqlitewrapper/SQLiteWrapper.java:92-95 | registers the table's current state under its name, replacing any table of that name |
| Wrapper.SQLiteWrapper.SetMigrationPlan | SQLiteWrapper/src/main/java/com/ahsailabs/sqlitewrapper/SQLiteWrapper.java:1464-1465 | sets the plan and nothing else |
| Wrapper.SQLiteWrapper.AddIndex | SQLiteWrapper/src/main/java/com/ahsailabs/sqlitewrapper/SQLiteWrapper.java:1265-1267 | appends the index to the wrapper's index list, which `OnCreate` writes out after the tables; nothing else changes |
| Wrapper.SQLiteWrapper.OnCreate | SQLiteWrapper/src/main/java/com/ahsailabs/sqlitewrapper/SQLiteWrapper.java:131-160 | the three loops build exactly `CreateScripts`: the tables, the wrapper indexes, then the table indexes |
| Wrapper.SQLiteWrapper.OnUpgrade | SQLiteWrapper/src/main/java/com/ahsailabs/sqlitewrapper/SQLiteWrapper.java:253-279 | the loop over i from old up to new builds exactly `UpgradeScripts` |
| Wrapper.SQLiteWrapper.OnDowngrade | SQLiteWrapper/src/main/java/com/ahsailabs/sqlitewrapper/SQLiteWrapper.java:298-323 | the loop over i from old down to new builds exactly `DowngradeScripts` |
| Wrapper.SQLiteWrapper.Save | SQLiteWrapper/src/main/java/com/ahsailabs/sqlitewrapper/SQLiteWrapper.java:473-501 | succeeds exactly when the insert is accepted with some value to write; then the record gets the next `_id`, which no row had, and the store gains the row with the creation time stamped under record log; otherwise nothing changes, `_id` included |
| Wrapper.SQLiteWrapper.Update | SQLiteWrapper/src/main/java/com/ahsailabs/sqlitewrapper/SQLiteWrapper.java:507-535 | no values at all is an illegal argument; true exactly when the row exists and the update is accepted, and then only that row changes, with its update time stamped under record log; otherwise nothing changes |
| Wrapper.SQLiteWrapper.Delete | SQLiteWrapper/src/main/java/com/ahsailabs/sqlitewrapper/SQLiteWrapper.java:562-593 | true exactly when `_id > 0`, the row exists and the delete is accepted; a soft-delete table stamps `_deleted_at`, any other loses the row; otherwise nothing changes |
| Wrapper.SQLiteWrapper.DeleteWhere | SQLiteWrapper/src/main/java/com/ahsailabs/sqlitewrapper/SQLiteWrapper.java:596-615 | soft-deletes or removes exactly the selected rows; nothing changes when the statement is rejected |
| Wrapper.SQLiteWrapper.DeleteAll | SQLiteWrapper/src/main/java/com/ahsailabs/sqlitewrapper/SQLiteWrapper.java:618-623 | `delete` with no WHERE clause: every row is soft-deleted or removed |
| Wrapper.SQLiteWrapper.UpdateWhere | SQLiteWrapper/src/main/java/com/ahsailabs/sqlitewrapper/SQLiteWrapper.java:538-557 | no values at all is an illegal argument; true exactly when the values name only columns of the table (when it is registered), the statement is accepted and some row is selected, and then exactly the selected rows get the values; the table need not be registered; values that fit their columns keep every registered table's rows fitting |
| Writes.UpdatedWhereFits | SQLiteWrapper/src/main/java/com/ahsailabs/sqlitewrapper/SQLiteWrapper.java:538-557 | an update whose values are each of their column's storage class leaves every row of the table fitting it |
| Writes.Defaults | SQLiteWrapper/src/main/java/com/ahsailabs/sqlitewrapper/SQLiteWrapper.java:207-209 | only fields' columns get a default |
| Writes.DefaultsAt | SQLiteWrapper/src/main/java/com/ahsailabs/sqlitewrapper/SQLiteWrapper.java:207-209 | a field's column has a default exactly when it is a primitive boolean, and the default is 0 |
| Writes.FieldIsNotEngineColumn | SQLiteWrapper/src/main/java/com/ahsailabs/sqlitewrapper/SQLiteWrapper.java:189-219 | in a well-formed table no field is named like an engine column |
| Writes.InsertedRowAt | SQLiteWrapper/src/main/java/com/ahsailabs/sqlitewrapper/SQLiteWrapper.java:473-489 | a saved row holds each field's encoded value, or its column default when the value is null; the creation time exactly under record log; no update or deletion time |
| Writes.InsertedRow | SQLiteWrapper/src/main/java/com/ahsailabs/sqlitewrapper/SQLiteWrapper.java:473-489 | specified by `InsertedRowAt` |
| Writes.InsertedFits | SQLiteWrapper/src/main/java/com/ahsailabs/sqlitewrapper/SQLiteWrapper.java:473-489 | a saved row fits its table's columns |
| Writes.UpdatedRowAt | SQLiteWrapper/src/main/java/com/ahsailabs/sqlitewrapper/SQLiteWrapper.java:507-524 | an updated row holds each non-null new value and keeps the old cell for a null one; the update time is stamped exactly under record log; the creation and deletion times are kept |
| Writes.UpdatedRow | SQLiteWrapper/src/main/java/com/ahsailabs/sqlitewrapper/SQLiteWrapper.java:507-524 | specified by `UpdatedRowAt` and `UpdateKeepsNulledColumn` |
| Writes.UpdatedFits | SQLiteWrapper/src/main/java/com/ahsailabs/sqlitewrapper/SQLiteWrapper.java:507-524 | an updated row still fits its table's columns |
| Writes.SoftDeletedFits | SQLiteWrapper/src/main/java/com/ahsailabs/sqlitewrapper/SQLiteWrapper.java:571-575 | a soft delete changes only `_deleted_at`, and hides the row |
| Writes.SoftDeleteKeepsReadable | SQLiteWrapper/src/main/java/com/ahsailabs/sqlitewrapper/SQLiteWrapper.java:571-575 | a soft delete writes no field's column, so a row reads after it exactly when it read before |
| Writes.UpdateKeepsNulledColumn | SQLiteWrapper/src/main/java/com/ahsailabs/sqlitewrapper/SQLiteWrapper.java:517-523 | `update` cannot clear a column: a null value is skipped by `getContentValues` (line 353), so the stored cell stays as it was |
| Writes.WithRowsFits | SQLiteWrapper/src/main/java/com/ahsailabs/sqlitewrapper/SQLiteWrapper.java:473-615 | replacing a table's rows with fitting rows keeps the store fitting |
| Writes.FetchAgree | SQLiteWrapper/src/main/java/com/ahsailabs/sqlitewrapper/SQLiteWrapper.java:403-451 | rows that agree on every field's column read back the same |
| Writes.InsertedAgrees | SQLiteWrapper/src/main/java/com/ahsailabs/sqlitewrapper/SQLiteWrapper.java:473-489 | when no primitive boolean is null, a saved row agrees with the encoded values on every field |
| Writes.UpdatedAgrees | SQLiteWrapper/src/main/java/com/ahsailabs/sqlitewrapper/SQLiteWrapper.java:507-524 | when no value is null, an updated row agrees with the encoded values on every field |
| Writes.EncodedUnlessNull | SQLiteWrapper/src/main/java/com/ahsailabs/sqlitewrapper/SQLiteWrapper.java:353 | a handled field writes its column exactly when its value is not null |
| Writes.InsertedLog | SQLiteWrapper/src/main/java/com/ahsailabs/sqlitewrapper/SQLiteWrapper.java:485-487 | a saved row is visible and reads back the creation time alone |
| Writes.SavedRowFetches | SQLiteWrapper/src/main/java/com/ahsailabs/sqlitewrapper/SQLiteWrapper.java:473-489 | a saved row read through `fetchRow` gives back the saved values |
| Writes.FindSaved | SQLiteWrapper/src/main/java/com/ahsailabs/sqlitewrapper/SQLiteWrapper.java:473-501 | after `save`, `findById` of the new `_id` answers the record with its values and creation time, or fails exactly when the new row has a parent in an unregistered table |
| Writes.FindUpdated | SQLiteWrapper/src/main/java/com/ahsailabs/sqlitewrapper/SQLiteWrapper.java:507-535 | after `update`, `findById` answers the new values, the update time and the old creation time, or fails exactly when the row has a parent in an unregistered table |
| Writes.SoftDeletedHidden | SQLiteWrapper/src/main/java/com/ahsailabs/sqlitewrapper/SQLiteWrapper.java:571-575 | after a soft delete, `findById` no longer finds the row, yet `count` still counts it |
| Writes.RemovedGone | SQLiteWrapper/src/main/java/com/ahsailabs/sqlitewrapper/SQLiteWrapper.java:577-578 | after a hard delete the row is gone and no other row is |
| Writes.UpdatedWhere | SQLiteWrapper/src/main/java/com/ahsailabs/sqlitewrapper/SQLiteWrapper.java:538-557 | specified by `UpdateWhere`'s contract |
| Writes.RemovedWhere | SQLiteWrapper/src/main/java/com/ahsailabs/sqlitewrapper/SQLiteWrapper.java:604-609 | specified by `RemovedWhereLeaves` |
| Writes.SoftDeletedWhere | SQLiteWrapper/src/main/java/com/ahsailabs/sqlitewrapper/SQLiteWrapper.java:604-607 | after a soft delete through a WHERE clause, `findAll` answers exactly the visible rows it did not select, and fails exactly when one of those does not read |
| Writes.RemovedWhereLeaves | SQLiteWrapper/src/main/java/com/ahsailabs/sqlitewrapper/SQLiteWrapper.java:608-609 | after a hard delete through a WHERE clause, `findAll` answers exactly the visible rows it did not select, and fails exactly when one of those does not read |
| Writes.DeleteAllHidesAll | SQLiteWrapper/src/main/java/com/ahsailabs/sqlitewrapper/SQLiteWrapper.java:618-623 | after `deleteAll`, `findAll` answers nothing, whichever kind of delete the table uses |

## Left out

- I/O: the `SQLiteOpenHelper` lifecycle, `getDatabase`/`closeDatabase`, cursors and `AssetManager` are not modelled. A script asset is a map entry from its path to its lines, and a missing asset has no lines. An `IOException` part-way through a file is not modelled.
- SQL execution: the model returns the scripts `onCreate`, `onUpgrade` and `onDowngrade` would run. Running them in one transaction, and the schema changes they make to the store, are not modelled. Neither are `execSQL`, `executeSQLScript` and `runQueryInBatch`.
- What SQLite decides is the parameter `accepted`. The rows a hand-written WHERE clause selects are given by `Cond.Holds`. Only `ORDER BY _id` is modelled. Foreign-key referential actions are not enforced.
- The order of a `HashMap`'s keys is the parameter `keys`. The clock is the parameter `now`.
- `readAndParseCreateTableScript` and `addTablesFromSQLAsset` are not part of this model. They parse CREATE TABLE scripts line by line.
- The static registries `addDatabase`, `of`, `removeAllDatabase` and `getLookupDatabase`, and the `Database` interface, are process-global and left out. `Lookup.java`, the annotation processors and the annotations are not part of this model.
- Reflection is not modelled: `clazz.newInstance()`, and the fallback from an empty table name to `clazz.getSimpleName()` in the finders. The model takes the table name.
- Records read back by a finder are values (`Fetched`), not `TableClass` objects.
- Query.ParentId: assumes the parent column holds SQLite integers. The source binds the child's value as text (`Long.toString`, lines 421-422) and SQLite compares it under the parent column's affinity, so a parent column holding the REAL 7.0, or the TEXT '7' in a TEXT column, matches the child value 7 in the source; `ParentColumnIs` matches only the integer 7, and `ParentIdIsFirst` then answers no parent where the source finds one. A foreign-key field reads back as a reference holding the parent's `_id`. The source reads the parent record in full through `findFirstWithCriteria` (lines 417-422), and so reads the parent's own foreign keys in turn: a row that references itself, or a cycle of references, recurses without end, and a grand-parent table that is not registered throws. The model reads one level. Only a row's own parent tables are checked for registration (`ParentMissing`), and that failure is the value `Err(UnknownParent)`, where the source throws a `NullPointerException` from line 827 that no finder catches.
- Float and double values are opaque reals. The behaviour of Java's float rounding is not modelled. BLOB fields are neither written nor read, as in the source.
- Exceptions thrown by a `MigrationPlan` or step are not modelled. The planner is a total function.
- `String.format`'s locale is not modelled: `%d` is written in ASCII digits.
- `_id` overflow past 64 bits is not modelled: ids are unbounded integers.
- Wrapper.SQLiteWrapper.AddIndex: the wrapper's index list is the `Builder`'s own list object (passed at line 1352 and kept at line 128), so an index added through either is seen by both; the model keeps one list on the wrapper and does not model the `Builder`'s copy. An index added after `onCreate` has run is only listed, as in the source. A `Table` that changes after `addTable` is not seen by the wrapper: `AddTable` stores a snapshot, while the source stores the object.
- The finders and writes below require the table name to be registered (`name in tables`, or `rec.tableName in tableMap`). The source looks the name up in `tableMap` and dereferences the answer unchecked, so an unregistered name throws a `NullPointerException` that is not caught. The model does not describe that exception.
- Query.FindById: requires a registered table; the source throws at line 644.
- Query.FindByIdOrNull: requires a registered table, as `findById` (line 644).
- Query.FindAll: requires a registered table; the source throws at line 692.
- Query.FindAllWithCriteria: requires a registered table; the source throws at line 761. A `Cond` is taken to be valid SQL over the table's columns, so the `SQLException` that answers `null` is modelled only for criteria that render as empty text.
- Query.SelectQuery: requires a registered table; the source throws at line 829.
- Query.FindFirstWithCriteria: requires a registered table, as `selectQuery` (line 829).
- Query.FindLastWithCriteria: requires a registered table, as `selectQuery` (line 829).
- Query.FindFirst: requires a registered table, as `selectQuery` (line 829).
- Query.FindLast: requires a registered table, as `selectQuery` (line 829).
- Wrapper.SQLiteWrapper.Save: requires a registered table; the source passes a null `Table` from line 478 to `getContentValues`, which throws at line 345.
- Wrapper.SQLiteWrapper.Update: requires a registered table; the source passes a null `Table` from line 512 to `getContentValues`, which throws at line 345.
- Wrapper.SQLiteWrapper.Delete: requires a registered table; the source throws at line 571.
- Wrapper.SQLiteWrapper.DeleteWhere: requires a registered table; the source throws at line 604.
- Wrapper.SQLiteWrapper.DeleteAll: requires a registered table, as `delete` with a WHERE clause (line 604).
- Query.SelectIdsAll: SQLite promises no order for a query without `ORDER BY` (`findAll` at line 690, `findAllWithCriteria` at line 759, `selectQuery` with a null `orderBy`). The model takes such a query to answer in ascending `_id`, the order of a scan of a rowid table. The source promises only the set of rows.
- Query.FindAllVisible: states ascending `_id` order, which is the model's choice for a query without `ORDER BY`, as under `SelectIdsAll`.
- Query.FindAllWithCriteriaMeaning: states ascending `_id` order, which is the model's choice for a query without `ORDER BY`, as under `SelectIdsAll`.
- Schema.Table.AddIndex: requires a non-empty table name. With an empty name the source's `Index` constructor calls `getSimpleName()` on a null class.
- Wrapper.SQLiteWrapper.Update: requires a non-null `_id`, since the source unboxes it (line 524) and throws on null.
- Wrapper.SQLiteWrapper.Delete: requires a non-null `_id`, since the source unboxes it (line 563) and throws on null.
- Wrapper.SQLiteWrapper.UpdateWhere: requires that the values do not write `_id`. The source would let a caller rewrite identities, which the model's identity invariant does not cover.
- Wrapper.SQLiteWrapper.UpdateWhere: SQLite's column affinity is not applied. The statement at line 546 converts a value to the column's affinity where it can (the text `'12'` written to an INTEGER column is stored as the integer 12), while the model stores the caller's cells as given. Only values that are already of their column's storage class (`ValuesFit`) keep the store fitting; after any other update the finders' `StoreFits` precondition may not hold. For an unregistered table the model has no schema, so the engine's column check is part of `accepted`.
- The finders require `StoreFits`: every stored cell is of its field's storage class and every timestamp column holds an integer or null. SQLite keeps any value in any column, so the source can read stores this excludes. The model takes the store to hold what the library's own writes put there, which keep it fitting (`InsertedFits`, `UpdatedFits`, `SoftDeletedFits`, `WithRowsFits`, `UpdatedWhereFits`).
- Query.RawSelectQuery: a query that is not valid SQL, which the source answers with `null` from its `SQLException` handler (lines 906-907), is not modelled: the answered rows are a parameter. Answered cells are taken to be of their fields' storage classes, as the requires states.
- Query.RawFetch: an answered row that lacks the `_id` column or a field's column (a projection) is read as if that column held NULL. The source's `getColumnIndex` answers -1 there, and the read at line 891, or through `fetchRow` at lines 401-406, throws. A row is a map in which an absent column is NULL, so the model does not tell a NULL cell from a missing column.
- Query.SelectQuery: the source's `distinct`, `columns`, `groupBy` and `having` parameters (lines 817-819, passed to `database.query` at line 837) are not modelled; the model is `selectQuery` with all four null, as `findFirstWithCriteria` and `findLastWithCriteria` call it (lines 798-814). A projection that leaves out a field's column makes `getColumnIndex` answer -1 and the read at lines 403-451 throw; `distinct`, `groupBy` and `having` change which rows come back. A selection that is not valid SQL, which the source answers with `null` from its `SQLException` handler, is not modelled: a `Cond` is taken to be valid SQL over the table's columns.
- Codec.GetContentValues: requires at least one value per field. With a shorter value list the source's `dataList.get(i)` (line 351) throws an `IndexOutOfBoundsException`.
- Codec.Encode: requires at least one value per field, as `GetContentValues`.
- Wrapper.SQLiteWrapper.Save: requires at least one value per field of the table; the source throws from `getContentValues` (line 351) otherwise.
- Wrapper.SQLiteWrapper.Update: requires at least one value per field of the table; the source throws from `getContentValues` (line 351) otherwise.
- Wrapper.SQLiteWrapper.Save: the model follows the code, not its comments. `save` sets the record's `_id` but not its `_created_at`, and `update` does not set `_updated_at`; only the stored row gets the times.
- Codec.GetContentValues: requires each value to be of the Java class its field declares. The source would throw a `ClassCastException` otherwise.

## Findings

| source | as written | input that shows it | evidently intended | confidence | as-written member | corrected member |
|---|---|---|---|---|---|---|
| SQLiteWrapper/src/main/java/com/ahsailabs/sqlitewrapper/SQLiteWrapper.java:650-658 | `findById` calls `moveToFirst()` and reads the cursor without checking for a row; the cursor is never null, so a missing or soft-deleted row fails with an exception that is not an `SQLException` and escapes | `findById(1, ...)` on an empty table | `null` for a missing or deleted row, like `findFirst` | not executed | Query.FindByIdMissingFails | Query.FindByIdOrNull |
