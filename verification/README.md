# A verified model of protodb

protodb turns protobuf messages into SQL statements and database rows back into messages. This project
models the parts of it that decide what reaches the database and what comes back, and proves what they
promise. `dafny verify dfyconfig.toml` checks everything.

The model keeps the source's form. Objects that are updated in place are classes (the planner's items
and its memo map, message fields being decoded, scan destinations and their buffers, the client of a
stream), loops are loops with invariants, and iteration over a Go map takes an arbitrary remaining key,
so every statement holds for every iteration order. SQL statements are values with a text (`Render`,
`RenderQuery`, `InsertText`, `DdlText`) and a meaning over tables of rows (`Eval`, `Satisfies`,
`EvalInsert`, `Apply`): each builder is proved to write exactly the text of its statement, and the
theorems about tables are about that statement with the arguments the builder returned. Readers that
take a text apart by SQL's own words, name by name and placeholder by placeholder, give the statement
back, so that the text alone fixes what is meant (`SqlWords`, `SqlRead`, `StatementText`, `MigrateText`,
`QueryText`).

## What is proved

**Reference planning and execution** (`Planner`, `Executor`). `DbCreateSQL` searches the reference graph
depth first with a memo map in which a null entry means "in progress". It returns for every finite
graph, cyclic or not. It succeeds exactly when every newly reached table is registered, is a database
table, has well-formed references, and lies on no reference cycle of two or more tables. Every newly
planned table gets one statement with one column for each stored field, in field order and with the
field's own name and reference text. Whether it succeeds or fails, no mark is left, stored dependencies
are stored themselves and come earlier in one order, and each item's dependency names are the keys of
its dependency map without repeats. `ExecSql`, which has no cycle marks, terminates on such items, runs
every needed table exactly once and after its dependencies, and when a statement is refused, no table
that needs the failed one has been run.

**Updates** (`Sql`, `UpdateBuilder`, `UpdateMeaning`, `UpdateLaws`, `UpdateDialects`, `StoredValues`,
`Crud`, `StatementText`). One logical update is emitted as a plain statement, as a statement with native
`RETURNING OLD.*,NEW.*`, as a common table expression that numbers its parameters the other way round
and walks the key map twice, or as a select, an update and a select. For a unique key all of them leave
the same tables and report the same old and new row, or the same absence of one; the shapes run on
different dialects, and two databases with equal tables come to equal tables and outcomes exactly when
both store every chosen value alike, that is, up to the form of a list of scalars. The
common-table-expression form encodes substituted values once more; it can be built exactly when the
others can and no chosen field is an empty singular message to be stored as a default text. The
predicted length of an update equals the length of the text, for independent walks of the key map.
Updates change only the keyed row and only updatable non-key columns within the requested ones, keep
keys unique, and compose. What they store is said of the message: a chosen column holds the field's
value (a scalar as it is), NULL or the default text in place of a zero, by the field's options, and
every other column and row is as it was. A server takes only what it has: numbered placeholders on
PostgreSQL, RETURNING anywhere but on MySQL, the old row from PostgreSQL 18 on and on Oracle.

**Inserts** (`InsertBuilder`, `Inserts`). An insert can be built exactly when every field it gives can
be sent and every needed field above the last number has a default; it stores exactly the given fields,
each argument in its column. The stored row is said of the message as for updates. Without RETURNING,
MySQL's last insert id completes the key and the row is selected again. That reports the stored row,
whatever numbers the server generates, exactly when a serial key field was left at zero, every other key
field is stored as it is, and no other key field is zero next to a serial one.

**Values** (`PgArray`, `Codec`, `ListCodec`, `Float64`). Decoding an encoded map gives back the same
map, whatever the field held before, exactly when its string keys have no surrounding whitespace. The
array-literal parser inverts the array output of section 8.15.6 of the PostgreSQL manual up to trimming
and NULL. PostgreSQL lists come back exactly, including uint64 elements at or above 2^63 and enum values
by their numbers; MySQL and SQLite lists come back exactly when binary64 (section 4.3.1 of IEEE
754-2019) holds every integer in them, hence up to 2^53, and 2^53+1 does not come back.

**Table queries** (`SqlCheck`, `Operand`, `Where2`, `Where2Meaning`, `StandIn`, `Where2Right`,
`BigNumbers`, `QuerySql`, `QueryCap`, `TableQuery`, `QueryMeaning`, `SqlRead`, `ConditionText`,
`QueryText`, `QueryAnswer`, `MapMeaning`). The one-pass expression scanner accepts exactly the texts
that five separate conditions allow. The query builder accepts a request exactly when its names resolve
and its operator conditions can be written; the statement then returns the rows the permission clause
and every condition ask for, windowed by offset and limit, with placeholder k bound to argument k. No
text exceeds its predicted capacity. The text itself is read as SQL: EXISTS and NOT EXISTS over the rows
of `json_each` with their aliases, equalities and ANDs, comparisons, length functions and the array and
JSON operators of each dialect. Evaluated over rows, what was read gives the answer the request asks for
(`QueryAnswer.TextAnswers`). What an operator asks of a list is stated of the list in the message, with
the value text taken as a numeral, a word or a JSON document and not as the code reads it. For SQLite
(through `json_each`), PostgreSQL and MySQL the emitted condition is right for every list of its kind
exactly when the request is, which can be read off its value text. A CONTAINS names, on SQLite and
MySQL, no unsigned integer from 2^63 on. An element of an array has a stand-in, the value of the list
that the dialect takes for it: for OVERLAP every stand-in is asked for by the array, for CONTAINS_ALL no
element has one but what it asks for, or some element has none. An array accepted for a PostgreSQL list
of integers is always right, quoted numbers included, and so are numbers for a SQLite list of integers
other than uint64. On a SQLite list of uint64 it comes to two conditions on the numbers of the array:
for OVERLAP that every uint64 which rounds to one of them is one of them, for CONTAINS_ALL that all are
below 2^63. Array arguments on PostgreSQL are accepted exactly when every element gives a list element,
so that an unquoted integer has at most six digits. On maps HAS_KEY and CONTAINS ask for a key and for
every member of a document, on SQLite exactly when the request is right, on PostgreSQL always, and on
MySQL for keys without a dot.

**Streaming** (`Batcher`). Without failures the responses carry the one partition of the rows whose
batches close at the clamped row limit or at 1 MiB, numbered from zero, only the last marked as the end;
this determines the responses, so both handlers agree. A preference that is not positive gives one row a
response, and none gives more than 10000. With failures anywhere, and whether or not a failed send got
through, the client has the first rows of the result in order, and an error-free end means that it has
all of them.

**Migration** (`Migrate`). Migrating an existing MySQL table emits statements that can be run one after
the other on a catalogue of many tables and that change the migrated table alone: it keeps its columns
and gets each missing one with the definition declared for it, and every declared unique index has its
declared columns. The script's text is read as these statements. A second migration emits nothing.
Afterwards every declared index is unique exactly when no index that is not unique had a declared name
and the columns declared for it. Comparing index columns by counting decides equality exactly for names
that differ up to case.

**Scanning** (`Scanner`). A message scanned from a row holds what that row alone says, whatever the
reused destinations held before, and keeps it while later rows are scanned: no value leaks past a NULL
and no bytes live in a reused buffer. A setter that fails plainly is followed by a second one, which
casts integers; the range errors of 32-bit and enum columns are marked so that it is not tried, and such
a column therefore arrives exactly or the row fails. For every kind of scalar field it is stated what
the driver's value gives and when a row fails; 64-bit integers arrive exactly over their full range.

## Where the code differs from what one would expect

- A dependency is planned with an empty schema even when the requested table has one, because the
  item's schema field is never set on the create path (`Planner.Creates`).
- The common-table-expression update fails for an empty message field with a default text, while
  the other forms store the default (`UpdateLaws.ReencodingCanFail`).
- A full update of a message without updatable fields is built, and rejected by the server as a
  syntax error; a partial update is refused by the builder. The select-first paths report a
  missing row before they look at the update at all (`Crud.ShapesAgree`).
- On MySQL an insert of a message whose serial key is set, such as `{id: 7}`, stores a row with a
  generated key and reports the row that already has the message's key, or none
  (`Inserts.SevenIsLost`). With two zero key fields, or one that is no integer, the row is stored and
  an error is reported (`Inserts.UnpopulatedIsRefused`). A key text of `"0"` counts as zero when it
  is stored and as a key when it is selected.
- On MySQL an insert without a table name stores into the message's table and selects from a table
  with an empty name: the row is stored and an error is reported (`Inserts.EmptyNameIsSelected`,
  `Inserts.NoTableIsRefused`).
- When the database lookup fails with an error whose own text is empty, the client sees an
  error-free end although no row was sent (`Batcher.Relied`).
- String map keys are trimmed when read, so two keys that differ in surrounding whitespace collide.
- CONTAINS on a list of uint64 misses values from 2^63 on, on SQLite and MySQL: the value is sent as
  a negative int64, which the stored JSON does not hold (`BigNumbers.TheFirstMissed`, `Where2Right.RightIff`).
- OVERLAP and CONTAINS_ALL on a PostgreSQL list refuse unquoted integers of seven or more digits,
  because Go prints the decoded number with an exponent (`Where2Meaning.MillionIsRefused`). A quoted
  integer is read exactly (`Where2Right.PgIntegersRight`), and null is read as an empty text or as false, so
  that an array with null is right only for an OVERLAP that asks for that value too (`Where2Right.PgNullIff`).
- The same conditions on a PostgreSQL bytes list panic for an array that is not empty
  (`Where2.PanicsIff`).
- SQLite takes a JSON integer outside int64 for a REAL, so neighbouring uint64 values from 2^63 on
  compare equal: OVERLAP with `[9223372036854775808]` finds a list that holds only the next number,
  CONTAINS_ALL with `[9223372036854775809]` one that holds only the number before, and CONTAINS on a
  map likewise (`BigNumbers.OverlapFindsNeighbour`, `BigNumbers.ContainsAllFindsNeighbour`,
  `BigNumbers.MapContainsFindsNeighbour`). An array of one number is safe exactly below 2^63.
- SQLite looks up the argument of `json_each` among the columns of `json_each` itself first. An operator
  on a list or map field named `key`, `value`, `type`, `atom`, `id`, `parent`, `fullkey`, `path`, `json` or
  `root`, the length operators aside, is therefore refused by the server (`QueryAnswer.ShadowedIsRefused`);
  the text of every other query is answered (`QueryAnswer.TextAnswers`).
- HAS_KEY on MySQL takes a key with a dot for a path of several keys, so that it misses the key `a.b`
  (`MapMeaning.HasKeyRightIff`, `MapMeaning.DottedKeyIsMissed`).
- An index that is not unique but has a declared name and the columns declared for it is taken for
  the declared one, and stays as it is (`Migrate.LookalikeStays`, `Migrate.UniqueIff`).

## Model

| member | source | states |
|---|---|---|
| Planner.PlanTable | ddl/create.go:87-116 | planning terminates on every reference graph, succeeds exactly when the table is plannable, leaves nothing in progress, keeps earlier items, and adds only reached tables; each added item creates its table with one column per stored field, in field order, with the field's name and reference text |
| Planner.ColumnsAreStored | ddl/create.go:199-229 | the columns of a statement are the stored fields in order, column k with that field's name and reference text, and no other field has a column |
| Planner.DbCreateSQL | ddl/create.go:90-116 | memo map discipline: marks are removed on every path, finished items stay, a refusal has a path that justifies it |
| Planner.BuildItem | ddl/create.go:118-339 | an item is built with its dependencies planned before it, or a refused path is found |
| Planner.AddReference | ddl/create.go:390-422 | one reference adds one dependency unless it is known or the table itself; cycles and unknown tables are refused |
| Planner.InitItem.AddDependency | ddl/create.go:417-418 | dependency names stay exactly the keys of the dependency map, without repeats |
| Planner.WalkDescends | ddl/create.go:397-420 | along any reference path from a newly planned table, planning positions strictly descend, so stored dependencies are acyclic |
| Planner.PlannedIsPlannable | ddl/create.go:90-116 | success implies that every newly reached table is fine and no cycle of two or more tables is reachable |
| Planner.RefusedIsNotPlannable | ddl/create.go:98-115 | an error implies that some reachable table is bad or a cycle is reachable |
| Executor.PlannerItems | ddl/exec.go:9-44 | the planner's items form a plan in which every dependency ranks lower, which is what the executor's termination needs |
| Executor.InitTable | ddl/exec.go:21-44 | runs a table after its dependencies, each needed table once; stops at a refused statement |
| Executor.ExecSql | ddl/exec.go:9-19 | over any list of items with overlaps: each needed table exactly once, after its dependencies; after a failure nothing that needs the failed table has been run |
| Executor.RunIsClosed | ddl/exec.go:25-32 | whatever a run table needs has been run |
| PgArray.ParsePGArrayLiteral | crud/dbscan.go:945-988 | the character loop computes the element scanner's result and errors |
| PgArray.ParseArrayOut | crud/dbscan.go:945-988 | parsing an array as PostgreSQL prints it gives each element trimmed, NULL in any case empty |
| PgArray.StringListRoundTrip | crud/dbscan.go:945-988 | a list of strings comes back unchanged exactly when every string is trimmed and not NULL in any case |
| PgArray.IntArrayRoundTrip | crud/encode_sqlarg.go:82-102 | a printed integer array parses to the decimal texts of its elements |
| Codec.EncodeMap | crud/encode_sqlarg.go:25-74 | a map becomes the JSON object of its key texts and values, or an error |
| Codec.EncodeSQLArg | crud/encode_sqlarg.go:15-155 | which argument each field kind and dialect gets; what it is as a stored cell is stated by StoredValues.SentIsStored |
| Codec.KeyTextInjective | crud/encode_sqlarg.go:40-66 | distinct keys of one kind have distinct texts |
| Codec.KeyRoundTrip | crud/dbscan.go:597-641 | a key's text parses to the key, for a string key exactly when it is trimmed |
| Codec.IntegerFromText | crud/dbscan.go:829-843 | decimal text of an integer of any kind decodes to it, values above 2^63-1 included |
| Codec.EncodeMember | crud/encode_sqlarg.go:39-67 | one member of a map adds its key text and value, a nil pointer nothing; anything but a message in a message map is refused |
| Codec.MapField.Put | crud/dbscan.go:558-582 | one member sets the entry of its decoded key to its decoded value, or fails and sets nothing |
| Codec.MapField.Fill | crud/dbscan.go:541-585 | the field ends up as the decoded object, whatever it held before |
| Codec.MapAlwaysDecodes | crud/dbscan.go:517-585 | every member of an encoded map decodes |
| Codec.MapRoundTrip | crud/dbscan.go:517-641 | decoding an encoded map gives the same map exactly when its string keys are trimmed |
| Codec.StoreAndLoadMap | crud/encode_sqlarg.go:25-74 | encoding a map and filling a field from the result yields the map |
| ListCodec.ListField.AppendFromText | crud/dbscan.go:701-735 | which elements a stored list text yields |
| ListCodec.ListField.AppendAll | crud/dbscan.go:643-699 | all elements are decoded and appended in order, or the field keeps exactly the decoded elements before the first that fails |
| ListCodec.StoredPgIsEncoded | crud/encode_sqlarg.go:82-131 | what PostgreSQL stores for a list is the array the encoder sends |
| ListCodec.PgListRoundTrip | crud/dbscan.go:720-733 | a PostgreSQL list comes back exactly when its strings survive the parser; integers always do, through int64 and back |
| ListCodec.JsonListIsEncoded | crud/encode_sqlarg.go:132-138 | on MySQL and SQLite a list is sent as a JSON array |
| ListCodec.JsonListRoundTrip | crud/dbscan.go:706-719 | a JSON list comes back exactly when binary64 holds every integer in it |
| ListCodec.JsonListBound | crud/dbscan.go:854-855 | all integers up to 2^53 come back and 2^53+1 does not |
| Float64.RoundExact | crud/dbscan.go:854-855 | rounding to binary64 leaves exactly the representable integers alone |
| SqlCheck.AsciiEqualFoldRange | crud/sqlcheck.go:257-268 | a range equals a lower-case word ignoring ASCII case |
| SqlCheck.IsDangerousKeywordRange | crud/sqlcheck.go:221-255 | a range is one of the listed keywords |
| SqlCheck.StepWord | crud/sqlcheck.go:149-170 | one character opens a word, goes on with it, or ends it; the word that ends is refused exactly when it is a keyword |
| SqlCheck.ValidateExpression | crud/sqlcheck.go:103-219 | accepts exactly `*` or a nonempty text of allowed characters without comment marks, unbalanced brackets or maximal keyword words; a refusal names a fault the text has |
| SqlCheck.ValidateIdentifier | crud/sqlcheck.go:56-94 | accepts exactly `*` or letters, digits, underscores and dots that are not digits alone |
| Batcher.PartitionUnique | service/crud_logic.go:303-319 | closing every batch but the last at the first full row determines the batches |
| Batcher.Clamp | service/crud_logic.go:262-268 | a preference that is not positive counts as 1, one above 10000 as 10000, any other as it is |
| Batcher.UnsetPreference | service/crud_logic.go:262-319 | without a preference every response but the last holds one row, and the last none |
| Batcher.AtMostPreferred | service/crud_logic.go:262-319 | no response holds more rows than preferred, nor more than 10000 |
| Batcher.PutRow | service/crud_logic.go:299-319 | one row joins the open response, which is sent when full |
| Batcher.SendErr | service/crud_logic.go:201-210 | one response marked as the end reports the error |
| Batcher.StreamRows | service/crud_logic.go:261-333 | every way a stream can go: closed batches in order, then one ending |
| Batcher.ReceivedIsPrefix | service/crud_logic.go:284-333 | the rows delivered are a prefix of the result rows, with failures at any step |
| Batcher.EndMeansComplete | service/crud_logic.go:322-333 | an error-free end means every row of a clean result was delivered |
| Batcher.UndisturbedStream | service/crud_logic.go:261-333 | without failures the responses are the one partition, numbered, only the last marked |
| Batcher.HandlersAgree | service/crud_logic.go:386-453 | both handlers send the same responses |
| Batcher.Handle | service/crud_logic.go:200-334 | the whole call, response by response: numbered batches closed by a limit, then the last rows, the report of a failed row, or the report of a failed send, which nothing follows; and what the client can rely on, with the one exception of an empty lookup error |
| SqlBuilder.DecimalDigitCount64 | crud/sqlbuilder.go:16-26 | the count is the length of the decimal text without its sign, and 1 for the least int64 |
| SqlBuilder.SqlPlaceholderCap | crud/sqlbuilder.go:5-10 | the exact length of a placeholder |
| UpdateBuilder.FieldArg | crud/update.go:158-181 | the argument of a field: NULL, default text or encoded value |
| UpdateBuilder.ReencodeIsIdentity | crud/update.go:432-442 | encoding a substitute again changes nothing, except that it fails for a defaulted message |
| UpdateBuilder.CollectChanges | crud/update.go:134-182 | the names and arguments of the chosen fields in order, or the first error |
| UpdateBuilder.WriteKeyConditions | crud/update.go:223-245 | conditions, arguments and numbers of the key fields for any walk of the key map |
| UpdateBuilder.WriteJoin | crud/update.go:471-489 | the join conditions of a second, independent walk of the key map |
| UpdateBuilder.TotalLenAnyOrder | crud/update.go:253-284 | the total length of the key names does not depend on the order |
| UpdateBuilder.DbBuildSqlUpdateCap | crud/update.go:253-284 | the predicted length is the length of the text for every order of the keys |
| UpdateBuilder.DbBuildSqlUpdate | crud/update.go:119-251 | the statement, its text and arguments; the reserved capacity is the length of the text |
| UpdateBuilder.DbBuildSqlUpdateOldAndNew | crud/update.go:341-496 | the common-table-expression statement, its text and arguments |
| UpdateBuilder.DbBuildSqlUpdateOldAndNewNative | crud/update.go:499-621 | the native statement, its text and arguments |
| UpdateBuilder.DbBuildSqlSelectOne | crud/selectone.go:77-169 | the select by primary key, its text and arguments |
| UpdateBuilder.DbBuildSqlDelete | crud/delete.go:99-157 | the delete, its text and arguments |
| UpdateMeaning.ArgumentsInOrder | crud/update.go:206-245 | the i-th placeholder takes the i-th argument, numbered or not |
| UpdateMeaning.UpdateMeans | crud/update.go:119-251 | an update statement changes exactly the rows of the message's key and returns them |
| UpdateMeaning.JoinMeansKey | crud/update.go:467-489 | joining a prior row of the key is having the key |
| UpdateMeaning.CteEvaluates | crud/update.go:341-496 | the rows of the key are selected first, with the key's own parameters, and the table is joined with them |
| UpdateMeaning.CteMeans | crud/update.go:341-496 | the common-table-expression statement does what the native one does |
| UpdateMeaning.SelectMeans | crud/selectone.go:77-169 | the select returns the rows of the message's key |
| UpdateMeaning.DeleteMeans | crud/delete.go:99-157 | the delete removes the rows of the message's key and returns them if asked |
| UpdateLaws.ChangesAreChosen | crud/update.go:134-182 | an update can be collected exactly when every chosen field can be sent, and then writes exactly the chosen fields |
| UpdateLaws.CteBuildableIff | crud/update.go:432-442 | when the common-table-expression form can be built, and that it writes the same cells |
| UpdateLaws.ReencodingCanFail | crud/update.go:432-442 | a message that only the common-table-expression form cannot update |
| UpdateLaws.UpdateFrame | crud/update.go:134-154 | only the keyed row changes, and only in updatable non-key columns that were asked for |
| UpdateLaws.UniqueStays | crud/update.go:139-142 | an update keeps the key unique |
| UpdateLaws.KeyedAfterUpdate | crud/update.go:81-92 | selecting the key after the update finds the changed rows |
| UpdateLaws.PartialOfAllIsFull | crud/partialupdate.go:177-318 | a partial update that names every updatable field collects what a full one collects |
| UpdateLaws.PartialTwice | crud/partialupdate.go:205-262 | partial updates by F and then by G leave the table of one partial update by both |
| UpdateDialects.ArgsAgreeIff | crud/encode_sqlarg.go:76-155 | two dialects send the same cell exactly when they store the value alike: it is no list of scalars, or both have one form for it, or no number needs its sign changed |
| UpdateDialects.ChangesAgreeIff | crud/update.go:134-182 | an update can be collected on every dialect or on none; the cells agree exactly when every chosen value is stored alike |
| UpdateDialects.ListCellsDiffer | crud/encode_sqlarg.go:76-138 | with a chosen list of scalars the cells of SQLite and PostgreSQL differ, whatever the message |
| UpdateDialects.UpdatesAgreeIff | crud/update.go:119-251 | two updates of one key leave the same table exactly when they set the same cells or find no row |
| StoredValues.SentIsStored | crud/encode_sqlarg.go:15-155 | the cell stored for a field, said of its value and options alone: NULL or the default text for a zero, else a scalar as it is, a map or a list of messages as JSON, a list of scalars as JSON or as an array |
| StoredValues.UpdatedRowMeans | crud/update.go:134-182 | an updated row has in every chosen column what is stored for the message's field, and is as it was elsewhere |
| StoredValues.UpdatedTableMeans | crud/update.go:119-251 | every row of the message's key is updated so, every other row stays, and no row is new |
| StoredValues.BuildableMeans | crud/update.go:119-182 | an update can be made exactly when the table exists, the message has its key, and every chosen field, of which there is one, can be sent |
| StoredValues.HasKeyMeans | crud/update.go:223-245 | a row has the message's key exactly when every primary-key column holds the message's value |
| InsertBuilder.WriteField | crud/insert.go:150-207 | one field adds a column and an argument, or nothing, or the first error |
| InsertBuilder.DbBuildSqlInsert | crud/insert.go:133-234 | the statement, its text and arguments, or the first error |
| InsertBuilder.InsertableIff | crud/insert.go:150-207 | an insert can be built exactly when every given field can be sent and every needed field above the last number has a default |
| InsertBuilder.GivenAreNeeded | crud/insert.go:150-207 | the insert gives exactly the needed fields up to the last number, each with its argument |
| InsertBuilder.InsertMeans | crud/insert.go:133-234 | every argument is stored in its own column, for numbered and unnumbered placeholders |
| Inserts.MysqlPopulateInsertPrimaryKey | crud/mysql_fallback.go:22-71 | for any walk of the key map: the one zero key field is set to the id cast to its kind, or an error |
| Inserts.DbInsertReturn | crud/insert.go:60-102 | on every dialect what is stored, what is returned, and what becomes of the caller's message |
| Inserts.InsertOutcomeSays | crud/insert.go:60-102 | exactly one row is added, in which every given field is stored by its options and every other column as the server fills it; it is reported where the server returns it; on MySQL the one blank key field is set to the generated id and the key selected, or an error reported; an insert that cannot be made changes nothing |
| Inserts.ReportsStoredIff | crud/insert.go:65-79 | without RETURNING the stored row is reported exactly when the completed key is its key |
| Inserts.RecognisedIff | crud/mysql_fallback.go:22-71 | the completed key is the stored row's, whatever the server generates, exactly when the caller knows the key |
| Inserts.SetSerialKeyIsLost | crud/mysql_fallback.go:22-71 | a serial key that is set is not the stored one unless the server generates that number |
| Inserts.SevenIsLost | crud/mysql_fallback.go:22-71 | the message `{id: 7}` with a serial key is stored under another key |
| Inserts.UnpopulatedIsRefused | crud/mysql_fallback.go:30-68 | with two zero key fields, or one that is no integer, the row is stored and an error reported |
| Inserts.EmptyNameIsSelected | crud/insert.go:140-144 | without a table name and a schema the insert goes to the message's table and the select to one with an empty name |
| Inserts.NoTableIsRefused | crud/insert.go:75-78 | without a table of the selected name the row is stored and an error reported |
| Crud.DbSelectOne | crud/selectone.go:44-75 | one row of the key, none, or an error; the tables stay |
| Crud.DbUpdate | crud/update.go:30-56 | the intended update happens, or nothing; after it every chosen column of the keyed row holds what the message says, by the field's options |
| Crud.DbUpdateReturnNew | crud/update.go:81-116 | the intended update, and a changed row of the key, with or without RETURNING; both also said of the message alone |
| Crud.DbUpdateReturnOldAndNew | crud/update.go:287-338 | on every dialect and PostgreSQL version the intended update, and the row before and after it, by a statement that the server has; an update that cannot run is an error, except that a select before it may report a missing row first |
| Crud.ShapesAgree | crud/update.go:287-338 | select-first, common table expression and native shape leave the same tables and report the same outcome; of a message that cannot be updated and has no row the select-first shape alone reports the latter |
| Crud.DialectsAgreeIff | crud/update.go:287-338 | on databases of any two dialects with equal tables, whatever the shapes, tables and outcomes agree exactly when both store every chosen value alike or there is no row |
| Crud.DbDeleteReturn | crud/delete.go:19-64 | the row of the key is gone and returned, with or without RETURNING |
| Crud.AfterUpdateSays | crud/update.go:30-56 | when the update can be made and what it leaves, said of the message and the field options |
| StatementText.ReadRender | crud/update.go:119-621 | the text of an update in any shape, a select by key or a delete is read as that statement: table, columns, placeholders, join and RETURNING |
| StatementText.ReadInsertText | crud/insert.go:133-234 | the text of an insert is read as its table and each column with its placeholder |
| Where2.ShapeLen | crud/tablequery.go:205-207 | no condition is longer than the names, the placeholder and 140 characters |
| SqlRead.ExprRead | crud/tablequery.go:326-492 | the text of any expression of this form is read as the expression, whatever follows |
| ConditionText.ConditionTextMeans | crud/tablequery.go:326-492 | the text of a condition is read as an expression that takes the condition's placeholder and, evaluated over a row, says what the condition does; SQLite understands it unless json_each is applied to a column named like one of its own |
| Where2Meaning.IntegerTypeIff | crud/tablequery.go:401-409 | the element type of a PostgreSQL list of integers is integer exactly when that holds every value of the kind, and bigint otherwise |
| Operand.IntegerRead | crud/tablequery.go:516-554 | a value text is read as an integer exactly when it is a numeral of it; an unsigned one travels as the int64 with the same bits |
| Operand.ElementTextNames | crud/tablequery.go:593-604 | an element that is decoded, printed and parsed gives the integer it is, unquoted up to six digits and quoted exactly |
| Operand.ElementRead | crud/tablequery.go:561-606 | what an array element is read as: a text, a boolean, an integer or a floating-point number, null as a zero value |
| Operand.ParseScalarJSONArray | crud/tablequery.go:556-607 | the elements are what the JSON elements give, in order; refused exactly when the text holds no array or some element gives nothing; a panic on any element for bytes and messages |
| Where2.PanicsIff | crud/tablequery.go:411-421 | building a condition panics exactly for OVERLAP and CONTAINS_ALL on a PostgreSQL list of bytes with an array that is not empty |
| Where2Meaning.LiteListMeans | crud/tablequery.go:433-458 | on SQLite the emitted condition holds of a stored list of booleans, integers or strings exactly when one or every element of the array equals one of the list by SQL value, or the list has the named element, or the length is as asked |
| Where2Meaning.MapConditionFinds | crud/tablequery.go:354-365 | on SQLite the emitted condition holds of a map column exactly when it has the key, or every given member by SQL value |
| Where2Meaning.MyListMeans | crud/tablequery.go:459-488 | on MySQL the emitted condition holds of a list of integers or strings exactly when it has the named element below 2^63, one or all of the array's, or the length asked |
| Where2Meaning.PgListMeans | crud/tablequery.go:402-432 | on PostgreSQL the emitted condition holds of a stored list of booleans, integers or strings exactly when the original list has what the text names or the array elements give |
| Where2Meaning.PgArrayAccepted | crud/tablequery.go:411-421 | an array argument is accepted exactly when every element gives a list element |
| Where2Meaning.PgIntegersAccepted | crud/tablequery.go:592-605 | an array of integers is accepted exactly when each has at most six digits and the sign its kind allows |
| Where2Meaning.MillionIsRefused | crud/tablequery.go:594-602 | `[1000000]` is refused |
| Where2Right.ListConditionMeans | crud/tablequery.go:381-492 | on every dialect a right request asks what its operator means of the list in the message |
| StandIn.TakenIff | crud/tablequery.go:402-488 | what a dialect takes for an element of a document is its stand-in alone, or on SQLite a uint64 of the same binary64 value |
| Where2Right.RightIff | crud/tablequery.go:381-492 | for every operator and dialect the condition is right for every list of its kind exactly when the request is right, as read off the value text: no big number named; every stand-in asked for; no stand-in but what is asked for, or an element without one |
| Where2Right.PgIntegersRight | crud/tablequery.go:411-421 | an array accepted for a PostgreSQL list of integers is right, quoted numbers included |
| Where2Right.PgNullIff | crud/tablequery.go:561-591 | for a PostgreSQL list of texts or booleans it is right exactly without null, or for OVERLAP with the zero value |
| Where2Right.LiteNumbersRight | crud/tablequery.go:442-447 | an array of numbers within int64 or with a fraction or exponent is right for a SQLite list of integers other than uint64 |
| Where2Right.MapConditionMeans | crud/tablequery.go:354-365 | on SQLite a right request asks what its operator means of a map |
| Where2Right.MapRightIff | crud/tablequery.go:354-365 | on SQLite the condition is right for every map of its kind exactly when the request is right |
| MapMeaning.ObjectConditionMeans | crud/tablequery.go:328-353 | on PostgreSQL and MySQL the condition on a map holds exactly when the map has the key, or every member of the document by value |
| MapMeaning.HasKeyRightIff | crud/tablequery.go:344-347 | HAS_KEY on MySQL is right for every map exactly when the key has no dot, among keys that a JSON path can name without quotes |
| MapMeaning.DottedKeyIsMissed | crud/tablequery.go:344-347 | HAS_KEY `a.b` misses a map that has the key `a.b` |
| BigNumbers.BigNumberIsMissed | crud/tablequery.go:536-542 | on SQLite and MySQL a uint64 from 2^63 on is not found in a list that holds it |
| BigNumbers.TheFirstMissed | crud/tablequery.go:536-542 | CONTAINS "9223372036854775808" on a uint64 list misses that number on SQLite and MySQL |
| BigNumbers.OverlapRightIff | crud/tablequery.go:442-444 | OVERLAP with an array of uint64 numbers is right on SQLite for every list exactly when every uint64 that rounds to one of them is one of them |
| BigNumbers.ContainsAllRightIff | crud/tablequery.go:445-447 | CONTAINS_ALL with an array of uint64 numbers is right on SQLite for every list exactly when all are below 2^63 |
| BigNumbers.OneNumberIff | crud/tablequery.go:442-447 | with one number both are right exactly when it is below 2^63 |
| BigNumbers.OverlapFindsNeighbour | crud/tablequery.go:442-444 | OVERLAP with `[9223372036854775808]` finds the list of the next number |
| BigNumbers.ContainsAllFindsNeighbour | crud/tablequery.go:445-447 | CONTAINS_ALL with `[9223372036854775809]` finds the list of the number before |
| BigNumbers.MapContainsRightIff | crud/tablequery.go:354-365 | CONTAINS on a SQLite map of uint64 is right for every map exactly when all given numbers are below 2^63 |
| BigNumbers.MapContainsFindsNeighbour | crud/tablequery.go:354-365 | CONTAINS with the number 2^63 finds a map that holds the next number |
| QueryCap.TableQueryBuildSQLCap | crud/tablequery.go:143-203 | no statement of the request is longer than predicted, for any orders, operators and dialect |
| TableQuery.ValidateIdentifierSegment | crud/tablequery.go:308-319 | accepts exactly unqualified identifiers |
| TableQuery.FieldFound | crud/tablequery.go:284-304 | a name finds a field exactly when one has it up to case |
| TableQuery.ValidateResultColumns | crud/tablequery.go:259-276 | a single star, or acceptable expressions without a star |
| TableQuery.ValidateTableQueryIdentifiers | crud/tablequery.go:212-254 | accepts exactly the valid requests, for any walk of the maps |
| TableQuery.SameNames | crud/tablequery.go:86-99 | equal sizes and an operator for every field make the key sets equal |
| TableQuery.TableQueryBuildSql | crud/tablequery.go:22-141 | built exactly for valid requests with writable conditions; the statement, its text and arguments; the text fits the reserved capacity; what the text says is stated by QueryAnswer.TextAnswers |
| QueryMeaning.QueryBinds | crud/tablequery.go:47-125 | one argument for each placeholder, no number out of range |
| QueryMeaning.OperatorMeans | crud/tablequery.go:100-125 | the condition emitted for an operator that is right (`Where2Right.Right`, `Where2Right.MapRight`) holds of a cell exactly when the stored list or map is as the operator asks |
| QueryMeaning.EmittedMeans | crud/tablequery.go:47-125 | a row satisfies the statement exactly when the permission and every emitted condition hold of it, each with its own argument |
| QueryMeaning.QueryMeans | crud/tablequery.go:22-141 | a row satisfies the statement exactly when the permission, every equality and what every operator asks hold of it, the operators being right |
| QueryMeaning.AnswerMeans | crud/tablequery.go:127-136 | the answer is the requested rows, each once without bounds, and windowed otherwise; on MySQL and SQLite an offset needs a limit |
| QueryMeaning.WhereIff | crud/tablequery.go:52-95 | WHERE is written exactly when the request has a condition |
| QueryText.StatementRead | crud/tablequery.go:22-141 | the text of a query is read as its table, the permission, its conditions one by one between ANDs, and its bounds |
| QueryAnswer.QueryRead | crud/tablequery.go:22-141 | the text of a built query is read as the request's table and bounds, the permission, and one condition for each field |
| QueryAnswer.TextAnswers | crud/tablequery.go:22-141 | read as SQL, the text is answered exactly when no list or map field is shadowed by a column of json_each and an offset has the limit it needs, and then with the requested rows, windowed |
| QueryAnswer.ShadowedIsRefused | crud/tablequery.go:436-441 | CONTAINS on a list field `value` is refused on SQLite, whatever the table holds |
| Migrate.UniqueKeyColumnsEqual | ddl/create.go:1218-1231 | the loop computes the comparison by counting |
| Migrate.CountingDecidesIff | ddl/create.go:1218-1231 | counting decides equality of column sets exactly for names that differ up to case |
| Migrate.CreateOneUniqueKeySql | ddl/create.go:341-369 | the text of an index statement |
| Migrate.DeclaredCreatable | ddl/create.go:853-867 | every declared index has existing, distinct columns |
| Migrate.DbMigrateTableMysql | ddl/create.go:802-958 | the statements can be run in turn on the whole catalogue and change the named table alone: it keeps its columns, gets each missing one with its declared definition, and has every declared index; the script is read as these statements; a conforming table gets none; every declared index is unique afterwards exactly when no index that is not unique passed for one |
| Migrate.UniqueIff | ddl/create.go:970-989 | in the catalogue a migration aims at every declared index is unique exactly when no existing index that is not unique has a declared name and the columns declared for it |
| Migrate.LookalikeStays | ddl/create.go:970-989 | a table whose index of the declared name and column is not unique gets no statement and keeps it so |
| Migrate.TargetIsFixed | ddl/create.go:802-958 | the catalogue a migration aims at is aimed at again by the next one |
| Migrate.MigrateAgain | ddl/create.go:802-958 | a second migration adds no statement |
| Migrate.TargetMeans | ddl/create.go:853-958 | what the migrated table has: its old columns, each missing one with the declared definition, every declared index with the declared columns, and every other index |
| MigrateText.ReadAlterOf | ddl/create.go:868-880 | an ALTER TABLE is read as its table, its column and its definition |
| MigrateText.ReadScriptOf | ddl/create.go:341-369 | a script of index statements is read as these statements, each with its table, index and columns |
| Scanner.Dest.Scan | crud/dbscan.go:68-100 | a destination holds what it takes from the value alone, whatever it held before |
| Scanner.ProtoMsg.SetBytes | crud/dbscan.go:189-200 | bytes are copied into an array of their own |
| Scanner.SetProtoMsgFieldDirect | crud/dbscan.go:119-222 | the direct setter and the class of its errors; a list or map that fails may be left empty or partly filled, nothing else changes |
| Scanner.SetProtoMsgField | crud/dbscan.go:378-418 | the fallback setter, which casts integers without a check |
| Scanner.SetColumn | crud/dbscan.go:309-320 | the fallback is tried after a plain error only; the field gets the value, or an error leaves every other field, and a field of its own value as well |
| Scanner.NarrowIntegersExact | crud/dbscan.go:102-217 | through both setters, a 32-bit or enum column gives the scanned integer exactly; it fails exactly when there is none or it is out of range |
| Scanner.UnmarkedTruncates | crud/dbscan.go:102-117 | were the range error not marked, another integer would be stored |
| Scanner.RowIntegersExact | crud/dbscan.go:297-323 | in a row scanned without an error every 32-bit or enum field is the driver's integer, or was NULL |
| Scanner.ScalarGives | crud/dbscan.go:119-222 | what a scanned value gives a singular field of every kind: the driver's boolean, integer, number, text or bytes as the kind takes it, or an error |
| Scanner.WideIntegersExact | crud/dbscan.go:156-161 | an int64 or uint64 column gives the driver's integer exactly over the full range |
| Scanner.DecodedSays | crud/dbscan.go:297-323 | a row scanned without an error gives each field what its column says, said of the row and the message alone, and nothing else changes |
| Scanner.DecodedIff | crud/dbscan.go:297-323 | a row is scanned without an error exactly when every column has a value its field takes |
| Scanner.DbRowScanner.Scan | crud/dbscan.go:297-323 | the message gets in the field of each column the driver's value as the field's kind takes it, absent for NULL; it succeeds exactly when every column can be taken, and shares no buffer with the scanner |
| Scanner.ScanAll | crud/dbscan.go:297-323 | every message scanned with one scanner holds its own row at the end, as for Scan |
| Scanner.DbRowPairScanner.Scan | crud/dbscan.go:1033-1079 | the first half of a row goes to the old message and the second to the new one |
| Scanner.NewDbRowPairScanner | crud/dbscan.go:991-1031 | an odd number of columns is refused |

## Left out

- BuildItem: column types, defaults, the primary key and index texts of CREATE TABLE.
- PlanTable: a nil memo map, which is refused at once; and that a message is registered under its own name, by which the memo map is keyed.
- MapRoundTrip: floating-point values, because their text is a library's.
- MapAlwaysDecodes: floating-point values, as for MapRoundTrip.
- StoreAndLoadMap: floating-point values, as for MapRoundTrip.
- JsonListRoundTrip: floating-point lists; it asks that the rounded number fits an int64, because Go leaves the conversion of a larger float64 to the implementation.
- PgListRoundTrip: bytes lists, which PostgreSQL prints in a form the decoder does not read, and floating-point lists.
- ValidateTableQueryIdentifiers: compares names by ASCII case only, where the source folds all of Unicode.
- FieldFound: compares names by ASCII case only, as ValidateTableQueryIdentifiers.
- ValidateExpression: which non-ASCII characters are letters and digits is a parameter.
- ParseScalarJSONArray: JSON numbers beyond the range of a float64, which Go refuses to decode.
- ListConditionMeans: lists of floating-point numbers, bytes and messages are the server's; so are lists of booleans on MySQL, because how a driver passes a boolean into a JSON array is not part of this model. PostgreSQL refuses an argument that does not fit the column's integer type. A value text of an array operator that holds no JSON array, and on MySQL one with fractions or nested values, is the server's to compare.
- RightIff: the kinds and documents that ListConditionMeans leaves out.
- MapConditionMeans: maps on PostgreSQL and MySQL, for which ObjectConditionMeans is, and a value text of CONTAINS that holds no JSON object.
- ObjectConditionMeans: on MySQL documents with fractions or nested values, and keys that are no names in a JSON path (HasKeyRightIff), which the code assumes away (crud/tablequery.go:345); a value text of CONTAINS that holds no JSON object.
- MapConditionFinds: maps on PostgreSQL and MySQL, as MapConditionMeans.
- MapRightIff: maps on PostgreSQL and MySQL, as MapConditionMeans.
- LiteListMeans: lists of floating-point numbers, bytes and messages.
- MyListMeans: lists of booleans, floating-point numbers, bytes and messages, and documents with fractions or nested values.
- PgListMeans: lists of floating-point numbers, bytes and messages.
- OperatorMeans: an operator on a list or map that ListConditionMeans and MapConditionMeans leave out (lists and maps of floating-point numbers, bytes and messages, and those of ObjectConditionMeans) is left to the operator the server has for it.
- QueryMeans: columns that hold NULL, and comparisons of scalars, which are the server's; lists and maps as for OperatorMeans.
- AnswerMeans: columns, comparisons, lists and maps, as for QueryMeans.
- TextAnswers: field names that are words starting a condition (`NOT`, `EXISTS`) and would need quotes; the permission's text and the result columns are taken as given; otherwise as QueryMeans.
- QueryRead: the same field names as TextAnswers.
- ReadRender: tables and columns whose names would need quotes.
- ReadInsertText: names, as for ReadRender.
- ReadAlterOf: names, as for ReadRender.
- ReadScriptOf: names, as for ReadRender.
- DbBuildSqlSelectOne: given key columns and the check that they are a primary or unique key, and given result columns.
- DbSelectOne: given key columns and result columns, as DbBuildSqlSelectOne, and errors while scanning the returned row.
- DbUpdate: the number of affected rows, which drivers count differently.
- DbUpdateReturnNew: errors while scanning the returned row.
- DbUpdateReturnOldAndNew: errors while scanning the returned rows, which the full update ignores (crud/update.go:335-337).
- ShapesAgree: messages with an empty message field to be stored as a default text, which only the common-table-expression form refuses (CteBuildableIff).
- DialectsAgreeIff: the same messages as ShapesAgree.
- DbInsertReturn: how a server fills columns that are left out, and what it refuses, are parameters; generated ids lie between 1 and 2^63-1.
- DbMigrateTableMysql: an existing table with reference checking off and without SQLMigrate statements, and columns or indexes whose names differ up to case; an index is its columns and whether it is unique, without prefix lengths or order; column types and defaults are opaque text. The server takes several index statements in one text.
- DbRowScanner.Scan: lists, maps and messages are set from their text by a parameter; `ListCodec` and `Codec` describe lists and maps.
- DbRowPairScanner.Scan: lists, maps and messages, as for DbRowScanner.Scan.
- Reference recursion of the PostgreSQL and MySQL migrations: `isSqlInitItemExist` stores the parent under the dependency's name (ddl/create.go:798), so the planner's statements do not hold there.
- PostgreSQL and SQLite migration; on SQLite the unique-index statements are computed but never added.
- Transactions, concurrent writers, constraint checks and value coercion by a database: a table is a set of rows, and a sequence of statements is not interrupted.
- JSON text, protojson, base64 and floating-point text are parameters.
- HTTP, RPC wiring, broadcasting, the message and query stores, and the caches of descriptors, dialects and versions.
