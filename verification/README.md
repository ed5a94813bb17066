# Editor-Node `Editor` core, in Dafny

This project models the server-side core of the `Editor` class in
`src/editor.ts`, which answers DataTables Editor requests. Given a request,
it reads rows, creates rows, edits rows or removes rows, in one or more
tables, through a knex database handle.

The model replaces the database with a log of the statements the editor
issues: `Select`, `Insert`, `Update` and `Delete`. A `Store` gives the
database's answers as functions of the statements issued so far: the key an
insert returns and the rows a select returns. Field descriptors are
records. Each record holds the field's name, its db column, its `apply`
policy, the value it sets, the value it writes out, whether it has a cached
value, and whether its `set()` option is truthy.

Modules:

- `Text`: the JavaScript string operations the editor uses, over `seq<char>`.
  These are `indexOf`, `replace` with a string pattern, `split` on a string,
  and `join`. It also proves the split/join laws.
- `Values`: row values, JavaScript truthiness and `String(v)`, and the errors
  the editor throws, each with its message. `Option` stands for `null`;
  `Result` carries a thrown error.
- `Actions`: the static `Editor.action` and the dispatch `_process` performs.
- `Identifiers`: `_part`, which splits a `db.table.column` identifier, and
  `_alias`, which resolves a `"table as alias"` name.
- `Fields`: the field record, and the first-match lookups `field(name)` and
  `_findField`.
- `PrimaryKey`: `pkeyToValue`, `pkeyToArray` and `_pkeySeparator`, and the
  round trip between them.
- `Statements`: the statement log, the store, the configuration value, the
  condition a wire id decodes to, and a generic loop over the tables.
- `Reader`: `_get`, which builds the projection, the condition and the output
  rows.
- `Mutation`: the column set; `_insertOrUpdateTable` and `_insertOrUpdate`;
  `_pkeyValidateInsert`, `_insert` and `_update`; `_removeTable` and
  `_remove`.
- `Processor`: `_process` as a function of the log and the request.
- `EditorClass`: the `Editor` class itself. Its fields are the configuration,
  the statement log and the response. It has the chainable setters and the
  imperative operations. Each operation's loops are proved to compute exactly
  what the functions of `Reader`, `Mutation` and `Processor` specify.

Behaviour of the code that is easy to miss, and that the model keeps:

- An action string other than the four names is rejected only by the static
  `Editor.action`. `_process` does not reject it; it edits with it
  (`Processor.UnknownActionEdits`).
- `_alias` looks for `" as "` case-sensitively, then splits on it
  case-insensitively.
- Once a create has learned its key from the first insert, `_insertOrUpdate`
  does not insert into the later tables. It updates them at the decoded key
  (`Mutation.UpsertCreating`).
- `pkeyToValue` in flat mode treats every falsy component (`0`, `""`,
  `false`) as missing, not only an absent one.
- `_update` strips the id prefix, and `pkeyToArray` then strips its first
  occurrence again.
- An insert for which no field applies issues no insert. It then reads back
  the first row of the whole table (`Mutation.InsertWithoutColumnsReadsAll`).
- `idPrefix(p)` replaces the prefix. `table`, `pkey` and `fields` append.
  `pkey` appends to the default `["id"]`, so `new Editor(db, t, "x")` has
  the key `["id", "x"]`.
- An identifier with four or more segments has no parts. `_insertOrUpdateTable`
  then stores its value under the column `"undefined"`.

## Model

| member | source | states |
|---|---|---|
| Actions.ActionOf | src/editor.ts:41-61 | Read exactly when the request or its action is absent or empty; a recognised action's name is the action string; any other string throws "Unknown Editor action" with that string |
| Actions.ActionNameRoundTrip | src/editor.ts:46-58 | create, edit, remove and upload are each recognised from their own name |
| Actions.ActionAccepted | src/editor.ts:41-61 | an action string is accepted exactly when it is empty or one of the four names |
| Actions.Dispatch | src/editor.ts:345-383 | definition of the branch `_process` takes for an action string: none or empty reads, "upload", "remove", and otherwise "create" inserts and every other string edits; see `Actions.DispatchAgreesWithAction` |
| Actions.DispatchAgreesWithAction | src/editor.ts:345-383 | `_process` takes the read, upload, remove and create branches exactly for the strings `action` maps to Read, Upload, Delete and Create; every other string, including those `action` rejects, goes to the edit branch |
| Identifiers.Part | src/editor.ts:655-682 | definition of `_part`: a dot-free name is a bare column; otherwise the "."-split gives db, table and column for three pieces, table and column for two, and nothing for any other count; see `Identifiers.PartOfDotted`, `Identifiers.ColumnIsBare` |
| Identifiers.PartOfDotted | src/editor.ts:655-682 | for one to three dot-free segments joined by ".", `_part` gives them back as column, table and column, or db, table and column; with four or more segments every part is undefined |
| Identifiers.SegmentsCoverName | src/editor.ts:658-659 | every identifier is the "."-join of its dot-free split pieces, so the segmentation lemma covers all names |
| Identifiers.ColumnIsBare | src/editor.ts:655-682 | the column part never contains a dot |
| Identifiers.IndexOfAsFrom | src/editor.ts:686 | the first case-insensitive " as " at or after a position, or -1 when there is none |
| Identifiers.SplitAs | src/editor.ts:686 | the split by / as /i has at least one piece, and at least two when there is a match |
| Identifiers.AsMatches | src/editor.ts:686 | the split cuts at one fewer match than it has pieces, and every match is a four-character case variant of " as " |
| Identifiers.SplitAsJoin | src/editor.ts:686 | putting the matches back between the pieces gives the split name back |
| Identifiers.SplitAsPiecesFree | src/editor.ts:686 | no piece of the split holds a case-insensitive " as " |
| Identifiers.Alias | src/editor.ts:684-693 | definition of `_alias`: a name with a case-sensitive " as " gives the second (alias) or first (original) piece of its split by / as /i, any other name itself; see `Identifiers.AliasOfSpec`, `Identifiers.AliasSplitIgnoresCase`, `Identifiers.AliasPieces`, `Identifiers.AliasWithoutInfix` |
| Identifiers.AliasOfSpec | src/editor.ts:684-693 | for `"table as alias"` with no case-insensitive " as " starting inside the table (spaces allowed, as in "my t as a"), the original name is the table and the alias is the alias up to its own first " as " |
| Identifiers.AliasSplitIgnoresCase | src/editor.ts:685-686 | detection is case-sensitive but the split is not: `_alias("t AS x as y")` is `x`, and the original name is `t` |
| Identifiers.AliasPieces | src/editor.ts:684-693 | whenever a name holds a lower-case " as ", the split by / as /i has at least two pieces, the original name is the first and the alias the second |
| Identifiers.AliasWithoutInfix | src/editor.ts:684-693 | a name without a case-sensitive " as " is returned unchanged for both kinds |
| Fields.ColumnKey | src/editor.ts:630-631 | definition of the key `_insertOrUpdateTable` stores a field's value under: `_part(dbField, 'column')`, or "undefined" when the identifier has four or more segments; see `Mutation.SetOfKeys`, `Mutation.SetKeysBare` |
| Fields.Owns | src/editor.ts:554-555 | definition of `_removeTable`'s test that a field owns the table: its column has no "." or it belongs to the table and its `set()` option is falsy; see `Mutation.OwningCountPositive` |
| Fields.FindFrom | src/editor.ts:697-712 | the index of the first matching field at or after the start, or none when no field from there matches |
| Fields.FindField | src/editor.ts:697-712 | `_findField` finds the first field whose name (or db column) matches, and finds nothing exactly when none matches |
| Fields.FieldNamed | src/editor.ts:122-130 | succeeds exactly when some field has the name, and returns the first such field; otherwise fails with "Unknown field" |
| EditorClass.Editor.FieldByName | src/editor.ts:122-130 | the lookup loop returns the first field with the name, or throws "Unknown field" exactly when none has it |
| Text.IndexFrom | src/editor.ts:658 | `indexOf`: the result is an occurrence with none before it, or -1 when there is none |
| Text.JoinSplit | src/editor.ts:255 | joining the pieces of a split with the separator gives back the split string |
| Text.SplitJoin | src/editor.ts:248-255 | splitting a join of joinable pieces (each but the last separable, the last free of the separator) gives back the pieces |
| Text.SplitPiecesFree | src/editor.ts:255 | no piece of a split contains the separator |
| Text.ContainedSeparatorSplits | src/editor.ts:255 | a string containing the separator splits into at least two pieces |
| Text.BorderFreeSeparable | src/editor.ts:658-659 | with a border-free separator (every one-character one is), a piece that does not contain it is separable |
| Text.SeparableNotContained | src/editor.ts:255 | a separable piece never contains the separator, so separability is at least as strong as "does not contain it" |
| Text.StripPrefix | src/editor.ts:254 | `replace(prefix, "")` on `prefix + x` gives `x` |
| PrimaryKey.Separator | src/editor.ts:737-741 | definition of `_pkeySeparator`: the checksum of the comma-joined key columns, so the separator is fixed by the key; see `PrimaryKey.RoundTrip` |
| PrimaryKey.Encode | src/editor.ts:224-249 | definition of what `pkeyToValue(row, true)` returns or throws; see `PrimaryKey.PkeyToValue`, `PrimaryKey.RoundTrip` |
| PrimaryKey.PkeyToValue | src/editor.ts:224-249 | throws "Primary key element is not available" exactly when some key column is absent or falsy; otherwise returns the components' text, in key order, joined by the separator |
| PrimaryKey.Decode | src/editor.ts:251-275 | definition of what `pkeyToArray(value, true)` returns or throws; see `PrimaryKey.PkeyToArray`, `PrimaryKey.DecodeJoin`, `PrimaryKey.RoundTrip` |
| PrimaryKey.Zip | src/editor.ts:265-272 | definition of the map `arr[pkey[i]] = idParts[i]` builds in order; see `PrimaryKey.ZipEntries`, `PrimaryKey.ZipLastWins` |
| PrimaryKey.PkeyToArray | src/editor.ts:251-275 | throws "Primary key data doesn't match" exactly when the prefix-stripped id splits into a number of parts other than the number of key columns; otherwise zips columns to parts |
| PrimaryKey.ZipEntries | src/editor.ts:265-272 | the decoded map has an entry for exactly the key columns, each holding the part at that column's position |
| PrimaryKey.ZipLastWins | src/editor.ts:265-272 | a key column listed twice gets the part at its last position |
| PrimaryKey.DecodeJoin | src/editor.ts:248-275 | decoding the prefixed join of joinable parts gives the parts zipped with the key columns |
| PrimaryKey.RoundTrip | src/editor.ts:224-275 | decoding `idPrefix + pkeyToValue(row)` maps every key column back to the text of the row's component, provided each component but the last is separable from the separator and the last does not contain it |
| PrimaryKey.SeparatorInValueBreaks | src/editor.ts:224-275 | with a one-column key, a component that contains the separator encodes, but the id never decodes |
| Statements.WhereOf | src/editor.ts:415-417 | a null id adds no condition; a given id adds its decoded key, and fails exactly when it does not decode |
| Statements.WhereFor | src/editor.ts:585-587 | computes the condition `_insertOrUpdate` passes for the running id |
| Reader.Projection | src/editor.ts:397-408 | definition of `_get`'s select list; see `Reader.ProjectionColumns`, `Reader.SelectColumns` |
| Reader.ProjectionColumns | src/editor.ts:397-408 | the select list starts with the key columns, and after them are exactly the db columns of the readable, uncached, non-key fields |
| Reader.SelectColumns | src/editor.ts:397-408 | the select-list loop builds that projection |
| Reader.WriteFields | src/editor.ts:430-434 | definition of the writes of the readable fields into an output row, in field order; see `Reader.WriteFieldsKeys`, `Reader.WriteFieldsKeeps`, `Reader.WriteFieldsLastWins` |
| Reader.OutputRow | src/editor.ts:424-434 | definition of one output row: `DT_RowId` is the prefix plus the encoded key, then the field writes; a missing key component throws; see `Reader.RowIdRoundTrip` |
| Reader.Synthesize | src/editor.ts:423-437 | definition of the output rows for a result, stopping at the first row whose key fails to encode; see `Reader.SynthesizeRowwise`, `Reader.SynthesizeRows` |
| Reader.WriteFieldsKeys | src/editor.ts:426-434 | an output row holds `DT_RowId` and one entry for each readable field's name, and nothing else |
| Reader.WriteFieldsKeeps | src/editor.ts:426-434 | an entry that no readable field names keeps its value |
| Reader.WriteFieldsLastWins | src/editor.ts:430-434 | a name holds the value of the last readable field with that name |
| Reader.SynthesizeRowwise | src/editor.ts:423-437 | one output row per result row, in order; building fails, with the missing-component error, exactly when some result row lacks a key component |
| Reader.SynthesizeRows | src/editor.ts:423-437 | the row loops build exactly those output rows, stopping at the first key that fails to encode |
| Reader.RowIdRoundTrip | src/editor.ts:426-428 | every output row's `DT_RowId` decodes back to the key components of its result row, when the components are joinable and no readable field is itself called `DT_RowId` |
| EditorClass.Editor.Separator | src/editor.ts:737-741 | definition of `_pkeySeparator` on the editor's own key columns; see `EditorClass.Editor.RowIdDecodes` |
| EditorClass.Editor.RowIdDecodes | src/editor.ts:426-428 | under the class invariant (the key starts with "id", so is never empty), the `DT_RowId` `_get` builds for a row decodes back to the row's key components, when they are joinable and no readable field is called `DT_RowId` |
| Reader.GetRun | src/editor.ts:394-449 | definition of `_get(id)` on the log: decode the id, append one select of the projection, throw on a falsy result, build the rows; see `EditorClass.Editor.Get`, `Processor.ReadSelectsAll` |
| EditorClass.Editor.Get | src/editor.ts:394-449 | an undecodable id throws before anything is issued; otherwise one select of the projection is issued, restricted to the decoded id; a falsy result throws; the output rows are built |
| Mutation.SetOf | src/editor.ts:608-632 | definition of the `set` object: each applicable field, in order, stores its value under its bare column; see `Mutation.SetOfKeys`, `Mutation.SetOfLastWins`, `Mutation.SetKeysBare`, `Mutation.BuildSet` |
| Mutation.SetOfKeys | src/editor.ts:608-632 | the set holds a column exactly when some applicable field writes it |
| Mutation.SetOfLastWins | src/editor.ts:608-632 | a column holds the value of the last applicable field that writes it |
| Mutation.SetKeysBare | src/editor.ts:628-631 | every column in the set is a bare name, without a db or table qualifier |
| Mutation.BuildSet | src/editor.ts:608-632 | the loop builds exactly that set |
| Mutation.PlanTable | src/editor.ts:634-651 | definition of the statement `_insertOrUpdateTable` issues for a set; see `Mutation.PlanTableShape` |
| Mutation.PlanTableShape | src/editor.ts:602-652 | nothing is issued exactly when no field applies; otherwise the table gets an insert without a condition, or an update restricted to the condition |
| EditorClass.Editor.InsertOrUpdateTable | src/editor.ts:602-652 | appends the planned statement to the log, and returns the key the store gives an insert (null otherwise) |
| Mutation.UpsertTable | src/editor.ts:581-597 | definition of one table of `_insertOrUpdate`: decode the running id, issue the planned statement, learn the inserted key while no id is known; see `Mutation.EditTable`, `Mutation.CreateStep` |
| Mutation.Upsert | src/editor.ts:577-600 | definition of `_insertOrUpdate` after its first `n` tables, as a fold of `Mutation.UpsertTable`; see the `Mutation.Upsert*` lemmas |
| Mutation.UpsertAll | src/editor.ts:577-600 | definition of `_insertOrUpdate` over every table; see `EditorClass.Editor.InsertOrUpdate` |
| Mutation.UpsertFailureStays | src/editor.ts:577-600 | once a table throws, later tables issue nothing |
| Mutation.UpsertThrows | src/editor.ts:581-588 | a running id that does not decode throws at that table, and the run ends there |
| Mutation.UpsertGrowth | src/editor.ts:577-600 | each table gets at most one statement |
| Mutation.UpsertEditingUndecodable | src/editor.ts:577-600 | editing with an id that does not decode issues nothing and throws the arity error at the first table |
| Mutation.UpsertEditingDecodable | src/editor.ts:577-600 | editing with an id that decodes returns the id unchanged, and issues only updates restricted to the decoded id; the exact log is `Mutation.UpsertEditingExact` |
| Mutation.UpsertCreating | src/editor.ts:577-600 | a create issues nothing while no key is known; the key it returns is the one the first insert returned, and every later statement is an update at that decoded key; a failure is that key not decoding, right after the insert; the exact log is `Mutation.UpsertCreatingExact` |
| Mutation.UpdateEach | src/editor.ts:581-597 | one update of the same set at the same condition per table, in table order, and none at all for an empty set |
| Mutation.EditTable | src/editor.ts:581-597 | once the running id is a key that decodes, a table gets exactly the update of the edit set at the decoded key (nothing for an empty set), and the id is kept |
| Mutation.UpdatesFrom | src/editor.ts:577-600 | from the table where the running id became a decodable key on, every table gets exactly that update, in order |
| Mutation.UpsertEditingExact | src/editor.ts:577-600 | editing with an id that decodes issues exactly one update of the edit set at the decoded id for every table, in order (nothing when the set is empty), and returns the id |
| Mutation.UpsertCreatingExact | src/editor.ts:577-600 | a create with an empty create set issues nothing and learns no key; otherwise the first table gets the insert of the set, whose returned key is kept; every later table gets the update of the edit set at the decoded key, or, when the key does not decode, the second table throws the arity error |
| Mutation.NoInsertWithoutColumns | src/editor.ts:634-636 | when no field applies for creation, a create issues nothing and learns no key |
| EditorClass.Editor.InsertOrUpdate | src/editor.ts:577-600 | the table loop issues the statements and returns the id that the fold over the tables specifies |
| Mutation.PkeyValidateInsert | src/editor.ts:715-735 | accepts exactly a one-column key, or a key each of whose columns has a first field that applies for creation; otherwise throws the compound-key error |
| Mutation.InsertNeedsKeyColumns | src/editor.ts:451-458 | a composite-key insert with a key column not submitted throws before issuing anything |
| Mutation.InsertWithoutColumnsReadsAll | src/editor.ts:451-475 | an accepted insert for which no field applies issues exactly one unrestricted select |
| Mutation.InsertReadsBack | src/editor.ts:451-475 | an accepted insert issues the creating run, then one select of the projection: unrestricted when no key was learned, restricted to the decoded key otherwise; a learned key that does not decode throws right after the single insert |
| Mutation.InsertReturnsFirstRow | src/editor.ts:466-474 | an accepted insert that succeeds ends with the read-back select and returns null when it finds no rows, else the output row of the first row; it can only fail with the arity, execution or missing-component error |
| Mutation.InsertRun | src/editor.ts:451-475 | definition of `_insert`; see `Mutation.InsertNeedsKeyColumns`, `Mutation.InsertWithoutColumnsReadsAll`, `Mutation.InsertReadsBack`, `Mutation.InsertReturnsFirstRow` |
| EditorClass.Editor.Insert | src/editor.ts:451-475 | validates the key, inserts across the tables, then reads back the first row at the learned key |
| Mutation.UpdateTargetsDecodedId | src/editor.ts:477-499 | an update whose stripped id does not decode throws before issuing anything; otherwise it issues only updates at the decoded id, then one select restricted to it |
| Mutation.UpdateRun | src/editor.ts:477-499 | definition of `_update`; see `Mutation.UpdateTargetsDecodedId` |
| EditorClass.Editor.Update | src/editor.ts:477-499 | strips the prefix, updates across the tables, then reads back the first row |
| Mutation.OwningCount | src/editor.ts:546-559 | definition of `_removeTable`'s count of owning fields; see `Mutation.OwningCountPositive`, `Mutation.CountOwning` |
| Mutation.OwningCountPositive | src/editor.ts:546-559 | the count is positive exactly when some field has an unqualified column, or belongs to the table and has a falsy `set()` option |
| Mutation.CountOwning | src/editor.ts:546-559 | the counting loop computes that count |
| Mutation.DecodeAll | src/editor.ts:561-568 | definition of the conditions `_removeTable` ORs together; see `Mutation.DecodeAllFails`, `Mutation.DecodeAllEach`, `Mutation.Conditions` |
| Mutation.DecodeAllFails | src/editor.ts:561-568 | decoding the ids succeeds exactly when every id decodes; otherwise it throws the arity error |
| Mutation.DecodeAllEach | src/editor.ts:561-568 | there is one condition per id, and each condition is that id decoded |
| Mutation.Conditions | src/editor.ts:561-568 | the loop over the ids builds those conditions, stopping at the first failure |
| Mutation.RemoveTableRun | src/editor.ts:542-574 | definition of `_removeTable(table, ids)`; see `Mutation.RemoveTableEffect`, `EditorClass.Editor.RemoveTable` |
| Mutation.RemoveTableEffect | src/editor.ts:542-574 | a table no field owns is left alone; otherwise it gets one delete with exactly one condition per id, unless some id does not decode, which throws with nothing issued |
| EditorClass.Editor.RemoveTable | src/editor.ts:542-574 | issues exactly the delete specified for the table, or throws |
| Mutation.RemoveTables | src/editor.ts:531-537 | definition of `_remove`'s loop over the tables, as a fold of `Mutation.RemoveTableRun`; see the `Mutation.RemoveTables*` lemmas |
| Mutation.RemoveTablesFailureStays | src/editor.ts:533-537 | once a table throws, later tables issue nothing |
| Mutation.RemoveTablesDeletes | src/editor.ts:531-537 | the table loop issues only deletes of exactly the ids, each against a configured table, at most one per table; the exact log is `Mutation.RemoveTablesExact` |
| Mutation.DeleteEach | src/editor.ts:531-559 | definition of the delete plan: one delete matching the conditions for each table some field owns, in table order; see `Mutation.DeleteEachSound`, `Mutation.DeleteEachComplete` |
| Mutation.DeleteEachSound | src/editor.ts:531-559 | the plan has at most one statement per table, and each is a delete matching the given conditions from one of the tables, one that some field owns |
| Mutation.DeleteEachComplete | src/editor.ts:531-559 | every owned table gets its delete in the plan |
| Mutation.RemoveTablesExact | src/editor.ts:531-574 | when every id decodes, the table loop issues exactly the delete plan (one delete of the decoded ids per owned table, in table order) and throws nothing |
| Mutation.RemoveTablesUndecodable | src/editor.ts:531-574 | when some id does not decode, the table loop issues nothing, and throws the arity error exactly when some table is owned |
| Mutation.RemoveDeletesSubmitted | src/editor.ts:501-540 | removing with no keys issues nothing; otherwise it issues only deletes matching exactly the prefix-stripped keys, at most one per table; the exact log is `Mutation.RemoveRunExact` |
| Mutation.StripAll | src/editor.ts:505-507 | definition of the ids `_remove` deletes: each submitted key with the first occurrence of the id prefix removed, one id per key; see `Mutation.RemoveRunExact`, `Mutation.RemoveDeletesSubmitted` |
| Mutation.RemoveRun | src/editor.ts:501-540 | definition of `_remove` for the submitted keys; see `Mutation.RemoveRunExact`, `EditorClass.Editor.Remove` |
| Mutation.RemoveRunExact | src/editor.ts:501-574 | no keys issue nothing; when every prefix-stripped key decodes, each owned table gets exactly one delete of them, in table order; otherwise nothing is issued, and the arity error is thrown exactly when some table is owned |
| EditorClass.Editor.Remove | src/editor.ts:501-540 | strips the prefix from every key, returns early when there is none, and otherwise runs the table loop |
| Processor.WriteOne | src/editor.ts:381-383 | definition of one step of the create/edit loop: `_insert(values)` when creating, else `_update(id, values)`; see `EditorClass.Editor.WriteRow`, `Processor.UnknownActionEdits` |
| Processor.WriteLoop | src/editor.ts:378-388 | definition of the create/edit loop over the submitted rows; see the `Processor.WriteLoop*` lemmas, `EditorClass.Editor.WriteAll` |
| Processor.WriteLoopStopsAtFailure | src/editor.ts:378-388 | after the first thrown error nothing more is written, and the data pushed so far is kept |
| Processor.WriteLoopBound | src/editor.ts:378-388 | each submitted row adds at most one output row |
| Processor.WriteLoopKeeps | src/editor.ts:378-388 | rows already pushed are never dropped or changed |
| Processor.UploadDoesNothing | src/editor.ts:349-351 | an upload request issues nothing and responds with no data |
| Processor.ReadSelectsAll | src/editor.ts:345-348 | a request without an action issues one unrestricted select and responds with every row built from the result, or throws on a falsy result |
| Processor.MissingDataThrows | src/editor.ts:352-357 | remove, create and edit requests without data throw before issuing anything |
| Processor.UnknownActionEdits | src/editor.ts:355-383 | an action string that `action` rejects is processed as an edit of each submitted row |
| EditorClass.Editor.WriteRow | src/editor.ts:380-387 | one submitted row is inserted or updated, and the row returned, if any, is pushed |
| EditorClass.Editor.WriteAll | src/editor.ts:378-388 | the create/edit loop leaves the log, the data and the error that the specified loop gives |
| Processor.ProcessOutcome | src/editor.ts:340-392 | definition of `_process` on the log and the request; see `Processor.*` lemmas, `EditorClass.Editor.ProcessRequest` |
| EditorClass.Editor.ProcessRequest | src/editor.ts:340-392 | resets the response, then leaves the log, the data and the thrown error that `_process` specifies |
| EditorClass.Editor.Process | src/editor.ts:278-318 | with `tryCatch` on, a thrown error is caught and its message stored in the response; otherwise it propagates; the log and data are those of `_process` |
| EditorClass.Editor.constructor | src/editor.ts:66-91 | starts with no fields, the key `["id"]` extended by the given key, the given tables, prefix "row_", `tryCatch` off and an empty log |
| EditorClass.Editor.SetTable | src/editor.ts:179-194 | appends a table or a list of tables; an empty argument changes nothing |
| EditorClass.Editor.SetPkey | src/editor.ts:207-222 | appends a column or a list of columns, so the default "id" stays first |
| EditorClass.Editor.AddFields | src/editor.ts:138-148 | appends the fields |
| EditorClass.Editor.AddField | src/editor.ts:133-134 | appends one field |
| EditorClass.Editor.SetIdPrefix | src/editor.ts:150-159 | replaces the prefix |
| EditorClass.Editor.SetTryCatch | src/editor.ts:320-328 | sets the error-capture flag |

## Left out

- The knex query builder, `await` and `returning` are replaced by the statement log and the `Store`. The store's answers depend only on the statements issued so far.
- Every insert, update and delete succeeds in the model, and an insert always returns a key. A rejected knex promise (a constraint violation, a lost connection) and `res[0].toString()` on an empty `returning` result are not modelled. The only database-side failure is a falsy select result.
- Field callbacks (`apply`, `val`, `getValue`, `set`) never throw in the model.
- EditorClass.Editor.Process: its `tryCatch` capture covers only the errors the editor itself raises, since the statements and field callbacks it would also catch cannot fail here.
- Strings are sequences of Unicode scalar values, not of UTF-16 code units as in JavaScript. Lone surrogates cannot be represented, and `indexOf` offsets differ for characters outside the Basic Multilingual Plane.
- Transactions are not modelled: the `_transaction` flag, the `_knexTransaction` swap, and the commit and rollback in `process`. `EditorClass.Editor.Process` models the `tryCatch` capture only.
- `crc32` is a foreign call. It is the `checksum` parameter, a deterministic function into non-empty strings.
- Only flat row access is modelled, which is the only access the core uses. `NestedData._readProp` and `_writeProp` are not part of this model.
- Field internals (`apply`, `val`, `write`, `getValue`, `set`) are not part of this model. Each is a value or a function in the field record, and `write` is modelled as storing the field's `writeValue(row)` (its `val('get', row)`) under the field's name.
- Events (`on`), the debug flag, and the getters `db()`, `data()`, `inData()`, `transaction()` and `debug()` are left out. They hold no logic the core depends on.
- The cancellation paths of `_process` and `_remove` are left out. Their `cancel` and `res` values are constants, so the paths never run, and `_out.cancelled` is never initialised.
- Joins, left joins, server-side processing, `where` and validation are left out because they are empty stubs. With no left joins, the table filter in `_insertOrUpdateTable` never applies, so `_alias` and the db-qualified table part computed there have no effect.
- `_removeTable`'s optional key-column argument is left out, because `_remove` always passes the default.
- Numbers are integers: floating point and `toString` of non-integers are not modelled.
- The order of `Object.keys` is taken as the order of the submitted rows. JavaScript lists integer-like keys first.
- `EditorClass.Editor.constructor` takes the table and key arguments as given values. `new Editor()` with a `null` table, which would throw on `table.length`, is not modelled.
- `PrimaryKey.RoundTrip` needs each component but the last to be separable from the separator, and the last not to contain it. Separable is stronger than "does not contain the separator" only when the separator has a border.
