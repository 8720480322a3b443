# podyn: replicating DynamoDB tables into PostgreSQL, modelled in Dafny

podyn copies DynamoDB tables into PostgreSQL (or Citus) and keeps them in sync.

- **Schema.** It derives a relational schema from the table's description. The declared attributes become columns, the key schema becomes the primary key and the distribution column, and the global secondary indexes become indexes. It creates the table on the destination.
- **Snapshot.** It scans the table page by page. Each page first grows the schema with the columns its items need. Those columns are created on the destination, and then the page's rows are loaded with one `COPY`.
- **Changes.** It follows the table's stream, shard by shard. Each batch of records adds the columns new images mention. Then each record is applied in order: an upsert, or a delete for a `REMOVE`.
- **Routing.** A hashed multi-emitter spreads the upserts and deletes over a pool of connections. The pool member is chosen by the hash of the distribution value. Schema changes and `COPY` loads go to the first member.

The SQL the replicator sends is rendered by its data model. That covers `CREATE TABLE`, `CREATE INDEX`, `ALTER TABLE ... ADD COLUMN`, `INSERT`, `INSERT ... ON CONFLICT ... DO UPDATE`, `DELETE` and the `COPY` text format. The model renders each of these texts. It then proves that a reader following the PostgreSQL lexical rules gets back what was written, for every input the renderer can write as a token. For an identifier that means a non-empty name that, when left bare, does not start with a digit (`Identifiers.Lexable`); `quoteIdentifier` leaves other names as they are, and they do not read back (see the behaviour notes below):

- identifiers, per section 4.1.1 "Identifiers and Key Words" of the PostgreSQL documentation;
- string constants with and without the `E` prefix, per section 4.1.2.2 "String Constants with C-Style Escapes";
- bytea hex output, per section 8.4.1 "bytea Hex Format";
- COPY text-format fields, lines and the `\N` null marker, per the "Text Format" part of the `COPY` reference page.

Modules, one file each:

| module | file | what it models |
|---|---|---|
| `Wrappers` | wrappers.dfy | `Option`, `Result`, `Outcome`: null and thrown exceptions |
| `Text` | text.dfy | joining, splitting and counting helpers |
| `JavaInts` | java_ints.dfy | Java `int` wrap-around, `Math.abs`, and `%` that truncates toward zero |
| `ColumnTypes` | column_types.dfy | `TableColumnType` |
| `ColumnValues` | column_values.dfy | `TableColumnValue` and `ByteArrayColumnValue`: string forms, COPY escaping, literal quoting, hex |
| `Identifiers` | identifiers.dfy | `requiresQuotes` and `quoteIdentifier`, plus a reader for identifier tokens and lists |
| `Schema` | schema.dfy | `TableColumn`, `TableIndex` and `TableSchema` (classes with checked mutators) and their SQL renderers |
| `Rows` | rows.dfy | `TableRow`, `PrimaryKeyValue` and `TableRowBatch` |
| `Emitters` | emitter.dfy | `TableEmitter`, as an emitter that records the calls it receives |
| `Dynamo` | dynamo.dfy | attribute values, type inference, the two schema-evolution rules, the values of a row and the key values |
| `Scanning` | scanner.dfy | `DynamoDBScanner` and its `ScannedBatch` |
| `Streaming` | streams.dfy | `DynamoDBShardStreamer` and its `StreamedBatch` |
| `Replication` | replication.dfy | `DynamoDBTableReplicator`: `fetchBaseSchema`, `replicateData`, `replicateChanges(streamer)` |
| `Routing` | routing.dfy | `HashedMultiEmitter` and Java's `String.hashCode` |

Objects whose fields the source updates in place are classes with `modifies` clauses: `TableSchema`, `TableRow`, `PrimaryKeyValue`, `TableRowBatch`, both readers, the replicator and the emitters. The loops of the source are methods with invariants. Each such method is proved equal to a specification function, and the properties are proved about that function. Key words are a parameter `keywords: set<string>`. The sorted-array `binarySearch` of the source is a membership test.

## Model

Source paths are relative to the repository root.

| member | source | states |
|---|---|---|
| ColumnTypes.VariantsAndNames | src/main/java/com/citusdata/migration/datamodel/TableColumnType.java:10-15 | exactly five variants, each listed once; their names are text, numeric, bytea, jsonb and boolean, pairwise distinct (so `bool` prints as "boolean") |
| ColumnTypes.EveryVariantListed | src/main/java/com/citusdata/migration/datamodel/TableColumnType.java:24 | every variant occurs in `values()` |
| ColumnTypes.FromName | src/main/java/com/citusdata/migration/datamodel/TableColumnType.java:23-31 | the lookup loop returns the variant whose canonical name is given (so `fromName(t.toString()) == t`), and text for any other string |
| ColumnTypes.TypeNamed | src/main/java/com/citusdata/migration/datamodel/TableColumnType.java:33-35 | a name denotes a variant exactly when it is that variant's `toString` |
| ColumnTypes.NameIsWord | src/main/java/com/citusdata/migration/datamodel/TableColumnType.java:11-15 | every type name is a non-empty lower-case word, so a DDL reader can find its end |
| ColumnValues.Unsigned | src/main/java/com/citusdata/migration/datamodel/TableColumnValue.java:133 | `b & 0xFF` is below 256 and congruent to the signed byte modulo 256 |
| ColumnValues.Hex | src/main/java/com/citusdata/migration/datamodel/TableColumnValue.java:129-139 | the hex form of n bytes has 2n characters |
| ColumnValues.HexDigitsOnly | src/main/java/com/citusdata/migration/datamodel/TableColumnValue.java:128 | the hex form holds only the digits 0-9 and A-F |
| ColumnValues.HexAt | src/main/java/com/citusdata/migration/datamodel/TableColumnValue.java:134-136 | character 2j is the high nibble of byte j and character 2j+1 its low nibble |
| ColumnValues.ByteArrayToHex | src/main/java/com/citusdata/migration/datamodel/TableColumnValue.java:129-139 | the index loop filling `char[2n]` produces exactly the hex form |
| ColumnValues.HexRoundTrip | src/main/java/com/citusdata/migration/datamodel/ByteArrayColumnValue.java:27-37 | decoding the hex form as bytea hex input gives back the original bytes |
| ColumnValues.ToString | src/main/java/com/citusdata/migration/datamodel/TableColumnValue.java:114-126 | a bytea value prints as `\x` followed by two hex digits per byte, which decode back to its bytes |
| ColumnValues.ByteArrayValue | src/main/java/com/citusdata/migration/datamodel/ByteArrayColumnValue.java:12-24 | the constructed value has type bytea, can be rendered, and prints as `\x` + hex |
| ColumnValues.CopyEscape | src/main/java/com/citusdata/migration/datamodel/TableColumnValue.java:24-50 | the escaped text holds no raw tab, line feed, carriage return, backspace or form feed, and is never shorter |
| ColumnValues.CopyEscapeAppend | src/main/java/com/citusdata/migration/datamodel/TableColumnValue.java:24-50 | escaping works character by character, so it distributes over concatenation |
| ColumnValues.CopyRoundTrip | src/main/java/com/citusdata/migration/datamodel/TableColumnValue.java:20-53 | a COPY reader's unescaping of `toCopyValue` gives back `toString()` exactly |
| ColumnValues.CopyEscapeIsNotNullMarker | src/main/java/com/citusdata/migration/datamodel/TableColumnValue.java:43-45 | an escaped field never reads as the null marker `\N`, since backslashes are doubled |
| ColumnValues.ToCopyValue | src/main/java/com/citusdata/migration/datamodel/TableColumnValue.java:20-53 | the StringBuilder loop produces exactly the COPY escaping of `toString()` |
| ColumnValues.QuoteLiteral | src/main/java/com/citusdata/migration/datamodel/TableColumnValue.java:60-111 | the literal ends in a quote, and starts with `E` exactly when some character needed a backslash escape (a lone quote does not count) |
| ColumnValues.QuoteStep | src/main/java/com/citusdata/migration/datamodel/TableColumnValue.java:66-101 | one round of the character loop extends the body by that character's escape and sets the prefix flag exactly on a backslash escape |
| ColumnValues.AppendLiteralChar | src/main/java/com/citusdata/migration/datamodel/TableColumnValue.java:68-100 | the switch appends the character's escape and reports whether it was a backslash escape |
| ColumnValues.ToQuotedString | src/main/java/com/citusdata/migration/datamodel/TableColumnValue.java:55-112 | `toQuotedString` equals the quoted form: bytea between plain quotes, any other type escaped, with the `E` prefix decided by the flag |
| ColumnValues.DecodeEscapeBodyOf | src/main/java/com/citusdata/migration/datamodel/TableColumnValue.java:66-101 | reading the escaped body as an `E'...'` constant gives back the original string |
| ColumnValues.DecodeStandardBodyOf | src/main/java/com/citusdata/migration/datamodel/TableColumnValue.java:107-109 | with no backslash escape, the body read as a standard constant (only `''` special) gives back the original string |
| ColumnValues.QuoteLiteralRoundTrip | src/main/java/com/citusdata/migration/datamodel/TableColumnValue.java:60-111 | the server reads the quoted literal back as the original string, with or without the `E` prefix |
| ColumnValues.QuotedStringRoundTrip | src/main/java/com/citusdata/migration/datamodel/TableColumnValue.java:55-112 | the server reads `toQuotedString` back as `toString()`, for every type including bytea |
| Identifiers.LowerCase | src/main/java/com/citusdata/migration/datamodel/TableSchema.java:95 | lower-casing keeps the length and changes only upper-case letters |
| Identifiers.RequiresQuotes | src/main/java/com/citusdata/migration/datamodel/TableSchema.java:87-101 | true exactly when some character is outside `[a-z0-9_]` or the (lower-cased) identifier is a key word |
| Identifiers.DoubleQuotes | src/main/java/com/citusdata/migration/datamodel/TableSchema.java:105 | doubling the quotes never shortens the identifier |
| Identifiers.QuotedIdentifier | src/main/java/com/citusdata/migration/datamodel/TableSchema.java:103-109 | unchanged exactly when no quoting is needed; otherwise wrapped in double quotes |
| Identifiers.QuoteIdentifier | src/main/java/com/citusdata/migration/datamodel/TableSchema.java:103-109 | `quoteIdentifier` returns the quoted identifier |
| Identifiers.UndoubleDoubled | src/main/java/com/citusdata/migration/datamodel/TableSchema.java:105 | un-doubling the doubled quotes gives back the identifier |
| Identifiers.QuoteIdentifierRoundTrip | src/main/java/com/citusdata/migration/datamodel/TableSchema.java:103-109 | stripping the outer quotes and un-doubling gives back the original identifier, when it is lexable |
| Identifiers.QuoteTwiceDiffers | src/main/java/com/citusdata/migration/datamodel/TableSchema.java:103-109 | quoting is not idempotent: a quoted identifier is quoted again and changes |
| Identifiers.DigitFirstLeftBare | src/main/java/com/citusdata/migration/datamodel/TableSchema.java:87-109 | a name that starts with a digit but needs no quotes, such as `1a`, is left bare, and the lexer does not read that token as an identifier |
| Identifiers.EmptyNameLeftBare | src/main/java/com/citusdata/migration/datamodel/TableSchema.java:87-109 | the empty name is left empty, and an empty token is no identifier |
| Identifiers.QuotedNames | src/main/java/com/citusdata/migration/datamodel/TableIndex.java:27-37 | each name of a column list is quoted as `quoteIdentifier` would, in order |
| Identifiers.ReadQuotedIdentifier | src/main/java/com/citusdata/migration/datamodel/TableSchema.java:103-109 | the lexer reads the quoted form of a lexable name (non-empty, and not digit-first when left bare) back as the name, leaving what follows it |
| Identifiers.ReadIdentifierListOf | src/main/java/com/citusdata/migration/datamodel/TableIndex.java:27-37 | a non-empty list of lexable names, quoted and joined by `, `, reads back as the list of names |
| Identifiers.AppendIdentifierList | src/main/java/com/citusdata/migration/datamodel/TableSchema.java:306-316 | the separator loop over a list of names appends the `, `-joined quoted names |
| Schema.ColumnDDLRoundTrip | src/main/java/com/citusdata/migration/datamodel/TableColumn.java:36-48 | a column definition reads back as its name, its type and its NOT NULL flag, for lexable names |
| Schema.TableColumn.constructor | src/main/java/com/citusdata/migration/datamodel/TableColumn.java:14-19 | a new column is nullable and keeps its schema, name and type |
| Schema.TableColumn.QuotedName | src/main/java/com/citusdata/migration/datamodel/TableColumn.java:21-23 | `getQuotedIdentifier` reads back as the column's name, for lexable names |
| Schema.TableColumn.DDL | src/main/java/com/citusdata/migration/datamodel/TableColumn.java:36-52 | `toDDL` (and `toString`) reads back as the name, the type and NOT NULL exactly when set, for lexable names |
| Schema.TableColumn.AlterTableAddColumn | src/main/java/com/citusdata/migration/datamodel/TableColumn.java:25-34 | the text is `ALTER TABLE`, the qualified table name and `ADD COLUMN`, followed by a definition that reads back as this column, for lexable names |
| Schema.FindColumn | src/main/java/com/citusdata/migration/datamodel/TableSchema.java:362-364 | finds a column exactly when one has the name, and the column found has it |
| Schema.NewTableIndex | src/main/java/com/citusdata/migration/datamodel/TableIndex.java:12-16 | the stored index name is the table name, `_`, then the given name; table and columns are kept |
| Schema.IndexDDL | src/main/java/com/citusdata/migration/datamodel/TableIndex.java:18-46 | the comma loop of `toDDL` produces the index text |
| Schema.TableSchema.constructor | src/main/java/com/citusdata/migration/datamodel/TableSchema.java:26-36 | a new schema has no columns, keys or indexes, and is valid |
| Schema.TableSchema.ColumnNames | src/main/java/com/citusdata/migration/datamodel/TableSchema.java:346-348 | the names of the columns, in insertion order |
| Schema.TableSchema.GetColumn | src/main/java/com/citusdata/migration/datamodel/TableSchema.java:362-364 | finds a column exactly when `columnExists`, and it is a column of the schema with that name |
| Schema.TableSchema.AddColumn | src/main/java/com/citusdata/migration/datamodel/TableSchema.java:46-55 | a taken name fails with ColumnExistError and changes nothing; otherwise one new nullable column is appended and nothing else changes |
| Schema.TableSchema.SetDistributionColumn | src/main/java/com/citusdata/migration/datamodel/TableSchema.java:61-71 | a missing column fails with NonExistingColumnError; a second distribution column fails with ColumnExistError; otherwise the column is recorded |
| Schema.TableSchema.SetPrimaryKey | src/main/java/com/citusdata/migration/datamodel/TableSchema.java:73-81 | succeeds exactly when every name is a column, then stores the list as given; otherwise fails at the first unknown name and keeps the old key |
| Schema.TableSchema.AddIndex | src/main/java/com/citusdata/migration/datamodel/TableSchema.java:83-85 | appends one namespaced index without checking its columns; nothing else changes |
| Schema.TableSchema.QualifiedTableNameReadsBack | src/main/java/com/citusdata/migration/datamodel/TableSchema.java:111-122 | the qualified name reads back as the table name, preceded by the schema name and a dot when there is one, for lexable names |
| Schema.TableSchema.ColumnLines | src/main/java/com/citusdata/migration/datamodel/TableSchema.java:182-191 | one line per column, in column order, each the column's DDL |
| Schema.TableSchema.PrimaryKeyClauseReadsBack | src/main/java/com/citusdata/migration/datamodel/TableSchema.java:193-209 | the PRIMARY KEY clause is present exactly when a key is set, and its list reads back as the key, in key order, for lexable names |
| Schema.TableSchema.AppendColumnLines | src/main/java/com/citusdata/migration/datamodel/TableSchema.java:182-191 | the column loop appends the column lines separated by commas |
| Schema.TableSchema.CreateTableDDL | src/main/java/com/citusdata/migration/datamodel/TableSchema.java:173-214 | `createTableDDL` produces the CREATE TABLE text |
| Schema.TableSchema.IndexTexts | src/main/java/com/citusdata/migration/datamodel/TableSchema.java:154-156 | one CREATE INDEX per index, in insertion order |
| Schema.TableSchema.DDLListOrder | src/main/java/com/citusdata/migration/datamodel/TableSchema.java:149-171 | the list has 1 + #indexes (+1 with a distribution column) commands: CREATE TABLE first, then the indexes in order, then `create_distributed_table` last |
| Schema.TableSchema.ToDDLList | src/main/java/com/citusdata/migration/datamodel/TableSchema.java:149-171 | `toDDLList` returns that list |
| Schema.TableSchema.IndexDDLs | src/main/java/com/citusdata/migration/datamodel/TableSchema.java:154-156 | the index loop returns the index texts |
| Schema.TableSchema.DistributionDDL | src/main/java/com/citusdata/migration/datamodel/TableSchema.java:158-168 | the distribution command is the `create_distributed_table` call |
| Schema.TableSchema.ToDDL | src/main/java/com/citusdata/migration/datamodel/TableSchema.java:138-147 | `toDDL` is every command of the list, in order, each followed by `;` and a line break |
| Schema.TableSchema.ToValues | src/main/java/com/citusdata/migration/datamodel/TableSchema.java:324-344 | the placeholder loop produces the VALUES text |
| Schema.TableSchema.ValuesPlaceholderCount | src/main/java/com/citusdata/migration/datamodel/TableSchema.java:324-344 | `toValues` holds exactly `columnCount()` placeholders |
| Schema.TableSchema.ToInsert | src/main/java/com/citusdata/migration/datamodel/TableSchema.java:299-322 | `toInsert` produces the INSERT text |
| Schema.TableSchema.InsertMatchesValues | src/main/java/com/citusdata/migration/datamodel/TableSchema.java:299-344 | the INSERT's column list reads back as the column names in order, and there are as many placeholders as names, for lexable names |
| Schema.TableSchema.ToConflictClause | src/main/java/com/citusdata/migration/datamodel/TableSchema.java:262-296 | the two loops produce the ON CONFLICT target and the SET list |
| Schema.TableSchema.AppendAssignments | src/main/java/com/citusdata/migration/datamodel/TableSchema.java:278-294 | the SET loop assigns `c = EXCLUDED.c` to every non-key column, in column order |
| Schema.TableSchema.ToUpsert | src/main/java/com/citusdata/migration/datamodel/TableSchema.java:258-297 | `toUpsert` produces the upsert text (the key must be set, as it is dereferenced) |
| Schema.TableSchema.PlaceholderConditionReadsBack | src/main/java/com/citusdata/migration/datamodel/TableSchema.java:241-250 | without values, a condition reads back as the column name followed by ` = ?`, for lexable names |
| Schema.TableSchema.ValueConditionReadsBack | src/main/java/com/citusdata/migration/datamodel/TableSchema.java:241-247 | with values, a condition reads back as the column name, ` = `, a literal the server reads as the value's string, then the cast to the column's type, for lexable names |
| Schema.TableSchema.DeleteConditions | src/main/java/com/citusdata/migration/datamodel/TableSchema.java:234-253 | one condition per key column, in key order |
| Schema.TableSchema.ToDeleteCondition | src/main/java/com/citusdata/migration/datamodel/TableSchema.java:236-251 | one pass of the loop produces the condition of one key column |
| Schema.TableSchema.DeleteWhere | src/main/java/com/citusdata/migration/datamodel/TableSchema.java:234-253 | the condition loop produces the WHERE text |
| Schema.TableSchema.ToDelete | src/main/java/com/citusdata/migration/datamodel/TableSchema.java:220-256 | a map whose size differs from the key's length fails with InvalidNumberOfColumnsError(size, key length); otherwise, and with no map, it returns the DELETE text |
| Schema.Placeholders | src/main/java/com/citusdata/migration/datamodel/TableSchema.java:329-339 | n placeholders, each `?` |
| Schema.PlaceholderCount | src/main/java/com/citusdata/migration/datamodel/TableSchema.java:329-339 | n placeholders joined by `, ` hold exactly n question marks |
| Schema.NonKeyColumns | src/main/java/com/citusdata/migration/datamodel/TableSchema.java:278-283 | a name is assigned exactly when it is a column outside the key |
| Schema.ToAssignment | src/main/java/com/citusdata/migration/datamodel/TableSchema.java:285-291 | one assignment of the SET list, built piece by piece |
| Schema.Assignments | src/main/java/com/citusdata/migration/datamodel/TableSchema.java:278-294 | one assignment per name, in order |
| Rows.CopyFields | src/main/java/com/citusdata/migration/datamodel/TableRow.java:134-149 | one COPY field per schema column, in column order |
| Rows.ValueFields | src/main/java/com/citusdata/migration/datamodel/TableRow.java:106-122 | one VALUES entry per schema column, in column order |
| Rows.CopyFieldMeaning | src/main/java/com/citusdata/migration/datamodel/TableRow.java:137-147 | a field is `\N` exactly when the column has no value; otherwise it unescapes to the value's string; it never holds a tab or a line break |
| Rows.ValueFieldMeaning | src/main/java/com/citusdata/migration/datamodel/TableRow.java:109-120 | an entry is `NULL` exactly when the column has no value; otherwise it is a literal the server reads as the value's string, cast to the column's type |
| Rows.TableRow.constructor | src/main/java/com/citusdata/migration/datamodel/TableRow.java:19-22 | a new row of the schema holds no value |
| Rows.TableRow.SetValue | src/main/java/com/citusdata/migration/datamodel/TableRow.java:24-27 | stores the datum tagged with the column's type; `getValue` then returns it and `hasValue` holds; every other key is unchanged |
| Rows.TableRow.SetColumnValue | src/main/java/com/citusdata/migration/datamodel/TableRow.java:29-31 | stores the value as given under the key only; `getValue` returns the last value stored |
| Rows.TableRow.ToCopyRow | src/main/java/com/citusdata/migration/datamodel/TableRow.java:129-152 | `toCopyRow` produces the tab-joined COPY fields |
| Rows.CopyLineReadsBack | src/main/java/com/citusdata/migration/datamodel/TableRow.java:129-152 | a COPY row is one line with columnCount-1 tabs; split at them, field i is `\N` exactly when column i has no value, and otherwise unescapes to the value's string |
| Rows.CopyLineIsOneLine | src/main/java/com/citusdata/migration/datamodel/TableRow.java:134-149 | a COPY row never holds a line break, whatever the values |
| Rows.TableRow.ToValues | src/main/java/com/citusdata/migration/datamodel/TableRow.java:99-127 | `toValues` produces the VALUES text, one entry per column in column order |
| Rows.TableRow.ToValueField | src/main/java/com/citusdata/migration/datamodel/TableRow.java:109-120 | one entry: the quoted value with its cast, or `NULL` |
| Rows.TableRow.ToInsert | src/main/java/com/citusdata/migration/datamodel/TableRow.java:74-97 | `toInsert` names every column in column order, then this row's values |
| Rows.TableRow.ToUpsert | src/main/java/com/citusdata/migration/datamodel/TableRow.java:33-72 | the row's INSERT, then the key as conflict target in key order and `= EXCLUDED` for every non-key column in column order |
| Rows.TableRow.OnlyColumnsRendered | src/main/java/com/citusdata/migration/datamodel/TableRow.java:106-139 | two rows that agree on the schema's columns render the same COPY row and VALUES list, whatever else they hold |
| Rows.PrimaryKeyValue.constructor | src/main/java/com/citusdata/migration/datamodel/PrimaryKeyValue.java:19-22 | a new key value holds no value |
| Rows.PrimaryKeyValue.SetValue | src/main/java/com/citusdata/migration/datamodel/PrimaryKeyValue.java:24-32 | a column outside the key fails with NonPrimaryKeyColumnError and changes nothing; a key column's datum is stored with its type; holding only key columns is preserved |
| Rows.PrimaryKeyValue.SetColumnValue | src/main/java/com/citusdata/migration/datamodel/PrimaryKeyValue.java:34-40 | stores the value as given under the key only; `getValue` returns the last value stored |
| Rows.PrimaryKeyValue.ToDelete | src/main/java/com/citusdata/migration/datamodel/PrimaryKeyValue.java:42-68 | renders the schema's DELETE for this key value's own values, so every condition carries the stored value (every key column must hold one) |
| Rows.PrimaryKeyValue.ToDeleteAgrees | src/main/java/com/citusdata/migration/datamodel/TableSchema.java:220-224 | a key value holding exactly the key columns passes the size check of `TableSchema.toDelete(map)` |
| Rows.DistinctCardinality | src/main/java/com/citusdata/migration/datamodel/TableSchema.java:221 | a list without repeats has as many distinct elements as entries, as the map-size check assumes |
| Rows.TableRowBatch.constructor | src/main/java/com/citusdata/migration/datamodel/TableRowBatch.java:19-21 | a new batch is empty |
| Rows.TableRowBatch.AddRow | src/main/java/com/citusdata/migration/datamodel/TableRowBatch.java:23-25 | appends the row; earlier rows are unchanged |
| Rows.TableRowBatch.CopyRows | src/main/java/com/citusdata/migration/datamodel/TableRowBatch.java:30-33 | the COPY row of each row, in insertion order |
| Rows.TableRowBatch.ToCopyInput | src/main/java/com/citusdata/migration/datamodel/TableRowBatch.java:27-36 | `toCopyInput` is each COPY row followed by a line break, in order |
| Rows.TableRowBatch.CopyInputLines | src/main/java/com/citusdata/migration/datamodel/TableRowBatch.java:27-36 | the input has one line break per row, and split at them gives back the COPY rows in order |
| Emitters.RecordingEmitter.constructor | src/main/java/com/citusdata/migration/datamodel/TableEmitter.java:8-15 | a new emitter has received no call |
| Emitters.RecordingEmitter.FetchSchemaOf | src/main/java/com/citusdata/migration/HashedMultiEmitter.java:45-46 | records the call and returns the destination's schema of the table, or null |
| Emitters.RecordingEmitter.CreateTableOf | src/main/java/com/citusdata/migration/datamodel/TableEmitter.java:10 | records one createTable call |
| Emitters.RecordingEmitter.CreateColumnOf | src/main/java/com/citusdata/migration/datamodel/TableEmitter.java:11 | records one createColumn call |
| Emitters.RecordingEmitter.CopyFrom | src/main/java/com/citusdata/migration/datamodel/TableEmitter.java:12 | records the COPY and returns one row per line of the input |
| Emitters.RecordingEmitter.UpsertOf | src/main/java/com/citusdata/migration/datamodel/TableEmitter.java:13 | records one upsert call |
| Emitters.RecordingEmitter.DeleteOf | src/main/java/com/citusdata/migration/datamodel/TableEmitter.java:14 | records one delete call |
| Emitters.RecordingEmitter.CloseEmitter | src/main/java/com/citusdata/migration/HashedMultiEmitter.java:143-145 | records one close call |
| Dynamo.ColumnValueOf | src/main/java/com/citusdata/migration/DynamoDBScanner.java:156-189 | a value exists exactly when some shape is set; it has the type `columnTypeFromDynamoValue` gives and can be rendered; with no shape the type is text |
| Dynamo.FirstShapeDecides | src/main/java/com/citusdata/migration/DynamoDBScanner.java:191-213 | both inference functions follow the precedence B, BOOL, BS, L, M, N, NS, S, SS: the first shape present decides the type and the datum |
| Dynamo.TypeOf | src/main/java/com/citusdata/migration/datamodel/TableSchema.java:362-364 | a type is found exactly when some column has the name, and that column has it |
| Dynamo.TypeOfAppend | src/main/java/com/citusdata/migration/datamodel/TableSchema.java:46-55 | appending columns never changes the type of a name already present |
| Dynamo.PairsOf | src/main/java/com/citusdata/migration/datamodel/TableSchema.java:358-360 | the name and type of each column, in column order |
| Dynamo.PairsAgree | src/main/java/com/citusdata/migration/datamodel/TableSchema.java:42-44 | `columnExists` and `getColumn` answer as the lookup on the pairs; a valid schema's names are unique |
| Dynamo.Redirect | src/main/java/com/citusdata/migration/DynamoDBScanner.java:95 | the redirect name starts with the name followed by `_`, so it is longer than the name and differs from it |
| Dynamo.EvolveAppend | src/main/java/com/citusdata/migration/DynamoDBScanner.java:85-104 | evolving over two runs of fields is evolving over the second after the first |
| Dynamo.CoveredExtends | src/main/java/com/citusdata/migration/DynamoDBScanner.java:91-102 | columns added later never leave a field without its column |
| Dynamo.EvolveProperties | src/main/java/com/citusdata/migration/DynamoDBScanner.java:82-107 | scan evolution only appends (no column is retyped), keeps names unique, gives every field a column of its type (its own or `name_type`), and each new column is a field's name or redirect with its type |
| Dynamo.EvolveFieldProperties | src/main/java/com/citusdata/migration/DynamoDBScanner.java:91-102 | one field appends at most one column, which it creates, and is then served |
| Dynamo.CountExample | src/main/java/com/citusdata/migration/DynamoDBScanner.java:91-102 | a number then a string under `count` give `count` numeric and `count_text` text; a further string adds nothing |
| Dynamo.RowValuesMeaning | src/main/java/com/citusdata/migration/DynamoDBScanner.java:135-154 | the row holds one value per field key (its name, or `name_type` when the types differ), each renderable, and each a column when every field is served |
| Dynamo.RowValuesAt | src/main/java/com/citusdata/migration/DynamoDBScanner.java:135-154 | under a field's key the row holds that field's converted value whenever no later field is stored under the same key: the last field written to a key wins |
| Dynamo.ScannedRowsFit | src/main/java/com/citusdata/migration/DynamoDBScanner.java:110-120 | after a page has evolved the schema, every item of the page fits it and every value of its row lands in a column |
| Dynamo.EvolveNewAppend | src/main/java/com/citusdata/migration/DynamoDBShardStreamer.java:68-85 | streaming evolution over two runs of fields is the second applied after the first |
| Dynamo.EvolveNewProperties | src/main/java/com/citusdata/migration/DynamoDBShardStreamer.java:65-88 | streaming evolution only appends, keeps names unique, makes every field name a column, and each new column is a field's own name with its type |
| Dynamo.AddIfMissingProperties | src/main/java/com/citusdata/migration/DynamoDBShardStreamer.java:79-83 | one field adds at most its own column, keeps every known name known and makes its name known |
| Dynamo.StreamRetypedValueHasNoColumn | src/main/java/com/citusdata/migration/DynamoDBShardStreamer.java:76-84 | streaming has no `_type` redirect: a string under a numeric column is stored under `count_text`, which no column has |
| Dynamo.ValidKeyColumns | src/main/java/com/citusdata/migration/datamodel/TableSchema.java:73-81 | in a valid schema every primary-key name is a column |
| Dynamo.KeyValuesMeaning | src/main/java/com/citusdata/migration/DynamoDBShardStreamer.java:97-113 | the key values hold exactly the key names the record mentions, each typed as its key column and wrapping that field's attribute value |
| Dynamo.KeyValueRendering | src/main/java/com/citusdata/migration/DynamoDBShardStreamer.java:108-110 | a key value renders exactly when its column is not bytea and the field has a shape, and then prints as the converted value does |
| Scanning.RetryMeaning | src/main/java/com/citusdata/migration/DynamoDBScanner.java:53-71 | the outcome is the response of some attempt of at most three, all earlier attempts failed retryably, and a failure is raised only when it is not retryable or is the third |
| Scanning.ThrottledScanFails | src/main/java/com/citusdata/migration/DynamoDBScanner.java:56-59 | a table that keeps throttling fails the scan with the throughput error after three attempts |
| Scanning.ScanWithRetries | src/main/java/com/citusdata/migration/DynamoDBScanner.java:45-72 | the retry loop returns the retry policy's outcome |
| Scanning.DynamoDBScanner.constructor | src/main/java/com/citusdata/migration/DynamoDBScanner.java:40-43 | a new scanner starts at the beginning of the table |
| Scanning.DynamoDBScanner.Scan | src/main/java/com/citusdata/migration/DynamoDBScanner.java:74-79 | on success the remembered key becomes the page's last evaluated key and the page is returned; on failure the error propagates and the key stays |
| Scanning.ScannedBatch.constructor | src/main/java/com/citusdata/migration/DynamoDBScanner.java:79 | the batch holds the page and its scanner |
| Scanning.ScannedBatch.AddNewColumnsToSchema | src/main/java/com/citusdata/migration/DynamoDBScanner.java:82-107 | the schema's columns evolve exactly as scan evolution says, the returned columns are exactly those appended in order, and the keys and indexes stay |
| Scanning.ScannedBatch.Rows | src/main/java/com/citusdata/migration/DynamoDBScanner.java:110-120 | one new row per item, in order, holding that item's row values |
| Scanning.AddItemColumns | src/main/java/com/citusdata/migration/DynamoDBScanner.java:86-103 | the fields of one item evolve the schema in order |
| Scanning.AddFieldColumn | src/main/java/com/citusdata/migration/DynamoDBScanner.java:87-102 | one field: an unknown name is added; a known name of another type is redirected and the redirect added if missing |
| Scanning.RowFromDynamoRecord | src/main/java/com/citusdata/migration/DynamoDBScanner.java:135-154 | the new row holds exactly the item's row values |
| Scanning.SetFieldValue | src/main/java/com/citusdata/migration/DynamoDBScanner.java:139-151 | one field's value goes under its name, or its redirect when the types differ |
| Streaming.NewImageFieldsSnoc | src/main/java/com/citusdata/migration/DynamoDBShardStreamer.java:68-74 | a record without a new image contributes no field |
| Streaming.DynamoDBShardStreamer.constructor | src/main/java/com/citusdata/migration/DynamoDBShardStreamer.java:42-52 | the streamer starts at the iterator given for the shard |
| Streaming.DynamoDBShardStreamer.Scan | src/main/java/com/citusdata/migration/DynamoDBShardStreamer.java:54-60 | reads at the remembered iterator and remembers the response's next iterator |
| Streaming.StreamedBatch.constructor | src/main/java/com/citusdata/migration/DynamoDBShardStreamer.java:62 | the batch holds the response |
| Streaming.StreamedBatch.AddNewColumns | src/main/java/com/citusdata/migration/DynamoDBShardStreamer.java:65-88 | the columns evolve exactly as streaming evolution says, and the result holds the appended columns, in some order |
| Streaming.StreamedBatch.Modifications | src/main/java/com/citusdata/migration/DynamoDBShardStreamer.java:91-124 | one modification per record, in order: a delete of the key values for a REMOVE, an upsert of the new image's row otherwise |
| Streaming.ModificationFromRecord | src/main/java/com/citusdata/migration/DynamoDBShardStreamer.java:97-120 | the modification of one record |
| Streaming.AddImageColumns | src/main/java/com/citusdata/migration/DynamoDBShardStreamer.java:76-84 | the fields of one new image evolve the schema in order |
| Streaming.AddMissingColumn | src/main/java/com/citusdata/migration/DynamoDBShardStreamer.java:79-83 | a name that is not a column is added with the value's type; otherwise nothing changes |
| Streaming.KeyValueFromRecord | src/main/java/com/citusdata/migration/DynamoDBShardStreamer.java:98-111 | the key value holds exactly the record's key values and only key columns |
| Replication.AttributePairs | src/main/java/com/citusdata/migration/DynamoDBTableReplicator.java:87-99 | one column per declared attribute, in order: `S` and other letters give text, `N` and `B` give bytea |
| Replication.KeyNames | src/main/java/com/citusdata/migration/DynamoDBTableReplicator.java:104-117 | the key-schema names, in order |
| Replication.Indexes | src/main/java/com/citusdata/migration/DynamoDBTableReplicator.java:121-134 | one index per secondary index, over its key names in order |
| Replication.FetchBaseSchema | src/main/java/com/citusdata/migration/DynamoDBTableReplicator.java:79-137 | fails at the first repeated attribute name, or on a second HASH key; otherwise returns the schema with the attribute columns, NOT NULL exactly on the key columns, the key names as primary key, the HASH key as distribution column, and the indexes |
| Replication.KeyedBaseSchema | src/main/java/com/citusdata/migration/DynamoDBTableReplicator.java:80-119 | the same up to the indexes, of which there are none yet |
| Replication.KeyAttributesExist | src/main/java/com/citusdata/migration/DynamoDBTableReplicator.java:108 | once the attribute columns exist, every key attribute names one |
| Replication.AddAttributeColumns | src/main/java/com/citusdata/migration/DynamoDBTableReplicator.java:87-99 | succeeds exactly when the names are distinct, then holds the attribute columns, all nullable; otherwise fails at the first repeated name |
| Replication.AddAttributeColumn | src/main/java/com/citusdata/migration/DynamoDBTableReplicator.java:88-98 | one attribute: its column is added, unless its name repeats an earlier one |
| Replication.AttributeStep | src/main/java/com/citusdata/migration/DynamoDBTableReplicator.java:98 | an attribute's name is already a column exactly when it repeats an earlier name |
| Replication.ApplyKeySchema | src/main/java/com/citusdata/migration/DynamoDBTableReplicator.java:104-119 | succeeds exactly when there is at most one HASH key; then the key names are the primary key, the HASH key is the distribution column, and exactly the key columns are NOT NULL |
| Replication.ApplyKeyElements | src/main/java/com/citusdata/migration/DynamoDBTableReplicator.java:104-117 | the key loop collects the key names in order and sets the distribution column and NOT NULL flags |
| Replication.SetKeyNames | src/main/java/com/citusdata/migration/DynamoDBTableReplicator.java:119 | `setPrimaryKey` with the collected names cannot fail |
| Replication.ApplyKeyElement | src/main/java/com/citusdata/migration/DynamoDBTableReplicator.java:105-116 | a HASH key sets the distribution column (a second one fails, naming the first); the column becomes NOT NULL |
| Replication.SetNotNull | src/main/java/com/citusdata/migration/DynamoDBTableReplicator.java:114 | only the named column joins the NOT NULL set |
| Replication.AddSecondaryIndexes | src/main/java/com/citusdata/migration/DynamoDBTableReplicator.java:121-134 | appends one index per secondary index, in order; nothing else changes |
| Replication.NumericKeyMissesItsColumn | src/main/java/com/citusdata/migration/DynamoDBTableReplicator.java:91-96 | a numeric key attribute becomes a bytea column, so a scanned number goes to `id_numeric` and the key column gets no value |
| Replication.IntCast | src/main/java/com/citusdata/migration/DynamoDBTableReplicator.java:166 | the `(int)` cast stays in the int range |
| Replication.PermitsMeaning | src/main/java/com/citusdata/migration/DynamoDBTableReplicator.java:165-169 | at least one permit; one below a cost of two; otherwise the whole units beyond the first, truncated |
| Replication.RateLimiter.constructor | src/main/java/com/citusdata/migration/DynamoDBTableReplicator.java:142 | the limiter is created with a positive rate |
| Replication.RateLimiter.Acquire | src/main/java/com/citusdata/migration/DynamoDBTableReplicator.java:172 | records one positive permit request |
| Replication.LogAppend | src/main/java/com/citusdata/migration/DynamoDBTableReplicator.java:150-157 | the created columns, the row changes and the COPY calls of a log distribute over concatenation |
| Replication.CreateCallsView | src/main/java/com/citusdata/migration/DynamoDBTableReplicator.java:150-152 | a run of createColumn calls creates exactly its columns and writes no row |
| Replication.ChangeCallsView | src/main/java/com/citusdata/migration/DynamoDBTableReplicator.java:221-229 | a run of change calls is its own list of changes and creates nothing |
| Replication.DataCallsView | src/main/java/com/citusdata/migration/DynamoDBTableReplicator.java:144-173 | `replicateData` creates each added column once, in order, makes one COPY per page, in order, and nothing else |
| Replication.PageCallsView | src/main/java/com/citusdata/migration/DynamoDBTableReplicator.java:147-157 | one page creates its columns, copies once, and upserts or deletes nothing |
| Replication.StreamCallsView | src/main/java/com/citusdata/migration/DynamoDBTableReplicator.java:210-234 | `replicateChanges` creates each added column once, applies the modifications in order, and copies nothing |
| Replication.BatchCallsView | src/main/java/com/citusdata/migration/DynamoDBTableReplicator.java:213-229 | one batch creates its columns, then applies its modifications |
| Replication.DynamoDBTableReplicator.constructor | src/main/java/com/citusdata/migration/DynamoDBTableReplicator.java:50-59 | keeps the emitter and the table name; no schema yet |
| Replication.DynamoDBTableReplicator.ReplicateSchema | src/main/java/com/citusdata/migration/DynamoDBTableReplicator.java:69-77 | on success the base schema is kept and created once on the emitter; a failure changes nothing |
| Replication.DynamoDBTableReplicator.CopyBatch | src/main/java/com/citusdata/migration/DynamoDBTableReplicator.java:147-157 | the page's new columns extend the schema exactly as `addNewColumnsToSchema` evolves it over the page's items, and each is created before the single COPY; the COPY input is the page's rows under the grown columns, and the COPY reports one row per item |
| Replication.DynamoDBTableReplicator.ScanAndCopy | src/main/java/com/citusdata/migration/DynamoDBTableReplicator.java:145-157 | one scan at the scanner's position: a failed scan leaves the scanner, the schema and the emitter unchanged; a page moves the scanner to its last evaluated key and is copied as `CopyBatch` copies it |
| Replication.DynamoDBTableReplicator.ReplicateData | src/main/java/com/citusdata/migration/DynamoDBTableReplicator.java:139-178 | a non-positive rate fails before any page; otherwise the pages copied are the run of scans from the table's start, chained through the last evaluated keys (`Scans`), each copied after the columns the one before left; the run ends after a page without a key (success) or at a failed scan (that failure); one permit count is taken per page that has a successor, from its consumed capacity; the schema and the emitter receive exactly those pages' columns and calls |
| Replication.DynamoDBTableReplicator.NextPage | src/main/java/com/citusdata/migration/DynamoDBTableReplicator.java:145-172 | one pass of the loop: the page at the scanner's position is copied; a failed scan or a page without a key ends the run with that outcome; a page with a key moves the run on by one page and requests its permits |
| Replication.ScansMeaning | src/main/java/com/citusdata/migration/DynamoDBTableReplicator.java:144-161 | a run of scans reads consecutive pages: page i is the scan's outcome at the key the page before ended on; every page but the last has a key; a failure is the outcome right after the last page; a run that stops short of the bound without a failure ends on a page without a key |
| Replication.PageInputLines | src/main/java/com/citusdata/migration/DynamoDBTableReplicator.java:154-157 | a page's COPY input holds one line per item, in order, each that item's COPY row under the schema's columns |
| Replication.DynamoDBTableReplicator.ApplyBatch | src/main/java/com/citusdata/migration/DynamoDBTableReplicator.java:211-229 | the schema's columns evolve by the new images of the batch's records and the new columns are created; then there is one modification per record, in record order: for a REMOVE a delete of the record's key values, for any other event an upsert of the row built from its new image under the evolved schema |
| Replication.DynamoDBTableReplicator.ReplicateChanges | src/main/java/com/citusdata/migration/DynamoDBTableReplicator.java:208-245 | the responses read are exactly the chain of reads through the next iterators, ending after the first without one (`StreamReads`); each batch evolves the schema in force before it by its records' new images; every modification is the delete or upsert of its record under the schema that batch left; the emitter receives each batch's column creations, then its changes, batch after batch |
| Replication.DynamoDBTableReplicator.NextChanges | src/main/java/com/citusdata/migration/DynamoDBTableReplicator.java:211-233 | one pass of the loop: the response at the streamer's iterator is applied as `ApplyBatch` applies it; the responses, the schemas and the modifications so far grow by one each; the loop goes on exactly when the response has a next iterator |
| Replication.StreamReadsChain | src/main/java/com/citusdata/migration/DynamoDBTableReplicator.java:210-234 | the reads of the loop are exactly a chain: each read at the iterator the response before returned, every response but the last with a next iterator, and the chain ends before the bound only at a response without one; any such chain is those reads |
| Replication.FollowsEventsAppend | src/main/java/com/citusdata/migration/DynamoDBTableReplicator.java:219-229 | following the records is preserved across batches |
| Replication.ScannedPageFits | src/main/java/com/citusdata/migration/DynamoDBTableReplicator.java:147-154 | after `addNewColumnsToSchema`, every item of the page fits the schema and its row renders |
| Replication.StreamedBatchConvertible | src/main/java/com/citusdata/migration/DynamoDBTableReplicator.java:213-219 | after `addNewColumns`, every well-formed record of the batch can be converted |
| Replication.CreateColumns | src/main/java/com/citusdata/migration/DynamoDBTableReplicator.java:150-152 | creates the columns on the emitter, in order |
| Replication.ApplyModifications | src/main/java/com/citusdata/migration/DynamoDBTableReplicator.java:221-229 | a delete goes to `delete` and an upsert to `upsert`, in list order |
| JavaInts.Wrap32 | src/main/java/com/citusdata/migration/HashedMultiEmitter.java:101 | the wrapped value is an int congruent to the input modulo 2^32, and an int is unchanged |
| JavaInts.WrapCongruent | src/main/java/com/citusdata/migration/HashedMultiEmitter.java:101 | values congruent modulo 2^32 wrap to the same int |
| JavaInts.Abs32 | src/main/java/com/citusdata/migration/HashedMultiEmitter.java:101 | `Math.abs` is the magnitude, except that the least int stays negative |
| JavaInts.Rem | src/main/java/com/citusdata/migration/HashedMultiEmitter.java:101 | Java's `%` is below the divisor in magnitude, has the dividend's sign, and differs from the dividend by a multiple of the divisor |
| JavaInts.RemUnique | src/main/java/com/citusdata/migration/HashedMultiEmitter.java:101 | those properties fix the remainder |
| Routing.CharUnits | src/main/java/com/citusdata/migration/HashedMultiEmitter.java:100-101 | a character is one UTF-16 unit below 0x10000 and a surrogate pair above |
| Routing.UnitsOfBasicPlane | src/main/java/com/citusdata/migration/HashedMultiEmitter.java:101 | a string below 0x10000 has one code unit per character |
| Routing.UnitsHash | src/main/java/com/citusdata/migration/HashedMultiEmitter.java:101 | the hash of a run of code units is an int |
| Routing.UnitsHashIsPolynomial | src/main/java/com/citusdata/migration/HashedMultiEmitter.java:101 | the wrapped hash is the polynomial sum of `unit[i] * 31^(n-1-i)` reduced to an int |
| Routing.HashCode | src/main/java/com/citusdata/migration/HashedMultiEmitter.java:101 | `String.hashCode` is an int |
| Routing.EmitterIndexRange | src/main/java/com/citusdata/migration/HashedMultiEmitter.java:101 | the index is below n in magnitude; it is negative exactly when the hash is the least int and 2^31 is not a multiple of n |
| Routing.SingleEmitterIndex | src/main/java/com/citusdata/migration/HashedMultiEmitter.java:101 | a pool of one always picks its only emitter |
| Routing.PolygenelubricantsHash | src/main/java/com/citusdata/migration/HashedMultiEmitter.java:101 | "polygenelubricants" hashes to the least int |
| Routing.NegativeIndexExample | src/main/java/com/citusdata/migration/HashedMultiEmitter.java:101-104 | in a pool of three, "polygenelubricants" gives index -2, which `emitters.get` rejects |
| Routing.RouteIndex | src/main/java/com/citusdata/migration/HashedMultiEmitter.java:95-102 | 0 without a distribution column; otherwise an index below n in magnitude, or a failure for a missing or unprintable value |
| Routing.SameTextSameRoute | src/main/java/com/citusdata/migration/HashedMultiEmitter.java:100-101 | values that print the same text pick the same emitter |
| Routing.UpsertAndDeleteAgree | src/main/java/com/citusdata/migration/HashedMultiEmitter.java:95-128 | an upsert and a delete of the same key attribute pick the same emitter |
| Routing.ScannedRowAndKeyAgree | src/main/java/com/citusdata/migration/HashedMultiEmitter.java:95-128 | the row built from an item and the key values of a delete pick the same emitter when the distribution attribute is stored under its own name and not overwritten by a later field |
| Routing.NumericHashKeyIsNotRouted | src/main/java/com/citusdata/migration/HashedMultiEmitter.java:100 | a row of a table with a numeric hash key has no value under its distribution column, so `upsert` fails |
| Routing.Closes | src/main/java/com/citusdata/migration/HashedMultiEmitter.java:144 | closing an emitter k times records k close calls |
| Routing.HashedMultiEmitter.constructor | src/main/java/com/citusdata/migration/HashedMultiEmitter.java:31-38 | keeps the non-empty pool |
| Routing.HashedMultiEmitter.FetchSchema | src/main/java/com/citusdata/migration/HashedMultiEmitter.java:41-50 | asks the first emitter only |
| Routing.HashedMultiEmitter.CreateTable | src/main/java/com/citusdata/migration/HashedMultiEmitter.java:53-62 | on the first emitter only |
| Routing.HashedMultiEmitter.CreateColumn | src/main/java/com/citusdata/migration/HashedMultiEmitter.java:65-75 | on the first emitter only |
| Routing.HashedMultiEmitter.CopyFromReader | src/main/java/com/citusdata/migration/HashedMultiEmitter.java:78-88 | on the first emitter only, returning its row count |
| Routing.HashedMultiEmitter.Upsert | src/main/java/com/citusdata/migration/HashedMultiEmitter.java:91-112 | the row reaches exactly the emitter its route picks and no other; a missing value or a negative index sends nothing and fails |
| Routing.HashedMultiEmitter.Delete | src/main/java/com/citusdata/migration/HashedMultiEmitter.java:115-136 | routed exactly as `upsert` routes a row |
| Routing.HashedMultiEmitter.Close | src/main/java/com/citusdata/migration/HashedMultiEmitter.java:139-149 | every emitter of the list is closed once per time it appears in it |
| Routing.CloseStep | src/main/java/com/citusdata/migration/HashedMultiEmitter.java:143-145 | one more pass of the loop adds that emitter to the counted multiset, and its expected close calls grow by one `Close` |
| Routing.NewHashedMultiEmitter | src/main/java/com/citusdata/migration/HashedMultiEmitter.java:31-38 | an empty list is refused with an error; otherwise the pool keeps the list |

## Behaviour of the code worth knowing

- A retyped scanned value is stored under `name_type`. If a column of that name exists with yet another type, it is used as it is, and the name is not redirected again (`Dynamo.EvolveField`).
- Streaming adds only names that are not yet columns and never redirects. A value whose type differs from its column's is stored under `name_type`, which has no column (`Dynamo.StreamRetypedValueHasNoColumn`).
- After a page, `replicateData` requests `(int)(cost - 1.0)` permits, truncated toward zero, or 1 when that is not positive (`Replication.PermitsMeaning`).
- An attribute value with no recognised shape, such as a NULL, is typed as text, but `columnValueFromDynamoValue` returns null for it (`Dynamo.ColumnValueOf`). `rowFromDynamoRecord` then dereferences that null (src/main/java/com/citusdata/migration/DynamoDBScanner.java:142-144); see "## Left out".
- The `fetchBaseSchema` switch has no `break`, so numeric key attributes become bytea columns (`Replication.AttributePairs`, `Replication.NumericKeyMissesItsColumn`).
- The stream loop of a shard ends once a response carries no next iterator.
- The pool index is `Math.abs(hash) % n`. It is negative for a hash of `Integer.MIN_VALUE` when n is not a power of two (`Routing.NegativeIndexExample`).
- `quoteIdentifier` quotes only names with a character outside `[a-z0-9_]` and key words. A name that starts with a digit is left bare and the empty name stays empty; PostgreSQL reads neither token as that identifier (`Identifiers.DigitFirstLeftBare`, `Identifiers.EmptyNameLeftBare`). The read-back properties of identifiers are stated for the other names (`Identifiers.Lexable`).

## Left out

- The AWS clients are function parameters. The Scan client maps a start key and an attempt number to a response. The GetRecords client maps a shard iterator to a response. `describeTable` is given as a `TableDescription`. `describeStream`, `getShardIterator`, the per-shard fan-out of `replicateChanges()` and its executor are not modelled.
- `Thread.sleep`, the waiting done by Guava's `RateLimiter` (only the permits requested are recorded), the read-write lock, `synchronized`, and all concurrency are not modelled.
- Jackson and `Item.toJSON` are not modelled. The set, list and map shapes carry the JSON text as data.
- `PostgresKeywords.KEYWORDS` is not part of this model. The key words are a parameter set.
- The consumed capacity is a `real`. NaN and infinite values are not modelled.
- The exceptions the code throws on purpose are error values: `SchemaError`, `ScanFailure`, `ReplicationError`, `RoutingError`. The `System.exit` handlers are not modelled; the error is returned instead. The null dereferences below are excluded by preconditions instead.
- A `byte[]` stored under a column that is not bytea would print its identity string. Such a value is not `Renderable`, and the renderers require renderable values.
- The JDBC and stdout emitters are not modelled. `RecordingEmitter` stands for any emitter and records its calls. `copyFromStdin`, `asCopyReader` and `columnCount` are not modelled separately: COPY input is passed as text, and the column count is the length of the column list.
- The `while(true)` loops of `replicateData` and `replicateChanges(streamer)` also stop after `maxBatches` batches, so that they terminate for every client.
- Streaming.StreamedBatch.AddNewColumns: the result comes from a `HashSet`, so it is specified up to order (as a multiset), not in creation order.
- Replication.DynamoDBTableReplicator.ReplicateChanges: requires a primary key, because a `REMOVE` record dereferences it. The order of the columns created within one batch is stated up to a multiset.
- Replication.DynamoDBTableReplicator.ReplicateData: requires every attribute of every page to have a recognised shape (`ShapedPages`). For an attribute without one, such as a NULL, `rowFromDynamoRecord` dereferences the null that `columnValueFromDynamoValue` returns (src/main/java/com/citusdata/migration/DynamoDBScanner.java:142-144). The resulting NullPointerException reaches the handler of `replicateData`, which ends the process. That path is not modelled.
- Replication.DynamoDBTableReplicator.ReplicateChanges: requires well-formed records (`WellFormedRecords`): a REMOVE has keys, and any other record has a new image whose attributes all have a recognised shape. Otherwise `modifications` dereferences a null key map or a null value. The NullPointerException is not an `SQLException`, so it escapes the loop and ends the shard's worker thread. That path is not modelled.
- Identifiers.ReadIdentifier: reads identifier tokens by the lexical rules only. The server's truncation of names longer than 63 bytes and its treatment of key words are not modelled.
- Routing.HashedMultiEmitter.Close: states how many close calls each emitter receives, not the order across distinct emitters, which the per-emitter logs do not show.
- Routing.HashedMultiEmitter.constructor: takes a non-empty list as a precondition. `Routing.NewHashedMultiEmitter` models the thrown `Error` for an empty list.
- A table description whose list of secondary indexes is absent is modelled as an empty list.
- The `TableSchema.toDelete()` overload without a map is `ToDelete` with `None`. `getDistributionColumn` and `getPrimaryKeyColumnNames` are read from the fields.
