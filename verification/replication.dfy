/**
 * DynamoDBTableReplicator: derives the base schema of a table from its description, then
 * replicates it into the emitter, either by scanning it page by page (each page first
 * creates the columns it added, then loads its rows with COPY) or by following one shard
 * of its stream (each batch first creates the columns it added, then applies its
 * modifications in order).
 *
 * The loops of `replicateData` and `replicateChanges` run until the source reports no
 * further batch; here they also stop after `maxBatches` batches, so that they terminate
 * for every client.
 */
module Replication {
  import opened Wrappers
  import opened JavaInts
  import opened Text
  import opened ColumnTypes
  import opened ColumnValues
  import opened Schema
  import opened Rows
  import opened Dynamo
  import opened Scanning
  import opened Streaming
  import opened Emitters

  // ---------------------------------------------------------------------------------------
  // The table description
  // ---------------------------------------------------------------------------------------

  /** The role of a key attribute. */
  datatype KeyType = Hash | Range

  /** An attribute the table declares (the key attributes), with its DynamoDB type letter. */
  datatype AttributeDefinition = AttributeDefinition(attributeName: string, attributeType: string)

  /** One element of a key schema. */
  datatype KeySchemaElement = KeySchemaElement(attributeName: string, keyType: KeyType)

  /** A global secondary index: its name and its key schema. */
  datatype SecondaryIndex = SecondaryIndex(indexName: string, keySchema: seq<KeySchemaElement>)

  /** What `describeTable` reports that the base schema is built from. */
  datatype TableDescription = TableDescription(
    attributeDefinitions: seq<AttributeDefinition>,
    keySchema: seq<KeySchemaElement>,
    globalSecondaryIndexes: seq<SecondaryIndex>)

  /**
   * The column type of a declared attribute. The switch has no `break` after its "N"
   * case, so a number falls through into the "B" case and ends up bytea, like a binary;
   * every other type letter is text.
   */
  function DefinitionType(attributeType: string): ColumnType
  {
    if attributeType == "N" || attributeType == "B" then Bytea else Text
  }

  /** The names of the declared attributes, in order. */
  function AttributeNames(defs: seq<AttributeDefinition>): (r: seq<string>)
    ensures |r| == |defs| && forall i :: 0 <= i < |defs| ==> r[i] == defs[i].attributeName
  {
    seq(|defs|, i requires 0 <= i < |defs| => defs[i].attributeName)
  }

  /** The columns of the declared attributes, in order. */
  function AttributePairs(defs: seq<AttributeDefinition>): (r: seq<Column>)
    ensures |r| == |defs|
    ensures forall i :: 0 <= i < |defs| ==> r[i] == (defs[i].attributeName, DefinitionType(defs[i].attributeType))
  {
    seq(|defs|, i requires 0 <= i < |defs| => (defs[i].attributeName, DefinitionType(defs[i].attributeType)))
  }

  /** The attribute names of a key schema, in order. */
  function KeyNames(keys: seq<KeySchemaElement>): (r: seq<string>)
    ensures |r| == |keys| && forall i :: 0 <= i < |keys| ==> r[i] == keys[i].attributeName
  {
    seq(|keys|, i requires 0 <= i < |keys| => keys[i].attributeName)
  }

  /** The key names of one more element. */
  lemma KeyNamesSnoc(keys: seq<KeySchemaElement>, i: nat)
    requires i < |keys|
    ensures KeyNames(keys)[..i + 1] == KeyNames(keys)[..i] + [keys[i].attributeName]
  {
    assert KeyNames(keys)[..i + 1][i] == keys[i].attributeName;
  }

  /** The names of the HASH elements of a key schema, in order. */
  function HashKeys(keys: seq<KeySchemaElement>): seq<string>
  {
    if keys == [] then []
    else
      var last := keys[|keys| - 1];
      HashKeys(keys[..|keys| - 1]) + (if last.keyType == Hash then [last.attributeName] else [])
  }

  /** The step of `HashKeys` for one more element. */
  lemma HashKeysSnoc(keys: seq<KeySchemaElement>, i: nat)
    requires i < |keys|
    ensures HashKeys(keys[..i + 1]) == HashKeys(keys[..i]) + (if keys[i].keyType == Hash then [keys[i].attributeName] else [])
  {
    assert keys[..i + 1][..i] == keys[..i];
  }

  /** The indexes the secondary indexes become, in order. */
  function Indexes(tableName: string, gsis: seq<SecondaryIndex>): (r: seq<TableIndex>)
    ensures |r| == |gsis|
    ensures forall i :: 0 <= i < |gsis| ==> r[i] == NewTableIndex(tableName, gsis[i].indexName, KeyNames(gsis[i].keySchema))
  {
    seq(|gsis|, i requires 0 <= i < |gsis| => NewTableIndex(tableName, gsis[i].indexName, KeyNames(gsis[i].keySchema)))
  }

  /** `names[j]` is the first name that repeats an earlier one. */
  predicate FirstRepeat(names: seq<string>, j: int)
  {
    0 <= j < |names| && names[j] in names[..j] && Distinct(names[..j])
  }

  /**
   * The schema `fetchBaseSchema` builds: one column per declared attribute with its
   * definition type, NOT NULL exactly on the key columns, the key names as primary key,
   * the HASH key as distribution column, and one index per secondary index.
   */
  ghost predicate BaseSchema(schema: TableSchema, tableName: string, d: TableDescription)
    reads schema, schema.columns
  {
    KeyedSchema(schema, tableName, d) && schema.tableIndexes == Indexes(tableName, d.globalSecondaryIndexes)
  }

  /** The base schema before its indexes are added. */
  ghost predicate KeyedSchema(schema: TableSchema, tableName: string, d: TableDescription)
    reads schema, schema.columns
  {
    schema.Valid() && schema.tableName == tableName && schema.schemaName == None
    && Pairs(schema) == AttributePairs(d.attributeDefinitions)
    && NotNullExactly(schema.columns, KeyNames(d.keySchema))
    && schema.primaryKey == Some(KeyNames(d.keySchema))
    && DistributedOn(schema, HashKeys(d.keySchema))
  }

  // ---------------------------------------------------------------------------------------
  // fetchBaseSchema
  // ---------------------------------------------------------------------------------------

  /**
   * `fetchBaseSchema`: fails with ColumnExistError on the first repeated attribute name,
   * or, when the names are distinct, on a second HASH key (naming the first); otherwise
   * returns the base schema. Every key name must be a declared attribute, since its column
   * is dereferenced.
   */
  method FetchBaseSchema(tableName: string, d: TableDescription) returns (r: Result<TableSchema, SchemaError>)
    requires forall k :: k in d.keySchema ==> k.attributeName in AttributeNames(d.attributeDefinitions)
    ensures var names := AttributeNames(d.attributeDefinitions);
      r.Ok? <==> Distinct(names) && |HashKeys(d.keySchema)| <= 1
    ensures var names := AttributeNames(d.attributeDefinitions);
      !Distinct(names) ==> exists j :: FirstRepeat(names, j) && r == Err(ColumnExistError(names[j]))
    ensures Distinct(AttributeNames(d.attributeDefinitions)) && |HashKeys(d.keySchema)| > 1 ==>
      r == Err(ColumnExistError(HashKeys(d.keySchema)[0]))
    ensures r.Ok? ==> fresh(r.value) && BaseSchema(r.value, tableName, d)
  {
    r := KeyedBaseSchema(tableName, d);
    if r.Ok? {
      AddSecondaryIndexes(r.value, d.globalSecondaryIndexes);
    }
  }

  /** `fetchBaseSchema` up to its indexes: the attribute columns, then the key schema. */
  method KeyedBaseSchema(tableName: string, d: TableDescription) returns (r: Result<TableSchema, SchemaError>)
    requires forall k :: k in d.keySchema ==> k.attributeName in AttributeNames(d.attributeDefinitions)
    ensures var names := AttributeNames(d.attributeDefinitions);
      r.Ok? <==> Distinct(names) && |HashKeys(d.keySchema)| <= 1
    ensures var names := AttributeNames(d.attributeDefinitions);
      !Distinct(names) ==> exists j :: FirstRepeat(names, j) && r == Err(ColumnExistError(names[j]))
    ensures Distinct(AttributeNames(d.attributeDefinitions)) && |HashKeys(d.keySchema)| > 1 ==>
      r == Err(ColumnExistError(HashKeys(d.keySchema)[0]))
    ensures r.Ok? ==> fresh(r.value) && KeyedSchema(r.value, tableName, d) && r.value.tableIndexes == []
  {
    var tableSchema := new TableSchema(tableName, None);
    var added := AddAttributeColumns(tableSchema, d.attributeDefinitions);
    if added.Fail? {
      return Err(added.error);
    }
    KeyAttributesExist(tableSchema, d);
    var keyed := ApplyKeySchema(tableSchema, d.keySchema);
    if keyed.Fail? {
      return Err(keyed.error);
    }
    r := Ok(tableSchema);
  }

  /** Once the attribute columns exist, every key attribute names one. */
  lemma KeyAttributesExist(tableSchema: TableSchema, d: TableDescription)
    requires forall k :: k in d.keySchema ==> k.attributeName in AttributeNames(d.attributeDefinitions)
    requires Pairs(tableSchema) == AttributePairs(d.attributeDefinitions)
    ensures forall k :: k in d.keySchema ==> tableSchema.ColumnExists(k.attributeName)
  {
    forall k | k in d.keySchema
      ensures tableSchema.ColumnExists(k.attributeName)
    {
      var i :| 0 <= i < |d.attributeDefinitions| && d.attributeDefinitions[i].attributeName == k.attributeName;
      PairsAgree(tableSchema, k.attributeName);
      assert Pairs(tableSchema)[i].0 == k.attributeName;
    }
  }

  /** The attribute-definition loop: one column per attribute, failing on a repeated name. */
  method AddAttributeColumns(tableSchema: TableSchema, defs: seq<AttributeDefinition>) returns (r: Outcome<SchemaError>)
    requires tableSchema.Valid() && tableSchema.columns == []
    requires tableSchema.distributionColumn == None && tableSchema.primaryKey == None
    modifies tableSchema
    ensures tableSchema.Valid()
    ensures var names := AttributeNames(defs);
      (r.Pass? <==> Distinct(names))
      && (r.Fail? ==> exists j :: FirstRepeat(names, j) && r == Fail(ColumnExistError(names[j])))
    ensures r.Pass? ==> Pairs(tableSchema) == AttributePairs(defs)
    ensures forall c :: c in tableSchema.columns ==> fresh(c)
    ensures NotNullExactly(tableSchema.columns, [])
    ensures tableSchema.distributionColumn == None && tableSchema.primaryKey == None
    ensures tableSchema.tableIndexes == old(tableSchema.tableIndexes)
  {
    ghost var names := AttributeNames(defs);
    for i := 0 to |defs|
      invariant tableSchema.Valid()
      invariant Distinct(names[..i])
      invariant Pairs(tableSchema) == AttributePairs(defs[..i])
      invariant forall c :: c in tableSchema.columns ==> fresh(c)
      invariant NotNullExactly(tableSchema.columns, [])
      invariant tableSchema.distributionColumn == None && tableSchema.primaryKey == None
      invariant tableSchema.tableIndexes == old(tableSchema.tableIndexes)
    {
      var added := AddAttributeColumn(tableSchema, defs, i);
      if added.Fail? {
        return added;
      }
    }
    assert defs[..|defs|] == defs && names[..|defs|] == names;
    r := Pass;
  }

  /** One declared attribute of `fetchBaseSchema`: its column is added, unless its name is already one. */
  method AddAttributeColumn(tableSchema: TableSchema, defs: seq<AttributeDefinition>, i: nat) returns (r: Outcome<SchemaError>)
    requires tableSchema.Valid() && i < |defs|
    requires Distinct(AttributeNames(defs)[..i]) && Pairs(tableSchema) == AttributePairs(defs[..i])
    requires NotNullExactly(tableSchema.columns, [])
    modifies tableSchema
    ensures tableSchema.Valid()
    ensures r.Fail? ==> FirstRepeat(AttributeNames(defs), i) && r == Fail(ColumnExistError(AttributeNames(defs)[i]))
    ensures r.Pass? ==> Distinct(AttributeNames(defs)[..i + 1]) && Pairs(tableSchema) == AttributePairs(defs[..i + 1])
    ensures forall c :: c in tableSchema.columns ==> c in old(tableSchema.columns) || fresh(c)
    ensures NotNullExactly(tableSchema.columns, [])
    ensures tableSchema.distributionColumn == old(tableSchema.distributionColumn)
    ensures tableSchema.primaryKey == old(tableSchema.primaryKey)
    ensures tableSchema.tableIndexes == old(tableSchema.tableIndexes)
  {
    var keyName := defs[i].attributeName;
    PairsAgree(tableSchema, keyName);
    AttributeStep(defs, i, Pairs(tableSchema));
    ghost var before := tableSchema.columns;
    var column := tableSchema.AddColumn(keyName, DefinitionType(defs[i].attributeType));
    if column.Err? {
      return Fail(column.error);
    }
    assert PairsOf(before + [column.value]) == PairsOf(before) + [(keyName, DefinitionType(defs[i].attributeType))];
    r := Pass;
  }

  /**
   * One attribute definition against the columns of the ones before it: its name is a
   * column exactly when it repeats an earlier name, and otherwise the names stay distinct
   * and the columns grow by its own.
   */
  lemma AttributeStep(defs: seq<AttributeDefinition>, i: nat, cols: seq<Column>)
    requires i < |defs| && cols == AttributePairs(defs[..i]) && Distinct(AttributeNames(defs)[..i])
    ensures var names := AttributeNames(defs);
      (TypeOf(cols, names[i]).Some? <==> names[i] in names[..i])
      && (names[i] in names[..i] ==> FirstRepeat(names, i))
      && (names[i] !in names[..i] ==> Distinct(names[..i + 1]))
    ensures AttributePairs(defs[..i + 1]) == cols + [(defs[i].attributeName, DefinitionType(defs[i].attributeType))]
  {
    var names := AttributeNames(defs);
    var name := names[i];
    AttributeKnown(defs, i, cols);
    AttributePairsSnoc(defs, i);
    if name !in names[..i] {
      assert names[..i + 1] == names[..i] + [name];
      DistinctSnoc(names[..i], name);
    }
  }

  /** The columns of one more declared attribute. */
  lemma AttributePairsSnoc(defs: seq<AttributeDefinition>, i: nat)
    requires i < |defs|
    ensures AttributePairs(defs[..i + 1]) == AttributePairs(defs[..i]) + [(defs[i].attributeName, DefinitionType(defs[i].attributeType))]
  {
  }

  /** An attribute's name is already a column exactly when an earlier attribute declared it. */
  lemma AttributeKnown(defs: seq<AttributeDefinition>, i: nat, cols: seq<Column>)
    requires i < |defs| && cols == AttributePairs(defs[..i])
    ensures TypeOf(cols, AttributeNames(defs)[i]).Some? <==> AttributeNames(defs)[i] in AttributeNames(defs)[..i]
  {
    var names := AttributeNames(defs);
    var name := names[i];
    if TypeOf(cols, name).Some? {
      var k :| 0 <= k < |cols| && cols[k].0 == name;
      assert names[..i][k] == name;
    }
    if name in names[..i] {
      var k :| 0 <= k < i && names[..i][k] == name;
      assert cols[k].0 == name;
    }
  }

  /** A distinct list stays distinct when a new name is appended. */
  lemma DistinctSnoc(names: seq<string>, name: string)
    requires Distinct(names) && name !in names
    ensures Distinct(names + [name])
  {
    var all := names + [name];
    forall i, j | 0 <= i < j < |all|
      ensures all[i] != all[j]
    {
      if j == |names| {
        assert all[i] == names[i];
      }
    }
  }

  /**
   * The key-schema loop and `setPrimaryKey`: the first HASH key becomes the distribution
   * column (a second one fails), every key column becomes NOT NULL, and the key names,
   * in order, become the primary key.
   */
  method ApplyKeySchema(tableSchema: TableSchema, keys: seq<KeySchemaElement>) returns (r: Outcome<SchemaError>)
    requires tableSchema.Valid() && tableSchema.distributionColumn == None
    requires NotNullExactly(tableSchema.columns, [])
    requires forall k :: k in keys ==> tableSchema.ColumnExists(k.attributeName)
    modifies tableSchema, tableSchema.columns
    ensures tableSchema.Valid()
    ensures r.Pass? <==> |HashKeys(keys)| <= 1
    ensures r.Fail? ==> r == Fail(ColumnExistError(HashKeys(keys)[0]))
    ensures r.Pass? ==> tableSchema.primaryKey == Some(KeyNames(keys))
    ensures r.Pass? ==> DistributedOn(tableSchema, HashKeys(keys))
    ensures r.Pass? ==> NotNullExactly(tableSchema.columns, KeyNames(keys))
    ensures tableSchema.columns == old(tableSchema.columns) && tableSchema.tableIndexes == old(tableSchema.tableIndexes)
  {
    var primaryKey;
    r, primaryKey := ApplyKeyElements(tableSchema, keys);
    if r.Pass? {
      SetKeyNames(tableSchema, keys, primaryKey);
    }
  }

  /** The key-schema loop itself, collecting the key names in order. */
  method ApplyKeyElements(tableSchema: TableSchema, keys: seq<KeySchemaElement>) returns (r: Outcome<SchemaError>, primaryKey: seq<string>)
    requires tableSchema.Valid() && tableSchema.distributionColumn == None
    requires NotNullExactly(tableSchema.columns, [])
    requires forall k :: k in keys ==> tableSchema.ColumnExists(k.attributeName)
    modifies tableSchema, tableSchema.columns
    ensures tableSchema.Valid()
    ensures r.Pass? <==> |HashKeys(keys)| <= 1
    ensures r.Fail? ==> r == Fail(ColumnExistError(HashKeys(keys)[0]))
    ensures r.Pass? ==> primaryKey == KeyNames(keys)
    ensures r.Pass? ==> DistributedOn(tableSchema, HashKeys(keys))
    ensures r.Pass? ==> NotNullExactly(tableSchema.columns, KeyNames(keys))
    ensures tableSchema.columns == old(tableSchema.columns) && tableSchema.tableIndexes == old(tableSchema.tableIndexes)
  {
    primaryKey := [];
    for i := 0 to |keys|
      invariant tableSchema.Valid()
      invariant tableSchema.columns == old(tableSchema.columns) && tableSchema.tableIndexes == old(tableSchema.tableIndexes)
      invariant primaryKey == KeyNames(keys)[..i]
      invariant |HashKeys(keys[..i])| <= 1 && DistributedOn(tableSchema, HashKeys(keys[..i]))
      invariant NotNullExactly(tableSchema.columns, KeyNames(keys)[..i])
    {
      assert keys[i] in keys;
      var outcome := ApplyKeyElement(tableSchema, keys, i);
      if outcome.Fail? {
        return outcome, primaryKey;
      }
      KeyNamesSnoc(keys, i);
      primaryKey := primaryKey + [keys[i].attributeName];
    }
    assert keys[..|keys|] == keys && KeyNames(keys)[..|keys|] == KeyNames(keys);
    r := Pass;
  }

  /** The end of the key-schema loop: the collected key names become the primary key, which cannot fail. */
  method SetKeyNames(tableSchema: TableSchema, keys: seq<KeySchemaElement>, primaryKey: seq<string>)
    requires tableSchema.Valid() && primaryKey == KeyNames(keys)
    requires forall k :: k in keys ==> tableSchema.ColumnExists(k.attributeName)
    modifies tableSchema
    ensures tableSchema.Valid() && tableSchema.primaryKey == Some(KeyNames(keys))
    ensures tableSchema.columns == old(tableSchema.columns) && tableSchema.tableIndexes == old(tableSchema.tableIndexes)
    ensures tableSchema.distributionColumn == old(tableSchema.distributionColumn)
  {
    KeyNamesExist(tableSchema, keys);
    var outcome := tableSchema.SetPrimaryKey(primaryKey);
  }

  /** Every key name is a column when every key attribute is. */
  lemma KeyNamesExist(tableSchema: TableSchema, keys: seq<KeySchemaElement>)
    requires forall k :: k in keys ==> tableSchema.ColumnExists(k.attributeName)
    ensures forall name :: name in KeyNames(keys) ==> tableSchema.ColumnExists(name)
  {
    forall name | name in KeyNames(keys)
      ensures tableSchema.ColumnExists(name)
    {
      var j :| 0 <= j < |keys| && KeyNames(keys)[j] == name;
      assert keys[j] in keys;
    }
  }

  /** The distribution column is the first HASH key, and is unset when there is none. */
  ghost predicate DistributedOn(schema: TableSchema, hashKeys: seq<string>)
    reads schema
  {
    if hashKeys == [] then schema.distributionColumn == None
    else schema.distributionColumn.Some? && schema.distributionColumn.value.name == hashKeys[0]
  }

  /** One element of the key-schema loop: a HASH key sets the distribution column; the column becomes NOT NULL. */
  method ApplyKeyElement(tableSchema: TableSchema, keys: seq<KeySchemaElement>, i: nat) returns (r: Outcome<SchemaError>)
    requires tableSchema.Valid() && i < |keys| && tableSchema.ColumnExists(keys[i].attributeName)
    requires |HashKeys(keys[..i])| <= 1 && DistributedOn(tableSchema, HashKeys(keys[..i]))
    requires NotNullExactly(tableSchema.columns, KeyNames(keys)[..i])
    modifies tableSchema, tableSchema.columns
    ensures tableSchema.Valid()
    ensures tableSchema.columns == old(tableSchema.columns) && tableSchema.tableIndexes == old(tableSchema.tableIndexes)
    ensures r.Fail? ==> |HashKeys(keys)| > 1 && r == Fail(ColumnExistError(HashKeys(keys)[0]))
    ensures r.Pass? ==> |HashKeys(keys[..i + 1])| <= 1 && DistributedOn(tableSchema, HashKeys(keys[..i + 1]))
    ensures r.Pass? ==> NotNullExactly(tableSchema.columns, KeyNames(keys)[..i + 1])
  {
    var keyName := keys[i].attributeName;
    var column := tableSchema.GetColumn(keyName).value;
    HashKeysSnoc(keys, i);
    if keys[i].keyType == Hash {
      var outcome := tableSchema.SetDistributionColumn(keyName);
      if outcome.Fail? {
        HashKeysPrefix(keys, i + 1);
        assert HashKeys(keys[..i + 1]) == HashKeys(keys[..i]) + [keyName];
        assert HashKeys(keys)[0] == HashKeys(keys[..i + 1])[0];
        return outcome;
      }
    }
    SetNotNull(tableSchema, column, KeyNames(keys)[..i]);
    KeyNamesSnoc(keys, i);
    r := Pass;
  }

  /** Exactly the columns whose names are listed are NOT NULL. */
  ghost predicate NotNullExactly(columns: seq<TableColumn>, names: seq<string>)
    reads columns
  {
    forall j :: 0 <= j < |columns| ==> (columns[j].notNull <==> columns[j].name in names)
  }

  /** Marks one column of a valid schema NOT NULL; since names are unique, only its name joins the NOT NULL set. */
  method SetNotNull(tableSchema: TableSchema, column: TableColumn, ghost names: seq<string>)
    requires tableSchema.Valid() && column in tableSchema.columns
    requires NotNullExactly(tableSchema.columns, names)
    modifies column
    ensures NotNullExactly(tableSchema.columns, names + [column.name])
  {
    var k := tableSchema.IndexOf(column);
    column.notNull := true;
    forall j | 0 <= j < |tableSchema.columns|
      ensures tableSchema.columns[j].notNull <==> tableSchema.columns[j].name in names + [column.name]
    {
      if j != k {
        assert tableSchema.columns[j].name != tableSchema.columns[k].name;
      }
    }
  }

  /** The HASH names of a prefix start the HASH names of the whole. */
  lemma {:induction false} HashKeysPrefix(keys: seq<KeySchemaElement>, n: nat)
    requires n <= |keys|
    ensures |HashKeys(keys[..n])| <= |HashKeys(keys)|
    ensures HashKeys(keys)[..|HashKeys(keys[..n])|] == HashKeys(keys[..n])
    decreases |keys| - n
  {
    if n < |keys| {
      HashKeysPrefix(keys, n + 1);
      HashKeysSnoc(keys, n);
      assert keys[..|keys|] == keys;
    } else {
      assert keys[..n] == keys;
    }
  }

  /** The secondary-index loop: one index per secondary index, over its key names in order. */
  method AddSecondaryIndexes(tableSchema: TableSchema, gsis: seq<SecondaryIndex>)
    requires tableSchema.Valid()
    modifies tableSchema
    ensures tableSchema.Valid()
    ensures tableSchema.tableIndexes == old(tableSchema.tableIndexes) + Indexes(tableSchema.tableName, gsis)
    ensures tableSchema.columns == old(tableSchema.columns)
    ensures tableSchema.distributionColumn == old(tableSchema.distributionColumn)
    ensures tableSchema.primaryKey == old(tableSchema.primaryKey)
  {
    for i := 0 to |gsis|
      invariant tableSchema.Valid()
      invariant tableSchema.tableIndexes == old(tableSchema.tableIndexes) + Indexes(tableSchema.tableName, gsis[..i])
      invariant tableSchema.columns == old(tableSchema.columns)
      invariant tableSchema.distributionColumn == old(tableSchema.distributionColumn)
      invariant tableSchema.primaryKey == old(tableSchema.primaryKey)
    {
      var keySchema := gsis[i].keySchema;
      var indexColumns: seq<string> := [];
      for k := 0 to |keySchema|
        invariant indexColumns == KeyNames(keySchema)[..k]
      {
        indexColumns := indexColumns + [keySchema[k].attributeName];
      }
      assert KeyNames(keySchema)[..|keySchema|] == KeyNames(keySchema);
      tableSchema.AddIndex(gsis[i].indexName, indexColumns);
      assert Indexes(tableSchema.tableName, gsis[..i + 1])
          == Indexes(tableSchema.tableName, gsis[..i]) + [NewTableIndex(tableSchema.tableName, gsis[i].indexName, indexColumns)];
    }
    assert gsis[..|gsis|] == gsis;
  }

  /**
   * A numeric key attribute is declared as a bytea column, so the number a scanned item
   * carries under it does not match its column: the scan adds `id_numeric` and the row
   * stores the number there, leaving the key column itself without a value.
   */
  lemma NumericKeyMissesItsColumn(number: AttributeValue)
    requires number.b.None? && number.boolean.None? && number.bs.None? && number.l.None? && number.m.None?
    requires number.n == Some("7")
    ensures var cols := AttributePairs([AttributeDefinition("id", "N")]);
      cols == [("id", Bytea)]
      && Evolve(cols, [("id", number)]) == [("id", Bytea), ("id_numeric", Numeric)]
      && Fits(Evolve(cols, [("id", number)]), [("id", number)])
      && RowValues(Evolve(cols, [("id", number)]), [("id", number)]).Keys == {"id_numeric"}
  {
    var cols := [("id", Bytea)];
    assert Has(number, N);
    assert Redirect("id", Numeric) == "id_numeric";
    assert TypeOf(cols, "id_numeric") == None;
    EvolveSnoc(cols, [], ("id", number));
    var e := [("id", Bytea), ("id_numeric", Numeric)];
    assert [("id", number)] == [] + [("id", number)];
    assert TypeOf(e, "id") == Some(Bytea);
    assert [("id", number)][..0] == [];
    assert RowKey(e, ("id", number)) == "id_numeric";
  }

  // ---------------------------------------------------------------------------------------
  // Throttling
  // ---------------------------------------------------------------------------------------

  /** Java's `(int)` cast of a finite double: rounds toward zero and saturates at the int range. */
  function IntCast(x: real): (r: int)
    ensures IntMin <= r <= IntMax
  {
    var t := if x >= 0.0 then x.Floor else -((-x).Floor);
    if t < IntMin then IntMin else if t > IntMax then IntMax else t
  }

  /** The permits taken after a page: the consumed capacity less one, truncated, and at least one. */
  function Permits(consumedCapacity: real): int
  {
    var permitsToConsume := IntCast(consumedCapacity - 1.0);
    if permitsToConsume <= 0 then 1 else permitsToConsume
  }

  /**
   * The rate limiter is always asked for a positive number of permits: one when the page
   * cost less than two units, and otherwise the whole units beyond the first (truncated,
   * not rounded), up to the int range.
   */
  lemma PermitsMeaning(c: real)
    ensures 1 <= Permits(c) <= IntMax
    ensures c < 2.0 ==> Permits(c) == 1
    ensures 2.0 <= c < IntMax as real + 1.0 ==> Permits(c) == c.Floor - 1
  {
    if 2.0 <= c {
      assert (c - 1.0).Floor == c.Floor - 1;
    }
  }

  /** Guava's RateLimiter, as the permits it was asked for. */
  class RateLimiter {
    const permitsPerSecond: real
    var acquired: seq<int>

    /** `RateLimiter.create`: the rate must be positive. */
    constructor (permitsPerSecond: real)
      requires permitsPerSecond > 0.0
      ensures this.permitsPerSecond == permitsPerSecond && acquired == []
    {
      this.permitsPerSecond := permitsPerSecond;
      this.acquired := [];
    }

    /** `acquire`: waits for the permits, which must be positive. */
    method Acquire(permits: int)
      requires permits > 0
      modifies this
      ensures acquired == old(acquired) + [permits]
    {
      acquired := acquired + [permits];
    }
  }

  // ---------------------------------------------------------------------------------------
  // What the loops emit
  // ---------------------------------------------------------------------------------------

  /** The columns created by a log of calls, in order. */
  function CreatedColumns(log: seq<Call>): seq<TableColumn>
  {
    if log == [] then []
    else
      var last := log[|log| - 1];
      CreatedColumns(log[..|log| - 1]) + (if last.CreateColumn? then [last.column] else [])
  }

  /** The row changes (upserts and deletes) of a log of calls, in order. */
  function Changes(log: seq<Call>): seq<Call>
  {
    if log == [] then []
    else
      var last := log[|log| - 1];
      Changes(log[..|log| - 1]) + (if last.Upsert? || last.Delete? then [last] else [])
  }

  /** The COPY calls of a log, in order. */
  function Copies(log: seq<Call>): seq<Call>
  {
    if log == [] then []
    else
      var last := log[|log| - 1];
      Copies(log[..|log| - 1]) + (if last.CopyFromReader? then [last] else [])
  }

  /** All three views of a log distribute over concatenation. */
  lemma {:induction false} LogAppend(a: seq<Call>, b: seq<Call>)
    ensures CreatedColumns(a + b) == CreatedColumns(a) + CreatedColumns(b)
    ensures Changes(a + b) == Changes(a) + Changes(b)
    ensures Copies(a + b) == Copies(a) + Copies(b)
    decreases |b|
  {
    if b == [] {
      assert a + b == a;
    } else {
      var init := b[..|b| - 1];
      assert a + b == (a + init) + [b[|b| - 1]];
      assert (a + b)[..|a + b| - 1] == a + init;
      LogAppend(a, init);
    }
  }

  /** The createColumn calls for a list of columns. */
  function CreateCalls(columns: seq<TableColumn>): (r: seq<Call>)
    ensures |r| == |columns| && forall i :: 0 <= i < |columns| ==> r[i] == CreateColumn(columns[i])
  {
    seq(|columns|, i requires 0 <= i < |columns| => CreateColumn(columns[i]))
  }

  /** The call a modification is applied with. */
  function ChangeCall(m: Modification): Call
  {
    match m
    case Delete(key) => Call.Delete(key)
    case Upsert(row) => Call.Upsert(row)
  }

  /** The calls for a list of modifications. */
  function ChangeCalls(mods: seq<Modification>): (r: seq<Call>)
    ensures |r| == |mods| && forall i :: 0 <= i < |mods| ==> r[i] == ChangeCall(mods[i])
  {
    seq(|mods|, i requires 0 <= i < |mods| => ChangeCall(mods[i]))
  }

  /** A run of createColumn calls creates exactly its columns and changes nothing. */
  lemma {:induction false} CreateCallsView(columns: seq<TableColumn>)
    ensures CreatedColumns(CreateCalls(columns)) == columns
    ensures Changes(CreateCalls(columns)) == [] && Copies(CreateCalls(columns)) == []
  {
    if columns != [] {
      var init := columns[..|columns| - 1];
      assert CreateCalls(columns)[..|columns| - 1] == CreateCalls(init);
      CreateCallsView(init);
      assert columns == init + [columns[|columns| - 1]];
    }
  }

  /** A run of change calls is its own list of changes and creates nothing. */
  lemma {:induction false} ChangeCallsView(mods: seq<Modification>)
    ensures Changes(ChangeCalls(mods)) == ChangeCalls(mods)
    ensures CreatedColumns(ChangeCalls(mods)) == [] && Copies(ChangeCalls(mods)) == []
  {
    if mods != [] {
      var init := mods[..|mods| - 1];
      assert ChangeCalls(mods)[..|mods| - 1] == ChangeCalls(init);
      ChangeCallsView(init);
      assert ChangeCalls(mods) == ChangeCalls(init) + [ChangeCall(mods[|mods| - 1])];
    }
  }

  /**
   * One scanned page as `replicateData` writes it: the columns it added, then its COPY input;
   * `columns` are the schema's columns once the page's columns are added.
   */
  datatype CopiedPage = CopiedPage(newColumns: seq<TableColumn>, input: string, columns: seq<TableColumn>)

  /** The calls one page makes: a createColumn per new column, then one COPY. */
  function PageCalls(tableSchema: TableSchema, page: CopiedPage): seq<Call>
  {
    CreateCalls(page.newColumns) + [CopyFromReader(tableSchema, page.input)]
  }

  /** The calls of `replicateData`, page after page. */
  function DataCalls(tableSchema: TableSchema, pages: seq<CopiedPage>): seq<Call>
  {
    if pages == [] then []
    else DataCalls(tableSchema, pages[..|pages| - 1]) + PageCalls(tableSchema, pages[|pages| - 1])
  }

  /** The columns the pages added, in order. */
  function PageColumns(pages: seq<CopiedPage>): seq<TableColumn>
  {
    if pages == [] then [] else PageColumns(pages[..|pages| - 1]) + pages[|pages| - 1].newColumns
  }

  /** One more page extends the calls by its own. */
  lemma DataStep(calls: seq<Call>, tableSchema: TableSchema, pages: seq<CopiedPage>, page: CopiedPage)
    ensures calls + DataCalls(tableSchema, pages + [page]) == calls + DataCalls(tableSchema, pages) + PageCalls(tableSchema, page)
  {
    assert (pages + [page])[..|pages|] == pages;
  }

  /** One more page extends the columns by its own. */
  lemma PageColumnsStep(columns: seq<TableColumn>, pages: seq<CopiedPage>, page: CopiedPage)
    ensures columns + PageColumns(pages + [page]) == columns + PageColumns(pages) + page.newColumns
  {
    assert (pages + [page])[..|pages|] == pages;
  }

  /** The calls of a page, made one after the other. */
  lemma PageCallsAppend(calls: seq<Call>, tableSchema: TableSchema, page: CopiedPage)
    ensures calls + CreateCalls(page.newColumns) + [CopyFromReader(tableSchema, page.input)] == calls + PageCalls(tableSchema, page)
  {
  }

  /** The COPY calls the pages make, in order. */
  function PageCopies(tableSchema: TableSchema, pages: seq<CopiedPage>): seq<Call>
  {
    if pages == [] then []
    else PageCopies(tableSchema, pages[..|pages| - 1]) + [CopyFromReader(tableSchema, pages[|pages| - 1].input)]
  }

  /**
   * What `replicateData` writes: each column it added is created once, in order; there is
   * one COPY into the table per page, in order; nothing else (the lengths add up), and in
   * particular no row is upserted or deleted.
   */
  lemma {:induction false} DataCallsView(tableSchema: TableSchema, pages: seq<CopiedPage>)
    ensures var log := DataCalls(tableSchema, pages);
      CreatedColumns(log) == PageColumns(pages) && Copies(log) == PageCopies(tableSchema, pages) && Changes(log) == []
      && |log| == |CreatedColumns(log)| + |Copies(log)|
  {
    if pages != [] {
      var init := pages[..|pages| - 1];
      var page := pages[|pages| - 1];
      DataCallsView(tableSchema, init);
      LogAppend(DataCalls(tableSchema, init), PageCalls(tableSchema, page));
      PageCallsView(tableSchema, page);
    }
  }

  /** One page creates its columns, copies once and changes no row. */
  lemma PageCallsView(tableSchema: TableSchema, page: CopiedPage)
    ensures var log := PageCalls(tableSchema, page);
      CreatedColumns(log) == page.newColumns && Copies(log) == [CopyFromReader(tableSchema, page.input)]
      && Changes(log) == [] && |log| == |page.newColumns| + 1
  {
    var creates := CreateCalls(page.newColumns);
    var copy := [CopyFromReader(tableSchema, page.input)];
    LogAppend(creates, copy);
    CreateCallsView(page.newColumns);
    assert copy[..0] == [];
  }

  // ---------------------------------------------------------------------------------------
  // What the pages hold
  // ---------------------------------------------------------------------------------------

  /** Every item of a page builds a row under `columns` that COPY can render. */
  predicate PageRenderable(columns: seq<TableColumn>, items: seq<Item>)
  {
    forall i :: 0 <= i < |items| ==>
      Fits(PairsOf(columns), items[i]) && CanRender(columns, RowValues(PairsOf(columns), items[i]))
  }

  /** The COPY input of a page under `columns`: each item's row, each ended by a line break. */
  function PageInput(columns: seq<TableColumn>, items: seq<Item>): string
    requires PageRenderable(columns, items)
  {
    Concat(seq(|items|, i requires 0 <= i < |items| => CopyLine(columns, RowValues(PairsOf(columns), items[i])) + "\n"))
  }

  /** A page's COPY input has one line per item, in order: that item's COPY row under the columns. */
  lemma PageInputLines(columns: seq<TableColumn>, items: seq<Item>)
    requires PageRenderable(columns, items)
    ensures Count('\n', PageInput(columns, items)) == |items|
    ensures var lines := Split(PageInput(columns, items), '\n');
      |lines| == |items| + 1 && lines[|items|] == ""
      && forall i :: 0 <= i < |items| ==> lines[i] == CopyLine(columns, RowValues(PairsOf(columns), items[i]))
  {
    var lines := seq(|items|, i requires 0 <= i < |items| => CopyLine(columns, RowValues(PairsOf(columns), items[i])));
    forall i | 0 <= i < |lines + [""]|
      ensures '\n' !in (lines + [""])[i]
    {
      if i < |lines| {
        CopyLineIsOneLine(columns, RowValues(PairsOf(columns), items[i]));
      }
    }
    assert seq(|items|, i requires 0 <= i < |items| => CopyLine(columns, RowValues(PairsOf(columns), items[i])) + "\n")
        == seq(|lines|, i requires 0 <= i < |lines| => lines[i] + ['\n']);
    ConcatTerminated(lines, '\n');
    SplitJoin(lines + [""], '\n');
    CountJoin(lines + [""], '\n');
  }

  /**
   * A page copied after the columns `before`: its new columns extend them as
   * `addNewColumnsToSchema` evolves them over the page's items, and its COPY input is the
   * page's rows under the grown columns.
   */
  predicate PageCopied(before: seq<TableColumn>, page: CopiedPage, items: seq<Item>)
  {
    page.columns == before + page.newColumns
    && PairsOf(page.columns) == Evolve(PairsOf(before), Fields(items))
    && PageRenderable(page.columns, items) && page.input == PageInput(page.columns, items)
  }

  /** The columns page `i` was copied after: the columns at the start, then those the page before it left. */
  function ColumnsBefore(columns0: seq<TableColumn>, pages: seq<CopiedPage>, i: nat): seq<TableColumn>
    requires i <= |pages|
  {
    if i == 0 then columns0 else pages[i - 1].columns
  }

  /** Page `i` was copied from scan result `i`, after the columns the page before it left. */
  predicate PageCopiedAt(columns0: seq<TableColumn>, pages: seq<CopiedPage>, results: seq<ScanResult>, i: nat)
    requires i < |pages| && i < |results|
  {
    PageCopied(ColumnsBefore(columns0, pages, i), pages[i], results[i].items)
  }

  /** Each page was copied from the scan result of the same position, after the columns the page before it left. */
  predicate CopiedInOrder(columns0: seq<TableColumn>, pages: seq<CopiedPage>, results: seq<ScanResult>)
  {
    |pages| == |results|
    && forall i :: 0 <= i < |pages| ==> PageCopiedAt(columns0, pages, results, i)
  }

  /** One more page, copied after the columns the pages so far left, extends pages copied in order. */
  lemma CopiedInOrderStep(columns0: seq<TableColumn>, pages: seq<CopiedPage>, results: seq<ScanResult>,
                          page: CopiedPage, result: ScanResult)
    requires CopiedInOrder(columns0, pages, results)
    requires PageCopied(ColumnsBefore(columns0, pages, |pages|), page, result.items)
    ensures CopiedInOrder(columns0, pages + [page], results + [result])
  {
    var pages', results' := pages + [page], results + [result];
    forall i | 0 <= i < |pages'|
      ensures PageCopiedAt(columns0, pages', results', i)
    {
      if i < |pages| {
        assert ColumnsBefore(columns0, pages', i) == ColumnsBefore(columns0, pages, i);
        assert PageCopiedAt(columns0, pages, results, i);
      } else {
        assert ColumnsBefore(columns0, pages', i) == ColumnsBefore(columns0, pages, |pages|);
      }
    }
  }

  /** How a run of scans ends: the pages read, and the failure that stopped it, if one did. */
  datatype ScanRun = ScanRun(pages: seq<ScanResult>, failure: Option<ScanFailure>)

  /**
   * The pages `replicateData` reads from the scan position `key` on, at most `n` of them: each
   * is the outcome of the scan at the previous page's last evaluated key, and the run stops
   * after a page without one, or at a failed scan.
   */
  function Scans(client: ScanClient, key: Option<Item>, n: nat): (r: ScanRun)
    ensures |r.pages| <= n
    decreases n
  {
    if n == 0 then ScanRun([], None)
    else
      match Retry(client, key, 1)
      case Err(failure) => ScanRun([], Some(failure))
      case Ok(page) =>
        if page.lastEvaluatedKey.None? then ScanRun([page], None)
        else
          var rest := Scans(client, page.lastEvaluatedKey, n - 1);
          ScanRun([page] + rest.pages, rest.failure)
  }

  /** The position page `i` of a run was read at: the start, then the previous page's last evaluated key. */
  function KeyBefore(key: Option<Item>, pages: seq<ScanResult>, i: nat): Option<Item>
    requires i <= |pages|
  {
    if i == 0 then key else pages[i - 1].lastEvaluatedKey
  }

  /**
   * A run reads consecutive pages: page `i` is the scan's outcome at the key the page before
   * it ended on; every page but the last has a last evaluated key; a failure is the outcome at
   * the position after the last page; and a run that ends short of the bound without a failure
   * ends on a page without a last evaluated key.
   */
  lemma {:induction false} ScansMeaning(client: ScanClient, key: Option<Item>, n: nat)
    ensures var run := Scans(client, key, n);
      (forall i :: 0 <= i < |run.pages| ==> Retry(client, KeyBefore(key, run.pages, i), 1) == Ok(run.pages[i]))
      && (forall i :: 0 <= i < |run.pages| - 1 ==> run.pages[i].lastEvaluatedKey.Some?)
      && (run.failure.Some? ==>
            |run.pages| < n && Retry(client, KeyBefore(key, run.pages, |run.pages|), 1) == Err(run.failure.value))
      && (run.failure.None? && |run.pages| < n ==> run.pages != [] && run.pages[|run.pages| - 1].lastEvaluatedKey.None?)
    decreases n
  {
    if n > 0 && Retry(client, key, 1).Ok? {
      var page := Retry(client, key, 1).value;
      if page.lastEvaluatedKey.Some? {
        var next := page.lastEvaluatedKey;
        var rest := Scans(client, next, n - 1);
        var pages := [page] + rest.pages;
        ScansMeaning(client, next, n - 1);
        forall i | 1 <= i <= |pages|
          ensures KeyBefore(key, pages, i) == KeyBefore(next, rest.pages, i - 1)
        {
        }
        forall i | 1 <= i < |pages|
          ensures Retry(client, KeyBefore(key, pages, i), 1) == Ok(pages[i])
        {
          assert pages[i] == rest.pages[i - 1];
        }
      }
    }
  }

  /** The run that reads `rest` after the pages `results`. */
  function Resumed(results: seq<ScanResult>, rest: ScanRun): (r: ScanRun)
    ensures |r.pages| == |results| + |rest.pages| && r.failure == rest.failure
    ensures r.pages[..|results|] == results && r.pages[|results|..] == rest.pages
  {
    ScanRun(results + rest.pages, rest.failure)
  }

  /**
   * Where `replicateData`'s scan stands before reading at `key` with `remaining` pages left
   * of at most `n`: each result so far had a successor; the whole run is those results
   * followed by the run from `key`; and a permit count was taken for each result.
   */
  predicate ScanProgress(client: ScanClient, n: nat, remaining: nat, key: Option<Item>,
                         results: seq<ScanResult>, permits: seq<int>)
  {
    AllHaveSuccessors(results)
    && key == KeyBefore(None, results, |results|)
    && Scans(client, None, n) == Resumed(results, Scans(client, key, remaining))
    && PermitsOf(results, permits)
  }

  /** Every scan result so far came with the key of a next page. */
  predicate AllHaveSuccessors(results: seq<ScanResult>)
  {
    forall i :: 0 <= i < |results| ==> results[i].lastEvaluatedKey.Some?
  }

  /** One permit count per scan result, the one its consumed capacity asks for. */
  predicate PermitsOf(results: seq<ScanResult>, permits: seq<int>)
  {
    |permits| == |results| && forall i :: 0 <= i < |permits| ==> permits[i] == Permits(results[i].consumedCapacity)
  }

  /** What `replicateData` promises with a positive rate, given the run it read. */
  predicate ScanReplicated(run: ScanRun, columns0: seq<TableColumn>, pages: seq<CopiedPage>, permits: seq<int>,
                           r: Outcome<ReplicationError>)
  {
    r == (if run.failure.Some? then Fail(ScanError(run.failure.value)) else Pass)
    && CopiedInOrder(columns0, pages, run.pages)
    && |permits| <= |pages|
    && (forall i :: 0 <= i < |pages| ==> (i < |permits| <==> run.pages[i].lastEvaluatedKey.Some?))
    && (forall i :: 0 <= i < |permits| ==> permits[i] == Permits(run.pages[i].consumedCapacity))
  }

  /**
   * Where `replicateData` stands between pages, with `remaining` scans left of at most `n`:
   * the schema holds the columns the pages added, the pages were copied from the results
   * in order, and the scan goes on from `key`.
   */
  predicate DataProgress(client: ScanClient, n: nat, remaining: nat, key: Option<Item>, columns0: seq<TableColumn>,
                         columns: seq<TableColumn>, pages: seq<CopiedPage>, results: seq<ScanResult>, permits: seq<int>)
  {
    columns == columns0 + PageColumns(pages) == ColumnsBefore(columns0, pages, |pages|)
    && CopiedInOrder(columns0, pages, results)
    && ScanProgress(client, n, remaining, key, results, permits)
  }

  /**
   * One scan of `replicateData` at `key` and the page copied from it, against the whole run:
   * a failure ends the run after the pages so far, a page without a successor ends it
   * after that page, and any other page moves the run on by one page.
   */
  lemma NextPageStep(client: ScanClient, n: nat, remaining: nat, remaining': nat, key: Option<Item>,
                     columns0: seq<TableColumn>, columns: seq<TableColumn>, pages: seq<CopiedPage>,
                     results: seq<ScanResult>, permits: seq<int>, page: CopiedPage)
    requires DataProgress(client, n, remaining, key, columns0, columns, pages, results, permits)
    requires remaining == remaining' + 1
    requires Retry(client, key, 1).Ok? ==> PageCopied(columns, page, Retry(client, key, 1).value.items)
    ensures var outcome := Retry(client, key, 1);
      (outcome.Err? ==> ScanReplicated(Scans(client, None, n), columns0, pages, permits, Fail(ScanError(outcome.error))))
      && (outcome.Ok? && outcome.value.lastEvaluatedKey.None? ==>
            page.columns == columns0 + PageColumns(pages + [page])
            && ScanReplicated(Scans(client, None, n), columns0, pages + [page], permits, Pass))
      && (outcome.Ok? && outcome.value.lastEvaluatedKey.Some? ==>
            DataProgress(client, n, remaining', outcome.value.lastEvaluatedKey, columns0, page.columns,
                         pages + [page], results + [outcome.value], permits + [Permits(outcome.value.consumedCapacity)]))
  {
    var outcome := Retry(client, key, 1);
    if outcome.Err? {
      ScanProgressFails(client, n, remaining, key, columns0, pages, results, permits, outcome.error);
    } else {
      var result := outcome.value;
      PageColumnsStep(columns0, pages, page);
      CopiedInOrderStep(columns0, pages, results, page, result);
      if result.lastEvaluatedKey.None? {
        ScanProgressLast(client, n, remaining, key, columns0, pages, results, permits, page, result);
      } else {
        ScanProgressStep(client, n, remaining, key, results, permits, result, remaining', result.lastEvaluatedKey,
                         results + [result], permits + [Permits(result.consumedCapacity)]);
      }
    }
  }

  /** A page with a successor, read at `key`, moves the scan on by one result and one permit count. */
  lemma ScanProgressStep(client: ScanClient, n: nat, remaining: nat, key: Option<Item>,
                         results: seq<ScanResult>, permits: seq<int>, result: ScanResult,
                         remaining': nat, key': Option<Item>, results': seq<ScanResult>, permits': seq<int>)
    requires ScanProgress(client, n, remaining, key, results, permits) && remaining == remaining' + 1
    requires Retry(client, key, 1) == Ok(result) && result.lastEvaluatedKey.Some?
    requires key' == result.lastEvaluatedKey && results' == results + [result]
    requires permits' == permits + [Permits(result.consumedCapacity)]
    ensures ScanProgress(client, n, remaining', key', results', permits')
  {
    ScansContinue(client, n, remaining, key, results, result);
    assert forall i :: 0 <= i < |results'| ==> results'[i].lastEvaluatedKey.Some?;
    assert forall i :: 0 <= i < |permits'| ==> permits'[i] == Permits(results'[i].consumedCapacity);
  }

  /** A failed scan at `key` ends `replicateData` with that failure, after the pages so far. */
  lemma ScanProgressFails(client: ScanClient, n: nat, remaining: nat, key: Option<Item>, columns0: seq<TableColumn>,
                          pages: seq<CopiedPage>, results: seq<ScanResult>, permits: seq<int>, failure: ScanFailure)
    requires ScanProgress(client, n, remaining, key, results, permits) && remaining > 0
    requires CopiedInOrder(columns0, pages, results)
    requires Retry(client, key, 1) == Err(failure)
    ensures ScanReplicated(Scans(client, None, n), columns0, pages, permits, Fail(ScanError(failure)))
  {
    assert results + [] == results;
  }

  /** A page without a successor, read at `key` and copied, ends `replicateData` with success. */
  lemma ScanProgressLast(client: ScanClient, n: nat, remaining: nat, key: Option<Item>, columns0: seq<TableColumn>,
                         pages: seq<CopiedPage>, results: seq<ScanResult>, permits: seq<int>,
                         page: CopiedPage, result: ScanResult)
    requires ScanProgress(client, n, remaining, key, results, permits) && remaining > 0
    requires CopiedInOrder(columns0, pages + [page], results + [result])
    requires Retry(client, key, 1) == Ok(result) && result.lastEvaluatedKey.None?
    ensures ScanReplicated(Scans(client, None, n), columns0, pages + [page], permits, Pass)
  {
    assert Scans(client, key, remaining) == ScanRun([result], None);
  }

  /** Reaching the bound ends `replicateData` with success after the pages so far. */
  lemma ScanProgressBound(client: ScanClient, n: nat, key: Option<Item>, columns0: seq<TableColumn>,
                          pages: seq<CopiedPage>, results: seq<ScanResult>, permits: seq<int>)
    requires ScanProgress(client, n, 0, key, results, permits)
    requires CopiedInOrder(columns0, pages, results)
    ensures ScanReplicated(Scans(client, None, n), columns0, pages, permits, Pass)
  {
    assert results + [] == results;
  }

  /** After the results so far, a page with a successor read at `key` joins them, and the run goes on from its end. */
  lemma ScansContinue(client: ScanClient, n: nat, remaining: nat, key: Option<Item>, results: seq<ScanResult>, result: ScanResult)
    requires remaining > 0
    requires Scans(client, None, n) == Resumed(results, Scans(client, key, remaining))
    requires Retry(client, key, 1) == Ok(result) && result.lastEvaluatedKey.Some?
    ensures Scans(client, None, n) == Resumed(results + [result], Scans(client, result.lastEvaluatedKey, remaining - 1))
  {
    var rest := Scans(client, result.lastEvaluatedKey, remaining - 1);
    assert Scans(client, key, remaining) == ScanRun([result] + rest.pages, rest.failure);
    AppendAssoc(results, [result], rest.pages);
  }

  /** One stream batch as `replicateChanges` writes it: the columns it added, then its modifications. */
  datatype AppliedBatch = AppliedBatch(newColumns: seq<TableColumn>, mods: seq<Modification>)

  /** The calls one batch makes: a createColumn per new column, then a delete or upsert per record. */
  function BatchCalls(batch: AppliedBatch): seq<Call>
  {
    CreateCalls(batch.newColumns) + ChangeCalls(batch.mods)
  }

  /** The calls of `replicateChanges`, batch after batch. */
  function StreamCalls(batches: seq<AppliedBatch>): seq<Call>
  {
    if batches == [] then [] else StreamCalls(batches[..|batches| - 1]) + BatchCalls(batches[|batches| - 1])
  }

  /** The columns the batches added, in order. */
  function BatchColumns(batches: seq<AppliedBatch>): seq<TableColumn>
  {
    if batches == [] then [] else BatchColumns(batches[..|batches| - 1]) + batches[|batches| - 1].newColumns
  }

  /** The modifications of the batches, in order. */
  function BatchMods(batches: seq<AppliedBatch>): seq<Modification>
  {
    if batches == [] then [] else BatchMods(batches[..|batches| - 1]) + batches[|batches| - 1].mods
  }

  /**
   * What `replicateChanges` writes: each column it added is created once, in order; the
   * row changes are the batches' modifications, in order; nothing else (the lengths add
   * up), and in particular nothing is copied.
   */
  lemma {:induction false} StreamCallsView(batches: seq<AppliedBatch>)
    ensures var log := StreamCalls(batches);
      CreatedColumns(log) == BatchColumns(batches) && Changes(log) == ChangeCalls(BatchMods(batches)) && Copies(log) == []
      && |log| == |CreatedColumns(log)| + |Changes(log)|
  {
    if batches != [] {
      var init := batches[..|batches| - 1];
      var batch := batches[|batches| - 1];
      StreamCallsView(init);
      LogAppend(StreamCalls(init), BatchCalls(batch));
      BatchCallsView(batch);
      ChangeCallsAppend(BatchMods(init), batch.mods);
    }
  }

  /** One more batch extends the calls, the columns and the modifications by its own. */
  lemma StreamStep(calls: seq<Call>, batches: seq<AppliedBatch>, batch: AppliedBatch)
    ensures calls + StreamCalls(batches + [batch]) == calls + StreamCalls(batches) + BatchCalls(batch)
    ensures BatchColumns(batches + [batch]) == BatchColumns(batches) + batch.newColumns
    ensures BatchMods(batches + [batch]) == BatchMods(batches) + batch.mods
  {
    assert (batches + [batch])[..|batches|] == batches;
  }

  /** The calls of a batch, made one after the other. */
  lemma BatchCallsAppend(calls: seq<Call>, batch: AppliedBatch)
    ensures calls + CreateCalls(batch.newColumns) + ChangeCalls(batch.mods) == calls + BatchCalls(batch)
  {
  }

  /** One batch creates its columns, applies its modifications and copies nothing. */
  lemma BatchCallsView(batch: AppliedBatch)
    ensures var log := BatchCalls(batch);
      CreatedColumns(log) == batch.newColumns && Changes(log) == ChangeCalls(batch.mods)
      && Copies(log) == [] && |log| == |batch.newColumns| + |batch.mods|
  {
    LogAppend(CreateCalls(batch.newColumns), ChangeCalls(batch.mods));
    CreateCallsView(batch.newColumns);
    ChangeCallsView(batch.mods);
  }

  /** The calls of concatenated modifications are the concatenated calls. */
  lemma ChangeCallsAppend(mods: seq<Modification>, more: seq<Modification>)
    ensures ChangeCalls(mods + more) == ChangeCalls(mods) + ChangeCalls(more)
  {
    assert forall i :: |mods| <= i < |mods| + |more| ==> (mods + more)[i] == more[i - |mods|];
  }

  /** A delete stands exactly for each REMOVE record, and an upsert for every other, in order. */
  predicate FollowsEvents(mods: seq<Modification>, records: seq<StreamRecord>)
  {
    |mods| == |records| && forall i :: 0 <= i < |mods| ==> (mods[i].Delete? <==> records[i].eventName == RemoveEvent)
  }

  /**
   * The responses `replicateChanges` reads from a shard, starting at `position`: each read
   * is made at the position the response before it returned, and the reads stop after the
   * first response without a next position, or after `n` reads.
   */
  function StreamReads(client: RecordsClient, position: Option<string>, n: nat): (r: seq<RecordsResult>)
    ensures |r| <= n
    decreases n
  {
    if n == 0 then []
    else if client(position).nextShardIterator.None? then [client(position)]
    else [client(position)] + StreamReads(client, client(position).nextShardIterator, n - 1)
  }

  /** The position the `i`-th read is made at: the start, then the next position of the response before. */
  function IteratorBefore(position: Option<string>, responses: seq<RecordsResult>, i: nat): Option<string>
    requires i <= |responses|
  {
    if i == 0 then position else responses[i - 1].nextShardIterator
  }

  /** The `i`-th response is the client's answer at the position the one before it returned. */
  predicate ReadAt(client: RecordsClient, position: Option<string>, responses: seq<RecordsResult>, i: nat)
    requires i < |responses|
  {
    responses[i] == client(IteratorBefore(position, responses, i))
  }

  /**
   * A chain of at most `n` reads from `position`: every response is read at the position its
   * predecessor returned, every response but the last has a next position, and the chain stops
   * early only at a response without one.
   */
  predicate ReadChain(client: RecordsClient, position: Option<string>, n: nat, responses: seq<RecordsResult>)
  {
    |responses| <= n
    && (forall i :: 0 <= i < |responses| ==> ReadAt(client, position, responses, i))
    && (forall i :: 0 <= i < |responses| - 1 ==> responses[i].nextShardIterator.Some?)
    && (|responses| < n ==> |responses| > 0 && responses[|responses| - 1].nextShardIterator.None?)
  }

  /** The reads of `replicateChanges` are exactly the chain of reads that the shard's iterators define. */
  lemma {:induction false} StreamReadsChain(client: RecordsClient, position: Option<string>, n: nat, responses: seq<RecordsResult>)
    ensures ReadChain(client, position, n, responses) <==> responses == StreamReads(client, position, n)
    decreases n
  {
    if n > 0 {
      var first := client(position);
      var next := first.nextShardIterator;
      if next.Some? {
        if responses != [] {
          var rest := responses[1..];
          assert responses == [responses[0]] + rest;
          ReadChainTail(client, position, n, responses);
          StreamReadsChain(client, next, n - 1, rest);
        } else {
          assert !ReadChain(client, position, n, responses);
        }
        StreamReadsChain(client, next, n - 1, StreamReads(client, next, n - 1));
        ReadChainCons(client, position, n, first, StreamReads(client, next, n - 1));
      } else if ReadChain(client, position, n, responses) {
        assert ReadAt(client, position, responses, 0);
        assert |responses| == 1;
      } else {
        assert ReadAt(client, position, [first], 0);
      }
    }
  }

  /** A chain whose first response has a successor continues as a chain from that successor. */
  lemma ReadChainTail(client: RecordsClient, position: Option<string>, n: nat, responses: seq<RecordsResult>)
    requires n > 0 && responses != [] && client(position).nextShardIterator.Some?
    ensures ReadChain(client, position, n, responses) <==>
      responses[0] == client(position) && ReadChain(client, client(position).nextShardIterator, n - 1, responses[1..])
  {
    var next := client(position).nextShardIterator;
    var rest := responses[1..];
    if ReadChain(client, position, n, responses) {
      assert ReadAt(client, position, responses, 0);
      forall i | 0 <= i < |rest|
        ensures ReadAt(client, next, rest, i)
      {
        assert ReadAt(client, position, responses, i + 1);
      }
    }
    if responses[0] == client(position) && ReadChain(client, next, n - 1, rest) {
      forall i | 0 <= i < |responses|
        ensures ReadAt(client, position, responses, i)
      {
        if i > 0 {
          assert ReadAt(client, next, rest, i - 1);
        }
      }
    }
  }

  /** A first response with a successor, put before a chain from that successor, is a chain. */
  lemma ReadChainCons(client: RecordsClient, position: Option<string>, n: nat, first: RecordsResult, rest: seq<RecordsResult>)
    requires n > 0 && first == client(position) && first.nextShardIterator.Some?
    requires ReadChain(client, first.nextShardIterator, n - 1, rest)
    ensures ReadChain(client, position, n, [first] + rest)
  {
    ReadChainTail(client, position, n, [first] + rest);
    assert ([first] + rest)[1..] == rest;
  }

  /** The records of the responses, response after response. */
  function StreamedRecords(responses: seq<RecordsResult>): seq<StreamRecord>
  {
    if responses == [] then [] else StreamedRecords(responses[..|responses| - 1]) + responses[|responses| - 1].records
  }

  /** The schema columns in force before batch `b`: the start, then those after the batch before. */
  function PairsBefore(pairs0: seq<Column>, schemas: seq<seq<Column>>, b: nat): seq<Column>
    requires b <= |schemas|
  {
    if b == 0 then pairs0 else schemas[b - 1]
  }

  /** After batch `b` the schema's columns are those before it, evolved by the new images of its records. */
  predicate EvolvedAt(pairs0: seq<Column>, schemas: seq<seq<Column>>, responses: seq<RecordsResult>, b: nat)
    requires b < |schemas| && b < |responses|
  {
    schemas[b] == EvolveNew(PairsBefore(pairs0, schemas, b), NewImageFields(responses[b].records))
  }

  /** The reads so far, then the reads left from `position`, make up the whole run of reads from `start`. */
  predicate StreamProgress(client: RecordsClient, start: Option<string>, n: nat, remaining: nat,
                           position: Option<string>, responses: seq<RecordsResult>)
  {
    StreamReads(client, start, n) == responses + StreamReads(client, position, remaining)
  }

  /**
   * The schema chain of `replicateChanges` after the responses so far: the next read is at the
   * iterator the last response returned, each batch evolved the schema in force before it,
   * and `pairs` are the schema's columns after the last batch.
   */
  predicate ChangesProgress(start: Option<string>, position: Option<string>, pairs0: seq<Column>, pairs: seq<Column>,
                            responses: seq<RecordsResult>, schemas: seq<seq<Column>>)
  {
    |schemas| == |responses| && position == IteratorBefore(start, responses, |responses|)
    && (forall b :: 0 <= b < |schemas| ==> EvolvedAt(pairs0, schemas, responses, b))
    && pairs == PairsBefore(pairs0, schemas, |schemas|)
  }

  /** One more read at `position`: it ends the run if it has no next iterator and moves the run on otherwise. */
  lemma StreamProgressStep(client: RecordsClient, start: Option<string>, n: nat, remaining: nat, remaining': nat,
                           position: Option<string>, responses: seq<RecordsResult>, response: RecordsResult)
    requires StreamProgress(client, start, n, remaining, position, responses)
    requires remaining == remaining' + 1 && response == client(position)
    ensures response.nextShardIterator.None? ==> StreamReads(client, start, n) == responses + [response]
    ensures response.nextShardIterator.Some? ==>
      StreamProgress(client, start, n, remaining', response.nextShardIterator, responses + [response])
  {
    AppendAssoc(responses, [response], StreamReads(client, response.nextShardIterator, remaining'));
  }

  /** A batch that evolves the schema in force extends the chain of schemas by one. */
  lemma SchemaChainStep(pairs0: seq<Column>, schemas: seq<seq<Column>>, responses: seq<RecordsResult>,
                        before: seq<Column>, after: seq<Column>, response: RecordsResult)
    requires |schemas| == |responses| && forall b :: 0 <= b < |schemas| ==> EvolvedAt(pairs0, schemas, responses, b)
    requires before == PairsBefore(pairs0, schemas, |schemas|)
    requires after == EvolveNew(before, NewImageFields(response.records))
    ensures forall b :: 0 <= b < |schemas| + 1 ==> EvolvedAt(pairs0, schemas + [after], responses + [response], b)
  {
    forall b | 0 <= b < |schemas| + 1
      ensures EvolvedAt(pairs0, schemas + [after], responses + [response], b)
    {
      if b < |schemas| {
        assert EvolvedAt(pairs0, schemas, responses, b);
      }
    }
  }

  /** The modifications of one more batch, made under the schema it left, join those of the batches before. */
  lemma AppliedStep(tableSchema: TableSchema, primaryKey: Option<seq<string>>, schemas: seq<seq<Column>>,
                    responses: seq<RecordsResult>, batches: seq<AppliedBatch>,
                    after: seq<Column>, response: RecordsResult, batch: AppliedBatch)
    requires |batches| == |responses| == |schemas|
    requires forall b :: 0 <= b < |batches| ==> |batches[b].mods| == |responses[b].records|
    requires forall b, i :: 0 <= b < |batches| && 0 <= i < |batches[b].mods| ==>
      ModificationAt(tableSchema, primaryKey, schemas[b], responses[b].records[i], batches[b].mods[i])
    requires |batch.mods| == |response.records|
    requires forall i :: 0 <= i < |batch.mods| ==> ModificationAt(tableSchema, primaryKey, after, response.records[i], batch.mods[i])
    ensures forall b :: 0 <= b < |batches| + 1 ==> |(batches + [batch])[b].mods| == |(responses + [response])[b].records|
    ensures forall b, i :: 0 <= b < |batches| + 1 && 0 <= i < |(batches + [batch])[b].mods| ==>
      ModificationAt(tableSchema, primaryKey, (schemas + [after])[b], (responses + [response])[b].records[i], (batches + [batch])[b].mods[i])
  {
  }

  /** One more response adds its records at the end. */
  lemma StreamedRecordsStep(responses: seq<RecordsResult>, response: RecordsResult)
    ensures StreamedRecords(responses + [response]) == StreamedRecords(responses) + response.records
  {
    assert (responses + [response])[..|responses|] == responses;
  }

  /** Every attribute of every item carries a shape. */
  predicate AllShaped(items: seq<Item>)
  {
    forall i, k :: 0 <= i < |items| && 0 <= k < |items[i]| ==> HasShape(items[i][k].1)
  }

  /** Every page the scan client can return holds only shaped attributes. */
  ghost predicate ShapedPages(client: ScanClient)
  {
    forall key, t :: client(key, t).Page? ==> AllShaped(client(key, t).result.items)
  }

  /**
   * Every stream record the client can return is one `modifications` can convert: a
   * REMOVE has keys, anything else a new image with shaped attributes.
   */
  ghost predicate WellFormedRecords(client: RecordsClient)
  {
    forall position, i :: 0 <= i < |client(position).records| ==> WellFormedRecord(client(position).records[i])
  }

  /** A REMOVE has keys; anything else has a new image whose attributes carry shapes. */
  predicate WellFormedRecord(record: StreamRecord)
  {
    if record.eventName == RemoveEvent then record.keys.Some?
    else record.newImage.Some? && forall k :: 0 <= k < |record.newImage.value| ==> HasShape(record.newImage.value[k].1)
  }

  // ---------------------------------------------------------------------------------------
  // The replicator
  // ---------------------------------------------------------------------------------------

  /** The failures that end `replicateData` (the process then exits). */
  datatype ReplicationError = ScanError(failure: ScanFailure) | IllegalRate(maxScanRate: int)

  /** DynamoDBTableReplicator: the emitter, the table's name and its schema once fetched. */
  class DynamoDBTableReplicator {
    const emitter: RecordingEmitter
    const dynamoTableName: string
    var tableSchema: TableSchema?

    constructor (emitter: RecordingEmitter, tableName: string)
      ensures this.emitter == emitter && dynamoTableName == tableName && tableSchema == null
    {
      this.emitter := emitter;
      this.dynamoTableName := tableName;
      this.tableSchema := null;
    }

    /** `replicateSchema`: fetches the base schema and creates the table; a failure ends the process. */
    method ReplicateSchema(d: TableDescription) returns (r: Outcome<SchemaError>)
      requires forall k :: k in d.keySchema ==> k.attributeName in AttributeNames(d.attributeDefinitions)
      modifies this, emitter
      ensures r.Pass? ==> (tableSchema != null && fresh(tableSchema) && BaseSchema(tableSchema, dynamoTableName, d)
        && emitter.calls == old(emitter.calls) + [CreateTable(tableSchema)])
      ensures r.Fail? ==> tableSchema == old(tableSchema) && emitter.calls == old(emitter.calls)
    {
      var fetched := FetchBaseSchema(dynamoTableName, d);
      if fetched.Err? {
        return Fail(fetched.error);
      }
      tableSchema := fetched.value;
      emitter.CreateTableOf(tableSchema);
      r := Pass;
    }

    /**
     * One page of `replicateData`: the page's new columns are added to the schema and
     * created, in order, then its rows are loaded with one COPY, which reports one row
     * per item of the page.
     */
    method CopyBatch(batch: ScannedBatch) returns (newColumns: seq<TableColumn>, input: string, copied: nat)
      requires tableSchema != null && tableSchema.Valid() && AllShaped(batch.result.items)
      modifies tableSchema, emitter
      ensures tableSchema.Valid()
      ensures PageCopied(old(tableSchema.columns), CopiedPage(newColumns, input, tableSchema.columns), batch.result.items)
      ensures tableSchema.distributionColumn == old(tableSchema.distributionColumn)
      ensures tableSchema.primaryKey == old(tableSchema.primaryKey)
      ensures tableSchema.tableIndexes == old(tableSchema.tableIndexes)
      ensures emitter.calls == old(emitter.calls) + PageCalls(tableSchema, CopiedPage(newColumns, input, tableSchema.columns))
      ensures copied == |batch.result.items|
    {
      var items := batch.result.items;
      ghost var columns0 := tableSchema.columns;
      ghost var start := Pairs(tableSchema);
      ghost var calls0 := emitter.calls;
      newColumns := batch.AddNewColumnsToSchema(tableSchema);
      CreateColumns(emitter, newColumns);
      ScannedPageFits(start, items);
      var tableRowBatch := batch.Rows(tableSchema);
      assert tableRowBatch.RenderableRows();
      input := tableRowBatch.ToCopyInput();
      CopyInputIsPageInput(tableRowBatch, tableSchema, items);
      ghost var page := CopiedPage(newColumns, input, tableSchema.columns);
      assert PageCopied(columns0, page, items);
      PageInputLines(page.columns, items);
      copied := emitter.CopyFrom(tableSchema, input);
      PageCallsAppend(calls0, tableSchema, page);
    }

    /**
     * The start of each iteration of `replicateData`: scans the page at the scanner's
     * position and, if that succeeded, copies it and moves the position to the page's end.
     */
    method ScanAndCopy(scanner: DynamoDBScanner, client: ScanClient)
      returns (scanned: Result<ScannedBatch, ScanFailure>, ghost page: CopiedPage)
      requires tableSchema != null && tableSchema.Valid() && ShapedPages(client)
      modifies scanner, tableSchema, emitter
      ensures tableSchema.Valid()
      ensures var outcome := Retry(client, old(scanner.lastEvaluatedKey), 1);
        (outcome.Err? ==>
           scanned == Err(outcome.error) && scanner.lastEvaluatedKey == old(scanner.lastEvaluatedKey)
           && tableSchema.columns == old(tableSchema.columns) && emitter.calls == old(emitter.calls))
        && (outcome.Ok? ==>
              scanned.Ok? && scanned.value.scanner == scanner && scanned.value.result == outcome.value
              && scanner.lastEvaluatedKey == outcome.value.lastEvaluatedKey
              && PageCopied(old(tableSchema.columns), page, outcome.value.items) && tableSchema.columns == page.columns
              && emitter.calls == old(emitter.calls) + PageCalls(tableSchema, page))
    {
      ghost var key := scanner.lastEvaluatedKey;
      scanned := scanner.Scan(client);
      page := CopiedPage([], "", []);
      if scanned.Ok? {
        RetryMeaning(client, key, 1);
        var newColumns, input, copied := CopyBatch(scanned.value);
        page := CopiedPage(newColumns, input, tableSchema.columns);
      }
    }

    /**
     * One pass of `replicateData`'s loop, read against the whole run: the next page is
     * read at the scanner's key and copied after the pages so far. The run then ends, with
     * the scan's failure or with its last page, or the rate limiter is asked for the
     * page's permits and the run goes on from the page's key with the page, its result
     * and its permit count added.
     */
    method NextPage(scanner: DynamoDBScanner, rateLimiter: RateLimiter, client: ScanClient, ghost n: nat,
                    ghost remaining: nat, ghost columns0: seq<TableColumn>, ghost calls0: seq<Call>,
                    ghost pages: seq<CopiedPage>, ghost results: seq<ScanResult>, ghost permits: seq<int>)
      returns (scanned: Result<ScannedBatch, ScanFailure>, ghost remaining': nat,
               ghost pages': seq<CopiedPage>, ghost results': seq<ScanResult>, ghost permits': seq<int>)
      requires tableSchema != null && tableSchema.Valid() && ShapedPages(client) && remaining > 0
      requires emitter.calls == calls0 + DataCalls(tableSchema, pages) && rateLimiter.acquired == permits
      requires DataProgress(client, n, remaining, scanner.lastEvaluatedKey, columns0, tableSchema.columns, pages, results, permits)
      modifies scanner, rateLimiter, tableSchema, emitter
      ensures tableSchema.Valid()
      ensures scanned.Err? ==>
        tableSchema.columns == old(tableSchema.columns) && emitter.calls == old(emitter.calls)
        && ScanReplicated(Scans(client, None, n), columns0, pages, permits, Fail(ScanError(scanned.error)))
      ensures scanned.Ok? ==>
        scanned.value.scanner == scanner && |pages'| == |pages| + 1 && emitter.calls == calls0 + DataCalls(tableSchema, pages')
        && (scanner.lastEvaluatedKey.None? ==>
              tableSchema.columns == columns0 + PageColumns(pages')
              && ScanReplicated(Scans(client, None, n), columns0, pages', permits, Pass))
        && (scanner.lastEvaluatedKey.Some? ==>
              rateLimiter.acquired == permits'
              && remaining' + 1 == remaining
              && DataProgress(client, n, remaining', scanner.lastEvaluatedKey, columns0, tableSchema.columns, pages', results', permits'))
    {
      ghost var key, columns := scanner.lastEvaluatedKey, tableSchema.columns;
      ghost var page;
      scanned, page := ScanAndCopy(scanner, client);
      remaining' := remaining - 1;
      NextPageStep(client, n, remaining, remaining', key, columns0, columns, pages, results, permits, page);
      pages', results', permits' := pages, results, permits;
      if scanned.Err? {
        return;
      }
      var resultBatch := scanned.value;
      DataStep(calls0, tableSchema, pages, page);
      pages', results' := pages + [page], results + [resultBatch.result];
      if !resultBatch.HasNextBatch() {
        return;
      }
      var permitsToConsume := Permits(resultBatch.ConsumedCapacity());
      PermitsMeaning(resultBatch.ConsumedCapacity());
      rateLimiter.Acquire(permitsToConsume);
      permits' := permits + [permitsToConsume];
    }

    /**
     * `replicateData`: scans the table page after page, as `Scans` from the start of the
     * table. Every page is copied after the columns it needs are created, once and in
     * order; after every page that has a successor the rate limiter is asked for the
     * permits the page cost. A non-positive rate or a failed scan ends it with an error.
     */
    method ReplicateData(client: ScanClient, maxScanRate: int, maxBatches: nat)
      returns (r: Outcome<ReplicationError>, ghost pages: seq<CopiedPage>, ghost permits: seq<int>)
      requires tableSchema != null && tableSchema.Valid() && ShapedPages(client)
      modifies tableSchema, emitter
      ensures tableSchema.Valid()
      ensures tableSchema.columns == old(tableSchema.columns) + PageColumns(pages)
      ensures emitter.calls == old(emitter.calls) + DataCalls(tableSchema, pages)
      ensures maxScanRate <= 0 ==> r == Fail(IllegalRate(maxScanRate)) && pages == [] && permits == []
      ensures maxScanRate > 0 ==> ScanReplicated(Scans(client, None, maxBatches), old(tableSchema.columns), pages, permits, r)
    {
      pages, permits := [], [];
      ghost var schema := tableSchema;
      ghost var columns0 := schema.columns;
      ghost var calls0 := emitter.calls;
      if maxScanRate <= 0 {
        return Fail(IllegalRate(maxScanRate)), pages, permits;
      }
      var scanner := new DynamoDBScanner(dynamoTableName);
      var rateLimiter := new RateLimiter(maxScanRate as real);
      ghost var results: seq<ScanResult> := [];
      var batches := 0;
      ghost var remaining: nat := maxBatches;
      assert [] + Scans(client, None, maxBatches).pages == Scans(client, None, maxBatches).pages;
      while batches < maxBatches
        invariant tableSchema == schema && schema.Valid()
        invariant emitter.calls == calls0 + DataCalls(schema, pages)
        invariant |pages| == batches <= maxBatches && remaining == maxBatches - batches
        invariant fresh(scanner) && fresh(rateLimiter) && rateLimiter.acquired == permits
        invariant DataProgress(client, maxBatches, remaining, scanner.lastEvaluatedKey, columns0, schema.columns,
                               pages, results, permits)
      {
        ghost var remaining', pages', results', permits';
        var scanned;
        scanned, remaining', pages', results', permits' :=
          NextPage(scanner, rateLimiter, client, maxBatches, remaining, columns0, calls0, pages, results, permits);
        if scanned.Err? {
          return Fail(ScanError(scanned.error)), pages, permits;
        }
        if !scanned.value.HasNextBatch() {
          return Pass, pages', permits;
        }
        pages, results, permits := pages', results', permits';
        batches, remaining := batches + 1, remaining';
      }
      ScanProgressBound(client, maxBatches, scanner.lastEvaluatedKey, columns0, pages, results, permits);
      r := Pass;
    }

    /**
     * One batch of `replicateChanges(streamer)`: the batch's new columns are added and
     * created, then each modification is applied, in record order.
     */
    method ApplyBatch(batch: StreamedBatch) returns (newColumns: seq<TableColumn>, mods: seq<Modification>, ghost appended: seq<TableColumn>)
      requires tableSchema != null && tableSchema.Valid() && tableSchema.primaryKey.Some?
      requires forall i :: 0 <= i < |batch.result.records| ==> WellFormedRecord(batch.result.records[i])
      modifies tableSchema, emitter
      ensures tableSchema.Valid() && tableSchema.columns == old(tableSchema.columns) + appended
      ensures multiset(appended) == multiset(newColumns)
      ensures tableSchema.distributionColumn == old(tableSchema.distributionColumn)
      ensures tableSchema.primaryKey == old(tableSchema.primaryKey)
      ensures tableSchema.tableIndexes == old(tableSchema.tableIndexes)
      ensures emitter.calls == old(emitter.calls) + BatchCalls(AppliedBatch(newColumns, mods))
      ensures Pairs(tableSchema) == EvolveNew(old(Pairs(tableSchema)), NewImageFields(batch.result.records))
      ensures |mods| == |batch.result.records|
      ensures forall i :: 0 <= i < |mods| ==> ModificationOf(tableSchema, batch.result.records[i], mods[i])
      ensures FollowsEvents(mods, batch.result.records)
    {
      var records := batch.result.records;
      ghost var start := Pairs(tableSchema);
      ghost var calls0 := emitter.calls;
      newColumns, appended := batch.AddNewColumns(tableSchema);
      CreateColumns(emitter, newColumns);
      StreamedBatchConvertible(start, records);
      mods := batch.Modifications(tableSchema);
      ApplyModifications(emitter, mods);
      BatchCallsAppend(calls0, AppliedBatch(newColumns, mods));
    }

    /**
     * One batch of `replicateChanges(streamer)`: the next response of the shard is read and
     * applied, which extends the batches, the responses and the schemas so far by one each;
     * `more` tells whether the response has a next iterator.
     */
    method NextChanges(streamer: DynamoDBShardStreamer, client: RecordsClient, ghost n: nat, ghost remaining: nat,
                       ghost start: Option<string>, ghost pairs0: seq<Column>, ghost primaryKey: Option<seq<string>>,
                       ghost columns0: seq<TableColumn>, ghost calls0: seq<Call>,
                       ghost batches: seq<AppliedBatch>, ghost appended: seq<TableColumn>,
                       ghost responses: seq<RecordsResult>, ghost schemas: seq<seq<Column>>)
      returns (more: bool, ghost remaining': nat, ghost batches': seq<AppliedBatch>, ghost appended': seq<TableColumn>,
               ghost responses': seq<RecordsResult>, ghost schemas': seq<seq<Column>>)
      requires tableSchema != null && tableSchema.Valid() && tableSchema.primaryKey == primaryKey && primaryKey.Some?
      requires WellFormedRecords(client) && remaining > 0
      requires tableSchema.columns == columns0 + appended && multiset(appended) == multiset(BatchColumns(batches))
      requires emitter.calls == calls0 + StreamCalls(batches)
      requires StreamProgress(client, start, n, remaining, streamer.nextShardIterator, responses)
      requires ChangesProgress(start, streamer.nextShardIterator, pairs0, Pairs(tableSchema), responses, schemas)
      requires |batches| == |responses| && forall b :: 0 <= b < |batches| ==> |batches[b].mods| == |responses[b].records|
      requires forall b, i :: 0 <= b < |batches| && 0 <= i < |batches[b].mods| ==>
        ModificationAt(tableSchema, primaryKey, schemas[b], responses[b].records[i], batches[b].mods[i])
      requires FollowsEvents(BatchMods(batches), StreamedRecords(responses))
      modifies tableSchema, emitter, streamer
      ensures tableSchema.Valid() && tableSchema.primaryKey == primaryKey && remaining' + 1 == remaining
      ensures tableSchema.columns == columns0 + appended' && multiset(appended') == multiset(BatchColumns(batches'))
      ensures emitter.calls == calls0 + StreamCalls(batches')
      ensures more <==> streamer.nextShardIterator.Some?
      ensures more ==> StreamProgress(client, start, n, remaining', streamer.nextShardIterator, responses')
      ensures !more ==> StreamReads(client, start, n) == responses'
      ensures ChangesProgress(start, streamer.nextShardIterator, pairs0, Pairs(tableSchema), responses', schemas')
      ensures |batches'| == |batches| + 1
      ensures |batches'| == |responses'| && forall b :: 0 <= b < |batches'| ==> |batches'[b].mods| == |responses'[b].records|
      ensures forall b, i :: 0 <= b < |batches'| && 0 <= i < |batches'[b].mods| ==>
        ModificationAt(tableSchema, primaryKey, schemas'[b], responses'[b].records[i], batches'[b].mods[i])
      ensures FollowsEvents(BatchMods(batches'), StreamedRecords(responses'))
    {
      ghost var position := streamer.nextShardIterator;
      ghost var before := Pairs(tableSchema);
      var resultBatch := streamer.Scan(client);
      ghost var response := resultBatch.result;
      var newColumns, mods, added := ApplyBatch(resultBatch);
      ghost var batch := AppliedBatch(newColumns, mods);
      remaining' := remaining - 1;
      StreamProgressStep(client, start, n, remaining, remaining', position, responses, response);
      SchemaChainStep(pairs0, schemas, responses, before, Pairs(tableSchema), response);
      AppliedStep(tableSchema, primaryKey, schemas, responses, batches, Pairs(tableSchema), response, batch);
      StreamStep(calls0, batches, batch);
      StreamedRecordsStep(responses, response);
      FollowsEventsAppend(BatchMods(batches), StreamedRecords(responses), mods, response.records);
      AppendAssoc(columns0, appended, added);
      batches', appended', responses', schemas' := batches + [batch], appended + added, responses + [response], schemas + [Pairs(tableSchema)];
      more := resultBatch.HasNextBatch();
    }

    /**
     * `replicateChanges(streamer)`: follows one shard batch after batch until a response
     * has no next iterator. The responses are the chain of reads the shard's iterators
     * define. Each batch evolves the schema by the new images of its records and creates
     * the columns it added (the batch gives them in no particular order); then every
     * record becomes a delete (a REMOVE, by its keys) or an upsert (by its new image),
     * under the schema as that batch left it, applied in the order of the records.
     */
    method ReplicateChanges(streamer: DynamoDBShardStreamer, client: RecordsClient, maxBatches: nat)
      returns (ghost batches: seq<AppliedBatch>, ghost appended: seq<TableColumn>,
               ghost responses: seq<RecordsResult>, ghost schemas: seq<seq<Column>>)
      requires tableSchema != null && tableSchema.Valid() && tableSchema.primaryKey.Some?
      requires WellFormedRecords(client)
      modifies tableSchema, emitter, streamer
      ensures responses == StreamReads(client, old(streamer.nextShardIterator), maxBatches)
      ensures ChangesProgress(old(streamer.nextShardIterator), streamer.nextShardIterator, old(Pairs(tableSchema)),
                              Pairs(tableSchema), responses, schemas)
      ensures tableSchema.Valid() && tableSchema.columns == old(tableSchema.columns) + appended
      ensures tableSchema.primaryKey == old(tableSchema.primaryKey)
      ensures multiset(appended) == multiset(BatchColumns(batches))
      ensures |batches| == |responses| && forall b :: 0 <= b < |batches| ==> |batches[b].mods| == |responses[b].records|
      ensures forall b, i :: 0 <= b < |batches| && 0 <= i < |batches[b].mods| ==>
        ModificationAt(tableSchema, tableSchema.primaryKey, schemas[b], responses[b].records[i], batches[b].mods[i])
      ensures emitter.calls == old(emitter.calls) + StreamCalls(batches)
      ensures FollowsEvents(BatchMods(batches), StreamedRecords(responses))
      ensures |batches| < maxBatches ==> streamer.nextShardIterator.None?
    {
      batches, appended, responses, schemas := [], [], [], [];
      ghost var schema := tableSchema;
      ghost var columns0 := schema.columns;
      ghost var pairs0 := Pairs(schema);
      ghost var primaryKey := schema.primaryKey;
      ghost var calls0 := emitter.calls;
      ghost var start := streamer.nextShardIterator;
      ghost var remaining: nat := maxBatches;
      assert StreamReads(client, start, maxBatches) == [] + StreamReads(client, start, maxBatches);
      var count := 0;
      while count < maxBatches
        invariant tableSchema == schema && schema.Valid() && schema.primaryKey == primaryKey && primaryKey.Some?
        invariant schema.columns == columns0 + appended && multiset(appended) == multiset(BatchColumns(batches))
        invariant emitter.calls == calls0 + StreamCalls(batches)
        invariant |batches| == count <= maxBatches && remaining == maxBatches - count
        invariant StreamProgress(client, start, maxBatches, remaining, streamer.nextShardIterator, responses)
        invariant ChangesProgress(start, streamer.nextShardIterator, pairs0, Pairs(schema), responses, schemas)
        invariant |batches| == |responses| && forall b :: 0 <= b < |batches| ==> |batches[b].mods| == |responses[b].records|
        invariant forall b, i :: 0 <= b < |batches| && 0 <= i < |batches[b].mods| ==>
          ModificationAt(schema, primaryKey, schemas[b], responses[b].records[i], batches[b].mods[i])
        invariant FollowsEvents(BatchMods(batches), StreamedRecords(responses))
      {
        var more;
        more, remaining, batches, appended, responses, schemas :=
          NextChanges(streamer, client, maxBatches, remaining, start, pairs0, primaryKey, columns0, calls0,
                      batches, appended, responses, schemas);
        count := count + 1;
        if !more {
          return;
        }
      }
      assert responses + [] == responses;
    }
  }

  /** The COPY input of a batch of rows built from a page's items is the page's input under the schema's columns. */
  lemma CopyInputIsPageInput(rows: TableRowBatch, tableSchema: TableSchema, items: seq<Item>)
    requires |rows.tableRows| == |items|
    requires forall i :: 0 <= i < |items| ==> Fits(Pairs(tableSchema), items[i])
    requires forall i :: 0 <= i < |items| ==>
      rows.tableRows[i].tableSchema == tableSchema && rows.tableRows[i].values == RowValues(Pairs(tableSchema), items[i])
    requires rows.RenderableRows()
    ensures PageRenderable(tableSchema.columns, items)
    ensures rows.CopyInputText() == PageInput(tableSchema.columns, items)
  {
    var lines := rows.CopyRows();
    var columns := tableSchema.columns;
    assert Pairs(tableSchema) == PairsOf(columns);
    forall i | 0 <= i < |items|
      ensures CanRender(columns, RowValues(PairsOf(columns), items[i]))
      ensures lines[i] + ['\n'] == CopyLine(columns, RowValues(PairsOf(columns), items[i])) + "\n"
    {
      assert rows.tableRows[i].RenderableValues();
      assert lines[i] == rows.tableRows[i].CopyRowText();
    }
    assert seq(|lines|, i requires 0 <= i < |lines| => lines[i] + ['\n'])
        == seq(|items|, i requires 0 <= i < |items| => CopyLine(columns, RowValues(PairsOf(columns), items[i])) + "\n");
  }

  /** Event-following lists concatenate. */
  lemma FollowsEventsAppend(mods: seq<Modification>, records: seq<StreamRecord>, more: seq<Modification>, moreRecords: seq<StreamRecord>)
    requires FollowsEvents(mods, records) && FollowsEvents(more, moreRecords)
    ensures FollowsEvents(mods + more, records + moreRecords)
  {
    forall i | |mods| <= i < |mods| + |more|
      ensures (mods + more)[i].Delete? <==> (records + moreRecords)[i].eventName == RemoveEvent
    {
      assert (mods + more)[i] == more[i - |mods|];
    }
  }

  /** Each field of each new image is among the batch's new-image fields. */
  lemma {:induction false} NewImageFieldsContain(records: seq<StreamRecord>, i: nat, k: nat)
    requires i < |records| && records[i].newImage.Some? && k < |records[i].newImage.value|
    ensures records[i].newImage.value[k] in NewImageFields(records)
  {
    var last := |records| - 1;
    assert records[..last + 1] == records;
    NewImageFieldsSnoc(records, last);
    if i < last {
      NewImageFieldsContain(records[..last], i, k);
    } else {
      var prefix := NewImageFields(records[..last]);
      assert NewImageFields(records)[|prefix| + k] == records[i].newImage.value[k];
    }
  }

  /** Every item of a scanned page fits the schema the page evolved, and its row renders. */
  lemma ScannedPageFits(cols: seq<Column>, items: seq<Item>)
    requires AllShaped(items)
    ensures var e := Evolve(cols, Fields(items));
      forall i :: 0 <= i < |items| ==>
        Fits(e, items[i]) && forall key :: key in RowValues(e, items[i]) ==> Renderable(RowValues(e, items[i])[key])
  {
    forall i | 0 <= i < |items|
      ensures var e := Evolve(cols, Fields(items));
        Fits(e, items[i]) && forall key :: key in RowValues(e, items[i]) ==> Renderable(RowValues(e, items[i])[key])
    {
      ScannedRowsFit(cols, items, i);
    }
  }

  /** Once a batch's new columns are added, each of its well-formed records can be converted. */
  lemma StreamedBatchConvertible(cols: seq<Column>, records: seq<StreamRecord>)
    requires forall i :: 0 <= i < |records| ==> WellFormedRecord(records[i])
    ensures forall i :: 0 <= i < |records| ==> Convertible(EvolveNew(cols, NewImageFields(records)), records[i])
  {
    var e := EvolveNew(cols, NewImageFields(records));
    EvolveNewProperties(cols, NewImageFields(records));
    forall i | 0 <= i < |records|
      ensures Convertible(e, records[i])
    {
      if records[i].eventName != RemoveEvent {
        var image := records[i].newImage.value;
        forall j | 0 <= j < |image|
          ensures TypeOf(e, image[j].0).Some?
        {
          NewImageFieldsContain(records, i, j);
        }
      }
    }
  }

  /** Creates the columns on the emitter, in order. */
  method CreateColumns(emitter: RecordingEmitter, columns: seq<TableColumn>)
    modifies emitter
    ensures emitter.calls == old(emitter.calls) + CreateCalls(columns)
  {
    for k := 0 to |columns|
      invariant emitter.calls == old(emitter.calls) + CreateCalls(columns[..k])
    {
      emitter.CreateColumnOf(columns[k]);
      assert CreateCalls(columns[..k + 1]) == CreateCalls(columns[..k]) + [CreateColumn(columns[k])];
    }
    assert columns[..|columns|] == columns;
  }

  /** Applies the modifications on the emitter, in order: a delete or an upsert each. */
  method ApplyModifications(emitter: RecordingEmitter, mods: seq<Modification>)
    modifies emitter
    ensures emitter.calls == old(emitter.calls) + ChangeCalls(mods)
  {
    for m := 0 to |mods|
      invariant emitter.calls == old(emitter.calls) + ChangeCalls(mods[..m])
    {
      match mods[m]
      case Delete(keyValue) => emitter.DeleteOf(keyValue);
      case Upsert(tableRow) => emitter.UpsertOf(tableRow);
      assert ChangeCalls(mods[..m + 1]) == ChangeCalls(mods[..m]) + [ChangeCall(mods[m])];
    }
    assert mods[..|mods|] == mods;
  }
}
