/**
 * DynamoDBShardStreamer: reads one shard of a table's stream with GetRecords, and hands
 * each response out as a StreamedBatch that adds the columns new images mention and turns
 * each record into a modification: a delete for a REMOVE, an upsert for anything else.
 *
 * The streams client is a function from a shard iterator to the GetRecords response.
 */
module Streaming {
  import opened Wrappers
  import opened Text
  import opened ColumnTypes
  import opened ColumnValues
  import opened Schema
  import opened Rows
  import opened Dynamo
  import Scanning

  /** One stream record: its event name, the item's key and its new image, if present. */
  datatype StreamRecord = StreamRecord(eventName: string, keys: Option<Item>, newImage: Option<Item>)

  /** The GetRecords response: the records and the iterator for the next call, if any. */
  datatype RecordsResult = RecordsResult(records: seq<StreamRecord>, nextShardIterator: Option<string>)

  /** The streams client: the response to GetRecords at a shard iterator. */
  type RecordsClient = Option<string> -> RecordsResult

  /** The name DynamoDB Streams gives to a deletion. */
  const RemoveEvent: string := "REMOVE"

  /** A change to apply to the destination. */
  datatype Modification = Delete(key: PrimaryKeyValue) | Upsert(row: TableRow)

  /** The fields of the records' new images, record after record; records without one contribute nothing. */
  function NewImageFields(records: seq<StreamRecord>): seq<Field>
  {
    if records == [] then []
    else
      var last := records[|records| - 1];
      NewImageFields(records[..|records| - 1]) + (if last.newImage.Some? then last.newImage.value else [])
  }

  /** The step of `NewImageFields` for one more record. */
  lemma NewImageFieldsSnoc(records: seq<StreamRecord>, i: nat)
    requires i < |records|
    ensures NewImageFields(records[..i + 1])
         == NewImageFields(records[..i]) + (if records[i].newImage.Some? then records[i].newImage.value else [])
  {
    assert records[..i + 1][..i] == records[..i];
  }

  /** What `modifications` needs of a record: a REMOVE has keys; anything else has a new image that fits the schema. */
  predicate Convertible(cols: seq<Column>, record: StreamRecord)
  {
    if record.eventName == RemoveEvent then record.keys.Some?
    else record.newImage.Some? && Fits(cols, record.newImage.value)
  }

  /** DynamoDBShardStreamer: remembers the iterator for the next read of its shard. */
  class DynamoDBShardStreamer {
    const shardId: string
    var nextShardIterator: Option<string>

    /** The iterator GetShardIterator returned for the start of the shard. */
    constructor (shardId: string, shardIterator: Option<string>)
      ensures this.shardId == shardId && nextShardIterator == shardIterator
    {
      this.shardId := shardId;
      this.nextShardIterator := shardIterator;
    }

    /** `scan`: reads at the remembered iterator and remembers the next one. */
    method Scan(client: RecordsClient) returns (batch: StreamedBatch)
      modifies this
      ensures fresh(batch) && batch.result == client(old(nextShardIterator))
      ensures nextShardIterator == batch.result.nextShardIterator
    {
      var getRecordsResult := client(nextShardIterator);
      nextShardIterator := getRecordsResult.nextShardIterator;
      batch := new StreamedBatch(getRecordsResult);
    }
  }

  /** The batch `scan` returns. */
  class StreamedBatch {
    const result: RecordsResult

    constructor (result: RecordsResult)
      ensures this.result == result
    {
      this.result := result;
    }

    /** `hasNextBatch`: the response carried a next iterator. */
    predicate HasNextBatch()
    {
      result.nextShardIterator.Some?
    }

    /**
     * `addNewColumns`: every new-image field whose name is not a column adds one of the
     * value's type. The columns come back from a hash set, so the result is specified up
     * to order: it holds the columns `appended` to the schema, in some order.
     */
    method AddNewColumns(tableSchema: TableSchema) returns (r: seq<TableColumn>, ghost appended: seq<TableColumn>)
      requires tableSchema.Valid()
      modifies tableSchema
      ensures tableSchema.Valid()
      ensures tableSchema.columns == old(tableSchema.columns) + appended
      ensures multiset(r) == multiset(appended)
      ensures Pairs(tableSchema) == EvolveNew(old(Pairs(tableSchema)), NewImageFields(result.records))
      ensures forall c :: c in r ==> fresh(c)
      ensures tableSchema.distributionColumn == old(tableSchema.distributionColumn)
      ensures tableSchema.primaryKey == old(tableSchema.primaryKey)
      ensures tableSchema.tableIndexes == old(tableSchema.tableIndexes)
    {
      var records := result.records;
      ghost var start := Pairs(tableSchema);
      r := [];
      for i := 0 to |records|
        invariant tableSchema.Valid()
        invariant tableSchema.columns == old(tableSchema.columns) + r
        invariant Pairs(tableSchema) == EvolveNew(start, NewImageFields(records[..i]))
        invariant forall c :: c in r ==> fresh(c)
        invariant tableSchema.distributionColumn == old(tableSchema.distributionColumn)
        invariant tableSchema.primaryKey == old(tableSchema.primaryKey)
        invariant tableSchema.tableIndexes == old(tableSchema.tableIndexes)
      {
        NewImageFieldsSnoc(records, i);
        if records[i].newImage.None? {
          assert NewImageFields(records[..i + 1]) == NewImageFields(records[..i]);
          continue;
        }
        var added := AddImageColumns(tableSchema, records[i].newImage.value);
        AppendAssoc(old(tableSchema.columns), r, added);
        EvolveNewAppend(start, NewImageFields(records[..i]), records[i].newImage.value);
        r := r + added;
      }
      assert records[..|records|] == records;
      appended := r;
    }

    /**
     * `modifications`: one modification per record, in order; a REMOVE becomes a delete
     * of its key values, anything else an upsert of the row built from its new image.
     */
    method Modifications(tableSchema: TableSchema) returns (r: seq<Modification>)
      requires tableSchema.Valid()
      requires forall i :: 0 <= i < |result.records| ==> Convertible(Pairs(tableSchema), result.records[i])
      requires (exists i :: 0 <= i < |result.records| && result.records[i].eventName == RemoveEvent) ==>
        tableSchema.primaryKey.Some?
      ensures |r| == |result.records|
      ensures forall i :: 0 <= i < |r| ==> ModificationOf(tableSchema, result.records[i], r[i])
    {
      var records := result.records;
      r := [];
      for i := 0 to |records|
        invariant |r| == i
        invariant forall k :: 0 <= k < i ==> ModificationOf(tableSchema, records[k], r[k])
      {
        var m := ModificationFromRecord(tableSchema, records[i]);
        r := r + [m];
      }
    }
  }

  /** The modification of one record: a delete of its key for a REMOVE, an upsert of its new image otherwise. */
  method ModificationFromRecord(tableSchema: TableSchema, dynamoRecord: StreamRecord) returns (m: Modification)
    requires tableSchema.Valid() && Convertible(Pairs(tableSchema), dynamoRecord)
    requires dynamoRecord.eventName == RemoveEvent ==> tableSchema.primaryKey.Some?
    ensures ModificationOf(tableSchema, dynamoRecord, m)
  {
    if dynamoRecord.eventName == RemoveEvent {
      var keyValue := KeyValueFromRecord(tableSchema, dynamoRecord.keys.value);
      m := Delete(keyValue);
    } else {
      var tableRow := Scanning.RowFromDynamoRecord(tableSchema, dynamoRecord.newImage.value);
      m := Upsert(tableRow);
    }
  }

  /** The fields of one new image, in order, as `addNewColumns` applies them. */
  method AddImageColumns(tableSchema: TableSchema, values: Item) returns (added: seq<TableColumn>)
    requires tableSchema.Valid()
    modifies tableSchema
    ensures tableSchema.Valid()
    ensures tableSchema.columns == old(tableSchema.columns) + added
    ensures Pairs(tableSchema) == EvolveNew(old(Pairs(tableSchema)), values)
    ensures forall c :: c in added ==> fresh(c)
    ensures tableSchema.distributionColumn == old(tableSchema.distributionColumn)
    ensures tableSchema.primaryKey == old(tableSchema.primaryKey)
    ensures tableSchema.tableIndexes == old(tableSchema.tableIndexes)
  {
    ghost var start := Pairs(tableSchema);
    added := [];
    for j := 0 to |values|
      invariant tableSchema.Valid()
      invariant tableSchema.columns == old(tableSchema.columns) + added
      invariant Pairs(tableSchema) == EvolveNew(start, values[..j])
      invariant forall c :: c in added ==> fresh(c)
      invariant tableSchema.distributionColumn == old(tableSchema.distributionColumn)
      invariant tableSchema.primaryKey == old(tableSchema.primaryKey)
      invariant tableSchema.tableIndexes == old(tableSchema.tableIndexes)
    {
      var column := AddMissingColumn(tableSchema, values[j]);
      AppendAssoc(old(tableSchema.columns), added, column);
      EvolveNewSnoc(start, values[..j], values[j]);
      assert values[..j + 1] == values[..j] + [values[j]];
      added := added + column;
    }
    assert values[..|values|] == values;
  }

  /**
   * The modification `modifications` makes of a record under the key `primaryKey` and the
   * columns `cols`: for a REMOVE, a delete whose values are the record's key values under the
   * key columns; for anything else, an upsert whose values are the row built from the new image.
   */
  ghost predicate ModificationAt(tableSchema: TableSchema, primaryKey: Option<seq<string>>, cols: seq<Column>,
                                 record: StreamRecord, m: Modification)
    reads if m.Delete? then {m.key} else {m.row}
  {
    if record.eventName == RemoveEvent then
      m.Delete? && m.key.tableSchema == tableSchema && primaryKey.Some? && record.keys.Some?
      && KeyColumns(cols, primaryKey.value)
      && m.key.values == KeyValues(cols, primaryKey.value, record.keys.value)
    else
      m.Upsert? && m.row.tableSchema == tableSchema && record.newImage.Some?
      && Fits(cols, record.newImage.value)
      && m.row.values == RowValues(cols, record.newImage.value)
  }

  /** The modification `modifications` makes of a record, under the schema as it is now. */
  ghost predicate ModificationOf(tableSchema: TableSchema, record: StreamRecord, m: Modification)
    reads tableSchema, if m.Delete? then {m.key} else {m.row}
  {
    ModificationAt(tableSchema, tableSchema.primaryKey, Pairs(tableSchema), record, m)
  }

  /** One field of `addNewColumns`: a name that is not a column is added with the value's type. */
  method AddMissingColumn(tableSchema: TableSchema, f: Field) returns (added: seq<TableColumn>)
    requires tableSchema.Valid()
    modifies tableSchema
    ensures tableSchema.Valid()
    ensures tableSchema.columns == old(tableSchema.columns) + added
    ensures Pairs(tableSchema) == AddIfMissing(old(Pairs(tableSchema)), f)
    ensures forall c :: c in added ==> fresh(c)
    ensures tableSchema.distributionColumn == old(tableSchema.distributionColumn)
    ensures tableSchema.primaryKey == old(tableSchema.primaryKey)
    ensures tableSchema.tableIndexes == old(tableSchema.tableIndexes)
  {
    ghost var before := tableSchema.columns;
    PairsAgree(tableSchema, f.0);
    added := [];
    if !tableSchema.ColumnExists(f.0) {
      var columnType := ColumnTypeOf(f.1);
      var newColumn := tableSchema.AddColumn(f.0, columnType);
      added := [newColumn.value];
    }
    assert PairsOf(before + added) == PairsOf(before) + PairsOf(added);
  }

  /**
   * The key value of a REMOVE record: fields outside the primary key are skipped, and each
   * key field's converted value (or null) is stored through `setValue(String, Object)`.
   */
  method KeyValueFromRecord(tableSchema: TableSchema, keys: Item) returns (keyValue: PrimaryKeyValue)
    requires tableSchema.Valid() && tableSchema.primaryKey.Some?
    ensures fresh(keyValue) && keyValue.tableSchema == tableSchema
    ensures KeyColumns(Pairs(tableSchema), tableSchema.primaryKey.value)
    ensures keyValue.values == KeyValues(Pairs(tableSchema), tableSchema.primaryKey.value, keys)
    ensures keyValue.KeyOnly()
  {
    ghost var cols := Pairs(tableSchema);
    ghost var pk := tableSchema.primaryKey.value;
    ValidKeyColumns(tableSchema);
    keyValue := new PrimaryKeyValue(tableSchema);
    for j := 0 to |keys|
      invariant fresh(keyValue) && keyValue.tableSchema == tableSchema
      invariant keyValue.values == KeyValues(cols, pk, keys[..j])
      invariant keyValue.KeyOnly()
    {
      assert keys[..j + 1][..j] == keys[..j];
      var columnName := keys[j].0;
      if !tableSchema.IsInPrimaryKey(columnName) {
        continue;
      }
      PairsAgree(tableSchema, columnName);
      var columnValue := ColumnValueOf(keys[j].1);
      var datum := if columnValue.Some? then Nested(columnValue.value) else Null;
      var outcome := keyValue.SetValue(columnName, datum);
    }
    assert keys[..|keys|] == keys;
  }
}
