/**
 * DynamoDBScanner: pages through a table with Scan requests, retrying throttled and
 * server-side failures, and hands each page out as a ScannedBatch that grows the schema
 * with the page's new columns and turns the page's items into rows.
 *
 * The DynamoDB client is a function from a request (the exclusive start key and the
 * attempt number) to the response that attempt receives.
 */
module Scanning {
  import opened Wrappers
  import opened Text
  import opened ColumnTypes
  import opened ColumnValues
  import opened Schema
  import opened Rows
  import opened Dynamo

  /** What one successful Scan request returns. */
  datatype ScanResult = ScanResult(items: seq<Item>, lastEvaluatedKey: Option<Item>, consumedCapacity: real)

  /** The exceptions a Scan request can raise. */
  datatype ScanFailure = ProvisionedThroughputExceeded | InternalServerError | OtherFailure(message: string)

  /** The response to one attempt. */
  datatype ScanResponse = Page(result: ScanResult) | Failed(failure: ScanFailure)

  /** The client: the response to attempt `t` of the scan that starts after `key`. */
  type ScanClient = (Option<Item>, nat) -> ScanResponse

  /** The number of attempts after which a retryable failure is raised. */
  const MaxTries: nat := 3

  /** Throttling and internal server errors are retried; anything else is raised at once. */
  predicate Retryable(failure: ScanFailure)
  {
    failure.ProvisionedThroughputExceeded? || failure.InternalServerError?
  }

  /** The outcome of the scan from attempt `t` on. */
  function Retry(client: ScanClient, key: Option<Item>, t: nat): Result<ScanResult, ScanFailure>
    requires 1 <= t <= MaxTries
    decreases MaxTries - t
  {
    match client(key, t)
    case Page(result) => Ok(result)
    case Failed(failure) =>
      if Retryable(failure) && t < MaxTries then Retry(client, key, t + 1) else Err(failure)
  }

  /**
   * The retry policy: the outcome is the response of some attempt `tries` of at most
   * three, every earlier attempt failed retryably, and a failure is raised only when it
   * is not retryable or is the third.
   */
  lemma {:induction false} RetryMeaning(client: ScanClient, key: Option<Item>, t: nat)
    requires 1 <= t <= MaxTries
    ensures exists tries :: (
      t <= tries <= MaxTries
      && (forall u :: t <= u < tries ==> client(key, u).Failed? && Retryable(client(key, u).failure))
      && (client(key, tries).Page? ==> Retry(client, key, t) == Ok(client(key, tries).result))
      && (client(key, tries).Failed? ==>
            Retry(client, key, t) == Err(client(key, tries).failure)
            && (tries == MaxTries || !Retryable(client(key, tries).failure))))
    decreases MaxTries - t
  {
    var response := client(key, t);
    if response.Failed? && Retryable(response.failure) && t < MaxTries {
      RetryMeaning(client, key, t + 1);
      var tries :| t + 1 <= tries <= MaxTries
        && (forall u :: t + 1 <= u < tries ==> client(key, u).Failed? && Retryable(client(key, u).failure))
        && (client(key, tries).Page? ==> Retry(client, key, t + 1) == Ok(client(key, tries).result))
        && (client(key, tries).Failed? ==>
              Retry(client, key, t + 1) == Err(client(key, tries).failure)
              && (tries == MaxTries || !Retryable(client(key, tries).failure)));
      assert forall u :: t <= u < tries ==> client(key, u).Failed? && Retryable(client(key, u).failure);
    } else {
      var tries := t;
      assert client(key, tries).Page? ==> Retry(client, key, t) == Ok(client(key, tries).result);
    }
  }

  /** A table that keeps throttling fails the scan after exactly three attempts. */
  lemma ThrottledScanFails(client: ScanClient, key: Option<Item>)
    requires forall t :: client(key, t) == Failed(ProvisionedThroughputExceeded)
    ensures Retry(client, key, 1) == Err(ProvisionedThroughputExceeded)
  {
    assert Retry(client, key, 3) == Err(ProvisionedThroughputExceeded);
    assert Retry(client, key, 2) == Retry(client, key, 3);
  }

  /** `scanWithRetries`: up to three attempts, the same request each time. */
  method ScanWithRetries(client: ScanClient, key: Option<Item>) returns (r: Result<ScanResult, ScanFailure>)
    ensures r == Retry(client, key, 1)
  {
    var tryNumber := 1;
    while true
      invariant 1 <= tryNumber <= MaxTries
      invariant Retry(client, key, 1) == Retry(client, key, tryNumber)
      decreases MaxTries - tryNumber
    {
      var response := client(key, tryNumber);
      if response.Page? {
        return Ok(response.result);
      }
      if !Retryable(response.failure) || tryNumber == MaxTries {
        return Err(response.failure);
      }
      tryNumber := tryNumber + 1;
    }
  }

  /** DynamoDBScanner: remembers where the last page ended. */
  class DynamoDBScanner {
    const tableName: string
    var lastEvaluatedKey: Option<Item>

    /** A new scanner starts at the beginning of the table. */
    constructor (tableName: string)
      ensures this.tableName == tableName && lastEvaluatedKey == None
    {
      this.tableName := tableName;
      this.lastEvaluatedKey := None;
    }

    /**
     * `scan`: the next page after the remembered key; on success the key moves to the
     * page's last evaluated key, on failure the exception propagates and nothing changes.
     */
    method Scan(client: ScanClient) returns (r: Result<ScannedBatch, ScanFailure>)
      modifies this
      ensures var outcome := Retry(client, old(lastEvaluatedKey), 1);
        (outcome.Err? ==> r == Err(outcome.error) && lastEvaluatedKey == old(lastEvaluatedKey))
        && (outcome.Ok? ==>
              r.Ok? && fresh(r.value) && r.value.scanner == this && r.value.result == outcome.value
              && lastEvaluatedKey == outcome.value.lastEvaluatedKey)
    {
      var scanResult := ScanWithRetries(client, lastEvaluatedKey);
      if scanResult.Err? {
        return Err(scanResult.error);
      }
      lastEvaluatedKey := scanResult.value.lastEvaluatedKey;
      var batch := new ScannedBatch(this, scanResult.value);
      r := Ok(batch);
    }
  }

  /** The batch `scan` returns: one page, read through the scanner that produced it. */
  class ScannedBatch {
    const scanner: DynamoDBScanner
    const result: ScanResult

    constructor (scanner: DynamoDBScanner, result: ScanResult)
      ensures this.scanner == scanner && this.result == result
    {
      this.scanner := scanner;
      this.result := result;
    }

    /** `hasNextBatch`: reads the scanner's current key, not the one of this page. */
    predicate HasNextBatch()
      reads scanner
    {
      scanner.lastEvaluatedKey.Some?
    }

    /** `getConsumedCapacity`. */
    function ConsumedCapacity(): real
    {
      result.consumedCapacity
    }

    /**
     * `addNewColumnsToSchema`: grows the schema as `Evolve` says, field by field, and
     * returns the columns it added in the order it added them.
     */
    method AddNewColumnsToSchema(tableSchema: TableSchema) returns (r: seq<TableColumn>)
      requires tableSchema.Valid()
      modifies tableSchema
      ensures tableSchema.Valid()
      ensures tableSchema.columns == old(tableSchema.columns) + r
      ensures Pairs(tableSchema) == Evolve(old(Pairs(tableSchema)), Fields(result.items))
      ensures forall c :: c in r ==> fresh(c)
      ensures tableSchema.distributionColumn == old(tableSchema.distributionColumn)
      ensures tableSchema.primaryKey == old(tableSchema.primaryKey)
      ensures tableSchema.tableIndexes == old(tableSchema.tableIndexes)
    {
      var items := result.items;
      ghost var start := Pairs(tableSchema);
      r := [];
      for i := 0 to |items|
        invariant tableSchema.Valid()
        invariant tableSchema.columns == old(tableSchema.columns) + r
        invariant Pairs(tableSchema) == Evolve(start, Fields(items[..i]))
        invariant forall c :: c in r ==> fresh(c)
        invariant tableSchema.distributionColumn == old(tableSchema.distributionColumn)
        invariant tableSchema.primaryKey == old(tableSchema.primaryKey)
        invariant tableSchema.tableIndexes == old(tableSchema.tableIndexes)
      {
        var added := AddItemColumns(tableSchema, items[i]);
        AppendAssoc(old(tableSchema.columns), r, added);
        EvolveAppend(start, Fields(items[..i]), items[i]);
        assert items[..i + 1][..i] == items[..i];
        r := r + added;
      }
      assert items[..|items|] == items;
    }

    /** `rows`: one row per item, in order, built by `rowFromDynamoRecord`. */
    method Rows(tableSchema: TableSchema) returns (batch: TableRowBatch)
      requires forall i :: 0 <= i < |result.items| ==> Fits(Pairs(tableSchema), result.items[i])
      ensures fresh(batch) && |batch.tableRows| == |result.items|
      ensures forall i :: 0 <= i < |result.items| ==>
        fresh(batch.tableRows[i]) && batch.tableRows[i].tableSchema == tableSchema
        && batch.tableRows[i].values == RowValues(Pairs(tableSchema), result.items[i])
    {
      batch := new TableRowBatch();
      for i := 0 to |result.items|
        invariant fresh(batch) && |batch.tableRows| == i
        invariant forall k :: 0 <= k < i ==>
          fresh(batch.tableRows[k]) && batch.tableRows[k].tableSchema == tableSchema
          && batch.tableRows[k].values == RowValues(Pairs(tableSchema), result.items[k])
      {
        var tableRow := RowFromDynamoRecord(tableSchema, result.items[i]);
        batch.AddRow(tableRow);
      }
    }
  }

  /** The fields of one item, in order, as `addNewColumnsToSchema` applies them. */
  method AddItemColumns(tableSchema: TableSchema, item: Item) returns (added: seq<TableColumn>)
    requires tableSchema.Valid()
    modifies tableSchema
    ensures tableSchema.Valid()
    ensures tableSchema.columns == old(tableSchema.columns) + added
    ensures Pairs(tableSchema) == Evolve(old(Pairs(tableSchema)), item)
    ensures forall c :: c in added ==> fresh(c)
    ensures tableSchema.distributionColumn == old(tableSchema.distributionColumn)
    ensures tableSchema.primaryKey == old(tableSchema.primaryKey)
    ensures tableSchema.tableIndexes == old(tableSchema.tableIndexes)
  {
    ghost var start := Pairs(tableSchema);
    added := [];
    for j := 0 to |item|
      invariant tableSchema.Valid()
      invariant tableSchema.columns == old(tableSchema.columns) + added
      invariant Pairs(tableSchema) == Evolve(start, item[..j])
      invariant forall c :: c in added ==> fresh(c)
      invariant tableSchema.distributionColumn == old(tableSchema.distributionColumn)
      invariant tableSchema.primaryKey == old(tableSchema.primaryKey)
      invariant tableSchema.tableIndexes == old(tableSchema.tableIndexes)
    {
      var column := AddFieldColumn(tableSchema, item[j]);
      AppendAssoc(old(tableSchema.columns), added, column);
      EvolveSnoc(start, item[..j], item[j]);
      assert item[..j + 1] == item[..j] + [item[j]];
      added := added + column;
    }
    assert item[..|item|] == item;
  }

  /**
   * One field of `addNewColumnsToSchema`: an unknown name is added with the value's type;
   * a known name of another type is redirected to `name_type`, added if missing.
   */
  method AddFieldColumn(tableSchema: TableSchema, f: Field) returns (added: seq<TableColumn>)
    requires tableSchema.Valid()
    modifies tableSchema
    ensures tableSchema.Valid()
    ensures tableSchema.columns == old(tableSchema.columns) + added
    ensures Pairs(tableSchema) == EvolveField(old(Pairs(tableSchema)), f)
    ensures forall c :: c in added ==> fresh(c)
    ensures tableSchema.distributionColumn == old(tableSchema.distributionColumn)
    ensures tableSchema.primaryKey == old(tableSchema.primaryKey)
    ensures tableSchema.tableIndexes == old(tableSchema.tableIndexes)
  {
    ghost var before := tableSchema.columns;
    var columnName := f.0;
    var valueType := ColumnTypeOf(f.1);
    var column := tableSchema.GetColumn(columnName);
    PairsAgree(tableSchema, columnName);
    added := [];
    if column.None? {
      var created := tableSchema.AddColumn(columnName, valueType);
      added := [created.value];
    } else if column.value.columnType != valueType {
      columnName := columnName + "_" + Name(valueType);
      column := tableSchema.GetColumn(columnName);
      PairsAgree(tableSchema, columnName);
      if column.None? {
        var created := tableSchema.AddColumn(columnName, valueType);
        added := [created.value];
      }
    }
    assert PairsOf(before + added) == PairsOf(before) + PairsOf(added);
  }

  /**
   * `rowFromDynamoRecord`: each field's value is stored under its name when the column
   * has the value's type and under `name_type` otherwise; the column must exist and the
   * value must carry a shape, since both are dereferenced.
   */
  method RowFromDynamoRecord(tableSchema: TableSchema, item: Item) returns (row: TableRow)
    requires Fits(Pairs(tableSchema), item)
    ensures fresh(row) && row.tableSchema == tableSchema
    ensures row.values == RowValues(Pairs(tableSchema), item)
  {
    ghost var cols := Pairs(tableSchema);
    row := new TableRow(tableSchema);
    for j := 0 to |item|
      invariant fresh(row) && row.tableSchema == tableSchema
      invariant row.values == RowValues(cols, item[..j])
    {
      RowValuesSnoc(cols, item, j);
      SetFieldValue(tableSchema, row, item[j]);
    }
    assert item[..|item|] == item;
  }

  /** One field of `rowFromDynamoRecord`: the value goes under its column's name, or its redirect when the types differ. */
  method SetFieldValue(tableSchema: TableSchema, row: TableRow, f: Field)
    requires TypeOf(Pairs(tableSchema), f.0).Some? && HasShape(f.1)
    modifies row
    ensures row.values == old(row.values)[RowKey(Pairs(tableSchema), f) := ColumnValueOf(f.1).value]
  {
    var columnName := f.0;
    var column := tableSchema.GetColumn(columnName);
    PairsAgree(tableSchema, columnName);
    var columnValue := ColumnValueOf(f.1).value;
    if columnValue.columnType == column.value.columnType {
      row.SetColumnValue(columnName, columnValue);
    } else {
      row.SetColumnValue(columnName + "_" + Name(columnValue.columnType), columnValue);
    }
  }
}
