/**
 * TableEmitter: the destination the replicator writes to. The JDBC and stdout emitters are
 * not modelled; a RecordingEmitter stands for any emitter and keeps the calls it receives,
 * in order, so that the replication loops and the hashed multi-emitter can be specified by
 * the calls they make.
 */
module Emitters {
  import opened Wrappers
  import opened Text
  import opened Schema
  import opened Rows

  /** One call on an emitter, with the objects it was given (COPY input as its text). */
  datatype Call =
    | FetchSchema(tableName: string)
    | CreateTable(tableSchema: TableSchema)
    | CreateColumn(column: TableColumn)
    | CopyFromReader(tableSchema: TableSchema, input: string)
    | Upsert(row: TableRow)
    | Delete(key: PrimaryKeyValue)
    | Close

  /** An emitter that records every call; `catalog` stands for the destination's existing tables. */
  class RecordingEmitter {
    const catalog: map<string, TableSchema>
    var calls: seq<Call>

    /** A fresh emitter has received no call. */
    constructor (catalog: map<string, TableSchema>)
      ensures this.catalog == catalog && calls == []
    {
      this.catalog := catalog;
      this.calls := [];
    }

    /** `fetchSchema`: the destination's schema of the table, if it has one. */
    method FetchSchemaOf(tableName: string) returns (r: Option<TableSchema>)
      modifies this
      ensures calls == old(calls) + [FetchSchema(tableName)]
      ensures r == if tableName in catalog then Some(catalog[tableName]) else None
    {
      calls := calls + [FetchSchema(tableName)];
      r := if tableName in catalog then Some(catalog[tableName]) else None;
    }

    /** `createTable`. */
    method CreateTableOf(tableSchema: TableSchema)
      modifies this
      ensures calls == old(calls) + [CreateTable(tableSchema)]
    {
      calls := calls + [CreateTable(tableSchema)];
    }

    /** `createColumn`. */
    method CreateColumnOf(column: TableColumn)
      modifies this
      ensures calls == old(calls) + [CreateColumn(column)]
    {
      calls := calls + [CreateColumn(column)];
    }

    /** `copyFromReader`: the reader's whole text; the result is the number of rows, one per line. */
    method CopyFrom(tableSchema: TableSchema, input: string) returns (rows: nat)
      modifies this
      ensures calls == old(calls) + [CopyFromReader(tableSchema, input)]
      ensures rows == Count('\n', input)
    {
      calls := calls + [CopyFromReader(tableSchema, input)];
      rows := Count('\n', input);
    }

    /** `upsert`. */
    method UpsertOf(row: TableRow)
      modifies this
      ensures calls == old(calls) + [Upsert(row)]
    {
      calls := calls + [Upsert(row)];
    }

    /** `delete`. */
    method DeleteOf(key: PrimaryKeyValue)
      modifies this
      ensures calls == old(calls) + [Delete(key)]
    {
      calls := calls + [Delete(key)];
    }

    /** `close`. */
    method CloseEmitter()
      modifies this
      ensures calls == old(calls) + [Close]
    {
      calls := calls + [Close];
    }
  }
}
