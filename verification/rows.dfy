/**
 * The row side of the data model: TableRow (the values of one item under a schema),
 * PrimaryKeyValue (the key values of a deleted item) and TableRowBatch (rows sent
 * together through COPY). Each keeps its values in a map from column name to value
 * that its setters update in place; the renderers walk the schema's columns.
 */
module Rows {
  import opened Wrappers
  import opened Text
  import opened ColumnTypes
  import opened ColumnValues
  import opened Identifiers
  import opened Schema

  /** What COPY's text format reads as NULL. */
  const NullMarker: string := "\\N"

  /** Every value stored under one of `columns` can be rendered. */
  predicate CanRender(columns: seq<TableColumn>, values: map<string, Value>)
  {
    forall i :: 0 <= i < |columns| && columns[i].name in values ==> Renderable(values[columns[i].name])
  }

  // ---------------------------------------------------------------------------------------
  // Fields of a row, as pure functions of the schema's columns and the row's values
  // ---------------------------------------------------------------------------------------

  /** One field of `toCopyRow`: the COPY-escaped string of the value, or the NULL marker. */
  function CopyField(values: map<string, Value>, name: string): string
    requires name in values ==> Renderable(values[name])
  {
    if name in values then CopyEscape(ToString(values[name])) else NullMarker
  }

  /** The fields of `toCopyRow`, one per column in column order. */
  function CopyFields(columns: seq<TableColumn>, values: map<string, Value>): (r: seq<string>)
    requires CanRender(columns, values)
    ensures |r| == |columns|
    ensures forall i :: 0 <= i < |columns| ==> r[i] == CopyField(values, columns[i].name)
  {
    seq(|columns|, i requires 0 <= i < |columns| => CopyField(values, columns[i].name))
  }

  /** One entry of the row's VALUES list: the quoted value cast to the column's type, or NULL. */
  function ValueField(values: map<string, Value>, column: TableColumn): string
    requires column.name in values ==> Renderable(values[column.name])
  {
    if column.name in values then QuotedString(values[column.name]) + "::" + Name(column.columnType) else "NULL"
  }

  /** The entries of the row's VALUES list, one per column in column order. */
  function ValueFields(columns: seq<TableColumn>, values: map<string, Value>): (r: seq<string>)
    requires CanRender(columns, values)
    ensures |r| == |columns|
    ensures forall i :: 0 <= i < |columns| ==> r[i] == ValueField(values, columns[i])
  {
    seq(|columns|, i requires 0 <= i < |columns| => ValueField(values, columns[i]))
  }

  /**
   * A COPY field is the NULL marker exactly when the column has no value; otherwise it
   * unescapes to the value's string, and it never holds a tab or a line break.
   */
  lemma CopyFieldMeaning(values: map<string, Value>, name: string)
    requires name in values ==> Renderable(values[name])
    ensures CopyField(values, name) == NullMarker <==> name !in values
    ensures name in values ==> CopyUnescape(CopyField(values, name)) == ToString(values[name])
    ensures '\t' !in CopyField(values, name) && '\n' !in CopyField(values, name)
  {
    if name in values {
      CopyEscapeIsNotNullMarker(ToString(values[name]));
      CopyRoundTrip(ToString(values[name]));
    }
  }

  /**
   * A VALUES entry is `NULL` exactly when the column has no value; otherwise it is a
   * string constant that the server reads as the value's string, cast to the column's type.
   */
  lemma ValueFieldMeaning(values: map<string, Value>, column: TableColumn)
    requires column.name in values ==> Renderable(values[column.name])
    ensures ValueField(values, column) == "NULL" <==> column.name !in values
    ensures column.name in values ==>
      exists literal ::
        ValueField(values, column) == literal + "::" + Name(column.columnType)
        && UnquoteLiteral(literal) == Some(ToString(values[column.name]))
  {
    if column.name in values {
      var v := values[column.name];
      var literal := QuotedString(v);
      QuotedStringRoundTrip(v);
      assert literal[0] == '\'' || literal[0] == 'E';
      assert (literal + "::" + Name(column.columnType))[0] == literal[0];
    }
  }

  /** The text of `toCopyRow` for values under columns: one field per column, separated by tabs. */
  function CopyLine(columns: seq<TableColumn>, values: map<string, Value>): string
    requires CanRender(columns, values)
  {
    Join(CopyFields(columns, values), "\t")
  }

  /**
   * A COPY row is one line; split at its tabs it gives back one field per column, the NULL
   * marker exactly for the columns without a value and the value's string for the others.
   */
  lemma CopyLineReadsBack(columns: seq<TableColumn>, values: map<string, Value>)
    requires CanRender(columns, values) && |columns| >= 1
    ensures '\n' !in CopyLine(columns, values)
    ensures Count('\t', CopyLine(columns, values)) == |columns| - 1
    ensures var fields := Split(CopyLine(columns, values), '\t');
      |fields| == |columns|
      && forall i :: 0 <= i < |fields| ==>
        var name := columns[i].name;
        (fields[i] == NullMarker <==> name !in values)
        && (name in values ==> CopyUnescape(fields[i]) == ToString(values[name]))
  {
    var fields := CopyFields(columns, values);
    forall i | 0 <= i < |fields|
      ensures '\t' !in fields[i] && '\n' !in fields[i]
    {
      CopyFieldMeaning(values, columns[i].name);
    }
    SplitJoin(fields, '\t');
    CountJoin(fields, '\t');
    CopyLineIsOneLine(columns, values);
    forall i | 0 <= i < |fields|
      ensures var name := columns[i].name;
        (fields[i] == NullMarker <==> name !in values)
        && (name in values ==> CopyUnescape(fields[i]) == ToString(values[name]))
    {
      CopyFieldMeaning(values, columns[i].name);
    }
  }

  /** A COPY row never holds a line break, whatever the values: the escaping removes them all. */
  lemma CopyLineIsOneLine(columns: seq<TableColumn>, values: map<string, Value>)
    requires CanRender(columns, values)
    ensures '\n' !in CopyLine(columns, values)
  {
    var fields := CopyFields(columns, values);
    forall i | 0 <= i < |fields|
      ensures '\n' !in fields[i]
    {
      CopyFieldMeaning(values, columns[i].name);
    }
    JoinAvoids(fields, "\t", '\n');
  }

  // ---------------------------------------------------------------------------------------
  // TableRow
  // ---------------------------------------------------------------------------------------

  /** TableRow: one item's values under a schema, keyed by column name. */
  class TableRow {
    const tableSchema: TableSchema
    var values: map<string, Value>

    /** `TableSchema.createRow`: a row of the schema with no values. */
    constructor (tableSchema: TableSchema)
      ensures this.tableSchema == tableSchema && values == map[]
    {
      this.tableSchema := tableSchema;
      this.values := map[];
    }

    /** `getValue`: the value stored under `name`, or nothing (null). */
    function GetValue(name: string): Option<Value>
      reads this
    {
      if name in values then Some(values[name]) else None
    }

    /** `hasValue`. */
    predicate HasValue(name: string)
      reads this
    {
      name in values
    }

    /**
     * `setValue(String, Object)`: the datum is stored with the type of the column so named,
     * which must exist (its type is read from it); every other value stays as it was.
     */
    method SetValue(key: string, datum: Datum)
      requires tableSchema.ColumnExists(key)
      modifies this
      ensures GetValue(key) == Some(Value(tableSchema.GetColumn(key).value.columnType, datum)) && HasValue(key)
      ensures forall k :: k != key ==> GetValue(k) == old(GetValue(k))
      ensures values == old(values)[key := Value(tableSchema.GetColumn(key).value.columnType, datum)]
    {
      var column := tableSchema.GetColumn(key).value;
      SetColumnValue(key, Value(column.columnType, datum));
    }

    /** `setValue(String, TableColumnValue)`: stores the value as given; the key is not checked. */
    method SetColumnValue(key: string, value: Value)
      modifies this
      ensures GetValue(key) == Some(value) && HasValue(key)
      ensures forall k :: k != key ==> GetValue(k) == old(GetValue(k))
      ensures values == old(values)[key := value]
    {
      values := values[key := value];
    }

    /** The values the renderers touch can be rendered. */
    predicate RenderableValues()
      reads this, tableSchema
    {
      CanRender(tableSchema.columns, values)
    }

    /** The text of `toCopyRow`: one field per column, separated by tabs. */
    function CopyRowText(): string
      reads this, tableSchema
      requires RenderableValues()
    {
      CopyLine(tableSchema.columns, values)
    }

    /** `toCopyRow`. */
    method ToCopyRow() returns (r: string)
      requires RenderableValues()
      ensures r == CopyRowText()
    {
      var columns := tableSchema.columns;
      var names := tableSchema.ColumnNames();
      ghost var fields := CopyFields(columns, values);
      r := "";
      var skipSeparator := true;
      for i := 0 to |names|
        invariant skipSeparator <==> i == 0
        invariant r == "" + Join(fields[..i], "\t")
      {
        JoinExtend("", fields, i, "\t", r);
        var field;
        if names[i] in values {
          field := ToCopyValue(values[names[i]]);
        } else {
          field := NullMarker;
        }
        if !skipSeparator {
          r := r + "\t";
        }
        r := r + field;
        skipSeparator := false;
      }
      assert fields[..|names|] == fields;
    }

    /** The text of `TableRow.toValues`. */
    function ValuesText(): string
      reads this, tableSchema
      requires RenderableValues()
    {
      "(" + Join(ValueFields(tableSchema.columns, values), ", ") + ")"
    }

    /** `TableRow.toValues`. */
    method ToValues() returns (r: string)
      requires RenderableValues()
      ensures r == ValuesText()
    {
      var columns := tableSchema.columns;
      ghost var fields := ValueFields(columns, values);
      var sb := "(";
      var skipSeparator := true;
      for i := 0 to |columns|
        invariant skipSeparator <==> i == 0
        invariant sb == "(" + Join(fields[..i], ", ")
      {
        JoinExtend("(", fields, i, ", ", sb);
        var field := ToValueField(columns[i]);
        if !skipSeparator {
          sb := sb + ", ";
        }
        sb := sb + field;
        skipSeparator := false;
      }
      assert fields[..|columns|] == fields;
      r := sb + ")";
    }

    /** One entry of the `toValues` loop. */
    method ToValueField(column: TableColumn) returns (r: string)
      requires column.name in values ==> Renderable(values[column.name])
      ensures r == ValueField(values, column)
    {
      if column.name in values {
        var literal := ToQuotedString(values[column.name]);
        r := literal + "::";
        r := r + Name(column.columnType);
      } else {
        r := "NULL";
      }
    }

    /** The text of `TableRow.toInsert`: every column named in column order, then this row's values. */
    function InsertText(keywords: set<string>): string
      reads this, tableSchema
      requires RenderableValues()
    {
      "INSERT INTO " + tableSchema.QualifiedTableName(keywords) + " (" + IdentifierList(tableSchema.ColumnNames(), keywords)
        + ") VALUES " + ValuesText()
    }

    /** `TableRow.toInsert`. */
    method ToInsert(keywords: set<string>) returns (r: string)
      requires RenderableValues()
      ensures r == InsertText(keywords)
    {
      var sb := "INSERT INTO " + tableSchema.QualifiedTableName(keywords) + " (";
      sb := AppendIdentifierList(sb, tableSchema.ColumnNames(), keywords);
      sb := sb + ") VALUES ";
      var values := ToValues();
      r := sb + values;
    }

    /**
     * `TableRow.toUpsert`: this row's INSERT, then the schema's conflict clause; it
     * dereferences the primary key, so one must be set.
     */
    method ToUpsert(keywords: set<string>) returns (r: string)
      requires RenderableValues() && tableSchema.primaryKey.Some?
      ensures r == InsertText(keywords) + tableSchema.ConflictText(keywords)
    {
      var insert := ToInsert(keywords);
      var conflict := tableSchema.ToConflictClause(keywords);
      r := insert + conflict;
    }

    /**
     * Only the values of the schema's columns are rendered: two rows of one schema that agree
     * on those render the same COPY row and the same VALUES list, whatever else they hold.
     */
    lemma OnlyColumnsRendered(other: TableRow)
      requires other.tableSchema == tableSchema && RenderableValues()
      requires forall c :: c in tableSchema.ColumnNames() ==>
        (c in values <==> c in other.values) && (c in values ==> values[c] == other.values[c])
      ensures other.RenderableValues()
      ensures other.CopyRowText() == CopyRowText()
      ensures other.ValuesText() == ValuesText()
    {
      var columns := tableSchema.columns;
      forall i | 0 <= i < |columns|
        ensures (columns[i].name in values <==> columns[i].name in other.values)
          && (columns[i].name in values ==> values[columns[i].name] == other.values[columns[i].name])
      {
        assert tableSchema.ColumnNames()[i] == columns[i].name;
      }
      assert CopyFields(columns, values) == CopyFields(columns, other.values);
      assert ValueFields(columns, values) == ValueFields(columns, other.values);
    }
  }

  // ---------------------------------------------------------------------------------------
  // PrimaryKeyValue
  // ---------------------------------------------------------------------------------------

  /** PrimaryKeyValue: the key values of one item, as a stream REMOVE record carries them. */
  class PrimaryKeyValue {
    const tableSchema: TableSchema
    var values: map<string, Value>

    /** A key value of the schema with no values. */
    constructor (tableSchema: TableSchema)
      ensures this.tableSchema == tableSchema && values == map[]
    {
      this.tableSchema := tableSchema;
      this.values := map[];
    }

    /** `getValue`: the value stored under `key`, or nothing (null). */
    function GetValue(key: string): Option<Value>
      reads this
    {
      if key in values then Some(values[key]) else None
    }

    /** Every stored value belongs to a primary-key column. */
    predicate KeyOnly()
      reads this, tableSchema
      requires tableSchema.primaryKey.Some?
    {
      forall k :: k in values ==> tableSchema.IsInPrimaryKey(k)
    }

    /**
     * `setValue(String, Object)`: a column outside the primary key is rejected with
     * NonPrimaryKeyColumnError and nothing changes; a key column's datum is stored with the
     * column's type. The key must be set, since the check dereferences it.
     */
    method SetValue(key: string, datum: Datum) returns (r: Outcome<SchemaError>)
      requires tableSchema.Valid() && tableSchema.primaryKey.Some?
      modifies this
      ensures !tableSchema.IsInPrimaryKey(key) ==> r == Fail(NonPrimaryKeyColumnError(key)) && values == old(values)
      ensures tableSchema.IsInPrimaryKey(key) ==>
        r == Pass && tableSchema.ColumnExists(key)
        && values == old(values)[key := Value(tableSchema.GetColumn(key).value.columnType, datum)]
      ensures old(KeyOnly()) ==> KeyOnly()
    {
      var column := tableSchema.GetColumn(key);
      if !tableSchema.IsInPrimaryKey(key) {
        return Fail(NonPrimaryKeyColumnError(key));
      }
      SetColumnValue(key, Value(column.value.columnType, datum));
      r := Pass;
    }

    /** `setValue(String, TableColumnValue)`: stores the value as given; the key is not checked. */
    method SetColumnValue(key: string, value: Value)
      modifies this
      ensures GetValue(key) == Some(value)
      ensures forall k :: k != key ==> GetValue(k) == old(GetValue(k))
      ensures values == old(values)[key := value]
    {
      values := values[key := value];
    }

    /**
     * `PrimaryKeyValue.toDelete`: the same condition loop as `TableSchema.toDelete`, over
     * this object's values; every key column must hold a value, which is dereferenced.
     */
    method ToDelete(keywords: set<string>) returns (r: string)
      requires tableSchema.Valid() && tableSchema.primaryKey.Some? && tableSchema.CoversKey(values)
      ensures r == tableSchema.DeleteText(Some(values), keywords)
    {
      r := tableSchema.DeleteWhere(Some(values), keywords);
    }

    /**
     * When a key value holds exactly the key columns, the map-taking `TableSchema.toDelete`
     * accepts its values (the sizes agree) and renders the same DELETE as `toDelete` here.
     */
    lemma ToDeleteAgrees(keywords: set<string>)
      requires tableSchema.Valid() && tableSchema.primaryKey.Some? && tableSchema.CoversKey(values)
      requires KeyOnly() && Distinct(tableSchema.primaryKey.value)
      ensures |values| == |tableSchema.primaryKey.value|
    {
      var key := tableSchema.primaryKey.value;
      assert values.Keys == set k | k in key;
      DistinctCardinality(key);
    }
  }

  /** No name occurs twice. */
  predicate Distinct(names: seq<string>)
  {
    forall i, j :: 0 <= i < j < |names| ==> names[i] != names[j]
  }

  /** A list without repetitions has as many elements as the set of its elements. */
  lemma {:induction false} DistinctCardinality(names: seq<string>)
    requires Distinct(names)
    ensures |set k | k in names| == |names|
  {
    if names != [] {
      var rest := names[1..];
      assert Distinct(rest) by {
        forall i, j | 0 <= i < j < |rest|
          ensures rest[i] != rest[j]
        {
          assert rest[i] == names[i + 1] && rest[j] == names[j + 1];
        }
      }
      DistinctCardinality(rest);
      assert (set k | k in names) == (set k | k in rest) + {names[0]};
      assert names[0] !in rest by {
        forall j | 0 <= j < |rest|
          ensures rest[j] != names[0]
        {
          assert rest[j] == names[j + 1];
        }
      }
    }
  }

  // ---------------------------------------------------------------------------------------
  // TableRowBatch
  // ---------------------------------------------------------------------------------------

  /** TableRowBatch: rows gathered for one COPY, in the order they were added. */
  class TableRowBatch {
    var tableRows: seq<TableRow>

    /** An empty batch. */
    constructor ()
      ensures tableRows == []
    {
      tableRows := [];
    }

    /** `addRow`: appends the row. */
    method AddRow(tableRow: TableRow)
      modifies this
      ensures tableRows == old(tableRows) + [tableRow]
    {
      tableRows := tableRows + [tableRow];
    }

    /** Every row's rendered values can be rendered. */
    predicate RenderableRows()
      reads this, tableRows, set r | r in tableRows :: r.tableSchema
    {
      forall i :: 0 <= i < |tableRows| ==> tableRows[i].RenderableValues()
    }

    /** The COPY row of each row, in order. */
    function CopyRows(): (r: seq<string>)
      reads this, tableRows, set r | r in tableRows :: r.tableSchema
      requires RenderableRows()
      ensures |r| == |tableRows|
      ensures forall i :: 0 <= i < |tableRows| ==> r[i] == tableRows[i].CopyRowText()
    {
      seq(|tableRows|, i requires 0 <= i < |tableRows| && tableRows[i].RenderableValues()
                         reads this, tableRows, set r | r in tableRows :: r.tableSchema
                       => tableRows[i].CopyRowText())
    }

    /** The text of `toCopyInput`: every COPY row followed by a line break. */
    function CopyInputText(): string
      reads this, tableRows, set r | r in tableRows :: r.tableSchema
      requires RenderableRows()
    {
      var lines := CopyRows();
      Concat(seq(|lines|, i requires 0 <= i < |lines| => lines[i] + ['\n']))
    }

    /** `toCopyInput`. */
    method ToCopyInput() returns (r: string)
      requires RenderableRows()
      ensures r == CopyInputText()
    {
      ghost var lines := CopyRows();
      ghost var terminated := seq(|lines|, i requires 0 <= i < |lines| => lines[i] + ['\n']);
      r := "";
      for i := 0 to |tableRows|
        invariant r == Concat(terminated[..i])
      {
        ConcatPrefixStep(terminated, i);
        var row := tableRows[i].ToCopyRow();
        AppendAssoc(r, row, ['\n']);
        r := r + row;
        r := r + ['\n'];
      }
      assert terminated[..|tableRows|] == terminated;
    }

    /**
     * The COPY input holds one line per row: it has as many line breaks as rows, and split at
     * them it gives back the rows' COPY rows in order, followed by the empty rest after the last.
     */
    lemma CopyInputLines()
      requires RenderableRows()
      ensures Count('\n', CopyInputText()) == |tableRows|
      ensures Split(CopyInputText(), '\n') == CopyRows() + [""]
    {
      var lines := CopyRows();
      forall i | 0 <= i < |lines + [""]|
        ensures '\n' !in (lines + [""])[i]
      {
        if i < |lines| {
          CopyLineIsOneLine(tableRows[i].tableSchema.columns, tableRows[i].values);
        }
      }
      ConcatTerminated(lines, '\n');
      SplitJoin(lines + [""], '\n');
      CountJoin(lines + [""], '\n');
    }
  }

  /** A join of pieces that all avoid `c`, with a separator that avoids it too, avoids it. */
  lemma {:induction false} JoinAvoids(parts: seq<string>, sep: string, c: char)
    requires c !in sep
    requires forall i :: 0 <= i < |parts| ==> c !in parts[i]
    ensures c !in Join(parts, sep)
  {
    if |parts| > 1 {
      JoinAvoids(parts[1..], sep, c);
    }
  }
}
