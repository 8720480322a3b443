/**
 * The relational side of the replicator: TableColumn, TableIndex and TableSchema.
 * A schema is an insertion-ordered, append-only list of uniquely named columns with an
 * optional distribution column, an optional primary key and a list of indexes; its
 * mutators check their arguments and report the source's errors as values.
 * The schema renders the DDL and DML statements the emitters send to PostgreSQL.
 */
module Schema {
  import opened Wrappers
  import opened Text
  import opened ColumnTypes
  import opened ColumnValues
  import opened Identifiers

  /** The exceptions the schema mutators and renderers throw. */
  datatype SchemaError =
    | ColumnExistError(column: string)
    | NonExistingColumnError(column: string)
    | NonPrimaryKeyColumnError(column: string)
    | InvalidNumberOfColumnsError(provided: nat, expected: nat)

  // ---------------------------------------------------------------------------------------
  // Column definitions
  // ---------------------------------------------------------------------------------------

  /** A column definition as a reader of the DDL sees it. */
  datatype ColumnDef = ColumnDef(name: string, columnType: ColumnType, notNull: bool)

  const NotNullSuffix: string := " NOT NULL"

  /** The text of `TableColumn.toDDL` for the given fields. */
  function ColumnDDL(name: string, columnType: ColumnType, notNull: bool, keywords: set<string>): string
  {
    QuotedIdentifier(name, keywords) + " " + Name(columnType) + (if notNull then NotNullSuffix else "")
  }

  /** Reads a column definition: an identifier, a type name, and an optional NOT NULL. */
  function ParseColumnDDL(s: string): Option<ColumnDef>
  {
    var notNull := |s| >= |NotNullSuffix| && s[|s| - |NotNullSuffix|..] == NotNullSuffix;
    var body := if notNull then s[..|s| - |NotNullSuffix|] else s;
    match SplitLast(body, ' ')
    case None => None
    case Some(parts) =>
      match (UnquoteIdentifier(parts.0), TypeNamed(parts.1))
      case (Some(n), Some(t)) => Some(ColumnDef(n, t, notNull))
      case _ => None
  }

  /** A column's DDL reads back as its name, its type and its NOT NULL flag. */
  lemma ColumnDDLRoundTrip(name: string, columnType: ColumnType, notNull: bool, keywords: set<string>)
    requires Lexable(name, keywords)
    ensures ParseColumnDDL(ColumnDDL(name, columnType, notNull, keywords)) == Some(ColumnDef(name, columnType, notNull))
  {
    var q := QuotedIdentifier(name, keywords);
    var typeName := Name(columnType);
    var body := q + " " + typeName;
    var s := ColumnDDL(name, columnType, notNull, keywords);
    NameIsWord(columnType);
    assert ' ' !in typeName;
    SplitLastOf(q, ' ', typeName);
    QuoteIdentifierRoundTrip(name, keywords);
    if notNull {
      assert s == body + NotNullSuffix;
      assert s[|s| - |NotNullSuffix|..] == NotNullSuffix;
      assert s[..|s| - |NotNullSuffix|] == body;
    } else {
      assert s == body;
      assert s[|s| - 1] == typeName[|typeName| - 1];
      if |s| >= |NotNullSuffix| {
        assert s[|s| - |NotNullSuffix|..][|NotNullSuffix| - 1] == s[|s| - 1];
      }
    }
  }

  /** TableColumn: a named, typed column of one schema; `notNull` is set by its callers. */
  class TableColumn {
    const tableSchema: TableSchema
    const name: string
    const columnType: ColumnType
    var notNull: bool

    /** A new column is nullable and keeps the given schema, name and type. */
    constructor (tableSchema: TableSchema, name: string, columnType: ColumnType)
      ensures this.tableSchema == tableSchema && this.name == name && this.columnType == columnType
      ensures !notNull
    {
      this.tableSchema := tableSchema;
      this.name := name;
      this.columnType := columnType;
      this.notNull := false;
    }

    /** `getQuotedIdentifier`: the name as it appears in SQL; a lexable name reads back as itself. */
    function QuotedName(keywords: set<string>): (r: string)
      ensures Lexable(name, keywords) ==> UnquoteIdentifier(r) == Some(name)
    {
      var r := QuotedIdentifier(name, keywords);
      assert Lexable(name, keywords) ==> UnquoteIdentifier(r) == Some(name) by {
        if Lexable(name, keywords) {
          QuoteIdentifierRoundTrip(name, keywords);
        }
      }
      r
    }

    /** `toDDL` (and `toString`): with a lexable name, reads back as this column's name, type and NOT NULL flag. */
    function DDL(keywords: set<string>): (r: string)
      reads this
      ensures Lexable(name, keywords) ==> ParseColumnDDL(r) == Some(ColumnDef(name, columnType, notNull))
    {
      var r := ColumnDDL(name, columnType, notNull, keywords);
      assert Lexable(name, keywords) ==> ParseColumnDDL(r) == Some(ColumnDef(name, columnType, notNull)) by {
        if Lexable(name, keywords) {
          ColumnDDLRoundTrip(name, columnType, notNull, keywords);
        }
      }
      r
    }

    /** `toAlterTableAddColumn`: the ALTER TABLE head for the owning table, then this column's DDL. */
    function AlterTableAddColumn(keywords: set<string>): (r: string)
      reads this
      ensures var head := "ALTER TABLE " + tableSchema.QualifiedTableName(keywords) + " ADD COLUMN ";
        |head| <= |r| && r[..|head|] == head
        && (Lexable(name, keywords) ==> ParseColumnDDL(r[|head|..]) == Some(ColumnDef(name, columnType, notNull)))
    {
      var head := "ALTER TABLE " + tableSchema.QualifiedTableName(keywords) + " ADD COLUMN ";
      var r := head + DDL(keywords);
      assert r[|head|..] == DDL(keywords);
      r
    }
  }

  /** The column whose name is `name`, searched in order. */
  function FindColumn(columns: seq<TableColumn>, name: string): (r: Option<TableColumn>)
    ensures r.Some? <==> exists i :: 0 <= i < |columns| && columns[i].name == name
    ensures r.Some? ==> r.value in columns && r.value.name == name
  {
    if columns == [] then None
    else if columns[0].name == name then Some(columns[0])
    else
      var r := FindColumn(columns[1..], name);
      assert forall i :: 1 <= i < |columns| ==> columns[i] == columns[1..][i - 1];
      r
  }

  // ---------------------------------------------------------------------------------------
  // Indexes
  // ---------------------------------------------------------------------------------------

  /** TableIndex: an index of a table over some of its columns, in order. */
  datatype TableIndex = TableIndex(tableName: string, name: string, columnNames: seq<string>)

  /** TableIndex's constructor: the stored index name is namespaced by the table name. */
  function NewTableIndex(tableName: string, name: string, columnNames: seq<string>): (ix: TableIndex)
    ensures ix.tableName == tableName && ix.columnNames == columnNames
    ensures |ix.name| == |tableName| + 1 + |name|
    ensures ix.name[..|tableName|] == tableName && ix.name[|tableName|] == '_' && ix.name[|tableName| + 1..] == name
  {
    TableIndex(tableName, tableName + "_" + name, columnNames)
  }

  /** The text of `TableIndex.toDDL`. */
  function IndexText(ix: TableIndex, keywords: set<string>): string
  {
    "CREATE INDEX " + QuotedIdentifier(ix.name, keywords) + " ON " + QuotedIdentifier(ix.tableName, keywords)
      + " (" + IdentifierList(ix.columnNames, keywords) + ")"
  }

  /** `TableIndex.toDDL` (and `toString`): the column list is a comma join built in a loop. */
  method IndexDDL(ix: TableIndex, keywords: set<string>) returns (r: string)
    ensures r == IndexText(ix, keywords)
  {
    var sb := "CREATE INDEX " + QuotedIdentifier(ix.name, keywords) + " ON " + QuotedIdentifier(ix.tableName, keywords) + " (";
    sb := AppendIdentifierList(sb, ix.columnNames, keywords);
    r := sb + ")";
  }

  // ---------------------------------------------------------------------------------------
  // The schema
  // ---------------------------------------------------------------------------------------

  /** TableSchema: the columns, keys and indexes of one replicated table. */
  class TableSchema {
    const schemaName: Option<string>
    const tableName: string
    /** The LinkedHashMap of columns, as its values in insertion order; the keys are their names. */
    var columns: seq<TableColumn>
    var distributionColumn: Option<TableColumn>
    var primaryKey: Option<seq<string>>
    var tableIndexes: seq<TableIndex>

    /**
     * What every mutator keeps: names are unique (they are the map's keys), each column
     * belongs to this schema, and the distribution column and the primary-key names exist.
     */
    ghost predicate Valid()
      reads this
    {
      (forall i, j :: 0 <= i < j < |columns| ==> columns[i].name != columns[j].name)
      && (forall i :: 0 <= i < |columns| ==> columns[i].tableSchema == this)
      && (distributionColumn.Some? ==> distributionColumn.value in columns)
      && (primaryKey.Some? ==> forall k :: k in primaryKey.value ==> ColumnExists(k))
    }

    /** Both Java constructors: no columns, no keys, no indexes. */
    constructor (tableName: string, schemaName: Option<string>)
      ensures Valid()
      ensures this.tableName == tableName && this.schemaName == schemaName
      ensures columns == [] && distributionColumn == None && primaryKey == None && tableIndexes == []
    {
      this.tableName := tableName;
      this.schemaName := schemaName;
      this.columns := [];
      this.distributionColumn := None;
      this.primaryKey := None;
      this.tableIndexes := [];
    }

    /** `getColumnNames`: the map's key set, in insertion order. */
    function ColumnNames(): (r: seq<string>)
      reads this
      ensures |r| == |columns|
      ensures forall i :: 0 <= i < |columns| ==> r[i] == columns[i].name
    {
      seq(|columns|, i requires 0 <= i < |columns| reads this => columns[i].name)
    }

    /** `columnExists`. */
    predicate ColumnExists(name: string)
      reads this
    {
      name in ColumnNames()
    }

    /** `getColumn`: the column so named, or nothing (null). */
    function GetColumn(name: string): (r: Option<TableColumn>)
      reads this
      ensures r.Some? <==> ColumnExists(name)
      ensures r.Some? ==> r.value in columns && r.value.name == name
    {
      var r := FindColumn(columns, name);
      assert r.Some? ==> ColumnNames()[IndexOf(r.value)] == name;
      r
    }

    /** The position of a column of this schema. */
    ghost function IndexOf(c: TableColumn): (i: nat)
      reads this
      requires c in columns
      ensures i < |columns| && columns[i] == c
    {
      var i :| 0 <= i < |columns| && columns[i] == c; i
    }

    /** `isInPrimaryKey` and `isPrimaryKeyColumn`; both dereference the primary key. */
    predicate IsInPrimaryKey(name: string)
      reads this
      requires primaryKey.Some?
    {
      name in primaryKey.value
    }

    /** `addColumn`: fails on a taken name; otherwise appends one new nullable column. */
    method AddColumn(columnName: string, columnType: ColumnType) returns (r: Result<TableColumn, SchemaError>)
      requires Valid()
      modifies this
      ensures Valid()
      ensures old(ColumnExists(columnName)) ==> r == Err(ColumnExistError(columnName)) && columns == old(columns)
      ensures !old(ColumnExists(columnName)) ==>
        r.Ok? && fresh(r.value) && columns == old(columns) + [r.value]
        && r.value.name == columnName && r.value.columnType == columnType && r.value.tableSchema == this && !r.value.notNull
      ensures distributionColumn == old(distributionColumn) && primaryKey == old(primaryKey) && tableIndexes == old(tableIndexes)
    {
      if ColumnExists(columnName) {
        return Err(ColumnExistError(columnName));
      }
      var column := new TableColumn(this, columnName, columnType);
      ghost var before := ColumnNames();
      columns := columns + [column];
      assert ColumnNames() == before + [columnName];
      r := Ok(column);
    }

    /** `setDistributionColumn`: the column must exist and no distribution column may be set yet. */
    method SetDistributionColumn(columnName: string) returns (r: Outcome<SchemaError>)
      requires Valid()
      modifies this
      ensures Valid()
      ensures !old(ColumnExists(columnName)) ==>
        r == Fail(NonExistingColumnError(columnName)) && distributionColumn == old(distributionColumn)
      ensures old(ColumnExists(columnName)) && old(distributionColumn).Some? ==>
        r == Fail(ColumnExistError(old(distributionColumn).value.name)) && distributionColumn == old(distributionColumn)
      ensures old(ColumnExists(columnName)) && old(distributionColumn).None? ==>
        r == Pass && distributionColumn == old(GetColumn(columnName))
      ensures columns == old(columns) && primaryKey == old(primaryKey) && tableIndexes == old(tableIndexes)
    {
      if !ColumnExists(columnName) {
        return Fail(NonExistingColumnError(columnName));
      }
      if distributionColumn.Some? {
        return Fail(ColumnExistError(distributionColumn.value.name));
      }
      distributionColumn := GetColumn(columnName);
      r := Pass;
    }

    /** `names[j]` is the first of `names` that is not a column. */
    predicate FirstUnknown(names: seq<string>, j: int)
      reads this
    {
      0 <= j < |names| && !ColumnExists(names[j]) && forall i :: 0 <= i < j ==> ColumnExists(names[i])
    }

    /** `setPrimaryKey`: rejects the list at its first unknown name, else stores it as given. */
    method SetPrimaryKey(columnNames: seq<string>) returns (r: Outcome<SchemaError>)
      requires Valid()
      modifies this
      ensures Valid()
      ensures r.Pass? <==> forall k :: k in columnNames ==> ColumnExists(k)
      ensures r.Pass? ==> primaryKey == Some(columnNames)
      ensures r.Fail? ==> primaryKey == old(primaryKey)
      ensures r.Fail? ==> exists j :: FirstUnknown(columnNames, j) && r == Fail(NonExistingColumnError(columnNames[j]))
      ensures columns == old(columns) && distributionColumn == old(distributionColumn) && tableIndexes == old(tableIndexes)
    {
      for j := 0 to |columnNames|
        invariant forall i :: 0 <= i < j ==> ColumnExists(columnNames[i])
      {
        if !ColumnExists(columnNames[j]) {
          return Fail(NonExistingColumnError(columnNames[j]));
        }
      }
      primaryKey := Some(columnNames);
      r := Pass;
    }

    /** `addIndex`: appends a namespaced index; the column names are not checked. */
    method AddIndex(indexName: string, indexColumns: seq<string>)
      requires Valid()
      modifies this
      ensures Valid()
      ensures tableIndexes == old(tableIndexes) + [NewTableIndex(tableName, indexName, indexColumns)]
      ensures columns == old(columns) && distributionColumn == old(distributionColumn) && primaryKey == old(primaryKey)
    {
      tableIndexes := tableIndexes + [NewTableIndex(tableName, indexName, indexColumns)];
    }

    /** `getQualifiedTableName`: the quoted schema name and a dot when there is one, then the quoted table name. */
    function QualifiedTableName(keywords: set<string>): string
    {
      var table := QuotedIdentifier(tableName, keywords);
      if schemaName.None? then table else QuotedIdentifier(schemaName.value, keywords) + "." + table
    }

    /** The qualified name reads back as the table name, preceded by the schema name and a dot when there is one. */
    lemma QualifiedTableNameReadsBack(keywords: set<string>)
      requires Lexable(tableName, keywords)
      requires schemaName.Some? ==> Lexable(schemaName.value, keywords)
      ensures schemaName.None? ==> UnquoteIdentifier(QualifiedTableName(keywords)) == Some(tableName)
      ensures schemaName.Some? ==>
        var r := QualifiedTableName(keywords);
        var n := |QuotedIdentifier(schemaName.value, keywords)|;
        n < |r| && r[n] == '.' && UnquoteIdentifier(r[..n]) == Some(schemaName.value)
        && UnquoteIdentifier(r[n + 1..]) == Some(tableName)
    {
      QuoteIdentifierRoundTrip(tableName, keywords);
      if schemaName.Some? {
        var schema := QuotedIdentifier(schemaName.value, keywords);
        var table := QuotedIdentifier(tableName, keywords);
        var r := schema + "." + table;
        QuoteIdentifierRoundTrip(schemaName.value, keywords);
        assert r[..|schema|] == schema && r[|schema| + 1..] == table;
      }
    }

    // -------------------------------------------------------------------------------------
    // Rendering
    // -------------------------------------------------------------------------------------

    /** CREATE TABLE's column lines, in column order. */
    function ColumnLines(keywords: set<string>): (r: seq<string>)
      reads this, columns
      ensures |r| == |columns|
      ensures forall i :: 0 <= i < |columns| ==> r[i] == "\n  " + columns[i].DDL(keywords)
    {
      seq(|columns|, i requires 0 <= i < |columns| reads this, columns => "\n  " + columns[i].DDL(keywords))
    }

    /** The PRIMARY KEY clause of CREATE TABLE, when a key is set. */
    function PrimaryKeyClause(keywords: set<string>): string
      reads this
    {
      if primaryKey.None? then "" else ",\n  PRIMARY KEY(" + IdentifierList(primaryKey.value, keywords) + ")"
    }

    /** The PRIMARY KEY clause is present exactly when a key is set, and its list reads back as the key. */
    lemma PrimaryKeyClauseReadsBack(keywords: set<string>)
      ensures PrimaryKeyClause(keywords) == "" <==> primaryKey.None?
      ensures primaryKey.Some? ==>
        var r := PrimaryKeyClause(keywords);
        var head := ",\n  PRIMARY KEY(";
        |head| < |r| && r[..|head|] == head && r[|r| - 1] == ')'
        && (|primaryKey.value| >= 1 && AllLexable(primaryKey.value, keywords) ==>
              ReadIdentifierList(r[|head|..|r| - 1], ", ") == primaryKey)
    {
      if primaryKey.Some? {
        var head := ",\n  PRIMARY KEY(";
        var list := IdentifierList(primaryKey.value, keywords);
        var r := head + list + ")";
        assert r[|head|..|r| - 1] == list;
        if |primaryKey.value| >= 1 && AllLexable(primaryKey.value, keywords) {
          ReadIdentifierListOf(primaryKey.value, keywords, ", ");
        }
      }
    }

    /** The text of `createTableDDL`. */
    function CreateTableText(keywords: set<string>): string
      reads this, columns
    {
      "CREATE TABLE " + QualifiedTableName(keywords) + " (" + Join(ColumnLines(keywords), ",")
        + PrimaryKeyClause(keywords) + "\n)"
    }

    /** The column loop of `createTableDDL`: one line per column, separated by commas. */
    method AppendColumnLines(sb: string, keywords: set<string>) returns (r: string)
      ensures r == sb + Join(ColumnLines(keywords), ",")
    {
      r := sb;
      var skipComma := true;
      ghost var lines := ColumnLines(keywords);
      for i := 0 to |columns|
        invariant skipComma <==> i == 0
        invariant r == sb + Join(lines[..i], ",")
      {
        JoinExtend(sb, lines, i, ",", r);
        var line := "\n  " + columns[i].DDL(keywords);
        assert line == lines[i];
        if !skipComma {
          r := r + ",";
        }
        r := r + line;
        skipComma := false;
      }
      assert lines[..|columns|] == lines;
    }

    /** `createTableDDL`: two separator loops, one over the columns and one over the primary key. */
    method CreateTableDDL(keywords: set<string>) returns (r: string)
      ensures r == CreateTableText(keywords)
    {
      var sb := "CREATE TABLE " + QualifiedTableName(keywords) + " (";
      sb := AppendColumnLines(sb, keywords);
      ghost var body := sb;
      if primaryKey.Some? {
        var list := IdentifierList(primaryKey.value, keywords);
        sb := sb + ",\n  PRIMARY KEY(";
        sb := AppendIdentifierList(sb, primaryKey.value, keywords);
        AppendAssoc(body, ",\n  PRIMARY KEY(", list);
        sb := sb + ")";
        AppendAssoc(body, ",\n  PRIMARY KEY(" + list, ")");
      }
      assert sb == body + PrimaryKeyClause(keywords);
      r := sb + "\n)";
    }

    /** The `create_distributed_table` call; the column name is put between quotes as it is. */
    function DistributionText(keywords: set<string>): string
      reads this
      requires distributionColumn.Some?
    {
      "SELECT create_distributed_table('" + QualifiedTableName(keywords) + "', '" + distributionColumn.value.name + "')"
    }

    /** The CREATE INDEX statements, in index insertion order. */
    function IndexTexts(keywords: set<string>): (r: seq<string>)
      reads this
      ensures |r| == |tableIndexes|
      ensures forall i :: 0 <= i < |tableIndexes| ==> r[i] == IndexText(tableIndexes[i], keywords)
    {
      seq(|tableIndexes|, i requires 0 <= i < |tableIndexes| reads this => IndexText(tableIndexes[i], keywords))
    }

    /** The list `toDDLList` returns. */
    function DDLList(keywords: set<string>): seq<string>
      reads this, columns
    {
      [CreateTableText(keywords)] + IndexTexts(keywords)
        + (if distributionColumn.Some? then [DistributionText(keywords)] else [])
    }

    /**
     * CREATE TABLE comes first, then one CREATE INDEX per index in insertion order, then the
     * distribution call last when a distribution column is set; nothing else.
     */
    lemma DDLListOrder(keywords: set<string>)
      ensures var r := DDLList(keywords);
        |r| == 1 + |tableIndexes| + (if distributionColumn.Some? then 1 else 0)
        && r[0] == CreateTableText(keywords)
        && (forall i :: 0 <= i < |tableIndexes| ==> r[1 + i] == IndexText(tableIndexes[i], keywords))
        && (distributionColumn.Some? ==> r[|r| - 1] == DistributionText(keywords))
    {
      var tail := if distributionColumn.Some? then [DistributionText(keywords)] else [];
      LayoutOf(CreateTableText(keywords), IndexTexts(keywords), tail);
    }

    /** `toDDLList`. */
    method ToDDLList(keywords: set<string>) returns (r: seq<string>)
      ensures r == DDLList(keywords)
    {
      var createTable := CreateTableDDL(keywords);
      var indexes := IndexDDLs(keywords);
      assert createTable == CreateTableText(keywords);
      var distribution: seq<string> := [];
      if distributionColumn.Some? {
        var distribute := DistributionDDL(keywords);
        distribution := [distribute];
      }
      assert createTable == CreateTableText(keywords) && indexes == IndexTexts(keywords);
      r := [createTable] + indexes + distribution;
    }

    /** The index loop of `toDDLList`. */
    method IndexDDLs(keywords: set<string>) returns (r: seq<string>)
      ensures r == IndexTexts(keywords)
    {
      ghost var indexes := IndexTexts(keywords);
      r := [];
      for i := 0 to |tableIndexes|
        invariant r == indexes[..i]
      {
        var ddl := IndexDDL(tableIndexes[i], keywords);
        assert indexes[..i + 1] == indexes[..i] + [indexes[i]];
        r := r + [ddl];
      }
      assert indexes[..|tableIndexes|] == indexes;
    }

    /** The `create_distributed_table` call that `toDDLList` adds last. */
    method DistributionDDL(keywords: set<string>) returns (r: string)
      requires distributionColumn.Some?
      ensures r == DistributionText(keywords)
    {
      r := "SELECT create_distributed_table('";
      r := r + QualifiedTableName(keywords);
      r := r + "', '";
      r := r + distributionColumn.value.name;
      r := r + "')";
    }

    /** The text of `toDDL`: every command of `toDDLList`, in order, each followed by ";\n". */
    function DDLScript(keywords: set<string>): string
      reads this, columns
    {
      var commands := DDLList(keywords);
      Concat(seq(|commands|, i requires 0 <= i < |commands| => commands[i] + ";\n"))
    }

    /** `toDDL` (and `toString`). */
    method ToDDL(keywords: set<string>) returns (r: string)
      ensures r == DDLScript(keywords)
    {
      var commands := ToDDLList(keywords);
      ghost var terminated := seq(|commands|, i requires 0 <= i < |commands| => commands[i] + ";\n");
      r := "";
      for i := 0 to |commands|
        invariant r == Concat(terminated[..i])
      {
        ConcatPrefixStep(terminated, i);
        ghost var before := r;
        r := r + commands[i];
        r := r + ";\n";
        AppendAssoc(before, commands[i], ";\n");
      }
      assert terminated[..|commands|] == terminated;
    }

    /** The text of `toValues`: one placeholder per column. */
    function ValuesText(): string
      reads this
    {
      "(" + Join(Placeholders(|columns|), ", ") + ")"
    }

    /** `toValues`. */
    method ToValues() returns (r: string)
      ensures r == ValuesText()
    {
      var sb := "(";
      var skipSeparator := true;
      ghost var marks := Placeholders(|columns|);
      for i := 0 to |columns|
        invariant skipSeparator <==> i == 0
        invariant sb == "(" + Join(marks[..i], ", ")
      {
        JoinExtend("(", marks, i, ", ", sb);
        if !skipSeparator {
          sb := sb + ", ";
        }
        sb := sb + "?";
        skipSeparator := false;
      }
      assert marks[..|columns|] == marks;
      r := sb + ")";
    }

    /** `toValues` holds exactly `columnCount()` placeholders. */
    lemma ValuesPlaceholderCount()
      ensures Count('?', ValuesText()) == |columns|
    {
      PlaceholderCount(|columns|);
      CountAppend('?', "(" + Join(Placeholders(|columns|), ", "), ")");
      CountAppend('?', "(", Join(Placeholders(|columns|), ", "));
    }

    /** The text of `TableSchema.toInsert`: every column named in column order, then the placeholders. */
    function InsertText(keywords: set<string>): string
      reads this
    {
      "INSERT INTO " + QualifiedTableName(keywords) + " (" + IdentifierList(ColumnNames(), keywords) + ") VALUES " + ValuesText()
    }

    /** `TableSchema.toInsert`. */
    method ToInsert(keywords: set<string>) returns (r: string)
      ensures r == InsertText(keywords)
    {
      var sb := "INSERT INTO " + QualifiedTableName(keywords) + " (";
      sb := AppendIdentifierList(sb, ColumnNames(), keywords);
      sb := sb + ") VALUES ";
      var values := ToValues();
      r := sb + values;
    }

    /** The INSERT names as many columns as its VALUES list has placeholders, and they read back in order. */
    lemma InsertMatchesValues(keywords: set<string>)
      requires |columns| >= 1 && AllLexable(ColumnNames(), keywords)
      ensures ReadIdentifierList(IdentifierList(ColumnNames(), keywords), ", ") == Some(ColumnNames())
      ensures Count('?', ValuesText()) == |ColumnNames()|
    {
      ReadIdentifierListOf(ColumnNames(), keywords, ", ");
      ValuesPlaceholderCount();
    }

    /**
     * What `toUpsert` adds after the INSERT: the primary key as conflict target, in key order,
     * then `c = EXCLUDED.c` for every column outside the key, in column order.
     */
    function ConflictText(keywords: set<string>): string
      reads this
      requires primaryKey.Some?
    {
      " ON CONFLICT (" + IdentifierList(primaryKey.value, keywords) + ") DO UPDATE SET "
        + Join(Assignments(NonKeyColumns(ColumnNames(), primaryKey.value), keywords), ", ")
    }

    /** The two loops `toUpsert` runs after the INSERT, shared by TableSchema and TableRow. */
    method ToConflictClause(keywords: set<string>) returns (r: string)
      requires primaryKey.Some?
      ensures r == ConflictText(keywords)
    {
      var sb := " ON CONFLICT (";
      sb := AppendIdentifierList(sb, primaryKey.value, keywords);
      sb := sb + ") DO UPDATE SET ";
      r := AppendAssignments(sb, keywords);
    }

    /** The SET loop of `toUpsert`: skips the key columns and assigns every other column its EXCLUDED value. */
    method AppendAssignments(sb: string, keywords: set<string>) returns (r: string)
      requires primaryKey.Some?
      ensures r == sb + Join(Assignments(NonKeyColumns(ColumnNames(), primaryKey.value), keywords), ", ")
    {
      var key := primaryKey.value;
      var names := ColumnNames();
      r := sb;
      var skipSeparator := true;
      for i := 0 to |names|
        invariant skipSeparator <==> NonKeyColumns(names[..i], key) == []
        invariant r == sb + Join(Assignments(NonKeyColumns(names[..i], key), keywords), ", ")
      {
        ghost var done := NonKeyColumns(names[..i], key);
        NonKeyColumnsStep(names, key, i);
        if !IsInPrimaryKey(names[i]) {
          AssignmentsSnoc(done, names[i], keywords);
          JoinSnocExtend(sb, Assignments(done, keywords), Assignment(names[i], keywords), ", ", r);
          var assignment := ToAssignment(names[i], keywords);
          if !skipSeparator {
            r := r + ", ";
          }
          r := r + assignment;
          skipSeparator := false;
          assert NonKeyColumns(names[..i + 1], key) == done + [names[i]];
        } else {
          assert NonKeyColumns(names[..i + 1], key) == done;
        }
      }
      assert names[..|names|] == names;
    }

    /** The text of `TableSchema.toUpsert`. */
    function UpsertText(keywords: set<string>): string
      reads this
      requires primaryKey.Some?
    {
      InsertText(keywords) + ConflictText(keywords)
    }

    /** `TableSchema.toUpsert`; it dereferences the primary key, so one must be set. */
    method ToUpsert(keywords: set<string>) returns (r: string)
      requires primaryKey.Some?
      ensures r == UpsertText(keywords)
    {
      var insert := ToInsert(keywords);
      var conflict := ToConflictClause(keywords);
      r := insert + conflict;
    }

    /** Values cover the key: every key column has a value that can be rendered. */
    predicate CoversKey(values: map<string, Value>)
      reads this
      requires primaryKey.Some?
    {
      forall k :: k in primaryKey.value ==> k in values && Renderable(values[k])
    }

    /** One condition of a DELETE's WHERE clause: the column against a placeholder or against its value. */
    function DeleteCondition(name: string, values: Option<map<string, Value>>, keywords: set<string>): string
      reads this
      requires ColumnExists(name)
      requires values.Some? ==> name in values.value && Renderable(values.value[name])
    {
      QuotedIdentifier(name, keywords) + " = "
        + (if values.None? then "?" else QuotedString(values.value[name]) + "::" + Name(GetColumn(name).value.columnType))
    }

    /** Without values, a condition reads back as the column name followed by ` = ?`. */
    lemma PlaceholderConditionReadsBack(name: string, keywords: set<string>)
      requires ColumnExists(name) && Lexable(name, keywords)
      ensures ReadIdentifier(DeleteCondition(name, None, keywords)) == Some((name, " = ?"))
    {
      assert DeleteCondition(name, None, keywords) == QuotedIdentifier(name, keywords) + " = ?";
      ReadQuotedIdentifier(name, keywords, " = ?");
    }

    /**
     * With values, a condition reads back as the column name followed by ` = `, a literal that
     * the server reads as the value's string, and a cast to the column's type.
     */
    lemma ValueConditionReadsBack(name: string, values: map<string, Value>, keywords: set<string>)
      requires ColumnExists(name) && Lexable(name, keywords)
      requires name in values && Renderable(values[name])
      ensures var literal := QuotedString(values[name]);
        ReadIdentifier(DeleteCondition(name, Some(values), keywords))
          == Some((name, " = " + literal + "::" + Name(GetColumn(name).value.columnType)))
        && UnquoteLiteral(literal) == Some(ToString(values[name]))
    {
      var rest := ValueConditionRest(name, values, keywords);
      ReadQuotedIdentifier(name, keywords, rest);
      QuotedStringRoundTrip(values[name]);
    }

    /** A condition with values is the quoted column name followed by what it is compared with. */
    lemma ValueConditionRest(name: string, values: map<string, Value>, keywords: set<string>) returns (rest: string)
      requires ColumnExists(name)
      requires name in values && Renderable(values[name])
      ensures rest == " = " + QuotedString(values[name]) + "::" + Name(GetColumn(name).value.columnType)
      ensures DeleteCondition(name, Some(values), keywords) == QuotedIdentifier(name, keywords) + rest
    {
      var q, v := QuotedIdentifier(name, keywords), QuotedString(values[name]) + "::" + Name(GetColumn(name).value.columnType);
      rest := " = " + v;
      AppendAssoc(q, " = ", v);
      AppendAssoc(" = ", QuotedString(values[name]) + "::", Name(GetColumn(name).value.columnType));
      AppendAssoc(" = ", QuotedString(values[name]), "::");
    }

    /** The WHERE conditions of a DELETE over the key columns `key`, in key order. */
    function DeleteConditions(key: seq<string>, values: Option<map<string, Value>>, keywords: set<string>): (r: seq<string>)
      reads this
      requires forall k :: k in key ==> ColumnExists(k)
      requires values.Some? ==> forall k :: k in key ==> k in values.value && Renderable(values.value[k])
      ensures |r| == |key|
      ensures forall i :: 0 <= i < |key| ==> r[i] == DeleteCondition(key[i], values, keywords)
    {
      seq(|key|, i requires 0 <= i < |key| && ColumnExists(key[i])
                   && (values.Some? ==> key[i] in values.value && Renderable(values.value[key[i]]))
                   reads this
                 => DeleteCondition(key[i], values, keywords))
    }

    /** The text of `TableSchema.toDelete` and of `PrimaryKeyValue.toDelete`. */
    function DeleteText(values: Option<map<string, Value>>, keywords: set<string>): string
      reads this
      requires Valid() && primaryKey.Some?
      requires values.Some? ==> CoversKey(values.value)
    {
      "DELETE FROM " + QualifiedTableName(keywords) + " WHERE " + Join(DeleteConditions(primaryKey.value, values, keywords), " AND ")
    }

    /** One pass of the condition loop of `toDelete`. */
    method ToDeleteCondition(name: string, values: Option<map<string, Value>>, keywords: set<string>) returns (r: string)
      requires ColumnExists(name)
      requires values.Some? ==> name in values.value && Renderable(values.value[name])
      ensures r == DeleteCondition(name, values, keywords)
    {
      var column := GetColumn(name).value;
      r := QuotedIdentifier(name, keywords);
      r := r + " = ";
      if values.Some? {
        var literal := ToQuotedString(values.value[name]);
        r := r + literal;
        r := r + "::";
        r := r + Name(column.columnType);
      } else {
        r := r + "?";
      }
    }

    /** The condition loop of `toDelete`. */
    method DeleteWhere(values: Option<map<string, Value>>, keywords: set<string>) returns (r: string)
      requires Valid() && primaryKey.Some?
      requires values.Some? ==> CoversKey(values.value)
      ensures r == DeleteText(values, keywords)
    {
      var key := primaryKey.value;
      var head := "DELETE FROM " + QualifiedTableName(keywords) + " WHERE ";
      var sb := head;
      var skipSeparator := true;
      ghost var conditions := DeleteConditions(key, values, keywords);
      for i := 0 to |key|
        invariant skipSeparator <==> i == 0
        invariant sb == head + Join(conditions[..i], " AND ")
      {
        JoinExtend(head, conditions, i, " AND ", sb);
        var condition := ToDeleteCondition(key[i], values, keywords);
        if !skipSeparator {
          sb := sb + " AND ";
        }
        sb := sb + condition;
        skipSeparator := false;
      }
      assert conditions[..|key|] == conditions;
      r := sb;
    }

    /**
     * `TableSchema.toDelete(primaryKeyValues)`: a map whose size is not the key's length is
     * rejected; `None` stands for the null map and gives one placeholder per key column.
     * A map of the right size must hold every key column, since each is looked up.
     */
    method ToDelete(values: Option<map<string, Value>>, keywords: set<string>) returns (r: Result<string, SchemaError>)
      requires Valid() && primaryKey.Some?
      requires values.Some? && |values.value| == |primaryKey.value| ==> CoversKey(values.value)
      ensures values.Some? && |values.value| != |primaryKey.value| ==>
        r == Err(InvalidNumberOfColumnsError(|values.value|, |primaryKey.value|))
      ensures values.None? || |values.value| == |primaryKey.value| ==> r == Ok(DeleteText(values, keywords))
    {
      if values.Some? && |values.value| != |primaryKey.value| {
        return Err(InvalidNumberOfColumnsError(|values.value|, |primaryKey.value|));
      }
      var text := DeleteWhere(values, keywords);
      r := Ok(text);
    }
  }

  // ---------------------------------------------------------------------------------------
  // Rendering helpers
  // ---------------------------------------------------------------------------------------

  /** `n` placeholders. */
  function Placeholders(n: nat): (r: seq<string>)
    ensures |r| == n && forall i :: 0 <= i < n ==> r[i] == "?"
  {
    seq(n, _ => "?")
  }

  lemma {:induction false} PlaceholderCount(n: nat)
    ensures Count('?', Join(Placeholders(n), ", ")) == n
  {
    if n > 0 {
      PlaceholderCount(n - 1);
      assert Placeholders(n) == Placeholders(n - 1) + ["?"];
      JoinSnoc(Placeholders(n - 1), "?", ", ");
      if n > 1 {
        var prev := Join(Placeholders(n - 1), ", ");
        CountAppend('?', prev + ", ", "?");
        CountAppend('?', prev, ", ");
      }
    }
  }

  /**
   * The names of `names` that are not in `key`, in their order: the columns an upsert
   * assigns. A name is kept exactly when it is a column outside the key.
   */
  function NonKeyColumns(names: seq<string>, key: seq<string>): (r: seq<string>)
    ensures forall x :: x in r <==> x in names && x !in key
  {
    if names == [] then []
    else
      var last := names[|names| - 1];
      assert names == names[..|names| - 1] + [last];
      NonKeyColumns(names[..|names| - 1], key) + (if last in key then [] else [last])
  }

  /** Extending the scanned prefix by one name adds that name exactly when it is not a key column. */
  lemma NonKeyColumnsStep(names: seq<string>, key: seq<string>, i: nat)
    requires i < |names|
    ensures NonKeyColumns(names[..i + 1], key)
      == NonKeyColumns(names[..i], key) + (if names[i] in key then [] else [names[i]])
  {
    assert names[..i + 1][..i] == names[..i];
  }

  /** One assignment of the upsert's SET list. */
  function Assignment(name: string, keywords: set<string>): string
  {
    QuotedIdentifier(name, keywords) + " = EXCLUDED." + QuotedIdentifier(name, keywords)
  }

  /** One assignment of the SET list of `toUpsert`, built piece by piece. */
  method ToAssignment(name: string, keywords: set<string>) returns (r: string)
    ensures r == Assignment(name, keywords)
  {
    r := QuotedIdentifier(name, keywords);
    r := r + " = EXCLUDED.";
    r := r + QuotedIdentifier(name, keywords);
  }

  function Assignments(names: seq<string>, keywords: set<string>): (r: seq<string>)
    ensures |r| == |names| && forall i :: 0 <= i < |names| ==> r[i] == Assignment(names[i], keywords)
  {
    seq(|names|, i requires 0 <= i < |names| => Assignment(names[i], keywords))
  }

  lemma AssignmentsSnoc(names: seq<string>, name: string, keywords: set<string>)
    ensures Assignments(names + [name], keywords) == Assignments(names, keywords) + [Assignment(name, keywords)]
  {
  }
}
