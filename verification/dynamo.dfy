/**
 * DynamoDB items as the replicator sees them, and the pure rules it applies to them:
 * the column type an attribute value infers (`columnTypeFromDynamoValue`), the typed value
 * it becomes (`columnValueFromDynamoValue`), how a page of scanned items grows a schema
 * (`addNewColumnsToSchema`), how a stream batch grows it (`addNewColumns`), the values a row
 * built from an item holds (`rowFromDynamoRecord`) and the key values of a deleted item.
 *
 * A schema's columns are viewed here as (name, type) pairs in insertion order; the methods
 * that mutate a TableSchema are proved to move its pairs exactly as these functions say.
 */
module Dynamo {
  import opened Wrappers
  import opened ColumnTypes
  import opened ColumnValues
  import opened Schema

  /**
   * AttributeValue: one optional field per DynamoDB type. The set, list and map shapes
   * (BS, L, M, NS, SS) carry the JSON text the serializer renders for them.
   */
  datatype AttributeValue = AttributeValue(
    b: Option<seq<JByte>>,
    boolean: Option<bool>,
    bs: Option<string>,
    l: Option<string>,
    m: Option<string>,
    n: Option<string>,
    ns: Option<string>,
    s: Option<string>,
    ss: Option<string>)

  /** One attribute of an item: its name and its value. */
  type Field = (string, AttributeValue)

  /** An item (a map from attribute name to value), as its entries in iteration order. */
  type Item = seq<Field>

  /** A column as the evolution rules see it: its name and its type. */
  type Column = (string, ColumnType)

  // ---------------------------------------------------------------------------------------
  // Type inference
  // ---------------------------------------------------------------------------------------

  /** The DynamoDB data types an attribute value may carry. */
  datatype Shape = B | BOOL | BS | L | M | N | NS | S | SS

  /** The order in which both inference functions test the shapes. */
  const ShapeOrder: seq<Shape> := [B, BOOL, BS, L, M, N, NS, S, SS]

  /** The value carries the given shape. */
  predicate Has(av: AttributeValue, shape: Shape)
  {
    match shape
    case B => av.b.Some?
    case BOOL => av.boolean.Some?
    case BS => av.bs.Some?
    case L => av.l.Some?
    case M => av.m.Some?
    case N => av.n.Some?
    case NS => av.ns.Some?
    case S => av.s.Some?
    case SS => av.ss.Some?
  }

  /** The value carries at least one shape (a NULL attribute carries none of these). */
  predicate HasShape(av: AttributeValue)
  {
    exists shape :: Has(av, shape)
  }

  /** The column type each shape maps to on its own. */
  function ShapeType(shape: Shape): ColumnType
  {
    match shape
    case B => Bytea
    case BOOL => Bool
    case N => Numeric
    case S => Text
    case _ => Jsonb
  }

  /** The datum each shape carries. */
  function ShapeDatum(av: AttributeValue, shape: Shape): Datum
    requires Has(av, shape)
  {
    match shape
    case B => Bytes(av.b.value)
    case BOOL => Boolean(av.boolean.value)
    case BS => Chars(av.bs.value)
    case L => Chars(av.l.value)
    case M => Chars(av.m.value)
    case N => Chars(av.n.value)
    case NS => Chars(av.ns.value)
    case S => Chars(av.s.value)
    case SS => Chars(av.ss.value)
  }

  /** `columnTypeFromDynamoValue`: the type of the first shape present; text when none is. */
  function ColumnTypeOf(av: AttributeValue): ColumnType
  {
    if av.b.Some? then Bytea
    else if av.boolean.Some? then Bool
    else if av.bs.Some? then Jsonb
    else if av.l.Some? then Jsonb
    else if av.m.Some? then Jsonb
    else if av.n.Some? then Numeric
    else if av.ns.Some? then Jsonb
    else if av.s.Some? then Text
    else if av.ss.Some? then Jsonb
    else Text
  }

  /**
   * `columnValueFromDynamoValue`: the datum of the first shape present, typed as
   * `columnTypeFromDynamoValue` types it; nothing (null) when no shape is present.
   */
  function ColumnValueOf(av: AttributeValue): (r: Option<Value>)
    ensures r.Some? <==> HasShape(av)
    ensures r.Some? ==> r.value.columnType == ColumnTypeOf(av) && Renderable(r.value)
    ensures r.None? ==> ColumnTypeOf(av) == Text
  {
    if av.b.Some? then assert Has(av, B); Some(Value(Bytea, Bytes(av.b.value)))
    else if av.boolean.Some? then assert Has(av, BOOL); Some(Value(Bool, Boolean(av.boolean.value)))
    else if av.bs.Some? then assert Has(av, BS); Some(Value(Jsonb, Chars(av.bs.value)))
    else if av.l.Some? then assert Has(av, L); Some(Value(Jsonb, Chars(av.l.value)))
    else if av.m.Some? then assert Has(av, M); Some(Value(Jsonb, Chars(av.m.value)))
    else if av.n.Some? then assert Has(av, N); Some(Value(Numeric, Chars(av.n.value)))
    else if av.ns.Some? then assert Has(av, NS); Some(Value(Jsonb, Chars(av.ns.value)))
    else if av.s.Some? then assert Has(av, S); Some(Value(Text, Chars(av.s.value)))
    else if av.ss.Some? then assert Has(av, SS); Some(Value(Jsonb, Chars(av.ss.value)))
    else
      assert forall shape :: !Has(av, shape);
      None
  }

  /**
   * Both inference functions are decided by the first shape of `ShapeOrder` the value
   * carries: the type is that shape's type and the datum that shape's datum.
   */
  lemma FirstShapeDecides(av: AttributeValue, k: nat)
    requires k < |ShapeOrder| && Has(av, ShapeOrder[k])
    requires forall j :: 0 <= j < k ==> !Has(av, ShapeOrder[j])
    ensures ColumnTypeOf(av) == ShapeType(ShapeOrder[k])
    ensures ColumnValueOf(av) == Some(Value(ShapeType(ShapeOrder[k]), ShapeDatum(av, ShapeOrder[k])))
  {
    if k > 0 { assert !Has(av, ShapeOrder[0]); }
    if k > 1 { assert !Has(av, ShapeOrder[1]); }
    if k > 2 { assert !Has(av, ShapeOrder[2]); }
    if k > 3 { assert !Has(av, ShapeOrder[3]); }
    if k > 4 { assert !Has(av, ShapeOrder[4]); }
    if k > 5 { assert !Has(av, ShapeOrder[5]); }
    if k > 6 { assert !Has(av, ShapeOrder[6]); }
    if k > 7 { assert !Has(av, ShapeOrder[7]); }
  }

  // ---------------------------------------------------------------------------------------
  // Columns as (name, type) pairs
  // ---------------------------------------------------------------------------------------

  /** The type of the first column so named, if any (the LinkedHashMap lookup). */
  function TypeOf(cols: seq<Column>, name: string): (r: Option<ColumnType>)
    ensures r.Some? <==> exists i :: 0 <= i < |cols| && cols[i].0 == name
    ensures r.Some? ==> (name, r.value) in cols
  {
    if cols == [] then None
    else if cols[0].0 == name then Some(cols[0].1)
    else
      var r := TypeOf(cols[1..], name);
      assert forall i :: 1 <= i < |cols| ==> cols[i] == cols[1..][i - 1];
      r
  }

  /** Appending columns never changes the type of a name already present. */
  lemma {:induction false} TypeOfAppend(cols: seq<Column>, more: seq<Column>, name: string)
    ensures TypeOf(cols + more, name) == if TypeOf(cols, name).Some? then TypeOf(cols, name) else TypeOf(more, name)
  {
    if cols != [] {
      assert (cols + more)[0] == cols[0];
      assert (cols + more)[1..] == cols[1..] + more;
      TypeOfAppend(cols[1..], more, name);
    } else {
      assert cols + more == more;
    }
  }

  /** No two columns share a name. */
  predicate UniqueNames(cols: seq<Column>)
  {
    forall i, j :: 0 <= i < j < |cols| ==> cols[i].0 != cols[j].0
  }

  /** The (name, type) pairs of a list of column objects. */
  function PairsOf(columns: seq<TableColumn>): (r: seq<Column>)
    ensures |r| == |columns|
    ensures forall i :: 0 <= i < |columns| ==> r[i] == (columns[i].name, columns[i].columnType)
  {
    seq(|columns|, i requires 0 <= i < |columns| => (columns[i].name, columns[i].columnType))
  }

  /** `getColumn` on the objects and `TypeOf` on their pairs find the same column. */
  lemma {:induction false} PairsOfAgree(columns: seq<TableColumn>, name: string)
    ensures TypeOf(PairsOf(columns), name)
         == if FindColumn(columns, name).Some? then Some(FindColumn(columns, name).value.columnType) else None
  {
    if columns != [] {
      assert PairsOf(columns)[1..] == PairsOf(columns[1..]);
      PairsOfAgree(columns[1..], name);
    }
  }

  /** The pairs of a schema's columns. */
  function Pairs(schema: TableSchema): seq<Column>
    reads schema
  {
    PairsOf(schema.columns)
  }

  /** A schema's `getColumn` answers as `TypeOf` on its pairs; valid schemas have unique pairs. */
  lemma PairsAgree(schema: TableSchema, name: string)
    ensures schema.ColumnExists(name) <==> TypeOf(Pairs(schema), name).Some?
    ensures schema.ColumnExists(name) ==> TypeOf(Pairs(schema), name) == Some(schema.GetColumn(name).value.columnType)
    ensures schema.Valid() ==> UniqueNames(Pairs(schema))
  {
    PairsOfAgree(schema.columns, name);
    assert schema.GetColumn(name) == FindColumn(schema.columns, name);
  }

  // ---------------------------------------------------------------------------------------
  // Schema evolution during the scan
  // ---------------------------------------------------------------------------------------

  /** The column a value of type `t` under `name` is redirected to when `name` has another type. */
  function Redirect(name: string, t: ColumnType): (r: string)
    ensures |r| > |name| && r[..|name|] == name && r[|name|] == '_'
  {
    name + "_" + Name(t)
  }

  /** The fields of a page of items, item after item. */
  function Fields(items: seq<Item>): seq<Field>
  {
    if items == [] then [] else Fields(items[..|items| - 1]) + items[|items| - 1]
  }

  /** Each field of each item is among the page's fields. */
  lemma {:induction false} FieldsContain(items: seq<Item>, i: nat, k: nat)
    requires i < |items| && k < |items[i]|
    ensures items[i][k] in Fields(items)
  {
    var last := |items| - 1;
    if i < last {
      FieldsContain(items[..last], i, k);
    } else {
      assert Fields(items) == Fields(items[..last]) + items[last];
      assert Fields(items)[|Fields(items[..last])| + k] == items[i][k];
    }
  }

  /**
   * One field of `addNewColumnsToSchema`: an unknown name becomes a column of the value's
   * type; a known name of another type redirects to `name_type`, which is added if missing.
   */
  function EvolveField(cols: seq<Column>, f: Field): seq<Column>
  {
    var t := ColumnTypeOf(f.1);
    match TypeOf(cols, f.0)
    case None => cols + [(f.0, t)]
    case Some(ct) =>
      if ct == t || TypeOf(cols, Redirect(f.0, t)).Some? then cols
      else cols + [(Redirect(f.0, t), t)]
  }

  /** `addNewColumnsToSchema`: the fields applied in order. */
  function Evolve(cols: seq<Column>, fields: seq<Field>): seq<Column>
  {
    if fields == [] then cols
    else EvolveField(Evolve(cols, fields[..|fields| - 1]), fields[|fields| - 1])
  }

  /** The last step of `Evolve` is one `EvolveField`. */
  lemma EvolveSnoc(cols: seq<Column>, fields: seq<Field>, f: Field)
    ensures Evolve(cols, fields + [f]) == EvolveField(Evolve(cols, fields), f)
  {
    assert (fields + [f])[..|fields|] == fields;
  }

  /** Scan evolution over two runs of fields is the second run applied after the first. */
  lemma {:induction false} EvolveAppend(cols: seq<Column>, first: seq<Field>, second: seq<Field>)
    ensures Evolve(cols, first + second) == Evolve(Evolve(cols, first), second)
    decreases |second|
  {
    if second == [] {
      assert first + second == first;
    } else {
      var init := second[..|second| - 1];
      var f := second[|second| - 1];
      assert second == init + [f];
      assert first + second == (first + init) + [f];
      calc {
        Evolve(cols, first + second);
        { EvolveSnoc(cols, first + init, f); }
        EvolveField(Evolve(cols, first + init), f);
        { EvolveAppend(cols, first, init); }
        EvolveField(Evolve(Evolve(cols, first), init), f);
        { EvolveSnoc(Evolve(cols, first), init, f); }
        Evolve(Evolve(cols, first), second);
      }
    }
  }

  /**
   * A field is served by `cols`: its name is a column, and either that column has the
   * value's type or the redirect column exists.
   */
  predicate Covered(cols: seq<Column>, f: Field)
  {
    var t := ColumnTypeOf(f.1);
    TypeOf(cols, f.0).Some? && (TypeOf(cols, f.0) == Some(t) || TypeOf(cols, Redirect(f.0, t)).Some?)
  }

  /** Columns appended later never uncover a field. */
  lemma CoveredExtends(cols: seq<Column>, more: seq<Column>, f: Field)
    requires Covered(cols, f)
    ensures Covered(cols + more, f)
  {
    TypeOfAppend(cols, more, f.0);
    TypeOfAppend(cols, more, Redirect(f.0, ColumnTypeOf(f.1)));
  }

  /**
   * Evolution only appends, keeps names unique, serves every field it has seen, and each
   * column it appends is a field's name or a field's redirect, with that field's type.
   */
  lemma EvolveProperties(cols: seq<Column>, fields: seq<Field>)
    ensures var e := Evolve(cols, fields);
      |cols| <= |e| && e[..|cols|] == cols
      && (UniqueNames(cols) ==> UniqueNames(e))
      && (forall f :: f in fields ==> Covered(e, f))
      && (forall i :: |cols| <= i < |e| ==> CreatedBy(fields, e[i]))
  {
    EvolveGrows(cols, fields);
    EvolveCovers(cols, fields);
    EvolveCreates(cols, fields);
  }

  /** One field of scan evolution appends at most one column, which the field creates, and serves the field. */
  lemma EvolveFieldProperties(cols: seq<Column>, f: Field)
    ensures var e := EvolveField(cols, f);
      |cols| <= |e| <= |cols| + 1 && e[..|cols|] == cols
      && (|e| > |cols| ==> Creates(f, e[|cols|]))
      && (UniqueNames(cols) ==> UniqueNames(e))
      && Covered(e, f)
      && (forall g :: Covered(cols, g) ==> Covered(e, g))
  {
    var e := EvolveField(cols, f);
    var more := e[|cols|..];
    assert e == cols + more;
    forall g | Covered(cols, g)
      ensures Covered(e, g)
    {
      CoveredExtends(cols, more, g);
    }
    var t := ColumnTypeOf(f.1);
    TypeOfAppend(cols, more, f.0);
    TypeOfAppend(cols, more, Redirect(f.0, t));
    if |more| == 1 {
      assert TypeOf(more, more[0].0).Some?;
      if UniqueNames(cols) {
        forall j | 0 <= j < |cols|
          ensures cols[j].0 != more[0].0
        {
          assert cols[j] in cols;
        }
      }
    }
  }

  /** Scan evolution keeps its start as a prefix and keeps names unique. */
  lemma {:induction false} EvolveGrows(cols: seq<Column>, fields: seq<Field>)
    ensures var e := Evolve(cols, fields);
      |cols| <= |e| && e[..|cols|] == cols && (UniqueNames(cols) ==> UniqueNames(e))
  {
    if fields != [] {
      var init := fields[..|fields| - 1];
      var prev := Evolve(cols, init);
      EvolveGrows(cols, init);
      EvolveFieldProperties(prev, fields[|fields| - 1]);
      var e := Evolve(cols, fields);
      assert e[..|cols|] == e[..|prev|][..|cols|];
    }
  }

  /** Scan evolution serves every field it has seen. */
  lemma {:induction false} EvolveCovers(cols: seq<Column>, fields: seq<Field>)
    ensures forall f :: f in fields ==> Covered(Evolve(cols, fields), f)
  {
    if fields != [] {
      var init := fields[..|fields| - 1];
      var f := fields[|fields| - 1];
      assert fields == init + [f];
      EvolveCovers(cols, init);
      EvolveFieldProperties(Evolve(cols, init), f);
      forall g | g in fields
        ensures Covered(Evolve(cols, fields), g)
      {
        if g !in init {
          assert g == f;
        }
      }
    }
  }

  /** Every column scan evolution appends is created by one of the fields. */
  lemma {:induction false} EvolveCreates(cols: seq<Column>, fields: seq<Field>)
    ensures var e := Evolve(cols, fields);
      forall i :: |cols| <= i < |e| ==> CreatedBy(fields, e[i])
  {
    if fields != [] {
      var init := fields[..|fields| - 1];
      var f := fields[|fields| - 1];
      assert fields == init + [f];
      var prev := Evolve(cols, init);
      EvolveCreates(cols, init);
      EvolveGrows(cols, init);
      EvolveFieldProperties(prev, f);
      var e := Evolve(cols, fields);
      forall i | |cols| <= i < |e|
        ensures CreatedBy(fields, e[i])
      {
        if i < |prev| {
          var g :| g in init && Creates(g, prev[i]);
          assert e[i] == e[..|prev|][i];
          assert g in fields;
        } else {
          assert f in fields && Creates(f, e[i]);
        }
      }
    }
  }

  /** Some field of `fields` accounts for column `c`. */
  predicate CreatedBy(fields: seq<Field>, c: Column)
  {
    exists f :: f in fields && Creates(f, c)
  }

  /** The field `f` accounts for column `c`: `c` is its name or its redirect, with its type. */
  predicate Creates(f: Field, c: Column)
  {
    var t := ColumnTypeOf(f.1);
    c == (f.0, t) || c == (Redirect(f.0, t), t)
  }

  /** The documented example: a number under `count`, then a string under `count`. */
  lemma CountExample(number: AttributeValue, text: AttributeValue)
    requires number.b.None? && number.boolean.None? && number.bs.None? && number.l.None? && number.m.None?
    requires number.n == Some("42")
    requires text.b.None? && text.boolean.None? && text.bs.None? && text.l.None? && text.m.None?
    requires text.n.None? && text.ns.None? && text.s == Some("many")
    ensures Evolve([], [("count", number), ("count", text)]) == [("count", Numeric), ("count_text", Text)]
    ensures Evolve([], [("count", number), ("count", text), ("count", text)]) == [("count", Numeric), ("count_text", Text)]
  {
    var f1, f2 := ("count", number), ("count", text);
    CountNumber(number);
    CountText(text);
    EvolveSnoc([], [], f1);
    EvolveSnoc([], [f1], f2);
    EvolveSnoc([], [f1, f2], f2);
    assert [] + [f1] == [f1] && [f1] + [f2] == [f1, f2] && [f1, f2] + [f2] == [f1, f2, f2];
  }

  /** The first step of the example: the number creates `count`. */
  lemma CountNumber(number: AttributeValue)
    requires number.b.None? && number.boolean.None? && number.bs.None? && number.l.None? && number.m.None?
    requires number.n == Some("42")
    ensures EvolveField([], ("count", number)) == [("count", Numeric)]
  {
    assert ColumnTypeOf(number) == Numeric;
  }

  /** The later steps: the string is redirected to `count_text` once, and then finds it. */
  lemma CountText(text: AttributeValue)
    requires text.b.None? && text.boolean.None? && text.bs.None? && text.l.None? && text.m.None?
    requires text.n.None? && text.ns.None? && text.s == Some("many")
    ensures EvolveField([("count", Numeric)], ("count", text)) == [("count", Numeric), ("count_text", Text)]
    ensures EvolveField([("count", Numeric), ("count_text", Text)], ("count", text)) == [("count", Numeric), ("count_text", Text)]
  {
    var one: seq<Column> := [("count", Numeric)];
    var two: seq<Column> := [("count", Numeric), ("count_text", Text)];
    assert ColumnTypeOf(text) == Text;
    assert Redirect("count", Text) == "count_text";
    assert "count_text" != "count";
    assert TypeOf(one, "count") == Some(Numeric);
    assert TypeOf(one, "count_text") == None;
    assert TypeOf(two, "count") == Some(Numeric);
    assert TypeOf(two, "count_text") == Some(Text) by {
      assert two[1..] == [("count_text", Text)];
    }
  }

  // ---------------------------------------------------------------------------------------
  // Rows built from items
  // ---------------------------------------------------------------------------------------

  /** Every field of the item names a column and carries a shape (otherwise the row builder dereferences null). */
  predicate Fits(cols: seq<Column>, item: Item)
  {
    forall k :: 0 <= k < |item| ==> TypeOf(cols, item[k].0).Some? && HasShape(item[k].1)
  }

  /** The key a field's value is stored under: its name when the types agree, its redirect otherwise. */
  function RowKey(cols: seq<Column>, f: Field): string
    requires TypeOf(cols, f.0).Some?
  {
    var t := ColumnTypeOf(f.1);
    if TypeOf(cols, f.0) == Some(t) then f.0 else Redirect(f.0, t)
  }

  /** `rowFromDynamoRecord`: the values the row holds once every field is stored, in order. */
  function RowValues(cols: seq<Column>, item: Item): map<string, Value>
    requires Fits(cols, item)
  {
    if item == [] then map[]
    else
      var f := item[|item| - 1];
      RowValues(cols, item[..|item| - 1])[RowKey(cols, f) := ColumnValueOf(f.1).value]
  }

  /** The step of `RowValues` for one more field of a fitting item. */
  lemma RowValuesSnoc(cols: seq<Column>, item: Item, j: nat)
    requires Fits(cols, item) && j < |item|
    ensures Fits(cols, item[..j]) && Fits(cols, item[..j + 1])
    ensures TypeOf(cols, item[j].0).Some? && HasShape(item[j].1)
    ensures RowValues(cols, item[..j + 1]) == RowValues(cols, item[..j])[RowKey(cols, item[j]) := ColumnValueOf(item[j].1).value]
  {
    assert item[..j + 1][..j] == item[..j];
  }

  /**
   * The row holds exactly one value per distinct key of its fields, each renderable; when
   * every field is covered, every key is a column of `cols`, so rendering loses nothing.
   */
  lemma RowValuesMeaning(cols: seq<Column>, item: Item)
    requires Fits(cols, item)
    ensures forall key :: key in RowValues(cols, item) <==> exists k :: 0 <= k < |item| && key == RowKey(cols, item[k])
    ensures forall key :: key in RowValues(cols, item) ==> Renderable(RowValues(cols, item)[key])
    ensures (forall k :: 0 <= k < |item| ==> Covered(cols, item[k])) ==>
      forall key :: key in RowValues(cols, item) ==> TypeOf(cols, key).Some?
  {
    RowValuesKeys(cols, item);
    RowValuesRenderable(cols, item);
    if forall k :: 0 <= k < |item| ==> Covered(cols, item[k]) {
      forall key | key in RowValues(cols, item)
        ensures TypeOf(cols, key).Some?
      {
        var k :| 0 <= k < |item| && key == RowKey(cols, item[k]);
        assert Covered(cols, item[k]);
      }
    }
  }

  /** No field after `k` is stored under the key of field `k`. */
  predicate LastUnderKey(cols: seq<Column>, item: Item, k: nat)
    requires Fits(cols, item) && k < |item|
  {
    forall j :: k < j < |item| ==> RowKey(cols, item[j]) != RowKey(cols, item[k])
  }

  /** Dropping the last field keeps a field before it the last one under its key. */
  lemma LastUnderKeyInit(cols: seq<Column>, item: Item, k: nat)
    requires Fits(cols, item) && k + 1 < |item| && LastUnderKey(cols, item, k)
    ensures Fits(cols, item[..|item| - 1]) && LastUnderKey(cols, item[..|item| - 1], k)
    ensures RowKey(cols, item[|item| - 1]) != RowKey(cols, item[k])
  {
    var init := item[..|item| - 1];
    assert forall i :: 0 <= i < |init| ==> init[i] == item[i];
  }

  /**
   * The value a row holds under a field's key is that field's converted value when no later
   * field is stored under the same key: the last field written to a key wins.
   */
  lemma {:induction false} RowValuesAt(cols: seq<Column>, item: Item, k: nat)
    requires Fits(cols, item) && k < |item| && LastUnderKey(cols, item, k)
    ensures RowKey(cols, item[k]) in RowValues(cols, item)
    ensures RowValues(cols, item)[RowKey(cols, item[k])] == ColumnValueOf(item[k].1).value
  {
    var last := |item| - 1;
    RowValuesSnoc(cols, item, last);
    assert item[..last + 1] == item;
    if k < last {
      LastUnderKeyInit(cols, item, k);
      RowValuesAt(cols, item[..last], k);
    }
  }

  /** The keys of a row are the keys of its fields. */
  lemma RowValuesKeys(cols: seq<Column>, item: Item)
    requires Fits(cols, item)
    ensures forall key :: key in RowValues(cols, item) <==> exists k :: 0 <= k < |item| && key == RowKey(cols, item[k])
  {
    forall key | key in RowValues(cols, item)
      ensures exists k :: 0 <= k < |item| && key == RowKey(cols, item[k])
    {
      var k := RowValuesOnly(cols, item, key);
    }
    forall key | exists k :: 0 <= k < |item| && key == RowKey(cols, item[k])
      ensures key in RowValues(cols, item)
    {
      var k :| 0 <= k < |item| && key == RowKey(cols, item[k]);
      RowValuesHas(cols, item, k);
    }
  }

  /** Every field's key is a key of the row. */
  lemma {:induction false} RowValuesHas(cols: seq<Column>, item: Item, k: nat)
    requires Fits(cols, item) && k < |item|
    ensures RowKey(cols, item[k]) in RowValues(cols, item)
  {
    var init := item[..|item| - 1];
    if k < |init| {
      assert init[k] == item[k];
      assert Fits(cols, init) by {
        assert forall i :: 0 <= i < |init| ==> init[i] == item[i];
      }
      RowValuesHas(cols, init, k);
    }
  }

  /** Every key of the row is some field's key; the index of such a field is returned. */
  lemma {:induction false} RowValuesOnly(cols: seq<Column>, item: Item, key: string) returns (k: nat)
    requires Fits(cols, item) && key in RowValues(cols, item)
    ensures k < |item| && key == RowKey(cols, item[k])
  {
    var j := |item| - 1;
    RowValuesSnoc(cols, item, j);
    assert item[..j + 1] == item;
    if key == RowKey(cols, item[j]) {
      k := j;
    } else {
      k := RowValuesOnly(cols, item[..j], key);
      assert item[..j][k] == item[k];
    }
  }

  /** Every value of a row can be rendered. */
  lemma {:induction false} RowValuesRenderable(cols: seq<Column>, item: Item)
    requires Fits(cols, item)
    ensures forall key :: key in RowValues(cols, item) ==> Renderable(RowValues(cols, item)[key])
  {
    if item != [] {
      var j := |item| - 1;
      RowValuesSnoc(cols, item, j);
      assert item[..j + 1] == item;
      RowValuesRenderable(cols, item[..j]);
    }
  }

  /**
   * After a page has evolved the schema, every item of the page fits it and every value of
   * its row lands in a column.
   */
  lemma ScannedRowsFit(cols: seq<Column>, items: seq<Item>, i: nat)
    requires i < |items|
    requires forall k :: 0 <= k < |items[i]| ==> HasShape(items[i][k].1)
    ensures var e := Evolve(cols, Fields(items));
      Fits(e, items[i])
      && forall key :: key in RowValues(e, items[i]) ==> TypeOf(e, key).Some? && Renderable(RowValues(e, items[i])[key])
  {
    var e := Evolve(cols, Fields(items));
    EvolveProperties(cols, Fields(items));
    forall k | 0 <= k < |items[i]|
      ensures Covered(e, items[i][k])
    {
      FieldsContain(items, i, k);
    }
    RowValuesMeaning(e, items[i]);
  }

  // ---------------------------------------------------------------------------------------
  // Schema evolution during streaming
  // ---------------------------------------------------------------------------------------

  /** One field of `addNewColumns`: a name that is not yet a column is added with the value's type. */
  function AddIfMissing(cols: seq<Column>, f: Field): seq<Column>
  {
    if TypeOf(cols, f.0).None? then cols + [(f.0, ColumnTypeOf(f.1))] else cols
  }

  /** `addNewColumns`: the new-image fields applied in order; nothing is ever redirected. */
  function EvolveNew(cols: seq<Column>, fields: seq<Field>): seq<Column>
  {
    if fields == [] then cols
    else AddIfMissing(EvolveNew(cols, fields[..|fields| - 1]), fields[|fields| - 1])
  }

  /** The last step of `EvolveNew` is one `AddIfMissing`. */
  lemma EvolveNewSnoc(cols: seq<Column>, fields: seq<Field>, f: Field)
    ensures EvolveNew(cols, fields + [f]) == AddIfMissing(EvolveNew(cols, fields), f)
  {
    assert (fields + [f])[..|fields|] == fields;
  }

  /** Streaming evolution over two runs of fields is the second run applied after the first. */
  lemma {:induction false} EvolveNewAppend(cols: seq<Column>, first: seq<Field>, second: seq<Field>)
    ensures EvolveNew(cols, first + second) == EvolveNew(EvolveNew(cols, first), second)
    decreases |second|
  {
    if second == [] {
      assert first + second == first;
    } else {
      var init := second[..|second| - 1];
      var f := second[|second| - 1];
      assert second == init + [f];
      assert first + second == (first + init) + [f];
      calc {
        EvolveNew(cols, first + second);
        { EvolveNewSnoc(cols, first + init, f); }
        AddIfMissing(EvolveNew(cols, first + init), f);
        { EvolveNewAppend(cols, first, init); }
        AddIfMissing(EvolveNew(EvolveNew(cols, first), init), f);
        { EvolveNewSnoc(EvolveNew(cols, first), init, f); }
        EvolveNew(EvolveNew(cols, first), second);
      }
    }
  }

  /**
   * Streaming evolution only appends, keeps names unique, makes every field name a
   * column, and each column it appends is a field's own name and type.
   */
  lemma EvolveNewProperties(cols: seq<Column>, fields: seq<Field>)
    ensures var e := EvolveNew(cols, fields);
      |cols| <= |e| && e[..|cols|] == cols
      && (UniqueNames(cols) ==> UniqueNames(e))
      && (forall f :: f in fields ==> TypeOf(e, f.0).Some?)
      && (forall i :: |cols| <= i < |e| ==> exists f :: f in fields && e[i] == (f.0, ColumnTypeOf(f.1)))
  {
    EvolveNewGrows(cols, fields);
    EvolveNewCovers(cols, fields);
    EvolveNewCreates(cols, fields);
  }

  /** Streaming evolution keeps its start as a prefix, keeps names unique and forgets no name. */
  lemma {:induction false} EvolveNewGrows(cols: seq<Column>, fields: seq<Field>)
    ensures var e := EvolveNew(cols, fields);
      |cols| <= |e| && e[..|cols|] == cols
      && (UniqueNames(cols) ==> UniqueNames(e))
      && (forall name :: TypeOf(cols, name).Some? ==> TypeOf(e, name).Some?)
  {
    if fields != [] {
      var init := fields[..|fields| - 1];
      var prev := EvolveNew(cols, init);
      EvolveNewGrows(cols, init);
      AddIfMissingProperties(prev, fields[|fields| - 1]);
      var e := EvolveNew(cols, fields);
      assert e[..|cols|] == e[..|prev|][..|cols|];
    }
  }

  /** Streaming evolution makes every field's name a column. */
  lemma {:induction false} EvolveNewCovers(cols: seq<Column>, fields: seq<Field>)
    ensures forall f :: f in fields ==> TypeOf(EvolveNew(cols, fields), f.0).Some?
  {
    if fields != [] {
      var init := fields[..|fields| - 1];
      var f := fields[|fields| - 1];
      assert fields == init + [f];
      var prev := EvolveNew(cols, init);
      EvolveNewCovers(cols, init);
      AddIfMissingProperties(prev, f);
      forall g | g in fields
        ensures TypeOf(EvolveNew(cols, fields), g.0).Some?
      {
        if g !in init {
          assert g == f;
        }
      }
    }
  }

  /** Every column streaming evolution appends is some field's name with its value's type. */
  lemma {:induction false} EvolveNewCreates(cols: seq<Column>, fields: seq<Field>)
    ensures var e := EvolveNew(cols, fields);
      forall i :: |cols| <= i < |e| ==> exists f :: f in fields && e[i] == (f.0, ColumnTypeOf(f.1))
  {
    if fields != [] {
      var init := fields[..|fields| - 1];
      var f := fields[|fields| - 1];
      assert fields == init + [f];
      var prev := EvolveNew(cols, init);
      EvolveNewCreates(cols, init);
      EvolveNewGrows(cols, init);
      AddIfMissingProperties(prev, f);
      var e := EvolveNew(cols, fields);
      forall i | |cols| <= i < |e|
        ensures exists g :: g in fields && e[i] == (g.0, ColumnTypeOf(g.1))
      {
        if i < |prev| {
          var g :| g in init && prev[i] == (g.0, ColumnTypeOf(g.1));
          assert e[i] == e[..|prev|][i];
          assert g in fields;
        } else {
          assert f in fields;
        }
      }
    }
  }

  /**
   * One step of streaming evolution only appends (at most the field's own column), keeps
   * names unique, keeps every known name known and makes the field's name known.
   */
  lemma AddIfMissingProperties(cols: seq<Column>, f: Field)
    ensures var e := AddIfMissing(cols, f);
      |cols| <= |e| <= |cols| + 1 && e[..|cols|] == cols
      && (|e| > |cols| ==> e[|cols|] == (f.0, ColumnTypeOf(f.1)))
      && (UniqueNames(cols) ==> UniqueNames(e))
      && TypeOf(e, f.0).Some?
      && (forall name :: TypeOf(cols, name).Some? ==> TypeOf(e, name).Some?)
  {
    var e := AddIfMissing(cols, f);
    var more := e[|cols|..];
    assert e == cols + more;
    forall name | TypeOf(cols, name).Some?
      ensures TypeOf(e, name).Some?
    {
      TypeOfAppend(cols, more, name);
    }
    TypeOfAppend(cols, more, f.0);
    if |more| == 1 {
      assert TypeOf(more, f.0).Some?;
      if UniqueNames(cols) {
        forall j | 0 <= j < |cols|
          ensures cols[j].0 != more[0].0
        {
          assert cols[j] in cols;
        }
      }
    }
  }

  /**
   * Streaming has no redirect: a string arriving under a numeric column is stored under
   * `count_text`, which streaming never creates, so no column receives it.
   */
  lemma StreamRetypedValueHasNoColumn(text: AttributeValue)
    requires text.b.None? && text.boolean.None? && text.bs.None? && text.l.None? && text.m.None?
    requires text.n.None? && text.ns.None? && text.s == Some("many")
    ensures var cols := EvolveNew([("count", Numeric)], [("count", text)]);
      cols == [("count", Numeric)]
      && Fits(cols, [("count", text)])
      && RowValues(cols, [("count", text)]).Keys == {"count_text"}
      && TypeOf(cols, "count_text").None?
  {
    assert Has(text, S);
    var cols := [("count", Numeric)];
    assert [("count", text)][..0] == [];
    assert RowKey(cols, ("count", text)) == "count_text";
  }

  // ---------------------------------------------------------------------------------------
  // Key values of removed items
  // ---------------------------------------------------------------------------------------

  /**
   * The datum the REMOVE path stores: the whole converted value is passed where a plain
   * datum is expected, so it is nested inside a value of the key column's type.
   */
  function KeyDatum(av: AttributeValue): Datum
  {
    match ColumnValueOf(av)
    case Some(v) => Nested(v)
    case None => Null
  }

  /** Every primary-key name is a column. */
  predicate KeyColumns(cols: seq<Column>, pk: seq<string>)
  {
    forall k :: k in pk ==> TypeOf(cols, k).Some?
  }

  /** In a valid schema with a primary key, every key name is a column. */
  lemma ValidKeyColumns(schema: TableSchema)
    requires schema.Valid() && schema.primaryKey.Some?
    ensures KeyColumns(Pairs(schema), schema.primaryKey.value)
  {
    forall k | k in schema.primaryKey.value
      ensures TypeOf(Pairs(schema), k).Some?
    {
      PairsAgree(schema, k);
    }
  }

  /** The key values of a REMOVE record: fields outside the key are skipped, the rest stored in order. */
  function KeyValues(cols: seq<Column>, pk: seq<string>, keys: Item): map<string, Value>
    requires KeyColumns(cols, pk)
  {
    if keys == [] then map[]
    else
      var prev := KeyValues(cols, pk, keys[..|keys| - 1]);
      var f := keys[|keys| - 1];
      if f.0 in pk then prev[f.0 := Value(TypeOf(cols, f.0).value, KeyDatum(f.1))] else prev
  }

  /**
   * The key values hold exactly the key names the record mentions, each typed as its key
   * column and wrapping the converted value of a field so named (the last one).
   */
  lemma {:induction false} KeyValuesMeaning(cols: seq<Column>, pk: seq<string>, keys: Item)
    requires KeyColumns(cols, pk)
    ensures var kv := KeyValues(cols, pk, keys);
      forall name :: name in kv <==> name in pk && exists k :: 0 <= k < |keys| && keys[k].0 == name
    ensures var kv := KeyValues(cols, pk, keys);
      forall name :: name in kv ==>
        exists k :: 0 <= k < |keys| && keys[k].0 == name && kv[name] == Value(TypeOf(cols, name).value, KeyDatum(keys[k].1))
  {
    if keys != [] {
      var init := keys[..|keys| - 1];
      assert forall k :: 0 <= k < |init| ==> init[k] == keys[k];
      KeyValuesMeaning(cols, pk, init);
      var kv := KeyValues(cols, pk, keys);
      var last := |keys| - 1;
      forall name | name in kv
        ensures exists k :: 0 <= k < |keys| && keys[k].0 == name && kv[name] == Value(TypeOf(cols, name).value, KeyDatum(keys[k].1))
      {
        if keys[last].0 == name && name in pk {
          assert kv[name] == Value(TypeOf(cols, name).value, KeyDatum(keys[last].1));
        }
      }
    }
  }

  /**
   * A key value renders exactly when its column is not bytea and the field carries a
   * shape, and then it renders as the converted value itself does.
   */
  lemma KeyValueRendering(t: ColumnType, av: AttributeValue)
    ensures Renderable(Value(t, KeyDatum(av))) <==> t != Bytea && HasShape(av)
    ensures Renderable(Value(t, KeyDatum(av))) ==> ToString(Value(t, KeyDatum(av))) == ToString(ColumnValueOf(av).value)
  {
  }
}
