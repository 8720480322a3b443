/**
 * HashedMultiEmitter: spreads the writes of a table over a pool of emitters. Schema
 * changes, bulk loads and the lookup of a schema go to the first emitter; an upsert or a
 * delete goes to the emitter picked by hashing the text of its distribution value with
 * Java's `String.hashCode`, so that all writes of one key reach one emitter, in order.
 *
 * The read-write lock and the `synchronized` blocks only order concurrent callers and are
 * not modelled; every emitter of the pool is a RecordingEmitter.
 */
module Routing {
  import opened Wrappers
  import opened JavaInts
  import opened ColumnValues
  import opened Schema
  import opened Rows
  import opened Emitters
  import opened Text
  import opened ColumnTypes
  import Dynamo
  import Replication

  // ---------------------------------------------------------------------------------------
  // String.hashCode
  // ---------------------------------------------------------------------------------------

  /** The UTF-16 code units Java stores for one character: one below 0x10000, else a surrogate pair. */
  function CharUnits(c: char): (r: seq<int>)
    ensures 1 <= |r| <= 2 && forall k :: 0 <= k < |r| ==> 0 <= r[k] < 0x1_0000
    ensures |r| == 1 <==> c as int < 0x1_0000
    ensures |r| == 1 ==> r[0] == c as int
    ensures |r| == 2 ==>
      (0xD800 <= r[0] < 0xDC00 <= r[1] < 0xE000
       && 0x1_0000 + (r[0] - 0xD800) * 0x400 + (r[1] - 0xDC00) == c as int)
  {
    var v := c as int;
    if v < 0x1_0000 then [v]
    else [0xD800 + (v - 0x1_0000) / 0x400, 0xDC00 + (v - 0x1_0000) % 0x400]
  }

  /** The UTF-16 code units of a string, character after character. */
  function Units(s: string): seq<int>
  {
    if s == [] then [] else Units(s[..|s| - 1]) + CharUnits(s[|s| - 1])
  }

  /** A string of characters below 0x10000 has one code unit per character, its code. */
  lemma {:induction false} UnitsOfBasicPlane(s: string)
    requires forall k :: 0 <= k < |s| ==> s[k] as int < 0x1_0000
    ensures |Units(s)| == |s| && forall k :: 0 <= k < |s| ==> Units(s)[k] == s[k] as int
  {
    if s != [] {
      var init := s[..|s| - 1];
      assert forall k :: 0 <= k < |init| ==> init[k] == s[k];
      UnitsOfBasicPlane(init);
    }
  }

  /** `hashCode` of a run of code units: `h = 31 * h + unit` for each unit, in `int` arithmetic. */
  function UnitsHash(units: seq<int>): (h: int)
    ensures IsInt(h)
  {
    if units == [] then 0 else Wrap32(31 * UnitsHash(units[..|units| - 1]) + units[|units| - 1])
  }

  /** The polynomial `hashCode` is documented as: the sum of `unit[i] * 31^(n-1-i)`, without overflow. */
  function Polynomial(units: seq<int>): int
  {
    if units == [] then 0 else 31 * Polynomial(units[..|units| - 1]) + units[|units| - 1]
  }

  /** The wrapped hash is the documented polynomial reduced to an `int`. */
  lemma {:induction false} UnitsHashIsPolynomial(units: seq<int>)
    ensures UnitsHash(units) == Wrap32(Polynomial(units))
    ensures (Polynomial(units) - UnitsHash(units)) % Two32 == 0
  {
    if units != [] {
      var init := units[..|units| - 1];
      var last := units[|units| - 1];
      UnitsHashIsPolynomial(init);
      var h := UnitsHash(init);
      var p := Polynomial(init);
      var k := (p - h) / Two32;
      assert p - h == k * Two32;
      assert (31 * p + last) - (31 * h + last) == (31 * k) * Two32;
      MultipleMod((31 * p + last) - (31 * h + last), 31 * k, Two32);
      WrapCongruent(31 * p + last, 31 * h + last);
    }
  }

  /** `String.hashCode`. */
  function HashCode(s: string): (h: int)
    ensures IsInt(h)
  {
    UnitsHash(Units(s))
  }

  // ---------------------------------------------------------------------------------------
  // The emitter index
  // ---------------------------------------------------------------------------------------

  /** `Math.abs(value.hashCode()) % n`, the index `upsert` and `delete` compute for a pool of `n`. */
  function EmitterIndex(value: string, n: int): int
    requires n > 0
  {
    Rem(Abs32(HashCode(value)), n)
  }

  /**
   * The index is below the pool size. It is negative only when the hash is the least
   * `int`, whose absolute value stays negative, and 2^31 is not a multiple of the size;
   * otherwise it is the absolute hash modulo the size.
   */
  lemma EmitterIndexRange(value: string, n: int)
    requires n > 0
    ensures -n < EmitterIndex(value, n) < n
    ensures EmitterIndex(value, n) < 0 <==> HashCode(value) == IntMin && 0x8000_0000 % n != 0
    ensures HashCode(value) != IntMin ==> EmitterIndex(value, n) == Abs32(HashCode(value)) % n
    ensures HashCode(value) == IntMin ==> EmitterIndex(value, n) == -(0x8000_0000 % n)
  {
  }

  /** A pool of one always picks its only emitter. */
  lemma SingleEmitterIndex(value: string)
    ensures EmitterIndex(value, 1) == 0
  {
  }

  /** The code units of "polygenelubricants". */
  const PolygeneUnits: seq<int> := [112, 111, 108, 121, 103, 101, 110, 101, 108, 117, 98, 114, 105, 99, 97, 110, 116, 115]

  lemma PolygeneUnitsOf()
    ensures Units("polygenelubricants") == PolygeneUnits
  {
    UnitsOfBasicPlane("polygenelubricants");
  }

  /** One step of the polynomial of a run of units whose prefix polynomial is known. */
  lemma PolynomialStep(units: seq<int>, k: nat, unit: int, p: int)
    requires k < |units| && units[k] == unit && Polynomial(units[..k]) == p
    ensures Polynomial(units[..k + 1]) == 31 * p + unit
  {
    assert units[..k + 1][..k] == units[..k];
  }

  /** The polynomial of the units of "polygenelubricants", one unit at a time. */
  lemma PolygenePolynomial(u: seq<int>)
    requires u == PolygeneUnits
    ensures Polynomial(u) == 2608985481173328525761970176
  {
    assert u[..0] == [];
    PolynomialStep(u, 0, 112, 0);
    PolynomialStep(u, 1, 111, 112);
    PolynomialStep(u, 2, 108, 3583);
    PolynomialStep(u, 3, 121, 111181);
    PolynomialStep(u, 4, 103, 3446732);
    PolynomialStep(u, 5, 101, 106848795);
    PolynomialStep(u, 6, 110, 3312312746);
    PolynomialStep(u, 7, 101, 102681695236);
    PolynomialStep(u, 8, 108, 3183132552417);
    PolynomialStep(u, 9, 117, 98677109125035);
    PolynomialStep(u, 10, 98, 3058990382876202);
    PolynomialStep(u, 11, 114, 94828701869162360);
    PolynomialStep(u, 12, 105, 2939689757944033274);
    PolynomialStep(u, 13, 99, 91130382496265031599);
    PolynomialStep(u, 14, 97, 2825041857384215979668);
    PolynomialStep(u, 15, 110, 87576297578910695369805);
    PolynomialStep(u, 16, 116, 2714865224946231556464065);
    PolynomialStep(u, 17, 115, 84160821973333178250386131);
    assert u[..18] == u;
  }

  /** The hash of "polygenelubricants" is the least `int`: its polynomial is 2^31 modulo 2^32. */
  lemma PolygenelubricantsHash()
    ensures HashCode("polygenelubricants") == IntMin
  {
    PolygeneUnitsOf();
    UnitsHashIsPolynomial(PolygeneUnits);
    PolygenePolynomial(PolygeneUnits);
  }

  /**
   * A distribution value can reach a negative index: "polygenelubricants" hashes to the
   * least `int`, so in a pool of three `emitters.get` is asked for index -2 and throws.
   */
  lemma NegativeIndexExample()
    ensures EmitterIndex("polygenelubricants", 3) == -2
  {
    PolygenelubricantsHash();
  }

  // ---------------------------------------------------------------------------------------
  // Routing a write
  // ---------------------------------------------------------------------------------------

  /** What `upsert`, `delete` and the constructor throw instead of reaching an emitter. */
  datatype RoutingError =
    | EmptyPool                        // the constructor's Error for an empty list
    | NullValue(columnName: string)    // no value under the distribution column
    | UnprintableValue(columnName: string) // a value that is not `Renderable`: its `toString` throws or would print an identity hash
    | IndexOutOfBounds(index: int)     // `emitters.get` with a negative index

  /** The name of a schema's distribution column, if it has one. */
  function DistributionName(schema: TableSchema): Option<string>
    reads schema
  {
    if schema.distributionColumn.Some? then Some(schema.distributionColumn.value.name) else None
  }

  /**
   * The index `upsert` and `delete` compute for a pool of `n`: 0 without a distribution
   * column, and otherwise the emitter index of the text of the value stored under it.
   */
  function RouteIndex(distribution: Option<string>, values: map<string, Value>, n: int): (r: Result<int, RoutingError>)
    requires n > 0
    ensures distribution.None? ==> r == Ok(0)
    ensures r.Ok? ==> -n < r.value < n
    ensures r.Err? ==> r.error.NullValue? || r.error.UnprintableValue?
  {
    if distribution.None? then Ok(0)
    else
      var name := distribution.value;
      if name !in values then Err(NullValue(name))
      else if !Renderable(values[name]) then Err(UnprintableValue(name))
      else
        EmitterIndexRange(ToString(values[name]), n);
        Ok(EmitterIndex(ToString(values[name]), n))
  }

  /** Two writes whose distribution values print the same text go to the same emitter. */
  lemma SameTextSameRoute(name: string, values1: map<string, Value>, values2: map<string, Value>, n: int)
    requires n > 0 && name in values1 && name in values2
    requires Renderable(values1[name]) && Renderable(values2[name])
    requires ToString(values1[name]) == ToString(values2[name])
    ensures RouteIndex(Some(name), values1, n) == RouteIndex(Some(name), values2, n)
    ensures RouteIndex(Some(name), values1, n).Ok?
  {
  }

  /**
   * An upsert built from an item and a delete built from a REMOVE record of the same key
   * agree: the row stores the converted value, the key value nests it under the column's
   * (non-bytea) type, and both print the same text, so both pick the same emitter.
   */
  lemma UpsertAndDeleteAgree(name: string, t: ColumnType, av: Dynamo.AttributeValue,
                             rowValues: map<string, Value>, keyValues: map<string, Value>, n: int)
    requires n > 0 && t != Bytea && Dynamo.HasShape(av)
    requires name in rowValues && rowValues[name] == Dynamo.ColumnValueOf(av).value
    requires name in keyValues && keyValues[name] == Value(t, Dynamo.KeyDatum(av))
    ensures RouteIndex(Some(name), rowValues, n).Ok?
    ensures RouteIndex(Some(name), rowValues, n) == RouteIndex(Some(name), keyValues, n)
  {
    Dynamo.KeyValueRendering(t, av);
    SameTextSameRoute(name, rowValues, keyValues, n);
  }

  /**
   * A row built from an item and a key value built from a REMOVE record pick the same emitter
   * when the distribution attribute is stored under its own name and no later field of the
   * item overwrites it.
   */
  lemma ScannedRowAndKeyAgree(cols: seq<Dynamo.Column>, item: Dynamo.Item, k: nat, t: ColumnType,
                              keyValues: map<string, Value>, n: int)
    requires Dynamo.Fits(cols, item) && k < |item| && Dynamo.RowKey(cols, item[k]) == item[k].0
    requires Dynamo.LastUnderKey(cols, item, k)
    requires n > 0 && t != Bytea
    requires item[k].0 in keyValues && keyValues[item[k].0] == Value(t, Dynamo.KeyDatum(item[k].1))
    ensures RouteIndex(Some(item[k].0), Dynamo.RowValues(cols, item), n).Ok?
    ensures RouteIndex(Some(item[k].0), Dynamo.RowValues(cols, item), n) == RouteIndex(Some(item[k].0), keyValues, n)
  {
    Dynamo.RowValuesAt(cols, item, k);
    UpsertAndDeleteAgree(item[k].0, t, item[k].1, Dynamo.RowValues(cols, item), keyValues, n);
  }

  /**
   * A row scanned from a table whose hash key is numeric cannot be routed: the key column
   * was declared bytea, the number was stored under `id_numeric`, and `upsert` finds no
   * value under the distribution column.
   */
  lemma NumericHashKeyIsNotRouted(number: Dynamo.AttributeValue, n: int)
    requires n > 0
    requires number.b.None? && number.boolean.None? && number.bs.None? && number.l.None? && number.m.None?
    requires number.n == Some("7")
    ensures var cols := Dynamo.Evolve([("id", Bytea)], [("id", number)]);
      Dynamo.Fits(cols, [("id", number)])
      && RouteIndex(Some("id"), Dynamo.RowValues(cols, [("id", number)]), n) == Err(NullValue("id"))
  {
    Replication.NumericKeyMissesItsColumn(number);
  }

  /** Closing one emitter `count` times: that many close calls. */
  function Closes(count: nat): (r: seq<Call>)
    ensures |r| == count && forall k :: 0 <= k < count ==> r[k] == Close
  {
    seq(count, k => Close)
  }

  /** HashedMultiEmitter: a non-empty pool of emitters. */
  class HashedMultiEmitter {
    const emitters: seq<RecordingEmitter>

    predicate Valid()
    {
      |emitters| > 0
    }

    /** The constructor, given a non-empty list (see `NewHashedMultiEmitter` for the check). */
    constructor (emitters: seq<RecordingEmitter>)
      requires |emitters| > 0
      ensures this.emitters == emitters && Valid()
    {
      this.emitters := emitters;
    }

    /** `fetchSchema`: asks the first emitter. */
    method FetchSchema(tableName: string) returns (r: Option<TableSchema>)
      requires Valid()
      modifies emitters[0]
      ensures emitters[0].calls == old(emitters[0].calls) + [Call.FetchSchema(tableName)]
      ensures r == if tableName in emitters[0].catalog then Some(emitters[0].catalog[tableName]) else None
    {
      var emitter := emitters[0];
      r := emitter.FetchSchemaOf(tableName);
    }

    /** `createTable`: on the first emitter only. */
    method CreateTable(tableSchema: TableSchema)
      requires Valid()
      modifies emitters[0]
      ensures emitters[0].calls == old(emitters[0].calls) + [Call.CreateTable(tableSchema)]
    {
      var emitter := emitters[0];
      emitter.CreateTableOf(tableSchema);
    }

    /** `createColumn`: on the first emitter only. */
    method CreateColumn(column: TableColumn)
      requires Valid()
      modifies emitters[0]
      ensures emitters[0].calls == old(emitters[0].calls) + [Call.CreateColumn(column)]
    {
      var emitter := emitters[0];
      emitter.CreateColumnOf(column);
    }

    /** `copyFromReader`: the whole load goes to the first emitter, whose row count is returned. */
    method CopyFromReader(tableSchema: TableSchema, input: string) returns (rows: nat)
      requires Valid()
      modifies emitters[0]
      ensures emitters[0].calls == old(emitters[0].calls) + [Call.CopyFromReader(tableSchema, input)]
      ensures rows == Count('\n', input)
    {
      var emitter := emitters[0];
      rows := emitter.CopyFrom(tableSchema, input);
    }

    /**
     * `upsert`: the row goes to the emitter its distribution value picks, and only there;
     * when the value is missing or unprintable, or the index is negative, nothing is sent.
     */
    method Upsert(row: TableRow) returns (r: Outcome<RoutingError>)
      requires Valid()
      modifies emitters
      ensures var route := RouteIndex(DistributionName(row.tableSchema), row.values, |emitters|);
        && (r.Pass? <==> route.Ok? && route.value >= 0)
        && (route.Err? ==> r == Fail(route.error))
        && (route.Ok? && route.value < 0 ==> r == Fail(IndexOutOfBounds(route.value)))
        && (forall k :: 0 <= k < |emitters| ==>
              emitters[k].calls == if r.Pass? && emitters[k] == emitters[route.value]
                                   then old(emitters[k].calls) + [Call.Upsert(row)]
                                   else old(emitters[k].calls))
    {
      var route := RouteIndex(DistributionName(row.tableSchema), row.values, |emitters|);
      if route.Err? {
        return Fail(route.error);
      }
      if route.value < 0 {
        return Fail(IndexOutOfBounds(route.value));
      }
      var emitter := emitters[route.value];
      emitter.UpsertOf(row);
      r := Pass;
    }

    /** `delete`: routed exactly as `upsert` routes a row. */
    method Delete(primaryKeyValue: PrimaryKeyValue) returns (r: Outcome<RoutingError>)
      requires Valid()
      modifies emitters
      ensures var route := RouteIndex(DistributionName(primaryKeyValue.tableSchema), primaryKeyValue.values, |emitters|);
        && (r.Pass? <==> route.Ok? && route.value >= 0)
        && (route.Err? ==> r == Fail(route.error))
        && (route.Ok? && route.value < 0 ==> r == Fail(IndexOutOfBounds(route.value)))
        && (forall k :: 0 <= k < |emitters| ==>
              emitters[k].calls == if r.Pass? && emitters[k] == emitters[route.value]
                                   then old(emitters[k].calls) + [Call.Delete(primaryKeyValue)]
                                   else old(emitters[k].calls))
    {
      var route := RouteIndex(DistributionName(primaryKeyValue.tableSchema), primaryKeyValue.values, |emitters|);
      if route.Err? {
        return Fail(route.error);
      }
      if route.value < 0 {
        return Fail(IndexOutOfBounds(route.value));
      }
      var emitter := emitters[route.value];
      emitter.DeleteOf(primaryKeyValue);
      r := Pass;
    }

    /** `close`: every emitter of the list is closed once per time it appears in it. */
    method Close()
      requires Valid()
      modifies emitters
      ensures forall e :: e in emitters ==> e.calls == old(e.calls) + Closes(multiset(emitters)[e])
    {
      for i := 0 to |emitters|
        invariant forall e :: e in emitters ==> e.calls == old(e.calls) + Closes(multiset(emitters[..i])[e])
      {
        var emitter := emitters[i];
        CloseStep(emitters, i);
        emitter.CloseEmitter();
      }
      assert emitters[..|emitters|] == emitters;
    }
  }

  /** One more emitter of the list closed: its count grows by one, every other count stays. */
  lemma CloseStep(emitters: seq<RecordingEmitter>, i: nat)
    requires i < |emitters|
    ensures multiset(emitters[..i + 1]) == multiset(emitters[..i]) + multiset{emitters[i]}
    ensures Closes(multiset(emitters[..i])[emitters[i]] + 1) == Closes(multiset(emitters[..i])[emitters[i]]) + [Close]
  {
    assert emitters[..i + 1] == emitters[..i] + [emitters[i]];
  }

  /** The pool's constructor: an empty list is refused with the constructor's Error. */
  method NewHashedMultiEmitter(emitters: seq<RecordingEmitter>) returns (r: Result<HashedMultiEmitter, RoutingError>)
    ensures r.Err? <==> emitters == []
    ensures r.Err? ==> r.error == EmptyPool
    ensures r.Ok? ==> fresh(r.value) && r.value.emitters == emitters && r.value.Valid()
  {
    if emitters == [] {
      return Err(EmptyPool);
    }
    var pool := new HashedMultiEmitter(emitters);
    r := Ok(pool);
  }
}
