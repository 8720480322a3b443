/** TableColumnType: the closed set of PostgreSQL column types the replicator creates. */
module ColumnTypes {
  import opened Wrappers

  /** The enum variants, named after the Java constants text, numeric, bytea, jsonb and bool. */
  datatype ColumnType = Text | Numeric | Bytea | Jsonb | Bool

  /** `TableColumnType.values()`: every variant, in declaration order. */
  const Values: seq<ColumnType> := [Text, Numeric, Bytea, Jsonb, Bool]

  /** The canonical PostgreSQL type name carried by each variant; `toString` returns it. */
  function Name(t: ColumnType): string
  {
    match t
    case Text => "text"
    case Numeric => "numeric"
    case Bytea => "bytea"
    case Jsonb => "jsonb"
    case Bool => "boolean"
  }

  /** There are exactly five variants, `Values` lists each once, and their names are pairwise distinct. */
  lemma VariantsAndNames()
    ensures |Values| == 5
    ensures forall t :: t in Values
    ensures forall i, j :: 0 <= i < j < |Values| ==> Name(Values[i]) != Name(Values[j])
    ensures [Name(Text), Name(Numeric), Name(Bytea), Name(Jsonb), Name(Bool)]
         == ["text", "numeric", "bytea", "jsonb", "boolean"]
  {
    forall t ensures t in Values {
      EveryVariantListed(t);
    }
  }

  /** Each variant sits at a known position of `Values`. */
  lemma EveryVariantListed(t: ColumnType)
    ensures exists k :: 0 <= k < |Values| && Values[k] == t
  {
    match t
    case Text => assert Values[0] == t;
    case Numeric => assert Values[1] == t;
    case Bytea => assert Values[2] == t;
    case Jsonb => assert Values[3] == t;
    case Bool => assert Values[4] == t;
  }

  /**
   * `fromName`: the first variant of `Values` whose name is `name`, or text when none is.
   * The first postcondition is the round trip `fromName(t.toString()) == t`.
   */
  method FromName(name: string) returns (t: ColumnType)
    ensures forall u :: Name(u) == name ==> t == u
    ensures (forall u :: Name(u) != name) ==> t == Text
  {
    for i := 0 to |Values|
      invariant forall k :: 0 <= k < i ==> Name(Values[k]) != name
    {
      if Name(Values[i]) == name {
        return Values[i];
      }
    }
    forall u ensures Name(u) != name {
      EveryVariantListed(u);
    }
    return Text;
  }

  /** How a reader of the DDL recognises a type name: the variant so named, if any. */
  function TypeNamed(name: string): (r: Option<ColumnType>)
    ensures forall t :: Name(t) == name <==> r == Some(t)
  {
    if name == "text" then Some(Text)
    else if name == "numeric" then Some(Numeric)
    else if name == "bytea" then Some(Bytea)
    else if name == "jsonb" then Some(Jsonb)
    else if name == "boolean" then Some(Bool)
    else None
  }

  /** Every type name is a single lower-case word. */
  lemma NameIsWord(t: ColumnType)
    ensures |Name(t)| > 0
    ensures forall i :: 0 <= i < |Name(t)| ==> 'a' <= Name(t)[i] <= 'z'
  {
  }
}
