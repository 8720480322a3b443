/**
 * TableColumnValue and ByteArrayColumnValue: a typed datum and its three text renderings,
 * the COPY text-format field, the SQL string constant and the bytea hex form.
 */
module ColumnValues {
  import opened Wrappers
  import opened ColumnTypes
  import opened Text

  /** A Java `byte`: signed, from -128 to 127. */
  type JByte = b: int | -128 <= b < 128

  /**
   * The Java `Object datum` of a value, by the runtime classes the program stores there:
   * a `byte[]`, a `String` (text, numeric digits or JSON text), a `Boolean`, another
   * TableColumnValue (stored through `setValue(String, Object)`), or null.
   */
  datatype Datum = Bytes(bytes: seq<JByte>) | Chars(chars: string) | Boolean(flag: bool) | Nested(inner: Value) | Null

  /** TableColumnValue: its final `type` and `datum` fields. */
  datatype Value = Value(columnType: ColumnType, datum: Datum)

  const Backspace: char := '\U{8}'
  const FormFeed: char := '\U{C}'
  const VerticalTab: char := '\U{B}'

  /**
   * The values `toString` can render: a bytea value must hold a `byte[]` (otherwise the cast
   * throws ClassCastException), any other value a non-null datum whose own `toString` is
   * defined; a `byte[]` under another type would print an identity hash and is excluded.
   */
  predicate Renderable(v: Value)
  {
    match v.datum
    case Bytes(_) => v.columnType == Bytea
    case Chars(_) => v.columnType != Bytea
    case Boolean(_) => v.columnType != Bytea
    case Nested(inner) => v.columnType != Bytea && Renderable(inner)
    case Null => false
  }

  // ---------------------------------------------------------------------------------------
  // bytea hex output
  // ---------------------------------------------------------------------------------------

  const HexArray: string := "0123456789ABCDEF"

  /** `bytes[j] & 0xFF`: the unsigned value of a signed byte. */
  function Unsigned(b: JByte): (v: nat)
    ensures v < 256
    ensures v % 256 == b % 256
  {
    if b < 0 then b + 256 else b
  }

  /** Two upper-case hex digits per byte, the high nibble (`v >>> 4`) before the low one (`v & 0x0F`). */
  function Hex(bytes: seq<JByte>): (r: string)
    ensures |r| == 2 * |bytes|
  {
    if bytes == [] then ""
    else [HexArray[Unsigned(bytes[0]) / 16], HexArray[Unsigned(bytes[0]) % 16]] + Hex(bytes[1..])
  }

  /** The hex form holds upper-case hex digits only. */
  lemma {:induction false} HexDigitsOnly(bytes: seq<JByte>)
    ensures forall k :: 0 <= k < |Hex(bytes)| ==> Hex(bytes)[k] in HexArray
  {
    if bytes != [] {
      HexDigitsOnly(bytes[1..]);
      var h := Hex(bytes);
      forall k | 0 <= k < |h|
        ensures h[k] in HexArray
      {
        if k >= 2 {
          assert h[k] == Hex(bytes[1..])[k - 2];
        }
      }
    }
  }

  /** Position 2j holds the high nibble of byte j and position 2j+1 its low nibble. */
  lemma {:induction false} HexAt(bytes: seq<JByte>, j: nat)
    requires j < |bytes|
    ensures Hex(bytes)[2 * j] == HexArray[Unsigned(bytes[j]) / 16]
    ensures Hex(bytes)[2 * j + 1] == HexArray[Unsigned(bytes[j]) % 16]
  {
    if j > 0 {
      HexAt(bytes[1..], j - 1);
    }
  }

  /** `byteArrayToHex`: fills a `char[2n]` by index. */
  method ByteArrayToHex(bytes: seq<JByte>) returns (r: string)
    ensures r == Hex(bytes)
  {
    var hexChars := new char[|bytes| * 2];
    ghost var hex := Hex(bytes);
    for j := 0 to |bytes|
      invariant forall k :: 0 <= k < 2 * j ==> hexChars[k] == hex[k]
    {
      HexAt(bytes, j);
      var v := Unsigned(bytes[j]);
      hexChars[j * 2] := HexArray[v / 16];
      hexChars[j * 2 + 1] := HexArray[v % 16];
    }
    r := hexChars[..];
  }

  /** The value of an upper-case hex digit. */
  function HexDigitValue(c: char): Option<nat>
  {
    if '0' <= c <= '9' then Some(c as int - '0' as int)
    else if 'A' <= c <= 'F' then Some(c as int - 'A' as int + 10)
    else None
  }

  lemma HexDigitValueOf(d: nat)
    requires d < 16
    ensures HexDigitValue(HexArray[d]) == Some(d)
  {
  }

  /** The signed byte whose unsigned value is `v`. */
  function Signed(v: nat): JByte
    requires v < 256
  {
    if v >= 128 then v - 256 else v
  }

  /** Reads pairs of upper-case hex digits back into bytes, the way bytea hex input does. */
  function HexDecode(s: string): Option<seq<JByte>>
  {
    if s == [] then Some([])
    else if |s| == 1 then None
    else
      match (HexDigitValue(s[0]), HexDigitValue(s[1]), HexDecode(s[2..]))
      case (Some(hi), Some(lo), Some(rest)) => Some([Signed(16 * hi + lo)] + rest)
      case _ => None
  }

  /** The high and low nibble of a byte give the byte back. */
  lemma NibblesRejoin(b: JByte)
    ensures Signed(16 * (Unsigned(b) / 16) + Unsigned(b) % 16) == b
  {
  }

  /** Hex output is decodable, and decoding gives the original bytes back. */
  lemma {:induction false} HexRoundTrip(bytes: seq<JByte>)
    ensures HexDecode(Hex(bytes)) == Some(bytes)
  {
    if bytes != [] {
      var v := Unsigned(bytes[0]);
      var h := Hex(bytes);
      var rest := Hex(bytes[1..]);
      assert h == [HexArray[v / 16], HexArray[v % 16]] + rest;
      assert h[2..] == rest;
      HexDigitValueOf(v / 16);
      HexDigitValueOf(v % 16);
      HexRoundTrip(bytes[1..]);
      NibblesRejoin(bytes[0]);
      assert [bytes[0]] + bytes[1..] == bytes;
    }
  }

  // ---------------------------------------------------------------------------------------
  // toString
  // ---------------------------------------------------------------------------------------

  /**
   * `toString`: `\x` and the hex digits for bytea, the datum's own string otherwise.
   * The bytea form is decodable back to the stored bytes.
   */
  function ToString(v: Value): (r: string)
    requires Renderable(v)
    ensures v.columnType == Bytea ==>
      |r| == 2 + 2 * |v.datum.bytes| && r[..2] == "\\x" && HexDecode(r[2..]) == Some(v.datum.bytes)
  {
    if v.columnType == Bytea then
      HexRoundTrip(v.datum.bytes);
      assert ("\\x" + Hex(v.datum.bytes))[2..] == Hex(v.datum.bytes);
      "\\x" + Hex(v.datum.bytes)
    else DatumString(v.datum)
  }

  /** `datum.toString()` for the datum classes a non-bytea value holds. */
  function DatumString(d: Datum): string
    requires d.Chars? || d.Boolean? || (d.Nested? && Renderable(d.inner))
  {
    match d
    case Chars(s) => s
    case Boolean(f) => if f then "true" else "false"
    case Nested(inner) => ToString(inner)
  }

  /** ByteArrayColumnValue's constructor: a value of type bytea over the given bytes. */
  function ByteArrayValue(bytes: seq<JByte>): (v: Value)
    ensures v.columnType == Bytea && Renderable(v)
    ensures ToString(v) == "\\x" + Hex(bytes)
  {
    Value(Bytea, Bytes(bytes))
  }

  // ---------------------------------------------------------------------------------------
  // COPY text format
  // ---------------------------------------------------------------------------------------

  /** The COPY text-format form of one character. */
  function CopyEscapeChar(c: char): string
  {
    if c == Backspace then "\\b"
    else if c == FormFeed then "\\f"
    else if c == '\n' then "\\n"
    else if c == '\r' then "\\r"
    else if c == '\t' then "\\t"
    else if c == '\\' then "\\\\"
    else [c]
  }

  /**
   * Every character escaped in order. The result holds no raw tab, newline, carriage return,
   * backspace or form feed, so it cannot break a COPY row or column apart.
   */
  function CopyEscape(s: string): (r: string)
    ensures '\t' !in r && '\n' !in r && '\r' !in r && Backspace !in r && FormFeed !in r
    ensures |r| >= |s|
  {
    if s == [] then "" else CopyEscapeChar(s[0]) + CopyEscape(s[1..])
  }

  lemma {:induction false} CopyEscapeAppend(a: string, b: string)
    ensures CopyEscape(a + b) == CopyEscape(a) + CopyEscape(b)
  {
    if a == [] {
      assert a + b == b;
    } else {
      assert (a + b)[0] == a[0];
      assert (a + b)[1..] == a[1..] + b;
      CopyEscapeAppend(a[1..], b);
    }
  }

  /** What a COPY reader makes of the character after a backslash. */
  function CopyUnescapeChar(c: char): char
  {
    if c == 'b' then Backspace
    else if c == 'f' then FormFeed
    else if c == 'n' then '\n'
    else if c == 'r' then '\r'
    else if c == 't' then '\t'
    else if c == 'v' then VerticalTab
    else c
  }

  /** A COPY text-format reader for one field's backslash escapes. */
  function CopyUnescape(s: string): string
    decreases |s|
  {
    if s == [] then ""
    else if s[0] == '\\' && |s| >= 2 then [CopyUnescapeChar(s[1])] + CopyUnescape(s[2..])
    else [s[0]] + CopyUnescape(s[1..])
  }

  lemma CopyUnescapeStep(c: char, rest: string)
    ensures CopyUnescape(CopyEscapeChar(c) + rest) == [c] + CopyUnescape(rest)
  {
    var e := CopyEscapeChar(c);
    if |e| == 2 {
      assert (e + rest)[0] == '\\' && (e + rest)[1] == e[1];
      assert (e + rest)[2..] == rest;
    } else {
      assert (e + rest)[0] == c && (e + rest)[1..] == rest;
    }
  }

  /** Decoding the escapes of `toCopyValue` gives back `toString()` exactly. */
  lemma {:induction false} CopyRoundTrip(s: string)
    ensures CopyUnescape(CopyEscape(s)) == s
  {
    if s != [] {
      CopyUnescapeStep(s[0], CopyEscape(s[1..]));
      CopyRoundTrip(s[1..]);
      assert [s[0]] + s[1..] == s;
    }
  }

  /** An escaped field never reads as the COPY null marker `\N`. */
  lemma CopyEscapeIsNotNullMarker(s: string)
    ensures CopyEscape(s) != "\\N"
  {
    if s != [] {
      var r := CopyEscape(s);
      assert r == CopyEscapeChar(s[0]) + CopyEscape(s[1..]);
      if |r| == 2 && r[0] == '\\' {
        assert CopyEscapeChar(s[0])[0] == '\\';
        assert r[1] == CopyEscapeChar(s[0])[1];
      }
    }
  }

  /** `toCopyValue`: escapes `toString()` one character at a time into a StringBuilder. */
  method ToCopyValue(v: Value) returns (r: string)
    requires Renderable(v)
    ensures r == CopyEscape(ToString(v))
  {
    var s := ToString(v);
    var sb := "";
    for i := 0 to |s|
      invariant sb == CopyEscape(s[..i])
    {
      var ch := s[i];
      if ch == Backspace {
        sb := sb + "\\b";
      } else if ch == FormFeed {
        sb := sb + "\\f";
      } else if ch == '\n' {
        sb := sb + "\\n";
      } else if ch == '\r' {
        sb := sb + "\\r";
      } else if ch == '\t' {
        sb := sb + "\\t";
      } else if ch == '\\' {
        sb := sb + "\\\\";
      } else {
        sb := sb + [ch];
      }
      assert s[..i + 1] == s[..i] + [ch];
      CopyEscapeAppend(s[..i], [ch]);
    }
    assert s[..|s|] == s;
    r := sb;
  }

  // ---------------------------------------------------------------------------------------
  // SQL string constants
  // ---------------------------------------------------------------------------------------

  /** The characters written as a backslash escape inside a string constant; each forces the `E` prefix. */
  predicate EscapedInLiteral(c: char)
  {
    c == Backspace || c == FormFeed || c == '\n' || c == '\r' || c == '\t' || c == '\\'
  }

  /** One character inside the quotes: backslash escapes, a doubled quote, or the character itself. */
  function LiteralChar(c: char): string
  {
    if c == Backspace then "\\b"
    else if c == FormFeed then "\\f"
    else if c == '\n' then "\\n"
    else if c == '\r' then "\\r"
    else if c == '\t' then "\\t"
    else if c == '\'' then "''"
    else if c == '\\' then "\\\\"
    else [c]
  }

  function LiteralBody(s: string): string
  {
    if s == [] then "" else LiteralChar(s[0]) + LiteralBody(s[1..])
  }

  lemma {:induction false} LiteralBodyAppend(a: string, b: string)
    ensures LiteralBody(a + b) == LiteralBody(a) + LiteralBody(b)
  {
    if a == [] {
      assert a + b == b;
    } else {
      assert (a + b)[0] == a[0];
      assert (a + b)[1..] == a[1..] + b;
      LiteralBodyAppend(a[1..], b);
    }
  }

  /** Some character of `s` is written as a backslash escape. */
  predicate NeedsEscapePrefix(s: string)
  {
    exists i :: 0 <= i < |s| && EscapedInLiteral(s[i])
  }

  lemma NeedsEscapePrefixSnoc(s: string, c: char)
    ensures NeedsEscapePrefix(s + [c]) <==> NeedsEscapePrefix(s) || EscapedInLiteral(c)
  {
    if NeedsEscapePrefix(s) {
      var i :| 0 <= i < |s| && EscapedInLiteral(s[i]);
      assert (s + [c])[i] == s[i];
    }
    if EscapedInLiteral(c) {
      assert (s + [c])[|s|] == c;
    }
    if NeedsEscapePrefix(s + [c]) {
      var i :| 0 <= i < |s + [c]| && EscapedInLiteral((s + [c])[i]);
      if i < |s| {
        assert s[i] == (s + [c])[i];
      }
    }
  }

  /**
   * A string constant for `s`: in single quotes, quotes doubled, control characters and
   * backslash escaped, and the `E` prefix exactly when some backslash escape was written.
   * A quote alone does not set the prefix.
   */
  function QuoteLiteral(s: string): (r: string)
    ensures |r| >= 2 && r[|r| - 1] == '\''
    ensures r[0] == 'E' <==> NeedsEscapePrefix(s)
  {
    (if NeedsEscapePrefix(s) then "E" else "") + "'" + LiteralBody(s) + "'"
  }

  /** `toQuotedString`: bytea is quoted as is; every other type goes through `QuoteLiteral`. */
  function QuotedString(v: Value): string
    requires Renderable(v)
  {
    if v.columnType == Bytea then "'" + ToString(v) + "'" else QuoteLiteral(ToString(v))
  }

  /** What one round of the `toQuotedString` loop adds to the body and to the prefix flag. */
  lemma QuoteStep(s: string, i: nat)
    requires i < |s|
    ensures LiteralBody(s[..i + 1]) == LiteralBody(s[..i]) + LiteralChar(s[i])
    ensures NeedsEscapePrefix(s[..i + 1]) <==> NeedsEscapePrefix(s[..i]) || EscapedInLiteral(s[i])
  {
    assert s[..i + 1] == s[..i] + [s[i]];
    LiteralBodyAppend(s[..i], [s[i]]);
    NeedsEscapePrefixSnoc(s[..i], s[i]);
  }

  /** One round of the `toQuotedString` loop: appends the escaped character and says whether it was a backslash escape. */
  method AppendLiteralChar(sb: string, ch: char) returns (r: string, escaped: bool)
    ensures r == sb + LiteralChar(ch)
    ensures escaped == EscapedInLiteral(ch)
  {
    escaped := false;
    if ch == Backspace {
      r := sb + "\\b";
      escaped := true;
    } else if ch == FormFeed {
      r := sb + "\\f";
      escaped := true;
    } else if ch == '\n' {
      r := sb + "\\n";
      escaped := true;
    } else if ch == '\r' {
      r := sb + "\\r";
      escaped := true;
    } else if ch == '\t' {
      r := sb + "\\t";
      escaped := true;
    } else if ch == '\'' {
      r := sb + "''";
    } else if ch == '\\' {
      r := sb + "\\\\";
      escaped := true;
    } else {
      r := sb + [ch];
    }
  }

  /** `toQuotedString`: escapes `toString()` into a StringBuilder and tracks the `E` prefix in a flag. */
  method ToQuotedString(v: Value) returns (r: string)
    requires Renderable(v)
    ensures r == QuotedString(v)
  {
    if v.columnType == Bytea {
      return "'" + ToString(v) + "'";
    }
    var sb := "'";
    var s := ToString(v);
    var escapePrefix := false;
    for i := 0 to |s|
      invariant sb == "'" + LiteralBody(s[..i])
      invariant escapePrefix == NeedsEscapePrefix(s[..i])
    {
      QuoteStep(s, i);
      var escaped;
      sb, escaped := AppendLiteralChar(sb, s[i]);
      AppendAssoc("'", LiteralBody(s[..i]), LiteralChar(s[i]));
      escapePrefix := escapePrefix || escaped;
    }
    assert s[..|s|] == s;
    sb := sb + "'";
    var escapedString := sb;
    if escapePrefix {
      escapedString := "E" + escapedString;
    }
    r := escapedString;
  }

  /** The body of a standard string constant: `''` stands for one quote, every other character for itself. */
  function DecodeStandardBody(b: string): Option<string>
    decreases |b|
  {
    if b == [] then Some("")
    else if b[0] == '\'' then (if |b| >= 2 && b[1] == '\'' then Prepend('\'', DecodeStandardBody(b[2..])) else None)
    else Prepend(b[0], DecodeStandardBody(b[1..]))
  }

  /** The character a backslash escape stands for in an `E'...'` constant (octal, hex and Unicode escapes are not read). */
  function EscapeValue(c: char): char
  {
    if c == 'b' then Backspace
    else if c == 'f' then FormFeed
    else if c == 'n' then '\n'
    else if c == 'r' then '\r'
    else if c == 't' then '\t'
    else c
  }

  /** The body of an escape string constant: `''` and backslash escapes. */
  function DecodeEscapeBody(b: string): Option<string>
    decreases |b|
  {
    if b == [] then Some("")
    else if b[0] == '\'' then (if |b| >= 2 && b[1] == '\'' then Prepend('\'', DecodeEscapeBody(b[2..])) else None)
    else if b[0] == '\\' then (if |b| >= 2 then Prepend(EscapeValue(b[1]), DecodeEscapeBody(b[2..])) else None)
    else Prepend(b[0], DecodeEscapeBody(b[1..]))
  }

  /** How the server reads a string constant `'...'` or `E'...'`. */
  function UnquoteLiteral(r: string): Option<string>
  {
    if |r| >= 3 && r[0] == 'E' && r[1] == '\'' && r[|r| - 1] == '\'' then DecodeEscapeBody(r[2..|r| - 1])
    else if |r| >= 2 && r[0] == '\'' && r[|r| - 1] == '\'' then DecodeStandardBody(r[1..|r| - 1])
    else None
  }

  lemma {:induction false} DecodeEscapeBodyOf(s: string)
    ensures DecodeEscapeBody(LiteralBody(s)) == Some(s)
  {
    if s != [] {
      DecodeEscapeBodyOf(s[1..]);
      DecodeEscapeChar(s[0], LiteralBody(s[1..]));
      assert [s[0]] + s[1..] == s;
    }
  }

  /** Reading an escape string body undoes `LiteralChar` one character at a time. */
  lemma DecodeEscapeChar(c: char, rest: string)
    ensures DecodeEscapeBody(LiteralChar(c) + rest) == Prepend(c, DecodeEscapeBody(rest))
  {
    var e := LiteralChar(c);
    if |e| == 2 {
      assert (e + rest)[0] == e[0] && (e + rest)[1] == e[1];
      assert (e + rest)[2..] == rest;
    } else {
      assert (e + rest)[0] == c && (e + rest)[1..] == rest;
    }
  }

  lemma {:induction false} DecodeStandardBodyOf(s: string)
    requires !NeedsEscapePrefix(s)
    ensures DecodeStandardBody(LiteralBody(s)) == Some(s)
  {
    if s != [] {
      assert !EscapedInLiteral(s[0]);
      assert !NeedsEscapePrefix(s[1..]) by {
        forall i | 0 <= i < |s[1..]| ensures !EscapedInLiteral(s[1..][i]) {
          assert s[1..][i] == s[i + 1];
        }
      }
      var c, rest := s[0], LiteralBody(s[1..]);
      var e := LiteralChar(c);
      DecodeStandardBodyOf(s[1..]);
      if |e| == 2 {
        assert (e + rest)[0] == e[0] && (e + rest)[1] == e[1];
        assert (e + rest)[2..] == rest;
      } else {
        assert (e + rest)[0] == c && (e + rest)[1..] == rest;
      }
      assert [s[0]] + s[1..] == s;
    }
  }

  lemma {:induction false} DecodeStandardBodyPlain(s: string)
    requires '\'' !in s
    ensures DecodeStandardBody(s) == Some(s)
  {
    if s != [] {
      DecodeStandardBodyPlain(s[1..]);
      assert [s[0]] + s[1..] == s;
    }
  }

  /** The server reads `QuoteLiteral(s)` back as `s`, with or without the `E` prefix. */
  lemma QuoteLiteralRoundTrip(s: string)
    ensures UnquoteLiteral(QuoteLiteral(s)) == Some(s)
  {
    var r := QuoteLiteral(s);
    var body := LiteralBody(s);
    if NeedsEscapePrefix(s) {
      assert r[2..|r| - 1] == body;
      DecodeEscapeBodyOf(s);
    } else {
      assert r[1..|r| - 1] == body;
      DecodeStandardBodyOf(s);
    }
  }

  /** `toQuotedString` is read back by the server as `toString()`, for every type including bytea. */
  lemma QuotedStringRoundTrip(v: Value)
    requires Renderable(v)
    ensures UnquoteLiteral(QuotedString(v)) == Some(ToString(v))
  {
    var s := ToString(v);
    if v.columnType == Bytea {
      var r := "'" + s + "'";
      assert r[1..|r| - 1] == s;
      assert r[0] != 'E';
      assert '\'' !in s by {
        var hex := Hex(v.datum.bytes);
        HexDigitsOnly(v.datum.bytes);
        assert '\'' !in hex;
        assert s == "\\x" + hex;
      }
      DecodeStandardBodyPlain(s);
    } else {
      QuoteLiteralRoundTrip(s);
    }
  }
}
