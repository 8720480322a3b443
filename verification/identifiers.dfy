/**
 * Identifier quoting from TableSchema: an identifier is written in double quotes, with inner
 * double quotes doubled, when it holds a character outside [a-z0-9_] or is a key word
 * (section 4.1.1 "Identifiers and Key Words" of the PostgreSQL documentation).
 * The key word list is a parameter: binary search in the sorted list is membership in the set.
 * The reader below is the lexer's side of the same section: it is what a quoted identifier
 * must read back as, and it shows that the empty name and a bare name starting with a digit
 * do not read back.
 */
module Identifiers {
  import opened Wrappers
  import opened Text

  /** A character an unquoted identifier may hold as is: a lower-case letter, a digit or `_`. */
  predicate IsPlainChar(c: char)
  {
    ('a' <= c <= 'z') || ('0' <= c <= '9') || c == '_'
  }

  /** The identifier must be quoted: some character is not plain, or it is a key word. */
  predicate NeedsQuotes(identifier: string, keywords: set<string>)
  {
    (exists i :: 0 <= i < |identifier| && !IsPlainChar(identifier[i])) || identifier in keywords
  }

  /** ASCII lower-casing of upper-case letters. */
  function LowerCase(s: string): (r: string)
    ensures |r| == |s|
    ensures forall i :: 0 <= i < |s| && !('A' <= s[i] <= 'Z') ==> r[i] == s[i]
  {
    if s == [] then ""
    else [if 'A' <= s[0] <= 'Z' then (s[0] as int + 32) as char else s[0]] + LowerCase(s[1..])
  }

  /** `requiresQuotes`: a character loop that answers true on the first non-plain character, then a key word search. */
  method RequiresQuotes(identifier: string, keywords: set<string>) returns (r: bool)
    ensures r == NeedsQuotes(identifier, keywords)
  {
    for i := 0 to |identifier|
      invariant forall k :: 0 <= k < i ==> IsPlainChar(identifier[k])
    {
      var ch := identifier[i];
      if !(('a' <= ch <= 'z') || ('0' <= ch <= '9') || ch == '_') {
        return true;
      }
    }
    // every character is plain here, so lower-casing leaves the identifier unchanged
    var lowered := LowerCase(identifier);
    assert lowered == identifier;
    r := lowered in keywords;
  }

  /** `identifier.replace("\"", "\"\"")`. */
  function DoubleQuotes(s: string): (r: string)
    ensures |r| >= |s|
  {
    if s == [] then "" else (if s[0] == '"' then "\"\"" else [s[0]]) + DoubleQuotes(s[1..])
  }

  /** `quoteIdentifier` as a value: unchanged exactly when no quoting is needed. */
  function QuotedIdentifier(identifier: string, keywords: set<string>): (r: string)
    ensures r == identifier <==> !NeedsQuotes(identifier, keywords)
    ensures NeedsQuotes(identifier, keywords) ==> |r| >= 2 && r[0] == '"' && r[|r| - 1] == '"'
  {
    if NeedsQuotes(identifier, keywords) then "\"" + DoubleQuotes(identifier) + "\"" else identifier
  }

  /** `quoteIdentifier`. */
  method QuoteIdentifier(identifier: string, keywords: set<string>) returns (r: string)
    ensures r == QuotedIdentifier(identifier, keywords)
  {
    var quote := RequiresQuotes(identifier, keywords);
    if quote {
      r := "\"" + DoubleQuotes(identifier) + "\"";
    } else {
      r := identifier;
    }
  }

  /** Reads the inside of a quoted identifier: `""` stands for one double quote, a lone one is malformed. */
  function UndoubleQuotes(s: string): Option<string>
    decreases |s|
  {
    if s == [] then Some("")
    else if s[0] == '"' then (if |s| >= 2 && s[1] == '"' then Prepend('"', UndoubleQuotes(s[2..])) else None)
    else Prepend(s[0], UndoubleQuotes(s[1..]))
  }

  lemma {:induction false} UndoubleDoubled(s: string)
    ensures UndoubleQuotes(DoubleQuotes(s)) == Some(s)
  {
    if s != [] {
      var rest := DoubleQuotes(s[1..]);
      UndoubleDoubled(s[1..]);
      if s[0] == '"' {
        assert ("\"\"" + rest)[2..] == rest;
      } else {
        assert ([s[0]] + rest)[1..] == rest;
      }
      assert [s[0]] + s[1..] == s;
    }
  }

  /** Quoting is not idempotent: a quoted identifier needs quoting again, and grows. */
  lemma QuoteTwiceDiffers(identifier: string, keywords: set<string>)
    requires NeedsQuotes(identifier, keywords)
    ensures QuotedIdentifier(QuotedIdentifier(identifier, keywords), keywords) != QuotedIdentifier(identifier, keywords)
  {
    var q := QuotedIdentifier(identifier, keywords);
    assert !IsPlainChar(q[0]);
    assert NeedsQuotes(q, keywords);
  }

  /** Each name quoted as `quoteIdentifier` would, in order. */
  function QuotedNames(names: seq<string>, keywords: set<string>): (r: seq<string>)
    ensures |r| == |names|
    ensures forall i :: 0 <= i < |names| ==> r[i] == QuotedIdentifier(names[i], keywords)
  {
    seq(|names|, i requires 0 <= i < |names| => QuotedIdentifier(names[i], keywords))
  }

  /** A character the server's lexer lets start an unquoted identifier: a letter, `_`, or a non-ASCII character. */
  predicate IsIdentStart(c: char)
  {
    ('a' <= c <= 'z') || ('A' <= c <= 'Z') || c == '_' || c as int >= 0x80
  }

  /** A character the lexer lets continue an unquoted identifier: a start character, a digit or `$`. */
  predicate IsIdentChar(c: char)
  {
    IsIdentStart(c) || ('0' <= c <= '9') || c == '$'
  }

  /**
   * A name `quoteIdentifier` writes as a token the lexer reads back as that name: it is not empty,
   * and a bare one does not start with a digit.
   */
  predicate Lexable(name: string, keywords: set<string>)
  {
    name != [] && (NeedsQuotes(name, keywords) || !('0' <= name[0] <= '9'))
  }

  predicate AllLexable(names: seq<string>, keywords: set<string>)
  {
    forall i :: 0 <= i < |names| ==> Lexable(names[i], keywords)
  }

  /** Reads a run of identifier characters off the front of `s`: the run and what follows it. */
  function ReadRun(s: string): (r: (string, string))
    ensures r.0 + r.1 == s
    ensures forall i :: 0 <= i < |r.0| ==> IsIdentChar(r.0[i])
    ensures r.1 == [] || !IsIdentChar(r.1[0])
  {
    if s != [] && IsIdentChar(s[0]) then
      var p := ReadRun(s[1..]);
      assert [s[0]] + (p.0 + p.1) == s;
      ([s[0]] + p.0, p.1)
    else ("", s)
  }

  /** Reads the rest of a quoted identifier after its opening quote, up to and past the closing quote. */
  function ReadQuotedRest(s: string): (r: Option<(string, string)>)
    ensures r.Some? ==> |r.value.1| < |s|
    decreases |s|
  {
    if s == [] then None
    else if s[0] == '"' then
      (if |s| >= 2 && s[1] == '"' then
         match ReadQuotedRest(s[2..])
         case None => None
         case Some(p) => Some(("\"" + p.0, p.1))
       else Some(("", s[1..])))
    else
      match ReadQuotedRest(s[1..])
      case None => None
      case Some(p) => Some(([s[0]] + p.0, p.1))
  }

  /**
   * Reads one identifier token off the front of `s`, as the server's lexer does: a quoted one,
   * which may not be empty, or a run of identifier characters from a start character, folded
   * to lower case. Anything else is not an identifier.
   */
  function ReadIdentifier(s: string): (r: Option<(string, string)>)
    ensures r.Some? ==> r.value.0 != [] && |r.value.1| < |s|
  {
    if s != [] && s[0] == '"' then
      match ReadQuotedRest(s[1..])
      case None => None
      case Some(p) => if p.0 == [] then None else Some(p)
    else if s != [] && IsIdentStart(s[0]) then
      var p := ReadRun(s);
      Some((LowerCase(p.0), p.1))
    else None
  }

  /** How the server reads a whole token as one identifier. */
  function UnquoteIdentifier(token: string): Option<string>
  {
    match ReadIdentifier(token)
    case Some(p) => if p.1 == [] then Some(p.0) else None
    case None => None
  }

  /** Reads identifiers separated by `sep` up to the end of `s`. */
  function ReadIdentifierList(s: string, sep: string): Option<seq<string>>
    requires |sep| > 0
    decreases |s|
  {
    match ReadIdentifier(s)
    case None => None
    case Some(p) =>
      if p.1 == [] then Some([p.0])
      else if |sep| <= |p.1| && p.1[..|sep|] == sep then
        match ReadIdentifierList(p.1[|sep|..], sep)
        case None => None
        case Some(rest) => Some([p.0] + rest)
      else None
  }

  /** A character that ends an unquoted identifier and cannot open a quoted one. */
  predicate EndsIdentifier(t: string)
  {
    t == [] || (!IsIdentChar(t[0]) && t[0] != '"')
  }

  lemma {:induction false} ReadQuotedRestOf(name: string, t: string)
    requires EndsIdentifier(t)
    ensures ReadQuotedRest(DoubleQuotes(name) + "\"" + t) == Some((name, t))
  {
    var s := DoubleQuotes(name) + "\"" + t;
    if name == [] {
      assert s == "\"" + t;
      assert s[1..] == t;
    } else {
      ReadQuotedRestOf(name[1..], t);
      var rest := DoubleQuotes(name[1..]) + "\"" + t;
      if name[0] == '"' {
        assert s == "\"\"" + rest;
        assert s[2..] == rest;
      } else {
        assert s == [name[0]] + rest;
        assert s[1..] == rest;
      }
      assert [name[0]] + name[1..] == name;
    }
  }

  lemma {:induction false} ReadRunOf(name: string, t: string)
    requires forall i :: 0 <= i < |name| ==> IsIdentChar(name[i])
    requires EndsIdentifier(t)
    ensures ReadRun(name + t) == (name, t)
  {
    if name == [] {
      assert name + t == t;
    } else {
      ReadRunOf(name[1..], t);
      assert (name + t)[1..] == name[1..] + t;
      assert [name[0]] + name[1..] == name;
    }
  }

  /** Lower-casing leaves a name without upper-case letters as it is. */
  lemma LowerCasePlain(name: string)
    requires forall i :: 0 <= i < |name| ==> IsPlainChar(name[i])
    ensures LowerCase(name) == name
  {
  }

  /** The lexer reads a quoted lexable identifier back as the original name, whatever follows it. */
  lemma ReadQuotedIdentifier(name: string, keywords: set<string>, t: string)
    requires Lexable(name, keywords)
    requires EndsIdentifier(t)
    ensures ReadIdentifier(QuotedIdentifier(name, keywords) + t) == Some((name, t))
  {
    var q := QuotedIdentifier(name, keywords);
    if NeedsQuotes(name, keywords) {
      var body := DoubleQuotes(name);
      assert q == "\"" + body + "\"";
      assert (q + t)[1..] == body + "\"" + t;
      ReadQuotedRestOf(name, t);
    } else {
      assert q == name;
      assert forall i :: 0 <= i < |name| ==> IsPlainChar(name[i]);
      ReadRunOf(name, t);
      LowerCasePlain(name);
      assert (q + t)[0] == name[0];
    }
  }

  /** Stripping the outer quotes and un-doubling gives back a lexable identifier. */
  lemma QuoteIdentifierRoundTrip(identifier: string, keywords: set<string>)
    requires Lexable(identifier, keywords)
    ensures UnquoteIdentifier(QuotedIdentifier(identifier, keywords)) == Some(identifier)
  {
    var q := QuotedIdentifier(identifier, keywords);
    assert q + "" == q;
    ReadQuotedIdentifier(identifier, keywords, "");
  }

  /** `quoteIdentifier` leaves a name that starts with a digit bare, and the lexer does not read that token as a name. */
  lemma DigitFirstLeftBare()
    ensures QuotedIdentifier("1a", {}) == "1a"
    ensures UnquoteIdentifier("1a") == None
  {
    assert !NeedsQuotes("1a", {}) by {
      assert forall i :: 0 <= i < |"1a"| ==> IsPlainChar("1a"[i]);
    }
  }

  /** `quoteIdentifier` leaves the empty name empty, and an empty token is no identifier. */
  lemma EmptyNameLeftBare()
    ensures QuotedIdentifier("", {}) == ""
    ensures UnquoteIdentifier("") == None
  {
  }

  /** One identifier followed by the separator is read off, and the rest of the list after it. */
  lemma ReadIdentifierListCons(s: string, name: string, tail: string, rest: seq<string>, sep: string)
    requires |sep| > 0
    requires ReadIdentifier(s) == Some((name, sep + tail))
    requires ReadIdentifierList(tail, sep) == Some(rest)
    ensures ReadIdentifierList(s, sep) == Some([name] + rest)
  {
    assert (sep + tail)[..|sep|] == sep;
    assert (sep + tail)[|sep|..] == tail;
  }

  lemma ReadIdentifierListLast(s: string, name: string, sep: string)
    requires |sep| > 0
    requires ReadIdentifier(s) == Some((name, ""))
    ensures ReadIdentifierList(s, sep) == Some([name])
  {
  }

  lemma ReadIdentifierListSingle(name: string, keywords: set<string>, sep: string)
    requires Lexable(name, keywords)
    requires |sep| > 0
    ensures ReadIdentifierList(QuotedIdentifier(name, keywords), sep) == Some([name])
  {
    var q := QuotedIdentifier(name, keywords);
    assert q + "" == q;
    ReadQuotedIdentifier(name, keywords, "");
    ReadIdentifierListLast(q, name, sep);
  }

  /** The joined list of two or more quoted names is the first one, the separator, and the rest joined. */
  lemma QuotedJoinCons(names: seq<string>, keywords: set<string>, sep: string)
    requires |names| >= 2
    ensures Join(QuotedNames(names, keywords), sep)
         == QuotedIdentifier(names[0], keywords) + (sep + Join(QuotedNames(names[1..], keywords), sep))
  {
    var quoted := QuotedNames(names, keywords);
    assert quoted[1..] == QuotedNames(names[1..], keywords);
    AppendAssoc(quoted[0], sep, Join(quoted[1..], sep));
  }

  /** A quoted name, the separator and a readable list read back as the name before that list. */
  lemma ReadQuotedCons(name: string, keywords: set<string>, tail: string, rest: seq<string>, sep: string)
    requires Lexable(name, keywords)
    requires |sep| > 0 && EndsIdentifier(sep)
    requires ReadIdentifierList(tail, sep) == Some(rest)
    ensures ReadIdentifierList(QuotedIdentifier(name, keywords) + (sep + tail), sep) == Some([name] + rest)
  {
    assert (sep + tail)[0] == sep[0];
    ReadQuotedIdentifier(name, keywords, sep + tail);
    ReadIdentifierListCons(QuotedIdentifier(name, keywords) + (sep + tail), name, tail, rest, sep);
  }

  /** One step of `ReadIdentifierListOf`: the first quoted name is read off, then the rest of the list. */
  lemma ReadIdentifierListStep(names: seq<string>, keywords: set<string>, sep: string)
    requires |names| >= 2 && Lexable(names[0], keywords)
    requires |sep| > 0 && EndsIdentifier(sep)
    requires ReadIdentifierList(Join(QuotedNames(names[1..], keywords), sep), sep) == Some(names[1..])
    ensures ReadIdentifierList(Join(QuotedNames(names, keywords), sep), sep) == Some(names)
  {
    assert [names[0]] + names[1..] == names;
    QuotedJoinCons(names, keywords, sep);
    ReadQuotedCons(names[0], keywords, Join(QuotedNames(names[1..], keywords), sep), names[1..], sep);
  }

  /** A list of lexable quoted names joined by a separator such as ", " reads back as the list of names. */
  lemma {:induction false} ReadIdentifierListOf(names: seq<string>, keywords: set<string>, sep: string)
    requires |names| >= 1 && AllLexable(names, keywords)
    requires |sep| > 0 && EndsIdentifier(sep)
    ensures ReadIdentifierList(Join(QuotedNames(names, keywords), sep), sep) == Some(names)
  {
    if |names| == 1 {
      assert Join(QuotedNames(names, keywords), sep) == QuotedIdentifier(names[0], keywords);
      ReadIdentifierListSingle(names[0], keywords, sep);
      assert names == [names[0]];
    } else {
      assert Lexable(names[0], keywords);
      ReadIdentifierListOf(names[1..], keywords, sep);
      ReadIdentifierListStep(names, keywords, sep);
    }
  }

  /** Quoted names joined by ", ", as every column list of the renderers is; `ReadIdentifierListOf` reads it back. */
  function IdentifierList(names: seq<string>, keywords: set<string>): string
  {
    Join(QuotedNames(names, keywords), ", ")
  }

  /**
   * The separator loop every renderer runs over a list of names: each name quoted, with ", "
   * between neighbours and none before the first.
   */
  method AppendIdentifierList(sb: string, names: seq<string>, keywords: set<string>) returns (r: string)
    ensures r == sb + IdentifierList(names, keywords)
  {
    r := sb;
    var skipComma := true;
    ghost var quoted := QuotedNames(names, keywords);
    for i := 0 to |names|
      invariant skipComma <==> i == 0
      invariant r == sb + Join(quoted[..i], ", ")
    {
      JoinExtend(sb, quoted, i, ", ", r);
      if !skipComma {
        r := r + ", ";
      }
      r := r + QuotedIdentifier(names[i], keywords);
      skipComma := false;
    }
    assert quoted[..|names|] == quoted;
  }
}
