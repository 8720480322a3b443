/**
 * String helpers shared by the SQL and COPY renderers: the separator join that every
 * `skipSeparator` loop of the source builds, a splitter that undoes it, and character counts.
 */
module Text {
  import opened Wrappers

  /** Prepends a character to a decoded string, propagating a decoding failure. */
  function Prepend(c: char, rest: Option<string>): Option<string>
  {
    match rest
    case Some(t) => Some([c] + t)
    case None => None
  }

  /** `parts` separated by `sep`, with no leading or trailing separator. */
  function Join(parts: seq<string>, sep: string): string
  {
    if |parts| == 0 then ""
    else if |parts| == 1 then parts[0]
    else parts[0] + sep + Join(parts[1..], sep)
  }

  /** Appending one more part is what one round of a `skipSeparator` loop does. */
  lemma {:induction false} JoinSnoc(parts: seq<string>, p: string, sep: string)
    ensures Join(parts + [p], sep) == if parts == [] then p else Join(parts, sep) + sep + p
  {
    if |parts| > 1 {
      assert (parts + [p])[1..] == parts[1..] + [p];
      JoinSnoc(parts[1..], p, sep);
    } else if |parts| == 1 {
      assert (parts + [p])[1..] == [p];
    }
  }

  /** The first `i + 1` parts joined: what a `skipSeparator` loop holds after its round `i`. */
  lemma JoinStep(parts: seq<string>, i: nat, sep: string)
    requires i < |parts|
    ensures Join(parts[..i + 1], sep) == if i == 0 then parts[0] else Join(parts[..i], sep) + sep + parts[i]
  {
    assert parts[..i + 1] == parts[..i] + [parts[i]];
    JoinSnoc(parts[..i], parts[i], sep);
  }

  /** One round of a `skipSeparator` loop: `sb` holds `head` and the parts so far, and `p` is appended. */
  lemma JoinSnocExtend(head: string, parts: seq<string>, p: string, sep: string, sb: string)
    requires sb == head + Join(parts, sep)
    ensures (if parts == [] then sb else sb + sep) + p == head + Join(parts + [p], sep)
  {
    JoinSnoc(parts, p, sep);
    if parts == [] {
      assert sb == head;
    } else {
      var j := Join(parts, sep);
      assert head + j + sep + p == head + (j + sep + p);
    }
  }

  /** The same round, over the prefix of `parts` a loop has gone through. */
  lemma JoinExtend(head: string, parts: seq<string>, i: nat, sep: string, sb: string)
    requires i < |parts|
    requires sb == head + Join(parts[..i], sep)
    ensures (if i == 0 then sb else sb + sep) + parts[i] == head + Join(parts[..i + 1], sep)
  {
    assert parts[..i + 1] == parts[..i] + [parts[i]];
    JoinSnocExtend(head, parts[..i], parts[i], sep, sb);
  }

  /** Regrouping a concatenation, stated once so that callers need not prove it element by element. */
  lemma AppendAssoc<T>(a: seq<T>, b: seq<T>, c: seq<T>)
    ensures a + (b + c) == (a + b) + c
  {
  }

  /** Where the parts of `[head] + middle + tail` sit in the whole. */
  lemma LayoutOf<T>(head: T, middle: seq<T>, tail: seq<T>)
    ensures var r := [head] + middle + tail;
      |r| == 1 + |middle| + |tail| && r[0] == head
      && (forall i :: 0 <= i < |middle| ==> r[1 + i] == middle[i])
      && (|tail| == 1 ==> r[|r| - 1] == tail[0])
  {
  }

  /** The strings of `ss`, one after the other. */
  function Concat(ss: seq<string>): string
  {
    if ss == [] then "" else ss[0] + Concat(ss[1..])
  }

  lemma {:induction false} ConcatSnoc(ss: seq<string>, s: string)
    ensures Concat(ss + [s]) == Concat(ss) + s
  {
    if ss != [] {
      assert (ss + [s])[1..] == ss[1..] + [s];
      ConcatSnoc(ss[1..], s);
    }
  }

  /** Concatenating one more element of `ss` extends the concatenation of the prefix by that element. */
  lemma ConcatPrefixStep(ss: seq<string>, i: nat)
    requires i < |ss|
    ensures Concat(ss[..i + 1]) == Concat(ss[..i]) + ss[i]
  {
    assert ss[..i + 1] == ss[..i] + [ss[i]];
    ConcatSnoc(ss[..i], ss[i]);
  }

  /** Number of occurrences of `c` in `s`. */
  function Count(c: char, s: string): nat
  {
    if s == [] then 0 else (if s[0] == c then 1 else 0) + Count(c, s[1..])
  }

  lemma {:induction false} CountAppend(c: char, a: string, b: string)
    ensures Count(c, a + b) == Count(c, a) + Count(c, b)
  {
    if a == [] {
      assert a + b == b;
    } else {
      assert (a + b)[0] == a[0];
      assert (a + b)[1..] == a[1..] + b;
      CountAppend(c, a[1..], b);
    }
  }

  lemma {:induction false} CountAbsent(c: char, s: string)
    requires c !in s
    ensures Count(c, s) == 0
  {
    if s != [] {
      CountAbsent(c, s[1..]);
    }
  }

  /** The fields of `s` between occurrences of `c`; the inverse of `Join` with a one-character separator. */
  function Split(s: string, c: char): (r: seq<string>)
    ensures |r| >= 1
    ensures forall i :: 0 <= i < |r| ==> c !in r[i]
  {
    if s == [] then [""]
    else if s[0] == c then [""] + Split(s[1..], c)
    else
      var rest := Split(s[1..], c);
      [[s[0]] + rest[0]] + rest[1..]
  }

  /** A field free of `c` followed by `c` splits off as one field. */
  lemma {:induction false} SplitField(a: string, c: char, b: string)
    requires c !in a
    ensures Split(a + [c] + b, c) == [a] + Split(b, c)
  {
    if a == [] {
      assert a + [c] + b == [c] + b;
      assert ([c] + b)[1..] == b;
    } else {
      assert (a + [c] + b)[0] == a[0];
      assert (a + [c] + b)[1..] == a[1..] + [c] + b;
      SplitField(a[1..], c, b);
      assert [a[0]] + a[1..] == a;
    }
  }

  /** A field free of `c` splits to itself. */
  lemma {:induction false} SplitNone(a: string, c: char)
    requires c !in a
    ensures Split(a, c) == [a]
  {
    if a != [] {
      SplitNone(a[1..], c);
      assert [a[0]] + a[1..] == a;
    }
  }

  /** Splitting undoes joining, provided no part contains the separator. */
  lemma {:induction false} SplitJoin(parts: seq<string>, c: char)
    requires |parts| >= 1
    requires forall i :: 0 <= i < |parts| ==> c !in parts[i]
    ensures Split(Join(parts, [c]), c) == parts
  {
    if |parts| == 1 {
      SplitNone(parts[0], c);
    } else {
      SplitJoin(parts[1..], c);
      SplitField(parts[0], c, Join(parts[1..], [c]));
      assert parts[0] + [c] + Join(parts[1..], [c]) == Join(parts, [c]);
      assert [parts[0]] + parts[1..] == parts;
    }
  }

  /** Joining with a one-character separator adds exactly one separator between neighbours. */
  lemma {:induction false} CountJoin(parts: seq<string>, c: char)
    requires |parts| >= 1
    requires forall i :: 0 <= i < |parts| ==> c !in parts[i]
    ensures Count(c, Join(parts, [c])) == |parts| - 1
  {
    CountAbsent(c, parts[0]);
    if |parts| > 1 {
      CountJoin(parts[1..], c);
      CountAppend(c, parts[0] + [c], Join(parts[1..], [c]));
      CountAppend(c, parts[0], [c]);
      assert Count(c, [c]) == 1;
    }
  }

  /** Each string followed by a terminator is the join of the strings and one empty last field. */
  lemma {:induction false} ConcatTerminated(lines: seq<string>, c: char)
    ensures Concat(seq(|lines|, i requires 0 <= i < |lines| => lines[i] + [c])) == Join(lines + [""], [c])
  {
    var terminated := seq(|lines|, i requires 0 <= i < |lines| => lines[i] + [c]);
    if lines == [] {
      assert terminated == [];
    } else {
      ConcatTerminated(lines[1..], c);
      assert terminated[1..] == seq(|lines[1..]|, i requires 0 <= i < |lines[1..]| => lines[1..][i] + [c]);
      assert (lines + [""])[1..] == lines[1..] + [""];
      if |lines| == 1 {
        assert Join(lines[1..] + [""], [c]) == "";
      }
    }
  }

  /** `s` cut at the last occurrence of `c`: what precedes it and what follows it. */
  function SplitLast(s: string, c: char): Option<(string, string)>
  {
    if s == [] then None
    else if s[|s| - 1] == c then Some((s[..|s| - 1], ""))
    else
      match SplitLast(s[..|s| - 1], c)
      case None => None
      case Some(p) => Some((p.0, p.1 + [s[|s| - 1]]))
  }

  lemma {:induction false} SplitLastOf(a: string, c: char, b: string)
    requires c !in b
    ensures SplitLast(a + [c] + b, c) == Some((a, b))
  {
    var s := a + [c] + b;
    if b == [] {
      assert s[..|s| - 1] == a;
    } else {
      var b' := b[..|b| - 1];
      assert s[..|s| - 1] == a + [c] + b';
      SplitLastOf(a, c, b');
      assert b' + [b[|b| - 1]] == b;
    }
  }
}
