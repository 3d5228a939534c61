/** `addSlashes` from the discover controller: the value escaper used before a
    value is placed between double quotes in a query clause. */
module Escaping {
  import opened Options

  /** A value handed to `filterQuery`: a JavaScript string, or any other value,
      which takes part in string concatenation through its string conversion
      `text` (that conversion is not part of this model). */
  datatype Scalar = Str(s: string) | Other(text: string)

  /** The characters addSlashes escapes: backslash, single quote, double quote
      and NUL. */
  predicate Special(c: char) {
    c == '\\' || c == '\'' || c == '"' || c == '\0'
  }

  /** Number of characters of `s` that addSlashes escapes. */
  function CountSpecial(s: string): nat {
    if s == [] then 0 else (if Special(s[0]) then 1 else 0) + CountSpecial(s[1..])
  }

  /** `str.replace(/c/g, by)`: every occurrence of `c` replaced by `by`. */
  function ReplaceAll(s: string, c: char, repl: string): string {
    if s == [] then [] else (if s[0] == c then repl else [s[0]]) + ReplaceAll(s[1..], c, repl)
  }

  /** The body of addSlashes on a string: four global replaces, backslash first. */
  function AddSlashesText(s: string): string {
    var s1 := ReplaceAll(s, '\\', "\\\\");
    var s2 := ReplaceAll(s1, '\'', "\\'");
    var s3 := ReplaceAll(s2, '"', "\\\"");
    ReplaceAll(s3, '\0', "\\0")
  }

  /** addSlashes: strings are escaped, every other value comes back
      unchanged; the text grows by one character per escaped character. */
  function AddSlashes(v: Scalar): (r: Scalar)
    ensures v.Other? ==> r == v
    ensures v.Str? ==> r.Str? && |r.s| == |v.s| + CountSpecial(v.s)
  {
    match v
    case Other(_) => v
    case Str(s) =>
      AddSlashesIsEscape(s);
      EscapeLength(s);
      Str(AddSlashesText(s))
  }

  /** Reading the escaped text of a string back as a quoted literal gives the
      string exactly, and consumes the whole text up to the closing quote. */
  lemma AddSlashesReadBack(s: string)
    ensures ReadQuoted(AddSlashes(Str(s)).s + "\"") == Some((s, ""))
  {
    AddSlashesIsEscape(s);
    ReadQuotedEscape(s, "");
    assert Escape(s) + "\"" + "" == Escape(s) + "\"";
  }

  /** The escape of one character, as the four replaces leave it. */
  function EscapeChar(c: char): string {
    if c == '\\' then "\\\\"
    else if c == '\'' then "\\'"
    else if c == '"' then "\\\""
    else if c == '\0' then "\\0"
    else [c]
  }

  /** Escaping character by character, in one pass. */
  function Escape(s: string): string {
    if s == [] then [] else EscapeChar(s[0]) + Escape(s[1..])
  }

  /** The character an escape sequence `\d` stands for. */
  function Unescaped(d: char): Option<char> {
    if d == '\\' then Some('\\')
    else if d == '\'' then Some('\'')
    else if d == '"' then Some('"')
    else if d == '0' then Some('\0')
    else None
  }

  /** Reads the body of a double-quoted literal written by addSlashes, up to
      the first unescaped `"`: the decoded value and the text after the quote.
      A bare quote, a bare NUL or an unknown escape is malformed. */
  function ReadQuoted(t: string): (r: Option<(string, string)>)
    ensures r.Some? ==> |r.value.1| < |t|
    decreases |t|
  {
    if t == [] then None
    else if t[0] == '"' then Some(([], t[1..]))
    else if t[0] == '\\' then
      if |t| < 2 then None
      else match Unescaped(t[1])
        case None => None
        case Some(c) =>
          match ReadQuoted(t[2..])
          case None => None
          case Some(p) => Some(([c] + p.0, p.1))
    else if Special(t[0]) then None
    else match ReadQuoted(t[1..])
      case None => None
      case Some(p) => Some(([t[0]] + p.0, p.1))
  }

  lemma {:induction false} ReplaceAllConcat(a: string, b: string, c: char, repl: string)
    ensures ReplaceAll(a + b, c, repl) == ReplaceAll(a, c, repl) + ReplaceAll(b, c, repl)
    decreases |a|
  {
    if a != [] {
      assert (a + b)[0] == a[0];
      assert (a + b)[1..] == a[1..] + b;
      ReplaceAllConcat(a[1..], b, c, repl);
    } else {
      assert a + b == b;
    }
  }

  lemma AddSlashesTextConcat(a: string, b: string)
    ensures AddSlashesText(a + b) == AddSlashesText(a) + AddSlashesText(b)
  {
    ReplaceAllConcat(a, b, '\\', "\\\\");
    var a1, b1 := ReplaceAll(a, '\\', "\\\\"), ReplaceAll(b, '\\', "\\\\");
    ReplaceAllConcat(a1, b1, '\'', "\\'");
    var a2, b2 := ReplaceAll(a1, '\'', "\\'"), ReplaceAll(b1, '\'', "\\'");
    ReplaceAllConcat(a2, b2, '"', "\\\"");
    var a3, b3 := ReplaceAll(a2, '"', "\\\""), ReplaceAll(b2, '"', "\\\"");
    ReplaceAllConcat(a3, b3, '\0', "\\0");
  }

  lemma {:induction false} ReplaceAllAbsent(s: string, c: char, repl: string)
    requires c !in s
    ensures ReplaceAll(s, c, repl) == s
    decreases |s|
  {
    if s != [] {
      assert s[0] != c;
      ReplaceAllAbsent(s[1..], c, repl);
    }
  }

  lemma ReplaceAllSingle(d: char, c: char, repl: string)
    ensures ReplaceAll([d], c, repl) == if d == c then repl else [d]
  {
    assert [d][1..] == [];
  }

  /** The four replaces on a single character give that character's escape:
      the backslashes the later replaces introduce are never escaped again. */
  lemma AddSlashesTextChar(c: char)
    ensures AddSlashesText([c]) == EscapeChar(c)
  {
    ReplaceAllSingle(c, '\\', "\\\\");
    var s1 := ReplaceAll([c], '\\', "\\\\");
    if c != '\'' {
      ReplaceAllAbsent(s1, '\'', "\\'");
    } else {
      ReplaceAllSingle(c, '\'', "\\'");
    }
    var s2 := ReplaceAll(s1, '\'', "\\'");
    if c != '"' {
      ReplaceAllAbsent(s2, '"', "\\\"");
    } else {
      ReplaceAllSingle(c, '"', "\\\"");
    }
    var s3 := ReplaceAll(s2, '"', "\\\"");
    if c != '\0' {
      ReplaceAllAbsent(s3, '\0', "\\0");
    } else {
      ReplaceAllSingle(c, '\0', "\\0");
    }
  }

  /** The sequential replaces of addSlashes equal one left-to-right pass of
      EscapeChar: escaping backslash first is what keeps this true. */
  lemma {:induction false} AddSlashesIsEscape(s: string)
    ensures AddSlashesText(s) == Escape(s)
    decreases |s|
  {
    if s != [] {
      assert s == [s[0]] + s[1..];
      AddSlashesTextConcat([s[0]], s[1..]);
      AddSlashesTextChar(s[0]);
      AddSlashesIsEscape(s[1..]);
    }
  }

  lemma {:induction false} EscapeLength(s: string)
    ensures |Escape(s)| == |s| + CountSpecial(s)
    decreases |s|
  {
    if s != [] {
      EscapeLength(s[1..]);
    }
  }

  /** Round trip: the escaped text, closed by a quote, reads back as the
      original value followed by whatever comes after the quote. */
  lemma {:induction false} ReadQuotedEscape(s: string, rest: string)
    ensures ReadQuoted(Escape(s) + "\"" + rest) == Some((s, rest))
    decreases |s|
  {
    var t := Escape(s) + "\"" + rest;
    if s != [] {
      ReadQuotedEscape(s[1..], rest);
      var c := s[0];
      assert s == [c] + s[1..];
      assert t == EscapeChar(c) + (Escape(s[1..]) + "\"" + rest);
      if Special(c) {
        assert t[0] == '\\' && Unescaped(t[1]) == Some(c);
        assert t[2..] == Escape(s[1..]) + "\"" + rest;
      } else {
        assert t[0] == c;
        assert t[1..] == Escape(s[1..]) + "\"" + rest;
      }
    } else {
      assert t[1..] == rest;
    }
  }

  /** The converse: whatever reads as a quoted literal is exactly the escape of
      the value it decodes to, so the escaping is a bijection between values
      and well-formed literals. */
  lemma {:induction false} ReadQuotedSound(t: string)
    requires ReadQuoted(t).Some?
    ensures t == Escape(ReadQuoted(t).value.0) + "\"" + ReadQuoted(t).value.1
    decreases |t|
  {
    var r := ReadQuoted(t).value;
    if t[0] == '"' {
      assert r == ([], t[1..]);
      assert t == "\"" + t[1..];
    } else if t[0] == '\\' {
      var c := Unescaped(t[1]).value;
      var p := ReadQuoted(t[2..]).value;
      ReadQuotedSound(t[2..]);
      assert r == ([c] + p.0, p.1);
      assert EscapeChar(c) == t[..2];
      assert ([c] + p.0)[1..] == p.0;
      assert Escape([c] + p.0) == EscapeChar(c) + Escape(p.0);
      assert t == t[..2] + t[2..];
    } else {
      var p := ReadQuoted(t[1..]).value;
      ReadQuotedSound(t[1..]);
      assert r == ([t[0]] + p.0, p.1);
      assert EscapeChar(t[0]) == [t[0]];
      assert ([t[0]] + p.0)[1..] == p.0;
      assert Escape([t[0]] + p.0) == [t[0]] + Escape(p.0);
      assert t == [t[0]] + t[1..];
    }
  }
}
