/** The part of Go's regexp syntax (RE2) that this repository generates: a reader for the text and
    a matcher. Texts outside this part are answered with Fail. */
module Regex {

  datatype Re =
    | Empty
    | Lit(c: char)
    | Dot       // `.`, every character except a newline
    | NotSlash  // `[^\/]`
    | Cat(head: Re, tail: Re)
    | Alt(left: Re, right: Re)
    | Star(body: Re)

  /** `r` matches the whole of `s`. */
  predicate Accepts(r: Re, s: string)
    decreases r, |s|
  {
    match r
    case Empty => s == ""
    case Lit(c) => s == [c]
    case Dot => |s| == 1 && s[0] != '\n'
    case NotSlash => |s| == 1 && s[0] != '/'
    case Cat(a, b) => exists k :: 0 <= k <= |s| && Accepts(a, s[..k]) && Accepts(b, s[k..])
    case Alt(a, b) => Accepts(a, s) || Accepts(b, s)
    case Star(a) =>
      s == "" || exists k :: 0 < k <= |s| && Accepts(a, s[..k]) && Accepts(r, s[k..])
  }

  // ---------------------------------------------------------------- reading the text

  datatype Parsed = Ok(re: Re, rest: string) | Fail

  const METACHARACTERS := "\\.+*?()|[]{}^$"

  predicate Meta(c: char) { c in METACHARACTERS }

  /** Ends a sequence of atoms. */
  predicate Closing(c: char) { c in ")|$" }

  predicate Quantifier(c: char) {
    c == '*' || c == '+' || c == '?' || c == '{'
  }

  predicate StartsWithQuantifier(t: string) {
    t != "" && Quantifier(t[0])
  }

  predicate Alphanumeric(c: char) {
    '0' <= c <= '9' || 'A' <= c <= 'Z' || 'a' <= c <= 'z'
  }

  /** Reads atoms, each with an optional star, up to `)`, `|`, `$` or the end of the text. */
  function ParseSeq(t: string): (r: Parsed)
    ensures r.Ok? ==> |r.rest| <= |t|
    decreases |t|, 1
  {
    if t == "" || Closing(t[0]) then Ok(Empty, t)
    else
      var a := ParseAtom(t);
      if a.Fail? then Fail
      else if a.rest != "" && a.rest[0] == '*' then
        if StartsWithQuantifier(a.rest[1..]) then Fail
        else
          var b := ParseSeq(a.rest[1..]);
          if b.Fail? then Fail else Ok(Cat(Star(a.re), b.re), b.rest)
      else if StartsWithQuantifier(a.rest) then Fail
      else
        var b := ParseSeq(a.rest);
        if b.Fail? then Fail else Ok(Cat(a.re, b.re), b.rest)
  }

  function ParseAtom(t: string): (r: Parsed)
    requires t != ""
    ensures r.Ok? ==> |r.rest| < |t|
    decreases |t|, 0
  {
    if t[0] == '.' then Ok(Dot, t[1..])
    else if t[0] == '\\' then
      if |t| >= 2 && !Alphanumeric(t[1]) then Ok(Lit(t[1]), t[2..]) else Fail
    else if t[0] == '[' then
      if |t| >= 5 && t[..5] == "[^\\/]" then Ok(NotSlash, t[5..]) else Fail
    else if t[0] == '(' then
      var g := ParseAlt(t[1..]);
      if g.Ok? && g.rest != "" && g.rest[0] == ')' then Ok(g.re, g.rest[1..]) else Fail
    else if Meta(t[0]) then Fail
    else Ok(Lit(t[0]), t[1..])
  }

  function ParseAlt(t: string): (r: Parsed)
    ensures r.Ok? ==> |r.rest| <= |t|
    decreases |t|, 2
  {
    var a := ParseSeq(t);
    if a.Ok? && a.rest != "" && a.rest[0] == '|' then
      var b := ParseAlt(a.rest[1..]);
      if b.Fail? then Fail else Ok(Alt(a.re, b.re), b.rest)
    else a
  }

  datatype Compiled = Anchored(re: Re) | Invalid

  /** Compiles a text of the form `^...$`. */
  function Compile(t: string): Compiled {
    if t == "" || t[0] != '^' then Invalid
    else
      var r := ParseSeq(t[1..]);
      if r.Ok? && r.rest == "$" then Anchored(r.re) else Invalid
  }

  // ---------------------------------------------------------------- QuoteMeta

  function QuoteChar(c: char): string {
    if Meta(c) then ['\\', c] else [c]
  }

  function QuoteMeta(s: string): string {
    if s == "" then ""
    else QuoteChar(s[0]) + QuoteMeta(s[1..])
  }

  /** The literal `s` followed by `r`. */
  function LitSeq(s: string, r: Re): Re {
    if s == "" then r else Cat(Lit(s[0]), LitSeq(s[1..], r))
  }

  /** One atom without a star. */
  lemma ParseStep(text: string, a: Re, rest: string)
    requires text != "" && !Closing(text[0]) && ParseAtom(text) == Ok(a, rest)
    requires ParseSeq(rest).Ok? && !StartsWithQuantifier(rest)
    ensures ParseSeq(text) == Ok(Cat(a, ParseSeq(rest).re), ParseSeq(rest).rest)
  {
  }

  lemma ParseQuotedChar(c: char, t: string)
    ensures ParseAtom(QuoteChar(c) + t) == Ok(Lit(c), t)
    ensures !Closing((QuoteChar(c) + t)[0]) && !Quantifier((QuoteChar(c) + t)[0])
  {
    var text := QuoteChar(c) + t;
    if Meta(c) {
      assert text[2..] == t;
    } else {
      assert text[1..] == t;
    }
  }

  /** Quoted text reads back as the literal itself. */
  lemma {:induction false} ParseQuoted(s: string, t: string)
    requires ParseSeq(t).Ok? && !StartsWithQuantifier(t)
    ensures ParseSeq(QuoteMeta(s) + t) == Ok(LitSeq(s, ParseSeq(t).re), ParseSeq(t).rest)
    ensures !StartsWithQuantifier(QuoteMeta(s) + t)
  {
    hide ParseSeq, ParseAlt, ParseAtom, Meta, Closing, Quantifier, QuoteChar;
    if s == "" {
      assert QuoteMeta(s) + t == t;
    } else {
      ParseQuoted(s[1..], t);
      var tail := QuoteMeta(s[1..]) + t;
      ParseQuotedChar(s[0], tail);
      assert QuoteMeta(s) + t == QuoteChar(s[0]) + tail;
      ParseStep(QuoteChar(s[0]) + tail, Lit(s[0]), tail);
    }
  }

  // ---------------------------------------------------------------- fixed pieces

  const ANY_GROUP := Cat(Star(Dot), Empty)
  const LEVEL_GROUP := Cat(Star(NotSlash), Empty)
  const OPTIONAL_SLASH := Alt(Cat(Lit('/'), Empty), Empty)
  const LAST_LEVEL_GROUP := Cat(OPTIONAL_SLASH, LEVEL_GROUP)

  lemma ParseDot(t: string)
    requires ParseSeq(t).Ok? && !StartsWithQuantifier(t)
    ensures ParseSeq("." + t) == Ok(Cat(Dot, ParseSeq(t).re), ParseSeq(t).rest)
  {
    assert ("." + t)[1..] == t;
  }

  lemma ParseDotStar(t: string)
    requires ParseSeq(t).Ok? && !StartsWithQuantifier(t)
    ensures ParseSeq(".*" + t) == Ok(Cat(Star(Dot), ParseSeq(t).re), ParseSeq(t).rest)
  {
    assert (".*" + t)[1..] == "*" + t;
    assert ("*" + t)[1..] == t;
  }

  /** A parenthesised group whose inside reads as `g` is one atom. */
  lemma ParseGroup(inside: string, g: Re, t: string)
    requires ParseAlt(inside + (")" + t)) == Ok(g, ")" + t)
    requires ParseSeq(t).Ok? && !StartsWithQuantifier(t)
    ensures ParseSeq("(" + inside + ")" + t) == Ok(Cat(g, ParseSeq(t).re), ParseSeq(t).rest)
  {
    hide ParseSeq, ParseAlt, StartsWithQuantifier, Meta;
    var text := "(" + inside + ")" + t;
    assert text[1..] == inside + (")" + t);
    assert (")" + t)[1..] == t;
    assert ParseAtom(text) == Ok(g, t);
    ParseStep(text, g, t);
  }

  lemma ParseAnyInside(t: string)
    ensures ParseAlt(".*" + (")" + t)) == Ok(ANY_GROUP, ")" + t)
  {
    ParseDotStar(")" + t);
  }

  lemma ParseAnyGroup(t: string)
    requires ParseSeq(t).Ok? && !StartsWithQuantifier(t)
    ensures ParseSeq("(.*)" + t) == Ok(Cat(ANY_GROUP, ParseSeq(t).re), ParseSeq(t).rest)
  {
    ParseAnyInside(t);
    hide ParseSeq, ParseAlt, ParseAtom, StartsWithQuantifier;
    ParseGroup(".*", ANY_GROUP, t);
    assert "(.*)" == "(" + ".*" + ")";
  }

  lemma ParseNotSlashStar(t: string)
    ensures ParseSeq("[^\\/]*" + (")" + t)) == Ok(LEVEL_GROUP, ")" + t)
    ensures !StartsWithQuantifier("[^\\/]*" + (")" + t))
  {
    var text := "[^\\/]*" + (")" + t);
    assert text[..5] == "[^\\/]";
    assert text[5..] == "*" + (")" + t);
    assert text[5..][1..] == ")" + t;
  }

  lemma ParseLevelGroup(t: string)
    requires ParseSeq(t).Ok? && !StartsWithQuantifier(t)
    ensures ParseSeq("([^\\/]*)" + t) == Ok(Cat(LEVEL_GROUP, ParseSeq(t).re), ParseSeq(t).rest)
  {
    ParseNotSlashStar(t);
    assert "([^\\/]*)" + t == "(" + "[^\\/]*" + ")" + t;
    ParseGroup("[^\\/]*", LEVEL_GROUP, t);
  }

  lemma ParseLastLevelGroup(t: string)
    requires ParseSeq(t).Ok? && !StartsWithQuantifier(t)
    ensures ParseSeq("((\\/|)[^\\/]*)" + t) == Ok(Cat(LAST_LEVEL_GROUP, ParseSeq(t).re), ParseSeq(t).rest)
  {
    hide ParseSeq, ParseAlt, ParseAtom, StartsWithQuantifier;
    var a, b := "(\\/|)", "[^\\/]*";
    var close := ")" + t;
    ParseNotSlashStar(t);
    ParseOptionalSlash(b + close);
    assert (a + b) + close == a + (b + close);
    ParseNoAlternative((a + b) + close);
    ParseGroup(a + b, LAST_LEVEL_GROUP, t);
    assert "((\\/|)[^\\/]*)" == "(" + (a + b) + ")";
  }

  lemma ParseNoAlternative(t: string)
    requires ParseSeq(t).Ok? && ParseSeq(t).rest != "" && ParseSeq(t).rest[0] == ')'
    ensures ParseAlt(t) == ParseSeq(t)
  {
  }

  lemma ParseOptionalSlashInside(t: string)
    ensures ParseAlt("\\/|" + (")" + t)) == Ok(OPTIONAL_SLASH, ")" + t)
  {
    var close := ")" + t;
    var bar := "|" + close;
    var inner := "\\/|" + close;
    assert bar[1..] == close;
    assert inner[2..] == bar;
    assert ParseAtom(inner) == Ok(Lit('/'), bar);
    assert ParseSeq(close) == Ok(Empty, close) && ParseSeq(bar) == Ok(Empty, bar);
    ParseStep(inner, Lit('/'), bar);
    hide ParseSeq, ParseAtom;
    assert ParseAlt(close) == Ok(Empty, close);
  }

  lemma ParseOptionalSlash(t: string)
    requires ParseSeq(t).Ok? && !StartsWithQuantifier(t)
    ensures ParseSeq("(\\/|)" + t) == Ok(Cat(OPTIONAL_SLASH, ParseSeq(t).re), ParseSeq(t).rest)
  {
    hide ParseSeq, ParseAlt, ParseAtom, StartsWithQuantifier;
    ParseOptionalSlashInside(t);
    ParseGroup("\\/|", OPTIONAL_SLASH, t);
    assert "(\\/|)" == "(" + "\\/|" + ")";
  }

  lemma ParseEnd()
    ensures ParseSeq("$") == Ok(Empty, "$") && !StartsWithQuantifier("$")
  {
  }

  // ---------------------------------------------------------------- what the pieces match

  predicate NoNewline(s: string) { '\n' !in s }

  predicate NoSlash(s: string) { '/' !in s }

  lemma {:induction false} StarDot(s: string)
    ensures Accepts(Star(Dot), s) <==> NoNewline(s)
  {
    if s != "" {
      assert s == s[..1] + s[1..];
      StarDot(s[1..]);
      if Accepts(Star(Dot), s) {
        var k :| 0 < k <= |s| && Accepts(Dot, s[..k]) && Accepts(Star(Dot), s[k..]);
        assert k == 1;
      }
    }
  }

  lemma {:induction false} StarNotSlash(s: string)
    ensures Accepts(Star(NotSlash), s) <==> NoSlash(s)
  {
    if s != "" {
      assert s == s[..1] + s[1..];
      StarNotSlash(s[1..]);
      if Accepts(Star(NotSlash), s) {
        var k :| 0 < k <= |s| && Accepts(NotSlash, s[..k]) && Accepts(Star(NotSlash), s[k..]);
        assert k == 1;
      }
    }
  }

  lemma AcceptsThenEmpty(a: Re, s: string)
    ensures Accepts(Cat(a, Empty), s) <==> Accepts(a, s)
  {
    assert s[..|s|] == s && s[|s|..] == "";
    if Accepts(Cat(a, Empty), s) {
      var k :| 0 <= k <= |s| && Accepts(a, s[..k]) && Accepts(Empty, s[k..]);
      assert k == |s|;
    }
  }

  lemma AcceptsLitThen(c: char, r: Re, s: string)
    ensures Accepts(Cat(Lit(c), r), s) <==> s != "" && s[0] == c && Accepts(r, s[1..])
  {
    if Accepts(Cat(Lit(c), r), s) {
      var k :| 0 <= k <= |s| && Accepts(Lit(c), s[..k]) && Accepts(r, s[k..]);
      assert k == 1;
    }
    if s != "" && s[0] == c && Accepts(r, s[1..]) {
      assert s[..1] == [c];
    }
  }

  lemma {:induction false} AcceptsLitSeq(lit: string, r: Re, s: string)
    ensures Accepts(LitSeq(lit, r), s) <==> lit <= s && Accepts(r, s[|lit|..])
  {
    hide Accepts;
    if lit == "" {
      assert s[0..] == s;
    } else {
      AcceptsLitThen(lit[0], LitSeq(lit[1..], r), s);
      if s != "" {
        AcceptsLitSeq(lit[1..], r, s[1..]);
        assert lit <= s <==> s[0] == lit[0] && lit[1..] <= s[1..];
        if |lit| <= |s| {
          assert s[1..][|lit| - 1..] == s[|lit|..];
        }
      }
    }
  }
}
