/** The in-memory store's translation of LIKE patterns to regular expressions. */
module LikeRegex {
  import opened Like
  import opened Regex

  function TokenText(t: Token): string {
    match t
    case Lit(c) => QuoteMeta([c])
    case One => "."
    case Many => ".*"
  }

  function TokensText(t: seq<Token>): string {
    if t == [] then "" else TokenText(t[0]) + TokensText(t[1..])
  }

  function TokenRe(t: Token): Re {
    match t
    case Lit(c) => Re.Lit(c)
    case One => Dot
    case Many => Star(Dot)
  }

  function TokensRe(t: seq<Token>): Re {
    if t == [] then Empty else Cat(TokenRe(t[0]), TokensRe(t[1..]))
  }

  lemma {:induction false} TokensTextParses(t: seq<Token>)
    ensures ParseSeq(TokensText(t) + "$") == Ok(TokensRe(t), "$")
    ensures !StartsWithQuantifier(TokensText(t) + "$")
  {
    hide ParseSeq, ParseAtom;
    if t == [] {
      ParseEnd();
      assert TokensText(t) + "$" == "$";
    } else {
      TokensTextParses(t[1..]);
      var rest := TokensText(t[1..]) + "$";
      assert TokensText(t) + "$" == TokenText(t[0]) + rest;
      match t[0]
      case Lit(c) =>
        ParseQuoted([c], rest);
        assert [c][1..] == "";
      case One => ParseDot(rest);
      case Many => ParseDotStar(rest);
    }
  }

  /** The LIKE relation with wildcards that do not take a newline, which is what `.` means in Go. */
  predicate MatchesInLine(s: string, t: seq<Token>)
    decreases |t|
  {
    if t == [] then s == ""
    else match t[0]
      case Lit(c) => s != "" && s[0] == c && MatchesInLine(s[1..], t[1..])
      case One => s != "" && s[0] != '\n' && MatchesInLine(s[1..], t[1..])
      case Many => exists k :: 0 <= k <= |s| && NoNewline(s[..k]) && MatchesInLine(s[k..], t[1..])
  }

  lemma {:induction false} TokensReAccepts(t: seq<Token>, s: string)
    ensures Accepts(TokensRe(t), s) <==> MatchesInLine(s, t)
    decreases |t|
  {
    if t != [] {
      var r := TokensRe(t[1..]);
      match t[0]
      case Lit(c) =>
        AcceptsLitThen(c, r, s);
        if s != "" {
          TokensReAccepts(t[1..], s[1..]);
        }
      case One =>
        if s != "" {
          TokensReAccepts(t[1..], s[1..]);
          assert s[..1] == [s[0]];
        }
        if Accepts(Cat(Dot, r), s) {
          var k :| 0 <= k <= |s| && Accepts(Dot, s[..k]) && Accepts(r, s[k..]);
          assert k == 1;
        }
      case Many =>
        forall k | 0 <= k <= |s|
          ensures Accepts(Star(Dot), s[..k]) <==> NoNewline(s[..k])
          ensures Accepts(r, s[k..]) <==> MatchesInLine(s[k..], t[1..])
        {
          StarDot(s[..k]);
          TokensReAccepts(t[1..], s[k..]);
        }
    }
  }

  lemma {:induction false} InLineImpliesLike(s: string, t: seq<Token>)
    ensures MatchesInLine(s, t) ==> Matches(s, t)
    ensures NoNewline(s) ==> (MatchesInLine(s, t) <==> Matches(s, t))
    decreases |t|
  {
    if t != [] {
      forall k | 0 <= k <= |s|
        ensures MatchesInLine(s[k..], t[1..]) ==> Matches(s[k..], t[1..])
        ensures NoNewline(s) ==> (MatchesInLine(s[k..], t[1..]) <==> Matches(s[k..], t[1..]))
      {
        InLineImpliesLike(s[k..], t[1..]);
      }
      if s != "" {
        InLineImpliesLike(s[1..], t[1..]);
      }
    }
  }

  /** The text compiles, and what it accepts is LIKE, except that wildcards stop at a newline. */
  method LikeToRegex(pattern: string) returns (text: string, compiled: Compiled)
    ensures text == "^" + TokensText(Tokenize(pattern)) + "$"
    ensures compiled == Compile(text) && compiled.Anchored?
    ensures forall s :: Accepts(compiled.re, s) <==> MatchesInLine(s, Tokenize(pattern))
  {
    hide Matches, MatchesInLine, ParseSeq, Accepts, Tokenize, TokensText, QuoteMeta;
    var b := "^";
    var escaped := false;
    assert pattern[0..] == pattern;
    assert TokenText(Like.Lit('\\')) == QuoteMeta("\\");
    for i := 0 to |pattern|
      invariant escaped ==> i > 0 && pattern[i - 1] == '\\'
      invariant "^" + TokensText(Tokenize(pattern)) == b + TokensText(Tokenize(pattern[if escaped then i - 1 else i..]))
    {
      var r := pattern[i];
      if escaped {
        NextToken(pattern, i - 1);
        b := b + QuoteMeta([r]);
        escaped := false;
        continue;
      }
      NextToken(pattern, i);
      match r
      case '\\' => escaped := true;
      case '%' => b := b + ".*";
      case '_' => b := b + ".";
      case _ => b := b + QuoteMeta([r]);
    }
    if escaped {
      NextToken(pattern, |pattern| - 1);
      b := b + QuoteMeta("\\");
    }
    b := b + "$";
    TokensTextEnd(pattern);
    text := b;
    compiled := Compile(text);
    CompiledMeaning(Tokenize(pattern));
  }

  lemma TokensTextEnd(p: string)
    ensures TokensText(Tokenize(p[|p|..])) == ""
  {
  }

  lemma CompiledMeaning(t: seq<Token>)
    ensures Compile("^" + TokensText(t) + "$") == Anchored(TokensRe(t))
    ensures forall s :: Accepts(TokensRe(t), s) <==> MatchesInLine(s, t)
  {
    TokensTextParses(t);
    assert ("^" + TokensText(t) + "$")[1..] == TokensText(t) + "$";
    forall s ensures Accepts(TokensRe(t), s) <==> MatchesInLine(s, t) {
      TokensReAccepts(t, s);
    }
  }

  lemma NextToken(p: string, i: nat)
    requires i < |p|
    ensures i + HeadWidth(p, i) <= |p|
    ensures TokensText(Tokenize(p[i..])) == TokenText(HeadToken(p, i)) + TokensText(Tokenize(p[i + HeadWidth(p, i)..]))
  {
    TokenizeHead(p, i);
    var t := Tokenize(p[i..]);
    assert t[1..] == Tokenize(p[i + HeadWidth(p, i)..]);
  }

  /** The expression compiled from a pattern, as a value. */
  ghost predicate RegexMatch(s: string, pattern: string) {
    var c := Compile("^" + TokensText(Tokenize(pattern)) + "$");
    c.Anchored? && Accepts(c.re, s)
  }

  lemma RegexMatchMeaning(s: string, pattern: string)
    ensures RegexMatch(s, pattern) <==> MatchesInLine(s, Tokenize(pattern))
  {
    CompiledMeaning(Tokenize(pattern));
  }

  /** The two stores accept the same patterns for a key exactly when the key has no newline; a key
      the in-memory store finds is always found by the etcd store too. */
  lemma StoresAgree(s: string)
    ensures forall p :: RegexMatch(s, p) ==> LikePattern(s, p)
    ensures (forall p :: RegexMatch(s, p) <==> LikePattern(s, p)) <==> NoNewline(s)
  {
    forall p
      ensures RegexMatch(s, p) ==> LikePattern(s, p)
      ensures NoNewline(s) ==> (RegexMatch(s, p) <==> LikePattern(s, p))
    {
      RegexMatchMeaning(s, p);
      InLineImpliesLike(s, Tokenize(p));
    }
    if !NoNewline(s) {
      var t := Tokenize("%");
      assert ("%")[1..] == "" && t == [Many] && t[1..] == [];
      assert s[|s|..] == "" && Matches(s[|s|..], t[1..]);
      assert LikePattern(s, "%");
      RegexMatchMeaning(s, "%");
    }
  }
}
