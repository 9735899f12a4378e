/** SQL LIKE patterns: the declarative relation of section 8.5 of SQL-92 with escape
    character `\`, and the two byte-scanning functions of the etcd store. */
module Like {

  datatype Token =
    | Lit(c: char)  // an ordinary or escaped character
    | One           // `_`
    | Many          // `%`

  /** Reads a pattern into tokens. A dangling backslash stands for itself. */
  function Tokenize(p: string): seq<Token> {
    if p == "" then []
    else if p[0] == '\\' then
      if |p| == 1 then [Lit('\\')] else [Lit(p[1])] + Tokenize(p[2..])
    else if p[0] == '%' then [Many] + Tokenize(p[1..])
    else if p[0] == '_' then [One] + Tokenize(p[1..])
    else [Lit(p[0])] + Tokenize(p[1..])
  }

  /** The LIKE relation: `s` splits into one substring per token. */
  predicate Matches(s: string, t: seq<Token>)
    decreases |t|
  {
    if t == [] then s == ""
    else match t[0]
      case Lit(c) => s != "" && s[0] == c && Matches(s[1..], t[1..])
      case One => s != "" && Matches(s[1..], t[1..])
      case Many => exists k :: 0 <= k <= |s| && Matches(s[k..], t[1..])
  }

  predicate LikePattern(s: string, p: string) {
    Matches(s, Tokenize(p))
  }

  // ---------------------------------------------------------------- facts about the relation

  /** `%` either takes nothing, or swallows one more character. */
  lemma ManyUnfold(s: string, t: seq<Token>)
    ensures Matches(s, [Many] + t) <==> Matches(s, t) || (s != "" && Matches(s[1..], [Many] + t))
  {
    var mt := [Many] + t;
    assert mt[1..] == t;
    assert s[0..] == s;
    if Matches(s, mt) {
      var k :| 0 <= k <= |s| && Matches(s[k..], t);
      if k > 0 {
        assert s[1..][k - 1..] == s[k..];
      }
    }
    if s != "" && Matches(s[1..], mt) {
      var k :| 0 <= k <= |s[1..]| && Matches(s[1..][k..], t);
      assert s[1..][k..] == s[k + 1..];
    }
  }

  /** A block of tokens without `%` matches a string of its own length, character by character. */
  predicate FixedMatch(s: string, seg: seq<Token>) {
    && |s| == |seg|
    && forall i :: 0 <= i < |seg| ==> seg[i] == One || seg[i] == Lit(s[i])
  }

  predicate Fixed(seg: seq<Token>) {
    Many !in seg
  }

  lemma {:induction false} FixedPrefix(s: string, seg: seq<Token>, t: seq<Token>)
    requires Fixed(seg)
    ensures Matches(s, seg + t) <==>
            |seg| <= |s| && FixedMatch(s[..|seg|], seg) && Matches(s[|seg|..], t)
  {
    if seg == [] {
      assert seg + t == t && s[0..] == s;
    } else {
      assert (seg + t)[1..] == seg[1..] + t;
      if s != "" {
        FixedPrefix(s[1..], seg[1..], t);
        if |seg| <= |s| {
          assert s[1..][|seg| - 1..] == s[|seg|..];
          assert forall i :: 1 <= i < |seg| ==>
            seg[1..][i - 1] == seg[i] && s[1..][..|seg| - 1][i - 1] == s[..|seg|][i];
          assert forall i :: 0 <= i < |seg| - 1 ==>
            seg[1..][i] == seg[i + 1] && s[1..][..|seg| - 1][i] == s[..|seg|][i + 1];
        }
      }
    }
  }

  /** Why only the last `%` must be remembered: once the block between two `%` has matched at its
      earliest place, every match uses that place or can be moved to it. */
  lemma {:induction false} EarliestBlockSuffices(s: string, seg: seq<Token>, t: seq<Token>)
    requires Fixed(seg) && |seg| <= |s| && FixedMatch(s[..|seg|], seg)
    ensures Matches(s, [Many] + (seg + ([Many] + t))) <==> Matches(s[|seg|..], [Many] + t)
  {
    var m := |seg|;
    var mt := [Many] + t;
    var pat := [Many] + (seg + mt);
    assert pat[1..] == seg + mt && mt[1..] == t;
    if Matches(s, pat) {
      var k :| 0 <= k <= |s| && Matches(s[k..], seg + mt);
      FixedPrefix(s[k..], seg, mt);
      assert Matches(s[k..][m..], mt);
      var k2 :| 0 <= k2 <= |s[k..][m..]| && Matches(s[k..][m..][k2..], t);
      assert s[k..][m..][k2..] == s[m..][k + k2..];
    }
    if Matches(s[m..], mt) {
      FixedPrefix(s, seg, mt);
      assert s[0..] == s;
    }
  }

  /** Extending the matched block by one token that takes one character. */
  lemma FixedMatchSnoc(s: string, seg: seq<Token>, c: char, tok: Token)
    requires FixedMatch(s, seg) && (tok == One || tok == Lit(c))
    ensures FixedMatch(s + [c], seg + [tok])
  {
  }

  /** The empty string matches only patterns made of `%`. */
  lemma {:induction false} EmptyText(t: seq<Token>)
    ensures Matches("", t) <==> forall i :: 0 <= i < |t| ==> t[i] == Many
  {
    if t != [] {
      EmptyText(t[1..]);
      assert ""[0..] == "";
      assert forall i :: 1 <= i < |t| ==> t[1..][i - 1] == t[i];
      assert forall i :: 0 <= i < |t| - 1 ==> t[1..][i] == t[i + 1];
    }
  }

  // ---------------------------------------------------------------- likeMatch

  /** What the loop of LikeMatch has established: the whole question equals the question at the
      last `%`, whose block `seg` has so far matched `s[m..i]`. */
  ghost predicate Progress(s: string, p: string, i: int, j: int, star: int, m: int, seg: seq<Token>) {
    && 0 <= m <= i <= |s| && 0 <= j <= |p| && -1 <= star < j + 1
    && Fixed(seg)
    && FixedMatch(s[m..i], seg)
    && if star == -1 then m == 0 && Tokenize(p) == seg + Tokenize(p[j..])
       else && star < j
            && p[star] == '%'
            && Tokenize(p[star + 1..]) == seg + Tokenize(p[j..])
            && (LikePattern(s, p) <==> Matches(s[m..], [Many] + Tokenize(p[star + 1..])))
  }

  lemma ProgressStart(s: string, p: string)
    ensures Progress(s, p, 0, 0, -1, 0, [])
  {
    assert p[0..] == p && [] + Tokenize(p) == Tokenize(p);
  }

  lemma ProgressStar(s: string, p: string, i: int, j: int, star: int, m: int, seg: seq<Token>)
    requires Progress(s, p, i, j, star, m, seg) && j < |p| && p[j] == '%'
    ensures Progress(s, p, i, j + 1, j, i, [])
  {
    var t := Tokenize(p[j + 1..]);
    assert p[j..][1..] == p[j + 1..];
    assert Tokenize(p[j..]) == [Many] + t;
    assert s[m..][..|seg|] == s[m..i];
    assert s[m..][|seg|..] == s[i..];
    if star == -1 {
      FixedPrefix(s, seg, [Many] + t);
      assert s[..|seg|] == s[m..i];
    } else {
      EarliestBlockSuffices(s[m..], seg, t);
    }
    assert [] + t == t;
  }

  /** The token that starts at `j`, and the number of pattern characters it takes. */
  function HeadToken(p: string, j: nat): Token
    requires j < |p|
  {
    if p[j] == '\\' then Lit(if j + 1 < |p| then p[j + 1] else '\\')
    else if p[j] == '%' then Many
    else if p[j] == '_' then One
    else Lit(p[j])
  }

  function HeadWidth(p: string, j: nat): nat
    requires j < |p|
  {
    if p[j] == '\\' && j + 1 < |p| then 2 else 1
  }

  lemma TokenizeHead(p: string, j: nat)
    requires j < |p|
    ensures j + HeadWidth(p, j) <= |p|
    ensures Tokenize(p[j..]) == [HeadToken(p, j)] + Tokenize(p[j + HeadWidth(p, j)..])
  {
    var q := p[j..];
    assert q[1..] == p[j + 1..];
    if |q| >= 2 {
      assert q[2..] == p[j + 2..];
    }
    if |q| == 1 && p[j] == '\\' {
      assert Tokenize(p[j + 1..]) == [];
    }
  }

  /** A literal or `_` at `j` consumes one character of `s`. */
  lemma ProgressChar(s: string, p: string, i: int, j: int, star: int, m: int, seg: seq<Token>)
    returns (seg': seq<Token>)
    requires Progress(s, p, i, j, star, m, seg) && i < |s| && j < |p|
    requires HeadToken(p, j) == One || HeadToken(p, j) == Lit(s[i])
    ensures j + HeadWidth(p, j) <= |p|
    ensures Progress(s, p, i + 1, j + HeadWidth(p, j), star, m, seg')
  {
    var tok, j' := HeadToken(p, j), j + HeadWidth(p, j);
    TokenizeHead(p, j);
    seg' := seg + [tok];
    FixedMatchSnoc(s[m..i], seg, s[i], tok);
    assert s[m..i + 1] == s[m..i] + [s[i]];
    assert seg + ([tok] + Tokenize(p[j'..])) == seg' + Tokenize(p[j'..]);
  }

  /** If the token at `j` cannot take `s[i]`, the current placement of the block fails. */
  lemma ProgressMismatch(s: string, p: string, i: int, j: int, star: int, m: int, seg: seq<Token>)
    requires Progress(s, p, i, j, star, m, seg) && i < |s|
    requires j < |p| ==> HeadToken(p, j).Lit? && HeadToken(p, j) != Lit(s[i])
    ensures star == -1 ==> !LikePattern(s, p)
    ensures star != -1 ==> Progress(s, p, m + 1, star + 1, star, m + 1, [])
  {
    var t := Tokenize(p[j..]);
    if j < |p| {
      TokenizeHead(p, j);
    }
    assert !Matches(s[i..], t);
    if star == -1 {
      FixedPrefix(s, seg, t);
      assert s[|seg|..] == s[i..];
    } else {
      FixedPrefix(s[m..], seg, t);
      assert s[m..][|seg|..] == s[i..];
      ManyUnfold(s[m..], seg + t);
      assert s[m..][1..] == s[m + 1..];
      assert [] + Tokenize(p[star + 1..]) == Tokenize(p[star + 1..]);
    }
  }

  /** When `s` is used up the rest of the pattern decides, without backtracking. */
  lemma ProgressEnd(s: string, p: string, j: int, star: int, m: int, seg: seq<Token>)
    requires Progress(s, p, |s|, j, star, m, seg)
    ensures LikePattern(s, p) <==> Matches("", Tokenize(p[j..]))
  {
    var t := Tokenize(p[j..]);
    FixedPrefix(s[m..], seg, t);
    assert s[m..][|seg|..] == "" && s[m..][..|seg|] == s[m..|s|];
    if star == -1 {
      assert s[m..] == s;
    } else {
      var u := s[m..];
      var pat := [Many] + (seg + t);
      assert pat[1..] == seg + t;
      if Matches(u, pat) {
        var k :| 0 <= k <= |u| && Matches(u[k..], seg + t);
        FixedPrefix(u[k..], seg, t);
        assert k == 0 && u[0..] == u;
      }
      if Matches(u, seg + t) {
        assert u[0..] == u;
      }
    }
  }

  /** After `s`: `%` at `j` matches the empty rest, any other character cannot. */
  lemma TrailingPercent(p: string, j: nat)
    requires j < |p|
    ensures Matches("", Tokenize(p[j..])) <==> p[j] == '%' && Matches("", Tokenize(p[j + 1..]))
  {
    TokenizeHead(p, j);
    var t := Tokenize(p[j..]);
    assert t[1..] == Tokenize(p[j + HeadWidth(p, j)..]);
    EmptyText(t);
    EmptyText(t[1..]);
    assert t[0] == HeadToken(p, j);
    assert forall k :: 0 <= k < |t| - 1 ==> t[1..][k] == t[k + 1];
    assert forall k :: 1 <= k < |t| ==> t[k] == t[1..][k - 1];
  }

  lemma TrailingEnd(p: string)
    ensures Matches("", Tokenize(p[|p|..]))
  {
  }

  method LikeMatch(s: string, p: string) returns (r: bool)
    ensures r <==> LikePattern(s, p)
  {
    hide FixedMatch, Fixed, Tokenize, Matches;
    var i, j := 0, 0;
    var star := -1;
    var m := 0;
    ghost var seg: seq<Token> := [];
    ProgressStart(s, p);
    while i < |s|
      invariant Progress(s, p, i, j, star, m, seg)
      decreases |p| - star, |s| - m, |s| - i
    {
      ghost var j0 := j;
      if j < |p| {
        if p[j] == '\\' {
          // an escaped character must match literally
          if j + 1 >= |p| {
            // dangling escape
            if s[i] == '\\' {
              seg := ProgressChar(s, p, i, j, star, m, seg);
              i, j := i + 1, j + 1;
              continue;
            }
          } else {
            j := j + 1;
            if s[i] == p[j] {
              seg := ProgressChar(s, p, i, j0, star, m, seg);
              i, j := i + 1, j + 1;
              continue;
            }
          }
        } else if p[j] == '_' {
          seg := ProgressChar(s, p, i, j, star, m, seg);
          i, j := i + 1, j + 1;
          continue;
        } else if p[j] == '%' {
          ProgressStar(s, p, i, j, star, m, seg);
          star, m, seg := j, i, [];
          j := j + 1;
          continue;
        } else if s[i] == p[j] {
          seg := ProgressChar(s, p, i, j, star, m, seg);
          i, j := i + 1, j + 1;
          continue;
        }
      }
      // backtrack: extend the last % by one more character
      ProgressMismatch(s, p, i, j0, star, m, seg);
      if star == -1 {
        return false;
      }
      j, m, seg := star + 1, m + 1, [];
      i := m;
    }
    ProgressEnd(s, p, j, star, m, seg);
    while j < |p|
      invariant 0 <= j <= |p|
      invariant LikePattern(s, p) <==> Matches("", Tokenize(p[j..]))
    {
      TrailingPercent(p, j);
      if p[j] == '%' {
        j := j + 1;
        continue;
      }
      return false;
    }
    TrailingEnd(p);
    return true;
  }

  // ---------------------------------------------------------------- likeLiteralPrefix

  /** The literal characters before the first wildcard. */
  function LiteralPrefix(t: seq<Token>): string {
    if t == [] || !t[0].Lit? then "" else [t[0].c] + LiteralPrefix(t[1..])
  }

  /** The token at `i` either ends the prefix or adds its character to it. */
  lemma LiteralPrefixStep(p: string, i: nat)
    requires i < |p|
    ensures i + HeadWidth(p, i) <= |p|
    ensures LiteralPrefix(Tokenize(p[i..])) ==
            if HeadToken(p, i).Lit? then [HeadToken(p, i).c] + LiteralPrefix(Tokenize(p[i + HeadWidth(p, i)..])) else ""
  {
    TokenizeHead(p, i);
    var t := Tokenize(p[i..]);
    assert t[1..] == Tokenize(p[i + HeadWidth(p, i)..]);
  }

  lemma LiteralPrefixEnd(p: string)
    ensures p[0..] == p && LiteralPrefix(Tokenize(p[|p|..])) == ""
  {
  }

  method LikeLiteralPrefix(p: string) returns (b: string)
    ensures b == LiteralPrefix(Tokenize(p))
  {
    hide Tokenize, LiteralPrefix;
    b := "";
    var i := 0;
    LiteralPrefixEnd(p);
    while i < |p|
      invariant 0 <= i <= |p|
      invariant LiteralPrefix(Tokenize(p)) == b + LiteralPrefix(Tokenize(p[i..]))
    {
      var c := p[i];
      LiteralPrefixStep(p, i);
      if c == '\\' {
        if i + 1 < |p| {
          b := b + [p[i + 1]];
          i := i + 1;
        } else {
          b := b + ['\\'];
        }
      } else if c == '%' || c == '_' {
        return;
      } else {
        b := b + [c];
      }
      i := i + 1;
    }
  }

  /** Narrowing to the literal prefix loses nothing. */
  lemma {:induction false} MatchHasLiteralPrefix(s: string, t: seq<Token>)
    requires Matches(s, t)
    ensures LiteralPrefix(t) <= s
  {
    if t != [] && t[0].Lit? {
      MatchHasLiteralPrefix(s[1..], t[1..]);
    }
  }

  /** Without wildcards, LIKE is equality with the prefix. */
  lemma {:induction false} NoWildcardIsEquality(s: string, t: seq<Token>)
    requires forall i :: 0 <= i < |t| ==> t[i].Lit?
    ensures Matches(s, t) <==> s == LiteralPrefix(t)
  {
    if t != [] {
      assert forall i :: 0 <= i < |t| - 1 ==> t[1..][i] == t[i + 1];
      if s != "" {
        NoWildcardIsEquality(s[1..], t[1..]);
        assert s == [s[0]] + s[1..];
      }
    }
  }
}
