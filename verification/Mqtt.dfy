/** The translation of topic filters to regular expressions, and the handler table that uses it. */
module Mqtt {
  import opened Wrappers
  import opened Regex
  import opened MqttTopics

  // ---------------------------------------------------------------- the text that is built

  predicate WildcardAt(t: string, i: int) {
    && 0 <= i < |t|
    && (t[i] == '#' || t[i] == '+')
    && (i == 0 || t[i - 1] == '/')
  }

  predicate HasWildcard(t: string) {
    exists i :: 0 <= i < |t| && WildcardAt(t, i)
  }

  /** The wildcard that may absorb the slash before it. */
  predicate LastWildcard(t: string, i: int) {
    i > 0 && i == |t| - 1 && WildcardAt(t, i)
  }

  const ANY_TEXT := "(.*)"
  const LEVEL_TEXT := "([^\\/]*)"
  const LAST_LEVEL_TEXT := "((\\/|)[^\\/]*)"

  /** `start` is where the literal text not yet written begins. */
  predicate ValidStart(t: string, i: int, start: int) {
    0 <= start <= i <= |t| && (start > 0 ==> WildcardAt(t, start - 1))
  }

  /** The group written for the wildcard at `i`, and the expression it reads back as. */
  function GroupText(t: string, i: nat): string
    requires i < |t|
  {
    if t[i] == '#' then ANY_TEXT else if LastWildcard(t, i) then LAST_LEVEL_TEXT else LEVEL_TEXT
  }

  function GroupRe(t: string, i: nat): Re
    requires i < |t|
  {
    if t[i] == '#' then ANY_GROUP else if LastWildcard(t, i) then LAST_LEVEL_GROUP else LEVEL_GROUP
  }

  /** What the scan still has to write from position `i`. */
  ghost function BodyText(t: string, i: int, start: int): string
    requires ValidStart(t, i, start)
    decreases |t| - i
  {
    if i == |t| then QuoteMeta(t[start..])
    else if WildcardAt(t, i) then
      QuoteMeta(t[start..if LastWildcard(t, i) then i - 1 else i]) + GroupText(t, i) + BodyText(t, i + 1, i + 1)
    else BodyText(t, i + 1, start)
  }

  /** The expression for the filter from position `i`. */
  function BodyRe(t: string, i: nat): Re
    requires i <= |t|
    decreases |t| - i
  {
    if i == |t| then Empty
    else if LastWildcard(t, i + 1) then Cat(GroupRe(t, i + 1), Empty)
    else if WildcardAt(t, i) then Cat(GroupRe(t, i), BodyRe(t, i + 1))
    else Cat(Lit(t[i]), BodyRe(t, i + 1))
  }

  lemma BodyTextStep(t: string, i: int, start: int)
    requires ValidStart(t, i, start)
    ensures i == |t| ==> BodyText(t, i, start) == QuoteMeta(t[start..])
    ensures i < |t| && WildcardAt(t, i) ==>
              BodyText(t, i, start) ==
              QuoteMeta(t[start..if LastWildcard(t, i) then i - 1 else i]) + GroupText(t, i) + BodyText(t, i + 1, i + 1)
    ensures i < |t| && !WildcardAt(t, i) ==> BodyText(t, i, start) == BodyText(t, i + 1, start)
  {
  }

  lemma {:induction false} LitSeqSnoc(a: string, c: char, r: Re)
    ensures LitSeq(a + [c], r) == LitSeq(a, Cat(Lit(c), r))
  {
    if a == "" {
      assert a + [c] == [c] && [c][1..] == "";
    } else {
      assert (a + [c])[1..] == a[1..] + [c];
      LitSeqSnoc(a[1..], c, r);
    }
  }

  /** The built text reads back, for every topic name: compiling it cannot fail. */
  lemma {:induction false} BodyTextParses(t: string, i: nat, start: nat)
    requires ValidStart(t, i, start)
    ensures !StartsWithQuantifier(BodyText(t, i, start) + "$")
    ensures ParseSeq(BodyText(t, i, start) + "$") ==
            if LastWildcard(t, i) then Ok(LitSeq(t[start..i - 1], BodyRe(t, i - 1)), "$")
            else Ok(LitSeq(t[start..i], BodyRe(t, i)), "$")
    decreases |t| - i
  {
    hide ParseSeq, ParseAtom, StartsWithQuantifier, QuoteMeta, LitSeq, GroupText, GroupRe, BodyText;
    BodyTextStep(t, i, start);
    if i == |t| {
      ParseEnd();
      ParseQuoted(t[start..], "$");
      assert t[start..i] == t[start..];
    } else if WildcardAt(t, i) {
      BodyTextParses(t, i + 1, i + 1);
      assert t[i + 1..i + 1] == "";
      LitSeqNil(BodyRe(t, i + 1));
      var rest := BodyText(t, i + 1, i + 1) + "$";
      var lit := if LastWildcard(t, i) then t[start..i - 1] else t[start..i];
      GroupParses(t, i, lit, rest);
      assert BodyText(t, i, start) + "$" == QuoteMeta(lit) + (GroupText(t, i) + rest);
    } else {
      BodyTextParses(t, i + 1, start);
      if !LastWildcard(t, i + 1) {
        LitSeqSnoc(t[start..i], t[i], BodyRe(t, i + 1));
        assert t[start..i + 1] == t[start..i] + [t[i]];
      }
    }
  }

  lemma GroupParses(t: string, i: nat, lit: string, rest: string)
    requires i < |t| && ParseSeq(rest).Ok? && !StartsWithQuantifier(rest)
    ensures !StartsWithQuantifier(QuoteMeta(lit) + (GroupText(t, i) + rest))
    ensures ParseSeq(QuoteMeta(lit) + (GroupText(t, i) + rest)) ==
            Ok(LitSeq(lit, Cat(GroupRe(t, i), ParseSeq(rest).re)), ParseSeq(rest).rest)
  {
    hide ParseSeq, ParseAtom, StartsWithQuantifier, QuoteMeta, LitSeq;
    ParseAnyGroup(rest);
    ParseLevelGroup(rest);
    ParseLastLevelGroup(rest);
    GroupStart(rest);
    ParseQuoted(lit, GroupText(t, i) + rest);
  }

  lemma LitSeqNil(r: Re)
    ensures LitSeq("", r) == r
  {
  }

  lemma GroupStart(rest: string)
    ensures !StartsWithQuantifier(ANY_TEXT + rest)
    ensures !StartsWithQuantifier(LEVEL_TEXT + rest)
    ensures !StartsWithQuantifier(LAST_LEVEL_TEXT + rest)
  {
  }

  lemma BodyTextCompiles(t: string)
    ensures Compile("^" + BodyText(t, 0, 0) + "$") == Anchored(BodyRe(t, 0))
  {
    BodyTextParses(t, 0, 0);
    assert t[0..0] == "";
    assert ("^" + BodyText(t, 0, 0) + "$")[1..] == BodyText(t, 0, 0) + "$";
  }

  // ---------------------------------------------------------------- the language of the expression

  predicate OptionalLastLevel(s: string) {
    NoSlash(s) || (s != "" && s[0] == '/' && NoSlash(s[1..]))
  }

  /** The topics accepted for a filter, level by level: a last wildcard continues the level before it. */
  predicate Accepted(levels: seq<string>, s: string)
    decreases |levels|, 0
  {
    if levels == [] then false
    else if |levels| == 1 then (if levels[0] == "#" then NoNewline(s) else LevelMatches(levels[0], s))
    else exists k :: 0 <= k <= |s| && LevelMatches(levels[0], s[..k]) && Continues(levels[1..], s[k..])
  }

  /** What may follow a level, `rest` being the levels after it. */
  predicate Continues(rest: seq<string>, s: string)
    decreases |rest|, 1
  {
    if rest == ["+"] then OptionalLastLevel(s)
    else if rest == ["#"] then NoNewline(s)
    else s != "" && s[0] == '/' && Accepted(rest, s[1..])
  }

  lemma AcceptsLevelGroup(r: Re, s: string)
    ensures Accepts(Cat(LEVEL_GROUP, r), s) <==> exists k :: 0 <= k <= |s| && NoSlash(s[..k]) && Accepts(r, s[k..])
  {
    forall k | 0 <= k <= |s| ensures Accepts(LEVEL_GROUP, s[..k]) <==> NoSlash(s[..k]) {
      AcceptsThenEmpty(Star(NotSlash), s[..k]);
      StarNotSlash(s[..k]);
    }
  }

  lemma AcceptsAnyGroup(s: string)
    ensures Accepts(Cat(ANY_GROUP, Empty), s) <==> NoNewline(s)
  {
    AcceptsThenEmpty(ANY_GROUP, s);
    AcceptsThenEmpty(Star(Dot), s);
    StarDot(s);
  }

  lemma AcceptsLastLevelGroup(s: string)
    ensures Accepts(Cat(LAST_LEVEL_GROUP, Empty), s) <==> OptionalLastLevel(s)
  {
    AcceptsThenEmpty(LAST_LEVEL_GROUP, s);
    forall k | 0 <= k <= |s|
      ensures Accepts(OPTIONAL_SLASH, s[..k]) <==> s[..k] == "/" || s[..k] == ""
      ensures Accepts(LEVEL_GROUP, s[k..]) <==> NoSlash(s[k..])
    {
      AcceptsThenEmpty(Lit('/'), s[..k]);
      AcceptsThenEmpty(Star(NotSlash), s[k..]);
      StarNotSlash(s[k..]);
    }
    assert s[..0] == "" && s[0..] == s;
    if s != "" && s[0] == '/' {
      assert s[..1] == "/";
    }
    if Accepts(LAST_LEVEL_GROUP, s) {
      var k :| 0 <= k <= |s| && Accepts(OPTIONAL_SLASH, s[..k]) && Accepts(LEVEL_GROUP, s[k..]);
      assert k <= 1;
    }
  }

  /** A plain level is written as literals. */
  lemma {:induction false} PlainLevelRe(t: string, i: nat, j: nat)
    requires i <= j <= |t| && PlainLevel(t[i..j])
    ensures BodyRe(t, i) == LitSeq(t[i..j], BodyRe(t, j))
    decreases j - i
  {
    if i < j {
      assert t[i..j][1..] == t[i + 1..j] && t[i..j][0] == t[i];
      assert forall k :: 0 <= k < j - i ==> t[i..j][k] == t[i + k];
      PlainLevelRe(t, i + 1, j);
    }
  }

  lemma SplitAt(t: string, i: nat) returns (j: nat)
    requires i <= |t|
    ensures i <= j <= |t| && NoSlash(t[i..j]) && Split(t[i..])[0] == t[i..j]
    ensures j == |t| <==> |Split(t[i..])| == 1
    ensures j < |t| ==> t[j] == '/' && Split(t[i..])[1..] == Split(t[j + 1..])
  {
    hide FirstSlash;
    var s := t[i..];
    j := i + FirstSlash(s);
    assert t[i..j] == s[..j - i];
    if j < |t| {
      assert s[j - i + 1..] == t[j + 1..];
    }
  }

  predicate LevelStart(t: string, i: int) {
    0 <= i <= |t| && (i == 0 || t[i - 1] == '/')
  }

  /** The head of a valid filter that is not its last wildcard: one level, then what follows it. */
  lemma LevelReAccepts(t: string, i: nat, j: nat, s: string)
    requires LevelStart(t, i) && i <= j <= |t|
    requires PlainLevel(t[i..j]) || (t[i..j] == "+" && !LastWildcard(t, i))
    ensures Accepts(BodyRe(t, i), s) <==>
            exists k :: 0 <= k <= |s| && LevelMatches(t[i..j], s[..k]) && Accepts(BodyRe(t, j), s[k..])
  {
    hide Accepts;
    var l := t[i..j];
    if l == "+" {
      assert l[0] == t[i] == '+' && WildcardAt(t, i) && !LastWildcard(t, i + 1);
      AcceptsLevelGroup(BodyRe(t, j), s);
    } else {
      PlainLevelRe(t, i, j);
      AcceptsLitSeq(l, BodyRe(t, j), s);
      if l <= s {
        assert s[..|l|] == l;
      }
    }
  }

  lemma SlashReAccepts(t: string, j: nat, s: string)
    requires j < |t| && t[j] == '/'
    ensures Accepts(BodyRe(t, j), s) <==>
            if LastWildcard(t, j + 1) then (if t[j + 1] == '#' then NoNewline(s) else OptionalLastLevel(s))
            else s != "" && s[0] == '/' && Accepts(BodyRe(t, j + 1), s[1..])
  {
    hide Accepts;
    if LastWildcard(t, j + 1) {
      AcceptsAnyGroup(s);
      AcceptsLastLevelGroup(s);
    } else {
      AcceptsLitThen('/', BodyRe(t, j + 1), s);
    }
  }

  /** For valid filters the expression accepts exactly the language `Accepted`. */
  lemma {:induction false} BodyReAccepts(t: string, i: nat, levels: seq<string>, s: string)
    requires LevelStart(t, i) && levels == Split(t[i..]) && ValidFilter(levels) && !LastWildcard(t, i)
    ensures Accepts(BodyRe(t, i), s) <==> Accepted(levels, s)
    decreases |t| - i, 1
  {
    hide Accepts, FirstSlash;
    var j := SplitAt(t, i);
    var l := t[i..j];
    assert levels[0] == l;
    if l == "#" {
      assert levels == ["#"] && l[0] == t[i] && i == 0 && j == 1 == |t|;
      AcceptsAnyGroup(s);
    } else {
      LevelReAccepts(t, i, j, s);
      if j == |t| {
        LastLevel(l, BodyRe(t, j), s);
      } else {
        forall k | 0 <= k <= |s|
          ensures Accepts(BodyRe(t, j), s[k..]) <==> Continues(levels[1..], s[k..])
        {
          SlashReContinues(t, j, levels[1..], s[k..]);
        }
      }
    }
  }

  lemma {:induction false} SlashReContinues(t: string, j: nat, rest: seq<string>, s: string)
    requires j < |t| && t[j] == '/' && rest == Split(t[j + 1..]) && ValidFilter(rest)
    ensures Accepts(BodyRe(t, j), s) <==> Continues(rest, s)
    decreases |t| - j, 0
  {
    hide Accepts, FirstSlash, Split;
    SlashReAccepts(t, j, s);
    SingleWildcard(t, j + 1);
    if !LastWildcard(t, j + 1) && s != "" {
      BodyReAccepts(t, j + 1, rest, s[1..]);
    }
  }

  lemma LastLevel(l: string, r: Re, s: string)
    requires r == Empty
    ensures LevelMatches(l, s) <==>
            exists k :: 0 <= k <= |s| && LevelMatches(l, s[..k]) && Accepts(r, s[k..])
  {
    assert s[..|s|] == s && s[|s|..] == "";
    if exists k :: 0 <= k <= |s| && LevelMatches(l, s[..k]) && Accepts(r, s[k..]) {
      var k :| 0 <= k <= |s| && LevelMatches(l, s[..k]) && Accepts(r, s[k..]);
      assert k == |s|;
    }
  }

  lemma SingleWildcard(t: string, i: nat)
    requires 0 < i <= |t| && t[i - 1] == '/'
    ensures LastWildcard(t, i) && t[i] == '+' <==> Split(t[i..]) == ["+"]
    ensures LastWildcard(t, i) && t[i] == '#' <==> Split(t[i..]) == ["#"]
  {
    var j := SplitAt(t, i);
    if LastWildcard(t, i) {
      assert t[i..] == [t[i]];
      SplitOne(t[i..]);
    }
    if Split(t[i..]) == ["+"] || Split(t[i..]) == ["#"] {
      assert t[i..j][0] == t[i];
    }
  }

  lemma ValidHasWildcard(t: string, i: nat)
    requires LevelStart(t, i) && ValidFilter(Split(t[i..]))
    requires exists k :: i <= k < |t| && (t[k] == '+' || t[k] == '#')
    ensures HasWildcard(t)
    decreases |t| - i
  {
    hide Split, FirstSlash;
    var j := SplitAt(t, i);
    if PlainLevel(t[i..j]) {
      assert forall k :: i <= k < j ==> t[k] == t[i..j][k - i];
      ValidHasWildcard(t, j + 1);
    } else {
      assert t[i..j][0] == t[i];
      assert WildcardAt(t, i);
    }
  }

  // ---------------------------------------------------------------- buildRegexForTopic

  /** The slices of the scan are always in bounds, the text always compiles, and for a valid filter
      it accepts exactly the language `Accepted`. */
  method BuildRegexForTopic(topicName: string) returns (regexStr: string)
    ensures regexStr == "" <==> !HasWildcard(topicName)
    ensures regexStr != "" ==> Compile(regexStr).Anchored?
    ensures regexStr != "" && ValidFilter(Split(topicName)) ==>
              forall s :: Accepts(Compile(regexStr).re, s) <==> Accepted(Split(topicName), s)
  {
    hide QuoteMeta, Compile, Accepts, Accepted, ValidFilter, Split, FirstSlash, BodyText;
    regexStr := "";
    var lastPos := -1;
    var start := 0;
    if '#' in topicName || '+' in topicName {
      var sb := "^";
      ghost var n := |topicName|;
      for i := 0 to |topicName|
        invariant -1 <= lastPos < i && start == lastPos + 1 && ValidStart(topicName, i, start)
        invariant lastPos == -1 ==> forall k :: 0 <= k < i ==> !WildcardAt(topicName, k)
        invariant "^" + BodyText(topicName, 0, 0) == sb + BodyText(topicName, i, start)
      {
        BodyTextStep(topicName, i, start);
        var okPos := i == 0 || topicName[i - 1] == '/';
        if topicName[i] == '#' && okPos {
          assert WildcardAt(topicName, i);
          lastPos := i;
          if i > 0 && i == |topicName| - 1 {
            sb := sb + (QuoteMeta(topicName[start..i - 1]) + "(.*)");
          } else {
            sb := sb + (QuoteMeta(topicName[start..i]) + "(.*)");
          }
          start := i + 1;
        } else if topicName[i] == '+' && okPos {
          assert WildcardAt(topicName, i);
          lastPos := i;
          if i > 0 && i == |topicName| - 1 {
            sb := sb + (QuoteMeta(topicName[start..i - 1]) + "((\\/|)[^\\/]*)");
          } else {
            sb := sb + (QuoteMeta(topicName[start..i]) + "([^\\/]*)");
          }
          start := i + 1;
        }
      }
      sb := sb + QuoteMeta(topicName[lastPos + 1..]) + "$";
      regexStr := sb;
      BodyTextStep(topicName, |topicName|, start);
      assert regexStr == "^" + BodyText(topicName, 0, 0) + "$";
      BodyTextCompiles(topicName);
      if ValidFilter(Split(topicName)) {
        assert topicName[0..] == topicName;
        forall s ensures Accepts(BodyRe(topicName, 0), s) <==> Accepted(Split(topicName), s) {
          BodyReAccepts(topicName, 0, Split(topicName), s);
        }
      }
    }
    if lastPos == -1 {
      regexStr := "";
    }
  }

  // ---------------------------------------------------------------- against the standard

  /** Nothing that the standard matches is missed. */
  lemma {:induction false} CoversStandard(levels: seq<string>, s: string)
    requires ValidFilter(levels) && NoNewline(s) && FilterMatches(levels, Split(s))
    ensures Accepted(levels, s)
    decreases |levels|
  {
    var k := FirstSlash(s);
    if |levels| > 1 {
      assert s[..k] == Split(s)[0];
      var rest, T := levels[1..], Split(s)[1..];
      assert FilterMatches(rest, T);
      if rest == ["+"] {
        assert FilterMatches(rest[1..], T[1..]);
        assert T[1..] == [];
        assert k < |s| && Split(s[k + 1..]) == [s[k + 1..]];
        assert s[k..][1..] == s[k + 1..];
        assert OptionalLastLevel(s[k..]);
      } else if rest == ["#"] {
        assert NoNewline(s[k..]);
      } else {
        assert rest[0] != "#" && k < |s|;
        CoversStandard(rest, s[k + 1..]);
        assert s[k..][1..] == s[k + 1..];
      }
      assert Continues(rest, s[k..]);
    } else if levels[0] != "#" {
      assert |Split(s)| == 1;
    }
  }

  /** The filters for which the expression says what the standard says: no wildcard in the last of
      several levels, or `#` right after `+`. */
  predicate Exact(levels: seq<string>) {
    var n := |levels|;
    n >= 2 ==> levels[n - 1] != "+" && (levels[n - 1] == "#" ==> levels[n - 2] == "+")
  }

  lemma {:induction false} ExactIsSound(levels: seq<string>, s: string)
    requires ValidFilter(levels) && Exact(levels) && Accepted(levels, s)
    ensures FilterMatches(levels, Split(s))
    decreases |levels|
  {
    hide Split, FirstSlash, FilterMatches, Accepted, Continues, LevelMatches, NoNewline;
    if |levels| == 1 {
      SingleLevelFilter(levels, s);
    } else if levels[1..] == ["#"] {
      assert levels[0] == "+" && levels == ["+", "#"];
      AnyTopic(s);
    } else {
      assert levels[1..] != ["+"];
      var u, v := AcceptedCons(levels, s);
      ExactIsSound(levels[1..], v);
      FilterMatchesCons(levels, u, v);
    }
  }

  lemma AcceptedCons(levels: seq<string>, s: string) returns (u: string, v: string)
    requires |levels| > 1 && levels[1..] != ["+"] && levels[1..] != ["#"] && Accepted(levels, s)
    ensures s == u + "/" + v && LevelMatches(levels[0], u) && Accepted(levels[1..], v)
  {
    hide LevelMatches, NoNewline, OptionalLastLevel;
    var k :| 0 <= k <= |s| && LevelMatches(levels[0], s[..k]) && Continues(levels[1..], s[k..]);
    u, v := s[..k], s[k..][1..];
    assert s[k] == '/' && v == s[k + 1..];
    assert s == s[..k] + [s[k]] + s[k + 1..];
  }

  lemma SingleLevelFilter(levels: seq<string>, s: string)
    requires |levels| == 1 && ValidFilter(levels) && Accepted(levels, s)
    ensures FilterMatches(levels, Split(s))
  {
    if levels[0] != "#" {
      SplitOne(s);
    }
  }

  lemma AnyTopic(s: string)
    ensures FilterMatches(["+", "#"], Split(s))
  {
    var T := Split(s);
    assert NoSlash(T[0]);
    assert ["+", "#"][1..][0] == "#";
    assert FilterMatches(["+", "#"][1..], T[1..]);
  }

  lemma FilterMatchesCons(levels: seq<string>, u: string, v: string)
    requires levels != [] && ValidFilter(levels) && levels[0] != "#" && LevelMatches(levels[0], u)
    ensures FilterMatches(levels, Split(u + "/" + v)) <==> FilterMatches(levels[1..], Split(v))
  {
    SplitCons(u, v);
  }

  /** A topic the expression accepts although the standard does not. */
  function LaxTopic(levels: seq<string>): string
    requires |levels| >= 2
  {
    var first := if levels[0] == "+" then "" else levels[0];
    if |levels| == 2 then first + "x" else first + "/" + LaxTopic(levels[1..])
  }

  lemma {:induction false} LaxTopicWitness(levels: seq<string>)
    requires ValidFilter(levels) && |levels| >= 2 && !Exact(levels)
    requires forall l :: l in levels ==> NoNewline(l)
    ensures NoNewline(LaxTopic(levels)) && LaxTopic(levels) != ""
    ensures Accepted(levels, LaxTopic(levels)) && !FilterMatches(levels, Split(LaxTopic(levels)))
    decreases |levels|
  {
    var s := LaxTopic(levels);
    var first := if levels[0] == "+" then "" else levels[0];
    assert levels[0] in levels && LevelMatches(levels[0], first) && NoSlash(first);
    hide Split, FirstSlash, FilterMatches, Accepted, Continues;
    if |levels| == 2 {
      LaxTopicBase(levels, first);
    } else {
      var rest := LaxTopic(levels[1..]);
      LaxTopicWitness(levels[1..]);
      assert levels[1] == levels[1..][0] && levels[1] != "#";
      assert levels[0] != "#";
      AcceptedConsOf(levels, first, rest);
      FilterMatchesCons(levels, first, rest);
    }
  }

  lemma LaxTopicBase(levels: seq<string>, first: string)
    requires |levels| == 2 && ValidFilter(levels) && !Exact(levels)
    requires LevelMatches(levels[0], first) && NoSlash(first)
    requires first == if levels[0] == "+" then "" else levels[0]
    ensures Accepted(levels, first + "x") && !FilterMatches(levels, Split(first + "x"))
  {
    var s := first + "x";
    assert levels[1..] == [levels[1]];
    assert s[..|first|] == first && s[|first|..] == "x";
    SplitOne(s);
    assert Continues(levels[1..], s[|first|..]);
  }

  lemma AcceptedConsOf(levels: seq<string>, u: string, v: string)
    requires |levels| > 2 && LevelMatches(levels[0], u) && Accepted(levels[1..], v)
    ensures Accepted(levels, u + "/" + v)
  {
    var s := u + "/" + v;
    assert s[..|u|] == u && s[|u|..][1..] == v;
    assert Continues(levels[1..], s[|u|..]);
  }

  /** The expression for a filter and the standard agree on all newline-free topic names exactly
      when the filter is `Exact`; otherwise the expression accepts more, never less. */
  lemma AgreesWithStandardIff(filter: string)
    requires ValidFilter(Split(filter))
    requires forall l :: l in Split(filter) ==> NoNewline(l)
    ensures forall s :: NoNewline(s) && TopicMatches(filter, s) ==> Accepted(Split(filter), s)
    ensures Exact(Split(filter)) <==>
            forall s :: NoNewline(s) && s != "" ==> (Accepted(Split(filter), s) <==> TopicMatches(filter, s))
  {
    var levels := Split(filter);
    forall s | NoNewline(s) && TopicMatches(filter, s) ensures Accepted(levels, s) {
      CoversStandard(levels, s);
    }
    if Exact(levels) {
      forall s | NoNewline(s) && Accepted(levels, s) ensures TopicMatches(filter, s) {
        ExactIsSound(levels, s);
      }
    } else {
      LaxTopicWitness(levels);
      assert !TopicMatches(filter, LaxTopic(levels));
    }
  }

  // ---------------------------------------------------------------- the handler table

  /** Where the filter of `$share/GROUP/filter` begins: after the first slash from `k` on that has
      a character behind it; 0 when there is none. */
  function SharedCut(t: string, k: nat): (cut: nat)
    ensures cut < |t| || cut == 0
    ensures cut > 0 ==> k < cut && t[cut - 1] == '/'
    decreases |t| - k
  {
    if k + 1 >= |t| || t[k] == '\n' then 0
    else if t[k] == '/' && t[k + 1] != '\n' then k + 1
    else SharedCut(t, k + 1)
  }

  const SHARE_PREFIX := "$share/"

  function Cut(topicName: string): (cut: nat)
    ensures cut <= |topicName|
  {
    if SHARE_PREFIX <= topicName then SharedCut(topicName, |SHARE_PREFIX|) else 0
  }

  /** The filter a subscription name stands for. */
  function EffectiveFilter(topicName: string): string {
    topicName[Cut(topicName)..]
  }

  lemma {:induction false} SharedCutGroup(t: string, k: nat, n: nat)
    requires k <= n < |t| - 1 && t[n] == '/' && t[n + 1] != '\n'
    requires forall i :: k <= i < n ==> t[i] != '/' && t[i] != '\n'
    ensures SharedCut(t, k) == n + 1
    decreases n - k
  {
    if k < n {
      SharedCutGroup(t, k + 1, n);
    }
  }

  /** A shared subscription stands for its filter, whatever its group is called. */
  lemma SharedSubscription(group: string, filter: string)
    requires NoSlash(group) && NoNewline(group) && filter != "" && filter[0] != '\n'
    ensures EffectiveFilter(SHARE_PREFIX + group + "/" + filter) == filter
  {
    var t := SHARE_PREFIX + group + "/" + filter;
    var n := |SHARE_PREFIX| + |group|;
    assert t[n] == '/' && t[n + 1] == filter[0];
    assert forall i :: |SHARE_PREFIX| <= i < n ==> t[i] == group[i - |SHARE_PREFIX|];
    SharedCutGroup(t, |SHARE_PREFIX|, n);
    assert t[n + 1..] == filter;
  }

  /** On the characters of a name: it is `$share/`, a group without slash and newline that ends at the
      slash in place `n`, and a filter behind it that begins with no newline. */
  predicate Shares(t: string, n: int) {
    && "$share/" <= t && 7 <= n < |t| - 1 && t[n] == '/' && t[n + 1] != '\n'
    && forall i :: 7 <= i < n ==> t[i] != '/' && t[i] != '\n'
  }

  lemma {:induction false} SharedCutIff(t: string, k: nat, n: int)
    requires k <= n
    ensures SharedCut(t, k) == n + 1 <==>
            && n < |t| - 1 && t[n] == '/' && t[n + 1] != '\n'
            && forall i :: k <= i < n ==> t[i] != '/' && t[i] != '\n'
    decreases n - k
  {
    if k < n && k + 1 < |t| && t[k] != '\n' {
      SharedCutIff(t, k + 1, n);
    }
  }

  /** A name is stripped exactly when it is a shared one, and behind the slash that ends the group. */
  lemma StrippedIff(t: string)
    ensures forall n :: Shares(t, n) <==> n >= 0 && Cut(t) == n + 1
    ensures Cut(t) == 0 <==> forall n :: !Shares(t, n)
  {
    hide SharedCut;
    forall n ensures Shares(t, n) <==> n >= 0 && Cut(t) == n + 1 {
      if SHARE_PREFIX <= t && n >= 7 {
        SharedCutIff(t, 7, n);
      } else if SHARE_PREFIX <= t {
        CutBeyond(t, 7);
      }
    }
    if Cut(t) > 0 {
      assert Shares(t, Cut(t) - 1);
    }
  }

  lemma CutBeyond(t: string, k: nat)
    ensures SharedCut(t, k) == 0 || SharedCut(t, k) > k
  {
  }

  /** What a name stands for: itself, or the filter behind the group. */
  ghost predicate StandsFor(name: string, filter: string) {
    ((forall n :: !Shares(name, n)) && filter == name) || (exists n :: Shares(name, n) && filter == name[n + 1..])
  }

  lemma StandsForIff(name: string, filter: string)
    ensures StandsFor(name, filter) <==> filter == EffectiveFilter(name)
  {
    hide Cut, Shares;
    StrippedIff(name);
    assert name[0..] == name;
    if Cut(name) > 0 {
      assert Shares(name, Cut(name) - 1);
    }
  }

  datatype Subscription = Subscription(handler: nat, alias: string, matcher: Option<Re>)

  /** What a stored subscription must know about the name it was made for. */
  ghost predicate Describes(sub: Subscription, topicName: string) {
    var filter := EffectiveFilter(topicName);
    && (sub.alias == if Cut(topicName) > 0 then filter else "")
    && (sub.matcher.Some? <==> HasWildcard(filter))
    && (sub.matcher.Some? && ValidFilter(Split(filter)) ==>
          forall s :: Accepts(sub.matcher.value, s) <==> Accepted(Split(filter), s))
  }

  /** The conditions that handlerForTopic tests, for one table entry. */
  predicate Serves(topicName: string, sub: Subscription, topic: string) {
    topicName == topic || sub.alias == topic || (sub.matcher.Some? && Accepts(sub.matcher.value, topic))
  }

  lemma SplitParts(f: string)
    ensures Split(f)[0] == f[..FirstSlash(f)]
    ensures FirstSlash(f) == |f| ==> Split(f) == [f]
    ensures FirstSlash(f) < |f| ==> |Split(f)| > 1 && Split(f)[1..] == Split(f[FirstSlash(f) + 1..])
    ensures FirstSlash(f) < |f| ==> f == f[..FirstSlash(f)] + "/" + f[FirstSlash(f) + 1..]
  {
    hide FirstSlash;
  }

  lemma PlainHeadMatches(levels: seq<string>, T: seq<string>)
    requires levels != [] && levels[0] != "+" && levels[0] != "#" && FilterMatches(levels, T)
    ensures T != [] && T[0] == levels[0] && FilterMatches(levels[1..], T[1..])
    ensures |levels| == 1 ==> |T| == 1
  {
  }

  /** Without wildcards the standard asks for equality. */
  lemma {:induction false} NoWildcardIsEquality(f: string, s: string)
    requires '+' !in f && '#' !in f && TopicMatches(f, s)
    ensures f == s
    decreases |f|
  {
    hide Split, FirstSlash, FilterMatches;
    var k, n := FirstSlash(f), FirstSlash(s);
    SplitParts(f);
    SplitParts(s);
    assert k > 0 ==> f[..k][0] == f[0];
    PlainHeadMatches(Split(f), Split(s));
    if k < |f| {
      var rest := f[k + 1..];
      SplitParts(rest);
      assert FirstSlash(rest) > 0 ==> rest[..FirstSlash(rest)][0] == rest[0] && rest[0] in f;
      SomeLevels(Split(f)[1..], Split(s)[1..]);
      NoWildcardIsEquality(rest, s[n + 1..]);
    }
  }

  lemma SomeLevels(levels: seq<string>, T: seq<string>)
    requires levels != [] && levels[0] != "#" && FilterMatches(levels, T)
    ensures T != []
  {
  }

  /** A delivered message finds its subscription: what the standard matches, the table serves. */
  lemma StandardIsServed(topicName: string, sub: Subscription, topic: string)
    requires Describes(sub, topicName) && NoNewline(topic) && topic != ""
    requires ValidFilter(Split(EffectiveFilter(topicName)))
    requires TopicMatches(EffectiveFilter(topicName), topic)
    ensures Serves(topicName, sub, topic)
  {
    var f := EffectiveFilter(topicName);
    assert f[0..] == f;
    if '+' in f || '#' in f {
      ValidHasWildcard(f, 0);
      CoversStandard(Split(f), topic);
    } else {
      NoWildcardIsEquality(f, topic);
    }
  }

  /** All names stand for valid filters on which expression and standard agree. */
  ghost predicate AllExact(names: set<string>) {
    forall f, filter :: f in names && StandsFor(f, filter) ==> AllWellPlaced(filter) && Exact(Split(filter))
  }

  /** The handler belongs to a name that is the topic, or whose filter is it or matches it. */
  ghost predicate FoundRightly(topics: map<string, Subscription>, topic: string, handler: nat) {
    exists f, filter :: f in topics && StandsFor(f, filter) && topics[f].handler == handler
                        && (topic == f || topic == filter || TopicMatches(filter, topic))
  }

  lemma ServedRightly(topics: map<string, Subscription>, f: string, topic: string)
    requires f in topics && Describes(topics[f], f) && Serves(f, topics[f], topic)
    requires topic != "" && AllExact(topics.Keys)
    ensures FoundRightly(topics, topic, topics[f].handler)
  {
    hide Shares, Cut, Split, AllWellPlaced, Exact, Accepted, Accepts, FilterMatches, HasWildcard;
    var filter := EffectiveFilter(f);
    StandsForIff(f, filter);
    ValidFilterIff(filter);
    hide StandsFor;
    if topic != f && topics[f].alias != topic {
      ExactIsSound(Split(filter), topic);
    }
  }

  /** In particular a plain name stands for itself. */
  lemma PlainStandsForItself(name: string)
    requires !("$share/" <= name)
    ensures StandsFor(name, name)
  {
  }

  class MqttPubSub {
    var topics: map<string, Subscription>

    ghost predicate Valid()
      reads this
    {
      forall f :: f in topics ==> Describes(topics[f], f)
    }

    constructor ()
      ensures Valid() && topics == map[]
    {
      topics := map[];
    }

    method AddTopic(origTopicName: string, handler: nat)
      requires Valid()
      modifies this
      ensures Valid()
      ensures topics.Keys == old(topics).Keys + {origTopicName}
      ensures topics[origTopicName].handler == handler
      ensures (forall n :: !Shares(origTopicName, n)) ==> topics[origTopicName].alias == ""
      ensures forall n :: Shares(origTopicName, n) ==> topics[origTopicName].alias == origTopicName[n + 1..]
      ensures forall f :: f in old(topics) && f != origTopicName ==> topics[f] == old(topics)[f]
    {
      StrippedIff(origTopicName);
      hide Accepts, Accepted, Split, ValidFilter, Compile, HasWildcard, Cut, Shares;
      var topicName := origTopicName;
      var alias := "";
      var cut := Cut(origTopicName);
      if cut > 0 {
        topicName := topicName[cut..];
        alias := topicName;
      }
      assert topicName == EffectiveFilter(origTopicName);
      var regexStr := BuildRegexForTopic(topicName);
      var matcher := None;
      if regexStr != "" {
        matcher := Some(Compile(regexStr).re);
      }
      topics := topics[origTopicName := Subscription(handler, alias, matcher)];
    }

    /** The handler found serves the topic; none is found only when no entry serves it, and then no
        valid subscription matches the topic under the standard. */
    method HandlerForTopic(topic: string) returns (handler: Option<nat>)
      requires Valid()
      ensures handler.Some? ==>
              exists f :: f in topics && Serves(f, topics[f], topic) && topics[f].handler == handler.value
      ensures topic in topics ==> handler == Some(topics[topic].handler)
      ensures handler.None? ==> forall f :: f in topics ==> !Serves(f, topics[f], topic)
      ensures handler.None? && NoNewline(topic) && topic != "" ==>
                forall f, filter :: f in topics && StandsFor(f, filter) && AllWellPlaced(filter) ==>
                  !TopicMatches(filter, topic)
      ensures handler.Some? && topic != "" && AllExact(topics.Keys) ==> FoundRightly(topics, topic, handler.value)
    {
      hide Accepts, Split, FilterMatches, ValidFilter, StandsFor, AllWellPlaced, AllExact, FoundRightly;
      if topic in topics {
        if topic != "" && AllExact(topics.Keys) {
          ServedRightly(topics, topic, topic);
        }
        return Some(topics[topic].handler);
      }
      var left := topics.Keys;
      while left != {}
        invariant left <= topics.Keys
        invariant forall f :: f in topics && f !in left ==> !Serves(f, topics[f], topic)
      {
        var f :| f in left;
        var obj := topics[f];
        if Serves(f, obj, topic) && topic != "" && AllExact(topics.Keys) {
          ServedRightly(topics, f, topic);
        }
        if obj.alias == topic {
          return Some(obj.handler);
        }
        if obj.matcher.Some? && Accepts(obj.matcher.value, topic) {
          return Some(obj.handler);
        }
        left := left - {f};
      }
      if NoNewline(topic) && topic != "" {
        forall f, filter | f in topics && StandsFor(f, filter) && AllWellPlaced(filter)
          ensures !TopicMatches(filter, topic)
        {
          StandsForIff(f, filter);
          ValidFilterIff(filter);
          if TopicMatches(filter, topic) {
            StandardIsServed(f, topics[f], topic);
          }
        }
      }
      return None;
    }
  }
}
