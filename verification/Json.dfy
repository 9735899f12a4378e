/** The part of JSON that filters are written in: strings, numbers, booleans, arrays and objects, with
    spaces between tokens. */
module Json {
  import opened Wrappers
  import opened Numbers

  datatype Json =
    | JStr(s: string)
    | JNum(x: Number)
    | JBool(b: bool)
    | JArr(elements: seq<Json>)
    | JObj(members: seq<(string, Json)>)

  function Skip(t: string): (r: string)
    ensures |r| <= |t|
  {
    if t != "" && t[0] == ' ' then Skip(t[1..]) else t
  }

  /** The characters a JSON escape stands for. */
  function Unescape(c: char): Option<char> {
    if c == '"' || c == '\\' || c == '/' then Some(c)
    else if c == 'b' then Some(8 as char)
    else if c == 'f' then Some(12 as char)
    else if c == 'n' then Some('\n')
    else if c == 'r' then Some('\r')
    else if c == 't' then Some('\t')
    else None
  }

  /** Reads up to the closing quote. */
  function ParseString(t: string): (r: Parsed<string>)
    ensures r.Ok? ==> |r.rest| < |t|
  {
    if t == "" || t[0] < ' ' then Fail
    else if t[0] == '"' then Ok("", t[1..])
    else if t[0] == '\\' then
      if |t| < 2 || Unescape(t[1]).None? then Fail
      else
        var r := ParseString(t[2..]);
        if r.Fail? then Fail else Ok([Unescape(t[1]).value] + r.value, r.rest)
    else
      var r := ParseString(t[1..]);
      if r.Fail? then Fail else Ok([t[0]] + r.value, r.rest)
  }

  function StripPrefix(t: string, prefix: string): Option<string> {
    if prefix <= t then Some(t[|prefix|..]) else None
  }

  function ParseValue(t: string): (r: Parsed<Json>)
    ensures r.Ok? ==> |r.rest| < |t|
    decreases |t|, 0
  {
    var u := Skip(t);
    if u == "" then Fail
    else if u[0] == '"' then
      var r := ParseString(u[1..]);
      if r.Fail? then Fail else Ok(JStr(r.value), r.rest)
    else if u[0] == '{' then
      var r := ParseMembers(u[1..], true);
      if r.Fail? then Fail else Ok(JObj(r.value), r.rest)
    else if u[0] == '[' then
      var r := ParseElements(u[1..], true);
      if r.Fail? then Fail else Ok(JArr(r.value), r.rest)
    else if StripPrefix(u, "true").Some? then Ok(JBool(true), StripPrefix(u, "true").value)
    else if StripPrefix(u, "false").Some? then Ok(JBool(false), StripPrefix(u, "false").value)
    else
      var r := ParseNumber(u);
      if r.Fail? then Fail else Ok(JNum(r.value), r.rest)
  }

  function ParseElements(t: string, first: bool): (r: Parsed<seq<Json>>)
    ensures r.Ok? ==> |r.rest| < |t|
    decreases |t|, 1
  {
    var u := Skip(t);
    if first && u != "" && u[0] == ']' then Ok([], u[1..])
    else
      var v := ParseValue(t);
      if v.Fail? then Fail
      else
        var w := Skip(v.rest);
        if w != "" && w[0] == ']' then Ok([v.value], w[1..])
        else if w != "" && w[0] == ',' then
          var e := ParseElements(w[1..], false);
          if e.Fail? then Fail else Ok([v.value] + e.value, e.rest)
        else Fail
  }

  function ParseMembers(t: string, first: bool): (r: Parsed<seq<(string, Json)>>)
    ensures r.Ok? ==> |r.rest| < |t|
    decreases |t|, 1
  {
    var u := Skip(t);
    if first && u != "" && u[0] == '}' then Ok([], u[1..])
    else if u == "" || u[0] != '"' then Fail
    else
      var k := ParseString(u[1..]);
      if k.Fail? then Fail
      else
        var c := Skip(k.rest);
        if c == "" || c[0] != ':' then Fail
        else
          var v := ParseValue(c[1..]);
          if v.Fail? then Fail
          else
            var w := Skip(v.rest);
            if w != "" && w[0] == '}' then Ok([(k.value, v.value)], w[1..])
            else if w != "" && w[0] == ',' then
              var e := ParseMembers(w[1..], false);
              if e.Fail? then Fail else Ok([(k.value, v.value)] + e.value, e.rest)
            else Fail
  }

  /** The value of a whole text. */
  function Read(t: string): Option<Json> {
    var r := ParseValue(t);
    if r.Ok? && Skip(r.rest) == "" then Some(r.value) else None
  }

  // ---------------------------------------------------------------- facts

  lemma SkipSpaces(t: string)
    ensures Skip(" " + t) == Skip(t)
    ensures t != "" && t[0] != ' ' ==> Skip(t) == t
  {
    assert (" " + t)[1..] == t;
  }

  lemma ParseValueSpace(t: string)
    ensures ParseValue(" " + t) == ParseValue(t)
  {
    SkipSpaces(t);
  }

  predicate PlainText(s: string) {
    forall i :: 0 <= i < |s| ==> ' ' <= s[i] && s[i] != '"' && s[i] != '\\'
  }

  lemma {:induction false} ParsePlainString(s: string, t: string)
    requires PlainText(s)
    ensures ParseString(s + ("\"" + t)) == Ok(s, t)
  {
    if s == "" {
      assert s + ("\"" + t) == "\"" + t;
      assert ("\"" + t)[1..] == t;
    } else {
      var x := s + ("\"" + t);
      assert x[1..] == s[1..] + ("\"" + t) && x[0] == s[0];
      ParsePlainString(s[1..], t);
      assert s == [s[0]] + s[1..];
    }
  }

  /** `sp` is the spacing inside the braces: none or one space. */
  function ObjectText(key: string, body: string, sp: string): string {
    "{" + sp + "\"" + key + "\": " + body + sp + "}"
  }

  /** The same text with what follows it, piece after piece as a reader meets it. */
  function MemberThen(key: string, body: string, sp: string, t: string): string {
    "\"" + (key + ("\"" + (":" + (" " + (body + (sp + ("}" + t)))))))
  }

  lemma ObjectTextThen(key: string, body: string, sp: string, t: string)
    ensures ObjectText(key, body, sp) + t == "{" + (sp + MemberThen(key, body, sp, t))
  {
  }

  /** An object with one plain key reads back exactly when its body does. */
  lemma ParseObject(key: string, body: string, sp: string, t: string, j: Option<Json>)
    requires PlainText(key) && (sp == "" || sp == " ")
    requires ParseValue(body + (sp + ("}" + t))) == if j.Some? then Ok(j.value, sp + ("}" + t)) else Fail
    ensures ParseValue(ObjectText(key, body, sp) + t) == if j.Some? then Ok(JObj([(key, j.value)]), t) else Fail
  {
    hide *;
    ObjectTextThen(key, body, sp, t);
    ParseMemberThen(key, body, sp, t, j);
    OpenObject(sp + MemberThen(key, body, sp, t));
  }

  lemma ParseMemberThen(key: string, body: string, sp: string, t: string, j: Option<Json>)
    requires PlainText(key) && (sp == "" || sp == " ")
    requires ParseValue(body + (sp + ("}" + t))) == if j.Some? then Ok(j.value, sp + ("}" + t)) else Fail
    ensures ParseMembers(sp + MemberThen(key, body, sp, t), true) == if j.Some? then Ok([(key, j.value)], t) else Fail
  {
    hide ParseString, ParseElements, ParseNumber, ParseValue, ParseMembers, Skip, PlainText;
    var close := sp + ("}" + t);
    var afterKey := ":" + (" " + (body + close));
    var member := MemberThen(key, body, sp, t);
    ParseValueSpace(body + close);
    SkipTo(sp, member);
    SkipTo("", afterKey);
    assert "" + afterKey == afterKey;
    SkipTo(sp, "}" + t);
    ParsePlainString(key, afterKey);
    TailOf("\"", key + ("\"" + afterKey));
    TailOf(":", " " + (body + close));
    TailOf("}", t);
    ParseOneMember(sp + member, member, key, afterKey, afterKey, t, j, close);
  }

  lemma TailOf(c: string, t: string)
    requires |c| == 1
    ensures (c + t)[1..] == t
  {
  }

  lemma SkipTo(sp: string, t: string)
    requires (sp == "" || sp == " ") && t != "" && t[0] != ' '
    ensures Skip(sp + t) == t
  {
    SkipSpaces(t);
    assert "" + t == t;
  }

  lemma OpenObject(inside: string)
    ensures ParseValue("{" + inside) ==
            var r := ParseMembers(inside, true); if r.Fail? then Fail else Ok(JObj(r.value), r.rest)
  {
    assert ("{" + inside)[1..] == inside;
  }

  lemma OpenArray(inside: string)
    ensures ParseValue("[" + inside) ==
            var r := ParseElements(inside, true); if r.Fail? then Fail else Ok(JArr(r.value), r.rest)
  {
    assert ("[" + inside)[1..] == inside;
  }

  lemma ParseOneMember(t0: string, u: string, key: string, afterKey: string, c: string, t: string, j: Option<Json>,
                       close: string)
    requires Skip(t0) == u && u != "" && u[0] == '"'
    requires ParseString(u[1..]) == Ok(key, afterKey) && Skip(afterKey) == c && c != "" && c[0] == ':'
    requires ParseValue(c[1..]) == if j.Some? then Ok(j.value, close) else Fail
    requires Skip(close) == "}" + t && ("}" + t)[1..] == t
    ensures ParseMembers(t0, true) == if j.Some? then Ok([(key, j.value)], t) else Fail
  {
    hide ParseString, ParseValue, Skip;
  }
}
