/** The pieces of text that MongoDB filters are printed from, and how each reads back. */
module MongoText {
  import opened Wrappers
  import opened Decimal
  import opened Numbers
  import opened Json

  datatype Val = Str(s: string) | Num(x: Number) | Boolean(b: bool)

  // ---------------------------------------------------------------- values

  function Hex(n: int): char
    requires 0 <= n < 16
  {
    if n < 10 then ('0' as int + n) as char else ('a' as int + n - 10) as char
  }

  /** One character as Go's %q writes it. */
  function EscapeChar(c: char): string {
    if c == '"' || c == '\\' then ['\\', c]
    else if c == 7 as char then "\\a"
    else if c == 8 as char then "\\b"
    else if c == 12 as char then "\\f"
    else if c == '\n' then "\\n"
    else if c == '\r' then "\\r"
    else if c == '\t' then "\\t"
    else if c == 11 as char then "\\v"
    else if c < ' ' || c == 127 as char then ['\\', 'x', Hex(c as int / 16), Hex(c as int % 16)]
    else [c]
  }

  function Escape(s: string): string {
    if s == "" then "" else EscapeChar(s[0]) + Escape(s[1..])
  }

  /** How %q writes the characters that do not stand for themselves. */
  lemma EscapeTexts(c: char)
    requires c < 128 as char
    ensures ' ' <= c <= '~' && c != '"' && c != '\\' ==> EscapeChar(c) == [c]
    ensures EscapeChar('"') == "\\\"" && EscapeChar('\\') == "\\\\"
    ensures EscapeChar(7 as char) == "\\a" && EscapeChar(8 as char) == "\\b" && EscapeChar(9 as char) == "\\t"
    ensures EscapeChar(10 as char) == "\\n" && EscapeChar(11 as char) == "\\v" && EscapeChar(12 as char) == "\\f"
    ensures EscapeChar(13 as char) == "\\r"
    ensures c < 7 as char || 13 as char < c < ' ' || c == 127 as char ==>
              EscapeChar(c) == ['\\', 'x', "01234567"[c as int / 16], "0123456789abcdef"[c as int % 16]]
  {
  }

  /** The characters that %q writes in a way JSON understands. */
  predicate SafeChar(c: char) {
    (c >= ' ' && c != 127 as char) || c == '\n' || c == '\r' || c == '\t' || c == 8 as char || c == 12 as char
  }

  predicate Safe(s: string) {
    forall i :: 0 <= i < |s| ==> SafeChar(s[i])
  }

  function PrintVal(v: Val): string {
    match v
    case Str(s) => "\"" + Escape(s) + "\""
    case Num(x) => PrintNumber(x)
    case Boolean(b) => if b then "true" else "false"
  }

  predicate SafeVal(v: Val) { v.Str? ==> Safe(v.s) }

  function JsonVal(v: Val): Json {
    match v
    case Str(s) => JStr(s)
    case Num(x) => JNum(x)
    case Boolean(b) => JBool(b)
  }

  lemma PlainCharReads(c: char, x: string)
    requires c >= ' ' && c != '"' && c != '\\'
    ensures ParseString([c] + x) ==
            if ParseString(x).Ok? then Ok([c] + ParseString(x).value, ParseString(x).rest) else Fail
  {
    assert ([c] + x)[1..] == x;
  }

  /** A backslash, the character `e` and the text `x`. */
  lemma EscapedCharReads(e: char, x: string)
    ensures ParseString(['\\', e] + x) ==
            if Unescape(e).Some? && ParseString(x).Ok?
            then Ok([Unescape(e).value] + ParseString(x).value, ParseString(x).rest) else Fail
  {
    assert (['\\', e] + x)[2..] == x;
  }

  lemma EscapeCharReads(c: char, x: string)
    ensures ParseString(EscapeChar(c) + x) ==
            if SafeChar(c) && ParseString(x).Ok? then Ok([c] + ParseString(x).value, ParseString(x).rest) else Fail
  {
    hide ParseString, Hex;
    var e := EscapeChar(c);
    if |e| == 1 {
      PlainCharReads(c, x);
    } else if |e| == 2 {
      EscapedCharReads(e[1], x);
    } else {
      assert e + x == ['\\', 'x'] + ([e[2], e[3]] + x);
      EscapedCharReads('x', [e[2], e[3]] + x);
    }
  }

  lemma {:induction false} EscapeReads(s: string, t: string)
    ensures ParseString(Escape(s) + ("\"" + t)) == if Safe(s) then Ok(s, t) else Fail
  {
    hide EscapeChar, SafeChar;
    if s == "" {
      assert Escape(s) + ("\"" + t) == "\"" + t;
      TailOf("\"", t);
    } else {
      EscapeReads(s[1..], t);
      var x := Escape(s[1..]) + ("\"" + t);
      EscapeCharReads(s[0], x);
      assert Escape(s) + ("\"" + t) == EscapeChar(s[0]) + x;
      assert s == [s[0]] + s[1..];
      SafeCons(s);
    }
  }

  lemma SafeCons(s: string)
    requires s != ""
    ensures Safe(s) <==> SafeChar(s[0]) && Safe(s[1..])
  {
    assert forall i :: 1 <= i < |s| ==> s[1..][i - 1] == s[i];
    assert forall i :: 0 <= i < |s| - 1 ==> s[1..][i] == s[i + 1];
  }

  /** `text` reads as `j`, or cannot be read, whatever delimiter follows it. */
  ghost predicate Reads(text: string, j: Option<Json>) {
    && text != "" && text[0] != ' ' && text[0] != ']'
    && forall t :: Delimited(t) ==> ParseValue(text + t) == if j.Some? then Ok(j.value, t) else Fail
  }

  lemma PrintValReads(v: Val)
    ensures Reads(PrintVal(v), if SafeVal(v) then Some(JsonVal(v)) else None)
  {
    var text := PrintVal(v);
    forall t | Delimited(t)
      ensures ParseValue(text + t) == if SafeVal(v) then Ok(JsonVal(v), t) else Fail
    {
      match v
      case Str(s) =>
        EscapeReads(s, t);
        assert text + t == "\"" + (Escape(s) + ("\"" + t));
        TailOf("\"", Escape(s) + ("\"" + t));
      case Num(x) =>
        NumberReads(x, t);
      case Boolean(b) =>
        BooleanReads(b, t);
    }
    match v
    case Num(x) => NumberRoundTrip(x, "");
    case _ =>
  }

  lemma NumberReads(x: Number, t: string)
    requires Delimited(t)
    ensures ParseValue(PrintNumber(x) + t) == Ok(JNum(x), t)
  {
    hide PrintNumber, ParseNumber, ParseValue;
    NumberRoundTrip(x, t);
    NumberValue(PrintNumber(x) + t);
  }

  lemma NumberValue(u: string)
    requires u != "" && (u[0] == '-' || IsDigit(u[0]))
    ensures ParseValue(u) == var r := ParseNumber(u); if r.Fail? then Fail else Ok(JNum(r.value), r.rest)
  {
    hide ParseNumber;
  }

  lemma BooleanReads(b: bool, t: string)
    ensures ParseValue((if b then "true" else "false") + t) == Ok(JBool(b), t)
  {
    var w := if b then "true" else "false";
    assert (w + t)[|w|..] == t;
    assert (w + t)[0] == w[0];
  }

  // ---------------------------------------------------------------- arrays

  function Join(texts: seq<string>): string {
    if texts == [] then ""
    else if |texts| == 1 then texts[0]
    else texts[0] + (", " + Join(texts[1..]))
  }

  function ArrayText(texts: seq<string>): string {
    "[ " + Join(texts) + " ]"
  }

  predicate AllSome(js: seq<Option<Json>>) {
    forall i :: 0 <= i < |js| ==> js[i].Some?
  }

  function Values(js: seq<Option<Json>>): seq<Json>
    requires AllSome(js)
  {
    if js == [] then [] else [js[0].value] + Values(js[1..])
  }

  ghost predicate AllRead(texts: seq<string>, js: seq<Option<Json>>) {
    |texts| == |js| && forall i :: 0 <= i < |texts| ==> Reads(texts[i], js[i])
  }

  lemma {:induction false} ElementsRead(texts: seq<string>, js: seq<Option<Json>>, first: bool, t: string)
    requires texts != [] && AllRead(texts, js)
    ensures ParseElements(" " + (Join(texts) + (" ]" + t)), first) == if AllSome(js) then Ok(Values(js), t) else Fail
    decreases |texts|
  {
    AllReadTail(texts, js);
    AllSomeCons(js);
    ValuesCons(js);
    JoinCons(texts);
    hide *;
    var x, j := texts[0], js[0];
    if |texts| == 1 {
      LastElementReads(x, j, first, t);
      SingleValue(js);
    } else {
      ElementsRead(texts[1..], js[1..], false, t);
      NextElementReads(x, j, " " + (Join(texts[1..]) + (" ]" + t)), first);
      CommaPieces(x, Join(texts[1..]), " ]" + t);
    }
  }

  lemma CommaPieces(x: string, more: string, close: string)
    ensures " " + (x + (", " + more) + close) == " " + (x + ("," + (" " + (more + close))))
  {
    assert ", " == "," + " ";
  }

  lemma JoinCons(texts: seq<string>)
    requires texts != []
    ensures Join(texts) == if |texts| == 1 then texts[0] else texts[0] + (", " + Join(texts[1..]))
  {
  }

  lemma ValuesCons(js: seq<Option<Json>>)
    requires js != [] && (AllSome(js) <==> js[0].Some? && AllSome(js[1..]))
    ensures AllSome(js) ==> Values(js) == [js[0].value] + Values(js[1..])
  {
  }

  lemma LastElementReads(x: string, j: Option<Json>, first: bool, t: string)
    requires Reads(x, j)
    ensures ParseElements(" " + (x + (" ]" + t)), first) == if j.Some? then Ok([j.value], t) else Fail
  {
    hide ParseValue, ParseElements, Skip, Reads;
    ElementStep(x, j, " ]" + t, first);
    SkipClose(t);
    ElementLast(x + (" ]" + t), j, " ]" + t, "]" + t, t, first);
  }

  lemma NextElementReads(x: string, j: Option<Json>, rest: string, first: bool)
    requires Reads(x, j)
    ensures ParseElements(" " + (x + ("," + rest)), first) ==
            if j.Some? && ParseElements(rest, false).Ok?
            then Ok([j.value] + ParseElements(rest, false).value, ParseElements(rest, false).rest) else Fail
  {
    hide ParseValue, ParseElements, Skip, Reads;
    ElementStep(x, j, "," + rest, first);
    SkipComma(rest);
    ElementMore(x + ("," + rest), j, "," + rest, rest, first);
  }

  lemma AllReadTail(texts: seq<string>, js: seq<Option<Json>>)
    requires texts != [] && AllRead(texts, js)
    ensures Reads(texts[0], js[0]) && AllRead(texts[1..], js[1..])
  {
    hide Reads;
    assert forall i :: 0 <= i < |js| - 1 ==> js[1..][i] == js[i + 1] && texts[1..][i] == texts[i + 1];
  }

  lemma AllSomeCons(js: seq<Option<Json>>)
    requires js != []
    ensures AllSome(js) <==> js[0].Some? && AllSome(js[1..])
  {
    assert forall i :: 1 <= i < |js| ==> js[1..][i - 1] == js[i];
    assert forall i :: 0 <= i < |js| - 1 ==> js[1..][i] == js[i + 1];
  }

  lemma SingleValue(js: seq<Option<Json>>)
    requires |js| == 1
    ensures AllSome(js) <==> js[0].Some?
    ensures AllSome(js) ==> Values(js) == [js[0].value]
  {
    assert js[1..] == [];
  }

  lemma SkipClose(t: string)
    ensures Skip(" ]" + t) == "]" + t && ("]" + t)[1..] == t
  {
    assert " ]" + t == " " + ("]" + t);
    SkipSpaces("]" + t);
  }

  lemma SkipComma(rest: string)
    ensures Skip("," + rest) == "," + rest && ("," + rest)[1..] == rest
  {
  }

  /** The value at the head of an array's rest. */
  lemma ElementStep(x: string, j: Option<Json>, after: string, first: bool)
    requires Reads(x, j) && after != "" && (after[0] == ' ' || after[0] == ',')
    ensures ParseValue(" " + (x + after)) == if j.Some? then Ok(j.value, after) else Fail
    ensures Skip(" " + (x + after)) == x + after && (x + after)[0] != ']'
  {
    hide ParseValue;
    ParseValueSpace(x + after);
    SkipSpaces(x + after);
    assert Delimited(after);
  }

  lemma ElementLast(u: string, j: Option<Json>, after: string, w: string, t: string, first: bool)
    requires u != "" && u[0] != ']' && Skip(" " + u) == u
    requires ParseValue(" " + u) == if j.Some? then Ok(j.value, after) else Fail
    requires Skip(after) == w && w != "" && w[0] == ']' && w[1..] == t
    ensures ParseElements(" " + u, first) == if j.Some? then Ok([j.value], t) else Fail
  {
    hide ParseValue, Skip;
  }

  lemma ElementMore(u: string, j: Option<Json>, w: string, rest: string, first: bool)
    requires u != "" && u[0] != ']' && Skip(" " + u) == u
    requires ParseValue(" " + u) == if j.Some? then Ok(j.value, w) else Fail
    requires Skip(w) == w && w != "" && w[0] == ',' && w[1..] == rest
    ensures ParseElements(" " + u, first) ==
            if j.Some? && ParseElements(rest, false).Ok?
            then Ok([j.value] + ParseElements(rest, false).value, ParseElements(rest, false).rest) else Fail
  {
    hide ParseValue, Skip;
  }

  lemma ArrayReads(texts: seq<string>, js: seq<Option<Json>>)
    requires AllRead(texts, js)
    ensures Reads(ArrayText(texts), if AllSome(js) then Some(JArr(Values(js))) else None)
  {
    hide ParseValue, ParseElements, Join, Skip;
    forall t | Delimited(t)
      ensures ParseValue(ArrayText(texts) + t) == if AllSome(js) then Ok(JArr(Values(js)), t) else Fail
    {
      var inside := " " + (Join(texts) + (" ]" + t));
      assert ArrayText(texts) + t == "[" + inside;
      OpenArray(inside);
      if texts == [] {
        EmptyArrayReads(t);
        assert Values(js) == [];
      } else {
        ElementsRead(texts, js, true, t);
      }
    }
  }

  lemma EmptyArrayReads(t: string)
    ensures ParseElements(" " + (Join([]) + (" ]" + t)), true) == Ok([], t)
  {
    assert Join([]) + (" ]" + t) == " ]" + t;
    SkipSpaces(" ]" + t);
    SkipClose(t);
  }

  lemma ObjectReads(key: string, body: string, sp: string, j: Option<Json>)
    requires PlainText(key) && (sp == "" || sp == " ") && Reads(body, j)
    ensures Reads(ObjectText(key, body, sp), if j.Some? then Some(JObj([(key, j.value)])) else None)
  {
    hide ParseValue, PlainText;
    forall t | Delimited(t)
      ensures ParseValue(ObjectText(key, body, sp) + t) == if j.Some? then Ok(JObj([(key, j.value)]), t) else Fail
    {
      assert Delimited(sp + ("}" + t));
      ParseObject(key, body, sp, t, j);
    }
  }
}
