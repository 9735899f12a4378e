/** Keys are printed without escaping: what becomes of keys that would need it. */
module MongoKeys {
  import opened Wrappers
  import opened Numbers
  import opened Json
  import opened MongoText
  import opened MongoQuery

  // ---------------------------------------------------------------- one string

  predicate Backslashes(s: string) {
    forall i :: 0 <= i < |s| ==> s[i] == '\\'
  }

  /** Two backslashes are read as one, so a reader falls behind and never catches up. */
  lemma {:induction false} FallsBehind(s: string, k: string, x: string)
    requires s != "" && Backslashes(s)
    ensures var r := ParseString(k + ("\"" + x)); r.Ok? ==> r.value != s + k
    decreases |k|
  {
    var t := k + ("\"" + x);
    if |k| > 1 && k[0] == '\\' && k[1] == '\\' {
      var s' := s[1..] + "\\\\";
      assert t[2..] == k[2..] + ("\"" + x);
      assert s + k == ['\\'] + (s' + k[2..]);
      FallsBehind(s', k[2..], x);
      SameTail('\\', ParseString(t[2..]), s' + k[2..]);
    } else {
      assert t[0] == if k == "" then '"' else k[0];
      assert k != "" ==> t[1] == if |k| == 1 then '"' else k[1];
      assert ParseString(t).Ok? && ParseString(t).value != "" ==> ParseString(t).value[0] != '\\';
      assert (s + k)[0] == '\\';
    }
  }

  lemma SameTail(c: char, r: Parsed<string>, k: string)
    ensures r.Ok? ==> ([c] + r.value == [c] + k <==> r.value == k)
  {
    if r.Ok? {
      assert ([c] + r.value)[1..] == r.value && ([c] + k)[1..] == k;
    }
  }

  /** A text that needs escaping is not read as itself. */
  lemma {:induction false} NotReadAsItself(k: string, x: string)
    requires !PlainText(k)
    ensures var r := ParseString(k + ("\"" + x)); r.Ok? ==> r.value != k
  {
    var t := k + ("\"" + x);
    assert t[0] == k[0];
    if |k| > 1 && k[0] == '\\' && k[1] == '\\' {
      assert t[2..] == k[2..] + ("\"" + x);
      assert k == ['\\'] + ("\\" + k[2..]);
      FallsBehind("\\", k[2..], x);
      SameTail('\\', ParseString(t[2..]), "\\" + k[2..]);
    } else if k[0] >= ' ' && k[0] != '"' && k[0] != '\\' {
      assert t[1..] == k[1..] + ("\"" + x);
      assert forall i :: 1 <= i < |k| ==> k[1..][i - 1] == k[i];
      NotReadAsItself(k[1..], x);
      assert k == [k[0]] + k[1..];
      SameTail(k[0], ParseString(t[1..]), k[1..]);
    }
  }

  // ---------------------------------------------------------------- the printed pieces

  /** `text` is never read as `j`, whatever delimiter follows it. */
  ghost predicate Misread(text: string, j: Json) {
    && text != "" && text[0] != ' ' && text[0] != ']'
    && forall t :: Delimited(t) && ParseValue(text + t).Ok? ==> ParseValue(text + t).value != j
  }

  /** The members read from an object text begin with what its key and its body are read as. */
  lemma FirstMember(key: string, body: string, sp: string, t: string)
    requires sp == "" || sp == " "
    ensures var inside := sp + MemberThen(key, body, sp, t);
            var afterKey := ":" + (" " + (body + (sp + ("}" + t))));
            var r, k := ParseMembers(inside, true), ParseString(key + ("\"" + afterKey));
            r.Ok? ==> k.Ok? && r.value != [] && r.value[0].0 == k.value
                      && (k.rest == afterKey ==>
                            ParseValue(body + (sp + ("}" + t))).Ok?
                                && r.value[0].1 == ParseValue(body + (sp + ("}" + t))).value)
  {
    hide ParseString, ParseElements, ParseNumber, ParseValue, PlainText;
    var close := sp + ("}" + t);
    var afterKey := ":" + (" " + (body + close));
    var member := MemberThen(key, body, sp, t);
    SkipTo(sp, member);
    TailOf("\"", key + ("\"" + afterKey));
    SkipTo("", afterKey);
    assert "" + afterKey == afterKey;
    TailOf(":", " " + (body + close));
    ParseValueSpace(body + close);
    hide Skip;
  }

  /** An object is misread when its key needs escaping. */
  lemma BadKeyMisread(key: string, body: string, sp: string, j: Json)
    requires !PlainText(key) && (sp == "" || sp == " ")
    ensures Misread(ObjectText(key, body, sp), JObj([(key, j)]))
  {
    hide ParseValue, ParseMembers, ParseString, PlainText;
    forall t | Delimited(t) && ParseValue(ObjectText(key, body, sp) + t).Ok?
      ensures ParseValue(ObjectText(key, body, sp) + t).value != JObj([(key, j)])
    {
      ObjectTextThen(key, body, sp, t);
      OpenObject(sp + MemberThen(key, body, sp, t));
      FirstMember(key, body, sp, t);
      NotReadAsItself(key, ":" + (" " + (body + (sp + ("}" + t)))));
    }
  }

  /** Or when its body is. */
  lemma BadBodyMisread(key: string, body: string, sp: string, j: Json)
    requires PlainText(key) && (sp == "" || sp == " ") && Misread(body, j)
    ensures Misread(ObjectText(key, body, sp), JObj([(key, j)]))
  {
    hide ParseValue, ParseMembers, ParseString, PlainText;
    forall t | Delimited(t) && ParseValue(ObjectText(key, body, sp) + t).Ok?
      ensures ParseValue(ObjectText(key, body, sp) + t).value != JObj([(key, j)])
    {
      ObjectTextThen(key, body, sp, t);
      OpenObject(sp + MemberThen(key, body, sp, t));
      FirstMember(key, body, sp, t);
      ParsePlainString(key, ":" + (" " + (body + (sp + ("}" + t)))));
      assert Delimited(sp + ("}" + t));
    }
  }

  lemma FieldNotPlain(key: string)
    requires !PlainText(key)
    ensures !PlainText(Field(key))
  {
    var i :| 0 <= i < |key| && !(' ' <= key[i] && key[i] != '"' && key[i] != '\\');
    assert Field(key)[i + 6] == key[i];
  }

  // ---------------------------------------------------------------- whole trees

  predicate AllPlain(fs: seq<Filter>) {
    forall i :: 0 <= i < |fs| ==> PlainKeys(fs[i])
  }

  lemma AllPlainCons(fs: seq<Filter>)
    requires fs != []
    ensures AllPlain(fs) <==> PlainKeys(fs[0]) && AllPlain(fs[1..])
  {
    hide PlainKeys;
    assert forall i :: 1 <= i < |fs| ==> fs[1..][i - 1] == fs[i];
    assert forall i :: 0 <= i < |fs| - 1 ==> fs[1..][i] == fs[i + 1];
  }

  /** A tree in which some key needs escaping is never read as its JSON. */
  lemma {:induction false} BadKeysMisread(f: Filter)
    requires !Unprintable(f) && !PlainKeys(f)
    ensures Misread(Text(f), JsonOf(f))
    decreases f, 1
  {
    hide Misread, PrintVal, PlainText, ObjectText, ArrayText, JsonVal, Field;
    match f
    case AND(fs) => BadGroupMisread(fs, "$and");
    case OR(fs) => BadGroupMisread(fs, "$or");
    case EQ(key, val) =>
      FieldNotPlain(key);
      BadKeyMisread(Field(key), PrintVal(val), " ", JsonVal(val));
    case IN(key, vals) =>
      FieldNotPlain(key);
      BadKeyMisread(Field(key), ObjectText("$in", ArrayText(PrintVals(vals)), " "), " ",
          JObj([("$in", JArr(JsonVals(vals)))]));
    case NEQ(key, val) => BadOperatorMisread(key, "$ne", val);
    case GT(key, val) => BadOperatorMisread(key, "$gt", val);
    case GTE(key, val) => BadOperatorMisread(key, "$gte", val);
    case LT(key, val) => BadOperatorMisread(key, "$lt", val);
    case LTE(key, val) => BadOperatorMisread(key, "$lte", val);
    case Unsupported =>
  }

  lemma BadOperatorMisread(key: string, op: string, val: Val)
    requires !PlainText(key)
    ensures Misread(OperatorText(key, op, val), OperatorJson(key, op, val))
  {
    hide Misread;
    FieldNotPlain(key);
    BadKeyMisread(Field(key), ObjectText(op, PrintVal(val), ""), " ", JObj([(op, JsonVal(val))]));
  }

  lemma {:induction false} BadGroupMisread(fs: seq<Filter>, op: string)
    requires forall i :: 0 <= i < |fs| ==> !Unprintable(fs[i])
    requires !AllPlain(fs) && (op == "$and" || op == "$or")
    ensures Misread(ObjectText(op, ArrayText(Texts(fs)), " "), JObj([(op, JArr(JsonsOf(fs)))]))
    decreases fs, 1
  {
    PlainOperators();
    hide ParseValue, ParseElements, Texts, JsonsOf, Join, AllPlain, Unprintable, ObjectText, PlainText;
    forall t | Delimited(t) && ParseValue(ArrayText(Texts(fs)) + t).Ok?
      ensures ParseValue(ArrayText(Texts(fs)) + t).value != JArr(JsonsOf(fs))
    {
      var inside := " " + (Join(Texts(fs)) + (" ]" + t));
      assert ArrayText(Texts(fs)) + t == "[" + inside;
      OpenArray(inside);
      BadListMisread(fs, true, t);
    }
    BadBodyMisread(op, ArrayText(Texts(fs)), " ", JArr(JsonsOf(fs)));
  }

  lemma {:induction false} BadListMisread(fs: seq<Filter>, first: bool, t: string)
    requires forall i :: 0 <= i < |fs| ==> !Unprintable(fs[i])
    requires !AllPlain(fs)
    ensures var r := ParseElements(" " + (Join(Texts(fs)) + (" ]" + t)), first); r.Ok? ==> r.value != JsonsOf(fs)
    decreases fs, 0
  {
    AllPlainCons(fs);
    var x, more := Text(fs[0]), Join(Texts(fs[1..]));
    TextsCons(fs);
    CommaPieces(x, more, " ]" + t);
    hide ParseValue, ParseElements, Join, Texts, Text, JsonsOf, JsonOf, PlainKeys, Unprintable, AllPlain, Reads,
      Misread;
    if !PlainKeys(fs[0]) {
      BadKeysMisread(fs[0]);
      BadHeadMisread(x, JsonOf(fs[0]), if |fs| == 1 then " ]" + t else "," + (" " + (more + (" ]" + t))), first);
    } else {
      TextReads(fs[0]);
      BadListMisread(fs[1..], false, t);
      NextElementReads(x, Expected(fs[0]), " " + (more + (" ]" + t)), first);
      GoodHead(fs, ParseElements(" " + (more + (" ]" + t)), false));
    }
  }

  lemma TextsCons(fs: seq<Filter>)
    requires fs != [] && forall i :: 0 <= i < |fs| ==> !Unprintable(fs[i])
    ensures Join(Texts(fs)) == if |fs| == 1 then Text(fs[0]) else Text(fs[0]) + (", " + Join(Texts(fs[1..])))
    ensures JsonsOf(fs) == [JsonOf(fs[0])] + JsonsOf(fs[1..])
  {
    hide Text, JsonOf, Unprintable, Join;
    JoinCons(Texts(fs));
    assert |fs| > 1 ==> Texts(fs)[1..] == Texts(fs[1..]);
  }

  /** With a head that reads well the difference is in the rest. */
  lemma GoodHead(fs: seq<Filter>, rest: Parsed<seq<Json>>)
    requires fs != [] && JsonsOf(fs) == [JsonOf(fs[0])] + JsonsOf(fs[1..])
    requires rest.Ok? ==> rest.value != JsonsOf(fs[1..])
    ensures rest.Ok? ==> [JsonOf(fs[0])] + rest.value != JsonsOf(fs)
  {
    if rest.Ok? {
      assert ([JsonOf(fs[0])] + rest.value)[1..] == rest.value;
    }
  }

  lemma BadHeadMisread(x: string, j: Json, after: string, first: bool)
    requires Misread(x, j) && after != "" && (after[0] == ' ' || after[0] == ',')
    ensures var r := ParseElements(" " + (x + after), first); r.Ok? ==> r.value != [] && r.value[0] != j
  {
    hide ParseValue;
    ParseValueSpace(x + after);
    SkipSpaces(x + after);
    assert Delimited(after);
  }

  /** The printed text of a filter tree is read as the tree's JSON if and only if no key needs escaping
      and no string holds a character that JSON cannot read as %q writes it. */
  lemma ReadsAsIntendedIff(f: Filter)
    requires !Unprintable(f)
    ensures Read(Text(f)) == Some(JsonOf(f)) <==> PlainKeys(f) && SafeFilter(f)
  {
    hide Text, JsonOf, SafeFilter, PlainKeys, Unprintable, ParseValue;
    assert Text(f) + "" == Text(f) && Delimited("");
    if PlainKeys(f) {
      TextReads(f);
    } else {
      BadKeysMisread(f);
    }
  }
}
