/** The MongoDB query translator: filters printed as JSON text, and what that text means when it is
    read back. */
module MongoQuery {
  import opened Wrappers
  import opened Numbers
  import opened Json
  import opened MongoText

  datatype Filter =
    | EQ(key: string, val: Val)
    | NEQ(key: string, val: Val)
    | GT(key: string, val: Val)
    | GTE(key: string, val: Val)
    | LT(key: string, val: Val)
    | LTE(key: string, val: Val)
    | IN(key: string, vals: seq<Val>)
    | AND(filters: seq<Filter>)
    | OR(filters: seq<Filter>)
    | Unsupported

  // ---------------------------------------------------------------- the printed text

  function Field(key: string): string { "value." + key }

  function OperatorText(key: string, op: string, val: Val): string {
    ObjectText(Field(key), ObjectText(op, PrintVal(val), ""), " ")
  }

  predicate Ordering(f: Filter) { f.GT? || f.GTE? || f.LT? || f.LTE? }

  predicate Group(f: Filter) { f.AND? || f.OR? }

  /** Why a filter cannot be printed. */
  predicate Unprintable(f: Filter) {
    || f.Unsupported?
    || (f.IN? && f.vals == [])
    || (Ordering(f) && f.val.Str?)
    || (Group(f) && exists i :: 0 <= i < |f.filters| && Unprintable(f.filters[i]))
  }

  /** `g` is the filter `f` or stands somewhere inside it. */
  ghost predicate Within(g: Filter, f: Filter) {
    g == f || (Group(f) && exists i :: 0 <= i < |f.filters| && Within(g, f.filters[i]))
  }

  ghost predicate Offends(g: Filter) {
    || g == Unsupported
    || (g.IN? && g.vals == [])
    || ((g.GT? || g.GTE? || g.LT? || g.LTE?) && g.val.Str?)
  }

  /** A tree cannot be printed exactly when an empty IN, a string in an ordering or an unsupported node
      stands anywhere in it. */
  lemma {:induction false} UnprintableIff(f: Filter)
    ensures Unprintable(f) <==> exists g :: Within(g, f) && Offends(g)
  {
    hide Offends;
    if Group(f) {
      forall i | 0 <= i < |f.filters|
        ensures Unprintable(f.filters[i]) <==> exists g :: Within(g, f.filters[i]) && Offends(g)
      {
        UnprintableIff(f.filters[i]);
      }
      assert !Offends(f) by { GroupsAreFine(f); }
      if Unprintable(f) {
        var i :| 0 <= i < |f.filters| && Unprintable(f.filters[i]);
        var g :| Within(g, f.filters[i]) && Offends(g);
        assert Within(g, f);
      }
    } else {
      OffendsIff(f);
      assert Within(f, f);
    }
  }

  lemma GroupsAreFine(f: Filter)
    requires Group(f)
    ensures !Offends(f)
  {
  }

  lemma OffendsIff(f: Filter)
    requires !Group(f)
    ensures Unprintable(f) <==> Offends(f)
  {
  }

  function PrintVals(vals: seq<Val>): seq<string> {
    if vals == [] then [] else [PrintVal(vals[0])] + PrintVals(vals[1..])
  }

  function Text(f: Filter): string
    requires !Unprintable(f)
    decreases f, 1
  {
    match f
    case EQ(key, val) => ObjectText(Field(key), PrintVal(val), " ")
    case IN(key, vals) => ObjectText(Field(key), ObjectText("$in", ArrayText(PrintVals(vals)), " "), " ")
    case AND(filters) => ObjectText("$and", ArrayText(Texts(filters)), " ")
    case OR(filters) => ObjectText("$or", ArrayText(Texts(filters)), " ")
    case NEQ(key, val) => OperatorText(key, "$ne", val)
    case GT(key, val) => OperatorText(key, "$gt", val)
    case GTE(key, val) => OperatorText(key, "$gte", val)
    case LT(key, val) => OperatorText(key, "$lt", val)
    case LTE(key, val) => OperatorText(key, "$lte", val)
    case Unsupported => ""
  }

  function Texts(fs: seq<Filter>): (texts: seq<string>)
    requires forall i :: 0 <= i < |fs| ==> !Unprintable(fs[i])
    ensures |texts| == |fs|
    decreases fs, 0
  {
    if fs == [] then [] else [Text(fs[0])] + Texts(fs[1..])
  }

  // ---------------------------------------------------------------- the visitor

  /** None stands for the error. */
  method VisitEQ(key: string, val: Val) returns (r: Option<string>)
    ensures r == Some(Text(EQ(key, val)))
  {
    r := Some("{ \"value." + key + "\": " + PrintVal(val) + " }");
    EqualityPieces(key, PrintVal(val));
  }

  lemma EqualityPieces(key: string, v: string)
    ensures "{ \"value." + key + "\": " + v + " }" == ObjectText(Field(key), v, " ")
  {
    assert "{ \"value." + key + "\": " == "{" + " " + "\"" + Field(key) + "\": ";
    assert " }" == " " + "}";
  }

  method VisitNEQ(key: string, val: Val) returns (r: Option<string>)
    ensures r == Some(Text(NEQ(key, val)))
  {
    r := VisitOperator(key, "{\"$ne\": ", "$ne", val);
  }

  /** The shape that the comparisons share: the text after the field opens with `start`. */
  method VisitOperator(key: string, start: string, op: string, val: Val) returns (r: Option<string>)
    requires start == "{" + "" + "\"" + op + "\": "
    ensures r == Some(OperatorText(key, op, val))
  {
    r := Some("{ \"value." + key + "\": " + start + PrintVal(val) + "} }");
    OperatorPieces(key, start, op, PrintVal(val));
  }

  lemma OperatorPieces(key: string, start: string, op: string, v: string)
    requires start == "{" + "" + "\"" + op + "\": "
    ensures "{ \"value." + key + "\": " + start + v + "} }" == ObjectText(Field(key), ObjectText(op, v, ""), " ")
  {
    assert "{ \"value." + key + "\": " == "{" + " " + "\"" + Field(key) + "\": ";
    assert start + v + "} }" == ObjectText(op, v, "") + " " + "}";
  }

  method VisitGT(key: string, val: Val) returns (r: Option<string>)
    ensures r == if Unprintable(GT(key, val)) then None else Some(Text(GT(key, val)))
  {
    if val.Str? {
      return None;
    }
    r := VisitOperator(key, "{\"$gt\": ", "$gt", val);
  }

  method VisitGTE(key: string, val: Val) returns (r: Option<string>)
    ensures r == if Unprintable(GTE(key, val)) then None else Some(Text(GTE(key, val)))
  {
    if val.Str? {
      return None;
    }
    r := VisitOperator(key, "{\"$gte\": ", "$gte", val);
  }

  method VisitLT(key: string, val: Val) returns (r: Option<string>)
    ensures r == if Unprintable(LT(key, val)) then None else Some(Text(LT(key, val)))
  {
    if val.Str? {
      return None;
    }
    r := VisitOperator(key, "{\"$lt\": ", "$lt", val);
  }

  method VisitLTE(key: string, val: Val) returns (r: Option<string>)
    ensures r == if Unprintable(LTE(key, val)) then None else Some(Text(LTE(key, val)))
  {
    if val.Str? {
      return None;
    }
    r := VisitOperator(key, "{\"$lte\": ", "$lte", val);
  }

  /** What a joined list still needs, element after element. */
  function Tail(texts: seq<string>): string {
    if texts == [] then "" else ", " + (texts[0] + Tail(texts[1..]))
  }

  lemma {:induction false} JoinTail(texts: seq<string>)
    requires texts != []
    ensures Join(texts) == texts[0] + Tail(texts[1..])
  {
    if |texts| > 1 {
      JoinTail(texts[1..]);
    } else {
      assert Tail(texts[1..]) == "" && texts[0] + "" == texts[0];
    }
  }

  lemma {:induction false} PrintValsLength(vals: seq<Val>)
    ensures |PrintVals(vals)| == |vals|
  {
    if vals != [] {
      PrintValsLength(vals[1..]);
    }
  }

  /** The list as the loop writes it: the first `i` values with commas between. */
  function Listed(vals: seq<Val>, i: nat): string
    requires i <= |vals|
  {
    if i == 0 then "" else if i == 1 then PrintVal(vals[0]) else Listed(vals, i - 1) + ", " + PrintVal(vals[i - 1])
  }

  lemma {:induction false} ListedIsJoin(vals: seq<Val>, i: nat)
    requires 0 < i <= |vals|
    ensures i <= |PrintVals(vals)| && Join(PrintVals(vals)) == Listed(vals, i) + Tail(PrintVals(vals)[i..])
    decreases i
  {
    hide PrintVal, Join, PrintVals, Tail;
    var texts := PrintVals(vals);
    PrintValAt(vals, i - 1);
    if i == 1 {
      JoinTail(texts);
    } else {
      ListedIsJoin(vals, i - 1);
      TailAt(texts, i - 1);
      var v, rest := PrintVal(vals[i - 1]), Tail(texts[i..]);
      assert Listed(vals, i - 1) + (", " + (v + rest)) == Listed(vals, i - 1) + ", " + v + rest;
    }
  }

  method VisitIN(key: string, vals: seq<Val>) returns (r: Option<string>)
    ensures r == if Unprintable(IN(key, vals)) then None else Some(Text(IN(key, vals)))
  {
    if |vals| == 0 {
      return None;
    }
    hide PrintVal, Tail, Join, PrintVals, ObjectText, ArrayText, Text;
    var sb := "{ \"value." + key + "\": { \"$in\": [ ";
    ghost var start := sb;
    for i := 0 to |vals|
      invariant sb == start + Listed(vals, i)
    {
      if i > 0 {
        sb := sb + ", ";
      }
      sb := sb + PrintVal(vals[i]);
    }
    sb := sb + " ] } }";
    r := Some(sb);
    PrintValsLength(vals);
    ListedIsJoin(vals, |vals|);
    TailEnd(PrintVals(vals));
    InPrinted(key, vals, Listed(vals, |vals|));
  }

  lemma {:induction false} PrintValAt(vals: seq<Val>, i: nat)
    requires i < |vals|
    ensures |PrintVals(vals)| == |vals| && PrintVals(vals)[i] == PrintVal(vals[i])
  {
    PrintValsLength(vals);
    if i > 0 {
      PrintValAt(vals[1..], i - 1);
    }
  }

  lemma TailAt(texts: seq<string>, i: nat)
    requires i < |texts|
    ensures Tail(texts[i..]) == ", " + (texts[i] + Tail(texts[i + 1..]))
  {
    assert texts[i..][1..] == texts[i + 1..];
  }

  lemma TailEnd(texts: seq<string>)
    ensures Tail(texts[|texts|..]) == ""
  {
  }

  lemma InPrinted(key: string, vals: seq<Val>, sb: string)
    requires vals != [] && Join(PrintVals(vals)) == sb
    ensures "{ \"value." + key + "\": { \"$in\": [ " + sb + " ] } }" == Text(IN(key, vals))
  {
    hide Join, PrintVals, Field;
    assert "{ \"value." + key + "\": { \"$in\": [ " == "{" + " " + "\"" + Field(key) + "\": " + "{ \"$in\": [ " by {
      FieldStart(key);
    }
    assert "{ \"$in\": [ " == "{" + " " + "\"" + "$in" + "\": " + "[ ";
    InClose(sb);
  }

  lemma FieldStart(key: string)
    ensures "{ \"value." + key + "\": { \"$in\": [ " == "{" + " " + "\"" + Field(key) + "\": " + "{ \"$in\": [ "
  {
  }

  lemma InClose(sb: string)
    ensures sb + " ] } }" == sb + " ]" + " " + "}" + " " + "}"
  {
  }

  lemma {:induction false} TextsAt(fs: seq<Filter>, i: nat)
    requires i < |fs| && forall j :: 0 <= j < |fs| ==> !Unprintable(fs[j])
    ensures Texts(fs)[i] == Text(fs[i])
  {
    if i > 0 {
      TextsAt(fs[1..], i - 1);
    }
  }

  predicate AnyUnprintable(fs: seq<Filter>) {
    exists i :: 0 <= i < |fs| && Unprintable(fs[i])
  }

  method VisitFilters(op: string, filters: seq<Filter>) returns (r: Option<string>)
    ensures r == if AnyUnprintable(filters) then None else Some(ObjectText(op, ArrayText(Texts(filters)), " "))
    decreases filters, 0
  {
    hide Text, Texts, ArrayText, ObjectText, Join;
    var arr: seq<string> := [];
    for i := 0 to |filters|
      invariant |arr| == i && forall j :: 0 <= j < i ==> !Unprintable(filters[j]) && arr[j] == Text(filters[j])
    {
      var str := VisitFilter(filters[i]);
      if str.None? {
        return None;
      }
      arr := arr + [str.value];
    }
    forall j | 0 <= j < |filters| ensures arr[j] == Texts(filters)[j] {
      TextsAt(filters, j);
    }
    assert arr == Texts(filters);
    GroupPieces(op, Join(arr));
    r := Some("{ \"" + op + "\": [ " + Join(arr) + " ] }");
    JoinedArray(arr);
  }

  lemma JoinedArray(arr: seq<string>)
    ensures ArrayText(arr) == "[ " + Join(arr) + " ]"
  {
  }

  lemma GroupPieces(op: string, list: string)
    ensures "{ \"" + op + "\": [ " + list + " ] }" == ObjectText(op, "[ " + list + " ]", " ")
  {
    assert "{ \"" == "{" + " " + "\"";
    assert "\": [ " == "\": " + "[ ";
    assert " ] }" == " ]" + " " + "}";
  }

  /** The visit of one filter of a list, by its kind. */
  method VisitFilter(f: Filter) returns (r: Option<string>)
    ensures r == if Unprintable(f) then None else Some(Text(f))
    decreases f, 1
  {
    hide ArrayText, ObjectText, Texts, PrintVal, PrintVals, Join;
    match f
    case EQ(key, val) => r := VisitEQ(key, val);
    case NEQ(key, val) => r := VisitNEQ(key, val);
    case GT(key, val) => r := VisitGT(key, val);
    case GTE(key, val) => r := VisitGTE(key, val);
    case LT(key, val) => r := VisitLT(key, val);
    case LTE(key, val) => r := VisitLTE(key, val);
    case IN(key, vals) => r := VisitIN(key, vals);
    case OR(filters) => r := VisitFilters("$or", filters);
    case AND(filters) => r := VisitFilters("$and", filters);
    case Unsupported => r := None;
  }

  // ---------------------------------------------------------------- reading it back

  /** Keys that need no escaping; the translator writes them unescaped. */
  predicate PlainKeys(f: Filter) {
    match f
    case AND(filters) => forall i :: 0 <= i < |filters| ==> PlainKeys(filters[i])
    case OR(filters) => forall i :: 0 <= i < |filters| ==> PlainKeys(filters[i])
    case Unsupported => true
    case _ => PlainText(f.key)
  }

  predicate SafeVals(vals: seq<Val>) {
    forall i :: 0 <= i < |vals| ==> SafeVal(vals[i])
  }

  /** No string that %q writes in a way JSON does not know. */
  predicate SafeFilter(f: Filter) {
    match f
    case AND(filters) => forall i :: 0 <= i < |filters| ==> SafeFilter(filters[i])
    case OR(filters) => forall i :: 0 <= i < |filters| ==> SafeFilter(filters[i])
    case IN(_, vals) => SafeVals(vals)
    case Unsupported => true
    case _ => SafeVal(f.val)
  }

  function JsonVals(vals: seq<Val>): seq<Json> {
    if vals == [] then [] else [JsonVal(vals[0])] + JsonVals(vals[1..])
  }

  function OperatorJson(key: string, op: string, val: Val): Json {
    JObj([(Field(key), JObj([(op, JsonVal(val))]))])
  }

  function JsonOf(f: Filter): Json
    decreases f, 1
  {
    match f
    case EQ(key, val) => JObj([(Field(key), JsonVal(val))])
    case NEQ(key, val) => OperatorJson(key, "$ne", val)
    case GT(key, val) => OperatorJson(key, "$gt", val)
    case GTE(key, val) => OperatorJson(key, "$gte", val)
    case LT(key, val) => OperatorJson(key, "$lt", val)
    case LTE(key, val) => OperatorJson(key, "$lte", val)
    case IN(key, vals) => JObj([(Field(key), JObj([("$in", JArr(JsonVals(vals)))]))])
    case AND(filters) => JObj([("$and", JArr(JsonsOf(filters)))])
    case OR(filters) => JObj([("$or", JArr(JsonsOf(filters)))])
    case Unsupported => JArr([])
  }

  function JsonsOf(fs: seq<Filter>): (js: seq<Json>)
    ensures |js| == |fs|
    decreases fs, 0
  {
    if fs == [] then [] else [JsonOf(fs[0])] + JsonsOf(fs[1..])
  }

  function Expected(f: Filter): Option<Json> {
    if SafeFilter(f) then Some(JsonOf(f)) else None
  }

  function ValReading(v: Val): Option<Json> {
    if SafeVal(v) then Some(JsonVal(v)) else None
  }

  function ValReadings(vals: seq<Val>): seq<Option<Json>> {
    if vals == [] then [] else [ValReading(vals[0])] + ValReadings(vals[1..])
  }

  lemma {:induction false} PrintValsRead(vals: seq<Val>)
    ensures AllRead(PrintVals(vals), ValReadings(vals))
    ensures AllSome(ValReadings(vals)) <==> SafeVals(vals)
    ensures SafeVals(vals) ==> Values(ValReadings(vals)) == JsonVals(vals)
  {
    hide Reads, PrintVal, SafeVal;
    if vals != [] {
      PrintValsRead(vals[1..]);
      PrintValReads(vals[0]);
      var texts, js := PrintVals(vals), ValReadings(vals);
      assert texts[1..] == PrintVals(vals[1..]) && js[1..] == ValReadings(vals[1..]);
      AllSomeCons(js);
      SafeConsList([], vals);
      hide AllSome, AllRead, SafeVals;
      AllReadCons(texts, js);
    }
  }

  lemma FieldPlain(key: string)
    requires PlainText(key)
    ensures PlainText(Field(key))
  {
    assert forall i :: 6 <= i < |Field(key)| ==> Field(key)[i] == key[i - 6];
  }

  lemma OperatorReads(key: string, op: string, val: Val)
    requires PlainText(key) && PlainText(op)
    ensures Reads(OperatorText(key, op, val), if SafeVal(val) then Some(OperatorJson(key, op, val)) else None)
  {
    hide Reads, PrintVal, SafeVal, PlainText, ObjectText, JsonVal, Field;
    FieldPlain(key);
    PrintValReads(val);
    ObjectReads(op, PrintVal(val), "", ValReading(val));
    ObjectReads(Field(key), ObjectText(op, PrintVal(val), ""), " ",
                if SafeVal(val) then Some(JObj([(op, JsonVal(val))])) else None);
  }

  lemma InReads(key: string, vals: seq<Val>)
    requires PlainText(key) && vals != []
    ensures Reads(Text(IN(key, vals)), Expected(IN(key, vals)))
  {
    hide Reads, PrintVal, SafeVal, PlainText, ObjectText, ArrayText, JsonVal, Field, AllRead, AllSome, PrintVals,
      ValReadings, Values, SafeVals;
    FieldPlain(key);
    PrintValsRead(vals);
    ArrayReads(PrintVals(vals), ValReadings(vals));
    var body, list := ArrayText(PrintVals(vals)), JArr(JsonVals(vals));
    PlainOperators();
    ObjectReads("$in", body, " ", if SafeVals(vals) then Some(list) else None);
    ObjectReads(Field(key), ObjectText("$in", body, " "), " ",
                if SafeVals(vals) then Some(JObj([("$in", list)])) else None);
  }

  lemma PlainOperators()
    ensures PlainText("$in") && PlainText("$and") && PlainText("$or") && PlainText("$ne")
    ensures PlainText("$gt") && PlainText("$gte") && PlainText("$lt") && PlainText("$lte")
  {
  }

  /** The printed text of a filter tree with plain keys reads back as the tree's JSON, and cannot be
      read exactly when some string is unsafe. */
  lemma {:induction false} TextReads(f: Filter)
    requires !Unprintable(f) && PlainKeys(f)
    ensures Reads(Text(f), Expected(f))
    decreases f, 1
  {
    hide Reads, PrintVal, SafeVal, PlainText, ObjectText, ArrayText, JsonVal, Field, OperatorText, OperatorJson;
    PlainOperators();
    match f
    case EQ(key, val) =>
      FieldPlain(key);
      PrintValReads(val);
      ObjectReads(Field(key), PrintVal(val), " ", ValReading(val));
    case NEQ(key, val) => OperatorReads(key, "$ne", val);
    case GT(key, val) => OperatorReads(key, "$gt", val);
    case GTE(key, val) => OperatorReads(key, "$gte", val);
    case LT(key, val) => OperatorReads(key, "$lt", val);
    case LTE(key, val) => OperatorReads(key, "$lte", val);
    case IN(key, vals) => InReads(key, vals);
    case AND(filters) => GroupReads(filters, "$and");
    case OR(filters) => GroupReads(filters, "$or");
    case Unsupported =>
  }

  predicate AllSafe(fs: seq<Filter>) {
    forall i :: 0 <= i < |fs| ==> SafeFilter(fs[i])
  }

  lemma SafeConsList(fs: seq<Filter>, vals: seq<Val>)
    ensures fs != [] ==> (AllSafe(fs) <==> SafeFilter(fs[0]) && AllSafe(fs[1..]))
    ensures vals != [] ==> (SafeVals(vals) <==> SafeVal(vals[0]) && SafeVals(vals[1..]))
  {
    hide SafeFilter, SafeVal;
    assert forall i :: 1 <= i < |fs| ==> fs[1..][i - 1] == fs[i];
    assert forall i :: 0 <= i < |fs| - 1 ==> fs[1..][i] == fs[i + 1];
    assert forall i :: 1 <= i < |vals| ==> vals[1..][i - 1] == vals[i];
    assert forall i :: 0 <= i < |vals| - 1 ==> vals[1..][i] == vals[i + 1];
  }

  lemma AllReadCons(texts: seq<string>, js: seq<Option<Json>>)
    requires |texts| == |js| > 0 && Reads(texts[0], js[0]) && AllRead(texts[1..], js[1..])
    ensures AllRead(texts, js)
  {
    hide Reads;
    assert forall i :: 1 <= i < |js| ==> js[1..][i - 1] == js[i] && texts[1..][i - 1] == texts[i];
  }

  function Readings(fs: seq<Filter>): seq<Option<Json>> {
    if fs == [] then [] else [Expected(fs[0])] + Readings(fs[1..])
  }

  lemma {:induction false} GroupReads(fs: seq<Filter>, op: string)
    requires forall i :: 0 <= i < |fs| ==> !Unprintable(fs[i]) && PlainKeys(fs[i])
    requires PlainText(op)
    ensures Reads(ObjectText(op, ArrayText(Texts(fs)), " "),
                  if AllSafe(fs) then Some(JObj([(op, JArr(JsonsOf(fs)))])) else None)
    decreases fs, 1
  {
    hide Reads, PlainText, ObjectText, ArrayText, Text, Texts, JsonOf, SafeFilter, Unprintable, PlainKeys;
    TextsRead(fs);
    ArrayReads(Texts(fs), Readings(fs));
    ObjectReads(op, ArrayText(Texts(fs)), " ",
                if AllSome(Readings(fs)) then Some(JArr(Values(Readings(fs)))) else None);
  }

  lemma {:induction false} TextsRead(fs: seq<Filter>)
    requires forall i :: 0 <= i < |fs| ==> !Unprintable(fs[i]) && PlainKeys(fs[i])
    ensures AllRead(Texts(fs), Readings(fs))
    ensures AllSome(Readings(fs)) <==> AllSafe(fs)
    ensures AllSome(Readings(fs)) ==> Values(Readings(fs)) == JsonsOf(fs)
    decreases fs, 0
  {
    hide Reads, Text, JsonOf, SafeFilter, Unprintable, PlainKeys;
    if fs != [] {
      TextReads(fs[0]);
      TextsRead(fs[1..]);
      var texts, js := Texts(fs), Readings(fs);
      assert texts[1..] == Texts(fs[1..]) && js[1..] == Readings(fs[1..]);
      AllSomeCons(js);
      SafeConsList(fs, []);
      hide AllSome, AllRead, AllSafe;
      AllReadCons(texts, js);
    }
  }
}
