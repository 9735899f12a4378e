/** What a filter document means to MongoDB, and that a printed filter keeps the meaning of its tree. */
module MongoMeaning {
  import opened Wrappers
  import opened Numbers
  import opened Json
  import opened MongoText
  import opened MongoQuery
  import opened MongoKeys

  /** Stored documents, field by field. */
  type Document = map<string, Val>

  datatype Query =
    | Equals(field: string, val: Val)
    | Compares(field: string, op: string, val: Val)
    | OneOf(field: string, vals: seq<Val>)
    | All(queries: seq<Query>)
    | Any(queries: seq<Query>)

  function Scalar(j: Json): Option<Val> {
    match j
    case JStr(s) => Some(Str(s))
    case JNum(x) => Some(Num(x))
    case JBool(b) => Some(Boolean(b))
    case _ => None
  }

  function Scalars(js: seq<Json>): Option<seq<Val>> {
    if js == [] then Some([])
    else
      var v, vs := Scalar(js[0]), Scalars(js[1..]);
      if v.Some? && vs.Some? then Some([v.value] + vs.value) else None
  }

  const COMPARISONS := ["$ne", "$gt", "$gte", "$lt", "$lte"]

  /** The query that a filter document stands for; the server refuses empty groups. */
  function Interpret(j: Json): Option<Query>
    decreases j, 1
  {
    if !j.JObj? || |j.members| != 1 then None
    else
      var (name, body) := j.members[0];
      if name == "$and" || name == "$or" then
        if !body.JArr? || body.elements == [] then None
        else
          var qs := InterpretAll(body.elements);
          if qs.None? then None else Some(if name == "$and" then All(qs.value) else Any(qs.value))
      else if Scalar(body).Some? then Some(Equals(name, Scalar(body).value))
      else if !body.JObj? || |body.members| != 1 then None
      else
        var (op, arg) := body.members[0];
        if op in COMPARISONS && Scalar(arg).Some? then Some(Compares(name, op, Scalar(arg).value))
        else if op == "$in" && arg.JArr? && Scalars(arg.elements).Some?
            then Some(OneOf(name, Scalars(arg.elements).value))
        else None
  }

  function InterpretAll(js: seq<Json>): (r: Option<seq<Query>>)
    ensures r.Some? ==> |r.value| == |js|
    decreases js, 0
  {
    if js == [] then Some([])
    else
      var q, qs := Interpret(js[0]), InterpretAll(js[1..]);
      if q.Some? && qs.Some? then Some([q.value] + qs.value) else None
  }

  /** Numbers are the same when their values are: the two zeros are. */
  predicate Same(a: Val, b: Val) {
    if a.Num? && b.Num? then Value(a.x) == Value(b.x) else a == b
  }

  predicate SameAsSome(a: Val, vals: seq<Val>) {
    exists i :: 0 <= i < |vals| && Same(a, vals[i])
  }

  /** Values of different types never stand in an order. */
  predicate Less(a: Val, b: Val) {
    match (a, b)
    case (Num(x), Num(y)) => Value(x) < Value(y)
    case (Boolean(x), Boolean(y)) => !x && y
    case _ => false
  }

  /** On whole numbers the orders are those of whole numbers. */
  lemma WholeNumbersCompare(k: string, m: nat, n: nat)
    ensures var (v, doc) := (Num(Normal(false, m, 0)), map[Field(k) := Num(Normal(false, n, 0))]);
            && (Truth(EQ(k, v), doc) <==> n == m) && (Truth(NEQ(k, v), doc) <==> n != m)
            && (Truth(GT(k, v), doc) <==> n > m) && (Truth(GTE(k, v), doc) <==> n >= m)
            && (Truth(LT(k, v), doc) <==> n < m) && (Truth(LTE(k, v), doc) <==> n <= m)
            && (Truth(IN(k, [v]), doc) <==> n == m)
  {
    NormalValue(false, m, 0);
    NormalValue(false, n, 0);
    hide Value, Field;
    assert Value(Normal(false, m, 0)) == m as real && Value(Normal(false, n, 0)) == n as real;
    var vals := [Num(Normal(false, m, 0))];
    assert Same(Num(Normal(false, n, 0)), vals[0]) <==> n == m;
  }

  predicate Comparison(op: string, a: Val, b: Val) {
    if op == "$gt" then Less(b, a)
    else if op == "$gte" then Less(b, a) || Same(a, b)
    else if op == "$lt" then Less(a, b)
    else if op == "$lte" then Less(a, b) || Same(a, b)
    else false
  }

  predicate Holds(q: Query, doc: Document) {
    match q
    case Equals(field, val) => field in doc && Same(doc[field], val)
    case Compares(field, op, val) =>
      if op == "$ne" then field !in doc || !Same(doc[field], val)
      else field in doc && Comparison(op, doc[field], val)
    case OneOf(field, vals) => field in doc && SameAsSome(doc[field], vals)
    case All(queries) => forall i :: 0 <= i < |queries| ==> Holds(queries[i], doc)
    case Any(queries) => exists i :: 0 <= i < |queries| && Holds(queries[i], doc)
  }

  // ---------------------------------------------------------------- the filter's own meaning

  /** What the tree asks of the stored value's field `k`. */
  predicate Truth(f: Filter, doc: Document) {
    match f
    case EQ(k, v) => Field(k) in doc && Same(doc[Field(k)], v)
    case NEQ(k, v) => !(Field(k) in doc && Same(doc[Field(k)], v))
    case GT(k, v) => Field(k) in doc && Less(v, doc[Field(k)])
    case GTE(k, v) => Field(k) in doc && (Less(v, doc[Field(k)]) || Same(doc[Field(k)], v))
    case LT(k, v) => Field(k) in doc && Less(doc[Field(k)], v)
    case LTE(k, v) => Field(k) in doc && (Less(doc[Field(k)], v) || Same(doc[Field(k)], v))
    case IN(k, vs) => Field(k) in doc && SameAsSome(doc[Field(k)], vs)
    case AND(fs) => forall i :: 0 <= i < |fs| ==> Truth(fs[i], doc)
    case OR(fs) => exists i :: 0 <= i < |fs| && Truth(fs[i], doc)
    case Unsupported => false
  }

  predicate NonEmptyGroups(f: Filter) {
    match f
    case AND(fs) => fs != [] && forall i :: 0 <= i < |fs| ==> NonEmptyGroups(fs[i])
    case OR(fs) => fs != [] && forall i :: 0 <= i < |fs| ==> NonEmptyGroups(fs[i])
    case _ => true
  }

  ghost predicate SameMeaning(q: Query, f: Filter) {
    forall doc :: Holds(q, doc) <==> Truth(f, doc)
  }

  lemma ScalarOfVal(v: Val)
    ensures Scalar(JsonVal(v)) == Some(v)
  {
  }

  lemma {:induction false} ScalarsOfVals(vals: seq<Val>)
    ensures Scalars(JsonVals(vals)) == Some(vals)
  {
    if vals != [] {
      ScalarsOfVals(vals[1..]);
      ScalarOfVal(vals[0]);
      assert JsonVals(vals)[1..] == JsonVals(vals[1..]);
      assert vals == [vals[0]] + vals[1..];
    }
  }

  lemma FieldIsNoGroup(key: string)
    ensures Field(key) != "$and" && Field(key) != "$or"
  {
    assert Field(key)[0] == 'v';
  }

  lemma OperatorMeans(key: string, op: string, val: Val)
    requires op in COMPARISONS
    ensures Interpret(OperatorJson(key, op, val)) == Some(Compares(Field(key), op, val))
  {
    hide Field;
    FieldIsNoGroup(key);
    ScalarOfVal(val);
  }

  lemma InMeans(key: string, vals: seq<Val>)
    ensures Interpret(JsonOf(IN(key, vals))) == Some(OneOf(Field(key), vals))
  {
    hide Field, Scalars, JsonVals;
    FieldIsNoGroup(key);
    ScalarsOfVals(vals);
    assert "$in" !in COMPARISONS;
  }

  /** The JSON of a filter tree is a query exactly when no group is empty, and the query means what
      the tree means on every document. */
  lemma {:induction false} JsonMeans(f: Filter)
    requires !Unprintable(f)
    ensures Interpret(JsonOf(f)).Some? <==> NonEmptyGroups(f)
    ensures Interpret(JsonOf(f)).Some? ==> SameMeaning(Interpret(JsonOf(f)).value, f)
    decreases f, 1
  {
    hide Field, OperatorJson, JsonVal, InterpretAll;
    match f
    case EQ(key, val) =>
      FieldIsNoGroup(key);
      ScalarOfVal(val);
    case NEQ(key, val) => OperatorMeans(key, "$ne", val);
    case GT(key, val) => OperatorMeans(key, "$gt", val);
    case GTE(key, val) => OperatorMeans(key, "$gte", val);
    case LT(key, val) => OperatorMeans(key, "$lt", val);
    case LTE(key, val) => OperatorMeans(key, "$lte", val);
    case IN(key, vals) => InMeans(key, vals);
    case AND(fs) =>
      GroupMeans(fs);
      if fs != [] && InterpretAll(JsonsOf(fs)).Some? {
        SameGroups(InterpretAll(JsonsOf(fs)).value, fs);
      }
    case OR(fs) =>
      GroupMeans(fs);
      if fs != [] && InterpretAll(JsonsOf(fs)).Some? {
        SameGroups(InterpretAll(JsonsOf(fs)).value, fs);
      }
    case Unsupported =>
  }

  lemma SameGroups(qs: seq<Query>, fs: seq<Filter>)
    requires |qs| == |fs| && forall i :: 0 <= i < |fs| ==> SameMeaning(qs[i], fs[i])
    ensures SameMeaning(All(qs), AND(fs)) && SameMeaning(Any(qs), OR(fs))
  {
    forall doc
      ensures Holds(All(qs), doc) <==> Truth(AND(fs), doc)
      ensures Holds(Any(qs), doc) <==> Truth(OR(fs), doc)
    {
      assert forall i :: 0 <= i < |fs| ==> (Holds(qs[i], doc) <==> Truth(fs[i], doc));
    }
  }

  lemma {:induction false} GroupMeans(fs: seq<Filter>)
    requires forall i :: 0 <= i < |fs| ==> !Unprintable(fs[i])
    ensures InterpretAll(JsonsOf(fs)).Some? <==> forall i :: 0 <= i < |fs| ==> NonEmptyGroups(fs[i])
    ensures InterpretAll(JsonsOf(fs)).Some? ==>
              forall i :: 0 <= i < |fs| ==> SameMeaning(InterpretAll(JsonsOf(fs)).value[i], fs[i])
    decreases fs, 0
  {
    hide SameMeaning, Interpret, JsonOf, NonEmptyGroups, Unprintable;
    if fs != [] {
      JsonMeans(fs[0]);
      GroupMeans(fs[1..]);
      assert JsonsOf(fs)[1..] == JsonsOf(fs[1..]);
      assert forall i :: 1 <= i < |fs| ==> fs[1..][i - 1] == fs[i];
      assert forall i :: 0 <= i < |fs| - 1 ==> fs[1..][i] == fs[i + 1];
    }
  }

  /** The main result: the printed text of a filter tree is read as the tree's JSON exactly when no key
      needs escaping and its strings are safe. It is then accepted as a query exactly when no group is
      empty, and selects exactly the documents that the tree asks for. */
  lemma PrintedFilterMeansTree(f: Filter, doc: Document)
    requires !Unprintable(f)
    ensures Read(Text(f)) == Some(JsonOf(f)) <==> PlainKeys(f) && SafeFilter(f)
    ensures PlainKeys(f) ==> (Read(Text(f)).Some? <==> SafeFilter(f))
    ensures Read(Text(f)) == Some(JsonOf(f)) ==>
              var q := Interpret(Read(Text(f)).value);
              && (q.Some? <==> NonEmptyGroups(f))
              && (q.Some? ==> (Holds(q.value, doc) <==> Truth(f, doc)))
  {
    hide Text, JsonOf, Interpret, Holds, Truth, NonEmptyGroups, SafeFilter, PlainKeys, Unprintable, ParseValue;
    ReadsAsIntendedIff(f);
    JsonMeans(f);
    if PlainKeys(f) {
      TextReads(f);
      assert Text(f) + "" == Text(f) && Delimited("");
      assert ParseValue(Text(f)) == if Expected(f).Some? then Ok(Expected(f).value, "") else Fail;
    }
  }
}
