/** Paging of the MongoDB query: the skip token, the cursor loop, and walks that follow the tokens
    while other clients write. */
module MongoPaging {
  import opened Wrappers
  import opened Decimal

  /** One document of the result set. `text` is the value as returned, None when it cannot be
      written as JSON; a document may also fail to decode altogether. */
  datatype Document = Document(key: string, etag: string, text: Option<string>, decodes: bool)

  datatype Item = Item(key: string, etag: string, data: Option<string>)

  datatype Page = Page(limit: int, token: string)

  datatype Outcome = Failed | Answer(items: seq<Item>, token: string)

  function Min(a: int, b: int): int { if a < b then a else b }

  /** What the server returns of a result set for a skip and a limit. */
  function Window(docs: seq<Document>, skip: nat, limit: Option<nat>): (w: seq<Document>)
    ensures |w| <= |docs| && (skip >= |docs| ==> w == [])
    ensures limit.Some? ==> |w| <= limit.value
  {
    var start := Min(skip, |docs|);
    if limit.None? then docs[start..] else docs[start..Min(start + limit.value, |docs|)]
  }

  function ItemOf(d: Document): Item { Item(d.key, d.etag, d.text) }

  function Items(docs: seq<Document>): (items: seq<Item>)
    ensures |items| == |docs|
    ensures forall i :: 0 <= i < |docs| ==> items[i] == ItemOf(docs[i])
  {
    seq(|docs|, i requires 0 <= i < |docs| => ItemOf(docs[i]))
  }

  /** Row by row, what is returned of documents: key, etag and value. */
  predicate ReturnsRows(items: seq<Item>, docs: seq<Document>) {
    && |items| == |docs|
    && forall i :: 0 <= i < |docs| ==>
         items[i].key == docs[i].key && items[i].etag == docs[i].etag && items[i].data == docs[i].text
  }

  /** The rows that the server hands out: from the skip on, as many as the limit allows. */
  lemma WindowRows(docs: seq<Document>, skip: nat, limit: Option<nat>)
    ensures var w := Window(docs, skip, limit);
            && (skip >= |docs| ==> w == [])
            && (skip < |docs| ==>
                  && |w| == (if limit.Some? && limit.value < |docs| - skip then limit.value else |docs| - skip)
                  && forall i :: 0 <= i < |w| ==> w[i] == docs[skip + i])
  {
  }

  lemma ItemsAreRows(docs: seq<Document>)
    ensures ReturnsRows(Items(docs), docs)
  {
  }

  predicate AllDecode(docs: seq<Document>) {
    forall i :: 0 <= i < |docs| ==> docs[i].decodes
  }

  /** Where a page begins; None for a token that is no 64-bit number. */
  function SkipOf(token: string): Option<int> {
    if token == "" then Some(0) else ParseInt(token)
  }

  function LimitOf(limit: int): Option<nat> {
    if limit > 0 then Some(limit) else None
  }

  /** The first position read for the skip option handed to the server. */
  function Start(skip: Option<int>): nat {
    if skip.Some? && skip.value > 0 then skip.value else 0
  }

  /** 64-bit addition. */
  function Wrapped(n: int): int {
    if n <= MAX_INT64 then n else n - 2 * (MAX_INT64 + 1)
  }

  /** The answer to a query whose filter is readable, over a result set. */
  function Reply(docs: seq<Document>, page: Page): Outcome {
    var skip := SkipOf(page.token);
    if skip.None? || skip.value < 0 then Failed
    else
      var found := Window(docs, skip.value, LimitOf(page.limit));
      if !AllDecode(found) then Failed
      else Answer(Items(found), if page.limit > 0 then PrintInt(Wrapped(skip.value + |found|)) else "")
  }

  // ---------------------------------------------------------------- the query object

  class Query {
    var limit: Option<nat>
    var skip: Option<int>

    constructor ()
      ensures limit == None && skip == None
    {
      limit, skip := None, None;
    }

    /** Takes over the page; `readable` says whether the filter text is empty or could be read. */
    method Finalize(readable: bool, page: Page) returns (ok: bool)
      modifies this
      ensures ok <==> readable && SkipOf(page.token).Some?
      ensures limit == if readable && page.limit > 0 then Some(page.limit) else old(limit)
      ensures skip == if ok && page.token != "" then SkipOf(page.token) else old(skip)
    {
      if !readable {
        return false;
      }
      if page.limit > 0 {
        limit := Some(page.limit);
      }
      if |page.token| != 0 {
        var n := ParseInt(page.token);
        if n.None? {
          return false;
        }
        skip := n;
      }
      ok := true;
    }

    /** Reads the cursor to its end. The server refuses a negative skip; `fails` stands for every
        other error it can report. */
    method Execute(docs: seq<Document>, fails: bool) returns (r: Outcome)
      ensures r.Failed? <==>
              || fails || (skip.Some? && skip.value < 0)
              || !AllDecode(Window(docs, Start(skip), limit))
      ensures r.Answer? ==> r.items == Items(Window(docs, Start(skip), limit))
      ensures r.Answer? ==> ReturnsRows(r.items, Window(docs, Start(skip), limit))
      ensures r.Answer? ==>
              r.token == if limit.Some? && limit.value != 0 then PrintInt(Wrapped(Start(skip) + |r.items|)) else ""
    {
      if fails || (skip.Some? && skip.value < 0) {
        return Failed;
      }
      var found := Window(docs, Start(skip), limit);
      var ret, i := [], 0;
      while i < |found|
        invariant 0 <= i <= |found|
        invariant AllDecode(found[..i]) && ret == Items(found[..i])
      {
        if !found[i].decodes {
          return Failed;
        }
        ret := ret + [ItemOf(found[i])];
        i := i + 1;
      }
      assert found[..i] == found;
      var token := "";
      if limit.Some? && limit.value != 0 {
        token := PrintInt(Wrapped(Start(skip) + |ret|));
      }
      r := Answer(ret, token);
    }
  }

  /** One call, as the state store makes it: a new query object, the page, the cursor. */
  method RunQuery(docs: seq<Document>, readable: bool, fails: bool, page: Page) returns (r: Outcome)
    ensures r == if readable && !fails then Reply(docs, page) else Failed
    ensures r.Answer? ==>
              exists skip: nat ::
                && SkipOf(page.token) == Some(skip)
                && ReturnsRows(r.items, Window(docs, skip, if page.limit > 0 then Some(page.limit) else None))
  {
    hide ParseInt, PrintInt, Window, Items, AllDecode, Wrapped;
    var q := new Query();
    var ok := q.Finalize(readable, page);
    if !ok {
      return Failed;
    }
    r := q.Execute(docs, fails);
    if r.Answer? {
      var skip: nat := SkipOf(page.token).value;
      assert ReturnsRows(r.items, Window(docs, skip, if page.limit > 0 then Some(page.limit) else None));
    }
  }

  // ---------------------------------------------------------------- walks

  /** One answered call: the result set it met and what it returned. */
  datatype Exchange = Exchange(docs: seq<Document>, page: Page, items: seq<Item>, token: string)

  ghost predicate Distinct(docs: seq<Document>) {
    forall i, j :: 0 <= i < j < |docs| ==> docs[i].key != docs[j].key
  }

  ghost predicate Answered(x: Exchange) {
    && Distinct(x.docs) && |x.docs| <= MAX_INT64
    && x.page.limit > 0
    && Reply(x.docs, x.page) == Answer(x.items, x.token)
  }

  /** A client that pages on: each call carries the token of the one before, whatever other clients
      did to the result set in between. */
  ghost predicate Walk(xs: seq<Exchange>) {
    && (forall i :: 0 <= i < |xs| ==> Answered(xs[i]))
    && (forall i :: 0 < i < |xs| ==> xs[i].page.token == xs[i - 1].token)
  }

  /** The walk as the server sees it: each page is the window behind the rows returned so far. */
  ghost predicate Pages(xs: seq<Exchange>, skip: nat) {
    xs != [] ==>
      && Distinct(xs[0].docs) && xs[0].page.limit > 0
      && xs[0].items == Items(Window(xs[0].docs, skip, Some(xs[0].page.limit)))
      && Pages(xs[1..], skip + |xs[0].items|)
  }

  /** The walk returned a page that is not full. */
  predicate Ended(xs: seq<Exchange>) {
    xs != [] && |xs[|xs| - 1].items| < xs[|xs| - 1].page.limit
  }

  function Returned(xs: seq<Exchange>): seq<Item> {
    if xs == [] then [] else xs[0].items + Returned(xs[1..])
  }

  /** Tokens count the rows returned so far and lead each call right behind them. */
  lemma {:induction false} TokensCountRows(xs: seq<Exchange>, skip: nat)
    requires Walk(xs) && skip <= MAX_INT64
    requires xs != [] ==> SkipOf(xs[0].page.token) == Some(skip)
    ensures Pages(xs, skip)
    decreases |xs|
  {
    if xs != [] {
      var x, rest := xs[0], xs[1..];
      var next := skip + |x.items|;
      assert Answered(x);
      IntRoundTrip(next);
      if rest != [] {
        assert xs[1].page.token == x.token;
      }
      forall i | 0 <= i < |rest| ensures Answered(rest[i]) { assert rest[i] == xs[i + 1]; }
      forall i | 0 < i < |rest| ensures rest[i].page.token == rest[i - 1].token {
        assert rest[i] == xs[i + 1] && rest[i - 1] == xs[i];
      }
      TokensCountRows(rest, next);
    }
  }

  function Position(docs: seq<Document>, key: string): (n: nat)
    ensures n <= |docs| && (n < |docs| ==> docs[n].key == key)
    ensures forall i :: 0 <= i < n ==> docs[i].key != key
  {
    if docs == [] || docs[0].key == key then 0 else 1 + Position(docs[1..], key)
  }

  /** How often a key is among the items. */
  function Times(items: seq<Item>, key: string): nat {
    if items == [] then 0 else (if items[0].key == key then 1 else 0) + Times(items[1..], key)
  }

  lemma TimesNone(key: string)
    ensures Times([], key) == 0
  {
  }

  lemma {:induction false} TimesSplit(a: seq<Item>, b: seq<Item>, key: string)
    ensures Times(a + b, key) == Times(a, key) + Times(b, key)
  {
    if a == [] {
      assert a + b == b;
    } else {
      assert (a + b)[1..] == a[1..] + b;
      TimesSplit(a[1..], b, key);
    }
  }

  lemma {:induction false} TimesInSlice(docs: seq<Document>, a: nat, b: nat, key: string)
    requires Distinct(docs) && a <= b <= |docs|
    ensures Times(Items(docs[a..b]), key) == if a <= Position(docs, key) < b then 1 else 0
    decreases b - a
  {
    if a < b {
      var items := Items(docs[a..b]);
      assert items[1..] == Items(docs[a + 1..b]);
      assert items[0].key == docs[a].key;
      TimesInSlice(docs, a + 1, b, key);
    }
  }

  function Bit(b: bool): nat { if b then 1 else 0 }

  /** How often the key slipped, between two pages, from the rows still to come to before them. */
  function Drops(xs: seq<Exchange>, skip: nat, key: string): nat
    decreases |xs|
  {
    if |xs| < 2 then 0
    else
      var next := skip + |xs[0].items|;
      Bit(Position(xs[0].docs, key) >= next > Position(xs[1].docs, key)) + Drops(xs[1..], next, key)
  }

  /** How often it moved the other way. */
  function Rises(xs: seq<Exchange>, skip: nat, key: string): nat
    decreases |xs|
  {
    if |xs| < 2 then 0
    else
      var next := skip + |xs[0].items|;
      Bit(Position(xs[0].docs, key) < next <= Position(xs[1].docs, key)) + Rises(xs[1..], next, key)
  }

  /** The key was in every result set that the walk met. */
  predicate Present(xs: seq<Exchange>, key: string) {
    forall i :: 0 <= i < |xs| ==> Position(xs[i].docs, key) < |xs[i].docs|
  }

  lemma PageHoldsKey(x: Exchange, skip: nat, key: string)
    requires Pages([x], skip) && Position(x.docs, key) < |x.docs|
    ensures Times(x.items, key) == Bit(skip <= Position(x.docs, key) < skip + |x.items|)
    ensures |x.items| < x.page.limit ==> Position(x.docs, key) < skip + |x.items|
  {
    var a := Min(skip, |x.docs|);
    var b := Min(a + x.page.limit, |x.docs|);
    assert x.items == Items(x.docs[a..b]);
    TimesInSlice(x.docs, a, b, key);
  }

  lemma Tail(xs: seq<Exchange>, key: string)
    requires |xs| > 1 && Ended(xs)
    ensures Ended(xs[1..])
    ensures Present(xs, key) ==> Present(xs[1..], key)
  {
    assert xs[1..][|xs| - 2] == xs[|xs| - 1];
    assert forall i :: 0 <= i < |xs| - 1 ==> xs[1..][i] == xs[i + 1];
  }

  /** The balance of a walk: what it returned and what slipped away is what was still to come at its
      start and what moved back. */
  lemma {:induction false} Balance(xs: seq<Exchange>, skip: nat, key: string)
    requires Pages(xs, skip) && Ended(xs) && Present(xs, key)
    ensures Times(Returned(xs), key) + Drops(xs, skip, key) ==
            Rises(xs, skip, key) + Bit(Position(xs[0].docs, key) >= skip)
    decreases |xs|
  {
    hide Distinct, Window, Items, Times, Position;
    var x, rest := xs[0], xs[1..];
    assert Pages([x], skip) by { assert [x][1..] == []; }
    PageHoldsKey(x, skip, key);
    TimesSplit(x.items, Returned(rest), key);
    if rest == [] {
      TimesNone(key);
    } else {
      Tail(xs, key);
      Balance(rest, skip + |x.items|, key);
    }
  }

  /** A key that is there all the time is returned by a finished walk exactly once if and only if it
      slipped over a page boundary as often as it came back. */
  lemma ReturnedOnceIff(xs: seq<Exchange>, key: string)
    requires Walk(xs) && Ended(xs) && xs[0].page.token == "" && Present(xs, key)
    ensures Times(Returned(xs), key) == 1 + Rises(xs, 0, key) - Drops(xs, 0, key)
    ensures Times(Returned(xs), key) == 1 <==> Drops(xs, 0, key) == Rises(xs, 0, key)
  {
    TokensCountRows(xs, 0);
    Balance(xs, 0, key);
  }

  lemma FrozenPage(docs: seq<Document>, skip: nat, limit: nat)
    requires skip <= |docs|
    ensures var items := Items(Window(docs, skip, Some(limit)));
            && skip + |items| <= |docs|
            && items + Items(docs[skip + |items|..]) == Items(docs[skip..])
            && (|items| < limit ==> items == Items(docs[skip..]))
  {
    var next := Min(skip + limit, |docs|);
    assert docs[skip..] == docs[skip..next] + docs[next..];
    if next < skip + limit {
      assert docs[skip..next] == docs[skip..];
    }
  }

  lemma {:induction false} FrozenPages(xs: seq<Exchange>, skip: nat, docs: seq<Document>)
    requires Pages(xs, skip) && Ended(xs) && skip <= |docs|
    requires forall i :: 0 <= i < |xs| ==> xs[i].docs == docs
    ensures Returned(xs) == Items(docs[skip..])
    decreases |xs|
  {
    hide Distinct, Window, Items;
    var x, rest := xs[0], xs[1..];
    var next := skip + |x.items|;
    FrozenPage(docs, skip, x.page.limit);
    if rest == [] {
      assert Returned(xs) == x.items;
    } else {
      Tail(xs, "");
      assert forall i :: 0 <= i < |rest| ==> rest[i] == xs[i + 1];
      FrozenPages(rest, next, docs);
    }
  }

  /** Over an unchanged result set a finished walk returns it, in its order. */
  lemma FrozenWalk(xs: seq<Exchange>)
    requires Walk(xs) && Ended(xs) && xs[0].page.token == ""
    requires forall i :: 0 <= i < |xs| ==> xs[i].docs == xs[0].docs
    ensures ReturnsRows(Returned(xs), xs[0].docs)
  {
    ItemsAreRows(xs[0].docs);
    TokensCountRows(xs, 0);
    FrozenPages(xs, 0, xs[0].docs);
    assert xs[0].docs[0..] == xs[0].docs;
  }

  /** Deleting a row that was already returned makes a walk lose the row after the page. */
  lemma DeletionLosesRow(a: Document, b: Document)
    requires a.key != b.key && a.decodes && b.decodes
    ensures exists xs: seq<Exchange> :: Walk(xs) && Ended(xs) && xs[0].page.token == "" && Present(xs, b.key)
                         && Times(Returned(xs), b.key) == 0
  {
    IntRoundTrip(1);
    var x := Exchange([a, b], Page(1, ""), [ItemOf(a)], PrintInt(1));
    var y := Exchange([b], Page(1, PrintInt(1)), [], PrintInt(1));
    var xs := [x, y];
    assert Window([a, b], 0, Some(1)) == [a];
    assert Window([b], 1, Some(1)) == [];
    assert Position([a, b], b.key) == 1 by { assert [a, b][1] == b; }
    assert Position([b], b.key) == 0;
    assert Walk(xs) && Ended(xs);
    ReturnedOnceIff(xs, b.key);
  }
}
