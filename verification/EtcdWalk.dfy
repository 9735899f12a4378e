/** Whole walks over an etcd store: calls chained by their tokens, with writes in between. */
module EtcdWalk {
  import opened Wrappers
  import opened Decimal
  import opened Like
  import opened EtcdKeysLike
  import opened EtcdPages

  /** One call and its answer. */
  datatype Exchange = Exchange(req: Request, heads: nat -> int, calls: nat, hits: seq<KV>, res: Result)

  ghost predicate Revision(r: int) { 0 < r <= MAX_INT64 }

  /** Revisions are positive 64-bit numbers; the server lists each snapshot by create revision, and
      each key once. */
  ghost predicate ValidHistory(at: History) {
    && (forall r, kv :: kv in at(r) ==> Revision(kv.createRev))
    && (forall r :: Sorted(at(r)) && DistinctKeys(at(r)))
  }

  /** The answer keeps what KeysLike promises. */
  ghost predicate Kept(at: History, path: string, x: Exchange) {
    && (forall c: nat :: Revision(x.heads(c)))
    && x.req.pattern != "" && CursorOf(x.req).Some?
    && (CursorOf(x.req).value.snapRev >= 0 ==>
          var rev := ReadRev(x.req, x.heads);
          Promised(Scanned(at, path, x.req, rev), Base(path), x.req, rev, CursorOf(x.req).value.after,
                   x.calls, x.hits, x.res))
  }

  /** A client that follows the tokens: the first request has none, each next one carries the token
      just received. */
  ghost predicate Follows(at: History, path: string, p: string, xs: seq<Exchange>) {
    && xs != [] && xs[0].req.token == None
    && (forall i :: 0 <= i < |xs| ==> xs[i].req.pattern == p && Kept(at, path, xs[i]))
    && (forall i :: 0 <= i < |xs| - 1 ==>
          xs[i].res.Page? && xs[i].res.token.Some? && xs[i + 1].req.token == xs[i].res.token)
  }

  /** The last call was answered without a token. */
  predicate Ended(xs: seq<Exchange>) {
    xs != [] && xs[|xs| - 1].res.Page? && xs[|xs| - 1].res.token.None?
  }

  ghost predicate ClientWalk(at: History, path: string, p: string, xs: seq<Exchange>) {
    Follows(at, path, p, xs) && Ended(xs)
  }

  /** The same calls as the store sees them: each reads at `rev`, right behind the last entry returned. */
  ghost predicate Chain(at: History, path: string, p: string, rev: int, after: int, xs: seq<Exchange>)
    decreases |xs|
  {
    && xs != []
    && xs[0].req.pattern == p
    && Kept(at, path, xs[0])
    && CursorOf(xs[0].req).value == Cursor(CursorOf(xs[0].req).value.snapRev, after)
    && CursorOf(xs[0].req).value.snapRev >= 0
    && ReadRev(xs[0].req, xs[0].heads) == rev
    && (|xs| > 1 ==>
          && xs[0].res.Page? && xs[0].res.token.Some?
          && xs[0].hits != []
          && Chain(at, path, p, rev, xs[0].hits[|xs[0].hits| - 1].createRev, xs[1..]))
  }

  function Keys(xs: seq<Exchange>): seq<string> {
    if xs == [] then []
    else (if xs[0].res.Page? then xs[0].res.keys else []) + Keys(xs[1..])
  }

  function Hits(xs: seq<Exchange>): seq<KV> {
    if xs == [] then [] else xs[0].hits + Hits(xs[1..])
  }

  /** Every token leads the next call to the same snapshot, right behind the last entry returned,
      whatever has been written in between. */
  lemma {:induction false} TokensLeadOn(at: History, path: string, p: string, xs: seq<Exchange>, rev: int, after: int)
    requires ValidHistory(at) && Revision(rev)
    requires forall i :: 0 <= i < |xs| ==> xs[i].req.pattern == p && Kept(at, path, xs[i])
    requires forall i :: 0 <= i < |xs| - 1 ==>
               xs[i].res.Page? && xs[i].res.token.Some? && xs[i + 1].req.token == xs[i].res.token
    requires xs != [] && CursorOf(xs[0].req).Some?
    requires CursorOf(xs[0].req).value.snapRev >= 0 && ReadRev(xs[0].req, xs[0].heads) == rev
    requires CursorOf(xs[0].req).value.after == after
    ensures Chain(at, path, p, rev, after, xs)
    decreases |xs|
  {
    hide Promised, Sorted, ParseToken, ContinueToken;
    if |xs| > 1 {
      var x := xs[0];
      SoundOf(at, path, x, rev);
      var last := x.hits[|x.hits| - 1];
      WithPrefixMembers(at(rev), Base(path) + LiteralPrefix(Tokenize(p)));
      assert last in x.hits;
      TokenRoundTrip(rev, last.createRev);
      assert xs[1..][0] == xs[1] && CursorOf(xs[1].req) == Some(Cursor(rev, last.createRev));
      TokensLeadOn(at, path, p, xs[1..], rev, last.createRev);
    }
  }

  lemma SoundOf(at: History, path: string, x: Exchange, rev: int)
    requires Kept(at, path, x) && x.res.Page?
    requires CursorOf(x.req).value.snapRev >= 0 && ReadRev(x.req, x.heads) == rev
    ensures Sound(Scanned(at, path, x.req, rev), Base(path), x.req, rev, CursorOf(x.req).value.after, x.hits, x.res)
    ensures x.res.token.Some? ==> x.hits != []
  {
    hide Sound, AsExpected, Sorted, Scanned;
    SoundToken(Scanned(at, path, x.req, rev), Base(path), x.req, rev, CursorOf(x.req).value.after, x.hits, x.res);
  }

  lemma SoundToken(kvs: seq<KV>, base: string, req: Request, rev: int, after: int, hits: seq<KV>, res: Result)
    ensures Sound(kvs, base, req, rev, after, hits, res) && res.token.Some? ==> hits != []
  {
  }

  lemma FollowsIsChain(at: History, path: string, p: string, xs: seq<Exchange>)
    requires ValidHistory(at) && Follows(at, path, p, xs)
    ensures Chain(at, path, p, xs[0].heads(0), 0, xs)
  {
    hide Promised;
    TokensLeadOn(at, path, p, xs, xs[0].heads(0), 0);
  }

  lemma ScannedSorted(at: History, path: string, req: Request, rev: int)
    requires ValidHistory(at)
    ensures Sorted(Scanned(at, path, req, rev))
  {
    WithPrefixSorted(at(rev), Base(path) + LiteralPrefix(Tokenize(req.pattern)));
  }

  lemma ScannedDistinct(at: History, path: string, req: Request, rev: int)
    requires ValidHistory(at)
    ensures DistinctKeys(Scanned(at, path, req, rev))
  {
    hide Sorted;
    WithPrefixDistinct(at(rev), Base(path) + LiteralPrefix(Tokenize(req.pattern)));
  }

  lemma ScannedByPattern(at: History, path: string, r1: Request, r2: Request, rev: int)
    requires r1.pattern == r2.pattern
    ensures Scanned(at, path, r1, rev) == Scanned(at, path, r2, rev)
  {
  }

  // ---------------------------------------------------------------- exactly when a walk is complete

  lemma UserKeysConcat(a: seq<KV>, b: seq<KV>, base: string)
    ensures UserKeys(a + b, base) == UserKeys(a, base) + UserKeys(b, base)
  {
  }

  /** The head of a chain, one call. */
  lemma ChainHead(at: History, path: string, p: string, rev: int, after: int, xs: seq<Exchange>)
    requires Chain(at, path, p, rev, after, xs) && xs[0].res.Page?
    requires Sorted(Scanned(at, path, xs[0].req, rev))
    ensures xs[0].res.keys == UserKeys(xs[0].hits, Base(path))
    ensures Expected(Scanned(at, path, xs[0].req, rev), Base(path), p, after, Want(xs[0].req)) ==
            Answer(xs[0].hits, xs[0].res.token.Some?)
  {
    hide Scanned, Sorted, Expected, ContinueToken;
  }

  /** No call of the walk loses anything: each is judged by its own cursor and page size. */
  ghost predicate NoneLost(kvs: seq<KV>, base: string, p: string, xs: seq<Exchange>) {
    forall i :: 0 <= i < |xs| ==>
      CursorOf(xs[i].req).Some? && KeepsAll(kvs, base, p, CursorOf(xs[i].req).value.after, Want(xs[i].req))
  }

  lemma NoneLostSplit(kvs: seq<KV>, base: string, p: string, xs: seq<Exchange>)
    requires xs != [] && CursorOf(xs[0].req).Some?
    ensures NoneLost(kvs, base, p, xs) <==>
            KeepsAll(kvs, base, p, CursorOf(xs[0].req).value.after, Want(xs[0].req)) && NoneLost(kvs, base, p, xs[1..])
  {
    hide KeepsAll, CursorOf;
    assert forall i :: 1 <= i < |xs| ==> xs[i] == xs[1..][i - 1];
    assert forall i :: 0 <= i < |xs| - 1 ==> xs[1..][i] == xs[i + 1];
  }

  lemma {:induction false} ChainSelects(at: History, path: string, p: string, rev: int, after: int, xs: seq<Exchange>)
    requires ValidHistory(at) && Chain(at, path, p, rev, after, xs) && Ended(xs)
    ensures Keys(xs) == UserKeys(Hits(xs), Base(path))
    ensures var kvs := Scanned(at, path, xs[0].req, rev);
            var all := Selected(kvs, Base(path), p, after);
            && |Hits(xs)| <= |all|
            && (|Hits(xs)| == |all| <==> NoneLost(kvs, Base(path), p, xs))
            && (|Hits(xs)| == |all| ==> Hits(xs) == all)
    decreases |xs|
  {
    hide Kept, Scanned, Sorted, Selected, KeepsAll, Expected, NoneLost, ValidHistory, CursorOf, ReadRev;
    var kvs, base, x := Scanned(at, path, xs[0].req, rev), Base(path), xs[0];
    ScannedSorted(at, path, x.req, rev);
    ChainHead(at, path, p, rev, after, xs);
    HeadCursor(at, path, p, rev, after, xs);
    NoneLostSplit(kvs, base, p, xs);
    if |xs| > 1 {
      assert xs[1..][|xs| - 2] == xs[|xs| - 1];
      var last := x.hits[|x.hits| - 1].createRev;
      HeadCursor(at, path, p, rev, last, xs[1..]);
      ScannedByPattern(at, path, xs[0].req, xs[1].req, rev);
      FullPage(kvs, base, p, after, Want(x.req), x.hits);
      ChainSelects(at, path, p, rev, last, xs[1..]);
      UserKeysConcat(x.hits, Hits(xs[1..]), base);
    } else {
      LastPage(kvs, base, p, after, Want(x.req), x.hits);
      assert xs[1..] == [] && Hits(xs) == x.hits && Keys(xs) == x.res.keys;
      assert NoneLost(kvs, base, p, xs[1..]) by { NoneLostEmpty(kvs, base, p); }
    }
  }

  lemma NoneLostEmpty(kvs: seq<KV>, base: string, p: string)
    ensures NoneLost(kvs, base, p, [])
  {
  }

  lemma HeadCursor(at: History, path: string, p: string, rev: int, after: int, xs: seq<Exchange>)
    requires Chain(at, path, p, rev, after, xs)
    ensures CursorOf(xs[0].req).Some? && CursorOf(xs[0].req).value.after == after && xs[0].req.pattern == p
  {
    hide Promised;
  }

  /** The main result. A walk with any page sizes that has come to its end returned every key of the
      first snapshot that matches the pattern, once each and in create-revision order, whatever was
      written meanwhile, if and only if none of its calls met a tie at a page or window edge. */
  lemma WalkCompleteIff(at: History, path: string, p: string, xs: seq<Exchange>)
    requires ValidHistory(at) && ClientWalk(at, path, p, xs)
    ensures var rev := xs[0].heads(0);
            Keys(xs) == UserKeys(Selected(at(rev), Base(path), p, 0), Base(path)) <==>
            NoneLost(Scanned(at, path, xs[0].req, rev), Base(path), p, xs)
  {
    hide Kept, Selected, WithPrefix, KeepsAll;
    var rev := xs[0].heads(0);
    FollowsIsChain(at, path, p, xs);
    ChainSelects(at, path, p, rev, 0, xs);
    NarrowingLosesNothing(at(rev), Base(path), p, 0);
  }

  /** With distinct create revisions in the scanned range the walk is complete. Only a last call
      without page size needs the range to fit its largest window. */
  lemma WalkComplete(at: History, path: string, p: string, xs: seq<Exchange>)
    requires ValidHistory(at) && ClientWalk(at, path, p, xs)
    requires Increasing(Scanned(at, path, xs[0].req, xs[0].heads(0)))
    requires Want(xs[|xs| - 1].req) > 0 || |Scanned(at, path, xs[0].req, xs[0].heads(0))| <= 8192
    ensures Keys(xs) == UserKeys(Selected(at(xs[0].heads(0)), Base(path), p, 0), Base(path))
  {
    hide Kept, Selected, Scanned, Increasing, NoneLost;
    FollowsIsChain(at, path, p, xs);
    DistinctLosesNone(at, path, p, xs[0].heads(0), 0, xs);
    WalkCompleteIff(at, path, p, xs);
  }

  lemma {:induction false} DistinctLosesNone(at: History, path: string, p: string, rev: int, after: int,
                                             xs: seq<Exchange>)
    requires ValidHistory(at) && Chain(at, path, p, rev, after, xs) && Ended(xs)
    requires Increasing(Scanned(at, path, xs[0].req, rev))
    requires Want(xs[|xs| - 1].req) > 0 || |Scanned(at, path, xs[0].req, rev)| <= 8192
    ensures NoneLost(Scanned(at, path, xs[0].req, rev), Base(path), p, xs)
    decreases |xs|
  {
    hide Kept, Scanned, Sorted, Increasing, KeepsAll, Expected, NoneLost, ValidHistory, CursorOf, ReadRev;
    var kvs, base, x := Scanned(at, path, xs[0].req, rev), Base(path), xs[0];
    ScannedSorted(at, path, x.req, rev);
    ChainHead(at, path, p, rev, after, xs);
    HeadCursor(at, path, p, rev, after, xs);
    NoneLostSplit(kvs, base, p, xs);
    if |xs| > 1 {
      assert xs[1..][|xs| - 2] == xs[|xs| - 1];
      var last := x.hits[|x.hits| - 1].createRev;
      HeadCursor(at, path, p, rev, last, xs[1..]);
      ScannedByPattern(at, path, xs[0].req, xs[1].req, rev);
      FullPage(kvs, base, p, after, Want(x.req), x.hits);
      DistinctLosesNone(at, path, p, rev, last, xs[1..]);
    } else {
      LastPage(kvs, base, p, after, Want(x.req), x.hits);
      assert xs[1..] == [];
      NoneLostEmpty(kvs, base, p);
    }
  }

  // ---------------------------------------------------------------- exactly when a walk ends

  /** Every call may read often enough for its windows. */
  predicate EnoughReads(xs: seq<Exchange>) {
    forall i :: 0 <= i < |xs| ==> xs[i].calls >= Rounds(FirstFetch(Want(xs[i].req)))
  }

  /** The client has no token to go on with. */
  predicate Stopped(xs: seq<Exchange>) {
    xs != [] && !(xs[|xs| - 1].res.Page? && xs[|xs| - 1].res.token.Some?)
  }

  /** What the calls before the last one ask for. */
  function Asked(xs: seq<Exchange>): nat {
    if |xs| <= 1 then 0
    else (if xs[0].req.pageSize.Some? then xs[0].req.pageSize.value else 0) + Asked(xs[1..])
  }

  /** The pages that a client asks for before its last call hold no more than there is to find; with one
      page size it makes at most one call more than there are full pages. Whatever its page sizes, it
      stops with an answer if and only if the last call has no page size or a largest window longer than
      the key range; otherwise that call is never answered, however often it may read. */
  lemma WalkEndsIff(at: History, path: string, p: string, xs: seq<Exchange>)
    requires ValidHistory(at) && Follows(at, path, p, xs) && EnoughReads(xs)
    ensures var kvs := Scanned(at, path, xs[0].req, xs[0].heads(0));
            var size := xs[|xs| - 1].req.pageSize;
            && Asked(xs) <= |Selected(kvs, Base(path), p, 0)|
            && (Stopped(xs) ==>
                  (Ended(xs) <==> size == None || size == Some(0) || |kvs| < Cap(4 * size.value)))
            && (Stopped(xs) && !Ended(xs) ==> xs[|xs| - 1].res == Failed(Cancelled))
    ensures forall w :: (forall i :: 0 <= i < |xs| ==> xs[i].req.pageSize == Some(w)) ==>
              (|xs| - 1) * w <= |Selected(Scanned(at, path, xs[0].req, xs[0].heads(0)), Base(path), p, 0)|
  {
    hide Kept, Selected, Scanned, Cap, Rounds;
    FollowsIsChain(at, path, p, xs);
    var rev := xs[0].heads(0);
    ChainIsBounded(at, path, p, rev, 0, xs);
    forall w | (forall i :: 0 <= i < |xs| ==> xs[i].req.pageSize == Some(w)) ensures Asked(xs) == (|xs| - 1) * w {
      AskedFixed(xs, w);
    }
    if Stopped(xs) {
      LastCall(at, path, p, rev, 0, xs);
    }
  }

  lemma {:induction false} AskedFixed(xs: seq<Exchange>, w: nat)
    requires xs != [] && forall i :: 0 <= i < |xs| ==> xs[i].req.pageSize == Some(w)
    ensures Asked(xs) == (|xs| - 1) * w
  {
    if |xs| > 1 {
      AskedFixed(xs[1..], w);
      assert (|xs| - 1) * w == w + (|xs| - 2) * w;
    }
  }

  lemma {:induction false} ChainIsBounded(at: History, path: string, p: string, rev: int, after: int, xs: seq<Exchange>)
    requires ValidHistory(at) && Chain(at, path, p, rev, after, xs)
    ensures Asked(xs) <= |Selected(Scanned(at, path, xs[0].req, rev), Base(path), p, after)|
    decreases |xs|
  {
    hide Kept, Scanned, Sorted, Selected, KeepsAll, Expected, ValidHistory, CursorOf, ReadRev;
    if |xs| > 1 {
      var kvs, x := Scanned(at, path, xs[0].req, rev), xs[0];
      ScannedSorted(at, path, x.req, rev);
      ChainHead(at, path, p, rev, after, xs);
      HeadCursor(at, path, p, rev, after, xs);
      var last := x.hits[|x.hits| - 1].createRev;
      HeadCursor(at, path, p, rev, last, xs[1..]);
      ScannedByPattern(at, path, xs[0].req, xs[1].req, rev);
      FullPage(kvs, Base(path), p, after, Want(x.req), x.hits);
      ChainIsBounded(at, path, p, rev, last, xs[1..]);
    }
  }

  lemma {:induction false} LastCall(at: History, path: string, p: string, rev: int, after: int, xs: seq<Exchange>)
    requires ValidHistory(at) && Chain(at, path, p, rev, after, xs) && EnoughReads(xs) && Stopped(xs)
    ensures var want := Want(xs[|xs| - 1].req);
            Ended(xs) <==> want == 0 || |Scanned(at, path, xs[0].req, rev)| < Cap(FirstFetch(want))
    ensures !Ended(xs) ==> xs[|xs| - 1].res == Failed(Cancelled)
    decreases |xs|
  {
    hide Kept, CursorOf, ReadRev, Scanned, Sorted, Cap, Rounds, ValidHistory;
    var x := xs[0];
    if |xs| > 1 {
      var last := x.hits[|x.hits| - 1].createRev;
      HeadCursor(at, path, p, rev, last, xs[1..]);
      HeadCursor(at, path, p, rev, after, xs);
      ScannedByPattern(at, path, xs[0].req, xs[1].req, rev);
      assert xs[1..][|xs| - 2] == xs[|xs| - 1];
      assert forall i :: 0 <= i < |xs| - 1 ==> xs[1..][i] == xs[i + 1];
      LastCall(at, path, p, rev, last, xs[1..]);
    } else {
      ScannedSorted(at, path, x.req, rev);
      ChainPromise(at, path, p, rev, after, xs);
      AnsweredIff(Scanned(at, path, x.req, rev), Base(path), x.req, rev, after, x.calls, x.hits, x.res);
      OnlyCancelled(Scanned(at, path, x.req, rev), Base(path), x.req, rev, after, x.calls, x.hits, x.res);
    }
  }

  lemma ChainPromise(at: History, path: string, p: string, rev: int, after: int, xs: seq<Exchange>)
    requires Chain(at, path, p, rev, after, xs)
    ensures Promised(Scanned(at, path, xs[0].req, rev), Base(path), xs[0].req, rev, after,
                     xs[0].calls, xs[0].hits, xs[0].res)
  {
    hide Promised;
  }

  lemma OnlyCancelled(kvs: seq<KV>, base: string, req: Request, rev: int, after: int, calls: nat, hits: seq<KV>,
                      res: Result)
    requires Promised(kvs, base, req, rev, after, calls, hits, res)
    ensures res.Page? || res == Failed(Cancelled)
  {
    hide Sorted, AsExpected;
  }

  // ---------------------------------------------------------------- a walk as one pass

  /** The last of `n` entries fills a page of `w`. */
  predicate FillsPage(n: nat, w: nat)
    requires w > 0
  {
    n == w || (n > w && FillsPage(n - w, w))
  }

  /** An entry that ties with the one that has just filled a page. */
  predicate CutOff(taken: seq<KV>, kv: KV, w: nat)
    requires w > 0
  {
    taken != [] && FillsPage(|taken|, w) && kv.createRev == taken[|taken| - 1].createRev
  }

  /** What one pass over the first `n` entries takes for pages of `w`: every match that no window edge
      shadows, but for those that tie with the entry that has just filled a page. */
  function OnePass(kvs: seq<KV>, n: nat, w: nat, base: string, p: string, after: int): seq<KV>
    requires n <= |kvs| && w > 0
  {
    if n == 0 then []
    else
      var taken, kv := OnePass(kvs, n - 1, w, base, p, after), kvs[n - 1];
      taken +
      if Hit(kv, base, p, after) && !Shadowed(kvs, n - 1, 4 * w) && !CutOff(taken, kv, w) then [kv] else []
  }

  /** Up to the end of the first page nothing is cut. */
  lemma {:induction false} FirstPageTaken(kvs: seq<KV>, n: nat, w: nat, base: string, p: string, after: int)
    requires n <= |kvs| && w > 0
    requires n > 0 ==> |Reached(kvs, n - 1, FirstFetch(w), base, p, after)| < w
    ensures OnePass(kvs, n, w, base, p, after) == Reached(kvs, n, FirstFetch(w), base, p, after)
  {
    hide Hit, Shadowed;
    if n > 0 {
      if n > 1 {
        ReachedGrows(kvs, n - 2, n - 1, FirstFetch(w), base, p, after);
      }
      FirstPageTaken(kvs, n - 1, w, base, p, after);
      var taken := OnePass(kvs, n - 1, w, base, p, after);
      assert !FillsPage(|taken|, w);
    }
  }

  /** Behind a full page the pass goes on as one that starts at the cursor. */
  lemma {:induction false} PassBehindPage(kvs: seq<KV>, x: nat, y: nat, w: nat, base: string, p: string, after: int)
    requires Sorted(kvs) && 0 < x <= y <= |kvs| && w > 0 && Hit(kvs[x - 1], base, p, after)
    requires var page := OnePass(kvs, x, w, base, p, after); |page| == w && page[w - 1] == kvs[x - 1]
    ensures var cut := kvs[x - 1].createRev;
            && OnePass(kvs, y, w, base, p, after) ==
               OnePass(kvs, x, w, base, p, after) + OnePass(kvs, y, w, base, p, cut)
            && (forall kv :: kv in OnePass(kvs, y, w, base, p, cut) ==> cut < kv.createRev <= kvs[y - 1].createRev)
    decreases y - x
  {
    hide Hit, Shadowed, CutOff;
    var cut := kvs[x - 1].createRev;
    if x == y {
      NothingTaken(kvs, x, w, base, p, cut);
    } else {
      PassBehindPage(kvs, x, y - 1, w, base, p, after);
      HitIsAfter(kvs[x - 1], base, p, after);
      HitBeyond(kvs[y - 1], base, p, after, cut);
      CutBehindPage(OnePass(kvs, x, w, base, p, after), OnePass(kvs, y - 1, w, base, p, cut), kvs[y - 1], cut, w);
    }
  }

  lemma CutBehindPage(page: seq<KV>, more: seq<KV>, kv: KV, cut: int, w: nat)
    requires |page| == w > 0 && page[w - 1].createRev == cut <= kv.createRev
    requires forall m :: m in more ==> cut < m.createRev <= kv.createRev
    ensures CutOff(page + more, kv, w) <==> kv.createRev == cut || CutOff(more, kv, w)
  {
    if more != [] {
      assert (page + more)[w + |more| - 1] == more[|more| - 1] && more[|more| - 1] in more;
    } else {
      assert page + more == page;
    }
  }

  lemma {:induction false} NothingTaken(kvs: seq<KV>, n: nat, w: nat, base: string, p: string, after: int)
    requires n <= |kvs| && w > 0 && forall i :: 0 <= i < n ==> kvs[i].createRev <= after
    ensures OnePass(kvs, n, w, base, p, after) == []
  {
    if n > 0 {
      NothingTaken(kvs, n - 1, w, base, p, after);
    }
  }

  /** One call with page size w takes what the pass takes up to the end of its page. */
  lemma CallOfPass(kvs: seq<KV>, w: nat, base: string, p: string, after: int, hits: seq<KV>, more: bool)
    requires Sorted(kvs) && w > 0 && Expected(kvs, base, p, after, w) == Answer(hits, more)
    ensures !more ==> hits == OnePass(kvs, |kvs|, w, base, p, after)
    ensures more ==> hits != []
    ensures more ==>
              OnePass(kvs, |kvs|, w, base, p, after) ==
              hits + OnePass(kvs, |kvs|, w, base, p, hits[|hits| - 1].createRev)
  {
    hide Hit, Shadowed, Cap, Sorted, Reached, OnePass;
    var first := FirstFetch(w);
    var n := Window(kvs, Cap(first));
    if more {
      var x := ReachedAt(kvs, n, first, base, p, after, w);
      FirstPageTaken(kvs, x, w, base, p, after);
      PassBehindPage(kvs, x, |kvs|, w, base, p, after);
    } else {
      if |kvs| > 0 {
        ReachedGrows(kvs, |kvs| - 1, |kvs|, first, base, p, after);
      }
      FirstPageTaken(kvs, |kvs|, w, base, p, after);
    }
  }

  lemma {:induction false} ChainIsOnePass(at: History, path: string, p: string, rev: int, after: int,
                                          xs: seq<Exchange>, w: nat)
    requires ValidHistory(at) && Chain(at, path, p, rev, after, xs) && Ended(xs)
    requires w > 0 && forall i :: 0 <= i < |xs| ==> xs[i].req.pageSize == Some(w)
    ensures var kvs := Scanned(at, path, xs[0].req, rev);
            Hits(xs) == OnePass(kvs, |kvs|, w, Base(path), p, after)
    decreases |xs|
  {
    hide Kept, Scanned, Sorted, Expected, ValidHistory, CursorOf, ReadRev, OnePass;
    var kvs, base, x := Scanned(at, path, xs[0].req, rev), Base(path), xs[0];
    ScannedSorted(at, path, x.req, rev);
    ChainHead(at, path, p, rev, after, xs);
    HeadCursor(at, path, p, rev, after, xs);
    CallOfPass(kvs, w, base, p, after, x.hits, x.res.token.Some?);
    if |xs| > 1 {
      assert xs[1..][|xs| - 2] == xs[|xs| - 1];
      var last := x.hits[|x.hits| - 1].createRev;
      HeadCursor(at, path, p, rev, last, xs[1..]);
      ScannedByPattern(at, path, xs[0].req, xs[1].req, rev);
      ChainIsOnePass(at, path, p, rev, last, xs[1..], w);
    } else {
      assert xs[1..] == [] && Hits(xs) == x.hits;
    }
  }

  /** A finished walk with any fixed page size returns exactly what one pass over the first snapshot
      takes, in its order, ties or not: all its windows, cursors and tokens come down to this. */
  lemma WalkIsOnePass(at: History, path: string, p: string, xs: seq<Exchange>, w: nat)
    requires ValidHistory(at) && ClientWalk(at, path, p, xs)
    requires w > 0 && forall i :: 0 <= i < |xs| ==> xs[i].req.pageSize == Some(w)
    ensures var kvs := Scanned(at, path, xs[0].req, xs[0].heads(0));
            && Hits(xs) == OnePass(kvs, |kvs|, w, Base(path), p, 0)
            && Keys(xs) == UserKeys(Hits(xs), Base(path))
  {
    hide Kept, Scanned, OnePass, NoneLost;
    FollowsIsChain(at, path, p, xs);
    ChainIsOnePass(at, path, p, xs[0].heads(0), 0, xs, w);
    ChainSelects(at, path, p, xs[0].heads(0), 0, xs);
  }

  lemma {:induction false} OnePassIff(kvs: seq<KV>, n: nat, w: nat, base: string, p: string, after: int, x: nat)
    requires DistinctKeys(kvs) && n <= |kvs| && w > 0 && x < |kvs|
    ensures kvs[x] in OnePass(kvs, n, w, base, p, after) <==>
            && x < n && Hit(kvs[x], base, p, after) && !Shadowed(kvs, x, 4 * w)
            && !CutOff(OnePass(kvs, x, w, base, p, after), kvs[x], w)
  {
    hide Hit, Shadowed, CutOff;
    if n > 0 {
      OnePassIff(kvs, n - 1, w, base, p, after, x);
      assert kvs[x] == kvs[n - 1] <==> x == n - 1;
    }
  }

  /** Entry by entry: returned are the matches that no window edge shadows and no page end cuts off. */
  lemma WalkReturnsIff(at: History, path: string, p: string, xs: seq<Exchange>, w: nat, x: nat)
    requires ValidHistory(at) && ClientWalk(at, path, p, xs)
    requires w > 0 && forall i :: 0 <= i < |xs| ==> xs[i].req.pageSize == Some(w)
    requires x < |Scanned(at, path, xs[0].req, xs[0].heads(0))|
    ensures var kvs := Scanned(at, path, xs[0].req, xs[0].heads(0));
            kvs[x] in Hits(xs) <==>
            && Hit(kvs[x], Base(path), p, 0) && !Shadowed(kvs, x, 4 * w)
            && !CutOff(OnePass(kvs, x, w, Base(path), p, 0), kvs[x], w)
  {
    hide Kept, Scanned, OnePass, CutOff, Hit, Shadowed;
    var kvs := Scanned(at, path, xs[0].req, xs[0].heads(0));
    WalkIsOnePass(at, path, p, xs, w);
    ScannedDistinct(at, path, xs[0].req, xs[0].heads(0));
    OnePassIff(kvs, |kvs|, w, Base(path), p, 0, x);
  }

  // ---------------------------------------------------------------- which entries a tie loses

  /** The matches that a walk with page size one finds: no earlier match has the same revision, and
      neither has the end of a window before. */
  predicate FoundAlone(kvs: seq<KV>, base: string, p: string, after: int, x: nat)
    requires x < |kvs|
  {
    && Hit(kvs[x], base, p, after) && !Shadowed(kvs, x, 4)
    && forall y :: 0 <= y < x && Hit(kvs[y], base, p, after) ==> kvs[y].createRev != kvs[x].createRev
  }

  lemma EdgesGrow(first: nat, x: nat, y: nat)
    requires first > 0 && x <= y
    ensures LastEdge(first, x) <= LastEdge(first, y)
    decreases 8192 - first
  {
  }

  lemma TieStaysShadowed(kvs: seq<KV>, x: nat, y: nat, first: nat)
    requires Sorted(kvs) && first > 0 && x < y < |kvs|
    requires kvs[x].createRev == kvs[y].createRev && Shadowed(kvs, x, first)
    ensures Shadowed(kvs, y, first)
  {
    hide LastEdge;
    EdgesGrow(first, x, y);
  }

  /** One call with page size one returns the first entry reached, if any. */
  lemma SingleCall(kvs: seq<KV>, base: string, p: string, after: int, hits: seq<KV>, more: bool)
    requires Expected(kvs, base, p, after, 1) == Answer(hits, more)
    ensures more ==>
              exists z :: 0 <= z < |kvs| && hits == [kvs[z]] && Hit(kvs[z], base, p, after) && !Shadowed(kvs, z, 4)
                          && forall y :: 0 <= y < z && Hit(kvs[y], base, p, after) ==> Shadowed(kvs, y, 4)
    ensures !more ==> hits == [] && forall y :: 0 <= y < |kvs| && Hit(kvs[y], base, p, after) ==> Shadowed(kvs, y, 4)
  {
    hide Hit, Shadowed, Reached, Cap;
    var n := Window(kvs, Cap(4));
    if more {
      var x := ReachedAt(kvs, n, 4, base, p, after, 1);
      NothingReached(kvs, x - 1, base, p, after);
      ReachedOne(kvs, x, base, p, after);
    } else {
      NothingReached(kvs, n, base, p, after);
    }
  }

  lemma ReachedOne(kvs: seq<KV>, x: nat, base: string, p: string, after: int)
    requires 0 < x <= |kvs| && Reached(kvs, x - 1, 4, base, p, after) == []
    requires |Reached(kvs, x, 4, base, p, after)| == 1
    ensures Reached(kvs, x, 4, base, p, after) == [kvs[x - 1]] && !Shadowed(kvs, x - 1, 4)
  {
    hide Hit, Shadowed;
  }

  lemma {:induction false} NothingReached(kvs: seq<KV>, n: nat, base: string, p: string, after: int)
    requires n <= |kvs| && Reached(kvs, n, 4, base, p, after) == []
    ensures forall y :: 0 <= y < n && Hit(kvs[y], base, p, after) ==> Shadowed(kvs, y, 4)
  {
    hide Hit, Shadowed;
    if n > 0 {
      NothingReached(kvs, n - 1, base, p, after);
    }
  }

  /** What remains to be found behind the entry just returned. */
  lemma FoundLater(kvs: seq<KV>, base: string, p: string, after: int, z: nat, x: nat)
    requires Sorted(kvs) && DistinctKeys(kvs) && x < |kvs| && z < |kvs|
    requires Hit(kvs[z], base, p, after) && !Shadowed(kvs, z, 4)
    requires forall y :: 0 <= y < z && Hit(kvs[y], base, p, after) ==> Shadowed(kvs, y, 4)
    ensures FoundAlone(kvs, base, p, after, x) <==> x == z || FoundAlone(kvs, base, p, kvs[z].createRev, x)
  {
    hide Shadowed, LikePattern;
    var cut := kvs[z].createRev;
    forall y | 0 <= y < |kvs|
      ensures Hit(kvs[y], base, p, cut) <==> Hit(kvs[y], base, p, after) && kvs[y].createRev > cut
    {
      HitBeyond(kvs[y], base, p, after, cut);
    }
    hide Hit;
    if x == z {
      forall y | 0 <= y < x && Hit(kvs[y], base, p, after) ensures kvs[y].createRev != kvs[x].createRev {
        if kvs[y].createRev == kvs[x].createRev {
          TieStaysShadowed(kvs, y, x, 4);
        }
      }
    }
  }

  /** Exactly the entries that a finished walk with page size one returns, ties or not. */
  lemma {:induction false} SinglesReturnIff(at: History, path: string, p: string, rev: int, after: int,
                                            xs: seq<Exchange>, x: nat)
    requires ValidHistory(at) && Chain(at, path, p, rev, after, xs) && Ended(xs)
    requires forall i :: 0 <= i < |xs| ==> xs[i].req.pageSize == Some(1)
    requires x < |Scanned(at, path, xs[0].req, rev)|
    ensures var kvs := Scanned(at, path, xs[0].req, rev);
            kvs[x] in Hits(xs) <==> FoundAlone(kvs, Base(path), p, after, x)
    decreases |xs|
  {
    hide Kept, Scanned, Sorted, Expected, ValidHistory, CursorOf, ReadRev, FoundAlone, Hit, Shadowed, DistinctKeys;
    var kvs, base, e := Scanned(at, path, xs[0].req, rev), Base(path), xs[0];
    ScannedSorted(at, path, e.req, rev);
    ChainHead(at, path, p, rev, after, xs);
    HeadCursor(at, path, p, rev, after, xs);
    ScannedDistinct(at, path, e.req, rev);
    SingleCall(kvs, base, p, after, e.hits, e.res.token.Some?);
    if |xs| > 1 {
      var z :| 0 <= z < |kvs| && e.hits == [kvs[z]] && Hit(kvs[z], base, p, after) && !Shadowed(kvs, z, 4)
               && forall y :: 0 <= y < z && Hit(kvs[y], base, p, after) ==> Shadowed(kvs, y, 4);
      assert xs[1..][|xs| - 2] == xs[|xs| - 1];
      HeadCursor(at, path, p, rev, kvs[z].createRev, xs[1..]);
      ScannedByPattern(at, path, xs[0].req, xs[1].req, rev);
      SinglesReturnIff(at, path, p, rev, kvs[z].createRev, xs[1..], x);
      FoundLater(kvs, base, p, after, z, x);
      assert kvs[x] == kvs[z] <==> x == z by { SameEntry(kvs, x, z); }
    } else {
      assert xs[1..] == [] && Hits(xs) == [];
      NotFoundAlone(kvs, base, p, after, x);
    }
  }

  lemma SameEntry(kvs: seq<KV>, x: nat, z: nat)
    requires DistinctKeys(kvs) && x < |kvs| && z < |kvs|
    ensures kvs[x] == kvs[z] <==> x == z
  {
  }

  lemma NotFoundAlone(kvs: seq<KV>, base: string, p: string, after: int, x: nat)
    requires x < |kvs| && (Hit(kvs[x], base, p, after) ==> Shadowed(kvs, x, 4))
    ensures !FoundAlone(kvs, base, p, after, x)
  {
  }

  /** A client's walk with page size one, entry by entry. */
  lemma SingleWalkReturnsIff(at: History, path: string, p: string, xs: seq<Exchange>, x: nat)
    requires ValidHistory(at) && ClientWalk(at, path, p, xs)
    requires forall i :: 0 <= i < |xs| ==> xs[i].req.pageSize == Some(1)
    requires x < |Scanned(at, path, xs[0].req, xs[0].heads(0))|
    ensures var kvs := Scanned(at, path, xs[0].req, xs[0].heads(0));
            kvs[x] in Hits(xs) <==> FoundAlone(kvs, Base(path), p, 0, x)
  {
    hide Kept, Scanned, FoundAlone;
    FollowsIsChain(at, path, p, xs);
    SinglesReturnIff(at, path, p, xs[0].heads(0), 0, xs, x);
  }

  /** When the pattern matches every key of the range, the walk with page size one finds them all
      exactly when their create revisions are distinct. */
  lemma SingleWalkOfAllIff(at: History, path: string, p: string, xs: seq<Exchange>)
    requires ValidHistory(at) && ClientWalk(at, path, p, xs)
    requires forall i :: 0 <= i < |xs| ==> xs[i].req.pageSize == Some(1)
    requires var kvs := Scanned(at, path, xs[0].req, xs[0].heads(0));
             forall i :: 0 <= i < |kvs| ==> Hit(kvs[i], Base(path), p, 0)
    ensures var kvs := Scanned(at, path, xs[0].req, xs[0].heads(0));
            (forall i :: 0 <= i < |kvs| ==> kvs[i] in Hits(xs)) <==> Increasing(kvs)
  {
    hide Kept, Scanned, Hit;
    var rev := xs[0].heads(0);
    var kvs := Scanned(at, path, xs[0].req, rev);
    ScannedSorted(at, path, xs[0].req, rev);
    forall x | 0 <= x < |kvs| ensures kvs[x] in Hits(xs) <==> FoundAlone(kvs, Base(path), p, 0, x) {
      SingleWalkReturnsIff(at, path, p, xs, x);
    }
    hide Shadowed;
    IncreasingIsNeverShadowed(kvs, 4);
  }

  /** A key lost although it is the only one that matches: the entry before it, the last of the first
      window, was put by the same transaction. */
  lemma WindowEdgeLosesKey(at: History, path: string, p: string, xs: seq<Exchange>)
    requires ValidHistory(at) && ClientWalk(at, path, p, xs)
    requires forall i :: 0 <= i < |xs| ==> xs[i].req.pageSize == Some(1)
    requires var kvs := Scanned(at, path, xs[0].req, xs[0].heads(0));
             && |kvs| == 5 && kvs[3].createRev == kvs[4].createRev
             && (forall i :: 0 <= i < 5 ==> (Hit(kvs[i], Base(path), p, 0) <==> i == 4))
    ensures Scanned(at, path, xs[0].req, xs[0].heads(0))[4] !in Hits(xs)
    ensures var kvs := Scanned(at, path, xs[0].req, xs[0].heads(0));
            kvs[4] in Selected(kvs, Base(path), p, 0)
  {
    hide Kept, Scanned, Hit, Selected;
    var kvs := Scanned(at, path, xs[0].req, xs[0].heads(0));
    SingleWalkReturnsIff(at, path, p, xs, 4);
    assert LastEdge(4, 4) == 4;
    SelectedAreHits(kvs, Base(path), p, 0);
  }

  /** Such a store: five keys, the last two put by one transaction. */
  const FIVE := [KV("/a", 1), KV("/b", 2), KV("/c", 3), KV("/d", 4), KV("/ee", 4)]

  lemma TwoCharacters(s: string)
    ensures LikePattern(s, "__") <==> |s| == 2
  {
    assert "__"[1..] == "_" && "_"[1..] == "";
    assert Tokenize("_") == [One] + Tokenize("") == [One];
    var two := Tokenize("__");
    assert two == [One] + [One] && two[1..] == [One] && [One][1..] == [];
    assert Matches(s, two) <==> s != "" && Matches(s[1..], [One]);
  }

  lemma FiveHits()
    ensures forall i :: 0 <= i < 5 ==> (Hit(FIVE[i], "/", "__", 0) <==> i == 4)
  {
    hide LikePattern;
    forall i | 0 <= i < 5 ensures Hit(FIVE[i], "/", "__", 0) <==> i == 4 {
      TwoCharacters(FIVE[i].key[1..]);
    }
  }

  lemma FiveScanned()
    ensures WithPrefix(FIVE, "/" + LiteralPrefix(Tokenize("__"))) == FIVE
  {
    assert Tokenize("__")[0] == One;
    assert "/" + "" == "/";
    AllHavePrefix(FIVE, "/");
  }

  lemma {:induction false} AllHavePrefix(kvs: seq<KV>, prefix: string)
    requires forall i :: 0 <= i < |kvs| ==> prefix <= kvs[i].key
    ensures WithPrefix(kvs, prefix) == kvs
  {
    if kvs != [] {
      AllHavePrefix(kvs[..|kvs| - 1], prefix);
    }
  }

  /** The search for the last of them with page size one finds nothing and says that this is all. */
  lemma FiveExpected()
    ensures Expected(FIVE, "/", "__", 0, 1) == Answer([], false)
  {
    FiveHits();
    hide Hit;
    assert LastEdge(4, 4) == 4;
    NoneReached(FIVE, 5, "/", "__");
  }

  lemma {:induction false} NoneReached(kvs: seq<KV>, n: nat, base: string, p: string)
    requires n <= |kvs| && forall i :: 0 <= i < n && Hit(kvs[i], base, p, 0) ==> Shadowed(kvs, i, 4)
    ensures Reached(kvs, n, 4, base, p, 0) == []
  {
    hide Hit, Shadowed;
    if n > 0 {
      NoneReached(kvs, n - 1, base, p);
    }
  }

  /** A whole walk over a store that holds a matching key, and does not return it. */
  ghost predicate Loses(at: History, path: string, p: string, xs: seq<Exchange>, kv: KV) {
    && ValidHistory(at) && ClientWalk(at, path, p, xs)
    && (forall i :: 0 <= i < |xs| ==> xs[i].req.pageSize == Some(1))
    && kv in Selected(at(xs[0].heads(0)), Base(path), p, 0) && kv !in Hits(xs)
  }

  lemma LossHappens() returns (at: History, xs: seq<Exchange>, kv: KV)
    ensures Loses(at, "", "__", xs, kv)
  {
    var x := Exchange(Request("__", None, Some(1)), c => 4, 100, [], Page([], None));
    at, xs, kv := r => FIVE, [x], FIVE[4];
    hide *;
    FiveWalkLoses(at, x);
  }

  lemma FiveWalkLoses(at: History, x: Exchange)
    requires (forall r :: at(r) == FIVE) && (forall c: nat :: x.heads(c) == 4)
    requires x.req == Request("__", None, Some(1)) && x.hits == [] && x.res == Page([], None) && x.calls == 100
    ensures Loses(at, "", "__", [x], FIVE[4])
  {
    FiveKept(at, x);
    FiveHistory(at);
    hide *;
    FiveLoses(at, x);
  }

  lemma FiveHistory(at: History)
    requires forall r :: at(r) == FIVE
    ensures ValidHistory(at)
  {
  }

  lemma FiveLoses(at: History, x: Exchange)
    requires ValidHistory(at) && Kept(at, "", x) && Base("") == "/" && at(x.heads(0)) == FIVE
    requires x.req == Request("__", None, Some(1)) && x.hits == [] && x.res == Page([], None)
    ensures Loses(at, "", "__", [x], FIVE[4])
  {
    FiveHits();
    SelectedAreHits(FIVE, "/", "__", 0);
    hide Kept, ValidHistory, Selected, Hit, Base;
    assert [x][1..] == [] && Hits([x]) == [];
  }

  lemma FiveKept(at: History, x: Exchange)
    requires (forall r :: at(r) == FIVE) && (forall c: nat :: x.heads(c) == 4)
    requires x.req == Request("__", None, Some(1)) && x.hits == [] && x.res == Page([], None) && x.calls == 100
    ensures Base("") == "/" && Kept(at, "", x)
  {
    hide Hit, WithPrefix, Tokenize, LiteralPrefix, Expected, Sorted;
    FiveScanned();
    FiveExpected();
    assert UserKeys([], "/") == [];
  }

  /** Two keys put by one transaction that both match: a walk with page size one returns at most one
      of them. */
  lemma TiesLoseKeys(at: History, path: string, p: string, xs: seq<Exchange>, x: nat, y: nat)
    requires ValidHistory(at) && ClientWalk(at, path, p, xs)
    requires forall i :: 0 <= i < |xs| ==> xs[i].req.pageSize == Some(1)
    requires var kvs := Scanned(at, path, xs[0].req, xs[0].heads(0));
             x < y < |kvs| && kvs[x].createRev == kvs[y].createRev
    ensures var kvs := Scanned(at, path, xs[0].req, xs[0].heads(0));
            !(kvs[x] in Hits(xs) && kvs[y] in Hits(xs))
  {
    hide Kept, Scanned, Hit, Shadowed;
    SingleWalkReturnsIff(at, path, p, xs, x);
    SingleWalkReturnsIff(at, path, p, xs, y);
  }
}
