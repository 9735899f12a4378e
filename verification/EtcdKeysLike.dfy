/** LIKE search over an etcd key space, page by page. The server is a history of snapshots, each
    listing the stored keys by create revision. */
module EtcdKeysLike {
  import opened Wrappers
  import opened Decimal
  import opened Like

  datatype KV = KV(key: string, createRev: int)

  /** The snapshot read at each revision. */
  type History = int -> seq<KV>

  datatype Request = Request(pattern: string, token: Option<string>, pageSize: Option<nat>)

  datatype Error = EmptyPattern | InvalidToken | Cancelled

  datatype Result = Page(keys: seq<string>, token: Option<string>) | Failed(error: Error)

  // ---------------------------------------------------------------- keys and prefixes

  function TrimSlash(path: string): string {
    if path != "" && path[|path| - 1] == '/' then path[..|path| - 1] else path
  }

  function Base(path: string): string { TrimSlash(path) + "/" }

  /** The key under which Set stores a user's key. */
  function StoredKey(path: string, key: string): string { path + "/" + key }

  function UserKey(kv: KV, base: string): string {
    if base <= kv.key then kv.key[|base|..] else kv.key
  }

  function UserKeys(kvs: seq<KV>, base: string): seq<string> {
    seq(|kvs|, i requires 0 <= i < |kvs| => UserKey(kvs[i], base))
  }

  /** A search sees a stored key under its own name exactly when the configured path has no
      trailing slash; otherwise a slash is put before it. */
  lemma StoredKeyIsFoundIff(path: string, key: string, rev: int)
    ensures Base(path) <= StoredKey(path, key)
    ensures UserKey(KV(StoredKey(path, key), rev), Base(path)) == key <==> (path == "" || path[|path| - 1] != '/')
  {
    var base, full := Base(path), StoredKey(path, key);
    if path != "" && path[|path| - 1] == '/' {
      assert full == base + ("/" + key);
      assert full[|base|..] == "/" + key;
    } else {
      assert full[|base|..] == key;
    }
  }

  // ---------------------------------------------------------------- what a search should find

  predicate Hit(kv: KV, base: string, p: string, after: int) {
    kv.createRev > after && base <= kv.key && LikePattern(kv.key[|base|..], p)
  }

  /** The entries a search wants, in order. */
  function Selected(kvs: seq<KV>, base: string, p: string, after: int): seq<KV> {
    if kvs == [] then []
    else
      var n := |kvs| - 1;
      Selected(kvs[..n], base, p, after) + if Hit(kvs[n], base, p, after) then [kvs[n]] else []
  }

  function WithPrefix(kvs: seq<KV>, prefix: string): seq<KV> {
    if kvs == [] then []
    else
      var n := |kvs| - 1;
      WithPrefix(kvs[..n], prefix) + if prefix <= kvs[n].key then [kvs[n]] else []
  }

  /** Create revisions are distinct and the snapshot is sorted by them. */
  predicate Increasing(kvs: seq<KV>) {
    forall i, j :: 0 <= i < j < |kvs| ==> kvs[i].createRev < kvs[j].createRev
  }

  /** The server sorts by create revision; keys put by one transaction share theirs. */
  predicate Sorted(kvs: seq<KV>) {
    forall i, j :: 0 <= i < j < |kvs| ==> kvs[i].createRev <= kvs[j].createRev
  }

  lemma {:induction false} WithPrefixMembers(kvs: seq<KV>, prefix: string)
    ensures forall kv :: kv in WithPrefix(kvs, prefix) ==> kv in kvs
  {
    if kvs != [] {
      WithPrefixMembers(kvs[..|kvs| - 1], prefix);
    }
  }

  lemma {:induction false} WithPrefixSorted(kvs: seq<KV>, prefix: string)
    requires Sorted(kvs)
    ensures Sorted(WithPrefix(kvs, prefix))
  {
    if kvs != [] {
      var n := |kvs| - 1;
      WithPrefixMembers(kvs[..n], prefix);
      WithPrefixSorted(kvs[..n], prefix);
      SortedSnoc(WithPrefix(kvs[..n], prefix), kvs[n]);
    }
  }

  /** A snapshot holds each key once. */
  ghost predicate DistinctKeys(kvs: seq<KV>) {
    forall i, j :: 0 <= i < j < |kvs| ==> kvs[i].key != kvs[j].key
  }

  lemma {:induction false} WithPrefixDistinct(kvs: seq<KV>, prefix: string)
    requires DistinctKeys(kvs)
    ensures DistinctKeys(WithPrefix(kvs, prefix))
  {
    if kvs != [] {
      var n := |kvs| - 1;
      WithPrefixMembers(kvs[..n], prefix);
      WithPrefixDistinct(kvs[..n], prefix);
      var init := WithPrefix(kvs[..n], prefix);
      forall i | 0 <= i < |init| ensures init[i].key != kvs[n].key {
        assert init[i] in kvs[..n];
      }
    }
  }

  lemma SortedSnoc(kvs: seq<KV>, kv: KV)
    requires Sorted(kvs) && forall k :: k in kvs ==> k.createRev <= kv.createRev
    ensures Sorted(kvs + [kv])
  {
    assert forall i :: 0 <= i < |kvs| ==> kvs[i] in kvs;
  }

  /** Scanning only below the literal prefix of the pattern loses nothing. */
  lemma {:induction false} NarrowingLosesNothing(kvs: seq<KV>, base: string, p: string, after: int)
    ensures Selected(WithPrefix(kvs, base + LiteralPrefix(Tokenize(p))), base, p, after) ==
            Selected(kvs, base, p, after)
  {
    if kvs != [] {
      var n := |kvs| - 1;
      var prefix := base + LiteralPrefix(Tokenize(p));
      NarrowingLosesNothing(kvs[..n], base, p, after);
      var narrowed := WithPrefix(kvs[..n], prefix);
      assert WithPrefix(kvs, prefix) == narrowed + if prefix <= kvs[n].key then [kvs[n]] else [];
      if Hit(kvs[n], base, p, after) {
        MatchHasLiteralPrefix(kvs[n].key[|base|..], Tokenize(p));
        assert kvs[n].key == base + kvs[n].key[|base|..];
        assert prefix <= kvs[n].key;
      }
      if prefix <= kvs[n].key {
        assert (narrowed + [kvs[n]])[..|narrowed|] == narrowed;
      } else {
        assert !Hit(kvs[n], base, p, after) && WithPrefix(kvs, prefix) == narrowed;
      }
    }
  }

  lemma SelectedSnoc(kvs: seq<KV>, x: nat, base: string, p: string, after: int)
    requires x < |kvs|
    ensures Selected(kvs[..x + 1], base, p, after) ==
            Selected(kvs[..x], base, p, after) + if Hit(kvs[x], base, p, after) then [kvs[x]] else []
  {
    assert kvs[..x + 1][..x] == kvs[..x];
  }

  lemma {:induction false} SelectedGrows(kvs: seq<KV>, x: nat, y: nat, base: string, p: string, after: int)
    requires x <= y <= |kvs|
    ensures Selected(kvs[..x], base, p, after) <= Selected(kvs[..y], base, p, after)
    decreases y - x
  {
    if x < y {
      SelectedGrows(kvs, x, y - 1, base, p, after);
      SelectedSnoc(kvs, y - 1, base, p, after);
    }
  }

  lemma {:induction false} SelectedAreHits(kvs: seq<KV>, base: string, p: string, after: int)
    ensures forall kv :: kv in Selected(kvs, base, p, after) <==> kv in kvs && Hit(kv, base, p, after)
  {
    if kvs != [] {
      var n := |kvs| - 1;
      SelectedAreHits(kvs[..n], base, p, after);
      assert kvs == kvs[..n] + [kvs[n]];
    }
  }

  lemma SelectedLast(kvs: seq<KV>, base: string, p: string, after: int)
    ensures kvs != [] ==>
              Selected(kvs, base, p, after) ==
              Selected(kvs[..|kvs| - 1], base, p, after) +
              if Hit(kvs[|kvs| - 1], base, p, after) then [kvs[|kvs| - 1]] else []
    ensures kvs == [] ==> Selected(kvs, base, p, after) == []
  {
    hide Hit;
  }

  lemma HitIsAfter(kv: KV, base: string, p: string, after: int)
    ensures Hit(kv, base, p, after) ==> kv.createRev > after
  {
  }

  lemma {:induction false} NothingAfter(kvs: seq<KV>, base: string, p: string, after: int)
    requires forall kv :: kv in kvs ==> kv.createRev <= after
    ensures Selected(kvs, base, p, after) == []
  {
    if kvs != [] {
      NothingAfter(kvs[..|kvs| - 1], base, p, after);
    }
  }

  // ---------------------------------------------------------------- the window of one call

  function FirstFetch(want: nat): nat { if want == 0 then 1024 else want * 4 }

  /** The window stops growing at this size. */
  function Cap(fetch: nat): nat
    requires fetch > 0
    ensures Cap(fetch) >= 8192 && Cap(fetch) >= fetch
    decreases 8192 - fetch
  {
    if fetch < 8192 then Cap(fetch * 2) else fetch
  }

  /** The largest earlier window that ends at or before entry `i`, 0 if there is none: a call that
      starts with the window `first` doubles it up to its cap. */
  function LastEdge(first: nat, i: nat): (b: nat)
    requires first > 0
    ensures b <= i && (b == 0 <==> i < first) && (i >= first ==> b >= first)
    decreases 8192 - first
  {
    if i < first then 0
    else if first < 8192 && first * 2 <= i then LastEdge(first * 2, i)
    else first
  }

  /** An entry that a call passes over although it lies beyond its cursor: it shares its revision
      with the last entry of a smaller window, and that entry has moved the cursor. */
  predicate Shadowed(kvs: seq<KV>, i: nat, first: nat)
    requires i < |kvs| && first > 0
  {
    var b := LastEdge(first, i);
    b > 0 && kvs[b - 1].createRev == kvs[i].createRev
  }

  /** The wanted entries among the first `n` that a call gets to see. */
  function Reached(kvs: seq<KV>, n: nat, first: nat, base: string, p: string, after: int): seq<KV>
    requires n <= |kvs| && first > 0
  {
    if n == 0 then []
    else
      Reached(kvs, n - 1, first, base, p, after) +
      if Hit(kvs[n - 1], base, p, after) && !Shadowed(kvs, n - 1, first) then [kvs[n - 1]] else []
  }

  lemma {:induction false} ReachedGrows(kvs: seq<KV>, x: nat, y: nat, first: nat, base: string, p: string, after: int)
    requires x <= y <= |kvs| && first > 0
    ensures Reached(kvs, x, first, base, p, after) <= Reached(kvs, y, first, base, p, after)
    decreases y - x
  {
    hide Hit, Shadowed;
    if x < y {
      ReachedGrows(kvs, x, y - 1, first, base, p, after);
    }
  }

  /** With distinct revisions nothing is passed over. */
  lemma {:induction false} ReachedIsSelected(kvs: seq<KV>, n: nat, first: nat, base: string, p: string, after: int)
    requires n <= |kvs| && first > 0
    requires forall i :: 0 <= i < n && Hit(kvs[i], base, p, after) ==> !Shadowed(kvs, i, first)
    ensures Reached(kvs, n, first, base, p, after) == Selected(kvs[..n], base, p, after)
  {
    hide Hit, Shadowed;
    if n > 0 {
      ReachedIsSelected(kvs, n - 1, first, base, p, after);
      SelectedSnoc(kvs, n - 1, base, p, after);
    }
  }

  function Rounds(fetch: nat): nat
    requires fetch > 0
    ensures Rounds(fetch) >= 1
    decreases 8192 - fetch
  {
    if fetch < 8192 then 1 + Rounds(fetch * 2) else 1
  }

  function Window(kvs: seq<KV>, fetch: nat): nat {
    if fetch < |kvs| then fetch else |kvs|
  }

  function PowerOfTwo(k: nat): nat {
    if k == 0 then 1 else 2 * PowerOfTwo(k - 1)
  }

  /** The largest window is the first doubling of the first one that reaches 8192, and a call needs one
      read more than it doubles. */
  lemma {:induction false} CapIsDoubling(fetch: nat) returns (k: nat)
    requires fetch > 0
    ensures Cap(fetch) == fetch * PowerOfTwo(k) >= 8192
    ensures k > 0 ==> fetch * PowerOfTwo(k - 1) < 8192
    ensures Rounds(fetch) == k + 1
    decreases 8192 - fetch
  {
    if fetch < 8192 {
      k := CapIsDoubling(2 * fetch);
      k := k + 1;
      assert fetch * PowerOfTwo(k) == 2 * fetch * PowerOfTwo(k - 1);
      assert k > 1 ==> fetch * PowerOfTwo(k - 1) == 2 * fetch * PowerOfTwo(k - 2);
    } else {
      k := 0;
    }
  }

  /** How a call ends on a frozen snapshot: with these entries (and whether a token is given), or
      with no answer however long it is given. */
  datatype Outcome = Answer(hits: seq<KV>, more: bool) | Never

  function Expected(kvs: seq<KV>, base: string, p: string, after: int, want: nat): Outcome {
    var cap := Cap(FirstFetch(want));
    var found := Reached(kvs, Window(kvs, cap), FirstFetch(want), base, p, after);
    if want > 0 && |found| >= want then Answer(found[..want], true)
    else if |kvs| < cap || want == 0 then Answer(found, false)
    else Never
  }

  function ContinueToken(snapRev: int, last: int): string {
    PrintInt(snapRev) + ":" + PrintInt(last)
  }

  datatype Cursor = Cursor(snapRev: int, after: int)

  /** Position of the first colon, or the length. */
  function Colon(s: string): (k: nat)
    ensures k <= |s| && (k < |s| ==> s[k] == ':')
  {
    if s == "" || s[0] == ':' then 0 else 1 + Colon(s[1..])
  }

  lemma {:induction false} ColonAt(a: string, b: string)
    requires ':' !in a
    ensures Colon(a + ":" + b) == |a|
  {
    var s := a + ":" + b;
    if a != "" {
      assert s[1..] == a[1..] + ":" + b;
      ColonAt(a[1..], b);
    }
  }

  function ParseToken(token: string): Option<Cursor> {
    var k := Colon(token);
    if k == |token| then None
    else
      var a, b := ParseInt(token[..k]), ParseInt(token[k + 1..]);
      if a.Some? && b.Some? then Some(Cursor(a.value, b.value)) else None
  }

  function CursorOf(req: Request): Option<Cursor> {
    if req.token.None? || req.token.value == "" then Some(Cursor(0, 0)) else ParseToken(req.token.value)
  }

  /** The text of a token: the snapshot revision and the cursor in decimal, a colon between them. A text
      is read in this way exactly when what stands before its first colon and what stands behind it are
      numbers. */
  lemma TokenTextIff(token: string, snapRev: int, after: int)
    ensures ContinueToken(snapRev, after) == PrintInt(snapRev) + ":" + PrintInt(after)
    ensures ParseToken(token) == Some(Cursor(snapRev, after)) <==>
            exists k :: 0 <= k < |token| && token[k] == ':' && ':' !in token[..k]
                        && ParseInt(token[..k]) == Some(snapRev) && ParseInt(token[k + 1..]) == Some(after)
  {
    hide ParseInt;
    FirstColon(token);
    if k :| 0 <= k < |token| && token[k] == ':' && ':' !in token[..k]
            && ParseInt(token[..k]) == Some(snapRev) && ParseInt(token[k + 1..]) == Some(after) {
      assert token == token[..k] + ":" + token[k + 1..];
      ColonAt(token[..k], token[k + 1..]);
    }
  }

  /** Without a token, or with an empty one, a call begins before all keys, at the revision it finds. */
  lemma FirstCall(req: Request, heads: nat -> int)
    requires req.token == None || req.token == Some("")
    ensures CursorOf(req) == Some(Cursor(0, 0)) && ReadRev(req, heads) == heads(0)
  {
  }

  lemma {:induction false} FirstColon(s: string)
    ensures ':' !in s[..Colon(s)]
  {
    if s != "" && s[0] != ':' {
      FirstColon(s[1..]);
      assert s[..Colon(s)] == [s[0]] + s[1..][..Colon(s[1..])];
    }
  }

  lemma TokenRoundTrip(snapRev: int, last: int)
    requires -MAX_INT64 - 1 <= snapRev <= MAX_INT64 && -MAX_INT64 - 1 <= last <= MAX_INT64
    ensures ContinueToken(snapRev, last) != ""
            && ParseToken(ContinueToken(snapRev, last)) == Some(Cursor(snapRev, last))
  {
    IntRoundTrip(snapRev);
    IntRoundTrip(last);
    var a, b := PrintInt(snapRev), PrintInt(last);
    ColonAt(a, b);
    assert ContinueToken(snapRev, last)[..|a|] == a && ContinueToken(snapRev, last)[|a| + 1..] == b;
  }

  function Want(req: Request): nat {
    if req.pageSize.Some? then req.pageSize.value else 0
  }

  /** The server's answer to a range request. */
  function Get(kvs: seq<KV>, prefix: string, limit: nat): seq<KV> {
    var r := WithPrefix(kvs, prefix);
    if limit < |r| then r[..limit] else r
  }

  /** The entries one request scans when it reads at revision `rev`. */
  function Scanned(at: History, path: string, req: Request, rev: int): seq<KV> {
    WithPrefix(at(rev), Base(path) + LiteralPrefix(Tokenize(req.pattern)))
  }

  /** The revision at which a request reads: its token's, or the one current at its first read. */
  function ReadRev(req: Request, heads: nat -> int): int {
    var c := CursorOf(req);
    if c.Some? && c.value.snapRev > 0 then c.value.snapRev else heads(0)
  }

  function Max(a: int, b: int): int { if a < b then b else a }

  function MaxRev(kvs: seq<KV>, after: int): int {
    if kvs == [] then after else Max(MaxRev(kvs[..|kvs| - 1], after), kvs[|kvs| - 1].createRev)
  }

  lemma {:induction false} MaxRevBound(kvs: seq<KV>, after: int)
    ensures after <= MaxRev(kvs, after)
    ensures forall kv :: kv in kvs ==> kv.createRev <= MaxRev(kvs, after)
    ensures MaxRev(kvs, after) == after || exists kv :: kv in kvs && kv.createRev == MaxRev(kvs, after)
  {
    if kvs != [] {
      MaxRevBound(kvs[..|kvs| - 1], after);
      assert kvs == kvs[..|kvs| - 1] + [kvs[|kvs| - 1]];
    }
  }

  /** How far the batches of one call have got: the first `seen` entries are dealt with. */
  ghost predicate Dealt(kvs: seq<KV>, base: string, p: string, from: int, first: nat, seen: nat, after: int,
                        hits: seq<KV>) {
    && first > 0 && seen <= |kvs|
    && after == MaxRev(kvs[..seen], from)
    && hits == Reached(kvs, seen, first, base, p, from)
  }

  /** `fetch` is the window after the window `seen`, in a call that started with `first`. */
  ghost predicate Schedule(first: nat, seen: nat, fetch: nat) {
    && first > 0 && fetch > 0
    && if seen == 0 then fetch == first
       else && (if seen < 8192 then fetch == seen * 2 else fetch == seen)
            && (forall i :: i >= seen ==> LastEdge(first, i) == LastEdge(seen, i))
  }

  lemma EdgeIsSeen(first: nat, seen: nat, fetch: nat, x: nat)
    requires Schedule(first, seen, fetch) && seen <= x < fetch
    ensures LastEdge(first, x) == seen
  {
  }

  lemma ScheduleNext(first: nat, seen: nat, fetch: nat)
    requires Schedule(first, seen, fetch)
    ensures Schedule(first, fetch, if fetch < 8192 then fetch * 2 else fetch)
  {
    if seen > 0 {
      forall i | i >= fetch ensures LastEdge(first, i) == LastEdge(fetch, i) {
        assert LastEdge(first, i) == LastEdge(seen, i);
      }
    }
  }

  /** The next, longer batch rescans from the start; the cursor makes up for it, and passes over
      exactly the entries tied with the end of the window before. */
  lemma {:induction false} DealtBatch(kvs: seq<KV>, base: string, p: string, from: int, first: nat,
                                      seen: nat, fetch: nat, after: int, hits: seq<KV>, y: nat)
    requires Sorted(kvs) && Dealt(kvs, base, p, from, first, seen, after, hits)
    requires Schedule(first, seen, fetch) && seen <= y <= Window(kvs, fetch)
    ensures Dealt(kvs, base, p, from, first, y, MaxRev(kvs[..y], after), hits + Selected(kvs[..y], base, p, after))
    decreases y
  {
    hide LikePattern, Hit, Selected, MaxRev, Sorted, Shadowed, LastEdge, Schedule;
    if y == seen {
      MaxRevBound(kvs[..seen], from);
      NothingAfter(kvs[..y], base, p, after);
      assert hits + [] == hits;
      MaxRevIdle(kvs[..y], after);
    } else {
      DealtBatch(kvs, base, p, from, first, seen, fetch, after, hits, y - 1);
      BeyondCursor(kvs, from, first, seen, fetch, after, y - 1);
      HitBeyond(kvs[y - 1], base, p, from, after);
      HitIsAfter(kvs[y - 1], base, p, from);
      SelectedSnoc(kvs, y - 1, base, p, after);
      MaxRevSnoc(kvs, y - 1, from);
      MaxRevSnoc(kvs, y - 1, after);
    }
  }

  lemma HitBeyond(kv: KV, base: string, p: string, from: int, after: int)
    requires from <= after
    ensures Hit(kv, base, p, after) <==> Hit(kv, base, p, from) && kv.createRev > after
  {
  }

  lemma MaxRevSnoc(kvs: seq<KV>, x: nat, after: int)
    requires x < |kvs|
    ensures MaxRev(kvs[..x + 1], after) == Max(MaxRev(kvs[..x], after), kvs[x].createRev)
  {
    assert kvs[..x + 1][..x] == kvs[..x];
  }

  /** What the moved cursor cuts off from the entries of the next window. */
  lemma BeyondCursor(kvs: seq<KV>, from: int, first: nat, seen: nat, fetch: nat, after: int, x: nat)
    requires Sorted(kvs) && Schedule(first, seen, fetch) && seen <= x < fetch && x < |kvs|
    requires after == MaxRev(kvs[..seen], from)
    ensures from <= after
    ensures kvs[x].createRev > after <==> kvs[x].createRev > from && !Shadowed(kvs, x, first)
  {
    hide MaxRev, Schedule, LastEdge;
    EdgeIsSeen(first, seen, fetch, x);
    MaxRevBound(kvs[..seen], from);
    if seen > 0 {
      assert kvs[..seen][seen - 1] in kvs[..seen];
      if after != from {
        var kv :| kv in kvs[..seen] && kv.createRev == after;
        assert kv.createRev <= kvs[seen - 1].createRev;
      }
    }
  }

  lemma {:induction false} MaxRevIdle(kvs: seq<KV>, after: int)
    requires forall kv :: kv in kvs ==> kv.createRev <= after
    ensures MaxRev(kvs, after) == after
  {
    if kvs != [] {
      MaxRevIdle(kvs[..|kvs| - 1], after);
    }
  }

  // ---------------------------------------------------------------- KeysLike

  /** What the call promises of any snapshot: it returns matching entries beyond the cursor, never
      more than asked for, and a token only for a full page, naming its last entry. */
  ghost predicate Sound(kvs: seq<KV>, base: string, req: Request, rev: int, after: int, hits: seq<KV>, res: Result) {
    && res.Page?
    && res.keys == UserKeys(hits, base)
    && (forall h :: h in hits ==> h in kvs && Hit(h, base, req.pattern, after))
    && (Want(req) > 0 ==> |hits| <= Want(req))
    && (res.token.Some? ==> Want(req) > 0 && |hits| == Want(req)
                            && res.token.value == ContinueToken(rev, hits[|hits| - 1].createRev))
  }

  /** What it promises of a snapshot sorted by create revision: the expected outcome. */
  ghost predicate AsExpected(kvs: seq<KV>, base: string, req: Request, rev: int, after: int, calls: nat,
                             hits: seq<KV>, res: Result) {
    match Expected(kvs, base, req.pattern, after, Want(req))
    case Answer(want, more) =>
      (res == Failed(Cancelled) && calls < Rounds(FirstFetch(Want(req))))
      || (hits == want && res ==
          Page(UserKeys(want, base), if more then Some(ContinueToken(rev, want[|want| - 1].createRev)) else None))
    case Never => res == Failed(Cancelled)
  }

  /** What one batch does: it appends its matches beyond the cursor, stopping when the page is full. */
  ghost predicate BatchResult(kvs: seq<KV>, base: string, p: string, want: nat, after: int, hits: seq<KV>,
                              full: bool, last: int, maxSeen: int, hits': seq<KV>)
  {
    if full then
      && |hits'| == want > 0 && last == hits'[want - 1].createRev
      && exists x ::
           && 0 < x <= |kvs| && Hit(kvs[x - 1], base, p, after)
           && hits' == hits + Selected(kvs[..x], base, p, after)
    else
      && hits' == hits + Selected(kvs, base, p, after) && (want > 0 ==> |hits'| < want)
      && maxSeen == MaxRev(kvs, after)
  }

  method ScanBatch(kvs: seq<KV>, base: string, p: string, want: nat, afterCreate: int, keys: seq<string>,
                   ghost hits: seq<KV>)
    returns (keys': seq<string>, full: bool, lastCreate: int, maxSeenCreate: int, ghost hits': seq<KV>)
    requires keys == UserKeys(hits, base) && (want > 0 ==> |hits| < want)
    ensures keys' == UserKeys(hits', base)
    ensures BatchResult(kvs, base, p, want, afterCreate, hits, full, lastCreate, maxSeenCreate, hits')
  {
    hide LikePattern;
    keys', full, lastCreate, maxSeenCreate, hits' := keys, false, 0, afterCreate, hits;
    for x := 0 to |kvs|
      invariant keys' == UserKeys(hits', base) && (want > 0 ==> |hits'| < want) && !full
      invariant hits' == hits + Selected(kvs[..x], base, p, afterCreate)
      invariant maxSeenCreate == MaxRev(kvs[..x], afterCreate)
    {
      var kv := kvs[x];
      SelectedSnoc(kvs, x, base, p, afterCreate);
      assert kvs[..x + 1][..x] == kvs[..x];
      if kv.createRev > maxSeenCreate {
        maxSeenCreate := kv.createRev;
      }
      if !(base <= kv.key) {
        continue;
      }
      var userKey := kv.key[|base|..];
      if kv.createRev <= afterCreate {
        continue;
      }
      var matches := LikeMatch(userKey, p);
      if !matches {
        continue;
      }
      keys' := keys' + [userKey];
      hits' := hits' + [kv];
      lastCreate := kv.createRev;
      if want > 0 && |keys'| >= want {
        full := true;
        return;
      }
    }
    assert kvs[..|kvs|] == kvs;
  }

  /** The state of a call between two batches. */
  ghost predicate Running(kvs: seq<KV>, base: string, p: string, from: int, want: nat,
                          seen: nat, fetch: nat, stuck: bool, after: int, hits: seq<KV>)
  {
    && Schedule(FirstFetch(want), seen, fetch) && seen <= fetch
    && Cap(fetch) == Cap(FirstFetch(want))
    && Dealt(kvs, base, p, from, FirstFetch(want), seen, after, hits)
    && (want > 0 ==> |hits| < want)
    && (stuck ==> Expected(kvs, base, p, from, want) == Never)
  }

  lemma BatchFull(kvs: seq<KV>, base: string, p: string, from: int, want: nat,
                  seen: nat, fetch: nat, stuck: bool, after: int, hits: seq<KV>, hits': seq<KV>, x: nat)
    requires Sorted(kvs) && Running(kvs, base, p, from, want, seen, fetch, stuck, after, hits)
    requires 0 < x <= Window(kvs, fetch) && Hit(kvs[x - 1], base, p, after)
    requires hits' == hits + Selected(kvs[..x], base, p, after)
    requires |hits'| == want > 0
    ensures Expected(kvs, base, p, from, want) == Answer(hits', true)
  {
    hide LikePattern, Selected, MaxRev, Reached, Schedule;
    assert x <= seen ==> kvs[..seen][x - 1] in kvs[..seen];
    MaxRevBound(kvs[..seen], from);
    DealtBatch(kvs, base, p, from, FirstFetch(want), seen, fetch, after, hits, x);
    ReachedGrows(kvs, x, Window(kvs, Cap(fetch)), FirstFetch(want), base, p, from);
  }

  lemma BatchDone(kvs: seq<KV>, base: string, p: string, from: int, want: nat,
                  seen: nat, fetch: nat, stuck: bool, after: int, hits: seq<KV>, hits': seq<KV>)
    requires Sorted(kvs) && Running(kvs, base, p, from, want, seen, fetch, stuck, after, hits)
    requires hits' == hits + Selected(kvs[..Window(kvs, fetch)], base, p, after)
    requires want > 0 ==> |hits'| < want
    ensures var w := Window(kvs, fetch);
            var after' := MaxRev(kvs[..w], after);
            if w < fetch || (fetch >= 8192 && want == 0) then Expected(kvs, base, p, from, want) == Answer(hits', false)
            else if fetch < 8192 then Running(kvs, base, p, from, want, w, fetch * 2, stuck, after', hits')
            else Running(kvs, base, p, from, want, w, fetch, true, after', hits')
  {
    hide LikePattern, Selected, MaxRev, Hit, Sorted, Reached, Schedule, LastEdge;
    var w := Window(kvs, fetch);
    DealtBatch(kvs, base, p, from, FirstFetch(want), seen, fetch, after, hits, w);
    if w == fetch {
      ScheduleNext(FirstFetch(want), seen, fetch);
    }
  }

  /** What a call promises of the snapshot it reads. */
  ghost predicate Promised(kvs: seq<KV>, base: string, req: Request, rev: int, after: int, calls: nat,
                           hits: seq<KV>, res: Result) {
    && (res == Failed(Cancelled) || Sound(kvs, base, req, rev, after, hits, res))
    && (Sorted(kvs) ==> AsExpected(kvs, base, req, rev, after, calls, hits, res))
  }

  /** The loop invariant of KeysLike after `c` reads. */
  ghost predicate Inv(kvs: seq<KV>, base: string, p: string, from: int, want: nat,
                      seen: nat, fetch: nat, stuck: bool, after: int, hits: seq<KV>, c: nat)
  {
    && (forall h :: h in hits ==> h in kvs && Hit(h, base, p, from))
    && from <= after
    && (Sorted(kvs) ==>
          && Running(kvs, base, p, from, want, seen, fetch, stuck, after, hits)
          && (stuck || c + Rounds(fetch) == Rounds(FirstFetch(want))))
  }

  lemma InvStart(kvs: seq<KV>, base: string, p: string, from: int, want: nat)
    ensures Inv(kvs, base, p, from, want, 0, FirstFetch(want), false, from, [], 0)
  {
    assert kvs[..0] == [];
  }

  lemma InvCancelled(kvs: seq<KV>, base: string, req: Request, rev: int, from: int, calls: nat,
                     seen: nat, fetch: nat, stuck: bool, after: int, hits: seq<KV>)
    requires fetch > 0 && Inv(kvs, base, req.pattern, from, Want(req), seen, fetch, stuck, after, hits, calls)
    ensures Promised(kvs, base, req, rev, from, calls, hits, Failed(Cancelled))
  {
    hide LikePattern, Selected, Hit, MaxRev, Sorted, Expected;
  }

  lemma InvBatch(kvs: seq<KV>, base: string, req: Request, rev: int, from: int, calls: nat,
                 seen: nat, fetch: nat, stuck: bool, after: int, hits: seq<KV>, c: nat,
                 full: bool, last: int, maxSeen: int, hits': seq<KV>)
    requires fetch > 0 && Inv(kvs, base, req.pattern, from, Want(req), seen, fetch, stuck, after, hits, c)
    requires BatchResult(kvs[..Window(kvs, fetch)], base, req.pattern, Want(req), after, hits,
                         full, last, maxSeen, hits')
    ensures var w := Window(kvs, fetch);
            if full then
              Promised(kvs, base, req, rev, from, calls, hits',
                       Page(UserKeys(hits', base), Some(ContinueToken(rev, last))))
            else if w < fetch || (fetch >= 8192 && Want(req) == 0) then
              Promised(kvs, base, req, rev, from, calls, hits', Page(UserKeys(hits', base), None))
            else if fetch < 8192 then
              Inv(kvs, base, req.pattern, from, Want(req), w, fetch * 2, stuck, maxSeen, hits', c + 1)
            else Inv(kvs, base, req.pattern, from, Want(req), w, fetch, true, maxSeen, hits', c + 1)
  {
    var w := Window(kvs, fetch);
    var batch := kvs[..w];
    assert batch[..w] == batch;
    MaxRevBound(batch, after);
    BatchSound(kvs, batch, base, req.pattern, from, after, hits, hits');
    hide *;
    if full {
      InvBatchFull(kvs, base, req, rev, from, calls, seen, fetch, stuck, after, hits, c, last, maxSeen, hits');
    } else {
      InvBatchDone(kvs, base, req, rev, from, calls, seen, fetch, stuck, after, hits, c, last, maxSeen, hits');
    }
  }

  lemma InvBatchFull(kvs: seq<KV>, base: string, req: Request, rev: int, from: int, calls: nat,
                     seen: nat, fetch: nat, stuck: bool, after: int, hits: seq<KV>, c: nat,
                     last: int, maxSeen: int, hits': seq<KV>)
    requires fetch > 0 && Inv(kvs, base, req.pattern, from, Want(req), seen, fetch, stuck, after, hits, c)
    requires BatchResult(kvs[..Window(kvs, fetch)], base, req.pattern, Want(req), after, hits,
                         true, last, maxSeen, hits')
    requires forall h :: h in hits' ==> h in kvs && Hit(h, base, req.pattern, from)
    ensures Promised(kvs, base, req, rev, from, calls, hits',
                     Page(UserKeys(hits', base), Some(ContinueToken(rev, last))))
  {
    hide LikePattern, Selected, Hit, MaxRev, Sorted, Expected, Running, Sound, AsExpected;
    var p, want, batch := req.pattern, Want(req), kvs[..Window(kvs, fetch)];
    SoundPage(kvs, base, req, rev, from, hits', Some(ContinueToken(rev, last)));
    if Sorted(kvs) {
      var x :| 0 < x <= |batch| && Hit(batch[x - 1], base, p, after)
               && hits' == hits + Selected(batch[..x], base, p, after);
      assert batch[..x] == kvs[..x];
      BatchFull(kvs, base, p, from, want, seen, fetch, stuck, after, hits, hits', x);
      ExpectedPage(kvs, base, req, rev, from, calls, hits', true);
    }
  }

  lemma InvBatchDone(kvs: seq<KV>, base: string, req: Request, rev: int, from: int, calls: nat,
                     seen: nat, fetch: nat, stuck: bool, after: int, hits: seq<KV>, c: nat,
                     last: int, maxSeen: int, hits': seq<KV>)
    requires fetch > 0 && Inv(kvs, base, req.pattern, from, Want(req), seen, fetch, stuck, after, hits, c)
    requires BatchResult(kvs[..Window(kvs, fetch)], base, req.pattern, Want(req), after, hits,
                         false, last, maxSeen, hits')
    requires after <= maxSeen && forall h :: h in hits' ==> h in kvs && Hit(h, base, req.pattern, from)
    ensures var w := Window(kvs, fetch);
            if w < fetch || (fetch >= 8192 && Want(req) == 0) then
              Promised(kvs, base, req, rev, from, calls, hits', Page(UserKeys(hits', base), None))
            else if fetch < 8192 then
              Inv(kvs, base, req.pattern, from, Want(req), w, fetch * 2, stuck, maxSeen, hits', c + 1)
            else Inv(kvs, base, req.pattern, from, Want(req), w, fetch, true, maxSeen, hits', c + 1)
  {
    hide LikePattern, Selected, Hit, MaxRev, Sorted, Expected, Running, Sound, AsExpected;
    var w, want := Window(kvs, fetch), Want(req);
    SoundPage(kvs, base, req, rev, from, hits', None);
    if Sorted(kvs) {
      BatchDone(kvs, base, req.pattern, from, want, seen, fetch, stuck, after, hits, hits');
      if w < fetch || (fetch >= 8192 && want == 0) {
        ExpectedPage(kvs, base, req, rev, from, calls, hits', false);
      }
    }
  }

  lemma SoundPage(kvs: seq<KV>, base: string, req: Request, rev: int, from: int, hits: seq<KV>, token: Option<string>)
    requires forall h :: h in hits ==> h in kvs && Hit(h, base, req.pattern, from)
    requires Want(req) > 0 ==> |hits| <= Want(req)
    requires token.Some? ==>
             Want(req) > 0 && |hits| == Want(req) && token.value == ContinueToken(rev, hits[|hits| - 1].createRev)
    ensures Sound(kvs, base, req, rev, from, hits, Page(UserKeys(hits, base), token))
  {
  }

  lemma ExpectedPage(kvs: seq<KV>, base: string, req: Request, rev: int, from: int, calls: nat, hits: seq<KV>,
                     more: bool)
    requires Expected(kvs, base, req.pattern, from, Want(req)) == Answer(hits, more)
    requires more ==> hits != []
    ensures AsExpected(kvs, base, req, rev, from, calls, hits,
                       Page(UserKeys(hits, base),
                            if more then Some(ContinueToken(rev, hits[|hits| - 1].createRev)) else None))
  {
  }

  /** A batch only ever adds matching entries of the snapshot. */
  lemma BatchSound(kvs: seq<KV>, batch: seq<KV>, base: string, p: string, from: int, after: int, hits: seq<KV>,
                   hits': seq<KV>)
    requires batch <= kvs && from <= after
    requires forall h :: h in hits ==> h in kvs && Hit(h, base, p, from)
    requires exists x :: 0 <= x <= |batch| && hits' == hits + Selected(batch[..x], base, p, after)
    ensures forall h :: h in hits' ==> h in kvs && Hit(h, base, p, from)
  {
    hide LikePattern, Selected;
    var x :| 0 <= x <= |batch| && hits' == hits + Selected(batch[..x], base, p, after);
    SelectedAreHits(batch[..x], base, p, after);
  }

  /** `heads(c)` is the store's revision when the c-th read of this call arrives, so that writes
      may happen at any time; `calls` is the number of reads the caller's context allows. */
  method KeysLike(at: History, heads: nat -> int, path: string, req: Request, calls: nat)
    returns (res: Result, ghost hits: seq<KV>)
    requires forall c: nat :: heads(c) > 0
    ensures req.pattern == "" <==> res == Failed(EmptyPattern)
    ensures req.pattern != "" ==> (CursorOf(req).None? <==> res == Failed(InvalidToken))
    ensures req.pattern != "" && CursorOf(req).Some? && CursorOf(req).value.snapRev >= 0 ==>
              var rev := ReadRev(req, heads);
              Promised(Scanned(at, path, req, rev), Base(path), req, rev, CursorOf(req).value.after, calls, hits, res)
    ensures res.Page? && (req.pageSize == None || req.pageSize == Some(0)) ==> res.token == None
    ensures res.Page? && req.pageSize.Some? && req.pageSize.value > 0 ==>
              |res.keys| <= req.pageSize.value && (res.token.Some? <==> |res.keys| == req.pageSize.value)
  {
    hide LikePattern, Hit, Selected, WithPrefix, MaxRev, Tokenize, ParseToken, LiteralPrefix,
      Inv, BatchResult, Promised, Base, ContinueToken;
    hits := [];
    if req.pattern == "" {
      return Failed(EmptyPattern), hits;
    }
    var userPrefix := LikeLiteralPrefix(req.pattern);
    var base := Base(path);
    var etcdPrefix := base + userPrefix;
    var cursor := CursorOf(req);
    if cursor.None? {
      return Failed(InvalidToken), hits;
    }
    var snapRev, afterCreate := cursor.value.snapRev, cursor.value.after;
    var want, fetch := 0, 1024;
    if req.pageSize.Some? && req.pageSize.value > 0 {
      want := req.pageSize.value;
      fetch := want * 4;
    }
    ghost var p := req.pattern;
    ghost var rev := ReadRev(req, heads);
    ghost var kvs := Scanned(at, path, req, rev);
    ghost var from := afterCreate;
    ghost var seen: nat := 0;
    ghost var stuck := false;
    ghost var frozen := snapRev >= 0;
    var keys: seq<string> := [];
    var c := 0;
    InvStart(kvs, base, p, from, want);
    while true
      invariant c <= calls && fetch > 0 && keys == UserKeys(hits, base)
      invariant want == if req.pageSize.Some? then req.pageSize.value else 0
      invariant want > 0 ==> |hits| < want
      invariant frozen ==> snapRev == if c == 0 && cursor.value.snapRev == 0 then 0 else rev
      invariant frozen ==> Inv(kvs, base, p, from, want, seen, fetch, stuck, afterCreate, hits, c)
      decreases calls - c
    {
      if c == calls {
        if frozen {
          InvCancelled(kvs, base, req, rev, from, calls, seen, fetch, stuck, afterCreate, hits);
        }
        return Failed(Cancelled), hits;
      }
      var kvsResp := Get(at(if snapRev > 0 then snapRev else heads(c)), etcdPrefix, fetch);
      if snapRev == 0 {
        snapRev := heads(c);
      }
      assert frozen ==> snapRev == rev && kvsResp == kvs[..Window(kvs, fetch)];
      var full, lastCreate, maxSeenCreate;
      ghost var before := hits;
      keys, full, lastCreate, maxSeenCreate, hits :=
        ScanBatch(kvsResp, base, req.pattern, want, afterCreate, keys, hits);
      if frozen {
        InvBatch(kvs, base, req, rev, from, calls, seen, fetch, stuck, afterCreate, before, c,
                 full, lastCreate, maxSeenCreate, hits);
      }
      c := c + 1;
      BatchSize(kvsResp, base, p, want, afterCreate, before, full, lastCreate, maxSeenCreate, hits);
      if full {
        var tok := ContinueToken(snapRev, lastCreate);
        return Page(keys, Some(tok)), hits;
      }
      afterCreate := maxSeenCreate;
      seen := |kvsResp|;
      if |kvsResp| < fetch {
        return Page(keys, None), hits;
      }
      if fetch < 8192 {
        fetch := fetch * 2;
      } else if want == 0 {
        return Page(keys, None), hits;
      } else {
        stuck := true;
      }
    }
  }

  lemma BatchSize(kvs: seq<KV>, base: string, p: string, want: nat, after: int, hits: seq<KV>,
                  full: bool, last: int, maxSeen: int, hits': seq<KV>)
    requires BatchResult(kvs, base, p, want, after, hits, full, last, maxSeen, hits')
    ensures full ==> |hits'| == want > 0
    ensures !full && want > 0 ==> |hits'| < want
  {
  }
}
