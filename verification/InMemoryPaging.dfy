/** Pages of the in-memory key search: what one page holds, and what a walk over pages returns while
    the store is being changed. */
module InMemoryPaging {
  import opened Wrappers
  import opened InMemoryModel
  import opened InMemoryRuns
  import opened SortingKeys
  import opened LikeRegex
  import Decimal

  type Table = map<string, Item>

  ghost predicate Found(items: Table, p: string, k: string) {
    k in items && RegexMatch(k, p)
  }

  // ---------------------------------------------------------------- one page

  /** The matching keys with their items, strictly by write number. */
  ghost predicate Listing(items: Table, p: string, ks: seq<string>, its: seq<Item>) {
    && |ks| == |its|
    && (forall i :: 0 <= i < |ks| ==> Found(items, p, ks[i]) && its[i] == items[ks[i]])
    && (forall i, j :: 0 <= i < j < |ks| ==> its[i].idx < its[j].idx)
    && (forall k :: Found(items, p, k) ==> k in ks)
  }

  /** The keys of one page: all matching keys whose write number is at least `from` and below `next`,
      in order; `next` is the write number of the first key left out, given only for a full page. */
  ghost predicate PageOf(items: Table, p: string, from: nat, size: Option<nat>, keys: seq<string>, next: Option<nat>) {
    && (forall i :: 0 <= i < |keys| ==> Found(items, p, keys[i]) && from <= items[keys[i]].idx)
    && (forall i, j :: 0 <= i < j < |keys| ==> items[keys[i]].idx < items[keys[j]].idx)
    && (forall i :: 0 <= i < |keys| && next.Some? ==> items[keys[i]].idx < next.value)
    && (forall k :: Found(items, p, k) && from <= items[k].idx && (next.Some? ==> items[k].idx < next.value) ==>
          k in keys)
    && (next.Some? ==> size == Some(|keys|) && exists k :: Found(items, p, k) && items[k].idx == next.value >= from)
    && (next.None? && size.Some? ==> |keys| <= size.value)
  }

  /** Sorting the collected rows gives the listing, whatever order the table was read in. */
  lemma SortedRowsAreListing(items: Table, p: string, before: seq<Row>, after: seq<Row>, ks: seq<string>,
                             its: seq<Item>)
    requires forall k1, k2 :: k1 in items && k2 in items && k1 != k2 ==> items[k1].idx != items[k2].idx
    requires forall i :: 0 <= i < |before| ==> Found(items, p, before[i].0) && before[i].1 == items[before[i].0]
    requires forall i, j :: 0 <= i < j < |before| ==> before[i].0 != before[j].0
    requires forall k :: Found(items, p, k) ==> (k, items[k]) in before
    requires multiset(before) == multiset(after) && SortedByIdx(after)
    requires |ks| == |its| == |after| && forall i :: 0 <= i < |after| ==> after[i] == (ks[i], its[i])
    ensures Listing(items, p, ks, its)
  {
    forall x: Row ensures x in before <==> x in after {
      assert x in multiset(before) <==> x in multiset(after);
    }
    NoDuplicates(before, after);
    forall i | 0 <= i < |after| ensures Found(items, p, ks[i]) && its[i] == items[ks[i]] {
      assert after[i] in before;
    }
    forall i, j | 0 <= i < j < |after| ensures its[i].idx < its[j].idx {
      assert after[i] != after[j];
    }
    forall k | Found(items, p, k) ensures k in ks {
      assert (k, items[k]) in after;
    }
  }

  lemma NoDuplicates(a: seq<Row>, b: seq<Row>)
    requires multiset(a) == multiset(b) && forall i, j :: 0 <= i < j < |a| ==> a[i] != a[j]
    ensures forall i, j :: 0 <= i < j < |b| ==> b[i] != b[j]
  {
    forall i, j | 0 <= i < j < |b| ensures b[i] != b[j] {
      if b[i] == b[j] {
        assert b == b[..j] + b[j..] && b[i] in b[..j] && b[j] in b[j..];
        assert multiset(b)[b[i]] >= 2;
        SingleCount(a, b[i]);
        assert false;
      }
    }
  }

  lemma {:induction false} SingleCount(a: seq<Row>, x: Row)
    requires forall i, j :: 0 <= i < j < |a| ==> a[i] != a[j]
    ensures multiset(a)[x] <= 1
  {
    if a != [] {
      SingleCount(a[1..], x);
      assert a == [a[0]] + a[1..];
      if x == a[0] {
        assert x !in a[1..];
      }
    }
  }

  /** Cutting a listing where `from` begins, and again before row `n`, gives a page. */
  lemma ListingPage(items: Table, p: string, ks: seq<string>, its: seq<Item>, from: nat, cut: nat, n: nat,
                    size: Option<nat>)
    requires Listing(items, p, ks, its) && cut <= n <= |ks|
    requires forall i :: 0 <= i < cut ==> its[i].idx < from
    requires cut < |ks| ==> its[cut].idx >= from
    requires n < |ks| ==> size == Some(n - cut)
    requires n == |ks| && size.Some? ==> |ks| - cut <= size.value
    ensures PageOf(items, p, from, size, ks[cut..n], if n < |ks| then Some(its[n].idx) else None)
  {
    hide RegexMatch;
    var keys := ks[cut..n];
    assert forall i :: 0 <= i < |keys| ==> keys[i] == ks[cut + i] && items[keys[i]] == its[cut + i];
    forall k | Found(items, p, k) && from <= items[k].idx && (n < |ks| ==> items[k].idx < its[n].idx)
      ensures k in keys
    {
      var i :| 0 <= i < |ks| && ks[i] == k;
      assert items[k] == its[i];
      assert cut <= i < n;
      assert keys[i - cut] == k;
    }
    if n < |ks| {
      assert Found(items, p, ks[n]) && items[ks[n]] == its[n];
      assert its[cut].idx <= its[n].idx;
    }
  }

  // ---------------------------------------------------------------- one call

  datatype KeysLikeError = EmptyPattern | InvalidToken

  datatype KeysLikeResult = Page(keys: seq<string>, token: Option<string>) | Failed(error: KeysLikeError)

  function Cursor(token: Option<string>): Option<nat> {
    if token.None? then Some(0) else Decimal.ParseUint(token.value)
  }

  function TokenFor(next: Option<nat>): Option<string> {
    if next.Some? then Some(Decimal.PrintNat(next.value)) else None
  }

  /** What a call promises: the page that the token points at. With nothing to match, the token is not
      even looked at. */
  ghost predicate Replies(items: Table, p: string, token: Option<string>, size: Option<nat>, res: KeysLikeResult) {
    && (p == "" <==> res == Failed(EmptyPattern))
    && (p != "" && (forall k :: !Found(items, p, k)) ==> res == Page([], None))
    && (p != "" && (exists k :: Found(items, p, k)) ==>
          if Cursor(token).None? then res == Failed(InvalidToken)
          else res.Page? && exists next ::
              PageOf(items, p, Cursor(token).value, size, res.keys, next) && res.token == TokenFor(next))
  }

  // ---------------------------------------------------------------- walks

  /** One page request of a walk, and the steps that other users take before the next one. */
  datatype Visit = Visit(size: Option<nat>, keys: seq<string>, next: Option<nat>, others: seq<Step>)

  /** Pages from `from` on to the page without a token, starting in state `s`. */
  ghost predicate Walk(s: State, p: string, from: nat, visits: seq<Visit>)
    decreases |visits|
  {
    && visits != []
    && PageOf(s.items, p, from, visits[0].size, visits[0].keys, visits[0].next)
    && (|visits| == 1 <==> visits[0].next.None?)
    && (|visits| > 1 ==>
          && FreshRun(s, visits[0].others)
          && (forall i :: 0 <= i < |visits[0].others| ==> WellFormed(visits[0].others[i]))
          && Walk(Run(s, visits[0].others), p, visits[0].next.value, visits[1..]))
  }

  ghost function PageRows(items: Table, keys: seq<string>): (rows: seq<(string, nat)>)
    requires forall i :: 0 <= i < |keys| ==> keys[i] in items
    ensures |rows| == |keys| && forall i :: 0 <= i < |keys| ==> rows[i] == (keys[i], items[keys[i]].idx)
  {
    seq(|keys|, i requires 0 <= i < |keys| => (keys[i], items[keys[i]].idx))
  }

  /** The keys returned, with the write numbers they had when they were returned. */
  ghost function Returned(s: State, p: string, from: nat, visits: seq<Visit>): seq<(string, nat)>
    requires Walk(s, p, from, visits)
    decreases |visits|
  {
    var page := PageRows(s.items, visits[0].keys);
    if |visits| == 1 then page
    else page + Returned(Run(s, visits[0].others), p, visits[0].next.value, visits[1..])
  }

  /** The key keeps its item at every page request. */
  ghost predicate Untouched(s: State, p: string, from: nat, visits: seq<Visit>, k: string, item: Item)
    requires Walk(s, p, from, visits)
    decreases |visits|
  {
    && k in s.items && s.items[k] == item
    && (|visits| > 1 ==> Untouched(Run(s, visits[0].others), p, visits[0].next.value, visits[1..], k, item))
  }

  ghost predicate Increasing(rows: seq<(string, nat)>) {
    forall i, j :: 0 <= i < j < |rows| ==> rows[i].1 < rows[j].1
  }

  lemma IncreasingConcat(a: seq<(string, nat)>, b: seq<(string, nat)>, mid: nat)
    requires Increasing(a) && Increasing(b)
    requires forall i :: 0 <= i < |a| ==> a[i].1 < mid
    requires forall i :: 0 <= i < |b| ==> b[i].1 >= mid
    ensures Increasing(a + b)
  {
  }

  /** Across all pages the write numbers returned strictly increase, whatever was changed in
      between, even if the item that a token named is gone. So no write is returned twice. */
  lemma {:induction false} WalkIncreases(s: State, p: string, from: nat, visits: seq<Visit>)
    requires Walk(s, p, from, visits)
    ensures Increasing(Returned(s, p, from, visits))
    ensures forall i :: 0 <= i < |Returned(s, p, from, visits)| ==> Returned(s, p, from, visits)[i].1 >= from
    decreases |visits|
  {
    hide RegexMatch, Run;
    if |visits| > 1 {
      var s', mid := Run(s, visits[0].others), visits[0].next.value;
      WalkIncreases(s', p, mid, visits[1..]);
      var page := PageRows(s.items, visits[0].keys);
      IncreasingConcat(page, Returned(s', p, mid, visits[1..]), mid);
      assert mid >= from;
    }
  }

  /** A matching key that stays as it was from the first request to the last is returned, once. */
  lemma {:induction false} WalkReturnsUntouched(s: State, p: string, from: nat, visits: seq<Visit>, k: string,
                                                item: Item)
    requires Walk(s, p, from, visits) && Untouched(s, p, from, visits, k, item)
    requires RegexMatch(k, p) && item.idx >= from
    ensures (k, item.idx) in Returned(s, p, from, visits)
    decreases |visits|
  {
    hide Run, RegexMatch;
    var v := visits[0];
    var page := PageRows(s.items, v.keys);
    assert Found(s.items, p, k);
    if v.next.None? || item.idx < v.next.value {
      assert k in v.keys;
      var i :| 0 <= i < |v.keys| && v.keys[i] == k;
      assert page[i] == (k, item.idx);
    } else {
      WalkReturnsUntouched(Run(s, v.others), p, v.next.value, visits[1..], k, item);
    }
  }

  /** It comes back with no other write number. */
  lemma {:induction false} UntouchedKeepsNumber(s: State, p: string, from: nat, visits: seq<Visit>, k: string,
                                                item: Item)
    requires Walk(s, p, from, visits) && Untouched(s, p, from, visits, k, item)
    ensures forall row :: row in Returned(s, p, from, visits) && row.0 == k ==> row.1 == item.idx
    decreases |visits|
  {
    hide Run, RegexMatch;
    if |visits| > 1 {
      UntouchedKeepsNumber(Run(s, visits[0].others), p, visits[0].next.value, visits[1..], k, item);
    }
  }

  /** The main result: over any interleaving of writes, deletes, transactions and expiry between the
      pages, a finished walk returns every untouched matching key exactly once. */
  lemma WalkExactlyOnce(s: State, p: string, visits: seq<Visit>, k: string, item: Item)
    requires Walk(s, p, 0, visits) && Untouched(s, p, 0, visits, k, item) && RegexMatch(k, p)
    ensures var rows := Returned(s, p, 0, visits);
            && (exists i :: 0 <= i < |rows| && rows[i] == (k, item.idx))
            && (forall i, j :: 0 <= i < |rows| && 0 <= j < |rows| && rows[i].0 == k && rows[j].0 == k ==> i == j)
  {
    hide Walk, Untouched, RegexMatch, Returned;
    WalkReturnsUntouched(s, p, 0, visits, k, item);
    UntouchedKeepsNumber(s, p, 0, visits, k, item);
    WalkIncreases(s, p, 0, visits);
    var rows := Returned(s, p, 0, visits);
    assert forall i :: 0 <= i < |rows| ==> rows[i] in rows;
  }

  /** Nothing is returned that was not stored and matching when its page was read. */
  lemma {:induction false} WalkReturnsStored(s: State, p: string, from: nat, visits: seq<Visit>, n: nat)
    requires Walk(s, p, from, visits) && n < |Returned(s, p, from, visits)|
    ensures RegexMatch(Returned(s, p, from, visits)[n].0, p)
    decreases |visits|
  {
    hide Run, RegexMatch;
    if n >= |visits[0].keys| {
      WalkReturnsStored(Run(s, visits[0].others), p, visits[0].next.value, visits[1..], n - |visits[0].keys|);
    } else {
      assert Found(s.items, p, visits[0].keys[n]);
    }
  }

  /** Every page that is not the last moves the cursor, exactly when the page size is not zero. */
  lemma CursorMovesIff(items: Table, p: string, from: nat, size: Option<nat>, keys: seq<string>, next: Option<nat>)
    requires PageOf(items, p, from, size, keys, next) && next.Some?
    ensures size.value > 0 ==> next.value > from
    ensures size.value == 0 ==> PageOf(items, p, next.value, size, keys, next)
  {
    hide RegexMatch;
    if size.value > 0 {
      assert from <= items[keys[0]].idx < next.value;
    }
  }

  // ---------------------------------------------------------------- expiry shows in pages

  /** An item that has expired is listed until it is cleaned, although no reader of its key sees it. */
  lemma ExpiredItemIsListed(k: string, p: string, stamp: Stamp, now: int)
    requires RegexMatch(k, p) && now > stamp.now + 1
    ensures var s := Put(State(map[], 0, {}), k, "", 1, stamp);
            && View(s, k, now) == None
            && PageOf(s.items, p, 0, None, [k], None)
            && PageOf(Clean(s, _ => now).items, p, 0, None, [], None)
  {
    hide RegexMatch;
  }

  /** The write numbers that decide a page, the one that its token names included. */
  predicate InPage(idx: nat, from: nat, next: Option<nat>) {
    from <= idx && (next.Some? ==> idx <= next.value)
  }

  /** A page stays as it is under cleaning exactly when none of the matching items it is made of has
      expired. */
  lemma CleanKeepsPageIff(s: State, clock: string -> int, p: string, from: nat, size: Option<nat>,
                          keys: seq<string>, next: Option<nat>)
    requires Inv(s) && PageOf(s.items, p, from, size, keys, next)
    ensures PageOf(Clean(s, clock).items, p, from, size, keys, next) <==>
            forall k :: Found(s.items, p, k) && InPage(s.items[k].idx, from, next) ==> !Expired(s.items[k], clock(k))
  {
    hide RegexMatch;
    var items := Clean(s, clock).items;
    if PageOf(items, p, from, size, keys, next) {
      forall k | Found(s.items, p, k) && InPage(s.items[k].idx, from, next)
        ensures !Expired(s.items[k], clock(k))
      {
        if next.Some? && s.items[k].idx == next.value {
          var k' :| Found(items, p, k') && items[k'].idx == next.value;
          assert k' == k;
        } else {
          assert k in keys;
        }
      }
    } else if next.Some? {
      var k :| Found(s.items, p, k) && s.items[k].idx == next.value >= from;
      assert !Expired(s.items[k], clock(k)) ==> Found(items, p, k) && items[k].idx == next.value;
    }
  }

  // ---------------------------------------------------------------- how long a walk goes on

  /** The matching keys still to be listed. */
  ghost function ToList(items: Table, p: string, from: nat): set<string> {
    set k | k in items && RegexMatch(k, p) && items[k].idx >= from
  }

  /** The matching keys that a run of steps writes, counted with every write. */
  ghost function OpWrites(op: Operation, p: string): nat {
    if op.SetOperation? && RegexMatch(op.write.key, p) then 1 else 0
  }

  ghost function OpsWrites(ops: seq<Operation>, p: string): nat {
    if ops == [] then 0 else OpWrites(ops[0], p) + OpsWrites(ops[1..], p)
  }

  ghost function StepWrites(s: State, step: Step, p: string): nat
    requires WellFormed(step)
  {
    match step
    case SingleStep(op, stamp) => if Single(s, op, stamp).1.Success? then OpWrites(op, p) else 0
    case MultiStep(ops, stamps) => if Multi(s, ops, stamps).1.Success? then OpsWrites(ops, p) else 0
    case _ => 0
  }

  ghost function RunWrites(s: State, steps: seq<Step>, p: string): nat
    requires forall i :: 0 <= i < |steps| ==> WellFormed(steps[i])
    decreases |steps|
  {
    if steps == [] then 0 else StepWrites(s, steps[0], p) + RunWrites(Next(s, steps[0]).0, steps[1..], p)
  }

  lemma SubsetSize(a: set<string>, b: set<string>)
    requires a <= b
    ensures |a| <= |b|
    decreases b
  {
    if x :| x in b {
      SubsetSize(a - {x}, b - {x});
    }
  }

  lemma ApplyToList(s: State, op: Operation, stamp: Stamp, p: string, from: nat)
    requires CheckInMulti(op).Success?
    ensures |ToList(Apply(s, op, stamp).items, p, from)| <= |ToList(s.items, p, from)| + OpWrites(op, p)
  {
    hide RegexMatch;
    var before, later := ToList(s.items, p, from), ToList(Apply(s, op, stamp).items, p, from);
    SubsetSize(later, if OpWrites(op, p) == 1 then before + {op.write.key} else before);
  }

  lemma {:induction false} ApplyAllToList(s: State, ops: seq<Operation>, stamps: seq<Stamp>, p: string, from: nat)
    requires |ops| == |stamps| && CheckAll(ops).Success?
    ensures |ToList(ApplyAll(s, ops, stamps).items, p, from)| <= |ToList(s.items, p, from)| + OpsWrites(ops, p)
    decreases |ops|
  {
    hide ToList, OpWrites, Apply;
    if ops != [] {
      ApplyToList(s, ops[0], stamps[0], p, from);
      ApplyAllToList(Apply(s, ops[0], stamps[0]), ops[1..], stamps[1..], p, from);
    }
  }

  lemma StepToList(s: State, step: Step, p: string, from: nat)
    requires WellFormed(step)
    ensures |ToList(Next(s, step).0.items, p, from)| <= |ToList(s.items, p, from)| + StepWrites(s, step, p)
  {
    hide RegexMatch, ApplyAll, OpsWrites, OpWrites;
    match step
    case SingleStep(op, stamp) =>
      if Single(s, op, stamp).1.Success? {
        ApplyToList(s, op, stamp, p, from);
      }
    case MultiStep(ops, stamps) =>
      if Multi(s, ops, stamps).1.Success? {
        ApplyAllToList(s, ops, stamps, p, from);
      }
    case CleanStep(clock) =>
      SubsetSize(ToList(Next(s, step).0.items, p, from), ToList(s.items, p, from));
    case ExpireStep(key, now) =>
      SubsetSize(ToList(Next(s, step).0.items, p, from), ToList(s.items, p, from));
  }

  lemma {:induction false} RunToList(s: State, steps: seq<Step>, p: string, from: nat)
    requires forall i :: 0 <= i < |steps| ==> WellFormed(steps[i])
    ensures |ToList(Run(s, steps).items, p, from)| <= |ToList(s.items, p, from)| + RunWrites(s, steps, p)
    decreases |steps|
  {
    hide ToList, StepWrites, Next;
    if steps != [] {
      StepToList(s, steps[0], p, from);
      RunToList(Next(s, steps[0]).0, steps[1..], p, from);
    }
  }

  /** A page takes its keys off what is to be listed, and is the last one exactly when the rest fits. */
  lemma PageToList(items: Table, p: string, from: nat, size: Option<nat>, keys: seq<string>, next: Option<nat>)
    requires PageOf(items, p, from, size, keys, next)
    ensures next.Some? ==> |keys| + |ToList(items, p, next.value)| == |ToList(items, p, from)|
    ensures next.None? <==> size.None? || |ToList(items, p, from)| <= size.value
  {
    hide RegexMatch;
    var listed := set k | k in keys;
    DistinctSize(keys, items);
    if next.None? {
      assert listed == ToList(items, p, from);
    } else {
      var rest := ToList(items, p, next.value);
      assert listed + rest == ToList(items, p, from) && listed !! rest;
      var k :| Found(items, p, k) && items[k].idx == next.value;
      assert k in rest;
    }
  }

  lemma {:induction false} DistinctSize(keys: seq<string>, items: Table)
    requires forall i :: 0 <= i < |keys| ==> keys[i] in items
    requires forall i, j :: 0 <= i < j < |keys| ==> items[keys[i]].idx < items[keys[j]].idx
    ensures |set k | k in keys| == |keys|
  {
    if keys != [] {
      var n := |keys| - 1;
      DistinctSize(keys[..n], items);
      assert (set k | k in keys) == (set k | k in keys[..n]) + {keys[n]};
      assert keys[n] !in keys[..n];
    }
  }

  /** The matching writes that other users make between the pages of a walk. */
  ghost function WalkWrites(s: State, p: string, from: nat, visits: seq<Visit>): nat
    requires Walk(s, p, from, visits)
    decreases |visits|
  {
    if |visits| == 1 then 0
    else
      RunWrites(s, visits[0].others, p)
      + WalkWrites(Run(s, visits[0].others), p, visits[0].next.value, visits[1..])
  }

  /** What the pages before the last one ask for. */
  function Asked(visits: seq<Visit>): nat {
    if |visits| <= 1 then 0
    else (if visits[0].size.Some? then visits[0].size.value else 0) + Asked(visits[1..])
  }

  /** The full pages of a walk hold no more than what there was to list at its start and what was
      written meanwhile: only writes of matching keys keep a walk going. */
  lemma {:induction false} WalkIsBounded(s: State, p: string, from: nat, visits: seq<Visit>)
    requires Walk(s, p, from, visits)
    ensures Asked(visits) <= |ToList(s.items, p, from)| + WalkWrites(s, p, from, visits)
    decreases |visits|
  {
    hide RegexMatch, Run, ToList, RunWrites, FreshRun;
    if |visits| > 1 {
      var v := visits[0];
      PageToList(s.items, p, from, v.size, v.keys, v.next);
      RunToList(s, v.others, p, v.next.value);
      WalkIsBounded(Run(s, v.others), p, v.next.value, visits[1..]);
    }
  }

  // ---------------------------------------------------------------- a client's walk

  /** One call as the client makes it, and the steps that other users take before the next one. */
  datatype Call = Call(size: Option<nat>, res: KeysLikeResult, others: seq<Step>)

  /** A client that hands back each token it is given, to the answer without one. Write numbers stay
      within the 64 bits of the counter. */
  ghost predicate ClientWalk(s: State, p: string, token: Option<string>, calls: seq<Call>)
    decreases |calls|
  {
    && calls != []
    && Inv(s) && s.idx <= Decimal.MAX_UINT64
    && Replies(s.items, p, token, calls[0].size, calls[0].res)
    && calls[0].res.Page?
    && (|calls| == 1 <==> calls[0].res.token.None?)
    && (|calls| > 1 ==>
          && FreshRun(s, calls[0].others)
          && (forall i :: 0 <= i < |calls[0].others| ==> WellFormed(calls[0].others[i]))
          && ClientWalk(Run(s, calls[0].others), p, calls[0].res.token, calls[1..]))
  }

  function Keys(calls: seq<Call>): seq<string> {
    if calls == [] then [] else (if calls[0].res.Page? then calls[0].res.keys else []) + Keys(calls[1..])
  }

  ghost function Visits(calls: seq<Call>): (visits: seq<Visit>)
    requires forall i :: 0 <= i < |calls| ==> calls[i].res.Page?
    ensures |visits| == |calls|
  {
    if calls == [] then []
    else
      var c := calls[0];
      [Visit(c.size, c.res.keys, if c.res.token.Some? then Decimal.ParseUint(c.res.token.value) else None, c.others)]
      + Visits(calls[1..])
  }

  lemma {:induction false} AllPages(s: State, p: string, token: Option<string>, calls: seq<Call>)
    requires ClientWalk(s, p, token, calls)
    ensures forall i :: 0 <= i < |calls| ==> calls[i].res.Page?
    decreases |calls|
  {
    hide Inv, Replies, Run, FreshRun;
    if |calls| > 1 {
      AllPages(Run(s, calls[0].others), p, calls[0].res.token, calls[1..]);
      assert forall i :: 1 <= i < |calls| ==> calls[i] == calls[1..][i - 1];
    }
  }

  /** The page behind an answer; the token it carries parses back to the cursor of the next page. */
  lemma ReplyIsPage(s: State, p: string, token: Option<string>, from: nat, size: Option<nat>, res: KeysLikeResult)
    requires Inv(s) && s.idx <= Decimal.MAX_UINT64
    requires Replies(s.items, p, token, size, res) && res.Page? && Cursor(token) == Some(from)
    ensures PageOf(s.items, p, from, size, res.keys,
                   if res.token.Some? then Decimal.ParseUint(res.token.value) else None)
    ensures res.token.Some? ==> Cursor(res.token).Some?
  {
    hide Found, PageOf, Inv, Decimal.ParseUint, Decimal.PrintNat;
    if k :| Found(s.items, p, k) {
      var next :| PageOf(s.items, p, from, size, res.keys, next) && res.token == TokenFor(next);
      if next.Some? {
        NextIsIssued(s, p, from, size, res.keys, next);
        Decimal.UintRoundTrip(next.value);
      }
    } else {
      NothingFoundPage(s.items, p, from, size);
    }
  }

  lemma NextIsIssued(s: State, p: string, from: nat, size: Option<nat>, keys: seq<string>, next: Option<nat>)
    requires Inv(s) && PageOf(s.items, p, from, size, keys, next) && next.Some?
    ensures next.value < s.idx
  {
    hide RegexMatch;
  }

  lemma NothingFoundPage(items: Table, p: string, from: nat, size: Option<nat>)
    requires forall k :: !Found(items, p, k)
    ensures PageOf(items, p, from, size, [], None)
  {
    hide Found;
  }

  /** A client's walk visits the pages one behind the other, and gets their keys. */
  lemma {:induction false} ClientWalkIsWalk(s: State, p: string, token: Option<string>, from: nat, calls: seq<Call>)
    requires ClientWalk(s, p, token, calls) && Cursor(token) == Some(from)
    ensures forall i :: 0 <= i < |calls| ==> calls[i].res.Page?
    ensures Walk(s, p, from, Visits(calls))
    ensures |Keys(calls)| == |Returned(s, p, from, Visits(calls))|
    ensures forall i :: 0 <= i < |Keys(calls)| ==> Keys(calls)[i] == Returned(s, p, from, Visits(calls))[i].0
    decreases |calls|
  {
    hide Inv, Replies, Run, FreshRun, PageOf, Decimal.ParseUint, Found;
    AllPages(s, p, token, calls);
    var c := calls[0];
    ReplyIsPage(s, p, token, from, c.size, c.res);
    if |calls| > 1 {
      ClientWalkIsWalk(Run(s, c.others), p, c.res.token, Cursor(c.res.token).value, calls[1..]);
    } else {
      assert Keys(calls[1..]) == [];
    }
  }

  /** The key has this item at every call. */
  ghost predicate Stays(s: State, calls: seq<Call>, k: string, item: Item)
    decreases |calls|
  {
    && k in s.items && s.items[k] == item
    && (|calls| > 1 ==>
          && (forall i :: 0 <= i < |calls[0].others| ==> WellFormed(calls[0].others[i]))
          && Stays(Run(s, calls[0].others), calls[1..], k, item))
  }

  lemma {:induction false} StaysIsUntouched(s: State, p: string, from: nat, calls: seq<Call>, k: string, item: Item)
    requires forall i :: 0 <= i < |calls| ==> calls[i].res.Page?
    requires Walk(s, p, from, Visits(calls)) && Stays(s, calls, k, item)
    ensures Untouched(s, p, from, Visits(calls), k, item)
    decreases |calls|
  {
    hide Run, FreshRun, PageOf, Decimal.ParseUint;
    if |calls| > 1 {
      assert Visits(calls)[1..] == Visits(calls[1..]);
      StaysIsUntouched(Run(s, calls[0].others), p, Visits(calls)[0].next.value, calls[1..], k, item);
    }
  }

  /** What the client holds at the end: every matching key that was there all along, untouched, exactly
      once. */
  lemma ClientWalkExactlyOnce(s: State, p: string, calls: seq<Call>, k: string, item: Item)
    requires ClientWalk(s, p, None, calls) && Stays(s, calls, k, item) && RegexMatch(k, p)
    ensures exists i :: 0 <= i < |Keys(calls)| && Keys(calls)[i] == k
    ensures var keys := Keys(calls);
            forall i, j :: 0 <= i < |keys| && 0 <= j < |keys| && keys[i] == k && keys[j] == k ==> i == j
  {
    hide ClientWalk, Walk, Untouched, RegexMatch, Returned, Stays;
    ClientWalkIsWalk(s, p, None, 0, calls);
    StaysIsUntouched(s, p, 0, calls, k, item);
    WalkExactlyOnce(s, p, Visits(calls), k, item);
  }
}
