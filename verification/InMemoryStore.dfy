/** The in-memory state store: an object whose methods change the item table under a lock. */
module InMemoryStore {
  import opened Wrappers
  import opened InMemoryModel
  import opened InMemoryPaging
  import opened LikeRegex
  import Decimal
  import InMemoryRuns
  import Regex
  import SortingKeys

  /** Without a time to live an item does not expire; the clock counts seconds. */
  function ExpiryOf(ttl: nat, now: int): Option<int> {
    if ttl > 0 then Some(now + ttl) else None
  }

  class Store {
    var items: map<string, Item>
    var idx: nat
    ghost var issued: set<string>

    ghost function State(): State
      reads this
    {
      InMemoryModel.State(items, idx, issued)
    }

    constructor ()
      ensures State() == InMemoryModel.State(map[], 0, {})
    {
      items := map[];
      idx := 0;
      issued := {};
    }

    method DoValidateEtag(key: string, etag: Option<string>, concurrency: string) returns (r: Outcome)
      ensures r == if ETagAllows(items, key, etag, concurrency) then Success else Failure(ETagMismatch)
    {
      var hasEtag := etag.Some? && etag.value != "";
      if concurrency == FIRST_WRITE && !hasEtag {
        if key in items {
          return Failure(ETagMismatch);
        } else {
          return Success;
        }
      } else if hasEtag {
        if key !in items {
          return Failure(ETagMismatch);
        }
        var item := items[key];
        if item.etag.None? {
          return Failure(ETagMismatch);
        }
        if item.etag.value != etag.value {
          return Failure(ETagMismatch);
        }
      }
      return Success;
    }

    method DoDelete(key: string)
      modifies this
      ensures State() == Remove(old(State()), key)
    {
      items := items - {key};
    }

    method DoSet(key: string, data: string, ttlInSeconds: nat, stamp: Stamp)
      modifies this
      ensures State() == Put(old(State()), key, data, ttlInSeconds, stamp)
      ensures items == old(items)[key := Item(data, Some(stamp.uuid), ExpiryOf(ttlInSeconds, stamp.now), old(idx))]
      ensures idx == old(idx) + 1
    {
      var el := Item(data, Some(stamp.uuid), None, idx);
      idx := idx + 1;
      if ttlInSeconds > 0 {
        el := el.(expire := Some(stamp.now + ttlInSeconds));
      }
      items := items[key := el];
      issued := issued + {stamp.uuid};
    }

    method Set(req: SetRequest, stamp: Stamp) returns (r: Outcome)
      modifies this
      ensures (State(), r) == Single(old(State()), SetOperation(req), stamp)
      ensures r.Success? ==> req.value.Bytes? && req.ttl.Seconds? && idx == old(idx) + 1
      ensures r.Success? ==>
                items == old(items)[req.key := Item(req.value.data, Some(stamp.uuid),
                                                    ExpiryOf(req.ttl.n, stamp.now), old(idx))]
      ensures r.Failure? ==> items == old(items) && idx == old(idx)
      ensures r == if !ValidOptions(req.options) then Failure(BadOptions)
                   else if req.ttl.BadTTL? then Failure(InvalidTTL)
                   else if !ETagAllows(old(items), req.key, req.etag, req.options.concurrency)
                   then Failure(ETagMismatch)
                   else if req.value.BadValue? then Failure(MarshalFailed)
                   else Success
    {
      r := CheckParameters(req);
      if r.Failure? {
        return;
      }
      r := DoValidateEtag(req.key, req.etag, req.options.concurrency);
      if r.Failure? {
        return;
      }
      if req.value.BadValue? {
        return Failure(MarshalFailed);
      }
      DoSet(req.key, req.value.data, req.ttl.n, stamp);
    }

    method Delete(req: DeleteRequest) returns (r: Outcome)
      modifies this
      ensures forall stamp :: (State(), r) == Single(old(State()), DeleteOperation(req), stamp)
      ensures r == if !ValidOptions(req.options) then Failure(BadOptions)
                   else if !ETagAllows(old(items), req.key, req.etag, req.options.concurrency)
                   then Failure(ETagMismatch)
                   else Success
      ensures items == if r.Success? then old(items) - {req.key} else old(items)
    {
      if !ValidOptions(req.options) {
        return Failure(BadOptions);
      }
      r := DoValidateEtag(req.key, req.etag, req.options.concurrency);
      if r.Failure? {
        return;
      }
      DoDelete(req.key);
    }

    method Multi(ops: seq<Operation>, stamps: seq<Stamp>) returns (r: Outcome)
      requires |ops| == |stamps|
      modifies this
      ensures (State(), r) == InMemoryModel.Multi(old(State()), ops, stamps)
      ensures r.Success? <==> forall i :: 0 <= i < |ops| ==>
                && (ops[i].SetOperation? ==> ValidOptions(ops[i].write.options) && ops[i].write.ttl.Seconds?
                                             && ops[i].write.value.Bytes?)
                && ETagAllows(old(items), ops[i].Key(), ops[i].ETag(), ops[i].Options().concurrency)
      ensures r.Failure? ==> items == old(items) && idx == old(idx)
    {
      InMemoryRuns.CheckAllIff(ops);
      if |ops| == 0 {
        return Success;
      }
      // parameters
      var i := 0;
      while i < |ops|
        invariant 0 <= i <= |ops| && CheckAll(ops) == CheckAll(ops[i..])
        invariant State() == old(State())
      {
        assert ops[i..][1..] == ops[i + 1..];
        if ops[i].SetOperation? {
          r := CheckParameters(ops[i].write);
          if r.Failure? {
            return;
          }
          if ops[i].write.value.BadValue? {
            return Failure(MarshalFailed);
          }
        }
        i := i + 1;
      }
      // etags
      i := 0;
      while i < |ops|
        invariant 0 <= i <= |ops| && State() == old(State())
        invariant forall j :: 0 <= j < i ==> Allowed(State(), ops[j])
      {
        r := DoValidateEtag(ops[i].Key(), ops[i].ETag(), ops[i].Options().concurrency);
        if r.Failure? {
          assert !Allowed(State(), ops[i]);
          return;
        }
        i := i + 1;
      }
      // effects
      i := 0;
      assert ops[0..] == ops && stamps[0..] == stamps;
      while i < |ops|
        invariant 0 <= i <= |ops| && CheckAll(ops[i..]).Success?
        invariant ApplyAll(old(State()), ops, stamps) == ApplyAll(State(), ops[i..], stamps[i..])
      {
        assert ops[i..][1..] == ops[i + 1..] && stamps[i..][1..] == stamps[i + 1..];
        if ops[i].SetOperation? {
          DoSet(ops[i].write.key, ops[i].write.value.data, ops[i].write.ttl.n, stamps[i]);
        } else {
          DoDelete(ops[i].remove.key);
        }
        i := i + 1;
      }
      return Success;
    }

    /** `clock(key)` is what the clock says when the pass comes to `key`. */
    method DoCleanExpiredItems(clock: string -> int)
      modifies this
      ensures State() == Clean(old(State()), clock)
    {
      var left := items.Keys;
      while left != {}
        invariant left <= old(items).Keys && idx == old(idx) && issued == old(issued)
        invariant items == map k | k in old(items) && (k in left || !Expired(old(items)[k], clock(k))) :: old(items)[k]
        decreases |left|
      {
        var key :| key in left;
        if Expired(items[key], clock(key)) {
          DoDelete(key);
        }
        left := left - {key};
      }
    }

    method GetAndExpire(key: string, now: int) returns (r: Option<Item>)
      modifies this
      ensures State() == Expire(old(State()), key, now)
      ensures r == View(old(State()), key, now)
    {
      if key !in items {
        return None;
      }
      var item := items[key];
      if Expired(item, now) {
        items := items - {key};
        return None;
      }
      return Some(item);
    }

    /** One step of any other user of the store. */
    method Perform(step: Step)
      requires WellFormed(step)
      modifies this
      ensures State() == Next(old(State()), step).0
    {
      match step
      case SingleStep(op, stamp) =>
        if op.SetOperation? {
          var _ := Set(op.write, stamp);
        } else {
          var _ := Delete(op.remove);
        }
      case MultiStep(ops, stamps) => var _ := Multi(ops, stamps);
      case CleanStep(clock) => DoCleanExpiredItems(clock);
      case ExpireStep(key, now) => var _ := GetAndExpire(key, now);
    }

    method Interleave(steps: seq<Step>)
      requires forall i :: 0 <= i < |steps| ==> WellFormed(steps[i])
      modifies this
      ensures State() == Run(old(State()), steps)
    {
      assert steps[0..] == steps;
      for i := 0 to |steps|
        invariant Run(old(State()), steps) == Run(State(), steps[i..])
      {
        Perform(steps[i]);
        assert steps[i..][1..] == steps[i + 1..];
      }
    }

    /** `now1` and `now2` are the two clock readings; `others` is what happens between releasing the
        read lock and holding the write lock. The answer is the live view at an instant of the
        call: at any time up to `now1` in the state first seen, or at `now2` in the state then. */
    method Get(key: string, now1: int, others: seq<Step>, now2: int) returns (r: Option<Item>)
      requires forall i :: 0 <= i < |others| ==> WellFormed(others[i])
      modifies this
      ensures key in old(items) && Expired(old(items)[key], now1) ==>
                var mid := Run(old(State()), others);
                r == View(mid, key, now2) && State() == Expire(mid, key, now2)
      ensures !(key in old(items) && Expired(old(items)[key], now1)) ==>
                && State() == old(State())
                && forall t :: t <= now1 ==> r == View(old(State()), key, t)
    {
      r := if key in items then Some(items[key]) else None;
      if r.Some? && Expired(r.value, now1) {
        Interleave(others);
        r := GetAndExpire(key, now2);
      }
    }

    /** Every answer is the live view of its key at the time the clock was read for it. */
    method BulkGet(keys: seq<string>, nows: seq<int>) returns (res: seq<Option<Item>>)
      requires |keys| == |nows|
      ensures |res| == |keys|
      ensures forall i :: 0 <= i < |keys| ==> res[i] == View(State(), keys[i], nows[i])
    {
      res := seq(|keys|, _ => None);
      for i := 0 to |keys|
        invariant |res| == |keys|
        invariant forall j :: 0 <= j < i ==> res[j] == View(State(), keys[j], nows[j])
      {
        if keys[i] in items && !Expired(items[keys[i]], nows[i]) {
          res := res[i := Some(items[keys[i]])];
        } else {
          res := res[i := None];
        }
      }
    }

    method KeysLike(pattern: string, token: Option<string>, pageSize: Option<nat>) returns (res: KeysLikeResult)
      requires InMemoryRuns.Inv(State())
      ensures Replies(items, pattern, token, pageSize, res)
    {
      hide Found, Listing, PageOf, InMemoryRuns.Inv, Decimal.ParseUint, Decimal.PrintNat;
      if pattern == "" {
        return Failed(EmptyPattern);
      }
      var ks, its := Collect(pattern);
      if |its| == 0 {
        return Page([], None);
      }
      assert Found(items, pattern, ks[0]);
      ks, its := Sorted(pattern, ks, its);
      var cut := 0;
      if token.Some? {
        var ct := Decimal.ParseUint(token.value);
        if ct.None? {
          return Failed(InvalidToken);
        }
        while cut < |its| && its[cut].idx < ct.value
          invariant cut <= |its|
          invariant forall i :: 0 <= i < cut ==> its[i].idx < ct.value
        {
          cut := cut + 1;
        }
        if cut == |its| {
          ListingPage(items, pattern, ks, its, ct.value, cut, cut, pageSize);
          assert ks[cut..cut] == [];
          return Page([], None);
        }
      }
      if pageSize.Some? && |ks| - cut > pageSize.value {
        var n := cut + pageSize.value;
        ListingPage(items, pattern, ks, its, Cursor(token).value, cut, n, pageSize);
        return Page(ks[cut..n], Some(Decimal.PrintNat(its[n].idx)));
      }
      ListingPage(items, pattern, ks, its, Cursor(token).value, cut, |ks|, pageSize);
      assert ks[cut..|ks|] == ks[cut..];
      return Page(ks[cut..], None);
    }

    /** The matching entries of the table, in the order the table happens to be read. */
    method Collect(pattern: string) returns (ks: seq<string>, its: seq<Item>)
      ensures |ks| == |its|
      ensures forall i :: 0 <= i < |ks| ==> Found(items, pattern, ks[i]) && its[i] == items[ks[i]]
      ensures forall i, j :: 0 <= i < j < |ks| ==> ks[i] != ks[j]
      ensures forall k :: Found(items, pattern, k) ==> k in ks
    {
      var text, re := LikeToRegex(pattern);
      assert forall k :: RegexMatch(k, pattern) <==> Regex.Accepts(re.re, k);
      hide RegexMatch;
      ks, its := [], [];
      var left := items.Keys;
      while left != {}
        invariant left <= items.Keys && |ks| == |its|
        invariant forall i :: 0 <= i < |ks| ==> ks[i] !in left && Found(items, pattern, ks[i]) && its[i] == items[ks[i]]
        invariant forall i, j :: 0 <= i < j < |ks| ==> ks[i] != ks[j]
        invariant forall k :: Found(items, pattern, k) ==> k in left || k in ks
        decreases |left|
      {
        var k :| k in left;
        if Regex.Accepts(re.re, k) {
          ks, its := ks + [k], its + [items[k]];
        }
        left := left - {k};
      }
    }

    method Sorted(pattern: string, ks: seq<string>, its: seq<Item>) returns (ks': seq<string>, its': seq<Item>)
      requires InMemoryRuns.Inv(State())
      requires |ks| == |its|
      requires forall i :: 0 <= i < |ks| ==> Found(items, pattern, ks[i]) && its[i] == items[ks[i]]
      requires forall i, j :: 0 <= i < j < |ks| ==> ks[i] != ks[j]
      requires forall k :: Found(items, pattern, k) ==> k in ks
      ensures Listing(items, pattern, ks', its') && |ks'| == |its'| == |ks|
    {
      hide RegexMatch;
      var kk := new SortingKeys.SortingKeys(ks, its);
      ghost var before := kk.Rows();
      assert forall i :: 0 <= i < |before| ==> before[i] == (ks[i], its[i]) by {
        assert kk.keys[..] == ks && kk.items[..] == its;
      }
      forall k | Found(items, pattern, k) ensures (k, items[k]) in before {
        var i :| 0 <= i < |ks| && ks[i] == k;
        assert before[i] == (k, items[k]);
      }
      kk.Stable();
      ks', its' := kk.keys[..], kk.items[..];
      SortedRowsAreListing(items, pattern, before, kk.Rows(), ks', its');
    }
  }
}
