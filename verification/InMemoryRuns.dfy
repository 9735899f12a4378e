/** What every step of the in-memory store keeps, and what holds over whole runs. */
module InMemoryRuns {
  import opened Wrappers
  import opened InMemoryModel

  // ---------------------------------------------------------------- the invariant

  predicate ETagIs(item: Item, e: string) { item.etag == Some(e) }

  /** Write numbers are below the counter and distinct; etags were issued and are distinct. */
  ghost predicate Inv(s: State) {
    && (forall k :: k in s.items ==> s.items[k].idx < s.idx)
    && (forall k :: k in s.items ==>
          s.items[k].etag.Some? && s.items[k].etag.value in s.issued && s.items[k].etag.value != "")
    && (forall k1, k2 :: k1 in s.items && k2 in s.items && k1 != k2 ==>
          s.items[k1].idx != s.items[k2].idx && s.items[k1].etag != s.items[k2].etag)
  }

  predicate Fresh(s: State, stamp: Stamp) {
    stamp.uuid != "" && stamp.uuid !in s.issued
  }

  predicate DistinctKeys(ops: seq<Operation>) {
    forall i, j :: 0 <= i < j < |ops| ==> ops[i].Key() != ops[j].Key()
  }

  predicate FreshStamps(s: State, stamps: seq<Stamp>) {
    && (forall i :: 0 <= i < |stamps| ==> Fresh(s, stamps[i]))
    && (forall i, j :: 0 <= i < j < |stamps| ==> stamps[i].uuid != stamps[j].uuid)
  }

  /** UUIDs are new. */
  predicate FreshStep(s: State, step: Step) {
    match step
    case SingleStep(op, stamp) => Fresh(s, stamp)
    case MultiStep(ops, stamps) => FreshStamps(s, stamps)
    case _ => true
  }

  lemma ApplyKeepsInv(s: State, op: Operation, stamp: Stamp)
    requires Inv(s) && Fresh(s, stamp) && CheckInMulti(op).Success?
    ensures Inv(Apply(s, op, stamp))
    ensures s.idx <= Apply(s, op, stamp).idx && s.issued <= Apply(s, op, stamp).issued <= s.issued + {stamp.uuid}
  {
  }

  lemma {:induction false} ApplyAllKeepsInv(s: State, ops: seq<Operation>, stamps: seq<Stamp>)
    requires |ops| == |stamps| && CheckAll(ops).Success?
    requires Inv(s) && FreshStamps(s, stamps)
    ensures Inv(ApplyAll(s, ops, stamps))
    ensures s.idx <= ApplyAll(s, ops, stamps).idx && s.issued <= ApplyAll(s, ops, stamps).issued
    decreases |ops|
  {
    if ops != [] {
      ApplyKeepsInv(s, ops[0], stamps[0]);
      ApplyAllKeepsInv(Apply(s, ops[0], stamps[0]), ops[1..], stamps[1..]);
    }
  }

  lemma NextKeepsInv(s: State, step: Step)
    requires WellFormed(step) && Inv(s) && FreshStep(s, step)
    ensures Inv(Next(s, step).0)
    ensures s.idx <= Next(s, step).0.idx && s.issued <= Next(s, step).0.issued
  {
    match step
    case SingleStep(op, stamp) =>
      if Single(s, op, stamp).1.Success? {
        ApplyKeepsInv(s, op, stamp);
      }
    case MultiStep(ops, stamps) =>
      if Multi(s, ops, stamps).1.Success? {
        ApplyAllKeepsInv(s, ops, stamps);
      }
    case CleanStep(clock) =>
    case ExpireStep(key, now) =>
  }

  /** A run in which every uuid drawn is new when it is drawn. */
  ghost predicate FreshRun(s: State, steps: seq<Step>)
    decreases |steps|
  {
    steps != [] ==>
      && WellFormed(steps[0])
      && FreshStep(s, steps[0])
      && FreshRun(Next(s, steps[0]).0, steps[1..])
  }

  lemma {:induction false} FreshRunWellFormed(s: State, steps: seq<Step>)
    requires FreshRun(s, steps)
    ensures forall i :: 0 <= i < |steps| ==> WellFormed(steps[i])
    decreases |steps|
  {
    if steps != [] {
      FreshRunWellFormed(Next(s, steps[0]).0, steps[1..]);
      assert forall i :: 1 <= i < |steps| ==> steps[i] == steps[1..][i - 1];
    }
  }

  /** Over every run the stored write numbers and etags stay distinct and below what was handed out. */
  lemma {:induction false} RunKeepsInv(s: State, steps: seq<Step>)
    requires Inv(s) && FreshRun(s, steps)
    ensures forall i :: 0 <= i < |steps| ==> WellFormed(steps[i])
    ensures Inv(Run(s, steps))
    ensures s.idx <= Run(s, steps).idx && s.issued <= Run(s, steps).issued
    decreases |steps|
  {
    FreshRunWellFormed(s, steps);
    if steps != [] {
      NextKeepsInv(s, steps[0]);
      RunKeepsInv(Next(s, steps[0]).0, steps[1..]);
    }
  }

  // ---------------------------------------------------------------- one success per etag

  predicate Current(s: State, e: string) {
    exists k :: k in s.items && ETagIs(s.items[k], e)
  }

  /** No item carries `e` any more, and none ever will. */
  predicate Spent(s: State, e: string) {
    e in s.issued && !Current(s, e)
  }

  function CarriedBy(ops: seq<Operation>, e: string): nat {
    if ops == [] then 0 else (if ops[0].ETag() == Some(e) then 1 else 0) + CarriedBy(ops[1..], e)
  }

  /** The conditional writes and deletes with etag `e` that succeed in one step. */
  function Uses(s: State, step: Step, e: string): nat
    requires WellFormed(step)
  {
    match step
    case SingleStep(op, stamp) =>
      if Single(s, op, stamp).1.Success? && op.ETag() == Some(e) then 1 else 0
    case MultiStep(ops, stamps) =>
      if Multi(s, ops, stamps).1.Success? then CarriedBy(ops, e) else 0
    case _ => 0
  }

  lemma ApplyKeepsSpent(s: State, op: Operation, stamp: Stamp, e: string)
    requires Inv(s) && Fresh(s, stamp) && CheckInMulti(op).Success? && Spent(s, e)
    ensures Spent(Apply(s, op, stamp), e)
  {
  }

  lemma {:induction false} ApplyAllKeepsSpent(s: State, ops: seq<Operation>, stamps: seq<Stamp>, e: string)
    requires |ops| == |stamps| && CheckAll(ops).Success?
    requires Inv(s) && FreshStamps(s, stamps) && Spent(s, e)
    ensures Spent(ApplyAll(s, ops, stamps), e)
    decreases |ops|
  {
    if ops != [] {
      ApplyKeepsSpent(s, ops[0], stamps[0], e);
      ApplyKeepsInv(s, ops[0], stamps[0]);
      ApplyAllKeepsSpent(Apply(s, ops[0], stamps[0]), ops[1..], stamps[1..], e);
    }
  }

  /** An operation allowed because it carries `e` uses `e` up. */
  lemma ApplySpends(s: State, op: Operation, stamp: Stamp, e: string)
    requires Inv(s) && Fresh(s, stamp) && CheckInMulti(op).Success?
    requires e != "" && op.ETag() == Some(e) && Allowed(s, op)
    ensures Spent(Apply(s, op, stamp), e)
  {
    assert ETagIs(s.items[op.Key()], e);
  }

  /** A transaction with an operation on the only item that carries `e` uses `e` up. */
  lemma {:induction false} ApplyAllSpends(s: State, ops: seq<Operation>, stamps: seq<Stamp>, e: string, n: nat)
    requires |ops| == |stamps| && CheckAll(ops).Success? && n < |ops|
    requires Inv(s) && FreshStamps(s, stamps) && e in s.issued
    requires ops[n].Key() in s.items && ETagIs(s.items[ops[n].Key()], e)
    ensures Spent(ApplyAll(s, ops, stamps), e)
    decreases |ops|
  {
    var s' := Apply(s, ops[0], stamps[0]);
    ApplyKeepsInv(s, ops[0], stamps[0]);
    assert FreshStamps(s', stamps[1..]);
    if ops[0].Key() == ops[n].Key() {
      assert Spent(s', e);
      ApplyAllKeepsSpent(s', ops[1..], stamps[1..], e);
    } else {
      ApplyAllSpends(s', ops[1..], stamps[1..], e, n - 1);
    }
  }

  lemma {:induction false} Carrier(ops: seq<Operation>, e: string) returns (n: nat)
    requires CarriedBy(ops, e) > 0
    ensures n < |ops| && ops[n].ETag() == Some(e)
  {
    if ops[0].ETag() == Some(e) {
      n := 0;
    } else {
      n := Carrier(ops[1..], e);
      n := n + 1;
    }
  }

  /** A step that uses an etag finds it current and uses it up for good. */
  lemma StepSpends(s: State, step: Step, e: string)
    requires WellFormed(step) && Inv(s) && FreshStep(s, step) && e != ""
    ensures Uses(s, step, e) > 0 ==> Current(s, e) && Spent(Next(s, step).0, e)
    ensures Spent(s, e) ==> Uses(s, step, e) == 0 && Spent(Next(s, step).0, e)
  {
    match step
    case SingleStep(op, stamp) =>
      if Single(s, op, stamp).1.Success? {
        if op.ETag() == Some(e) {
          assert ETagIs(s.items[op.Key()], e);
          ApplySpends(s, op, stamp, e);
        } else if Spent(s, e) {
          ApplyKeepsSpent(s, op, stamp, e);
        }
      }
    case MultiStep(ops, stamps) =>
      if Multi(s, ops, stamps).1.Success? {
        if CarriedBy(ops, e) > 0 {
          var n := Carrier(ops, e);
          assert Allowed(s, ops[n]);
          assert ETagIs(s.items[ops[n].Key()], e);
          ApplyAllSpends(s, ops, stamps, e, n);
        } else if Spent(s, e) {
          ApplyAllKeepsSpent(s, ops, stamps, e);
        }
      }
    case CleanStep(clock) =>
    case ExpireStep(key, now) =>
  }

  function RunUses(s: State, steps: seq<Step>, e: string): nat
    requires forall i :: 0 <= i < |steps| ==> WellFormed(steps[i])
    decreases |steps|
  {
    if steps == [] then 0 else Uses(s, steps[0], e) + RunUses(Next(s, steps[0]).0, steps[1..], e)
  }

  /** No transaction that succeeds names `e` more than once. */
  predicate NamedOnce(s: State, steps: seq<Step>, e: string)
    requires forall i :: 0 <= i < |steps| ==> WellFormed(steps[i])
    decreases |steps|
  {
    steps != [] ==>
      && WellFormed(steps[0])
      && (steps[0].MultiStep? && Multi(s, steps[0].ops, steps[0].stamps).1.Success? ==> CarriedBy(steps[0].ops, e) <= 1)
      && NamedOnce(Next(s, steps[0]).0, steps[1..], e)
  }

  /** Over every run, at most one conditional write or delete with a given etag succeeds, exactly when
      no single transaction that succeeds names the etag twice. */
  lemma {:induction false} ETagUsedOnceIff(s: State, steps: seq<Step>, e: string)
    requires Inv(s) && FreshRun(s, steps) && e != ""
    ensures forall i :: 0 <= i < |steps| ==> WellFormed(steps[i])
    ensures RunUses(s, steps, e) <= 1 <==> NamedOnce(s, steps, e)
    ensures Spent(s, e) ==> RunUses(s, steps, e) == 0
    decreases |steps|
  {
    FreshRunWellFormed(s, steps);
    if steps != [] {
      NextKeepsInv(s, steps[0]);
      StepSpends(s, steps[0], e);
      ETagUsedOnceIff(Next(s, steps[0]).0, steps[1..], e);
    }
  }

  lemma SameKey(s: State, ops: seq<Operation>, i: nat, j: nat, e: string)
    requires Inv(s) && AllAllowed(s, ops) && e != "" && i < |ops| && j < |ops|
    requires ops[i].ETag() == ops[j].ETag() == Some(e)
    ensures ops[i].Key() == ops[j].Key()
  {
    assert Allowed(s, ops[i]) && Allowed(s, ops[j]);
  }

  lemma {:induction false} DistinctNamesOnce(s: State, ops: seq<Operation>, e: string)
    requires Inv(s) && DistinctKeys(ops) && AllAllowed(s, ops) && e != ""
    ensures CarriedBy(ops, e) <= 1
  {
    if ops != [] {
      assert forall i :: 0 <= i < |ops| - 1 ==> ops[1..][i] == ops[i + 1];
      DistinctNamesOnce(s, ops[1..], e);
      if ops[0].ETag() == Some(e) && CarriedBy(ops[1..], e) > 0 {
        var n := Carrier(ops[1..], e);
        SameKey(s, ops, 0, n + 1, e);
      }
    }
  }

  /** In particular when every transaction is on distinct keys. */
  lemma {:induction false} ETagUsedOnce(s: State, steps: seq<Step>, e: string)
    requires Inv(s) && FreshRun(s, steps) && e != ""
    requires forall i :: 0 <= i < |steps| && steps[i].MultiStep? ==> DistinctKeys(steps[i].ops)
    ensures forall i :: 0 <= i < |steps| ==> WellFormed(steps[i])
    ensures RunUses(s, steps, e) <= if Spent(s, e) then 0 else 1
    decreases |steps|
  {
    ETagUsedOnceIff(s, steps, e);
    if steps != [] {
      NextKeepsInv(s, steps[0]);
      if steps[0].MultiStep? && Multi(s, steps[0].ops, steps[0].stamps).1.Success? {
        DistinctNamesOnce(s, steps[0].ops, e);
      }
      ETagUsedOnceIff(Next(s, steps[0]).0, steps[1..], e);
      ETagUsedOnce(Next(s, steps[0]).0, steps[1..], e);
    }
  }

  // ---------------------------------------------------------------- transactions

  /** The same operations one by one, until one fails. */
  function Sequential(s: State, ops: seq<Operation>, stamps: seq<Stamp>): (State, Outcome)
    requires |ops| == |stamps|
    decreases |ops|
  {
    if ops == [] then (s, Success)
    else
      var (s', r) := Single(s, ops[0], stamps[0]);
      if r.Failure? then (s', r) else Sequential(s', ops[1..], stamps[1..])
  }

  predicate Conditional(op: Operation) {
    HasETag(op.ETag()) || op.Options().concurrency == FIRST_WRITE
  }

  /** No operation whose check could be influenced by an earlier one. */
  predicate Independent(ops: seq<Operation>) {
    forall i, j :: 0 <= i < j < |ops| && ops[i].Key() == ops[j].Key() ==> !Conditional(ops[j])
  }

  predicate DeleteOptionsValid(ops: seq<Operation>) {
    forall i :: 0 <= i < |ops| && ops[i].DeleteOperation? ==> ValidOptions(ops[i].remove.options)
  }

  lemma {:induction false} CheckAllIff(ops: seq<Operation>)
    ensures CheckAll(ops).Success? <==> forall i :: 0 <= i < |ops| ==> CheckInMulti(ops[i]).Success?
  {
    if ops != [] {
      CheckAllIff(ops[1..]);
      assert forall i :: 1 <= i < |ops| ==> ops[1..][i - 1] == ops[i];
      assert forall i :: 0 <= i < |ops| - 1 ==> ops[1..][i] == ops[i + 1];
    }
  }

  /** The last operation on `key` among the first `n`, -1 if there is none. */
  function Earlier(ops: seq<Operation>, key: string, n: nat): (i: int)
    requires n <= |ops|
    ensures -1 <= i < n && (i >= 0 ==> ops[i].Key() == key)
    ensures forall j :: i < j < n ==> ops[j].Key() != key
  {
    if n == 0 then -1 else if ops[n - 1].Key() == key then n - 1 else Earlier(ops, key, n - 1)
  }

  lemma {:induction false} EarlierShift(ops: seq<Operation>, key: string, n: nat)
    requires n < |ops|
    ensures Earlier(ops[1..], key, n) == var i := Earlier(ops, key, n + 1); if i > 0 then i - 1 else -1
  {
    if n > 0 {
      EarlierShift(ops, key, n - 1);
    }
  }

  /** What may come after an operation on the same key: nothing that names an etag, but the one just
      issued, and a first write only after a delete. */
  predicate MayFollow(first: Operation, stamp: Stamp, op: Operation) {
    if HasETag(op.ETag()) then first.SetOperation? && op.ETag() == Some(stamp.uuid)
    else op.Options().concurrency == FIRST_WRITE ==> first.DeleteOperation?
  }

  predicate Passes(s: State, ops: seq<Operation>, stamps: seq<Stamp>, j: nat)
    requires |ops| == |stamps| && j < |ops|
  {
    var i := Earlier(ops, ops[j].Key(), j);
    if i < 0 then Allowed(s, ops[j]) else MayFollow(ops[i], stamps[i], ops[j])
  }

  predicate AllPass(s: State, ops: seq<Operation>, stamps: seq<Stamp>)
    requires |ops| == |stamps|
  {
    forall j :: 0 <= j < |ops| ==> Passes(s, ops, stamps, j)
  }

  lemma PassesLater(s: State, ops: seq<Operation>, stamps: seq<Stamp>, j: nat)
    requires |ops| == |stamps| && 0 < j < |ops| && CheckInMulti(ops[0]).Success?
    ensures Passes(s, ops, stamps, j) <==> Passes(Apply(s, ops[0], stamps[0]), ops[1..], stamps[1..], j - 1)
  {
    EarlierShift(ops, ops[j].Key(), j - 1);
  }

  /** Exactly when the operations of a transaction succeed one by one: the first on each key by the
      state before, each later one by the operation that it follows. */
  lemma {:induction false} SequentialIff(s: State, ops: seq<Operation>, stamps: seq<Stamp>)
    requires |ops| == |stamps|
    ensures Sequential(s, ops, stamps).1.Success? <==>
            CheckAll(ops).Success? && DeleteOptionsValid(ops) && AllPass(s, ops, stamps)
    ensures Sequential(s, ops, stamps).1.Success? ==> Sequential(s, ops, stamps).0 == ApplyAll(s, ops, stamps)
    decreases |ops|
  {
    hide Passes, Apply;
    if ops != [] {
      var op, rest := ops[0], ops[1..];
      assert forall i :: 0 <= i < |rest| ==> rest[i] == ops[i + 1];
      assert forall i :: 1 <= i < |ops| ==> rest[i - 1] == ops[i];
      FirstPasses(s, ops, stamps);
      if Single(s, op, stamps[0]).1.Success? {
        var s' := Apply(s, op, stamps[0]);
        forall j | 0 < j < |ops| ensures Passes(s, ops, stamps, j) <==> Passes(s', rest, stamps[1..], j - 1) {
          PassesLater(s, ops, stamps, j);
        }
        SequentialIff(s', rest, stamps[1..]);
        assert (forall j :: 0 <= j < |rest| ==> Passes(s', rest, stamps[1..], j)) <==>
          (forall j :: 1 <= j < |ops| ==> Passes(s, ops, stamps, j)) by {
          assert forall j :: 0 <= j < |rest| ==> (Passes(s', rest, stamps[1..], j) <==> Passes(s, ops, stamps, j + 1));
          assert forall j :: 1 <= j < |ops| ==> (Passes(s', rest, stamps[1..], j - 1) <==> Passes(s, ops, stamps, j));
        }
      }
    }
  }

  lemma FirstPasses(s: State, ops: seq<Operation>, stamps: seq<Stamp>)
    requires |ops| == |stamps| && ops != []
    ensures Passes(s, ops, stamps, 0) <==> Allowed(s, ops[0])
  {
  }

  predicate LaterMayFollow(ops: seq<Operation>, stamps: seq<Stamp>)
    requires |ops| == |stamps|
  {
    forall j :: 0 <= j < |ops| && Earlier(ops, ops[j].Key(), j) >= 0 ==>
      MayFollow(ops[Earlier(ops, ops[j].Key(), j)], stamps[Earlier(ops, ops[j].Key(), j)], ops[j])
  }

  /** No first write comes second on a key that was there before. */
  predicate LaterFirstWritesAreNew(s: State, ops: seq<Operation>) {
    forall j :: 0 <= j < |ops| && Earlier(ops, ops[j].Key(), j) >= 0 && ops[j].Options().concurrency == FIRST_WRITE ==>
      ops[j].Key() !in s.items
  }

  lemma AllowedPassIff(s: State, ops: seq<Operation>, stamps: seq<Stamp>)
    requires |ops| == |stamps| && AllAllowed(s, ops)
    ensures AllPass(s, ops, stamps) <==> LaterMayFollow(ops, stamps)
  {
    hide MayFollow, Allowed;
    forall j | 0 <= j < |ops|
      ensures Passes(s, ops, stamps, j) <==>
              (Earlier(ops, ops[j].Key(), j) >= 0 ==>
                  MayFollow(ops[Earlier(ops, ops[j].Key(), j)], stamps[Earlier(ops, ops[j].Key(), j)], ops[j]))
    {
      assert Allowed(s, ops[j]);
    }
    hide Passes;
  }

  /** No request names the etag that an earlier operation of the same transaction is about to issue. */
  predicate Unguessed(ops: seq<Operation>, stamps: seq<Stamp>)
    requires |ops| == |stamps|
  {
    forall i, j :: 0 <= i < j < |ops| && ops[i].Key() == ops[j].Key() && HasETag(ops[j].ETag()) ==>
      ops[j].ETag() != Some(stamps[i].uuid)
  }

  lemma PassAllowedIff(s: State, ops: seq<Operation>, stamps: seq<Stamp>)
    requires |ops| == |stamps| && Unguessed(ops, stamps) && AllPass(s, ops, stamps)
    ensures AllAllowed(s, ops) <==> LaterFirstWritesAreNew(s, ops)
  {
    forall j | 0 <= j < |ops|
      ensures Allowed(s, ops[j]) <==>
              (Earlier(ops, ops[j].Key(), j) >= 0 && ops[j].Options().concurrency == FIRST_WRITE ==>
                  ops[j].Key() !in s.items)
    {
      assert Passes(s, ops, stamps, j);
    }
    hide Passes, Allowed;
  }

  /** Exactly when a transaction and its operations one by one come out the same. Of the two, the
      transaction alone succeeds when an operation could not follow the one before it on its key;
      the operations alone succeed when a first write follows the delete of an existing item. */
  lemma MultiAgreesIff(s: State, ops: seq<Operation>, stamps: seq<Stamp>)
    requires |ops| == |stamps|
    ensures Multi(s, ops, stamps).1.Success? ==>
              (Sequential(s, ops, stamps).1.Success? <==> DeleteOptionsValid(ops) && LaterMayFollow(ops, stamps))
    ensures Sequential(s, ops, stamps).1.Success? && Unguessed(ops, stamps) ==>
              (Multi(s, ops, stamps).1.Success? <==> LaterFirstWritesAreNew(s, ops))
    ensures Sequential(s, ops, stamps).1.Success? && Multi(s, ops, stamps).1.Success? ==>
              Sequential(s, ops, stamps).0 == Multi(s, ops, stamps).0
  {
    SequentialIff(s, ops, stamps);
    if AllAllowed(s, ops) {
      AllowedPassIff(s, ops, stamps);
    }
    if AllPass(s, ops, stamps) && Unguessed(ops, stamps) {
      PassAllowedIff(s, ops, stamps);
    }
    hide Sequential, CheckAll, ApplyAll, LaterMayFollow, LaterFirstWritesAreNew, AllAllowed, Passes, DeleteOptionsValid;
  }

  /** In particular, without operations that depend on earlier ones, running them one by one succeeds
      exactly when the transaction does and the options that the transaction skips are valid; and then
      both leave the same store. */
  lemma MultiIsSequential(s: State, ops: seq<Operation>, stamps: seq<Stamp>)
    requires |ops| == |stamps| && Independent(ops)
    ensures Sequential(s, ops, stamps).1.Success? <==>
            Multi(s, ops, stamps).1.Success? && DeleteOptionsValid(ops)
    ensures Sequential(s, ops, stamps).1.Success? ==> Sequential(s, ops, stamps).0 == Multi(s, ops, stamps).0
  {
    assert Unguessed(ops, stamps);
    SequentialIff(s, ops, stamps);
    MultiAgreesIff(s, ops, stamps);
    assert LaterMayFollow(ops, stamps) && LaterFirstWritesAreNew(s, ops);
    hide Sequential, CheckAll, ApplyAll, LaterMayFollow, LaterFirstWritesAreNew;
  }

  lemma DistinctIsIndependent(ops: seq<Operation>)
    requires DistinctKeys(ops)
    ensures Independent(ops)
  {
  }

  /** An unconstrained write that names an etag. */
  function WriteWith(key: string, e: string): Operation {
    SetOperation(SetRequest(key, Bytes(""), Seconds(0), Some(e), InMemoryModel.Options("", "")))
  }

  /** Why independence is needed: two writes of one key with its current etag both pass in a
      transaction, while one after the other the second fails. */
  lemma DependentOperationsDiffer(s: State, key: string, e: string, stamps: seq<Stamp>)
    requires key in s.items && s.items[key].etag == Some(e) && e != ""
    requires |stamps| == 2 && Fresh(s, stamps[0]) && e in s.issued
    ensures Multi(s, [WriteWith(key, e), WriteWith(key, e)], stamps).1.Success?
    ensures Sequential(s, [WriteWith(key, e), WriteWith(key, e)], stamps).1 == Failure(ETagMismatch)
  {
    var w := WriteWith(key, e);
    var ops := [w, w];
    CheckAllIff(ops);
    assert Allowed(s, w);
    var s' := Apply(s, w, stamps[0]);
    assert ops[1..] == [w];
    assert Sequential(s, ops, stamps) == Sequential(s', [w], stamps[1..]);
    assert !Allowed(s', w);
  }

  // ---------------------------------------------------------------- expiry and readers

  /** Cleaning and expiring are invisible to readers, now and later. */
  lemma ExpiryInvisible(s: State, clock: string -> int, key: string, now: int, k: string, t: int)
    ensures clock(k) <= t ==> View(Clean(s, clock), k, t) == View(s, k, t)
    ensures now <= t ==> View(Expire(s, key, now), k, t) == View(s, k, t)
  {
  }

  /** No step but a write or delete of `k` changes what a reader of `k` sees, now or later. */
  lemma OtherStepsInvisible(s: State, step: Step, k: string, t: int)
    requires WellFormed(step)
    requires step.SingleStep? ==> step.op.Key() != k
    requires step.MultiStep? ==> forall i :: 0 <= i < |step.ops| ==> step.ops[i].Key() != k
    requires step.CleanStep? ==> step.clock(k) <= t
    requires step.ExpireStep? ==> step.now <= t
    ensures View(Next(s, step).0, k, t) == View(s, k, t)
  {
    if step.MultiStep? && Multi(s, step.ops, step.stamps).1.Success? {
      ApplyAllElsewhere(s, step.ops, step.stamps, k);
    }
  }

  lemma {:induction false} ApplyAllElsewhere(s: State, ops: seq<Operation>, stamps: seq<Stamp>, k: string)
    requires |ops| == |stamps| && CheckAll(ops).Success?
    requires forall i :: 0 <= i < |ops| ==> ops[i].Key() != k
    ensures k in ApplyAll(s, ops, stamps).items <==> k in s.items
    ensures k in s.items ==> ApplyAll(s, ops, stamps).items[k] == s.items[k]
    decreases |ops|
  {
    if ops != [] {
      ApplyAllElsewhere(Apply(s, ops[0], stamps[0]), ops[1..], stamps[1..], k);
    }
  }

  /** Writers do see it, exactly when the item has expired: while it has not been cleaned it blocks
      a first write, and lets an operation that names its etag through. */
  lemma ExpiryVisibleToWriters(s: State, op: Operation, clock: string -> int)
    ensures Allowed(Clean(s, clock), op) != Allowed(s, op) <==>
            && op.Key() in s.items && Expired(s.items[op.Key()], clock(op.Key()))
            && if HasETag(op.ETag()) then s.items[op.Key()].etag == op.ETag()
               else op.Options().concurrency == FIRST_WRITE
    ensures Allowed(Clean(s, clock), op) && !Allowed(s, op) ==> !HasETag(op.ETag())
    ensures !Allowed(Clean(s, clock), op) && Allowed(s, op) ==> HasETag(op.ETag())
  {
  }
}
