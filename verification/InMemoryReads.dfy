/** Readers of the in-memory store see what was written last. */
module InMemoryReads {
  import opened Wrappers
  import opened InMemoryModel
  import opened InMemoryRuns

  /** An operation that was carried out, with the clock and the etag it was given. */
  type Entry = (Operation, Stamp)

  function Entries(ops: seq<Operation>, stamps: seq<Stamp>): (log: seq<Entry>)
    requires |ops| == |stamps|
    ensures |log| == |ops| && forall i :: 0 <= i < |ops| ==> log[i] == (ops[i], stamps[i])
  {
    seq(|ops|, i requires 0 <= i < |ops| => (ops[i], stamps[i]))
  }

  /** What a step carries out: nothing if it fails. */
  function StepLog(s: State, step: Step): seq<Entry>
    requires WellFormed(step)
  {
    match step
    case SingleStep(op, stamp) => if Single(s, op, stamp).1.Success? then [(op, stamp)] else []
    case MultiStep(ops, stamps) => if Multi(s, ops, stamps).1.Success? then Entries(ops, stamps) else []
    case _ => []
  }

  function RunLog(s: State, steps: seq<Step>): seq<Entry>
    requires forall i :: 0 <= i < |steps| ==> WellFormed(steps[i])
    decreases |steps|
  {
    if steps == [] then [] else StepLog(s, steps[0]) + RunLog(Next(s, steps[0]).0, steps[1..])
  }

  /** The last entry on a key. */
  function LastOn(log: seq<Entry>, key: string): Option<Entry> {
    if log == [] then None
    else if log[|log| - 1].0.Key() == key then Some(log[|log| - 1])
    else LastOn(log[..|log| - 1], key)
  }

  /** What a reader at time `t` must get of a key when this was the last entry on it. */
  predicate Shows(view: Option<Item>, e: Entry, t: int) {
    match e.0
    case DeleteOperation(_) => view == None
    case SetOperation(w) =>
      && w.value.Bytes? && w.ttl.Seconds?
      && if w.ttl.n > 0 && t > e.1.now + w.ttl.n then view == None
         else && view.Some? && view.value.data == w.value.data && view.value.etag == Some(e.1.uuid)
              && view.value.expire == if w.ttl.n > 0 then Some(e.1.now + w.ttl.n) else None
  }

  lemma {:induction false} LastOnConcat(a: seq<Entry>, b: seq<Entry>, key: string)
    ensures LastOn(a + b, key) == if LastOn(b, key).Some? then LastOn(b, key) else LastOn(a, key)
    decreases |b|
  {
    if b == [] {
      assert a + b == a;
    } else {
      assert (a + b)[|a + b| - 1] == b[|b| - 1] && (a + b)[..|a + b| - 1] == a + b[..|b| - 1];
      LastOnConcat(a, b[..|b| - 1], key);
    }
  }

  lemma LastOnOne(e: Entry, key: string)
    ensures LastOn([e], key) == if e.0.Key() == key then Some(e) else None
  {
    assert [e][..0] == [];
  }

  lemma ApplyShows(s: State, op: Operation, stamp: Stamp, k: string, t: int)
    requires CheckInMulti(op).Success?
    ensures var view := View(Apply(s, op, stamp), k, t);
            if op.Key() == k then Shows(view, (op, stamp), t) else view == View(s, k, t)
  {
  }

  lemma {:induction false} ApplyAllShows(s: State, ops: seq<Operation>, stamps: seq<Stamp>, k: string, t: int)
    requires |ops| == |stamps| && CheckAll(ops).Success?
    ensures var view, last := View(ApplyAll(s, ops, stamps), k, t), LastOn(Entries(ops, stamps), k);
            if last.Some? then Shows(view, last.value, t) else view == View(s, k, t)
    decreases |ops|
  {
    hide Apply, View, Shows;
    if ops != [] {
      var s' := Apply(s, ops[0], stamps[0]);
      ApplyShows(s, ops[0], stamps[0], k, t);
      ApplyAllShows(s', ops[1..], stamps[1..], k, t);
      assert Entries(ops, stamps) == [(ops[0], stamps[0])] + Entries(ops[1..], stamps[1..]);
      LastOnConcat([(ops[0], stamps[0])], Entries(ops[1..], stamps[1..]), k);
      LastOnOne((ops[0], stamps[0]), k);
    }
  }

  lemma StepShows(s: State, step: Step, k: string, t: int)
    requires WellFormed(step)
    requires step.CleanStep? ==> step.clock(k) <= t
    requires step.ExpireStep? ==> step.now <= t
    ensures var view, last := View(Next(s, step).0, k, t), LastOn(StepLog(s, step), k);
            if last.Some? then Shows(view, last.value, t) else view == View(s, k, t)
  {
    match step
    case SingleStep(op, stamp) =>
      if Single(s, op, stamp).1.Success? {
        ApplyShows(s, op, stamp, k, t);
        LastOnOne((op, stamp), k);
      }
    case MultiStep(ops, stamps) =>
      if Multi(s, ops, stamps).1.Success? {
        ApplyAllShows(s, ops, stamps, k, t);
      }
    case CleanStep(clock) => ExpiryInvisible(s, clock, k, t, k, t);
    case ExpireStep(key, now) => ExpiryInvisible(s, _ => t, key, now, k, t);
  }

  /** The main result: over every run a reader of `k` gets the value, the etag and the expiry of the
      last write of `k` that succeeded, alone or in a transaction; nothing if it has expired, or if a
      delete came after it; and what was there before if there was neither. */
  lemma {:induction false} ReadsLastWrite(s: State, steps: seq<Step>, k: string, t: int)
    requires forall i :: 0 <= i < |steps| ==> WellFormed(steps[i])
    requires forall i :: 0 <= i < |steps| && steps[i].CleanStep? ==> steps[i].clock(k) <= t
    requires forall i :: 0 <= i < |steps| && steps[i].ExpireStep? ==> steps[i].now <= t
    ensures var view, last := View(Run(s, steps), k, t), LastOn(RunLog(s, steps), k);
            if last.Some? then Shows(view, last.value, t) else view == View(s, k, t)
    decreases |steps|
  {
    hide Next, View, Shows, StepLog;
    if steps != [] {
      var s', rest := Next(s, steps[0]).0, steps[1..];
      assert forall i :: 0 <= i < |rest| ==> rest[i] == steps[i + 1];
      StepShows(s, steps[0], k, t);
      ReadsLastWrite(s', rest, k, t);
      LastOnConcat(StepLog(s, steps[0]), RunLog(s', rest), k);
    }
  }
}
