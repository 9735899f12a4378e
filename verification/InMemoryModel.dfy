/** The in-memory state store as values: what each atomic operation does to the stored items. */
module InMemoryModel {
  import opened Wrappers

  /** A stored item; items are never changed in place. `idx` numbers the writes. */
  datatype Item = Item(data: string, etag: Option<string>, expire: Option<int>, idx: nat)

  /** `issued` remembers every etag handed out so far; the store itself does not keep it. */
  datatype State = State(items: map<string, Item>, idx: nat, issued: set<string>)

  const FIRST_WRITE := "first-write"
  const LAST_WRITE := "last-write"
  const STRONG := "strong"
  const EVENTUAL := "eventual"

  datatype Options = Options(concurrency: string, consistency: string)

  /** The time to live as given by the metadata of a request, after parsing. */
  datatype TTL = Seconds(n: nat) | BadTTL

  /** The value of a request, after marshalling. */
  datatype Value = Bytes(data: string) | BadValue

  datatype SetRequest = SetRequest(key: string, value: Value, ttl: TTL, etag: Option<string>, options: Options)
  datatype DeleteRequest = DeleteRequest(key: string, etag: Option<string>, options: Options)

  datatype Operation = SetOperation(write: SetRequest) | DeleteOperation(remove: DeleteRequest) {
    function Key(): string {
      if SetOperation? then write.key else remove.key
    }

    function ETag(): Option<string> {
      if SetOperation? then write.etag else remove.etag
    }

    function Options(): Options {
      if SetOperation? then write.options else remove.options
    }
  }

  datatype Error = BadOptions | InvalidTTL | MarshalFailed | ETagMismatch

  datatype Outcome = Success | Failure(error: Error)

  /** What the outside world supplies to one write: the clock and a fresh etag. */
  datatype Stamp = Stamp(now: int, uuid: string)

  // ---------------------------------------------------------------- the checks

  predicate ValidOptions(o: Options) {
    && (o.consistency == "" || o.consistency == STRONG || o.consistency == EVENTUAL)
    && (o.concurrency == "" || o.concurrency == FIRST_WRITE || o.concurrency == LAST_WRITE)
  }

  function HasETag(etag: Option<string>): bool {
    etag.Some? && etag.value != ""
  }

  predicate ETagAllows(items: map<string, Item>, key: string, etag: Option<string>, concurrency: string) {
    if HasETag(etag) then key in items && items[key].etag == etag
    else concurrency == FIRST_WRITE ==> key !in items
  }

  /** The option values that pass. */
  lemma ValidOptionsIff(o: Options)
    ensures ValidOptions(o) <==>
            && o.consistency in ["", "strong", "eventual"]
            && o.concurrency in ["", "first-write", "last-write"]
  {
  }

  /** An etag must be the current one; without one, or with an empty one, a first write needs the key to
      be free, and anything else passes. */
  lemma ETagRule(items: map<string, Item>, key: string, etag: Option<string>, concurrency: string)
    ensures etag.Some? && etag.value != "" ==>
              (ETagAllows(items, key, etag, concurrency) <==> key in items && items[key].etag == Some(etag.value))
    ensures etag == None || etag == Some("") ==>
              (ETagAllows(items, key, etag, concurrency) <==> !(concurrency == "first-write" && key in items))
  {
  }

  predicate Allowed(s: State, op: Operation) {
    ETagAllows(s.items, op.Key(), op.ETag(), op.Options().concurrency)
  }

  function CheckParameters(req: SetRequest): Outcome {
    if !ValidOptions(req.options) then Failure(BadOptions)
    else if req.ttl.BadTTL? then Failure(InvalidTTL)
    else Success
  }

  /** The check of one operation of a transaction: the options of deletes are not looked at. */
  function CheckInMulti(op: Operation): Outcome {
    if op.DeleteOperation? then Success
    else if CheckParameters(op.write).Failure? then CheckParameters(op.write)
    else if op.write.value.BadValue? then Failure(MarshalFailed)
    else Success
  }

  // ---------------------------------------------------------------- the effects

  function Put(s: State, key: string, data: string, ttl: nat, stamp: Stamp): State {
    State(s.items[key := Item(data, Some(stamp.uuid), if ttl > 0 then Some(stamp.now + ttl) else None, s.idx)],
          s.idx + 1, s.issued + {stamp.uuid})
  }

  function Remove(s: State, key: string): State {
    s.(items := s.items - {key})
  }

  /** A write or delete whose checks have passed. */
  function Apply(s: State, op: Operation, stamp: Stamp): State
    requires CheckInMulti(op).Success?
  {
    if op.SetOperation? then Put(s, op.write.key, op.write.value.data, op.write.ttl.n, stamp)
    else Remove(s, op.remove.key)
  }

  /** A single Set or Delete. */
  function Single(s: State, op: Operation, stamp: Stamp): (State, Outcome) {
    if op.SetOperation? then
      if CheckParameters(op.write).Failure? then (s, CheckParameters(op.write))
      else if !Allowed(s, op) then (s, Failure(ETagMismatch))
      else if op.write.value.BadValue? then (s, Failure(MarshalFailed))
      else (Apply(s, op, stamp), Success)
    else
      if !ValidOptions(op.remove.options) then (s, Failure(BadOptions))
      else if !Allowed(s, op) then (s, Failure(ETagMismatch))
      else (Apply(s, op, stamp), Success)
  }

  function CheckAll(ops: seq<Operation>): Outcome {
    if ops == [] then Success
    else if CheckInMulti(ops[0]).Failure? then CheckInMulti(ops[0])
    else CheckAll(ops[1..])
  }

  predicate AllAllowed(s: State, ops: seq<Operation>) {
    forall i :: 0 <= i < |ops| ==> Allowed(s, ops[i])
  }

  function ApplyAll(s: State, ops: seq<Operation>, stamps: seq<Stamp>): State
    requires |ops| == |stamps| && CheckAll(ops).Success?
    decreases |ops|
  {
    if ops == [] then s else ApplyAll(Apply(s, ops[0], stamps[0]), ops[1..], stamps[1..])
  }

  /** A transaction: all checks against the state before it, then all effects. */
  function Multi(s: State, ops: seq<Operation>, stamps: seq<Stamp>): (State, Outcome)
    requires |ops| == |stamps|
  {
    if CheckAll(ops).Failure? then (s, CheckAll(ops))
    else if !AllAllowed(s, ops) then (s, Failure(ETagMismatch))
    else (ApplyAll(s, ops, stamps), Success)
  }

  // ---------------------------------------------------------------- expiry

  predicate Expired(item: Item, now: int) {
    item.expire.Some? && now > item.expire.value
  }

  /** Cleaning; the clock is read anew for every item. */
  function Clean(s: State, clock: string -> int): State {
    s.(items := map k | k in s.items && !Expired(s.items[k], clock(k)) :: s.items[k])
  }

  /** The second half of Get: drop the item if it is still expired. */
  function Expire(s: State, key: string, now: int): State {
    if key in s.items && Expired(s.items[key], now) then Remove(s, key) else s
  }

  /** What a reader should see: the item unless it has expired. */
  function View(s: State, key: string, now: int): Option<Item> {
    if key in s.items && !Expired(s.items[key], now) then Some(s.items[key]) else None
  }

  // ---------------------------------------------------------------- runs

  /** The steps of the store: each happens under the write lock. */
  datatype Step =
    | SingleStep(op: Operation, stamp: Stamp)
    | MultiStep(ops: seq<Operation>, stamps: seq<Stamp>)
    | CleanStep(clock: string -> int)
    | ExpireStep(key: string, now: int)

  predicate WellFormed(step: Step) {
    step.MultiStep? ==> |step.ops| == |step.stamps|
  }

  function Next(s: State, step: Step): (State, Outcome)
    requires WellFormed(step)
  {
    match step
    case SingleStep(op, stamp) => Single(s, op, stamp)
    case MultiStep(ops, stamps) => Multi(s, ops, stamps)
    case CleanStep(clock) => (Clean(s, clock), Success)
    case ExpireStep(key, now) => (Expire(s, key, now), Success)
  }

  function Run(s: State, steps: seq<Step>): State
    requires forall i :: 0 <= i < |steps| ==> WellFormed(steps[i])
    decreases |steps|
  {
    if steps == [] then s else Run(Next(s, steps[0]).0, steps[1..])
  }
}
