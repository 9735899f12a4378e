/** One Redis stream read by a consumer group: the poller, the reclaimer and the workers as a step
    system over the server's pending list and the shared queue. */
module RedisStreams {

  type Id = nat

  datatype Worker = Idle | Handling(id: Id) | Acking(id: Id)

  datatype Reclaimer =
    | Resting
    | Claiming(ids: set<Id>)                       // asked for these pending messages
    | Enqueueing(list: seq<Id>, missing: set<Id>)  // claimed ones to enqueue, others to check one by one
    | AckingMissing(id: Id, missing: set<Id>)      // this one was found to be gone

  /** What justifies an acknowledgement. */
  datatype Fact = HandlerSucceeded(id: Id) | HandlerFailedLive(id: Id) | NoLongerExists(id: Id)

  /** `stream` holds the entries that exist, `added` all that ever did; `read` are those handed out
      since the group was made. `group` says that the server has the group; `live` is the subscription's
      context; `redelivery` says that both the processing timeout and the redelivery interval are set. */
  datatype Sys = Sys(
    stream: set<Id>, added: set<Id>, read: set<Id>, pending: set<Id>, acked: set<Id>,
    queue: seq<Id>, capacity: nat, polled: seq<Id>, reclaimer: Reclaimer, workers: map<nat, Worker>,
    group: bool, live: bool, redelivery: bool, facts: set<Fact>)

  ghost predicate Initial(s: Sys) {
    && s.group && s.stream == s.added && s.read == s.pending == s.acked == {}
    && s.queue == [] && s.polled == [] && s.reclaimer == Resting && s.facts == {}
    && forall w :: w in s.workers ==> s.workers[w] == Idle
  }

  datatype Step =
    | Add(id: Id)
    | Trim(id: Id)
    | Cancel
    | LoseGroup
    | RecreateGroup
    | ReadNew(entries: seq<Id>, replyLost: bool)
    | EnqueuePolled
    | DropPolled
    | ListPending(ids: set<Id>)
    | Claim(order: seq<Id>, fails: bool)
    | EnqueueClaimed
    | DropClaimed
    | CheckMissing(id: Id, fails: bool)
    | AckMissing(fails: bool)
    | FinishReclaim
    | Take(worker: nat)
    | HandlerReturns(worker: nat, succeeds: bool, contextLive: bool)
    | Ack(worker: nat, fails: bool)

  predicate Distinct(ids: seq<Id>) {
    forall i, j :: 0 <= i < j < |ids| ==> ids[i] != ids[j]
  }

  function Elements(ids: seq<Id>): set<Id> {
    set i | 0 <= i < |ids| :: ids[i]
  }

  /** The claimed messages that still exist, and those that do not. */
  function Existing(s: Sys, ids: set<Id>): set<Id> { ids * s.pending * s.stream }

  function Vanished(s: Sys, ids: set<Id>): set<Id> { ids * s.pending - s.stream }

  predicate WorkerIs(s: Sys, w: nat, k: Worker) { w in s.workers && s.workers[w] == k }

  predicate Enabled(s: Sys, step: Step) {
    match step
    case Add(id) => id !in s.added
    case RecreateGroup => !s.group && s.live && s.polled == []
    case ReadNew(ids, _) => s.group && s.polled == [] && Distinct(ids) && Elements(ids) <= s.stream - s.read
    case EnqueuePolled => s.polled != [] && |s.queue| < s.capacity
    case DropPolled => !s.live
    case ListPending(ids) => s.redelivery && s.reclaimer.Resting? && ids != {} && ids <= s.pending
    case Claim(order, fails) =>
      && s.reclaimer.Claiming? && (s.group || fails)
      && Distinct(order) && Elements(order) <= Existing(s, s.reclaimer.ids)
    case EnqueueClaimed => s.reclaimer.Enqueueing? && s.reclaimer.list != [] && |s.queue| < s.capacity
    case DropClaimed => s.reclaimer.Enqueueing? && !s.live
    case CheckMissing(id, _) => s.reclaimer.Enqueueing? && s.reclaimer.list == [] && id in s.reclaimer.missing
    case AckMissing(_) => s.reclaimer.AckingMissing?
    case FinishReclaim => s.reclaimer.Enqueueing? && s.reclaimer.list == [] && s.reclaimer.missing == {}
    case Take(w) => WorkerIs(s, w, Idle) && s.queue != []
    case HandlerReturns(w, _, contextLive) =>
      && w in s.workers && s.workers[w].Handling?
      && (contextLive ==> s.live) && (s.live && !s.redelivery ==> contextLive)
    case Ack(w, _) => w in s.workers && s.workers[w].Acking?
    case _ => true
  }

  /** XACK: takes the message off the pending list. */
  function Acked(s: Sys, id: Id): Sys {
    if id in s.pending then s.(pending := s.pending - {id}, acked := s.acked + {id}) else s
  }

  function SetWorker(s: Sys, w: nat, k: Worker): Sys {
    s.(workers := s.workers[w := k])
  }

  function Next(s: Sys, step: Step): Sys
    requires Enabled(s, step)
  {
    match step
    case Add(id) => s.(stream := s.stream + {id}, added := s.added + {id})
    case Trim(id) => s.(stream := s.stream - {id})
    case Cancel => s.(live := false)
    case LoseGroup => s.(group := false, read := {}, pending := {}, acked := {})
    case RecreateGroup => s.(group := true)
    case ReadNew(ids, replyLost) =>
      s.(read := s.read + Elements(ids), pending := s.pending + Elements(ids), polled := if replyLost then [] else ids)
    case EnqueuePolled => s.(queue := s.queue + [s.polled[0]], polled := s.polled[1..])
    case DropPolled => s.(polled := [])
    case ListPending(ids) => s.(reclaimer := Claiming(ids))
    case Claim(order, fails) =>
      if fails then s.(reclaimer := Resting)
      else if Vanished(s, s.reclaimer.ids) != {} then s.(reclaimer := Enqueueing([], s.reclaimer.ids))
      else s.(reclaimer := Enqueueing(order, {}))
    case EnqueueClaimed =>
      s.(queue := s.queue + [s.reclaimer.list[0]], reclaimer := s.reclaimer.(list := s.reclaimer.list[1..]))
    case DropClaimed => s.(reclaimer := s.reclaimer.(list := []))
    case CheckMissing(id, fails) =>
      var rest := s.reclaimer.missing - {id};
      if fails || id !in s.pending then s.(reclaimer := Enqueueing([], rest))
      else if id in s.stream then s.(reclaimer := Enqueueing([id], rest))
      else s.(reclaimer := AckingMissing(id, rest), facts := s.facts + {NoLongerExists(id)})
    case AckMissing(fails) =>
      var s' := if fails then s else Acked(s, s.reclaimer.id);
      s'.(reclaimer := Enqueueing([], s.reclaimer.missing))
    case FinishReclaim => s.(reclaimer := Resting)
    case Take(w) => SetWorker(s, w, Handling(s.queue[0])).(queue := s.queue[1..])
    case HandlerReturns(w, succeeds, contextLive) =>
      var id := s.workers[w].id;
      if succeeds then SetWorker(s, w, Acking(id)).(facts := s.facts + {HandlerSucceeded(id)})
      else if contextLive then SetWorker(s, w, Acking(id)).(facts := s.facts + {HandlerFailedLive(id)})
      else SetWorker(s, w, Idle)
    case Ack(w, fails) =>
      var s' := if fails then s else Acked(s, s.workers[w].id);
      SetWorker(s', w, Idle)
  }

  // ---------------------------------------------------------------- what every step keeps

  predicate Justified(s: Sys, id: Id) {
    HandlerSucceeded(id) in s.facts || HandlerFailedLive(id) in s.facts || NoLongerExists(id) in s.facts
  }

  function ReclaimerIds(r: Reclaimer): set<Id> {
    match r
    case Resting => {}
    case Claiming(ids) => ids
    case Enqueueing(list, missing) => Elements(list) + missing
    case AckingMissing(id, missing) => missing + {id}
  }

  ghost predicate ServerInv(s: Sys) {
    && s.read == s.pending + s.acked && s.pending !! s.acked && (!s.group ==> s.read == {})
    && s.read <= s.added && s.stream <= s.added
    && (forall id :: id in s.acked ==> Justified(s, id))
    && (forall id :: NoLongerExists(id) in s.facts ==> id in s.added && id !in s.stream)
  }

  ghost predicate ClientInv(s: Sys) {
    && Elements(s.queue) <= s.added && Elements(s.polled) <= s.added && ReclaimerIds(s.reclaimer) <= s.added
    && |s.queue| <= s.capacity
    && (forall w :: w in s.workers && !s.workers[w].Idle? ==> s.workers[w].id in s.added)
    && (forall w :: w in s.workers && s.workers[w].Acking? ==>
          HandlerSucceeded(s.workers[w].id) in s.facts || HandlerFailedLive(s.workers[w].id) in s.facts)
    && (s.reclaimer.AckingMissing? ==> NoLongerExists(s.reclaimer.id) in s.facts)
  }

  ghost predicate Inv(s: Sys) { ServerInv(s) && ClientInv(s) }

  lemma ServerKept(s: Sys, step: Step)
    requires Inv(s) && Enabled(s, step)
    ensures ServerInv(Next(s, step))
    ensures s.added <= Next(s, step).added && s.facts <= Next(s, step).facts
    ensures step.LoseGroup? || s.read <= Next(s, step).read
  {
    hide Elements, Existing, Vanished;
    if step.Ack? {
      AckKept(s, s.workers[step.worker].id);
    } else if step.AckMissing? {
      AckKept(s, s.reclaimer.id);
    } else if step.Add? || step.Trim? || step.LoseGroup? || step.RecreateGroup? || step.ReadNew? {
      ServerKeptOutside(s, step);
    } else if step.CheckMissing? || step.HandlerReturns? {
      ServerKeptInside(s, step);
    }
  }

  lemma ServerKeptOutside(s: Sys, step: Step)
    requires ServerInv(s) && Enabled(s, step)
    requires step.Add? || step.Trim? || step.LoseGroup? || step.RecreateGroup? || step.ReadNew?
    ensures ServerInv(Next(s, step))
    ensures s.added <= Next(s, step).added && s.facts <= Next(s, step).facts
    ensures step.LoseGroup? || s.read <= Next(s, step).read
  {
    hide Elements;
  }

  /** Some steps only add to what is known about messages. */
  lemma ServerKeptInside(s: Sys, step: Step)
    requires Inv(s) && Enabled(s, step) && (step.CheckMissing? || step.HandlerReturns?)
    ensures ServerInv(Next(s, step))
    ensures s.added == Next(s, step).added && s.read == Next(s, step).read && s.facts <= Next(s, step).facts
  {
    hide Elements, Existing, Vanished;
  }

  /** Acknowledging a justified message keeps the server's side. */
  lemma AckKept(s: Sys, id: Id)
    requires ServerInv(s) && Justified(s, id)
    ensures ServerInv(Acked(s, id))
  {
  }

  lemma ElementsSnoc(ids: seq<Id>, id: Id)
    ensures Elements(ids + [id]) == Elements(ids) + {id}
  {
    assert (ids + [id])[|ids|] == id;
    assert forall i :: 0 <= i < |ids| ==> (ids + [id])[i] == ids[i];
  }

  lemma ElementsTail(ids: seq<Id>)
    requires ids != []
    ensures Elements(ids) == {ids[0]} + Elements(ids[1..])
  {
    assert forall i :: 1 <= i < |ids| ==> ids[i] == ids[1..][i - 1];
  }

  lemma ClientKept(s: Sys, step: Step)
    requires Inv(s) && Enabled(s, step)
    ensures ClientInv(Next(s, step))
  {
    ServerKept(s, step);
    if step.Take? {
      TakeKept(s, step);
    } else if step.HandlerReturns? || step.Ack? {
      WorkersKept(s, step);
    } else if OfReclaimer(step) {
      ReclaimerKept(s, step);
    } else {
      PollerKept(s, step);
    }
  }

  predicate OfReclaimer(step: Step) {
    step.ListPending? || step.Claim? || step.EnqueueClaimed? || step.DropClaimed? || step.CheckMissing?
    || step.AckMissing? || step.FinishReclaim?
  }

  lemma TakeKept(s: Sys, step: Step)
    requires Inv(s) && Enabled(s, step) && step.Take?
    ensures ClientInv(Next(s, step))
  {
    hide Elements, ServerInv;
    ElementsTail(s.queue);
  }

  lemma WorkersKept(s: Sys, step: Step)
    requires Inv(s) && Enabled(s, step) && (step.HandlerReturns? || step.Ack?)
    requires s.added <= Next(s, step).added && s.facts <= Next(s, step).facts
    ensures ClientInv(Next(s, step))
  {
    hide Elements, ServerInv;
  }

  lemma PollerKept(s: Sys, step: Step)
    requires Inv(s) && Enabled(s, step) && !OfReclaimer(step) && !step.Take? && !step.HandlerReturns? && !step.Ack?
    requires s.added <= Next(s, step).added && s.facts <= Next(s, step).facts
    ensures ClientInv(Next(s, step))
  {
    hide Elements, Justified;
    NoElements();
    if step.EnqueuePolled? {
      ElementsSnoc(s.queue, s.polled[0]);
      ElementsTail(s.polled);
    }
  }

  lemma ReclaimerKept(s: Sys, step: Step)
    requires Inv(s) && Enabled(s, step) && OfReclaimer(step)
    requires s.added <= Next(s, step).added && s.facts <= Next(s, step).facts
    ensures ClientInv(Next(s, step))
  {
    hide Justified;
    if step.CheckMissing? || step.AckMissing? {
      MissingKept(s, step);
    } else if step.EnqueueClaimed? {
      ElementsSnoc(s.queue, s.reclaimer.list[0]);
      ElementsTail(s.reclaimer.list);
      hide Elements;
    } else {
      hide Elements;
      NoElements();
    }
  }

  lemma MissingKept(s: Sys, step: Step)
    requires Inv(s) && Enabled(s, step) && (step.CheckMissing? || step.AckMissing?)
    requires s.added <= Next(s, step).added && s.facts <= Next(s, step).facts
    ensures ClientInv(Next(s, step))
  {
    hide Elements, Justified;
    NoElements();
    if step.CheckMissing? {
      ElementsSnoc([], step.id);
      assert [] + [step.id] == [step.id];
    }
  }

  lemma NoElements()
    ensures Elements([]) == {}
  {
  }

  ghost predicate IsRun(s: Sys, steps: seq<Step>)
    decreases |steps|
  {
    steps != [] ==> Enabled(s, steps[0]) && IsRun(Next(s, steps[0]), steps[1..])
  }

  ghost function Run(s: Sys, steps: seq<Step>): Sys
    requires IsRun(s, steps)
    decreases |steps|
  {
    if steps == [] then s else Run(Next(s, steps[0]), steps[1..])
  }

  lemma InitialInv(s: Sys)
    requires Initial(s)
    ensures Inv(s)
  {
  }

  lemma {:induction false} RunKeepsInv(s: Sys, steps: seq<Step>)
    requires Inv(s) && IsRun(s, steps)
    ensures Inv(Run(s, steps))
    ensures s.added <= Run(s, steps).added && s.facts <= Run(s, steps).facts
    decreases |steps|
  {
    hide Next, Enabled, ServerInv, ClientInv;
    if steps != [] {
      ServerKept(s, steps[0]);
      ClientKept(s, steps[0]);
      RunKeepsInv(Next(s, steps[0]), steps[1..]);
    }
  }

  /** The main result: in every reachable state each message that the group handed out is either pending
      or acknowledged, never both. An acknowledged one was handled, or its handler failed while the
      context was live, or it no longer exists. So a message dropped on cancellation, or whose
      acknowledgement or delivery failed, is still pending. */
  lemma ReadIsPendingOrAcked(s: Sys, steps: seq<Step>, id: Id)
    requires Initial(s) && IsRun(s, steps) && id in Run(s, steps).read
    ensures var e := Run(s, steps);
            && (id in e.pending <==> id !in e.acked)
            && (id in e.acked ==>
               HandlerSucceeded(id) in e.facts || HandlerFailedLive(id) in e.facts || id !in e.stream)
            && (!Justified(e, id) ==> id in e.pending)
  {
    hide Run;
    InitialInv(s);
    RunKeepsInv(s, steps);
  }

  ghost predicate KeepsGroup(steps: seq<Step>) {
    forall i :: 0 <= i < |steps| ==> !steps[i].LoseGroup?
  }

  lemma KeepsGroupTail(steps: seq<Step>)
    requires KeepsGroup(steps) && steps != []
    ensures !steps[0].LoseGroup? && KeepsGroup(steps[1..])
  {
    assert forall i :: 0 <= i < |steps| - 1 ==> steps[1..][i] == steps[i + 1];
  }

  lemma {:induction false} ReadGrows(s: Sys, steps: seq<Step>)
    requires Inv(s) && IsRun(s, steps) && KeepsGroup(steps)
    ensures Inv(Run(s, steps)) && s.read <= Run(s, steps).read
    decreases |steps|
  {
    hide Next, Enabled, ServerInv, ClientInv, KeepsGroup;
    if steps != [] {
      KeepsGroupTail(steps);
      ServerKept(s, steps[0]);
      ClientKept(s, steps[0]);
      ReadGrows(Next(s, steps[0]), steps[1..]);
    }
  }

  /** As long as the group is there, a pending message stays pending until an acknowledgement with a
      reason takes it off: a handler that fails after cancellation, and every drop, leaves it. */
  lemma PendingUntilAcked(s: Sys, steps: seq<Step>, id: Id)
    requires Inv(s) && IsRun(s, steps) && KeepsGroup(steps) && id in s.pending
    ensures var e := Run(s, steps);
            if id in e.pending then id !in e.acked else id in e.acked && Justified(e, id)
  {
    hide Run, IsRun;
    ReadGrows(s, steps);
  }

  // ---------------------------------------------------------------- what becomes of a message

  /** A message that is read becomes pending and goes to the end of the queue. */
  lemma ReadIsQueued(s: Sys, id: Id)
    requires s.group && s.polled == [] && |s.queue| < s.capacity && id in s.stream && id !in s.read
    ensures var steps := [ReadNew([id], false)] + [EnqueuePolled];
            && IsRun(s, steps) && Run(s, steps).queue == s.queue + [id] && Run(s, steps).polled == []
            && Run(s, steps).read == s.read + {id} && Run(s, steps).pending == s.pending + {id}
  {
    NoElements();
    ElementsSnoc([], id);
    assert [] + [id] == [id];
    RunOne(s, ReadNew([id], false));
    RunSnoc(s, [ReadNew([id], false)], EnqueuePolled);
  }

  /** Workers take messages in the order of the queue. */
  lemma TakesFirst(s: Sys, w: nat)
    requires WorkerIs(s, w, Idle) && s.queue != []
    ensures Enabled(s, Take(w)) && WorkerIs(Next(s, Take(w)), w, Handling(s.queue[0]))
    ensures s.queue == [s.queue[0]] + Next(s, Take(w)).queue
  {
  }

  /** When its handler returns, a message is acknowledged exactly if the handler succeeded, or failed
      while its context was live; otherwise it stays pending and the worker is free again. */
  lemma HandledIsAckedIff(s: Sys, w: nat, id: Id, succeeds: bool, contextLive: bool)
    requires WorkerIs(s, w, Handling(id)) && id in s.pending && id !in s.acked
    requires Enabled(s, HandlerReturns(w, succeeds, contextLive))
    ensures var s' := Next(s, HandlerReturns(w, succeeds, contextLive));
            && s'.pending == s.pending && s'.acked == s.acked
            && (if succeeds || contextLive
                then && Enabled(s', Ack(w, false)) && id in Next(s', Ack(w, false)).acked
                     && id !in Next(s', Ack(w, false)).pending && WorkerIs(Next(s', Ack(w, false)), w, Idle)
                     && Next(s', Ack(w, true)).pending == s.pending
                else WorkerIs(s', w, Idle))
  {
  }

  /** A pending message that no longer exists is found out by the reclaimer and acknowledged. */
  lemma VanishedIsRemoved(s: Sys, id: Id)
    requires Inv(s) && s.redelivery && s.reclaimer.Resting? && id in s.pending && id !in s.stream
    ensures var steps := [ListPending({id})] + [Claim([], false)] + [CheckMissing(id, false)] + [AckMissing(false)];
            IsRun(s, steps) && id in Run(s, steps).acked && id !in Run(s, steps).pending
  {
    VanishedStates(s, id);
    hide Next, Enabled, Run, IsRun, Inv;
    RunOne(s, ListPending({id}));
    RunSnoc(s, [ListPending({id})], Claim([], false));
    RunSnoc(s, [ListPending({id})] + [Claim([], false)], CheckMissing(id, false));
    RunSnoc(s, [ListPending({id})] + [Claim([], false)] + [CheckMissing(id, false)], AckMissing(false));
  }

  lemma VanishedStates(s: Sys, id: Id)
    requires Inv(s) && s.redelivery && s.reclaimer.Resting? && id in s.pending && id !in s.stream
    ensures Enabled(s, ListPending({id})) && Next(s, ListPending({id})) == s.(reclaimer := Claiming({id}))
    ensures var s1 := s.(reclaimer := Claiming({id}));
            Enabled(s1, Claim([], false)) && Next(s1, Claim([], false)) == s.(reclaimer := Enqueueing([], {id}))
    ensures var s2 := s.(reclaimer := Enqueueing([], {id}));
            && Enabled(s2, CheckMissing(id, false))
            && Enabled(Next(s2, CheckMissing(id, false)), AckMissing(false))
            && var e := Next(Next(s2, CheckMissing(id, false)), AckMissing(false));
               id in e.acked && id !in e.pending
  {
    NoElements();
    assert Vanished(s.(reclaimer := Claiming({id})), {id}) == {id};
  }

  // ---------------------------------------------------------------- redelivery

  predicate InFlight(s: Sys, id: Id) {
    || id in s.queue || id in s.polled || (s.reclaimer.Enqueueing? && id in s.reclaimer.list)
    || (exists w :: w in s.workers && WorkerIs(s, w, Handling(id)))
  }

  /** With redelivery on, a pending message that still exists can be brought back to the queue from
      any state in which the reclaimer rests and the queue has room. */
  lemma PendingCanReturn(s: Sys, id: Id)
    requires Inv(s) && s.redelivery && s.reclaimer.Resting? && |s.queue| < s.capacity && id in s.pending
             && id in s.stream
    ensures var steps := [ListPending({id}), Claim([id], false), EnqueueClaimed];
            IsRun(s, steps) && id in Run(s, steps).queue
  {
    var s1 := Next(s, ListPending({id}));
    NoElements();
    ElementsSnoc([], id);
    assert [] + [id] == [id];
    assert Existing(s1, {id}) == {id} && Vanished(s1, {id}) == {};
    var s2 := Next(s1, Claim([id], false));
    var s3 := Next(s2, EnqueueClaimed);
    var steps := [ListPending({id}), Claim([id], false), EnqueueClaimed];
    assert steps[1..] == [Claim([id], false), EnqueueClaimed];
    assert steps[1..][1..] == [EnqueueClaimed];
    assert steps[1..][1..][1..] == [];
    assert s3.queue[|s.queue|] == id;
    assert IsRun(s3, []) && Run(s3, []) == s3;
    assert IsRun(s2, [EnqueueClaimed]) && Run(s2, [EnqueueClaimed]) == s3;
    assert IsRun(s1, steps[1..]) && Run(s1, steps[1..]) == s3;
  }

  /** With redelivery off, a message that has been read and is no longer in flight never comes back
      in any run that keeps the group: its handler is not called again by this process. */
  lemma {:induction false} WithoutRedeliveryNoReturn(s: Sys, steps: seq<Step>, id: Id)
    requires Inv(s) && IsRun(s, steps) && !s.redelivery && s.reclaimer.Resting?
    requires id in s.read && !InFlight(s, id) && KeepsGroup(steps)
    ensures !InFlight(Run(s, steps), id)
    decreases |steps|
  {
    hide KeepsGroup;
    if steps != [] {
      KeepsGroupTail(steps);
      ServerKept(s, steps[0]);
      ClientKept(s, steps[0]);
      NotInFlightStep(s, steps[0], id);
      WithoutRedeliveryNoReturn(Next(s, steps[0]), steps[1..], id);
    }
  }

  // ---------------------------------------------------------------- when an acknowledged message comes back

  lemma NewEntries(s: Sys, step: Step, id: Id)
    requires Enabled(s, step) && id in s.read
    ensures step.ReadNew? ==> id !in step.entries
  {
    if step.ReadNew? {
      assert forall i :: 0 <= i < |step.entries| ==> step.entries[i] in Elements(step.entries);
    }
  }

  /** While the group is there, the poller is handed each message once. */
  lemma {:induction false} ReadOnce(s: Sys, steps: seq<Step>, id: Id)
    requires Inv(s) && IsRun(s, steps) && KeepsGroup(steps) && id in s.read
    ensures forall i :: 0 <= i < |steps| && steps[i].ReadNew? ==> id !in steps[i].entries
    decreases |steps|
  {
    hide ServerInv, ClientInv, KeepsGroup;
    if steps != [] {
      KeepsGroupTail(steps);
      ServerKept(s, steps[0]);
      ClientKept(s, steps[0]);
      ReadOnce(Next(s, steps[0]), steps[1..], id);
      NewEntries(s, steps[0], id);
      assert forall i :: 1 <= i < |steps| ==> steps[i] == steps[1..][i - 1];
    }
  }

  lemma SettledStep(s: Sys, step: Step, id: Id)
    requires Inv(s) && Enabled(s, step) && !step.LoseGroup?
    requires id in s.acked && !InFlight(s, id)
    ensures id in Next(s, step).acked && !InFlight(Next(s, step), id)
  {
    hide ClientInv, Existing, Vanished;
    NewEntries(s, step, id);
    var s' := Next(s, step);
    if step.Take? || step.HandlerReturns? || step.Ack? {
      SettledWorker(s, step, id);
    } else {
      assert s'.workers == s.workers;
      assert forall w :: w in s'.workers ==> (WorkerIs(s', w, Handling(id)) <==> WorkerIs(s, w, Handling(id)));
      if step.Claim? {
        ClaimedIsPending(s, step, id);
      }
    }
  }

  lemma ClaimedIsPending(s: Sys, step: Step, id: Id)
    requires Enabled(s, step) && step.Claim? && id !in s.pending
    ensures id !in step.order
  {
    assert forall i :: 0 <= i < |step.order| ==> step.order[i] in Elements(step.order);
  }

  lemma SettledWorker(s: Sys, step: Step, id: Id)
    requires Enabled(s, step) && (step.Take? || step.HandlerReturns? || step.Ack?)
    requires id in s.acked && !InFlight(s, id)
    ensures id in Next(s, step).acked && !InFlight(Next(s, step), id)
  {
    var s' := Next(s, step);
    forall w | w in s'.workers ensures !WorkerIs(s', w, Handling(id)) {
      if step.Take? && step.worker == w {
        assert s.queue[0] in s.queue;
      } else if w in s.workers {
        assert !WorkerIs(s, w, Handling(id));
      }
    }
  }

  /** While the group is there, with redelivery on or off: an acknowledged message of which no copy is
      in flight stays acknowledged and never comes back. */
  lemma {:induction false} AckedStaysAway(s: Sys, steps: seq<Step>, id: Id)
    requires Inv(s) && IsRun(s, steps) && KeepsGroup(steps) && id in s.acked && !InFlight(s, id)
    ensures id in Run(s, steps).acked && !InFlight(Run(s, steps), id)
    decreases |steps|
  {
    hide Next, Enabled, ServerInv, ClientInv, KeepsGroup, InFlight;
    if steps != [] {
      KeepsGroupTail(steps);
      ServerKept(s, steps[0]);
      ClientKept(s, steps[0]);
      SettledStep(s, steps[0], id);
      AckedStaysAway(Next(s, steps[0]), steps[1..], id);
    }
  }

  /** So it can be in flight later, with the group in place, exactly if it is now. */
  lemma AckedReturnsIff(s: Sys, id: Id)
    requires Inv(s) && id in s.acked
    ensures (exists steps :: IsRun(s, steps) && KeepsGroup(steps) && InFlight(Run(s, steps), id)) <==> InFlight(s, id)
  {
    hide Inv, InFlight;
    if InFlight(s, id) {
      assert IsRun(s, []) && KeepsGroup([]) && Run(s, []) == s;
    } else {
      forall steps | IsRun(s, steps) && KeepsGroup(steps) ensures !InFlight(Run(s, steps), id) {
        AckedStaysAway(s, steps, id);
      }
    }
  }

  lemma {:induction false} RunConcat(s: Sys, a: seq<Step>, b: seq<Step>)
    requires IsRun(s, a) && IsRun(Run(s, a), b)
    ensures IsRun(s, a + b) && Run(s, a + b) == Run(Run(s, a), b)
    decreases |a|
  {
    hide Next, Enabled;
    if a == [] {
      assert a + b == b;
    } else {
      RunConcat(Next(s, a[0]), a[1..], b);
      assert (a + b)[0] == a[0] && (a + b)[1..] == a[1..] + b;
    }
  }

  /** One more step of a run. */
  lemma RunSnoc(s: Sys, a: seq<Step>, step: Step)
    requires IsRun(s, a) && Enabled(Run(s, a), step)
    ensures IsRun(s, a + [step]) && Run(s, a + [step]) == Next(Run(s, a), step)
  {
    hide Next, Enabled;
    var e := Next(Run(s, a), step);
    assert [step][1..] == [] && IsRun(e, []) && Run(e, []) == e;
    RunConcat(s, a, [step]);
  }

  /** A group that was lost is made anew at the beginning of the stream: every entry that exists, even
      one handled and acknowledged before, can be read once more. */
  lemma LostGroupReadsAgain(s: Sys, id: Id)
    requires Inv(s) && s.live && s.polled == [] && id in s.stream
    ensures var steps := [LoseGroup, RecreateGroup, ReadNew([id], false)];
            IsRun(s, steps) && InFlight(Run(s, steps), id)
  {
    NoElements();
    ElementsSnoc([], id);
    assert [] + [id] == [id];
    var s1 := Next(s, LoseGroup);
    var s2 := Next(s1, RecreateGroup);
    var s3 := Next(s2, ReadNew([id], false));
    var steps := [LoseGroup, RecreateGroup, ReadNew([id], false)];
    assert steps[1..] == [RecreateGroup, ReadNew([id], false)];
    assert steps[1..][1..] == [ReadNew([id], false)];
    assert steps[1..][1..][1..] == [];
    assert s3.polled[0] == id;
    assert IsRun(s3, []) && Run(s3, []) == s3;
    assert IsRun(s2, [ReadNew([id], false)]) && Run(s2, [ReadNew([id], false)]) == s3;
    assert IsRun(s1, steps[1..]) && Run(s1, steps[1..]) == s3;
  }

  lemma NotInFlightStep(s: Sys, step: Step, id: Id)
    requires Inv(s) && Enabled(s, step) && !s.redelivery && s.reclaimer.Resting? && !step.LoseGroup?
    requires id in s.read && !InFlight(s, id)
    ensures !InFlight(Next(s, step), id) && !Next(s, step).redelivery && Next(s, step).reclaimer.Resting?
  {
    var s' := Next(s, step);
    forall w | w in s'.workers ensures !WorkerIs(s', w, Handling(id)) {
      if step.Take? && step.worker == w {
        assert s.queue[0] in s.queue;
      } else if w in s.workers {
        assert !WorkerIs(s, w, Handling(id));
      }
    }
    if step.ReadNew? {
      assert forall i :: 0 <= i < |step.entries| ==> step.entries[i] in Elements(step.entries);
    }
  }

  function CopySteps(id: Id): seq<Step> {
    [Take(0)] + [ListPending({id})] + [Claim([id], false)] + [EnqueueClaimed]
  }

  function AckSteps(): seq<Step> {
    [HandlerReturns(0, true, true)] + [Ack(0, false)] + [Take(1)]
  }

  /** One step from `s`. */
  lemma RunOne(s: Sys, step: Step)
    requires Enabled(s, step)
    ensures IsRun(s, [step]) && Run(s, [step]) == Next(s, step)
  {
    hide Next, Enabled;
    assert [step][1..] == [] && IsRun(Next(s, step), []);
  }

  lemma CopyClaimed(s: Sys, id: Id)
    requires s.redelivery && s.reclaimer.Resting? && s.queue == [id] && s.capacity > 0
    requires id in s.pending && id in s.stream && WorkerIs(s, 0, Idle) && s.group
    ensures IsRun(s, CopySteps(id))
    ensures Run(s, CopySteps(id)) == s.(workers := s.workers[0 := Handling(id)], reclaimer := Enqueueing([], {}))
  {
    var s1 := s.(workers := s.workers[0 := Handling(id)], queue := []);
    CopyStates(s, s1, id);
    hide Next, Enabled, Run, IsRun;
    RunOne(s, Take(0));
    RunSnoc(s, [Take(0)], ListPending({id}));
    RunSnoc(s, [Take(0)] + [ListPending({id})], Claim([id], false));
    RunSnoc(s, [Take(0)] + [ListPending({id})] + [Claim([id], false)], EnqueueClaimed);
  }

  lemma CopyStates(s: Sys, s1: Sys, id: Id)
    requires s.redelivery && s.reclaimer.Resting? && s.queue == [id] && s.capacity > 0
    requires id in s.pending && id in s.stream && WorkerIs(s, 0, Idle) && s.group
    requires s1 == s.(workers := s.workers[0 := Handling(id)], queue := [])
    ensures Enabled(s, Take(0)) && Next(s, Take(0)) == s1
    ensures Enabled(s1, ListPending({id})) && Next(s1, ListPending({id})) == s1.(reclaimer := Claiming({id}))
    ensures var s2 := s1.(reclaimer := Claiming({id}));
            Enabled(s2, Claim([id], false)) && Next(s2, Claim([id], false)) == s1.(reclaimer := Enqueueing([id], {}))
    ensures var s3 := s1.(reclaimer := Enqueueing([id], {}));
            Enabled(s3, EnqueueClaimed)
                && Next(s3, EnqueueClaimed) == s1.(queue := [id], reclaimer := Enqueueing([], {}))
  {
    ClaimOne(s1.(reclaimer := Claiming({id})), id);
    assert [] + [id] == [id];
  }

  lemma ClaimOne(s: Sys, id: Id)
    requires s.reclaimer == Claiming({id}) && s.group && id in s.pending && id in s.stream
    ensures Enabled(s, Claim([id], false)) && Next(s, Claim([id], false)) == s.(reclaimer := Enqueueing([id], {}))
  {
    NoElements();
    ElementsSnoc([], id);
    assert [] + [id] == [id];
    assert Existing(s, {id}) == {id} && Vanished(s, {id}) == {};
  }

  lemma FirstCopyAcked(s: Sys, id: Id)
    requires s.live && s.queue == [id] && id in s.pending
    requires WorkerIs(s, 0, Handling(id)) && WorkerIs(s, 1, Idle)
    ensures IsRun(s, AckSteps())
    ensures id in Run(s, AckSteps()).acked && WorkerIs(Run(s, AckSteps()), 1, Handling(id))
  {
    RunOne(s, HandlerReturns(0, true, true));
    RunSnoc(s, [HandlerReturns(0, true, true)], Ack(0, false));
    RunSnoc(s, [HandlerReturns(0, true, true)] + [Ack(0, false)], Take(1));
  }

  /** The other cause, with the group in place: a message that is claimed while it is being handled is
      in flight twice, and its second copy is handled after the first was acknowledged. */
  lemma HandledAgainAfterAck(s: Sys, id: Id)
    requires Inv(s) && s.live && s.redelivery && s.reclaimer.Resting? && s.queue == [id] && s.capacity > 0
    requires id in s.pending && id in s.stream && WorkerIs(s, 0, Idle) && WorkerIs(s, 1, Idle)
    ensures var steps := CopySteps(id) + AckSteps();
            && KeepsGroup(steps) && IsRun(s, steps)
            && id in Run(s, steps).acked && WorkerIs(Run(s, steps), 1, Handling(id))
  {
    CopyClaimed(s, id);
    FirstCopyAcked(Run(s, CopySteps(id)), id);
    RunConcat(s, CopySteps(id), AckSteps());
  }
}
