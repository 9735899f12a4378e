/** The Pulsar subscription loop: a fixed pool of workers (one in sync mode) taking messages from the
    consumer's channel, and the consumer closed when they are done, as a step system. */
module PulsarListener {
  import opened Counting

  /** One delivery by the broker; a redelivered message is a new delivery. */
  type Delivery = nat

  datatype Worker = Selecting | Handling(msg: Delivery) | Exited

  datatype Settlement = Acked(msg: Delivery) | Nacked(msg: Delivery)

  /** How handling a message ends. */
  datatype Ending = DecodeFails | EncodeFails | HandlerFails | HandlerSucceeds

  /** `taken` and `settled` record what was received from the channel and what became of it. */
  datatype Sys = Sys(sync: bool, live: bool, channel: seq<Delivery>, channelClosed: bool, delivered: set<Delivery>,
                     workers: seq<Worker>, taken: set<Delivery>, settled: seq<Settlement>, consumerClosed: bool)

  ghost predicate Initial(s: Sys, maxConcurrentHandlers: nat) {
    && s.live && s.channel == [] && !s.channelClosed && s.delivered == {}
    && s.taken == {} && s.settled == [] && !s.consumerClosed
    && |s.workers| == (if s.sync then 1 else maxConcurrentHandlers)
    && forall w :: 0 <= w < |s.workers| ==> s.workers[w] == Selecting
  }

  datatype Step =
    | Deliver(msg: Delivery)
    | CloseChannel
    | Cancel
    | Take(worker: nat)
    | Settle(worker: nat, ending: Ending)
    | SeeClosed(worker: nat)
    | SeeCancelled(worker: nat)
    | CloseConsumer

  predicate WorkerIs(s: Sys, w: nat, k: Worker) { w < |s.workers| && s.workers[w] == k }

  /** In sync mode the loop runs on the caller, which returns when the loop does; otherwise the caller
      waits for cancellation and then for every worker. */
  predicate Enabled(s: Sys, step: Step) {
    match step
    case Deliver(msg) => !s.channelClosed && msg !in s.delivered
    case Take(w) => WorkerIs(s, w, Selecting) && s.channel != []
    case Settle(w, _) => w < |s.workers| && s.workers[w].Handling?
    case SeeClosed(w) => WorkerIs(s, w, Selecting) && s.channelClosed && s.channel == []
    case SeeCancelled(w) => WorkerIs(s, w, Selecting) && !s.live
    case CloseConsumer =>
      && !s.consumerClosed && (s.sync || !s.live)
      && forall w :: 0 <= w < |s.workers| ==> s.workers[w].Exited?
    case _ => true
  }

  function Outcome(msg: Delivery, ending: Ending): Settlement {
    if ending.HandlerSucceeds? then Acked(msg) else Nacked(msg)
  }

  function Next(s: Sys, step: Step): Sys
    requires Enabled(s, step)
  {
    match step
    case Deliver(msg) => s.(channel := s.channel + [msg], delivered := s.delivered + {msg})
    case CloseChannel => s.(channelClosed := true)
    case Cancel => s.(live := false)
    case Take(w) =>
      s.(workers := s.workers[w := Handling(s.channel[0])], taken := s.taken + {s.channel[0]},
         channel := s.channel[1..])
    case Settle(w, ending) =>
      s.(workers := s.workers[w := Selecting], settled := s.settled + [Outcome(s.workers[w].msg, ending)])
    case SeeClosed(w) => s.(workers := s.workers[w := Exited])
    case SeeCancelled(w) => s.(workers := s.workers[w := Exited])
    case CloseConsumer => s.(consumerClosed := true)
  }

  predicate SettledFor(s: Sys, msg: Delivery) {
    exists i :: 0 <= i < |s.settled| && s.settled[i].msg == msg
  }

  predicate InFlight(s: Sys, msg: Delivery) {
    exists w :: 0 <= w < |s.workers| && s.workers[w] == Handling(msg)
  }

  ghost predicate Inv(s: Sys) {
    // the channel holds distinct deliveries that nobody has taken
    && (forall i :: 0 <= i < |s.channel| ==> s.channel[i] in s.delivered && s.channel[i] !in s.taken)
    && (forall i, j :: 0 <= i < j < |s.channel| ==> s.channel[i] != s.channel[j])
    && s.taken <= s.delivered
    // a taken message is in flight at one worker or settled once
    && (forall m :: m in s.taken <==> SettledFor(s, m) || InFlight(s, m))
    && (forall m :: !(SettledFor(s, m) && InFlight(s, m)))
    && (forall i, j :: 0 <= i < j < |s.settled| ==> s.settled[i].msg != s.settled[j].msg)
    && (forall v, w :: 0 <= v < w < |s.workers| && s.workers[v].Handling? ==> s.workers[v] != s.workers[w])
    && (s.consumerClosed ==> forall w :: 0 <= w < |s.workers| ==> s.workers[w].Exited?)
  }

  lemma InitialInv(s: Sys, n: nat)
    requires Initial(s, n)
    ensures Inv(s)
  {
  }

  lemma TakeKeepsInv(s: Sys, w: nat)
    requires Inv(s) && Enabled(s, Take(w))
    ensures Inv(Next(s, Take(w)))
  {
    var s', msg := Next(s, Take(w)), s.channel[0];
    assert s'.workers[w] == Handling(msg);
    assert !SettledFor(s, msg) && !InFlight(s, msg);
    forall m | m != msg ensures InFlight(s', m) <==> InFlight(s, m) {
      if InFlight(s, m) {
        var v :| 0 <= v < |s.workers| && s.workers[v] == Handling(m);
        assert s'.workers[v] == Handling(m);
      }
    }
    forall v, u | 0 <= v < u < |s'.workers| && s'.workers[v].Handling? ensures s'.workers[v] != s'.workers[u] {
      assert s.workers[u] == Handling(msg) && u != w ==> InFlight(s, msg);
    }
  }

  lemma SettleKeepsInv(s: Sys, w: nat, ending: Ending)
    requires Inv(s) && Enabled(s, Settle(w, ending))
    ensures Inv(Next(s, Settle(w, ending)))
  {
    var s', msg := Next(s, Settle(w, ending)), s.workers[w].msg;
    assert InFlight(s, msg) && !SettledFor(s, msg);
    assert s'.settled[|s.settled|].msg == msg;
    forall m
      ensures SettledFor(s', m) <==> SettledFor(s, m) || m == msg
      ensures InFlight(s', m) <==> InFlight(s, m) && m != msg
    {
      if SettledFor(s, m) {
        var i :| 0 <= i < |s.settled| && s.settled[i].msg == m;
        assert s'.settled[i].msg == m;
      }
      if InFlight(s, m) && m != msg {
        var v :| 0 <= v < |s.workers| && s.workers[v] == Handling(m);
        assert s'.workers[v] == Handling(m);
      }
    }
  }

  lemma ExitKeepsInv(s: Sys, w: nat)
    requires Inv(s) && WorkerIs(s, w, Selecting)
    ensures Inv(s.(workers := s.workers[w := Exited]))
  {
    var s' := s.(workers := s.workers[w := Exited]);
    forall m ensures InFlight(s', m) <==> InFlight(s, m) {
      if InFlight(s, m) {
        var v :| 0 <= v < |s.workers| && s.workers[v] == Handling(m);
        assert s'.workers[v] == Handling(m);
      }
    }
  }

  lemma NextKeepsInv(s: Sys, step: Step)
    requires Inv(s) && Enabled(s, step)
    ensures Inv(Next(s, step)) && |Next(s, step).workers| == |s.workers| && Next(s, step).sync == s.sync
  {
    match step
    case Take(w) => TakeKeepsInv(s, w);
    case Settle(w, ending) => SettleKeepsInv(s, w, ending);
    case SeeClosed(w) => ExitKeepsInv(s, w);
    case SeeCancelled(w) => ExitKeepsInv(s, w);
    case _ =>
      var s' := Next(s, step);
      assert forall m :: (SettledFor(s', m) <==> SettledFor(s, m)) && (InFlight(s', m) <==> InFlight(s, m));
  }

  ghost predicate IsRun(s: Sys, steps: seq<Step>)
    decreases |steps|
  {
    steps != [] ==> Enabled(s, steps[0]) && IsRun(Next(s, steps[0]), steps[1..])
  }

  ghost function Run(s: Sys, steps: seq<Step>): Sys
    requires IsRun(s, steps)
    decreases |steps|
  {
    if steps == [] then s else Run(Next(s, steps[0]), steps[1..])
  }

  lemma {:induction false} RunKeepsInv(s: Sys, steps: seq<Step>)
    requires Inv(s) && IsRun(s, steps)
    ensures Inv(Run(s, steps)) && |Run(s, steps).workers| == |s.workers|
    decreases |steps|
  {
    hide Inv, Enabled, Next;
    if steps != [] {
      NextKeepsInv(s, steps[0]);
      RunKeepsInv(Next(s, steps[0]), steps[1..]);
    }
  }

  /** The main result: when the consumer is closed, every message taken from the channel has been
      acked or nacked exactly once. */
  lemma SettledOnceBeforeClose(s: Sys, n: nat, steps: seq<Step>, m: Delivery)
    requires Initial(s, n) && IsRun(s, steps) && Run(s, steps).consumerClosed && m in Run(s, steps).taken
    ensures var e := Run(s, steps);
            exists i :: 0 <= i < |e.settled| && e.settled[i].msg == m
                        && forall j :: 0 <= j < |e.settled| && e.settled[j].msg == m ==> j == i
  {
    hide Run;
    InitialInv(s, n);
    RunKeepsInv(s, steps);
    var e := Run(s, steps);
    assert !InFlight(e, m) && SettledFor(e, m);
    var i :| 0 <= i < |e.settled| && e.settled[i].msg == m;
  }

  /** The messages settled in a run, each with how its handling ended. */
  ghost function Handled(s: Sys, steps: seq<Step>): seq<(Delivery, Ending)>
    requires IsRun(s, steps)
    decreases |steps|
  {
    if steps == [] then []
    else
      (if steps[0].Settle? then [(s.workers[steps[0].worker].msg, steps[0].ending)] else [])
      + Handled(Next(s, steps[0]), steps[1..])
  }

  /** Acked if the handler succeeded, and nacked if it failed, or if the message could not be decoded or
      encoded. */
  predicate SettledBy(x: Settlement, handled: (Delivery, Ending)) {
    x == if handled.1 == HandlerSucceeds then Acked(handled.0) else Nacked(handled.0)
  }

  /** Over every run messages are settled by how their handling ended, in that order. */
  lemma {:induction false} AckedIff(s: Sys, steps: seq<Step>)
    requires IsRun(s, steps)
    ensures var e, handled, n := Run(s, steps), Handled(s, steps), |s.settled|;
            && |e.settled| == n + |handled| && s.settled <= e.settled
            && forall j :: 0 <= j < |handled| ==> SettledBy(e.settled[n + j], handled[j])
    decreases |steps|
  {
    hide SettledBy;
    if steps != [] {
      var s' := Next(s, steps[0]);
      AckedIff(s', steps[1..]);
      NextSettles(s, steps[0]);
      hide Next, Enabled, Run, IsRun;
      var e, rest := Run(s', steps[1..]), Handled(s', steps[1..]);
      if steps[0].Settle? {
        var first := (s.workers[steps[0].worker].msg, steps[0].ending);
        assert Handled(s, steps) == [first] + rest;
        assert e.settled[|s.settled|] == s'.settled[|s.settled|];
        forall j | 0 < j < |rest| + 1 ensures SettledBy(e.settled[|s.settled| + j], ([first] + rest)[j]) {
          assert ([first] + rest)[j] == rest[j - 1];
        }
      } else {
        assert [] + rest == rest;
      }
    }
  }

  lemma NextSettles(s: Sys, step: Step)
    requires Enabled(s, step)
    ensures !step.Settle? ==> Next(s, step).settled == s.settled
    ensures step.Settle? ==>
              && |Next(s, step).settled| == |s.settled| + 1 && s.settled <= Next(s, step).settled
              && SettledBy(Next(s, step).settled[|s.settled|], (s.workers[step.worker].msg, step.ending))
  {
  }

  /** At any time a message taken is settled or held by exactly one worker, of which there are at most
      the configured number, or one in sync mode. */
  lemma TakenIsHeldOrSettled(s: Sys, n: nat, steps: seq<Step>, m: Delivery)
    requires Initial(s, n) && IsRun(s, steps)
    ensures var e := Run(s, steps);
            && |e.workers| == (if s.sync then 1 else n)
            && (m in e.taken <==> (SettledFor(e, m) != InFlight(e, m)))
            && (forall v: nat, w: nat :: WorkerIs(e, v, Handling(m)) && WorkerIs(e, w, Handling(m)) ==> v == w)
  {
    hide Run;
    InitialInv(s, n);
    RunKeepsInv(s, steps);
  }

  /** After the close nothing is settled, or taken, any more. */
  lemma {:induction false} NothingAfterClose(s: Sys, steps: seq<Step>)
    requires Inv(s) && IsRun(s, steps) && s.consumerClosed
    ensures Run(s, steps).settled == s.settled && Run(s, steps).taken == s.taken && Run(s, steps).consumerClosed
    decreases |steps|
  {
    if steps != [] {
      NextKeepsInv(s, steps[0]);
      NothingAfterClose(Next(s, steps[0]), steps[1..]);
    }
  }

  // ---------------------------------------------------------------- draining

  /** The steps that the subscription itself takes. */
  predicate Own(step: Step) { !step.Deliver? && !step.CloseChannel? && !step.Cancel? }

  function Load(w: Worker): nat {
    match w
    case Exited => 0
    case Selecting => 1
    case Handling(_) => 2
  }

  function Loads(workers: seq<Worker>): (h: seq<nat>)
    ensures |h| == |workers| && forall i :: 0 <= i < |h| ==> h[i] == Load(workers[i])
  {
    seq(|workers|, i requires 0 <= i < |workers| => Load(workers[i]))
  }

  /** Bounds the steps still to come when nothing more is delivered. */
  function Measure(s: Sys): nat {
    2 * |s.channel| + Sum(Loads(s.workers)) + if s.consumerClosed then 0 else 1
  }

  lemma LoadsUpdate(workers: seq<Worker>, w: nat, to: Worker)
    requires w < |workers|
    ensures Sum(Loads(workers[w := to])) == Sum(Loads(workers)) - Load(workers[w]) + Load(to)
  {
    assert Loads(workers[w := to]) == Loads(workers)[w := Load(to)];
    SumUpdate(Loads(workers), w, Load(to));
  }

  lemma OwnStepCountsDown(s: Sys, step: Step)
    requires Enabled(s, step) && Own(step)
    ensures Measure(Next(s, step)) < Measure(s)
  {
    hide Sum, Loads;
    match step
    case Take(w) => LoadsUpdate(s.workers, w, Handling(s.channel[0]));
    case Settle(w, _) => LoadsUpdate(s.workers, w, Selecting);
    case SeeClosed(w) => LoadsUpdate(s.workers, w, Exited);
    case SeeCancelled(w) => LoadsUpdate(s.workers, w, Exited);
    case _ =>
  }

  /** Once cancelled and with nothing more delivered, the subscription takes only so many steps, and
      can stop nowhere but with the consumer closed. */
  lemma {:induction false} DrainsAndCloses(s: Sys, steps: seq<Step>)
    requires Inv(s) && !s.live && IsRun(s, steps)
    requires forall i :: 0 <= i < |steps| ==> Own(steps[i])
    ensures |steps| <= Measure(s)
    ensures (forall step :: Own(step) ==> !Enabled(Run(s, steps), step)) <==> Run(s, steps).consumerClosed
    decreases |steps|
  {
    hide Measure, Inv;
    if steps != [] {
      OwnStepCountsDown(s, steps[0]);
      NextKeepsInv(s, steps[0]);
      assert forall i :: 0 <= i < |steps| - 1 ==> steps[1..][i] == steps[i + 1];
      DrainsAndCloses(Next(s, steps[0]), steps[1..]);
    } else {
      StopsOnlyClosed(s);
    }
  }

  lemma StopsOnlyClosed(s: Sys)
    requires Inv(s) && !s.live
    ensures (forall step :: Own(step) ==> !Enabled(s, step)) <==> s.consumerClosed
  {
    if !s.consumerClosed {
      if w :| 0 <= w < |s.workers| && !s.workers[w].Exited? {
        assert Enabled(s, SeeCancelled(w)) || Enabled(s, Settle(w, HandlerSucceeds));
      } else {
        assert Enabled(s, CloseConsumer);
      }
    }
  }
}
