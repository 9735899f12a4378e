/** Bulk writes and deletes: one goroutine per request, errors collected through a channel, as a step
    system. */
module BulkSetDelete {
  import opened Wrappers
  import opened Counting

  /** What an operation ended with: nothing, or an error for its key. */
  type Ending = Option<(string, string)>

  datatype Task = NotStarted | Running | Sent | Released

  /** `limit` bounds the tokens when positive; `errCh` is the error channel and `errs` what the caller
      has received. */
  datatype Sys = Sys(keys: seq<string>, limit: int, tokens: nat, next: nat, tasks: seq<Task>,
                     errCh: seq<Ending>, errs: seq<Ending>, returned: bool)

  function Start(keys: seq<string>, limit: int): Sys {
    Sys(keys, limit, 0, 0, seq(|keys|, _ => NotStarted), [], [], false)
  }

  /** `OperationEnds` carries the error message, if any. */
  datatype Step = Spawn | OperationEnds(task: nat, error: Option<string>) | Release(task: nat) | Receive | Return

  predicate TaskIs(s: Sys, i: nat, t: Task) { i < |s.tasks| && s.tasks[i] == t }

  predicate Enabled(s: Sys, step: Step) {
    && !s.returned
    && match step
       case Spawn => s.next < |s.keys| && s.next < |s.tasks| && (s.limit > 0 ==> s.tokens < s.limit)
       case OperationEnds(i, _) => TaskIs(s, i, Running) && i < |s.keys| && |s.errCh| < |s.keys|
       case Release(i) => TaskIs(s, i, Sent) && (s.limit > 0 ==> s.tokens > 0)
       case Receive => s.next == |s.keys| && |s.errs| < |s.keys| && s.errCh != []
       case Return => s.next == |s.keys| && |s.errs| == |s.keys|
  }

  function EndingOf(key: string, error: Option<string>): Ending {
    if error.Some? then Some((key, error.value)) else None
  }

  function Next(s: Sys, step: Step): Sys
    requires Enabled(s, step)
  {
    match step
    case Spawn =>
      s.(tokens := if s.limit > 0 then s.tokens + 1 else s.tokens,
         tasks := s.tasks[s.next := Running], next := s.next + 1)
    case OperationEnds(i, error) => s.(tasks := s.tasks[i := Sent], errCh := s.errCh + [EndingOf(s.keys[i], error)])
    case Release(i) => s.(tasks := s.tasks[i := Released], tokens := if s.limit > 0 then s.tokens - 1 else s.tokens)
    case Receive => s.(errs := s.errs + [s.errCh[0]], errCh := s.errCh[1..])
    case Return => s.(returned := true)
  }

  /** What errors.Join keeps. */
  function Joined(errs: seq<Ending>): seq<Ending> {
    if errs == [] then [] else (if errs[0].Some? then [errs[0]] else []) + Joined(errs[1..])
  }

  // ---------------------------------------------------------------- what every step keeps

  function Holds(t: Task): nat { if t.Running? || t.Sent? then 1 else 0 }

  function Executes(t: Task): nat { if t.Running? then 1 else 0 }

  function Ended(t: Task): nat { if t.Sent? || t.Released? then 1 else 0 }

  function Todo(t: Task): nat {
    match t
    case NotStarted => 3
    case Running => 2
    case Sent => 1
    case Released => 0
  }

  function Map(f: Task -> nat, tasks: seq<Task>): (m: seq<nat>)
    ensures |m| == |tasks| && forall i :: 0 <= i < |m| ==> m[i] == f(tasks[i])
  {
    seq(|tasks|, i requires 0 <= i < |tasks| => f(tasks[i]))
  }

  lemma MapUpdate(f: Task -> nat, tasks: seq<Task>, i: nat, t: Task)
    requires i < |tasks|
    ensures Sum(Map(f, tasks[i := t])) == Sum(Map(f, tasks)) - f(tasks[i]) + f(t)
    ensures f(tasks[i]) <= Sum(Map(f, tasks))
  {
    assert Map(f, tasks[i := t]) == Map(f, tasks)[i := f(t)];
    SumUpdate(Map(f, tasks), i, f(t));
    SumUpdate(Map(f, tasks), i, 0);
  }

  /** `endings` are the results of the operations that have ended, in the order they ended. */
  ghost predicate Inv(s: Sys, endings: seq<Ending>) {
    && |s.tasks| == |s.keys| && s.next <= |s.keys|
    && (s.limit > 0 ==> s.tokens == Sum(Map(Holds, s.tasks)) && s.tokens <= s.limit)
    && (forall i :: 0 <= i < |s.tasks| ==> (s.tasks[i].NotStarted? <==> i >= s.next))
    && endings == s.errs + s.errCh
    && |endings| == Sum(Map(Ended, s.tasks))
    && (s.errs != [] ==> s.next == |s.keys|)
    && (s.returned ==> s.next == |s.keys| && |s.errs| == |s.keys|)
  }

  function Record(endings: seq<Ending>, s: Sys, step: Step): seq<Ending>
    requires Enabled(s, step)
  {
    if step.OperationEnds? then endings + [EndingOf(s.keys[step.task], step.error)] else endings
  }

  lemma StartInv(keys: seq<string>, limit: int)
    ensures Inv(Start(keys, limit), [])
  {
    var tasks := Start(keys, limit).tasks;
    SumZero(Map(Holds, tasks));
    SumZero(Map(Ended, tasks));
  }

  lemma EndedBound(tasks: seq<Task>)
    ensures Sum(Map(Ended, tasks)) <= |tasks|
    ensures Sum(Map(Ended, tasks)) == |tasks| <==> forall i :: 0 <= i < |tasks| ==> Ended(tasks[i]) == 1
  {
    SumOnes(Map(Ended, tasks));
    assert forall i :: 0 <= i < |tasks| ==> Map(Ended, tasks)[i] == Ended(tasks[i]);
  }

  lemma NextKeepsInv(s: Sys, endings: seq<Ending>, step: Step)
    requires Inv(s, endings) && Enabled(s, step)
    ensures Inv(Next(s, step), Record(endings, s, step))
  {
    hide Sum, Map;
    match step
    case Spawn =>
      MapUpdate(Holds, s.tasks, s.next, Running);
      MapUpdate(Ended, s.tasks, s.next, Running);
    case OperationEnds(i, error) =>
      MapUpdate(Holds, s.tasks, i, Sent);
      MapUpdate(Ended, s.tasks, i, Sent);
    case Release(i) =>
      MapUpdate(Holds, s.tasks, i, Released);
      MapUpdate(Ended, s.tasks, i, Released);
    case Receive =>
      assert s.errCh == [s.errCh[0]] + s.errCh[1..];
    case Return =>
  }

  ghost predicate IsRun(s: Sys, steps: seq<Step>)
    decreases |steps|
  {
    steps != [] ==> Enabled(s, steps[0]) && IsRun(Next(s, steps[0]), steps[1..])
  }

  ghost function Run(s: Sys, steps: seq<Step>): Sys
    requires IsRun(s, steps)
    decreases |steps|
  {
    if steps == [] then s else Run(Next(s, steps[0]), steps[1..])
  }

  /** The results of the operations of a run, in the order they ended. */
  ghost function Endings(s: Sys, steps: seq<Step>): seq<Ending>
    requires IsRun(s, steps)
    decreases |steps|
  {
    if steps == [] then []
    else
      var ended := if steps[0].OperationEnds? then [EndingOf(s.keys[steps[0].task], steps[0].error)] else [];
      ended + Endings(Next(s, steps[0]), steps[1..])
  }

  lemma {:induction false} RunKeepsInv(s: Sys, endings: seq<Ending>, steps: seq<Step>)
    requires Inv(s, endings) && IsRun(s, steps)
    ensures Inv(Run(s, steps), endings + Endings(s, steps)) && Run(s, steps).keys == s.keys
            && Run(s, steps).limit == s.limit
    decreases |steps|
  {
    hide Inv, Enabled;
    if steps != [] {
      NextKeepsInv(s, endings, steps[0]);
      RunKeepsInv(Next(s, steps[0]), Record(endings, s, steps[0]), steps[1..]);
      var rest := Endings(Next(s, steps[0]), steps[1..]);
      assert endings + Endings(s, steps) == Record(endings, s, steps[0]) + rest;
      NextFrame(s, steps[0]);
    } else {
      assert endings + [] == endings;
    }
  }

  lemma NextFrame(s: Sys, step: Step)
    requires Enabled(s, step)
    ensures Next(s, step).keys == s.keys && Next(s, step).limit == s.limit
  {
  }

  /** At no time of any run are more operations running than a positive limit allows. */
  lemma WithinLimit(keys: seq<string>, limit: int, steps: seq<Step>)
    requires IsRun(Start(keys, limit), steps) && limit > 0
    ensures Sum(Map(Executes, Run(Start(keys, limit), steps).tasks)) <= limit
  {
    StartInv(keys, limit);
    RunKeepsInv(Start(keys, limit), [], steps);
    ExecutesAtMostHolds(Run(Start(keys, limit), steps).tasks);
  }

  /** Another operation starts whenever fewer than a positive limit hold a token, and without a limit at
      once. */
  lemma StartsWhenFree(keys: seq<string>, limit: int, steps: seq<Step>)
    requires IsRun(Start(keys, limit), steps)
    ensures var e := Run(Start(keys, limit), steps);
            e.next < |keys| && !e.returned && (limit <= 0 || Sum(Map(Holds, e.tasks)) < limit) ==> Enabled(e, Spawn)
  {
    StartInv(keys, limit);
    RunKeepsInv(Start(keys, limit), [], steps);
  }

  lemma {:induction false} ExecutesAtMostHolds(tasks: seq<Task>)
    ensures Sum(Map(Executes, tasks)) <= Sum(Map(Holds, tasks))
  {
    if tasks != [] {
      ExecutesAtMostHolds(tasks[1..]);
      assert Map(Executes, tasks)[1..] == Map(Executes, tasks[1..]);
      assert Map(Holds, tasks)[1..] == Map(Holds, tasks[1..]);
    }
  }

  /** The failures of a run, each the key of the operation and its error, in the order they happened. */
  ghost function Failures(s: Sys, steps: seq<Step>): seq<(string, string)>
    requires IsRun(s, steps)
    decreases |steps|
  {
    if steps == [] then []
    else
      var first := if steps[0].OperationEnds? && steps[0].error.Some?
                   then [(s.keys[steps[0].task], steps[0].error.value)] else [];
      first + Failures(Next(s, steps[0]), steps[1..])
  }

  lemma {:induction false} JoinedConcat(a: seq<Ending>, b: seq<Ending>)
    ensures Joined(a + b) == Joined(a) + Joined(b)
  {
    if a == [] {
      assert a + b == b;
    } else {
      assert (a + b)[1..] == a[1..] + b;
      JoinedConcat(a[1..], b);
    }
  }

  lemma JoinedOne(e: Ending)
    ensures Joined([e]) == if e.Some? then [e] else []
  {
    assert [e][1..] == [];
  }

  lemma {:induction false} JoinedAreFailures(s: Sys, steps: seq<Step>)
    requires IsRun(s, steps)
    ensures |Joined(Endings(s, steps))| == |Failures(s, steps)|
    ensures forall i :: 0 <= i < |Failures(s, steps)| ==> Joined(Endings(s, steps))[i] == Some(Failures(s, steps)[i])
    decreases |steps|
  {
    hide Next, Joined;
    if steps == [] {
      JoinedNone();
    } else {
      var rest := Endings(Next(s, steps[0]), steps[1..]);
      JoinedAreFailures(Next(s, steps[0]), steps[1..]);
      if steps[0].OperationEnds? {
        var e := EndingOf(s.keys[steps[0].task], steps[0].error);
        JoinedConcat([e], rest);
        JoinedOne(e);
      } else {
        assert [] + rest == rest;
      }
    }
  }

  lemma JoinedNone()
    ensures Joined([]) == []
  {
  }

  /** The main result: under every interleaving, when the call returns every operation has ended, and the
      joined error holds exactly the failures of the run, key and error, in the order they happened; so
      there is no error exactly when all operations succeeded. */
  lemma ReturnsFailures(keys: seq<string>, limit: int, steps: seq<Step>)
    requires IsRun(Start(keys, limit), steps) && Run(Start(keys, limit), steps).returned
    ensures var e, failures := Run(Start(keys, limit), steps), Failures(Start(keys, limit), steps);
            && |e.tasks| == |keys| && (forall i :: 0 <= i < |keys| ==> Ended(e.tasks[i]) == 1)
            && |Joined(e.errs)| == |failures|
            && (forall i :: 0 <= i < |failures| ==> Joined(e.errs)[i] == Some(failures[i]))
  {
    var s := Start(keys, limit);
    StartInv(keys, limit);
    RunKeepsInv(s, [], steps);
    var e, endings := Run(s, steps), Endings(s, steps);
    assert [] + endings == endings;
    EndedBound(e.tasks);
    assert |e.errCh| == 0 && e.errs + [] == e.errs;
    assert endings == e.errs;
    JoinedAreFailures(s, steps);
  }

  // ---------------------------------------------------------------- it always returns

  /** The steps that are left. */
  ghost function Measure(s: Sys): int {
    Sum(Map(Todo, s.tasks)) + (|s.keys| - |s.errs|) + if s.returned then 0 else 1
  }

  lemma StepMakesProgress(s: Sys, endings: seq<Ending>, step: Step)
    requires Inv(s, endings) && Enabled(s, step)
    ensures Measure(Next(s, step)) == Measure(s) - 1
  {
    hide Sum, Map;
    match step
    case Spawn => MapUpdate(Todo, s.tasks, s.next, Running);
    case OperationEnds(i, _) => MapUpdate(Todo, s.tasks, i, Sent);
    case Release(i) => MapUpdate(Todo, s.tasks, i, Released);
    case _ =>
  }

  /** No deadlock: until the call returns some step is possible, however the operations end. */
  lemma NoDeadlock(s: Sys, endings: seq<Ending>, error: Option<string>) returns (step: Step)
    requires Inv(s, endings) && !s.returned
    ensures Enabled(s, step)
  {
    EndedBound(s.tasks);
    if i :| 0 <= i < |s.tasks| && Holds(s.tasks[i]) == 1 {
      MapUpdate(Holds, s.tasks, i, Released);
      if s.tasks[i].Running? {
        assert Ended(s.tasks[i]) != 1;
        step := OperationEnds(i, error);
      } else {
        step := Release(i);
      }
    } else {
      SumZero(Map(Holds, s.tasks));
      if s.next < |s.keys| {
        step := Spawn;
      } else if |s.errs| < |s.keys| {
        assert forall i :: 0 <= i < |s.tasks| ==> Ended(s.tasks[i]) == 1;
        step := Receive;
      } else {
        step := Return;
      }
    }
  }

  /** Every run is finite, and one that has gone on as long as it can has returned. */
  lemma {:induction false} EveryMaximalRunReturns(s: Sys, endings: seq<Ending>, steps: seq<Step>)
    requires Inv(s, endings) && IsRun(s, steps)
    ensures Measure(Run(s, steps)) == Measure(s) - |steps|
    ensures Measure(Run(s, steps)) >= 0
    ensures (forall step :: !Enabled(Run(s, steps), step)) <==> Run(s, steps).returned
    decreases |steps|
  {
    if steps != [] {
      NextKeepsInv(s, endings, steps[0]);
      StepMakesProgress(s, endings, steps[0]);
      EveryMaximalRunReturns(Next(s, steps[0]), Record(endings, s, steps[0]), steps[1..]);
    } else {
      EndedBound(s.tasks);
      if !s.returned {
        var step := NoDeadlock(s, endings, None);
        assert Enabled(s, step);
      }
    }
  }
}
