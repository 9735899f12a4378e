/** Bulk reads: one goroutine per request, limited by the tokens in a channel, as a step system. */
module BulkGet {
  import opened Wrappers
  import opened Counting

  datatype Answer = Found(item: string) | Absent | GetFailed(message: string)

  datatype Response = Response(key: string, data: Option<string>, error: Option<string>)

  const BLANK := Response("", None, None)

  datatype Task = NotStarted | Started | Calling | Wrote | Released

  /** `parallelism` is the capacity of the channel, `tokens` what it holds; `next` is the request the
      caller starts next, `drained` how many tokens it has put in afterwards. */
  datatype Sys = Sys(keys: seq<string>, parallelism: nat, tokens: nat, next: nat, drained: nat,
                     tasks: seq<Task>, res: seq<Response>, returned: bool)

  /** Without a positive limit, all requests run at once. */
  function Start(keys: seq<string>, limit: int): Sys {
    Sys(keys, if limit <= 0 then |keys| else limit, 0, 0, 0,
        seq(|keys|, _ => NotStarted), seq(|keys|, _ => BLANK), false)
  }

  /** `GetReturns` carries what the store answered. */
  datatype Step =
    | Spawn | SetKey(task: nat) | GetReturns(task: nat, answer: Answer) | Release(task: nat) | Drain | Return

  predicate TaskIs(s: Sys, i: nat, t: Task) { i < |s.tasks| && s.tasks[i] == t }

  predicate Enabled(s: Sys, step: Step) {
    && !s.returned
    && match step
       case Spawn => s.next < |s.keys| && s.next < |s.tasks| && s.tokens < s.parallelism
       case SetKey(i) => TaskIs(s, i, Started) && i < |s.res| && i < |s.keys|
       case GetReturns(i, _) => TaskIs(s, i, Calling) && i < |s.res|
       case Release(i) => TaskIs(s, i, Wrote) && s.tokens > 0
       case Drain => s.next == |s.keys| && s.drained < s.parallelism && s.tokens < s.parallelism
       case Return => s.next == |s.keys| && s.drained == s.parallelism
  }

  function Write(r: Response, answer: Answer): Response {
    match answer
    case GetFailed(message) => r.(error := Some(message))
    case Absent => r
    case Found(item) => r.(data := Some(item))
  }

  function Next(s: Sys, step: Step): Sys
    requires Enabled(s, step)
  {
    match step
    case Spawn => s.(tokens := s.tokens + 1, tasks := s.tasks[s.next := Started], next := s.next + 1)
    case SetKey(i) => s.(tasks := s.tasks[i := Calling], res := s.res[i := s.res[i].(key := s.keys[i])])
    case GetReturns(i, answer) => s.(tasks := s.tasks[i := Wrote], res := s.res[i := Write(s.res[i], answer)])
    case Release(i) => s.(tasks := s.tasks[i := Released], tokens := s.tokens - 1)
    case Drain => s.(tokens := s.tokens + 1, drained := s.drained + 1)
    case Return => s.(returned := true)
  }

  // ---------------------------------------------------------------- what every step keeps

  function Holds(t: Task): nat { if t.NotStarted? || t.Released? then 0 else 1 }

  function Holding(tasks: seq<Task>): (h: seq<nat>)
    ensures |h| == |tasks| && forall i :: 0 <= i < |h| ==> h[i] == Holds(tasks[i])
  {
    seq(|tasks|, i requires 0 <= i < |tasks| => Holds(tasks[i]))
  }

  /** What a task has made of its response, the store answering `answer`. */
  function Stage(key: string, t: Task, answer: Answer): Response {
    if t.NotStarted? || t.Started? then BLANK
    else if t.Calling? then Response(key, None, None)
    else Write(Response(key, None, None), answer)
  }

  /** `answers` are the store's answers, in request order, as far as they have been given. */
  ghost predicate Inv(s: Sys, answers: seq<Answer>) {
    && |s.tasks| == |s.res| == |answers| == |s.keys| && s.next <= |s.keys| && s.drained <= s.parallelism
    && s.tokens == Sum(Holding(s.tasks)) + s.drained && s.tokens <= s.parallelism
    && (s.drained > 0 ==> s.next == |s.keys|)
    && (forall i :: 0 <= i < |s.tasks| ==> (s.tasks[i].NotStarted? <==> i >= s.next))
    && (forall i :: 0 <= i < |s.tasks| ==> s.res[i] == Stage(s.keys[i], s.tasks[i], answers[i]))
    && (s.parallelism == 0 ==> s.keys == [])
    && (s.returned ==> s.next == |s.keys| && s.drained == s.parallelism)
  }

  function Record(answers: seq<Answer>, step: Step): seq<Answer> {
    if step.GetReturns? && step.task < |answers| then answers[step.task := step.answer] else answers
  }

  lemma HoldingUpdate(tasks: seq<Task>, i: nat, t: Task)
    requires i < |tasks|
    ensures Sum(Holding(tasks[i := t])) == Sum(Holding(tasks)) - Holds(tasks[i]) + Holds(t)
    ensures Holds(tasks[i]) <= Sum(Holding(tasks))
  {
    assert Holding(tasks[i := t]) == Holding(tasks)[i := Holds(t)];
    SumUpdate(Holding(tasks), i, Holds(t));
    SumUpdate(Holding(tasks), i, 0);
  }

  lemma StartInv(keys: seq<string>, limit: int, answers: seq<Answer>)
    requires |answers| == |keys|
    ensures Inv(Start(keys, limit), answers)
  {
    SumZero(Holding(Start(keys, limit).tasks));
  }

  lemma NextKeepsInv(s: Sys, answers: seq<Answer>, step: Step)
    requires Inv(s, answers) && Enabled(s, step)
    ensures Inv(Next(s, step), Record(answers, step))
  {
    hide Sum, Holding;
    match step
    case Spawn => HoldingUpdate(s.tasks, s.next, Started);
    case SetKey(i) => HoldingUpdate(s.tasks, i, Calling);
    case GetReturns(i, _) => HoldingUpdate(s.tasks, i, Wrote);
    case Release(i) => HoldingUpdate(s.tasks, i, Released);
    case _ =>
  }

  ghost predicate IsRun(s: Sys, steps: seq<Step>)
    decreases |steps|
  {
    steps != [] ==> Enabled(s, steps[0]) && IsRun(Next(s, steps[0]), steps[1..])
  }

  ghost function Run(s: Sys, steps: seq<Step>): Sys
    requires IsRun(s, steps)
    decreases |steps|
  {
    if steps == [] then s else Run(Next(s, steps[0]), steps[1..])
  }

  ghost function Answers(answers: seq<Answer>, steps: seq<Step>): seq<Answer>
    decreases |steps|
  {
    if steps == [] then answers else Answers(Record(answers, steps[0]), steps[1..])
  }

  lemma {:induction false} RunKeepsInv(s: Sys, answers: seq<Answer>, steps: seq<Step>)
    requires Inv(s, answers) && IsRun(s, steps)
    ensures Inv(Run(s, steps), Answers(answers, steps)) && Run(s, steps).keys == s.keys
            && Run(s, steps).parallelism == s.parallelism
    decreases |steps|
  {
    hide Inv, Enabled;
    if steps != [] {
      NextKeepsInv(s, answers, steps[0]);
      RunKeepsInv(Next(s, steps[0]), Record(answers, steps[0]), steps[1..]);
      NextFrame(s, steps[0]);
    }
  }

  lemma NextFrame(s: Sys, step: Step)
    requires Enabled(s, step)
    ensures Next(s, step).keys == s.keys && Next(s, step).parallelism == s.parallelism
  {
  }

  /** How many calls of the store are under way. */
  function Calls(tasks: seq<Task>): nat {
    if tasks == [] then 0 else (if tasks[0].Calling? then 1 else 0) + Calls(tasks[1..])
  }

  lemma {:induction false} CallsAtMostHolding(tasks: seq<Task>)
    ensures Calls(tasks) <= Sum(Holding(tasks))
  {
    if tasks != [] {
      CallsAtMostHolding(tasks[1..]);
      assert Holding(tasks)[1..] == Holding(tasks[1..]);
    }
  }

  /** At no time of any run are more calls under way than a positive limit allows. */
  lemma WithinLimit(keys: seq<string>, limit: int, steps: seq<Step>)
    requires IsRun(Start(keys, limit), steps) && limit > 0
    ensures Calls(Run(Start(keys, limit), steps).tasks) <= limit
  {
    var none := seq(|keys|, _ => Absent);
    StartInv(keys, limit, none);
    RunKeepsInv(Start(keys, limit), none, steps);
    CallsAtMostHolding(Run(Start(keys, limit), steps).tasks);
  }

  /** Another call starts whenever fewer than a positive limit hold a token, and without a limit at once. */
  lemma StartsWhenFree(keys: seq<string>, limit: int, steps: seq<Step>)
    requires IsRun(Start(keys, limit), steps)
    ensures var e := Run(Start(keys, limit), steps);
            e.next < |keys| && !e.returned && (limit <= 0 || Sum(Holding(e.tasks)) < limit) ==> Enabled(e, Spawn)
  {
    var none := seq(|keys|, _ => Absent);
    StartInv(keys, limit, none);
    RunKeepsInv(Start(keys, limit), none, steps);
    var e := Run(Start(keys, limit), steps);
    if e.next < |keys| {
      SumOnes(Holding(e.tasks));
      assert Holding(e.tasks)[e.next] == 0;
    }
  }

  predicate Unanswered(t: Task) { t.NotStarted? || t.Started? || t.Calling? }

  /** The only step of the run in which the store answers request `i` is step `j`. */
  ghost predicate AnsweredAt(steps: seq<Step>, i: nat, j: nat) {
    && j < |steps| && steps[j].GetReturns? && steps[j].task == i
    && forall m :: 0 <= m < |steps| && steps[m].GetReturns? && steps[m].task == i ==> m == j
  }

  lemma AnsweredLater(steps: seq<Step>, i: nat, j: nat)
    requires steps != [] && !(steps[0].GetReturns? && steps[0].task == i) && AnsweredAt(steps[1..], i, j)
    ensures AnsweredAt(steps, i, j + 1)
  {
    assert forall m :: 1 <= m < |steps| ==> steps[m] == steps[1..][m - 1];
  }

  lemma AnsweredFirst(steps: seq<Step>, i: nat)
    requires steps != [] && steps[0].GetReturns? && steps[0].task == i
    requires forall m :: 0 <= m < |steps| - 1 ==> !(steps[1..][m].GetReturns? && steps[1..][m].task == i)
    ensures AnsweredAt(steps, i, 0)
  {
    assert forall m :: 1 <= m < |steps| ==> steps[m] == steps[1..][m - 1];
  }

  lemma AnswerStep(s: Sys, step: Step, i: nat)
    requires Enabled(s, step) && i < |s.tasks| && Unanswered(s.tasks[i])
    ensures |Next(s, step).tasks| == |s.tasks|
    ensures Unanswered(Next(s, step).tasks[i]) <==> !(step.GetReturns? && step.task == i)
  {
  }

  lemma {:induction false} AnsweredOnce(s: Sys, answers: seq<Answer>, steps: seq<Step>, i: nat) returns (j: nat)
    requires Inv(s, answers) && IsRun(s, steps) && i < |s.tasks|
    requires Unanswered(s.tasks[i]) && i < |Run(s, steps).tasks| && !Unanswered(Run(s, steps).tasks[i])
    ensures AnsweredAt(steps, i, j)
    ensures |Answers(answers, steps)| == |answers| && Answers(answers, steps)[i] == steps[j].answer
    decreases |steps|
  {
    NextKeepsInv(s, answers, steps[0]);
    AnswerStep(s, steps[0], i);
    assert |answers| == |s.tasks|;
    hide Next, Enabled, Unanswered, Inv, AnsweredAt;
    var s' := Next(s, steps[0]);
    if Unanswered(s'.tasks[i]) {
      j := AnsweredOnce(s', Record(answers, steps[0]), steps[1..], i);
      AnsweredLater(steps, i, j);
      AnsweredIsThere(steps[1..], i, j);
      j := j + 1;
    } else {
      j := 0;
      NoMoreAnswers(s', Record(answers, steps[0]), steps[1..], i);
      AnsweredFirst(steps, i);
    }
  }

  lemma AnsweredIsThere(steps: seq<Step>, i: nat, j: nat)
    requires AnsweredAt(steps, i, j)
    ensures j < |steps| && steps[j].GetReturns?
  {
  }

  lemma {:induction false} NoMoreAnswers(s: Sys, answers: seq<Answer>, steps: seq<Step>, i: nat)
    requires Inv(s, answers) && IsRun(s, steps) && i < |s.tasks| && !Unanswered(s.tasks[i])
    ensures forall m :: 0 <= m < |steps| ==> !(steps[m].GetReturns? && steps[m].task == i)
    ensures |Answers(answers, steps)| == |answers| && Answers(answers, steps)[i] == answers[i]
    decreases |steps|
  {
    if steps != [] {
      NextKeepsInv(s, answers, steps[0]);
      NoMoreAnswers(Next(s, steps[0]), Record(answers, steps[0]), steps[1..], i);
      assert forall m :: 1 <= m < |steps| ==> steps[m] == steps[1..][m - 1];
    }
  }

  /** A response with the key, and what the store answered: the item, or its error, or neither. */
  predicate CarriesAnswer(r: Response, key: string, answer: Answer) {
    && r.key == key
    && (answer.Found? ==> r.data == Some(answer.item) && r.error == None)
    && (answer.Absent? ==> r.data == None && r.error == None)
    && (answer.GetFailed? ==> r.data == None && r.error == Some(answer.message))
  }

  /** The main result: under every interleaving, when the call returns every request has been answered
      once, and `res[i]` holds the key and the store's answer of request `i`. */
  lemma ReturnsAnswers(keys: seq<string>, limit: int, steps: seq<Step>, i: nat) returns (j: nat)
    requires IsRun(Start(keys, limit), steps) && Run(Start(keys, limit), steps).returned && i < |keys|
    ensures |Run(Start(keys, limit), steps).res| == |keys|
    ensures AnsweredAt(steps, i, j)
    ensures CarriesAnswer(Run(Start(keys, limit), steps).res[i], keys[i], steps[j].answer)
  {
    var none := seq(|keys|, _ => Absent);
    var s := Start(keys, limit);
    StartInv(keys, limit, none);
    RunKeepsInv(s, none, steps);
    var e := Run(s, steps);
    SumZero(Holding(e.tasks));
    assert Holding(e.tasks)[i] == 0;
    j := AnsweredOnce(s, none, steps, i);
  }

  // ---------------------------------------------------------------- it always returns

  function Todo(t: Task): nat {
    match t
    case NotStarted => 4
    case Started => 3
    case Calling => 2
    case Wrote => 1
    case Released => 0
  }

  function Remaining(tasks: seq<Task>): (r: seq<nat>)
    ensures |r| == |tasks| && forall i :: 0 <= i < |r| ==> r[i] == Todo(tasks[i])
  {
    seq(|tasks|, i requires 0 <= i < |tasks| => Todo(tasks[i]))
  }

  /** The steps that are left. */
  ghost function Measure(s: Sys): int {
    Sum(Remaining(s.tasks)) + (s.parallelism - s.drained) + if s.returned then 0 else 1
  }

  lemma RemainingUpdate(tasks: seq<Task>, i: nat, t: Task)
    requires i < |tasks|
    ensures Sum(Remaining(tasks[i := t])) == Sum(Remaining(tasks)) - Todo(tasks[i]) + Todo(t)
  {
    assert Remaining(tasks[i := t]) == Remaining(tasks)[i := Todo(t)];
    SumUpdate(Remaining(tasks), i, Todo(t));
  }

  lemma StepMakesProgress(s: Sys, answers: seq<Answer>, step: Step)
    requires Inv(s, answers) && Enabled(s, step)
    ensures Measure(Next(s, step)) == Measure(s) - 1
  {
    hide Sum, Remaining, Holding;
    match step
    case Spawn => RemainingUpdate(s.tasks, s.next, Started);
    case SetKey(i) => RemainingUpdate(s.tasks, i, Calling);
    case GetReturns(i, _) => RemainingUpdate(s.tasks, i, Wrote);
    case Release(i) => RemainingUpdate(s.tasks, i, Released);
    case _ =>
  }

  /** No deadlock: until the call returns, some step is possible, whatever the store answers. */
  lemma NoDeadlock(s: Sys, answers: seq<Answer>, answer: Answer) returns (step: Step)
    requires Inv(s, answers) && !s.returned
    ensures Enabled(s, step)
  {
    if i :| 0 <= i < |s.tasks| && Holds(s.tasks[i]) == 1 {
      HoldingUpdate(s.tasks, i, Released);
      step := if s.tasks[i].Started? then SetKey(i)
              else if s.tasks[i].Calling? then GetReturns(i, answer)
              else Release(i);
    } else {
      SumZero(Holding(s.tasks));
      step := if s.next < |s.keys| then Spawn else if s.drained < s.parallelism then Drain else Return;
    }
  }

  /** Every run that goes on as long as it can returns, after exactly this many steps. */
  lemma {:induction false} EveryMaximalRunReturns(s: Sys, answers: seq<Answer>, steps: seq<Step>)
    requires Inv(s, answers) && IsRun(s, steps)
    ensures Measure(Run(s, steps)) == Measure(s) - |steps| && Measure(Run(s, steps)) >= 0
    ensures (forall step :: !Enabled(Run(s, steps), step)) <==> Run(s, steps).returned
    decreases |steps|
  {
    if steps != [] {
      NextKeepsInv(s, answers, steps[0]);
      StepMakesProgress(s, answers, steps[0]);
      EveryMaximalRunReturns(Next(s, steps[0]), Record(answers, steps[0]), steps[1..]);
    } else if !s.returned {
      var step := NoDeadlock(s, answers, Absent);
      assert Enabled(s, step);
    }
  }
}
