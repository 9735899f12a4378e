/** The RabbitMQ component's connection state as values, together with what the broker has seen. Each
    step happens under the channel mutex. */
module RabbitModel {
  import opened Wrappers

  /** `dialed` connections were made so far, numbered from 0; connection and channel share a number.
      `open` are those still open, `exchanges` what was declared on each channel, and `made[n]` is
      the connection made by the reconnect that raised the count from n. */
  datatype Sys = Sys(
    connection: Option<nat>, channel: Option<nat>, connectionCount: nat, declaredExchanges: set<string>, closed: bool,
    dialed: nat, open: set<nat>, exchanges: map<nat, set<string>>, made: seq<nat>)

  const INITIAL := Sys(None, None, 0, {}, false, 0, {}, map[], [])

  /** What the outside world answers during a reconnect. */
  datatype DialEnv =
    DialEnv(channelCloseFails: bool, tlsFails: bool, dialFails: bool, publisherConfirm: bool, confirmFails: bool)

  datatype ReconnectOutcome = Connected | Stopped | Stale | ResetFailed | TLSFailed | DialFailed | ConfirmFailed

  function Reset(s: Sys): Sys {
    s.(declaredExchanges := {}, channel := None, connection := None,
       open := if s.connection.Some? then s.open - {s.connection.value} else s.open)
  }

  function Dial(s: Sys): Sys {
    s.(connection := Some(s.dialed), channel := Some(s.dialed), dialed := s.dialed + 1,
       open := s.open + {s.dialed}, exchanges := s.exchanges[s.dialed := {}])
  }

  function Reconnect(s: Sys, reference: nat, env: DialEnv): (Sys, ReconnectOutcome) {
    if s.closed then (s, Stopped)
    else if reference != s.connectionCount then (s, Stale)
    else if s.channel.Some? && env.channelCloseFails then (Reset(s), ResetFailed)
    else if env.tlsFails then (Reset(s), TLSFailed)
    else if env.dialFails then (Reset(Reset(s)), DialFailed)
    else
      var d := Dial(Reset(s));
      if env.publisherConfirm && env.confirmFails then (Reset(d), ConfirmFailed)
      else (d.(connectionCount := d.connectionCount + 1, made := d.made + [d.dialed - 1]), Connected)
  }

  /** Declares the exchanges in turn, up to the first failure. */
  function Declare(s: Sys, names: seq<string>, fails: seq<bool>): (Sys, bool)
    requires |names| == |fails| && s.channel.Some?
    decreases |names|
  {
    if names == [] then (s, true)
    else if names[0] in s.declaredExchanges then Declare(s, names[1..], fails[1..])
    else if fails[0] then (s, false)
    else
      var ch := s.channel.value;
      var known := if ch in s.exchanges then s.exchanges[ch] else {};
      Declare(s.(declaredExchanges := s.declaredExchanges + {names[0]},
                 exchanges := s.exchanges[ch := known + {names[0]}]),
              names[1..], fails[1..])
  }

  /** What publishSync and ensureSubscription hand back for a later reconnect. */
  datatype Seen = Seen(channel: Option<nat>, connectionCount: nat)

  /** Publishing to, or subscribing on, exchanges; `laterFails` stands for everything that can go
      wrong afterwards. */
  function Use(s: Sys, names: seq<string>, fails: seq<bool>, laterFails: bool): (Sys, Seen, bool)
    requires |names| == |fails|
  {
    var seen := Seen(s.channel, s.connectionCount);
    if s.channel.None? then (s, seen, false)
    else
      var (s', ok) := Declare(s, names, fails);
      (s', seen, ok && !laterFails)
  }

  function Shut(s: Sys): Sys {
    Reset(s.(closed := true))
  }

  // ---------------------------------------------------------------- any number of clients

  /** What each publisher and subscriber still has to reconnect for. */
  datatype World = World(sys: Sys, waiting: map<nat, Seen>)

  datatype Step =
    | InitStep(env: DialEnv)
    | UseStep(client: nat, names: seq<string>, fails: seq<bool>, laterFails: bool)
    | ReconnectStep(client: nat, env: DialEnv)
    | CloseStep

  predicate Enabled(w: World, step: Step) {
    match step
    case UseStep(_, names, fails, _) => |names| == |fails|
    case ReconnectStep(client, _) => client in w.waiting
    case _ => true
  }

  function Next(w: World, step: Step): World
    requires Enabled(w, step)
  {
    match step
    case InitStep(env) => w.(sys := Reconnect(w.sys, 0, env).0)
    case UseStep(client, names, fails, laterFails) =>
      var (s, seen, ok) := Use(w.sys, names, fails, laterFails);
      World(s, if ok then w.waiting - {client} else w.waiting[client := seen])
    case ReconnectStep(client, env) =>
      World(Reconnect(w.sys, w.waiting[client].connectionCount, env).0, w.waiting - {client})
    case CloseStep => w.(sys := Shut(w.sys))
  }

  /** A client whose publish or subscription failed has a reconnect to do for the connection it saw, one
      whose call succeeded has none. */
  lemma FailedCallWaits(w: World, client: nat, name: string, fails: bool, laterFails: bool)
    ensures var w' := Next(w, UseStep(client, [name], [fails], laterFails));
            var good := w.sys.channel.Some? && (name in w.sys.declaredExchanges || !fails) && !laterFails;
            && (client in w'.waiting <==> !good)
            && (!good ==> w'.waiting[client] == Seen(w.sys.channel, w.sys.connectionCount))
            && (forall c :: c != client ==>
                  (c in w'.waiting <==> c in w.waiting) && (c in w.waiting ==> w'.waiting[c] == w.waiting[c]))
  {
    if w.sys.channel.Some? {
      DeclareOne(w.sys, name, fails);
    }
    hide Declare;
  }

  lemma DeclareOne(s: Sys, name: string, fails: bool)
    requires s.channel.Some?
    ensures Declare(s, [name], [fails]).1 <==> name in s.declaredExchanges || !fails
  {
    assert [name][1..] == [] && [fails][1..] == [];
  }

  ghost predicate IsRun(w: World, steps: seq<Step>)
    decreases |steps|
  {
    steps != [] ==> Enabled(w, steps[0]) && IsRun(Next(w, steps[0]), steps[1..])
  }

  ghost function Run(w: World, steps: seq<Step>): World
    requires IsRun(w, steps)
    decreases |steps|
  {
    if steps == [] then w else Run(Next(w, steps[0]), steps[1..])
  }

  // ---------------------------------------------------------------- what every step keeps

  ghost predicate SysInv(s: Sys) {
    && s.connection == s.channel
    && s.open == (if s.connection.Some? then {s.connection.value} else {})
    && |s.made| == s.connectionCount
    && (forall i :: 0 <= i < |s.made| ==> s.made[i] < s.dialed)
    && (forall i, j :: 0 <= i < j < |s.made| ==> s.made[i] < s.made[j])
    && (s.channel.Some? ==> s.connectionCount > 0 && s.channel.value == s.made[s.connectionCount - 1])
    && (s.channel.Some? ==> s.channel.value in s.exchanges && s.declaredExchanges <= s.exchanges[s.channel.value])
    && (s.channel.None? ==> s.declaredExchanges == {})
    && (s.closed ==> s.connection.None?)
  }

  /** A client's record: of the connection its count stands for, or that there was none. */
  ghost predicate SeenInv(s: Sys, seen: Seen) {
    && seen.connectionCount <= s.connectionCount && seen.connectionCount <= |s.made|
    && (seen.channel.Some? ==> seen.connectionCount > 0 && seen.channel.value == s.made[seen.connectionCount - 1])
    && (seen.channel.None? && seen.connectionCount == s.connectionCount ==> s.channel.None?)
  }

  ghost predicate Inv(w: World) {
    SysInv(w.sys) && forall c :: c in w.waiting ==> SeenInv(w.sys, w.waiting[c])
  }

  lemma InitialInv()
    ensures Inv(World(INITIAL, map[]))
  {
  }

  lemma ReconnectKeeps(s: Sys, reference: nat, env: DialEnv)
    requires SysInv(s)
    ensures SysInv(Reconnect(s, reference, env).0)
    ensures s.made <= Reconnect(s, reference, env).0.made
    ensures forall seen :: SeenInv(s, seen) ==> SeenInv(Reconnect(s, reference, env).0, seen)
  {
    var s' := Reconnect(s, reference, env).0;
    assert s.made <= s'.made;
    assert s'.open == if s'.connection.Some? then {s'.connection.value} else {};
  }

  lemma {:induction false} DeclareKeeps(s: Sys, names: seq<string>, fails: seq<bool>)
    requires SysInv(s) && |names| == |fails| && s.channel.Some?
    ensures SysInv(Declare(s, names, fails).0)
    ensures var s' := Declare(s, names, fails).0;
            s'.made == s.made && s'.channel == s.channel && s'.connectionCount == s.connectionCount
                && s'.closed == s.closed
            && s'.dialed == s.dialed
    decreases |names|
  {
    if names != [] {
      if names[0] in s.declaredExchanges {
        DeclareKeeps(s, names[1..], fails[1..]);
      } else if !fails[0] {
        var ch := s.channel.value;
        DeclareKeeps(s.(declaredExchanges := s.declaredExchanges + {names[0]},
                        exchanges := s.exchanges[ch := s.exchanges[ch] + {names[0]}]), names[1..], fails[1..]);
      }
    }
  }

  lemma NextKeepsInv(w: World, step: Step)
    requires Inv(w) && Enabled(w, step)
    ensures Inv(Next(w, step))
    ensures w.sys.made <= Next(w, step).sys.made
  {
    match step
    case InitStep(env) => ReconnectKeeps(w.sys, 0, env);
    case UseStep(client, names, fails, laterFails) =>
      if w.sys.channel.Some? {
        DeclareKeeps(w.sys, names, fails);
      }
    case ReconnectStep(client, env) => ReconnectKeeps(w.sys, w.waiting[client].connectionCount, env);
    case CloseStep =>
  }

  /** In every reachable state: at most one connection is open and it is the component's own, every
      cached exchange was declared on the current channel, and the channel is the one that the
      connection count stands for. */
  lemma {:induction false} RunKeepsInv(w: World, steps: seq<Step>)
    requires Inv(w) && IsRun(w, steps)
    ensures Inv(Run(w, steps)) && w.sys.made <= Run(w, steps).sys.made
    decreases |steps|
  {
    if steps != [] {
      NextKeepsInv(w, steps[0]);
      RunKeepsInv(Next(w, steps[0]), steps[1..]);
    }
  }

  /** A client's reconnect never closes a newer channel: if it closes one, it is the one that the
      client saw fail. */
  lemma ReconnectClosesOnlySeen(w: World, client: nat, env: DialEnv, ch: nat)
    requires Inv(w) && client in w.waiting
    requires ch in w.sys.open && ch !in Next(w, ReconnectStep(client, env)).sys.open
    ensures w.waiting[client].channel == Some(ch)
  {
    assert SeenInv(w.sys, w.waiting[client]);
  }

  /** The counts for which a reconnect succeeded in a run. */
  ghost function Successes(w: World, steps: seq<Step>): seq<nat>
    requires IsRun(w, steps)
    decreases |steps|
  {
    if steps == [] then []
    else
      (if steps[0].ReconnectStep?
          && Reconnect(w.sys, w.waiting[steps[0].client].connectionCount, steps[0].env).1 == Connected
       then [w.waiting[steps[0].client].connectionCount]
       else if steps[0].InitStep? && Reconnect(w.sys, 0, steps[0].env).1 == Connected then [0] else [])
      + Successes(Next(w, steps[0]), steps[1..])
  }

  /** Over every run at most one reconnect succeeds per count: the counts strictly increase. */
  lemma {:induction false} OneSuccessPerCount(w: World, steps: seq<Step>)
    requires Inv(w) && IsRun(w, steps)
    ensures forall i, j :: 0 <= i < j < |Successes(w, steps)| ==> Successes(w, steps)[i] < Successes(w, steps)[j]
    ensures forall i :: 0 <= i < |Successes(w, steps)| ==> w.sys.connectionCount <= Successes(w, steps)[i]
    decreases |steps|
  {
    if steps != [] {
      var w' := Next(w, steps[0]);
      NextKeepsInv(w, steps[0]);
      OneSuccessPerCount(w', steps[1..]);
      assert w.sys.connectionCount <= w'.sys.connectionCount;
    }
  }

  /** Once closed, no connection exists or is made again. */
  lemma {:induction false} ClosedForGood(w: World, steps: seq<Step>)
    requires Inv(w) && IsRun(w, steps) && w.sys.closed
    ensures Run(w, steps).sys.closed && Run(w, steps).sys.connection == None && Run(w, steps).sys.open == {}
    ensures Run(w, steps).sys.dialed == w.sys.dialed
    decreases |steps|
  {
    if steps != [] {
      NextKeepsInv(w, steps[0]);
      ClosedForGood(Next(w, steps[0]), steps[1..]);
    }
  }
}
