/** Calls of `next` run side by side: they hold only the read lock, and meet at the atomic counter. */
module AddressCounter {
  import opened AddressList

  /** Where a call is: about to load the counter, to swap it, to add to it, or through. */
  datatype Call = Loading | Swapping | Adding | Through(value: nat)

  /** `used` lists the counter values in the order in which the calls took them. */
  datatype Sys = Sys(counter: nat, calls: seq<Call>, used: seq<nat>)

  datatype Step = Load(call: nat) | Swap(call: nat) | Increment(call: nat)

  predicate Enabled(s: Sys, step: Step) {
    match step
    case Load(c) => c < |s.calls| && s.calls[c].Loading?
    case Swap(c) => c < |s.calls| && s.calls[c].Swapping?
    case Increment(c) => c < |s.calls| && s.calls[c].Adding?
  }

  /** The counter wraps around at 32 bits. */
  function Next(s: Sys, step: Step): Sys
    requires Enabled(s, step)
  {
    match step
    case Load(c) => s.(calls := s.calls[c := if s.counter == MAX_UINT32 then Swapping else Adding])
    case Swap(c) => s.(calls := s.calls[c := Adding], counter := if s.counter == MAX_UINT32 then 0 else s.counter)
    case Increment(c) =>
      Sys((s.counter + 1) % (MAX_UINT32 + 1), s.calls[c := Through(s.counter)], s.used + [s.counter])
  }

  ghost predicate IsRun(s: Sys, steps: seq<Step>)
    decreases |steps|
  {
    steps != [] ==> Enabled(s, steps[0]) && IsRun(Next(s, steps[0]), steps[1..])
  }

  ghost function Run(s: Sys, steps: seq<Step>): Sys
    requires IsRun(s, steps)
    decreases |steps|
  {
    if steps == [] then s else Run(Next(s, steps[0]), steps[1..])
  }

  /** Each call uses a value that was taken for it, whatever the others do. */
  ghost predicate Inv(s: Sys) {
    && s.counter <= MAX_UINT32
    && forall c :: 0 <= c < |s.calls| && s.calls[c].Through? ==>
       s.calls[c].value in s.used && s.calls[c].value <= MAX_UINT32
  }

  lemma {:induction false} RunKeepsInv(s: Sys, steps: seq<Step>)
    requires Inv(s) && IsRun(s, steps)
    ensures Inv(Run(s, steps)) && s.used <= Run(s, steps).used
    decreases |steps|
  {
    if steps != [] {
      RunKeepsInv(Next(s, steps[0]), steps[1..]);
    }
  }

  /** Short of the restart the values taken are consecutive, however the calls interleave. */
  lemma {:induction false} ValuesConsecutive(s: Sys, steps: seq<Step>)
    requires Inv(s) && IsRun(s, steps)
    requires s.counter + |Run(s, steps).used| - |s.used| <= MAX_UINT32
    ensures |s.used| <= |Run(s, steps).used|
    ensures forall i :: |s.used| <= i < |Run(s, steps).used| ==> Run(s, steps).used[i] == s.counter + i - |s.used|
    decreases |steps|
  {
    RunKeepsInv(s, steps);
    if steps != [] {
      var s' := Next(s, steps[0]);
      RunKeepsInv(s', steps[1..]);
      if s.counter < MAX_UINT32 || !steps[0].Swap? {
        if !(steps[0].Increment? && s.counter == MAX_UINT32) {
          ValuesConsecutive(s', steps[1..]);
        }
      } else {
        assert |Run(s', steps[1..]).used| == |s.used|;
      }
    }
  }

  /** The counter values taken in a run, in order. */
  ghost function Taken(s: Sys, steps: seq<Step>): seq<nat>
    requires Inv(s) && IsRun(s, steps)
  {
    RunKeepsInv(s, steps);
    Run(s, steps).used[|s.used|..]
  }

  /** However many calls interleave, the next `l` values taken, without a restart, give each of `l`
      addresses exactly once. */
  lemma ConcurrentRoundRobin(s: Sys, steps: seq<Step>, l: nat, k: nat)
    requires Inv(s) && IsRun(s, steps) && 0 < l && s.counter + l <= MAX_UINT32 && k < l
    requires |Taken(s, steps)| == l
    ensures exists i :: 0 <= i < l && Taken(s, steps)[i] % l == k
    ensures forall i, j :: 0 <= i < j < l ==> Taken(s, steps)[i] % l != Taken(s, steps)[j] % l
  {
    RunKeepsInv(s, steps);
    ValuesConsecutive(s, steps);
    RoundRobin(s.counter, l, k);
    TurnsConsecutive(s.counter, l);
    assert Taken(s, steps) == Turns(s.counter, l);
  }
}
