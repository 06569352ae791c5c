/** Admission by several callers at once: the test of the request counter and its increment are two separate atomic steps
    (connPool.NewStream in pkg/stream/sofarpc/connpool.go, resource in pkg/upstream/cluster/resourcemanager.go). */
module Admission {
  // passed[i]: caller i has seen room and has not taken its unit yet.
  datatype State = State(current: int, passed: seq<bool>)

  datatype Step =
    | Check(caller: nat)
    | Increase(caller: nat)
    | Decrease // some admitted request ends; the counter is the number of active requests

  function Init(callers: nat): State {
    State(0, seq(callers, _ => false))
  }

  predicate CanCreate(current: int, max: nat) {
    current < 0 || current < max
  }

  predicate Enabled(s: State, step: Step) {
    match step
    case Check(i) => i < |s.passed| && !s.passed[i]
    case Increase(i) => i < |s.passed| && s.passed[i]
    case Decrease => s.current > 0
  }

  function Apply(max: nat, s: State, step: Step): State
    requires Enabled(s, step)
  {
    match step
    case Check(i) => s.(passed := s.passed[i := CanCreate(s.current, max)])
    case Increase(i) => State(s.current + 1, s.passed[i := false])
    case Decrease => s.(current := s.current - 1)
  }

  ghost predicate IsRun(max: nat, callers: nat, states: seq<State>, steps: seq<Step>) {
    && |states| == |steps| + 1 && states[0] == Init(callers)
    && forall i :: 0 <= i < |steps| ==> Enabled(states[i], steps[i]) && states[i + 1] == Apply(max, states[i], steps[i])
  }

  ghost function Last(max: nat, callers: nat, states: seq<State>, steps: seq<Step>): State
    requires IsRun(max, callers, states, steps)
  {
    states[|steps|]
  }

  // How many callers have passed the test.
  function Passed(p: seq<bool>): (n: nat)
    ensures n <= |p|
  {
    if p == [] then 0 else Passed(p[1..]) + if p[0] then 1 else 0
  }

  lemma {:induction false} PassedUpdate(p: seq<bool>, i: nat, b: bool)
    requires i < |p|
    ensures Passed(p[i := b]) == Passed(p) + (if b then 1 else 0) - (if p[i] then 1 else 0)
  {
    if i == 0 {
      assert p[i := b][1..] == p[1..];
    } else {
      assert p[i := b][1..] == p[1..][i - 1 := b];
      PassedUpdate(p[1..], i - 1, b);
    }
  }

  lemma {:induction false} NonePassed(callers: nat)
    ensures Passed(seq(callers, _ => false)) == 0
  {
    if callers > 0 {
      assert seq(callers, _ => false)[1..] == seq(callers - 1, _ => false);
      NonePassed(callers - 1);
    }
  }

  /** The most the counter can reach. */
  function Peak(max: nat, callers: nat): nat {
    if max == 0 || callers == 0 then 0 else max + callers - 1
  }

  // Units taken and units about to be taken together never exceed the peak.
  predicate Within(max: nat, callers: nat, s: State) {
    |s.passed| == callers && 0 <= s.current && s.current + Passed(s.passed) <= Peak(max, callers)
  }

  lemma StepWithin(max: nat, callers: nat, s: State, step: Step)
    requires Within(max, callers, s) && Enabled(s, step)
    ensures Within(max, callers, Apply(max, s, step))
  {
    match step {
      case Check(i) => PassedUpdate(s.passed, i, CanCreate(s.current, max));
      case Increase(i) => PassedUpdate(s.passed, i, false);
      case Decrease =>
    }
  }

  lemma {:induction false} RunWithin(max: nat, callers: nat, states: seq<State>, steps: seq<Step>)
    requires IsRun(max, callers, states, steps)
    ensures Within(max, callers, Last(max, callers, states, steps))
    decreases |steps|
  {
    if steps == [] {
      NonePassed(callers);
    } else {
      var last := |steps| - 1;
      RunWithin(max, callers, states[..last + 1], steps[..last]);
      StepWithin(max, callers, states[last], steps[last]);
    }
  }

  // How many steps took a unit, less those that gave one back.
  function Balance(steps: seq<Step>): int {
    if steps == [] then 0
    else
      var last := steps[|steps| - 1];
      Balance(steps[..|steps| - 1]) + (if last.Increase? then 1 else if last.Decrease? then -1 else 0)
  }

  // The counter is what was taken less what was given back.
  lemma {:induction false} CounterIsBalance(max: nat, callers: nat, states: seq<State>, steps: seq<Step>)
    requires IsRun(max, callers, states, steps)
    ensures states[|steps|].current == Balance(steps)
    decreases |steps|
  {
    if steps != [] {
      var last := |steps| - 1;
      CounterIsBalance(max, callers, states[..last + 1], steps[..last]);
      assert Enabled(states[last], steps[last]) && states[last + 1] == Apply(max, states[last], steps[last]);
    }
  }

  lemma Extend(max: nat, callers: nat, states: seq<State>, steps: seq<Step>, step: Step)
    returns (states': seq<State>, steps': seq<Step>)
    requires IsRun(max, callers, states, steps) && Enabled(Last(max, callers, states, steps), step)
    ensures IsRun(max, callers, states', steps')
    ensures Last(max, callers, states', steps') == Apply(max, Last(max, callers, states, steps), step)
  {
    hide Enabled, Apply;
    states', steps' := states + [Apply(max, states[|steps|], step)], steps + [step];
    forall i | 0 <= i < |steps'| ensures Enabled(states'[i], steps'[i]) && states'[i + 1] == Apply(max, states'[i], steps'[i]) {
      if i < |steps| { assert Enabled(states[i], steps[i]) && states[i + 1] == Apply(max, states[i], steps[i]); }
    }
  }

  // One caller alone takes n units.
  lemma {:induction false} OneByOne(max: nat, callers: nat, n: nat) returns (states: seq<State>, steps: seq<Step>)
    requires n < max && callers > 0
    ensures IsRun(max, callers, states, steps) && Last(max, callers, states, steps) == Init(callers).(current := n)
  {
    if n == 0 {
      states, steps := [Init(callers)], [];
    } else {
      states, steps := OneByOne(max, callers, n - 1);
      hide IsRun, Last;
      states, steps := Extend(max, callers, states, steps, Check(0));
      states, steps := Extend(max, callers, states, steps, Increase(0));
      assert Last(max, callers, states, steps).passed == Init(callers).passed;
    }
  }

  // The first n callers all see the last free unit.
  lemma {:induction false} AllSeeRoom(max: nat, callers: nat, n: nat) returns (states: seq<State>, steps: seq<Step>)
    requires n <= callers && max > 0 && callers > 0
    ensures IsRun(max, callers, states, steps)
    ensures Last(max, callers, states, steps) == State(max - 1, seq(callers, i => i < n))
  {
    if n == 0 {
      states, steps := OneByOne(max, callers, max - 1);
      assert Init(callers).passed == seq(callers, i => i < 0);
    } else {
      states, steps := AllSeeRoom(max, callers, n - 1);
      hide IsRun, Last;
      states, steps := Extend(max, callers, states, steps, Check(n - 1));
      assert Last(max, callers, states, steps).passed == seq(callers, i => i < n);
    }
  }

  lemma {:induction false} AllTake(max: nat, callers: nat, n: nat) returns (states: seq<State>, steps: seq<Step>)
    requires n <= callers && max > 0 && callers > 0
    ensures IsRun(max, callers, states, steps)
    ensures Last(max, callers, states, steps) == State(max - 1 + n, seq(callers, i => i >= n))
  {
    if n == 0 {
      states, steps := AllSeeRoom(max, callers, callers);
      assert seq(callers, i => i < callers) == seq(callers, i => i >= 0);
    } else {
      states, steps := AllTake(max, callers, n - 1);
      hide IsRun, Last;
      states, steps := Extend(max, callers, states, steps, Increase(n - 1));
      assert Last(max, callers, states, steps).passed == seq(callers, i => i >= n);
    }
  }

  /** With T callers and a maximum of at least one, the counter never exceeds max + T - 1, with one caller it never exceeds
      max, and no smaller bound holds: b bounds the counter over all runs exactly when it is at least the peak. */
  lemma PeakIsExact(max: nat, callers: nat, b: int)
    ensures (forall states, steps :: IsRun(max, callers, states, steps) ==> Last(max, callers, states, steps).current <= b)
       <==> Peak(max, callers) <= b
  {
    if Peak(max, callers) <= b {
      forall states, steps | IsRun(max, callers, states, steps) ensures Last(max, callers, states, steps).current <= b {
        RunWithin(max, callers, states, steps);
      }
    } else if Peak(max, callers) == 0 {
      var states: seq<State>, steps: seq<Step> := [Init(callers)], [];
      assert IsRun(max, callers, states, steps);
      assert Last(max, callers, states, steps).current == 0;
    } else {
      var states, steps := AllTake(max, callers, callers);
      assert Last(max, callers, states, steps).current == Peak(max, callers);
    }
  }
}
