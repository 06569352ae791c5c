/** Active health checking of one host: the flag goes up after enough failures in a row and comes down after enough
    successes in a row (handleSuccess and SetUnhealthy in pkg/upstream/healthcheck/healthchecker.go, health flags in
    pkg/upstream/cluster/host.go). */
module HealthCheck {
  import opened Hosts

  const FAILED_ACTIVE_HC: bv64 := 0x1

  // The counters are uint32 and wrap.
  const WIDTH: nat := 0x1_0000_0000

  // The flag, the two counters, and whether the last result flipped the flag.
  datatype Session = Session(flagged: bool, numHealthy: nat, numUnHealthy: nat, changed: bool)

  datatype Thresholds = Thresholds(healthy: nat, unhealthy: nat)

  ghost predicate InRange(t: Thresholds) {
    t.healthy < WIDTH && t.unhealthy < WIDTH
  }

  // A counter that starts at zero meets the threshold after this many increments: a threshold of zero is met by wrapping.
  function Effective(threshold: nat): nat {
    if threshold == 0 then 0x1_0000_0000 else threshold
  }

  function Succeed(t: Thresholds, s: Session): Session {
    var n := (s.numHealthy + 1) % WIDTH;
    if !s.flagged then s.(numUnHealthy := 0, changed := false)
    else Session(n != t.healthy, n, 0, n == t.healthy)
  }

  function Fail(t: Thresholds, s: Session): Session {
    var n := (s.numUnHealthy + 1) % WIDTH;
    if s.flagged then s.(numHealthy := 0, changed := false)
    else Session(n == t.unhealthy, 0, n, n == t.unhealthy)
  }

  // The state after a history of results, true for a success.
  function After(t: Thresholds, history: seq<bool>): Session {
    if history == [] then Session(false, 0, 0, false)
    else
      var s := After(t, history[..|history| - 1]);
      if history[|history| - 1] then Succeed(t, s) else Fail(t, s)
  }

  // ContainHealthFlag, SetHealthFlag and ClearHealthFlag for this flag, and the bits it leaves alone.
  predicate Flagged(flags: bv64) {
    flags & FAILED_ACTIVE_HC > 0
  }

  function Raised(flags: bv64): bv64 {
    flags | FAILED_ACTIVE_HC
  }

  function Lowered(flags: bv64): bv64 {
    flags & !FAILED_ACTIVE_HC
  }

  lemma RaisedFlag(flags: bv64)
    ensures Flagged(Raised(flags))
  {
  }

  lemma RaisedBits(flags: bv64)
    ensures Lowered(Raised(flags)) == Lowered(flags)
  {
  }

  lemma LoweredBits(flags: bv64)
    ensures !Flagged(Lowered(flags)) && Lowered(Lowered(flags)) == Lowered(flags)
  {
  }

  lemma AllBits(flags: bv64)
    ensures flags == if Flagged(flags) then Raised(Lowered(flags)) else Lowered(flags)
  {
  }

  lemma FlagBits(flags: bv64)
    ensures Flagged(Raised(flags)) && !Flagged(Lowered(flags))
    ensures Lowered(Raised(flags)) == Lowered(flags) && Lowered(Lowered(flags)) == Lowered(flags)
    ensures flags == if Flagged(flags) then Raised(Lowered(flags)) else Lowered(flags)
  {
    hide Flagged, Raised, Lowered;
    RaisedFlag(flags);
    RaisedBits(flags);
    LoweredBits(flags);
    AllBits(flags);
  }

  lemma FlaggedIsUnhealthy()
    ensures Raised(0) == 1
  {
  }

  class HealthCheckSession {
    const host: Host
    const healthyThreshold: nat
    const unhealthyThreshold: nat
    var numHealthy: nat
    var numUnHealthy: nat

    constructor (host: Host, healthyThreshold: nat, unhealthyThreshold: nat)
      ensures this.host == host && this.healthyThreshold == healthyThreshold && this.unhealthyThreshold == unhealthyThreshold
      ensures numHealthy == 0 && numUnHealthy == 0
    {
      this.host, this.healthyThreshold, this.unhealthyThreshold := host, healthyThreshold, unhealthyThreshold;
      numHealthy, numUnHealthy := 0, 0;
    }

    function State(changed: bool): Session
      reads this, host
    {
      Session(Flagged(host.healthFlags), numHealthy, numUnHealthy, changed)
    }

    method HandleSuccess() returns (stateChanged: bool)
      modifies this, host`healthFlags
      ensures State(stateChanged) == Succeed(Thresholds(healthyThreshold, unhealthyThreshold), old(State(false)))
      ensures Lowered(host.healthFlags) == Lowered(old(host.healthFlags))
    {
      hide Flagged, Raised, Lowered;
      FlagBits(host.healthFlags);
      numUnHealthy := 0;
      stateChanged := false;
      if Flagged(host.healthFlags) {
        numHealthy := (numHealthy + 1) % WIDTH;
        if numHealthy == healthyThreshold {
          host.healthFlags := Lowered(host.healthFlags);
          stateChanged := true;
        }
      }
    }

    method SetUnhealthy() returns (stateChanged: bool)
      modifies this, host`healthFlags
      ensures State(stateChanged) == Fail(Thresholds(healthyThreshold, unhealthyThreshold), old(State(false)))
      ensures Lowered(host.healthFlags) == Lowered(old(host.healthFlags))
    {
      hide Flagged, Raised, Lowered;
      FlagBits(host.healthFlags);
      numHealthy := 0;
      stateChanged := false;
      if !Flagged(host.healthFlags) {
        numUnHealthy := (numUnHealthy + 1) % WIDTH;
        if numUnHealthy == unhealthyThreshold {
          host.healthFlags := Raised(host.healthFlags);
          stateChanged := true;
        }
      }
    }
  
    /** Any history of results on a host that starts unflagged. */
    method Run(history: seq<bool>) returns (changes: seq<bool>)
      requires numHealthy == 0 && numUnHealthy == 0 && !Flagged(host.healthFlags)
      modifies this, host`healthFlags
      ensures |changes| == |history|
      ensures forall i :: 0 <= i < |history| ==>
                changes[i] == After(Thresholds(healthyThreshold, unhealthyThreshold), history[..i + 1]).changed
      ensures var s := After(Thresholds(healthyThreshold, unhealthyThreshold), history);
              host.healthFlags == if s.flagged then Raised(old(host.healthFlags)) else old(host.healthFlags)
      ensures var t := Thresholds(healthyThreshold, unhealthyThreshold);
              old(host.healthFlags) == 0 && InRange(t) ==>
                && (host.Health() <==> !ShouldBeFlagged(t, history))
                && host.healthFlags == if ShouldBeFlagged(t, history) then 1 else 0
    {
      hide Flagged, Raised, Lowered;
      FlagBits(host.healthFlags);
      ghost var t := Thresholds(healthyThreshold, unhealthyThreshold);
      changes := [];
      for i := 0 to |history|
        invariant |changes| == i && forall j :: 0 <= j < i ==> changes[j] == After(t, history[..j + 1]).changed
        invariant State(false) == After(t, history[..i]).(changed := false)
        invariant Lowered(host.healthFlags) == Lowered(old(host.healthFlags))
      {
        assert history[..i + 1][..i] == history[..i];
        var changed := false;
        if history[i] {
          changed := HandleSuccess();
        } else {
          changed := SetUnhealthy();
        }
        changes := changes + [changed];
      }
      assert history[..|history|] == history;
      FlagBits(host.healthFlags);
      FlaggedIsUnhealthy();
      if InRange(t) { Hysteresis(t, history); }
    }
  }

  // The last n results up to position i are all b.
  ghost predicate RunEnds(history: seq<bool>, i: nat, n: nat, b: bool) {
    n <= i <= |history| && forall k :: i - n <= k < i ==> history[k] == b
  }

  /** Some run of enough failures has ended, and no run of enough successes has ended since. */
  ghost predicate ShouldBeFlagged(t: Thresholds, history: seq<bool>) {
    exists i :: RunEnds(history, i, Effective(t.unhealthy), false) && NotRecovered(t, history, i)
  }

  ghost predicate NotRecovered(t: Thresholds, history: seq<bool>, i: nat) {
    forall j :: i < j <= |history| ==> !RunEnds(history, j, Effective(t.healthy), true)
  }

  // How many of the last results are b.
  function Streak(history: seq<bool>, b: bool): (n: nat)
    ensures n <= |history|
  {
    if history == [] || history[|history| - 1] != b then 0 else 1 + Streak(history[..|history| - 1], b)
  }

  lemma {:induction false} StreakIsRun(history: seq<bool>, n: nat, b: bool)
    ensures RunEnds(history, |history|, n, b) <==> n <= Streak(history, b)
  {
    if history != [] && n > 0 {
      var front := history[..|history| - 1];
      StreakIsRun(front, n - 1, b);
      assert RunEnds(history, |history|, n, b) <==> history[|history| - 1] == b && RunEnds(front, |front|, n - 1, b);
    }
  }

  lemma RunEndsBefore(history: seq<bool>, result: bool, i: nat, n: nat, b: bool)
    requires i <= |history|
    ensures RunEnds(history + [result], i, n, b) <==> RunEnds(history, i, n, b)
  {
    if n <= i {
      forall k | i - n <= k < i ensures (history + [result])[k] == history[k] {}
    }
  }

  lemma FailureFlags(t: Thresholds, history: seq<bool>)
    ensures ShouldBeFlagged(t, history + [false]) <==>
              ShouldBeFlagged(t, history) || RunEnds(history + [false], |history| + 1, Effective(t.unhealthy), false)
  {
    var next := history + [false];
    forall i: nat, n: nat, b | i <= |history| ensures RunEnds(next, i, n, b) <==> RunEnds(history, i, n, b) {
      RunEndsBefore(history, false, i, n, b);
    }
    assert !RunEnds(next, |history| + 1, Effective(t.healthy), true) by { assert next[|history|] == false; }
    forall i: nat | i <= |history| ensures NotRecovered(t, next, i) <==> NotRecovered(t, history, i) {}
    assert NotRecovered(t, next, |next|);
  }

  lemma SuccessClears(t: Thresholds, history: seq<bool>)
    ensures ShouldBeFlagged(t, history + [true]) <==>
              ShouldBeFlagged(t, history) && !RunEnds(history + [true], |history| + 1, Effective(t.healthy), true)
  {
    var next := history + [true];
    forall i: nat, n: nat, b | i <= |history| ensures RunEnds(next, i, n, b) <==> RunEnds(history, i, n, b) {
      RunEndsBefore(history, true, i, n, b);
    }
    assert !RunEnds(next, |history| + 1, Effective(t.unhealthy), false) by { assert next[|history|] == true; }
    forall i: nat | i <= |history|
      ensures NotRecovered(t, next, i) <==> NotRecovered(t, history, i) && !RunEnds(next, |history| + 1, Effective(t.healthy), true) {
    }
  }

  // While the flag is down the failures in a row are being counted, and while it is up the successes.
  ghost predicate Counting(t: Thresholds, history: seq<bool>, s: Session) {
    && (s.flagged <==> ShouldBeFlagged(t, history))
    && (s.flagged ==> s.numHealthy == Streak(history, true) < Effective(t.healthy))
    && (!s.flagged ==> s.numUnHealthy == Streak(history, false) < Effective(t.unhealthy))
  }

  // A counter below the effective threshold meets the threshold at the next increment or stays below.
  lemma NextMeets(n: nat, threshold: nat)
    requires threshold < WIDTH && n < Effective(threshold)
    ensures (n + 1) % WIDTH == threshold <==> n + 1 == Effective(threshold)
    ensures n + 1 < Effective(threshold) ==> (n + 1) % WIDTH == n + 1
  {
  }

  lemma NextSuccess(t: Thresholds, history: seq<bool>, s: Session)
    requires InRange(t) && Counting(t, history, s)
    ensures Counting(t, history + [true], Succeed(t, s))
  {
    assert (history + [true])[..|history|] == history;
    if s.flagged { NextMeets(s.numHealthy, t.healthy); }
    StreakIsRun(history + [true], Effective(t.healthy), true);
    SuccessClears(t, history);
    hide ShouldBeFlagged, RunEnds, Effective;
  }

  lemma NextFailure(t: Thresholds, history: seq<bool>, s: Session)
    requires InRange(t) && Counting(t, history, s)
    ensures Counting(t, history + [false], Fail(t, s))
  {
    assert (history + [false])[..|history|] == history;
    if !s.flagged { NextMeets(s.numUnHealthy, t.unhealthy); }
    StreakIsRun(history + [false], Effective(t.unhealthy), false);
    FailureFlags(t, history);
    hide ShouldBeFlagged, RunEnds, Effective;
  }

  /** Hysteresis, for every history and all thresholds: the flag is up exactly when some run of enough failures has ended
      and no run of enough successes has ended since. */
  lemma {:induction false} Hysteresis(t: Thresholds, history: seq<bool>)
    requires InRange(t)
    ensures After(t, history).flagged <==> ShouldBeFlagged(t, history)
    ensures Counting(t, history, After(t, history))
  {
    if history != [] {
      var front := history[..|history| - 1];
      Hysteresis(t, front);
      hide ShouldBeFlagged, Counting, Succeed, Fail;
      assert history == front + [history[|history| - 1]];
      if history[|history| - 1] { NextSuccess(t, front, After(t, front)); } else { NextFailure(t, front, After(t, front)); }
    }
  }

  /** A change is reported exactly when the flag flips. */
  lemma ChangedIff(t: Thresholds, history: seq<bool>, result: bool)
    ensures After(t, history + [result]).changed <==> After(t, history + [result]).flagged != After(t, history).flagged
  {
    assert (history + [result])[..|history|] == history;
  }
}
