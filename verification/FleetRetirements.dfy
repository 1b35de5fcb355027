/**
One retirement at a time (scripts/fleet_manager.py: autoscale, wire_litellm). The idle window covers the drain
window, so that a second retirement waits for the first; but a router call that raises ends the cycle with the
retirement recorded and the idle clock still running. Over runs: exactly when a second retirement begins, and a run
that loses every slot that way.
*/
module FleetRetirements {
  import opened Options
  import opened Fleet
  import opened FleetRuns
  import opened FleetMinimum
  import opened FleetIdle

  // ------------------------------------------------------------------ one cycle

  /** At most one retirement, and the idle clock was restarted after it began. */
  ghost predicate OneRetiring(s: State, clock: int) {
    && |s.retiring| <= 1
    && (s.retiring != [] ==> s.retiring[0].started <= clock)
    && (s.retiring != [] && s.idleSince.Some? ==> s.retiring[0].started <= s.idleSince.value)
  }

  /** The one retirement began at the given time, when the window was over, and the clock has not been cleared. */
  ghost predicate LeftRunning(s: State, cfg: Config, begun: int) {
    && |s.retiring| == 1 && s.retiring[0].started == begun
    && s.idleSince.Some? && begun - s.idleSince.value >= cfg.idleFor
  }

  ghost predicate Behind(s: State, clock: int) {
    s.idleSince.Some? ==> s.idleSince.value <= clock
  }

  /** Heavy load reaches the clock and clears it. */
  predicate Heavy(s: State, cfg: Config, env: Env) {
    !ReturnsEarly(s, cfg, env) && !Light(s, cfg, env)
  }

  /** What it takes to retire a slot once the window is over: the clock is reached under light load, more slots are
      listed than the minimum, and a healthy one is not retiring yet. */
  predicate CanRetire(s: State, cfg: Config, env: Env) {
    && !ReturnsEarly(s, cfg, env) && Light(s, cfg, env)
    && |s.rows| > cfg.minReplicas && Candidates(Healthy(Replicas(s.rows, env)), s.retiring) != []
  }

  /** A cycle that begins nothing leaves its one retirement, or has finished it and rests. */
  lemma {:induction false} OneStays(s: State, cfg: Config, env: Env)
    requires cfg.cooldown > 0 && |s.retiring| <= 1 && !Retires(s, cfg, env)
    ensures var s' := Cycled(s, cfg, env);
            && (s'.retiring == s.retiring || s'.retiring == [])
            && (s.retiring != [] && env.now - s.retiring[0].started < cfg.drain ==> s'.retiring == s.retiring)
  {
    hide Created, ReapedFrom, FinishedFrom, CountAlive, Healthy, Candidates, Victim, Dropped, WantsMore, Busy, Queued, RewireRaises;
    var replicas := Replicas(s.rows, env);
    CreatedKeeps(s, cfg, env);
    var ensured := EnsuredMin(s, cfg, env, s.rows);
    ReapingKeepsPlans(ensured.s, cfg, env, replicas);
    var reaped := ReapedFrom(ensured.s, cfg, env, replicas);
    FinishOne(reaped.s, cfg, env, replicas);
    CreatedKeeps(FinishedFrom(reaped.s, cfg, env, replicas, reaped.s.retiring).s, cfg, env);
  }

  lemma {:induction false} ClockBehind(s: State, cfg: Config, env: Env, clock: int)
    requires Behind(s, clock) && clock <= env.now
    ensures Behind(Cycled(s, cfg, env), env.now)
  {
    hide Cycled, Clears, Notes;
    ClockStep(s, cfg, env);
  }

  /** A retirement the router takes restarts the clock; one it refuses leaves it running. */
  lemma {:induction false} RetiredClock(s: State, cfg: Config, env: Env)
    requires cfg.cooldown > 0 && Retires(s, cfg, env) && s.retiring == []
    ensures var s' := Cycled(s, cfg, env);
            && |s'.retiring| == 1 && s'.retiring[0].started == env.now
            && (if Raised(s, cfg, env) then LeftRunning(s', cfg, env.now) else s'.idleSince == None)
  {
    hide Cycled, ReturnsEarly, Light, Raised, Candidates, Healthy, Victim;
    ClockStep(s, cfg, env);
    RetirementStep(s, cfg, env);
  }

  /** While the clock was restarted after the one retirement began, none begins beside it. */
  lemma {:induction false} RestartedStep(s: State, cfg: Config, env: Env, clock: int)
    requires OneRetiring(s, clock) && Behind(s, clock) && Paced(cfg) && clock <= env.now
    ensures Retires(s, cfg, env) ==> s.retiring == []
    ensures var s' := Cycled(s, cfg, env);
            if Raised(s, cfg, env) then LeftRunning(s', cfg, env.now) else OneRetiring(s', env.now)
  {
    hide Cycled, ReturnsEarly, Light, Raised, Candidates, Healthy, Victim;
    RetirementStep(s, cfg, env);
    ClockStep(s, cfg, env);
    assert s.retiring != [] ==> s.retiring[0] in s.retiring;
    if Retires(s, cfg, env) {
      RetiredClock(s, cfg, env);
    } else {
      RaisedRetires(s, cfg, env);
      OneStays(s, cfg, env);
    }
  }

  lemma RaisedRetires(s: State, cfg: Config, env: Env)
    ensures Raised(s, cfg, env) ==> Retires(s, cfg, env)
    ensures Retires(s, cfg, env) ==> !ReturnsEarly(s, cfg, env) && Light(s, cfg, env)
  {
  }

  lemma {:induction false} DrainedReturns(s: State, cfg: Config, env: Env)
    requires cfg.cooldown > 0 && !NoneDrained(s, cfg, env)
    ensures ReturnsEarly(s, cfg, env)
  {
    hide Created, ReapedFrom, FinishedFrom, CountAlive, Healthy, WantsMore;
    var replicas := Replicas(s.rows, env);
    CreatedKeeps(s, cfg, env);
    var ensured := EnsuredMin(s, cfg, env, s.rows);
    ReapingKeepsPlans(ensured.s, cfg, env, replicas);
    var reaped := ReapedFrom(ensured.s, cfg, env, replicas);
    FinishOutcome(reaped.s, cfg, env, replicas, reaped.s.retiring);
  }

  lemma {:induction false} ReachedUndrained(s: State, cfg: Config, env: Env)
    requires !ReturnsEarly(s, cfg, env) && cfg.cooldown > 0
    ensures NoneDrained(s, cfg, env) && Finished(s, cfg, env).Some? && Finished(s, cfg, env).value.retiring == s.retiring
  {
    hide Created, ReapedFrom, FinishedFrom, CountAlive, Healthy, WantsMore;
    if !NoneDrained(s, cfg, env) {
      DrainedReturns(s, cfg, env);
    }
    var replicas := Replicas(s.rows, env);
    CreatedKeeps(s, cfg, env);
    var ensured := EnsuredMin(s, cfg, env, s.rows);
    ReapingKeepsPlans(ensured.s, cfg, env, replicas);
    var reaped := ReapedFrom(ensured.s, cfg, env, replicas);
    FinishOutcome(reaped.s, cfg, env, replicas, reaped.s.retiring);
  }

  /** With the clock left running a second retirement begins exactly when a slot can be retired before the drain is
      over; otherwise the retirement stays as it is, unless heavy load clears the clock or its drain is over. */
  lemma {:induction false} LeftRunningStep(s: State, cfg: Config, env: Env, begun: int)
    requires LeftRunning(s, cfg, begun) && Paced(cfg) && begun <= env.now
    ensures Retires(s, cfg, env) <==> env.now - begun < cfg.drain && CanRetire(s, cfg, env)
    ensures Retires(s, cfg, env) ==> |Cycled(s, cfg, env).retiring| == 2
    ensures !Retires(s, cfg, env) ==>
              var s' := Cycled(s, cfg, env);
              && |s'.retiring| <= 1
              && (OneRetiring(s', env.now) || (LeftRunning(s', cfg, begun) && !Heavy(s, cfg, env)))
              && (env.now - begun < cfg.drain && !Heavy(s, cfg, env) ==> LeftRunning(s', cfg, begun))
  {
    hide Cycled, ReturnsEarly, Light, Raised, Candidates, Healthy, Victim, Finished;
    RetirementStep(s, cfg, env);
    ClockStep(s, cfg, env);
    RaisedRetires(s, cfg, env);
    assert s.retiring[0] in s.retiring;
    if !ReturnsEarly(s, cfg, env) {
      ReachedUndrained(s, cfg, env);
    }
    if !Retires(s, cfg, env) {
      OneStays(s, cfg, env);
    }
  }

  // ------------------------------------------------------------------ runs

  predicate RaisedAt(s: State, cfg: Config, ticks: seq<Tick>, i: nat)
    requires i < |ticks|
  {
    Raised(At(s, cfg, ticks, i), cfg, ticks[i].env)
  }

  predicate HeavyAt(s: State, cfg: Config, ticks: seq<Tick>, i: nat)
    requires i < |ticks|
  {
    Heavy(At(s, cfg, ticks, i), cfg, ticks[i].env)
  }

  predicate CanRetireAt(s: State, cfg: Config, ticks: seq<Tick>, i: nat)
    requires i < |ticks|
  {
    CanRetire(At(s, cfg, ticks, i), cfg, ticks[i].env)
  }

  /** The router refused the rewiring of a retirement in cycle m, no heavy load has cleared the clock since, and
      before the drain is over cycle l reaches the clock under light load with a slot left to retire. */
  predicate Relapse(s: State, cfg: Config, ticks: seq<Tick>, m: nat, l: nat)
    requires l < |ticks|
  {
    && m < l && RaisedAt(s, cfg, ticks, m) && ticks[l].env.now - ticks[m].env.now < cfg.drain
    && (forall j :: m < j < l ==> !HeavyAt(s, cfg, ticks, j))
    && CanRetireAt(s, cfg, ticks, l)
  }

  ghost predicate NoRelapse(s: State, cfg: Config, ticks: seq<Tick>, n: nat)
    requires n <= |ticks|
  {
    forall m: nat, l: nat :: l < n ==> !Relapse(s, cfg, ticks, m, l)
  }

  function RetiringAfter(s: State, cfg: Config, ticks: seq<Tick>, n: nat): nat
    requires n <= |ticks|
  {
    |Reached(s, cfg, ticks[..n]).retiring|
  }

  ghost predicate OneUpTo(s: State, cfg: Config, ticks: seq<Tick>, n: nat)
    requires n <= |ticks|
  {
    forall i :: 0 <= i <= n ==> RetiringAfter(s, cfg, ticks, i) <= 1
  }

  ghost predicate LegalRun(s: State, cfg: Config, start: int, ticks: seq<Tick>) {
    forall i :: 0 <= i < |ticks| ==> ClockAfter(start, ticks[..i]) <= ticks[i].env.now
  }

  lemma {:induction false} LegalClock(s: State, cfg: Config, start: int, ticks: seq<Tick>)
    requires Legal(s, cfg, start, ticks)
    ensures LegalRun(s, cfg, start, ticks)
  {
    hide Drifted;
    if ticks != [] {
      var front := ticks[..|ticks| - 1];
      LegalClock(s, cfg, start, front);
      forall i | 0 <= i < |ticks| ensures ClockAfter(start, ticks[..i]) <= ticks[i].env.now {
        if i < |front| {
          assert front[..i] == ticks[..i] && front[i] == ticks[i];
        }
      }
    }
  }

  lemma ClockIs(start: int, ticks: seq<Tick>, i: nat)
    requires i < |ticks|
    ensures ClockAfter(start, ticks[..i + 1]) == ticks[i].env.now
  {
  }

  lemma {:induction false} ClockMonotone(s: State, cfg: Config, start: int, ticks: seq<Tick>, i: nat, j: nat)
    requires LegalRun(s, cfg, start, ticks) && i <= j < |ticks|
    ensures ticks[i].env.now <= ticks[j].env.now
    decreases j
  {
    if i < j {
      ClockMonotone(s, cfg, start, ticks, i, j - 1);
      ClockIs(start, ticks, j - 1);
      assert ClockAfter(start, ticks[..j]) <= ticks[j].env.now;
    }
  }

  lemma {:induction false} FoundPlans(s: State, cfg: Config, ticks: seq<Tick>, i: nat)
    requires i < |ticks|
    ensures At(s, cfg, ticks, i).retiring == Reached(s, cfg, ticks[..i]).retiring
    ensures At(s, cfg, ticks, i).idleSince == Reached(s, cfg, ticks[..i]).idleSince
  {
  }

  lemma {:induction false} RunBehind(s: State, cfg: Config, start: int, ticks: seq<Tick>, n: nat)
    requires Behind(s, start) && LegalRun(s, cfg, start, ticks) && n <= |ticks|
    ensures Behind(Reached(s, cfg, ticks[..n]), ClockAfter(start, ticks[..n]))
    decreases n
  {
    hide Cycled, Reached, At;
    if n == 0 {
      assert ticks[..0] == [];
      FreshClock(s, cfg);
    } else {
      RunBehind(s, cfg, start, ticks, n - 1);
      FoundPlans(s, cfg, ticks, n - 1);
      ReachedStep(s, cfg, ticks, n - 1);
      ClockIs(start, ticks, n - 1);
      ClockBehind(At(s, cfg, ticks, n - 1), cfg, ticks[n - 1].env, ClockAfter(start, ticks[..n - 1]));
    }
  }

  /** Where the run stands after n cycles with one retirement at a time. */
  ghost predicate Restarted(s: State, cfg: Config, start: int, ticks: seq<Tick>, n: nat)
    requires n <= |ticks|
  {
    OneRetiring(Reached(s, cfg, ticks[..n]), ClockAfter(start, ticks[..n]))
  }

  ghost predicate RunningSince(s: State, cfg: Config, ticks: seq<Tick>, n: nat, m: nat)
    requires n <= |ticks|
  {
    && m < n && RaisedAt(s, cfg, ticks, m) && LeftRunning(Reached(s, cfg, ticks[..n]), cfg, ticks[m].env.now)
    && forall j :: m < j < n ==> !HeavyAt(s, cfg, ticks, j)
  }

  ghost predicate Standing(s: State, cfg: Config, start: int, ticks: seq<Tick>, n: nat)
    requires n <= |ticks|
  {
    Restarted(s, cfg, start, ticks, n) || exists m: nat :: RunningSince(s, cfg, ticks, n, m)
  }

  /** A refused retirement leaves the clock running for as long as no cycle clears it, retires or finishes. */
  lemma {:induction false} Persists(s: State, cfg: Config, start: int, ticks: seq<Tick>, m: nat, n: nat)
    requires Paced(cfg) && LegalRun(s, cfg, start, ticks) && m < n <= |ticks| && OneUpTo(s, cfg, ticks, n)
    requires RaisedAt(s, cfg, ticks, m) && forall j :: m < j < n ==> !HeavyAt(s, cfg, ticks, j)
    requires forall j :: m < j < n ==> ticks[j].env.now - ticks[m].env.now < cfg.drain
    ensures LeftRunning(Reached(s, cfg, ticks[..n]), cfg, ticks[m].env.now)
    decreases n
  {
    hide Cycled, Reached, At, Raised, Heavy, LeftRunning, Retires;
    var i := n - 1;
    ReachedStep(s, cfg, ticks, i);
    FoundPlans(s, cfg, ticks, i);
    var found := At(s, cfg, ticks, i);
    assert RetiringAfter(s, cfg, ticks, n) <= 1 && RetiringAfter(s, cfg, ticks, i) <= 1;
    RaisedRetires(found, cfg, ticks[i].env);
    if i == m {
      RetirementStep(found, cfg, ticks[i].env);
      RetiredClock(found, cfg, ticks[i].env);
    } else {
      Persists(s, cfg, start, ticks, m, i);
      SameRunning(Reached(s, cfg, ticks[..i]), found, cfg, ticks[m].env.now);
      ClockMonotone(s, cfg, start, ticks, m, i);
      assert !HeavyAt(s, cfg, ticks, i);
      LeftRunningStep(found, cfg, ticks[i].env, ticks[m].env.now);
    }
  }

  lemma SameRunning(s: State, t: State, cfg: Config, begun: int)
    requires LeftRunning(s, cfg, begun) && t.retiring == s.retiring && t.idleSince == s.idleSince
    ensures LeftRunning(t, cfg, begun)
  {
  }

  /** In cycle n a second retirement begins exactly when the cycle relapses. */
  lemma {:induction false} SecondIff(s: State, cfg: Config, start: int, ticks: seq<Tick>, n: nat)
    requires Paced(cfg) && LegalRun(s, cfg, start, ticks) && Behind(s, start) && n < |ticks| && OneUpTo(s, cfg, ticks, n)
    requires Standing(s, cfg, start, ticks, n)
    ensures RetiringAfter(s, cfg, ticks, n + 1) <= 1 <==> forall m: nat :: !Relapse(s, cfg, ticks, m, n)
    ensures RetiringAfter(s, cfg, ticks, n + 1) <= 1 ==> Standing(s, cfg, start, ticks, n + 1)
  {
    hide Cycled, Reached, At, Raised, Heavy, LeftRunning, CanRetire, Retires, OneRetiring;
    var found, env := At(s, cfg, ticks, n), ticks[n].env;
    ReachedStep(s, cfg, ticks, n);
    FoundPlans(s, cfg, ticks, n);
    RunBehind(s, cfg, start, ticks, n);
    ClockIs(start, ticks, n);
    RaisedRetires(found, cfg, env);
    forall m: nat | Relapse(s, cfg, ticks, m, n) ensures Retires(found, cfg, env) && found.retiring != [] {
      RelapseRetires(s, cfg, start, ticks, m, n);
    }
    if Restarted(s, cfg, start, ticks, n) {
      SameOne(Reached(s, cfg, ticks[..n]), found, ClockAfter(start, ticks[..n]));
      RestartedStep(found, cfg, env, ClockAfter(start, ticks[..n]));
      RestartedEnds(s, cfg, start, ticks, n);
    } else {
      var m: nat :| RunningSince(s, cfg, ticks, n, m);
      SameRunning(Reached(s, cfg, ticks[..n]), found, cfg, ticks[m].env.now);
      ClockMonotone(s, cfg, start, ticks, m, n);
      LeftRunningStep(found, cfg, env, ticks[m].env.now);
      if Retires(found, cfg, env) {
        assert Relapse(s, cfg, ticks, m, n);
      } else if LeftRunning(Reached(s, cfg, ticks[..n + 1]), cfg, ticks[m].env.now) && !Heavy(found, cfg, env) {
        assert RunningSince(s, cfg, ticks, n + 1, m);
      }
    }
  }

  lemma SameOne(s: State, t: State, clock: int)
    requires OneRetiring(s, clock) && t.retiring == s.retiring && t.idleSince == s.idleSince
    ensures OneRetiring(t, clock)
  {
  }

  lemma LeftIsOne(s: State, cfg: Config, begun: int)
    requires LeftRunning(s, cfg, begun)
    ensures |s.retiring| == 1
  {
  }

  lemma {:induction false} RelapseRetires(s: State, cfg: Config, start: int, ticks: seq<Tick>, m: nat, n: nat)
    requires Paced(cfg) && LegalRun(s, cfg, start, ticks) && n < |ticks| && OneUpTo(s, cfg, ticks, n)
    requires Relapse(s, cfg, ticks, m, n)
    ensures var found := At(s, cfg, ticks, n);
            Retires(found, cfg, ticks[n].env) && LeftRunning(found, cfg, ticks[m].env.now)
            && |Cycled(found, cfg, ticks[n].env).retiring| == 2 && found.retiring != []
  {
    hide Cycled, Reached, At, Raised, Heavy, LeftRunning, CanRetire, Retires;
    forall j | m < j < n ensures ticks[j].env.now - ticks[m].env.now < cfg.drain {
      ClockMonotone(s, cfg, start, ticks, j, n);
    }
    Persists(s, cfg, start, ticks, m, n);
    FoundPlans(s, cfg, ticks, n);
    SameRunning(Reached(s, cfg, ticks[..n]), At(s, cfg, ticks, n), cfg, ticks[m].env.now);
    ClockMonotone(s, cfg, start, ticks, m, n);
    LeftRunningStep(At(s, cfg, ticks, n), cfg, ticks[n].env, ticks[m].env.now);
    LeftIsOne(At(s, cfg, ticks, n), cfg, ticks[m].env.now);
  }

  lemma {:induction false} RestartedEnds(s: State, cfg: Config, start: int, ticks: seq<Tick>, n: nat)
    requires n < |ticks|
    requires var s' := Reached(s, cfg, ticks[..n + 1]);
             if RaisedAt(s, cfg, ticks, n) then LeftRunning(s', cfg, ticks[n].env.now) else OneRetiring(s', ticks[n].env.now)
    ensures RetiringAfter(s, cfg, ticks, n + 1) <= 1
    ensures Standing(s, cfg, start, ticks, n + 1)
  {
    hide Reached, RaisedAt;
    ClockIs(start, ticks, n);
    if RaisedAt(s, cfg, ticks, n) {
      assert RunningSince(s, cfg, ticks, n + 1, n);
    }
  }

  lemma {:induction false} Tracked(s: State, cfg: Config, start: int, ticks: seq<Tick>, n: nat)
    requires OneRetiring(s, start) && Behind(s, start) && Paced(cfg) && LegalRun(s, cfg, start, ticks) && n <= |ticks|
    ensures OneUpTo(s, cfg, ticks, n) <==> NoRelapse(s, cfg, ticks, n)
    ensures OneUpTo(s, cfg, ticks, n) ==> Standing(s, cfg, start, ticks, n)
    decreases n
  {
    hide Reached, Relapse, RetiringAfter, Standing, LegalRun;
    if n == 0 {
      NothingYet(s, cfg, start, ticks);
    } else {
      Tracked(s, cfg, start, ticks, n - 1);
      if OneUpTo(s, cfg, ticks, n - 1) {
        SecondIff(s, cfg, start, ticks, n - 1);
        assert RetiringAfter(s, cfg, ticks, n) <= 1 <==> OneUpTo(s, cfg, ticks, n);
      }
    }
  }

  lemma {:induction false} NothingYet(s: State, cfg: Config, start: int, ticks: seq<Tick>)
    requires OneRetiring(s, start)
    ensures RetiringAfter(s, cfg, ticks, 0) <= 1 && Standing(s, cfg, start, ticks, 0)
  {
    assert ticks[..0] == [];
    FreshClock(s, cfg);
  }

  /** Main result: over any run, whatever dies or is reaped, at most one retirement is outstanding at every point
      exactly when no cycle relapses: when the router never refuses the rewiring of a retirement, or every cycle
      after such a refusal and before the drain is over returns before the clock, has no slot left to retire, or
      comes after heavy load that cleared the clock. */
  lemma {:induction false} AtMostOneRetirement(s: State, cfg: Config, start: int, ticks: seq<Tick>)
    requires OneRetiring(s, start) && Behind(s, start) && Paced(cfg) && Legal(s, cfg, start, ticks)
    ensures (forall i :: 0 <= i <= |ticks| ==> RetiringAfter(s, cfg, ticks, i) <= 1) <==>
            !exists m: nat, l: nat :: l < |ticks| && Relapse(s, cfg, ticks, m, l)
  {
    hide Relapse, RetiringAfter, LegalRun;
    LegalClock(s, cfg, start, ticks);
    Tracked(s, cfg, start, ticks, |ticks|);
  }

  lemma {:induction false} OneIsOne(s: State, cfg: Config, ticks: seq<Tick>, n: nat)
    requires n <= |ticks| && OneUpTo(s, cfg, ticks, n)
    ensures OneAtATime(s, cfg, ticks[..n])
    decreases n
  {
    hide Reached;
    assert RetiringAfter(s, cfg, ticks, n) <= 1;
    if n > 0 {
      OneIsOne(s, cfg, ticks, n - 1);
      assert ticks[..n][..n - 1] == ticks[..n - 1];
    }
  }

  /** Counting slots as scaling down does, paused and gone ones too: over a run without outside deaths, reaped slots
      or relapses a slot is retired only while more than the minimum is listed, and every cycle that loses a slot
      leaves the minimum. */
  lemma {:induction false} ScaleDownKeepsListedMin(s: State, cfg: Config, start: int, ticks: seq<Tick>)
    requires Bounded(s, cfg) && AboveMin(s, cfg) && OneRetiring(s, start) && Behind(s, start) && Paced(cfg)
    requires Legal(s, cfg, start, ticks) && Calm(s, cfg, ticks) && NoRelapse(s, cfg, ticks, |ticks|)
    ensures AboveMin(Reached(s, cfg, ticks), cfg)
    ensures ticks != [] ==>
              var before := Reached(s, cfg, ticks[..|ticks| - 1]);
              |Reached(s, cfg, ticks).rows| < |before.rows| ==> |Reached(s, cfg, ticks).rows| >= cfg.minReplicas
  {
    hide Relapse, Reached, LegalRun, Calm, AboveMin;
    LegalClock(s, cfg, start, ticks);
    Tracked(s, cfg, start, ticks, |ticks|);
    OneIsOne(s, cfg, ticks, |ticks|);
    assert ticks[..|ticks|] == ticks;
    ListedMinKept(s, cfg, start, ticks);
  }

  // ------------------------------------------------------------------ a run that loses every slot

  /** Light load all along; the router refuses calls from 1000 to 1010. */
  const OUTAGE: seq<Tick> :=
    [PairTick(950, QUIET, true), PairTick(1000, QUIET, false), PairTick(1010, QUIET, false), PairTick(1040, QUIET, true)]

  const FIRST := Retirement(0, 1000)
  const SECOND := Retirement(1, 1010)

  function PairRetiring(retiring: seq<Retirement>, idleSince: Option<int>): State {
    Pair(idleSince).(retiring := retiring)
  }

  function PairReplicas(): seq<Replica> {
    [Replica(PAIR[0], true, 0, 0), Replica(PAIR[1], true, 0, 0)]
  }

  lemma {:induction false} CandidatesOfTwo(a: Replica, b: Replica, retiring: seq<Retirement>)
    ensures Candidates([a, b], retiring) ==
            (if Retiring(retiring, a.row.name) then [] else [a]) + (if Retiring(retiring, b.row.name) then [] else [b])
  {
    hide Retiring;
    assert [a, b][..1] == [a] && [a][..0] == [];
    assert Candidates([a], retiring) == (if Retiring(retiring, a.row.name) then [] else [a]);
  }

  lemma {:induction false} PairCandidates()
    ensures var rs := PairReplicas();
            && Candidates(rs, []) == rs && Candidates(rs, [FIRST]) == [rs[1]] && Candidates(rs, [FIRST, SECOND]) == []
            && Victim(rs) == rs[0] && Victim([rs[1]]) == rs[1]
  {
    hide Candidates;
    var rs := PairReplicas();
    CandidatesOfTwo(rs[0], rs[1], []);
    CandidatesOfTwo(rs[0], rs[1], [FIRST]);
    CandidatesOfTwo(rs[0], rs[1], [FIRST, SECOND]);
    assert FIRST in [FIRST] && FIRST in [FIRST, SECOND] && SECOND in [FIRST, SECOND];
    assert Retiring([FIRST], 0) && !Retiring([FIRST], 1) && Retiring([FIRST, SECOND], 0) && Retiring([FIRST, SECOND], 1);
    assert rs[..1] == [rs[0]];
  }

  /** A cycle under light load, before any drain is over. */
  lemma {:induction false} QuietCycle(retiring: seq<Retirement>, since: Option<int>, now: int, wireOk: bool)
    requires now >= 950 && forall r :: r in retiring ==> now - r.started < TIGHT.drain
    ensures var s, env := PairRetiring(retiring, since), PairEnv(now, QUIET, wireOk);
            && Cycled(s, TIGHT, env) == ScaledDown(s, TIGHT, env, PairReplicas()).s
            && Healthy(PairReplicas()) == PairReplicas()
            && Replicas(PAIR, env) == PairReplicas()
            && Light(s, TIGHT, env) && !ReturnsEarly(s, TIGHT, env)
  {
    hide EnsuredMin, ReapedFrom, FinishedFrom, ScaledDown, Healthy, Busy, Queued, CountAlive;
    var s, env := PairRetiring(retiring, since), PairEnv(now, QUIET, wireOk);
    PairServes(now, QUIET, wireOk);
    PairIsLeftAlone(s, now, QUIET, wireOk);
    assert Replicas(PAIR, env) == PairReplicas();
    FinishOutcome(s, TIGHT, env, PairReplicas(), retiring);
  }

  lemma {:induction false} OutageReaches()
    ensures Reached(Pair(None), TIGHT, OUTAGE[..1]) == Pair(Some(950))
    ensures Reached(Pair(None), TIGHT, OUTAGE[..2]) == PairRetiring([FIRST], Some(950))
    ensures Reached(Pair(None), TIGHT, OUTAGE[..3]) == PairRetiring([FIRST, SECOND], None)
    ensures Raised(Pair(Some(950)), TIGHT, OUTAGE[1].env)
    ensures CanRetire(PairRetiring([FIRST], Some(950)), TIGHT, OUTAGE[2].env)
  {
    hide Cycled, Healthy, Candidates, Victim, Light, ReturnsEarly, Dropped;
    assert OUTAGE[..3][..2] == OUTAGE[..2] && OUTAGE[..2][..1] == OUTAGE[..1] && OUTAGE[..1][..0] == [];
    PairCandidates();
    QuietCycle([], None, 950, true);
    QuietCycle([], Some(950), 1000, false);
    QuietCycle([FIRST], Some(950), 1010, false);
    NoneRetiring([], 0);
    ChosenIsNew(PairReplicas(), [FIRST], 1010);
    assert [] + [FIRST] == [FIRST] && [FIRST] + [SECOND] == [FIRST, SECOND];
    QuietFinished(Some(950), 1000, false);
  }

  lemma {:induction false} QuietFinished(since: Option<int>, now: int, wireOk: bool)
    requires now >= 950
    ensures Finished(Pair(since), TIGHT, PairEnv(now, QUIET, wireOk)) == Some(Pair(since))
  {
    hide EnsuredMin, ReapedFrom;
    PairIsLeftAlone(Pair(since), now, QUIET, wireOk);
  }

  const DRAINED := PairEnv(1040, QUIET, true)

  lemma {:induction false} SecondDrains(s: State)
    requires s.rows == [PAIR[1]] && s.retiring == [SECOND]
    ensures FinishedFrom(s, TIGHT, DRAINED, PairReplicas(), [SECOND]) ==
            Result(s.(rows := [], retiring := [], lastScale := 1040), true)
  {
    var rs := PairReplicas();
    assert rs[1..][0] == rs[1] && FindReplica(rs[1..], 1) == Some(rs[1]) && FindReplica(rs, 1) == Some(rs[1]);
    assert [PAIR[1]][..0] == [] && WithoutMid([PAIR[1]], 1) == [];
    DroppedOne(SECOND);
    assert [SECOND][1..] == [];
  }

  lemma {:induction false} BothDrain(s: State)
    requires s.rows == PAIR && s.retiring == [FIRST, SECOND]
    ensures FinishedFrom(s, TIGHT, DRAINED, PairReplicas(), [FIRST, SECOND]) ==
            Result(s.(rows := [], retiring := [], lastScale := 1040), true)
  {
    var rs := PairReplicas();
    assert FindReplica(rs, 0) == Some(rs[0]);
    assert PAIR[..1] == [PAIR[0]] && [PAIR[0]][..0] == [];
    assert WithoutMid(PAIR, 0) == [PAIR[1]];
    DroppedOne(FIRST);
    assert [FIRST, SECOND][..1] == [FIRST] && [FIRST, SECOND][1] == SECOND;
    assert Dropped([FIRST, SECOND], 0) == Dropped([FIRST], 0) + [SECOND] == [SECOND];
    assert [FIRST, SECOND][1..] == [SECOND];
    SecondDrains(s.(rows := [PAIR[1]], retiring := [SECOND], lastScale := 1040));
  }

  /** At 1040 both drains are over. */
  lemma {:induction false} BothGo()
    ensures Cycled(PairRetiring([FIRST, SECOND], None), TIGHT, DRAINED).rows == []
  {
    hide EnsuredMin, ReapedFrom, Healthy, Busy, Queued, FinishedFrom;
    var s := PairRetiring([FIRST, SECOND], None);
    PairServes(1040, QUIET, true);
    PairIsLeftAlone(s, 1040, QUIET, true);
    assert Replicas(PAIR, DRAINED) == PairReplicas();
    BothDrain(s);
  }

  predicate SamePair(s: State) {
    s.rows == PAIR && s.nextMid == 2 && s.unhealthySince == map[]
  }

  lemma AlwaysPair(retiring: seq<Retirement>, since: Option<int>)
    ensures SamePair(PairRetiring(retiring, since)) && SamePair(Pair(since))
  {
  }

  /** The same two slots are listed by every cycle up to the last. */
  lemma {:induction false} OutageRows(i: nat)
    requires i < 4
    ensures SamePair(Reached(Pair(None), TIGHT, OUTAGE[..i]))
  {
    hide Reached, SamePair, PairRetiring, Pair, Raised, CanRetire;
    OutageReaches();
    AlwaysPair([], Some(950));
    AlwaysPair([], None);
    AlwaysPair([FIRST], Some(950));
    AlwaysPair([FIRST, SECOND], None);
    assert OUTAGE[..0] == [];
    FreshClock(Pair(None), TIGHT);
  }

  lemma {:induction false} OutageDrift(s: State, i: nat)
    requires i < 4 && s.rows == PAIR && s.nextMid == 2
    ensures Drifted(s, OUTAGE[i]) && NoDeaths(s, OUTAGE[i])
  {
    assert OUTAGE[i].rows == PAIR && OUTAGE[i].nextMid == 2;
    assert forall r :: r in PAIR ==> Used(PAIR, r.name);
  }

  lemma {:induction false} OutageIsLegal(n: nat)
    requires n <= 4
    ensures Legal(Pair(None), TIGHT, 950, OUTAGE[..n]) && (n < 4 ==> Calm(Pair(None), TIGHT, OUTAGE[..n]))
    decreases n
  {
    hide Reached, Drifted, NoDeaths, NoReap;
    if n > 0 {
      OutageIsLegal(n - 1);
      assert OUTAGE[..n][..n - 1] == OUTAGE[..n - 1] && OUTAGE[..n][n - 1] == OUTAGE[n - 1];
      var before := Reached(Pair(None), TIGHT, OUTAGE[..n - 1]);
      OutageRows(n - 1);
      OutageDrift(before, n - 1);
      PairNoReap(Found(before, OUTAGE[n - 1]), OUTAGE[n - 1].env.now, OUTAGE[n - 1].env.wireOk);
    }
  }

  lemma PairNoReap(s: State, now: int, wireOk: bool)
    requires s.rows == PAIR && s.unhealthySince == map[]
    ensures NoReap(s, TIGHT, PairEnv(now, QUIET, wireOk))
  {
    hide EnsuredMin, ReapedFrom;
    PairIsLeftAlone(s, now, QUIET, wireOk);
  }

  /** The router refuses the retirement at 1000; at 1010 the window is still over and a second slot is retired; at
      1040 both are destroyed, although one is the minimum and nothing died or was reaped. */
  lemma {:induction false} OutageLosesEverySlot()
    ensures Bounded(Pair(None), TIGHT) && OneRetiring(Pair(None), 950) && Behind(Pair(None), 950) && Paced(TIGHT)
    ensures Legal(Pair(None), TIGHT, 950, OUTAGE) && Calm(Pair(None), TIGHT, OUTAGE[..3])
    ensures Relapse(Pair(None), TIGHT, OUTAGE, 1, 2) && RetiringAfter(Pair(None), TIGHT, OUTAGE, 3) == 2
    ensures CountAlive(At(Pair(None), TIGHT, OUTAGE, 3).rows) == 2
    ensures |Reached(Pair(None), TIGHT, OUTAGE).rows| < TIGHT.minReplicas
  {
    hide Cycled, Raised, CanRetire, Legal, Calm;
    OutageReaches();
    OutageIsLegal(3);
    OutageIsLegal(4);
    BothGo();
    PairServes(1040, QUIET, true);
    assert OUTAGE[..4] == OUTAGE && OUTAGE[..4][..3] == OUTAGE[..3];
    assert At(Pair(None), TIGHT, OUTAGE, 1) == Pair(Some(950));
    assert At(Pair(None), TIGHT, OUTAGE, 2) == PairRetiring([FIRST], Some(950));
    assert At(Pair(None), TIGHT, OUTAGE, 3) == PairRetiring([FIRST, SECOND], None);
  }
}
