/**
The idle clock (scripts/fleet_manager.py: autoscale). The fleet is meant to shrink after light load over the
whole idle window. Over runs: what the clock holds, exactly when the window it measures was light throughout,
and a run that shrinks over a window with heavy load in it.
*/
module FleetIdle {
  import opened Options
  import opened Fleet
  import opened FleetRuns
  import opened FleetMinimum

  // ------------------------------------------------------------------ one cycle

  /** The fleet as the cycle finishes its retirements, when no command has raised. */
  function Finished(s: State, cfg: Config, env: Env): Option<State> {
    var replicas := Replicas(s.rows, env);
    var ensured := EnsuredMin(s, cfg, env, s.rows);
    if !ensured.ok then None
    else
      var reaped := ReapedFrom(ensured.s, cfg, env, replicas);
      if !reaped.ok then None
      else
        var finished := FinishedFrom(reaped.s, cfg, env, replicas, reaped.s.retiring);
        if finished.ok then Some(finished.s) else None
  }

  /** The cycle ends before it looks at its idle clock: a command raised, no slot serves, the fleet rests after
      a scaling step, or it wants more slots. */
  predicate ReturnsEarly(s: State, cfg: Config, env: Env) {
    var healthy := Healthy(Replicas(s.rows, env));
    var finished := Finished(s, cfg, env);
    || finished.None?
    || healthy == []
    || env.now - finished.value.lastScale < cfg.cooldown
    || WantsMore(cfg, healthy)
  }

  /** Some slot serves, and the load of all that serve is light. */
  predicate Light(s: State, cfg: Config, env: Env) {
    var healthy := Healthy(Replicas(s.rows, env));
    healthy != [] && Busy(healthy) + Queued(healthy) < cfg.threshold
  }

  predicate Retires(s: State, cfg: Config, env: Env) {
    var healthy := Healthy(Replicas(s.rows, env));
    && !ReturnsEarly(s, cfg, env) && Light(s, cfg, env)
    && env.now - (if s.idleSince.Some? then s.idleSince.value else env.now) >= cfg.idleFor
    && |s.rows| > cfg.minReplicas && Candidates(healthy, Finished(s, cfg, env).value.retiring) != []
  }

  /** The retirement is recorded, and then the router refuses the rewiring. */
  predicate Raised(s: State, cfg: Config, env: Env) {
    Retires(s, cfg, env) &&
    var healthy := Healthy(Replicas(s.rows, env));
    var retiring := Finished(s, cfg, env).value.retiring;
    RewireRaises(env, healthy, retiring + [Retirement(Victim(Candidates(healthy, retiring)).row.name, env.now)])
  }

  /** Light load is noted and the clock left running. */
  predicate Notes(s: State, cfg: Config, env: Env) {
    !ReturnsEarly(s, cfg, env) && Light(s, cfg, env) && (Retires(s, cfg, env) ==> Raised(s, cfg, env))
  }

  /** The load is not light, or a retirement goes through to the router. */
  predicate Clears(s: State, cfg: Config, env: Env) {
    !ReturnsEarly(s, cfg, env) && (!Light(s, cfg, env) || (Retires(s, cfg, env) && !Raised(s, cfg, env)))
  }

  /** The idle clock of one cycle. */
  lemma {:induction false} ClockStep(s: State, cfg: Config, env: Env)
    ensures Cycled(s, cfg, env).idleSince ==
            if Clears(s, cfg, env) then None
            else if Notes(s, cfg, env) && s.idleSince.None? then Some(env.now)
            else s.idleSince
  {
    hide Created, ReapedFrom, FinishedFrom, CountAlive, Healthy, Candidates, Victim, Dropped, WantsMore, Busy, Queued, RewireRaises;
    var replicas := Replicas(s.rows, env);
    CreatedKeeps(s, cfg, env);
    var ensured := EnsuredMin(s, cfg, env, s.rows);
    ReapingKeepsPlans(ensured.s, cfg, env, replicas);
    var reaped := ReapedFrom(ensured.s, cfg, env, replicas);
    FinishKeepsClock(reaped.s, cfg, env, replicas, reaped.s.retiring);
    var finished := FinishedFrom(reaped.s, cfg, env, replicas, reaped.s.retiring).s;
    CreatedKeeps(finished, cfg, env);
    if Candidates(Healthy(replicas), finished.retiring) != [] {
      ChosenIsNew(Healthy(replicas), finished.retiring, env.now);
    }
  }

  /** The retirements of one cycle: with a cooldown, one is added only while none has drained. */
  lemma {:induction false} RetirementStep(s: State, cfg: Config, env: Env)
    requires cfg.cooldown > 0
    ensures Retires(s, cfg, env) ==>
              && NoneDrained(s, cfg, env) && Finished(s, cfg, env).Some? && Finished(s, cfg, env).value.retiring == s.retiring
              && Candidates(Healthy(Replicas(s.rows, env)), s.retiring) != []
              && Cycled(s, cfg, env).retiring == s.retiring + [Retirement(Chosen(s, env), env.now)]
    ensures !Retires(s, cfg, env) ==> NoneNew(s.retiring, Cycled(s, cfg, env).retiring)
    ensures BeginsRetirement(s, cfg, env) <==> Retires(s, cfg, env)
  {
    hide Created, ReapedFrom, FinishedFrom, CountAlive, Healthy, Candidates, Victim, Dropped, WantsMore, Busy, Queued, RewireRaises,
         NoneNew;
    var replicas := Replicas(s.rows, env);
    CreatedKeeps(s, cfg, env);
    var ensured := EnsuredMin(s, cfg, env, s.rows);
    ReapingKeepsPlans(ensured.s, cfg, env, replicas);
    NoneNewSelf(s.retiring);
    var reaped := ReapedFrom(ensured.s, cfg, env, replicas);
    FinishOutcome(reaped.s, cfg, env, replicas, reaped.s.retiring);
    CreatedKeeps(FinishedFrom(reaped.s, cfg, env, replicas, reaped.s.retiring).s, cfg, env);
    if Candidates(Healthy(replicas), s.retiring) != [] {
      ChosenIsNew(Healthy(replicas), s.retiring, env.now);
    }
  }

  lemma {:induction false} FinishKeepsClock(s: State, cfg: Config, env: Env, replicas: seq<Replica>, list: seq<Retirement>)
    ensures FinishedFrom(s, cfg, env, replicas, list).s.idleSince == s.idleSince
    decreases |list|
  {
    hide Dropped;
    if list != [] {
      if env.now - list[0].started < cfg.drain {
        FinishKeepsClock(s, cfg, env, replicas, list[1..]);
      } else {
        var replica := FindReplica(replicas, list[0].name);
        var gone := if replica.Some? then Destroyed(s, env, replica.value.row.mid) else Result(s, true);
        FinishKeepsClock(gone.s.(retiring := Dropped(gone.s.retiring, list[0].name), lastScale := env.now), cfg, env,
                         replicas, list[1..]);
      }
    }
  }

  // ------------------------------------------------------------------ runs

  /** What cycle i of the run finds. */
  function At(s: State, cfg: Config, ticks: seq<Tick>, i: nat): State
    requires i < |ticks|
  {
    Found(Reached(s, cfg, ticks[..i]), ticks[i])
  }

  predicate NotesAt(s: State, cfg: Config, ticks: seq<Tick>, i: nat)
    requires i < |ticks|
  {
    Notes(At(s, cfg, ticks, i), cfg, ticks[i].env)
  }

  predicate ClearsAt(s: State, cfg: Config, ticks: seq<Tick>, i: nat)
    requires i < |ticks|
  {
    Clears(At(s, cfg, ticks, i), cfg, ticks[i].env)
  }

  predicate LightAt(s: State, cfg: Config, ticks: seq<Tick>, i: nat)
    requires i < |ticks|
  {
    Light(At(s, cfg, ticks, i), cfg, ticks[i].env)
  }

  predicate ReturnsEarlyAt(s: State, cfg: Config, ticks: seq<Tick>, i: nat)
    requires i < |ticks|
  {
    ReturnsEarly(At(s, cfg, ticks, i), cfg, ticks[i].env)
  }

  predicate RetiresAt(s: State, cfg: Config, ticks: seq<Tick>, i: nat)
    requires i < |ticks|
  {
    Retires(At(s, cfg, ticks, i), cfg, ticks[i].env)
  }

  /** Cycle k is the first to note light load since the clock was last cleared before cycle n. */
  predicate WindowFrom(s: State, cfg: Config, ticks: seq<Tick>, n: nat, k: nat)
    requires n <= |ticks|
  {
    && k < n && NotesAt(s, cfg, ticks, k)
    && (forall j :: k < j < n ==> !ClearsAt(s, cfg, ticks, j))
    && (forall j :: 0 <= j < k && NotesAt(s, cfg, ticks, j) ==> exists c :: j < c < k && ClearsAt(s, cfg, ticks, c))
  }

  lemma {:induction false} ReachedStep(s: State, cfg: Config, ticks: seq<Tick>, i: nat)
    requires i < |ticks|
    ensures Reached(s, cfg, ticks[..i + 1]) == Cycled(At(s, cfg, ticks, i), cfg, ticks[i].env)
  {
    assert ticks[..i + 1][..i] == ticks[..i];
  }

  ghost predicate NothingNoted(s: State, cfg: Config, ticks: seq<Tick>, n: nat)
    requires n <= |ticks|
  {
    forall j :: 0 <= j < n && NotesAt(s, cfg, ticks, j) ==> exists c :: j < c < n && ClearsAt(s, cfg, ticks, c)
  }

  lemma {:induction false} ClockHolds(s: State, cfg: Config, ticks: seq<Tick>, n: nat)
    requires s.idleSince.None? && n <= |ticks|
    ensures match Reached(s, cfg, ticks[..n]).idleSince
            case None => NothingNoted(s, cfg, ticks, n)
            case Some(t) => exists k: nat :: WindowFrom(s, cfg, ticks, n, k) && ticks[k].env.now == t
    decreases n
  {
    hide Cycled, Clears, Notes, Retires, Light, ReturnsEarly, Reached;
    if n > 0 {
      var i := n - 1;
      ClockHolds(s, cfg, ticks, i);
      ReachedStep(s, cfg, ticks, i);
      ClockStep(At(s, cfg, ticks, i), cfg, ticks[i].env);
      NotesOrClears(At(s, cfg, ticks, i), cfg, ticks[i].env);
      if ClearsAt(s, cfg, ticks, i) {
      } else if Reached(s, cfg, ticks[..i]).idleSince.Some? {
        var k: nat :| WindowFrom(s, cfg, ticks, i, k) && ticks[k].env.now == Reached(s, cfg, ticks[..i]).idleSince.value;
        assert WindowFrom(s, cfg, ticks, n, k);
      } else if NotesAt(s, cfg, ticks, i) {
        assert WindowFrom(s, cfg, ticks, n, i);
      } else {
        forall j | 0 <= j < n && NotesAt(s, cfg, ticks, j) ensures exists c :: j < c < n && ClearsAt(s, cfg, ticks, c) {
          var c :| j < c < i && ClearsAt(s, cfg, ticks, c);
        }
      }
    } else {
      assert ticks[..0] == [];
      FreshClock(s, cfg);
    }
  }

  lemma {:induction false} FreshClock(s: State, cfg: Config)
    ensures Reached(s, cfg, []) == s
  {
  }

  lemma NotesOrClears(s: State, cfg: Config, env: Env)
    ensures !(Notes(s, cfg, env) && Clears(s, cfg, env))
  {
  }

  /** Main result: over any run of a fresh manager the clock holds t exactly when t is the first cycle that
      noted light load since the clock was last cleared; a retirement the router refuses clears nothing. */
  lemma {:induction false} IdleSinceIff(s: State, cfg: Config, ticks: seq<Tick>, n: nat, t: int)
    requires s.idleSince.None? && n <= |ticks|
    ensures Reached(s, cfg, ticks[..n]).idleSince == Some(t) <==>
            exists k: nat :: WindowFrom(s, cfg, ticks, n, k) && ticks[k].env.now == t
  {
    hide Clears, Notes, Reached, At;
    ClockHolds(s, cfg, ticks, n);
    forall k: nat, l: nat | WindowFrom(s, cfg, ticks, n, k) && WindowFrom(s, cfg, ticks, n, l) ensures k == l {
      OneWindow(s, cfg, ticks, n, k, l);
    }
  }

  lemma OneWindow(s: State, cfg: Config, ticks: seq<Tick>, n: nat, k: nat, l: nat)
    requires n <= |ticks| && WindowFrom(s, cfg, ticks, n, k) && WindowFrom(s, cfg, ticks, n, l)
    ensures k == l
  {
    hide ClearsAt, NotesAt;
  }

  /** Main result: a cycle that retires a slot ends an idle window at least as long as the configured one, whose
      cycles after the first did not clear the clock. The load was light throughout that window exactly when no
      cycle in it returned before the clock while no slot served or the load was not light. */
  lemma ShrinksAfterLightIff(s: State, cfg: Config, ticks: seq<Tick>, n: nat)
    requires s.idleSince.None? && cfg.idleFor > 0 && n < |ticks| && RetiresAt(s, cfg, ticks, n)
    ensures exists k: nat :: WindowFrom(s, cfg, ticks, n, k) && ticks[n].env.now - ticks[k].env.now >= cfg.idleFor
    ensures forall k: nat :: WindowFrom(s, cfg, ticks, n, k) ==>
              ((forall j :: k <= j <= n ==> LightAt(s, cfg, ticks, j)) <==>
               !exists j :: k <= j <= n && ReturnsEarlyAt(s, cfg, ticks, j) && !LightAt(s, cfg, ticks, j))
  {
    hide Light, ReturnsEarly, Reached;
    ClockHolds(s, cfg, ticks, n);
    var since := At(s, cfg, ticks, n).idleSince;
    assert since == Reached(s, cfg, ticks[..n]).idleSince;
    assert since.Some? && ticks[n].env.now - since.value >= cfg.idleFor;
    forall k: nat, j | WindowFrom(s, cfg, ticks, n, k) && k <= j <= n && !ReturnsEarlyAt(s, cfg, ticks, j)
      ensures LightAt(s, cfg, ticks, j)
    {
      assert j == k ==> NotesAt(s, cfg, ticks, j);
      assert k < j < n ==> !ClearsAt(s, cfg, ticks, j);
    }
  }

  // ------------------------------------------------------------------ a window with heavy load in it

  const PAIR: seq<Row> := [Row(0, 0, Running, true, 500), Row(1, 1, Running, true, 500)]
  const QUIET := Probe(true, 0, 0)
  const LOADED := Probe(true, 3, 10)

  function Pair(idleSince: Option<int>): State {
    State(0, idleSince, [], map[], map[], PAIR, 2)
  }

  function PairEnv(now: int, first: Probe, wireOk: bool): Env {
    Env(now, map[0 := first, 1 := QUIET], true, true, true, wireOk)
  }

  function PairTick(now: int, first: Probe, wireOk: bool): Tick {
    Tick(PAIR, 2, PairEnv(now, first, wireOk))
  }

  /** Light load at 1000 and 1055, heavy load in between. */
  const MIXED: seq<Tick> := [PairTick(1000, QUIET, true), PairTick(1030, LOADED, true), PairTick(1055, QUIET, true)]

  lemma {:induction false} TwoHealthy(a: Replica, b: Replica)
    requires a.healthy && b.healthy
    ensures Healthy([a, b]) == [a, b]
    ensures Busy([a, b]) == a.running + b.running && Queued([a, b]) == a.waiting + b.waiting
  {
    assert [a, b][..1] == [a] && [a][..0] == [];
    assert Healthy([a]) == [a] && Busy([a]) == a.running && Queued([a]) == a.waiting;
  }

  lemma PairServes(now: int, first: Probe, wireOk: bool)
    requires first == QUIET || first == LOADED
    ensures var replicas := Replicas(PAIR, PairEnv(now, first, wireOk));
            && Healthy(replicas) == replicas && Busy(replicas) == first.running && Queued(replicas) == first.waiting
            && CountAlive(PAIR) == 2
  {
    var replicas := Replicas(PAIR, PairEnv(now, first, wireOk));
    assert replicas == [replicas[0], replicas[1]];
    TwoHealthy(replicas[0], replicas[1]);
    assert PAIR[..1] == [PAIR[0]] && [PAIR[0]][..0] == [];
    assert CountAlive([PAIR[0]]) == 1;
  }

  /** With both slots healthy the minimum and the reap change nothing. */
  lemma {:induction false} PairIsLeftAlone(s: State, now: int, first: Probe, wireOk: bool)
    requires first == QUIET || first == LOADED
    requires s.rows == PAIR && s.unhealthySince == map[]
    ensures var env := PairEnv(now, first, wireOk);
            && EnsuredMin(s, TIGHT, env, PAIR) == Result(s, true)
            && ReapedFrom(s, TIGHT, env, Replicas(PAIR, env)) == Result(s, true)
  {
    hide CountAlive, Created, Healthy;
    PairServes(now, first, wireOk);
    var env := PairEnv(now, first, wireOk);
    var replicas := Replicas(PAIR, env);
    assert s.unhealthySince - {0} == map[] && s.unhealthySince - {1} == map[];
    assert ReapOne(s, TIGHT, env, replicas[0]) == GoOn(s) && ReapOne(s, TIGHT, env, replicas[1]) == GoOn(s);
    assert replicas[1..][0] == replicas[1] && replicas[1..][1..] == [];
    assert ReapedFrom(s, TIGHT, env, replicas[1..]) == Result(s, true);
  }

  lemma PairClock(since: Option<int>, now: int, first: Probe)
    requires first == QUIET || first == LOADED
    requires now >= 1000 && (since.None? || since == Some(1000))
    ensures var s, env := Pair(since), PairEnv(now, first, true);
            && Light(s, TIGHT, env) == (first == QUIET) && ReturnsEarly(s, TIGHT, env) == (first == LOADED)
            && (Retires(s, TIGHT, env) <==> first == QUIET && since.Some? && now - 1000 >= TIGHT.idleFor)
  {
    hide EnsuredMin, ReapedFrom, Healthy, Busy, Queued, Candidates;
    PairServes(now, first, true);
    PairIsLeftAlone(Pair(since), now, first, true);
    CandidateThere(Replicas(PAIR, PairEnv(now, first, true)));
  }

  /** Away from a retirement such a cycle changes nothing but the clock. */
  lemma PairCycle(since: Option<int>, now: int, first: Probe)
    requires first == QUIET || first == LOADED
    requires now >= 1000 && (since.None? || since == Some(1000))
    requires !Retires(Pair(since), TIGHT, PairEnv(now, first, true))
    ensures Cycled(Pair(since), TIGHT, PairEnv(now, first, true)) ==
            Pair(if first == QUIET && since.None? then Some(now) else since)
  {
    hide ReapedFrom, EnsuredMin, Healthy, Busy, Queued, Candidates, CountAlive, Created, Victim, RewireRaises;
    PairServes(now, first, true);
    PairIsLeftAlone(Pair(since), now, first, true);
    PairClock(since, now, first);
    CandidateThere(Replicas(PAIR, PairEnv(now, first, true)));
  }

  lemma MixedReaches()
    ensures Reached(Pair(None), TIGHT, MIXED[..1]) == Pair(Some(1000))
    ensures Reached(Pair(None), TIGHT, MIXED[..2]) == Pair(Some(1000))
  {
    hide Cycled, Retires, Light, ReturnsEarly;
    assert MIXED[..2][..1] == MIXED[..1] && MIXED[..1][..0] == [];
    PairClock(None, 1000, QUIET);
    PairCycle(None, 1000, QUIET);
    PairClock(Some(1000), 1030, LOADED);
    PairCycle(Some(1000), 1030, LOADED);
  }

  /** Heavy load at 1030 asks for a third slot, which the maximum forbids, and leaves the idle clock running:
      at 1055, 25 seconds later, a slot is retired although the window asks for 50 seconds of light load. */
  lemma IdleWindowSpansLoad()
    ensures Legal(Pair(None), TIGHT, 1000, MIXED)
    ensures RetiresAt(Pair(None), TIGHT, MIXED, 2)
    ensures BeginsRetirement(At(Pair(None), TIGHT, MIXED, 2), TIGHT, MIXED[2].env)
    ensures !LightAt(Pair(None), TIGHT, MIXED, 1) && MIXED[2].env.now - MIXED[1].env.now < TIGHT.idleFor
    ensures WindowFrom(Pair(None), TIGHT, MIXED, 2, 0)
  {
    hide Cycled, Retires, Light, ReturnsEarly, BeginsRetirement, Raised;
    MixedReaches();
    assert MIXED[..0] == [] && MIXED[..3] == MIXED;
    PairClock(None, 1000, QUIET);
    PairClock(Some(1000), 1030, LOADED);
    PairClock(Some(1000), 1055, QUIET);
    RetirementStep(Pair(Some(1000)), TIGHT, MIXED[2].env);
    MixedIsLegal();
  }

  lemma MixedIsLegal()
    ensures Legal(Pair(None), TIGHT, 1000, MIXED)
  {
    hide Cycled;
    MixedReaches();
    assert MIXED[..3][..2] == MIXED[..2] && MIXED[..2][..1] == MIXED[..1] && MIXED[..1][..0] == [];
    assert Legal(Pair(None), TIGHT, 1000, MIXED[..0]);
    assert forall r :: r in PAIR ==> Used(PAIR, r.name);
    assert Legal(Pair(None), TIGHT, 1000, MIXED[..1]);
    assert Legal(Pair(None), TIGHT, 1000, MIXED[..2]);
  }
}
