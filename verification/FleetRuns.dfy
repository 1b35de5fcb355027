/**
Runs of the fleet manager: the provider's rows drift between cycles (slots die, change status, age or
machine; nobody else creates one), the clock never goes back. The maximum, the choice of the slot to retire,
and the minimum of listed slots while one is retired at a time.
*/
module FleetRuns {
  import opened Options
  import opened Fleet

  /** The rows as the next cycle finds them, and what that cycle observes. */
  datatype Tick = Tick(rows: seq<Row>, nextMid: nat, env: Env)

  ghost predicate Drifted(s: State, tick: Tick) {
    && DistinctNames(tick.rows) && DistinctMids(tick.rows, tick.nextMid)
    && |tick.rows| <= |s.rows| && s.nextMid <= tick.nextMid
    && (forall r :: r in tick.rows ==> Used(s.rows, r.name))
  }

  function Ticked(s: State, cfg: Config, tick: Tick): State {
    Cycled(s.(rows := tick.rows, nextMid := tick.nextMid), cfg, tick.env)
  }

  function Reached(s: State, cfg: Config, ticks: seq<Tick>): State {
    if ticks == [] then s else Ticked(Reached(s, cfg, ticks[..|ticks| - 1]), cfg, ticks[|ticks| - 1])
  }

  function ClockAfter(start: int, ticks: seq<Tick>): int {
    if ticks == [] then start else ticks[|ticks| - 1].env.now
  }

  ghost predicate Legal(s: State, cfg: Config, start: int, ticks: seq<Tick>) {
    ticks != [] ==>
      var front, last := ticks[..|ticks| - 1], ticks[|ticks| - 1];
      Legal(s, cfg, start, front) && Drifted(Reached(s, cfg, front), last) && ClockAfter(start, front) <= last.env.now
  }

  /** Over any run the fleet stays within the maximum, with distinct slot names. */
  lemma {:induction false} RunBounded(s: State, cfg: Config, start: int, ticks: seq<Tick>)
    requires Bounded(s, cfg) && Legal(s, cfg, start, ticks)
    ensures Bounded(Reached(s, cfg, ticks), cfg)
  {
    hide Cycled, DistinctNames, DistinctMids;
    if ticks != [] {
      var front, last := ticks[..|ticks| - 1], ticks[|ticks| - 1];
      var before := Reached(s, cfg, front);
      RunBounded(s, cfg, start, front);
      CycleSafe(before.(rows := last.rows, nextMid := last.nextMid), cfg, last.env);
    }
  }

  /** What a cycle finds: the manager's memory and the rows it lists. */
  function Found(s: State, tick: Tick): State {
    s.(rows := tick.rows, nextMid := tick.nextMid)
  }

  // ------------------------------------------------------------------ what a cycle does to the retirements

  /** The idle window covers the drain window, and scaling rests after a scaling step. */
  predicate Paced(cfg: Config) {
    cfg.idleFor >= cfg.drain && cfg.cooldown > 0
  }

  lemma DroppedOne(r: Retirement)
    ensures Dropped([r], r.name) == []
  {
    assert [r][..0] == [];
  }

  /** Finishing either leaves the one retirement waiting, or clears it and restarts the cooldown. */
  lemma {:induction false} FinishOne(s: State, cfg: Config, env: Env, replicas: seq<Replica>)
    requires |s.retiring| <= 1
    ensures var r := FinishedFrom(s, cfg, env, replicas, s.retiring);
            && (r.s.idleSince == s.idleSince)
            && (s.retiring == [] ==> r == Result(s, true))
            && (s.retiring != [] ==>
                  if env.now - s.retiring[0].started < cfg.drain then r == Result(s, true)
                  else if r.ok then r.s.retiring == [] && r.s.lastScale == env.now
                  else r.s == s)
  {
    hide Dropped;
    if s.retiring != [] {
      var first := s.retiring[0];
      assert s.retiring == [first] && s.retiring[1..] == [];
      DroppedOne(first);
    }
  }

  lemma CreatedKeeps(s: State, cfg: Config, env: Env)
    ensures Created(s, cfg, env).s.retiring == s.retiring && Created(s, cfg, env).s.idleSince == s.idleSince
  {
  }

  lemma {:induction false} NoneRetiring(retiring: seq<Retirement>, name: nat)
    requires retiring == []
    ensures Dropped(retiring, name) == []
  {
  }

  lemma ReapKeepsPlans(s: State, cfg: Config, env: Env, r: Replica)
    ensures match ReapOne(s, cfg, env, r)
            case GoOn(next) => next.retiring == s.retiring && next.idleSince == s.idleSince
            case Stop(result) => result.s.retiring == s.retiring && result.s.idleSince == s.idleSince
  {
    hide Created;
    if !r.healthy {
      var name := r.row.name;
      var seen := s.(firstSeen := Seen(r.row, s.firstSeen, env.now));
      var first := if name in seen.unhealthySince then seen.unhealthySince[name] else env.now;
      var noted := seen.(unhealthySince := seen.unhealthySince[name := first]);
      CreatedKeeps(noted, cfg, env);
      CreatedKeeps(Destroyed(noted, env, r.row.mid).s, cfg, env);
    }
  }

  lemma {:induction false} ReapingKeepsPlans(s: State, cfg: Config, env: Env, replicas: seq<Replica>)
    ensures var s' := ReapedFrom(s, cfg, env, replicas).s; s'.retiring == s.retiring && s'.idleSince == s.idleSince
    decreases |replicas|
  {
    hide ReapOne;
    if replicas != [] {
      ReapKeepsPlans(s, cfg, env, replicas[0]);
      match ReapOne(s, cfg, env, replicas[0])
      case Stop(r) =>
      case GoOn(next) => ReapingKeepsPlans(next, cfg, env, replicas[1..]);
    }
  }

  lemma {:induction false} DroppedNone(retiring: seq<Retirement>, name: nat)
    requires !Retiring(retiring, name)
    ensures Dropped(retiring, name) == retiring
  {
    if retiring != [] {
      var front, last := retiring[..|retiring| - 1], retiring[|retiring| - 1];
      assert retiring == front + [last];
      assert last in retiring;
      forall r | r in front ensures r.name != name {
        assert r in retiring;
      }
      DroppedNone(front, name);
    }
  }

  // ------------------------------------------------------------------ the listed minimum

  /** A slot is being retired only while more than the minimum is there, and it is there itself. */
  ghost predicate AboveMin(s: State, cfg: Config) {
    s.retiring != [] ==> |s.rows| > cfg.minReplicas && Used(s.rows, s.retiring[0].name)
  }

  /** No slot died since the last cycle. */
  ghost predicate NoDeaths(s: State, tick: Tick) {
    |tick.rows| == |s.rows| && forall r :: r in s.rows ==> Used(tick.rows, r.name)
  }

  /** The reap of this cycle destroys no slot. */
  ghost predicate NoReap(s: State, cfg: Config, env: Env) {
    var ensured := EnsuredMin(s, cfg, env, s.rows).s;
    Extends(ReapedFrom(ensured, cfg, env, Replicas(s.rows, env)).s.rows, ensured.rows)
  }

  ghost predicate Extends(rows: seq<Row>, before: seq<Row>) {
    |before| <= |rows| && rows[..|before|] == before
  }

  lemma {:induction false} VictimIsCandidate(candidates: seq<Replica>)
    requires candidates != []
    ensures Victim(candidates) in candidates
    ensures forall c :: c in candidates ==> !Sooner(c, Victim(candidates))
  {
    if |candidates| > 1 {
      var front, last := candidates[..|candidates| - 1], candidates[|candidates| - 1];
      VictimIsCandidate(front);
      assert candidates == front + [last];
    } else {
      assert candidates == [candidates[0]];
    }
  }

  lemma {:induction false} CandidatesAre(healthy: seq<Replica>, retiring: seq<Retirement>, r: Replica)
    ensures r in Candidates(healthy, retiring) <==> r in healthy && !Retiring(retiring, r.row.name)
  {
    hide Retiring;
    if healthy != [] {
      CandidatesAre(healthy[..|healthy| - 1], retiring, r);
      assert healthy == healthy[..|healthy| - 1] + [healthy[|healthy| - 1]];
    }
  }

  lemma {:induction false} HealthyAre(replicas: seq<Replica>, r: Replica)
    ensures r in Healthy(replicas) <==> r in replicas && r.healthy
  {
    if replicas != [] {
      HealthyAre(replicas[..|replicas| - 1], r);
      assert replicas == replicas[..|replicas| - 1] + [replicas[|replicas| - 1]];
    }
  }

  /** The retired slot is healthy, not yet retiring, spot if any such slot is, and the least loaded of its kind. */
  lemma {:induction false} VictimChoice(s: State, cfg: Config, env: Env, replicas: seq<Replica>, other: Replica)
    requires ScaledDown(s, cfg, env, replicas).s.retiring != s.retiring
    requires other in replicas && other.healthy && !Retiring(s.retiring, other.row.name)
    ensures var victim := Victim(Candidates(Healthy(replicas), s.retiring));
            && victim in replicas && victim.healthy && !Retiring(s.retiring, victim.row.name)
            && (other.row.spot ==> victim.row.spot)
            && (other.row.spot == victim.row.spot ==> victim.running + victim.waiting <= other.running + other.waiting)
            && ScaledDown(s, cfg, env, replicas).s.retiring == s.retiring + [Retirement(victim.row.name, env.now)]
  {
    hide Healthy, Candidates, Victim, Retiring, Dropped;
    var candidates := Candidates(Healthy(replicas), s.retiring);
    HealthyAre(replicas, other);
    CandidatesAre(Healthy(replicas), s.retiring, other);
    VictimIsCandidate(candidates);
    var victim := Victim(candidates);
    CandidatesAre(Healthy(replicas), s.retiring, victim);
    HealthyAre(replicas, victim);
    DroppedNone(s.retiring, victim.row.name);
  }

  lemma {:induction false} VictimHasRow(s: State, replicas: seq<Replica>, rows: seq<Row>, env: Env)
    requires replicas == Replicas(rows, env) && Candidates(Healthy(replicas), s.retiring) != []
    ensures Used(rows, Victim(Candidates(Healthy(replicas), s.retiring)).row.name)
  {
    hide Healthy, Candidates, Victim;
    var candidates := Candidates(Healthy(replicas), s.retiring);
    VictimIsCandidate(candidates);
    var victim := Victim(candidates);
    CandidatesAre(Healthy(replicas), s.retiring, victim);
    HealthyAre(replicas, victim);
    var i :| 0 <= i < |replicas| && replicas[i] == victim;
    assert rows[i] in rows && victim.row == rows[i];
  }

  lemma ExtendsUsed(rows: seq<Row>, before: seq<Row>, name: nat)
    requires Extends(rows, before) && Used(before, name)
    ensures Used(rows, name)
  {
    var r :| r in before && r.name == name;
    var i :| 0 <= i < |before| && before[i] == r;
    assert rows[i] == r;
  }

  /** Finishing the one retirement takes away at most that slot. */
  lemma {:induction false} FinishAboveMin(s: State, cfg: Config, env: Env, listed: seq<Row>)
    requires Bounded(s, cfg) && |s.retiring| <= 1 && AboveMin(s, cfg)
    ensures var r := FinishedFrom(s, cfg, env, Replicas(listed, env), s.retiring);
            && (r.s.rows == s.rows || (|r.s.rows| >= |s.rows| - 1 && |r.s.rows| >= cfg.minReplicas && r.s.retiring == []))
            && AboveMin(r.s, cfg)
            && (r.ok && r.s.retiring != [] ==> r.s == s)
  {
    hide Dropped, DistinctNames, DistinctMids, Used;
    if s.retiring != [] {
      var first := s.retiring[0];
      assert s.retiring == [first] && s.retiring[1..] == [];
      DroppedOne(first);
      var replica := FindReplica(Replicas(listed, env), first.name);
      if replica.Some? {
        WithoutMidKeeps(s.rows, replica.value.row.mid, s.nextMid);
      }
    }
  }

  lemma CreatedAboveMin(s: State, cfg: Config, env: Env)
    requires Bounded(s, cfg) && AboveMin(s, cfg)
    ensures AboveMin(Created(s, cfg, env).s, cfg) && Extends(Created(s, cfg, env).s.rows, s.rows)
  {
    hide Created, Used;
    CreateIsSafe(s, cfg, env);
    if s.retiring != [] {
      ExtendsUsed(Created(s, cfg, env).s.rows, s.rows, s.retiring[0].name);
    }
  }

  lemma ScaleDownAboveMin(s: State, cfg: Config, env: Env, listed: seq<Row>)
    requires AboveMin(s, cfg) && Extends(s.rows, listed)
    requires ScaledDown(s, cfg, env, Replicas(listed, env)).s.retiring != s.retiring ==> s.retiring == []
    ensures AboveMin(ScaledDown(s, cfg, env, Replicas(listed, env)).s, cfg)
  {
    hide Healthy, Candidates, Victim, Dropped, Used, RewireRaises;
    var replicas := Replicas(listed, env);
    var candidates := Candidates(Healthy(replicas), s.retiring);
    if ScaledDown(s, cfg, env, replicas).s.retiring != s.retiring {
      VictimHasRow(s, replicas, listed, env);
      ExtendsUsed(s.rows, listed, Victim(candidates).row.name);
      NoneRetiring(s.retiring, Victim(candidates).row.name);
    }
  }

  /** A retirement adds one to those outstanding. */
  lemma {:induction false} ScaledDownAdds(s: State, cfg: Config, env: Env, replicas: seq<Replica>)
    ensures var s' := ScaledDown(s, cfg, env, replicas).s;
            s'.rows == s.rows && (s'.retiring == s.retiring || |s'.retiring| == |s.retiring| + 1)
  {
    hide Healthy, Candidates, Victim, Dropped, RewireRaises, Retiring;
    var candidates := Candidates(Healthy(replicas), s.retiring);
    if candidates != [] {
      VictimIsCandidate(candidates);
      CandidatesAre(Healthy(replicas), s.retiring, Victim(candidates));
      DroppedNone(s.retiring, Victim(candidates).row.name);
    }
  }

  lemma AutoscaleAboveMin(s: State, cfg: Config, env: Env, listed: seq<Row>)
    requires Bounded(s, cfg) && AboveMin(s, cfg) && |s.retiring| <= 1 && Extends(s.rows, listed) && cfg.cooldown > 0
    requires |Autoscaled(s, cfg, env, Replicas(listed, env)).s.retiring| <= 1
    ensures var s' := Autoscaled(s, cfg, env, Replicas(listed, env)).s;
            AboveMin(s', cfg) && (|s'.rows| < |s.rows| ==> |s'.rows| >= cfg.minReplicas)
  {
    hide FinishedFrom, Created, Healthy, ScaledDown, WantsMore, Busy, Queued, DistinctNames, DistinctMids, Used;
    var replicas := Replicas(listed, env);
    FinishAboveMin(s, cfg, env, listed);
    FinishOne(s, cfg, env, replicas);
    var finished := FinishedFrom(s, cfg, env, replicas, s.retiring);
    FinishSafe(s, cfg, env, replicas, s.retiring);
    CreateIsSafe(finished.s, cfg, env);
    CreatedAboveMin(finished.s, cfg, env);
    ScaledDownAdds(finished.s, cfg, env, replicas);
    if finished.ok && env.now - finished.s.lastScale >= cfg.cooldown
       && |ScaledDown(finished.s, cfg, env, replicas).s.retiring| <= 1 {
      ScaleDownAboveMin(finished.s, cfg, env, listed);
    }
  }

  lemma CycleAboveMin(s: State, cfg: Config, env: Env)
    requires Bounded(s, cfg) && AboveMin(s, cfg) && |s.retiring| <= 1 && |Cycled(s, cfg, env).retiring| <= 1
    requires NoReap(s, cfg, env) && cfg.cooldown > 0
    ensures var s' := Cycled(s, cfg, env);
            AboveMin(s', cfg) && (|s'.rows| < |s.rows| ==> |s'.rows| >= cfg.minReplicas)
  {
    hide Created, Autoscaled, ReapedFrom, CountAlive, DistinctNames, DistinctMids, Used;
    var replicas := Replicas(s.rows, env);
    var ensured := EnsuredMin(s, cfg, env, s.rows);
    CreateIsSafe(s, cfg, env);
    CreatedAboveMin(s, cfg, env);
    var reaped := ReapedFrom(ensured.s, cfg, env, replicas);
    ReapSafe(ensured.s, cfg, env, replicas);
    assert Extends(reaped.s.rows, s.rows);
    if s.retiring != [] {
      ExtendsUsed(reaped.s.rows, s.rows, s.retiring[0].name);
    }
    if ensured.ok && reaped.ok {
      AutoscaleAboveMin(reaped.s, cfg, env, s.rows);
    }
  }

  /** At most one retirement is outstanding at every point of the run. */
  ghost predicate OneAtATime(s: State, cfg: Config, ticks: seq<Tick>) {
    |Reached(s, cfg, ticks).retiring| <= 1 && (ticks != [] ==> OneAtATime(s, cfg, ticks[..|ticks| - 1]))
  }

  ghost predicate Calm(s: State, cfg: Config, ticks: seq<Tick>) {
    ticks != [] ==>
      var front, last := ticks[..|ticks| - 1], ticks[|ticks| - 1];
      var before := Reached(s, cfg, front);
      Calm(s, cfg, front) && NoDeaths(before, last) &&
      NoReap(before.(rows := last.rows, nextMid := last.nextMid), cfg, last.env)
  }

  /** With one retirement at a time: a slot is retired only while more than the minimum is listed, and every
      cycle that loses a slot leaves the minimum. */
  lemma {:induction false} ListedMinKept(s: State, cfg: Config, start: int, ticks: seq<Tick>)
    requires Bounded(s, cfg) && AboveMin(s, cfg) && OneAtATime(s, cfg, ticks) && cfg.cooldown > 0
    requires Legal(s, cfg, start, ticks) && Calm(s, cfg, ticks)
    ensures AboveMin(Reached(s, cfg, ticks), cfg)
    ensures ticks != [] ==>
              var before := Reached(s, cfg, ticks[..|ticks| - 1]);
              |Reached(s, cfg, ticks).rows| < |before.rows| ==> |Reached(s, cfg, ticks).rows| >= cfg.minReplicas
  {
    hide Cycled, DistinctNames, DistinctMids, NoReap, Used;
    if ticks != [] {
      var front, last := ticks[..|ticks| - 1], ticks[|ticks| - 1];
      var before := Reached(s, cfg, front);
      assert |before.retiring| <= 1;
      ListedMinKept(s, cfg, start, front);
      RunBounded(s, cfg, start, front);
      StillUsed(before, last);
      CycleAboveMin(Found(before, last), cfg, last.env);
    }
  }

  lemma StillUsed(s: State, tick: Tick)
    requires NoDeaths(s, tick)
    ensures forall name :: Used(s.rows, name) ==> Used(tick.rows, name)
  {
    forall name | Used(s.rows, name) ensures Used(tick.rows, name) {
      var r :| r in s.rows && r.name == name;
    }
  }
}
