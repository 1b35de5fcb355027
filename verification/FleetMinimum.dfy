/**
The fleet's minimum (scripts/fleet_manager.py: ensure_min, reap, autoscale). ensure_min counts the slots that
are alive; scaling down counts every slot listed at the start of the cycle, paused, gone and reaped ones too.
Exactly when a cycle begins a retirement, and exactly when that keeps the minimum of alive slots.
*/
module FleetMinimum {
  import opened Options
  import opened Fleet
  import opened FleetRuns

  // ------------------------------------------------------------------ alive slots

  function AliveNames(rows: seq<Row>): set<nat> {
    set r | r in rows && Alive(r) :: r.name
  }

  lemma {:induction false} AliveNamesCount(rows: seq<Row>)
    requires DistinctNames(rows)
    ensures |AliveNames(rows)| == CountAlive(rows)
  {
    if rows == [] {
      assert AliveNames(rows) == {};
    } else {
      var front, last := rows[..|rows| - 1], rows[|rows| - 1];
      AliveNamesCount(front);
      assert rows == front + [last];
      if Alive(last) {
        assert AliveNames(rows) == AliveNames(front) + {last.name};
        assert last.name !in AliveNames(front);
      } else {
        assert AliveNames(rows) == AliveNames(front);
      }
    }
  }

  /** Removing a machine removes the name of its slot. */
  lemma {:induction false} AliveNamesWithout(rows: seq<Row>, i: nat, nextMid: nat)
    requires DistinctNames(rows) && DistinctMids(rows, nextMid) && i < |rows|
    ensures AliveNames(WithoutMid(rows, rows[i].mid)) == AliveNames(rows) - {rows[i].name}
  {
    hide Alive;
    var kept := WithoutMid(rows, rows[i].mid);
    WithoutMidRows(rows, rows[i].mid);
    forall name ensures name in AliveNames(kept) <==> name in AliveNames(rows) && name != rows[i].name {
      if name in AliveNames(kept) {
        var r :| r in kept && Alive(r) && r.name == name;
        var j :| 0 <= j < |rows| && rows[j] == r;
      }
      if name in AliveNames(rows) && name != rows[i].name {
        var r :| r in rows && Alive(r) && r.name == name;
        var j :| 0 <= j < |rows| && rows[j] == r;
        assert r in kept;
      }
    }
  }

  // ------------------------------------------------------------------ what a caller can check beforehand

  /** Since when the reap counts the slot as unhealthy. */
  function UnhealthyFrom(s: State, row: Row, now: int): int {
    if row.name in s.unhealthySince then s.unhealthySince[row.name] else now
  }

  /** The reap leaves it alone: healthy, still booting, or within its grace. */
  predicate LeftAlone(s: State, cfg: Config, env: Env, row: Row) {
    || Probed(row, env).healthy
    || (Alive(row) && AgeOf(row, s.firstSeen, env.now) < cfg.bootTimeout)
    || (row.status == Running && env.now - UnhealthyFrom(s, row, env.now) <= cfg.grace)
  }

  /** The one slot the reap acts on. */
  ghost predicate FirstReapable(s: State, cfg: Config, env: Env, i: nat) {
    && i < |s.rows| && !LeftAlone(s, cfg, env, s.rows[i])
    && forall j :: 0 <= j < i ==> LeftAlone(s, cfg, env, s.rows[j])
  }

  /** A new slot is quietly refused: the listing succeeds, and the fleet is full or one of these slots still boots. */
  ghost predicate Refused(rows: seq<Row>, s: State, cfg: Config, env: Env) {
    env.listOk && (|rows| >= cfg.maxReplicas || exists r :: r in rows && Booting(r, s.firstSeen, cfg, env.now))
  }

  /** The first reapable slot is a hung machine that is destroyed. */
  ghost predicate ReapsHung(s: State, cfg: Config, env: Env) {
    env.destroyOk && exists i: nat :: FirstReapable(s, cfg, env, i) && s.rows[i].status == Running
  }

  /** ensure_min neither creates nor raises. */
  ghost predicate EnsureQuiet(s: State, cfg: Config, env: Env) {
    CountAlive(s.rows) < cfg.minReplicas ==> Refused(s.rows, s, cfg, env)
  }

  /** The reap neither creates nor raises: it acts on no slot, resumes a paused one, or its replacement is refused. */
  ghost predicate ReapQuiet(s: State, cfg: Config, env: Env) {
    forall i: nat :: FirstReapable(s, cfg, env, i) ==>
      match s.rows[i].status
      case Paused => true
      case Running => env.destroyOk && Refused(WithoutMid(s.rows, s.rows[i].mid), s, cfg, env)
      case _ => Refused(s.rows, s, cfg, env)
  }

  /** No retirement has drained. */
  predicate NoneDrained(s: State, cfg: Config, env: Env) {
    forall r :: r in s.retiring ==> env.now - r.started < cfg.drain
  }

  /** Light load and an idle window that is over, past the cooldown, more slots listed than the minimum, and a
      healthy slot that is not retiring. */
  predicate WindowOver(s: State, cfg: Config, env: Env) {
    var healthy := Healthy(Replicas(s.rows, env));
    && healthy != [] && env.now - s.lastScale >= cfg.cooldown && !WantsMore(cfg, healthy)
    && Busy(healthy) + Queued(healthy) < cfg.threshold
    && env.now - (if s.idleSince.Some? then s.idleSince.value else env.now) >= cfg.idleFor
    && |s.rows| > cfg.minReplicas && Candidates(healthy, s.retiring) != []
  }

  /** The slot a retirement would begin with. */
  function Chosen(s: State, env: Env): nat
    requires Candidates(Healthy(Replicas(s.rows, env)), s.retiring) != []
  {
    Victim(Candidates(Healthy(Replicas(s.rows, env)), s.retiring)).row.name
  }

  /** Every slot retiring afterwards was retiring before. */
  ghost predicate NoneNew(before: seq<Retirement>, after: seq<Retirement>) {
    forall name :: Retiring(after, name) ==> Retiring(before, name)
  }

  ghost predicate BeginsRetirement(s: State, cfg: Config, env: Env) {
    !NoneNew(s.retiring, Cycled(s, cfg, env).retiring)
  }

  // ------------------------------------------------------------------ creation

  /** Later in a cycle, machines first seen in it have been noted. */
  ghost predicate SameAges(before: map<nat, int>, after: map<nat, int>, now: int) {
    && (forall m :: m in before ==> m in after && after[m] == before[m])
    && (forall m :: m in after && m !in before ==> after[m] == now)
  }

  lemma SameAge(row: Row, before: map<nat, int>, after: map<nat, int>, now: int)
    requires SameAges(before, after, now)
    ensures AgeOf(row, after, now) == AgeOf(row, before, now)
    ensures SameAges(before, Seen(row, after, now), now)
  {
  }

  lemma {:induction false} ScanKeepsAges(rows: seq<Row>, before: map<nat, int>, seen: map<nat, int>, cfg: Config, now: int)
    requires SameAges(before, seen, now)
    ensures SameAges(before, ScanFrom(rows, seen, cfg, now).1, now)
  {
    hide SameAges, Seen, AgeOf;
    if rows != [] {
      SameAge(rows[0], before, seen, now);
      if !Alive(rows[0]) {
        ScanKeepsAges(rows[1..], before, seen, cfg, now);
      } else if !Booting(rows[0], seen, cfg, now) {
        ScanKeepsAges(rows[1..], before, Seen(rows[0], seen, now), cfg, now);
      }
    }
  }

  /** Only what the reap and the scan note about machines and slots differs. */
  ghost predicate SameFleet(s: State, t: State) {
    t.rows == s.rows && t.lastScale == s.lastScale && t.retiring == s.retiring && t.idleSince == s.idleSince && t.nextMid == s.nextMid
  }

  /** A creation is refused, or fails, or restarts the cooldown. */
  lemma CreationOutcome(s: State, t: State, cfg: Config, env: Env)
    requires SameAges(s.firstSeen, t.firstSeen, env.now) && DistinctMids(t.rows, t.nextMid)
    ensures var r := Created(t, cfg, env);
            if Refused(t.rows, s, cfg, env) then
              r.ok && SameFleet(t, r.s) && r.s.unhealthySince == t.unhealthySince && SameAges(s.firstSeen, r.s.firstSeen, env.now)
            else r.ok ==> r.s.lastScale == env.now && r.s.retiring == t.retiring
  {
    hide SameAges, ScanFrom, FreeName, OnDemandAlive;
    forall r ensures Booting(r, t.firstSeen, cfg, env.now) == Booting(r, s.firstSeen, cfg, env.now) {
      SameAge(r, s.firstSeen, t.firstSeen, env.now);
    }
    ScanDefers(t.rows, t.firstSeen, cfg, env.now);
    ScanKeepsAges(t.rows, s.firstSeen, t.firstSeen, cfg, env.now);
  }

  // ------------------------------------------------------------------ the reap

  /** Before row k the reap has noted slots other than those still to come. */
  ghost predicate Noted(s: State, t: State, now: int, k: nat) {
    && SameAges(s.firstSeen, t.firstSeen, now) && k <= |s.rows|
    && forall j :: k <= j < |s.rows| ==> UnhealthyFrom(t, s.rows[j], now) == UnhealthyFrom(s, s.rows[j], now)
  }

  lemma NotedElsewhere(s: State, t: State, t': State, now: int, k: nat)
    requires Noted(s, t, now, k) && k < |s.rows| && DistinctNames(s.rows)
    requires SameAges(s.firstSeen, t'.firstSeen, now)
    requires forall name :: name != s.rows[k].name ==>
               (name in t'.unhealthySince <==> name in t.unhealthySince) &&
               (name in t'.unhealthySince ==> t'.unhealthySince[name] == t.unhealthySince[name])
    ensures Noted(s, t', now, k + 1)
  {
    hide SameAges;
  }

  lemma ReapGoesOn(s: State, t: State, cfg: Config, env: Env, k: nat)
    requires Noted(s, t, env.now, k) && k < |s.rows| && DistinctNames(s.rows)
    requires LeftAlone(s, cfg, env, s.rows[k])
    ensures match ReapOne(t, cfg, env, Probed(s.rows[k], env))
            case GoOn(next) => Noted(s, next, env.now, k + 1) && SameFleet(t, next)
            case Stop(_) => false
  {
    hide Created, SameAges, AgeOf, Seen, Destroyed;
    var row := s.rows[k];
    SameAge(row, s.firstSeen, t.firstSeen, env.now);
    match ReapOne(t, cfg, env, Probed(row, env))
    case GoOn(next) => NotedElsewhere(s, t, next, env.now, k);
    case Stop(_) =>
  }

  /** Where a quiet reap leaves the fleet. */
  ghost predicate ReapedTo(s: State, t: State, rows: seq<Row>) {
    t.rows == rows && t.lastScale == s.lastScale && t.retiring == s.retiring && t.idleSince == s.idleSince
  }

  /** The reap stops at the first slot it does not leave alone. */
  lemma ReapStops(s: State, t: State, cfg: Config, env: Env, k: nat)
    requires SameFleet(s, t) && Noted(s, t, env.now, k) && Bounded(s, cfg) && FirstReapable(s, cfg, env, k)
    ensures match ReapOne(t, cfg, env, Probed(s.rows[k], env))
            case GoOn(_) => false
            case Stop(r) =>
              if ReapQuiet(s, cfg, env) then
                r.ok && ReapedTo(s, r.s, if s.rows[k].status == Running then WithoutMid(s.rows, s.rows[k].mid) else s.rows)
              else r.ok ==> r.s.lastScale == env.now && r.s.retiring == s.retiring
  {
    hide Created, SameAges, AgeOf, Seen, Refused, WithoutMid, DistinctMids, DistinctNames;
    var row := s.rows[k];
    SameAge(row, s.firstSeen, t.firstSeen, env.now);
    assert forall i: nat :: FirstReapable(s, cfg, env, i) ==> i == k;
    var name := row.name;
    var seen := t.(firstSeen := Seen(row, t.firstSeen, env.now));
    var first := if name in seen.unhealthySince then seen.unhealthySince[name] else env.now;
    var noted := seen.(unhealthySince := seen.unhealthySince[name := first]);
    WithoutMidKeeps(s.rows, row.mid, s.nextMid);
    CreationOutcome(s, noted, cfg, env);
    CreationOutcome(s, noted.(rows := WithoutMid(s.rows, row.mid)), cfg, env);
  }

  /** The rows a quiet reap leaves. */
  ghost function RowsLeft(s: State, cfg: Config, env: Env): seq<Row> {
    if ReapsHung(s, cfg, env) then
      var i: nat :| FirstReapable(s, cfg, env, i) && s.rows[i].status == Running;
      WithoutMid(s.rows, s.rows[i].mid)
    else s.rows
  }

  lemma {:induction false} ReapOutcome(s: State, t: State, cfg: Config, env: Env, k: nat)
    requires SameFleet(s, t) && Noted(s, t, env.now, k) && Bounded(s, cfg)
    requires forall j :: 0 <= j < k ==> LeftAlone(s, cfg, env, s.rows[j])
    ensures var r := ReapedFrom(t, cfg, env, Replicas(s.rows, env)[k..]);
            if ReapQuiet(s, cfg, env) then r.ok && ReapedTo(s, r.s, RowsLeft(s, cfg, env))
            else r.ok ==> r.s.lastScale == env.now && r.s.retiring == s.retiring
    decreases |s.rows| - k
  {
    hide ReapOne, LeftAlone, SameAges, Refused, WithoutMid, DistinctMids, DistinctNames;
    var replicas := Replicas(s.rows, env);
    if k < |s.rows| {
      assert replicas[k..][0] == Probed(s.rows[k], env) && replicas[k..][1..] == replicas[k + 1..];
      if LeftAlone(s, cfg, env, s.rows[k]) {
        ReapGoesOn(s, t, cfg, env, k);
        ReapOutcome(s, ReapOne(t, cfg, env, Probed(s.rows[k], env)).s, cfg, env, k + 1);
      } else {
        assert FirstReapable(s, cfg, env, k);
        assert forall i: nat :: FirstReapable(s, cfg, env, i) ==> i == k;
        ReapStops(s, t, cfg, env, k);
      }
    }
  }

  // ------------------------------------------------------------------ a cycle that begins a retirement

  lemma {:induction false} CandidateThere(replicas: seq<Replica>)
    requires Healthy(replicas) != []
    ensures Candidates(Healthy(replicas), []) != []
  {
    var healthy := Healthy(replicas);
    CandidatesAre(healthy, [], healthy[0]);
    assert healthy[0] in healthy;
  }

  lemma {:induction false} DroppedKeeps(retiring: seq<Retirement>, name: nat)
    ensures NoneNew(retiring, Dropped(retiring, name))
    ensures forall r :: r in Dropped(retiring, name) <==> r in retiring && r.name != name
  {
    if retiring != [] {
      var front, last := retiring[..|retiring| - 1], retiring[|retiring| - 1];
      DroppedKeeps(front, name);
      assert retiring == front + [last];
    }
  }

  lemma NoneNewTrans(a: seq<Retirement>, b: seq<Retirement>, c: seq<Retirement>)
    requires NoneNew(a, b) && NoneNew(b, c)
    ensures NoneNew(a, c)
  {
  }

  /** Finishing begins nothing; it leaves all as it is when nothing has drained, and restarts the cooldown or
      fails otherwise. */
  lemma {:induction false} FinishOutcome(s: State, cfg: Config, env: Env, replicas: seq<Replica>, list: seq<Retirement>)
    ensures var r := FinishedFrom(s, cfg, env, replicas, list);
            && NoneNew(s.retiring, r.s.retiring)
            && ((forall x :: x in list ==> env.now - x.started < cfg.drain) ==> r == Result(s, true))
            && ((s.lastScale == env.now || exists x :: x in list && env.now - x.started >= cfg.drain) ==>
                  r.ok ==> r.s.lastScale == env.now)
    decreases |list|
  {
    hide NoneNew, Dropped;
    NoneNewSelf(s.retiring);
    if list != [] {
      assert list == [list[0]] + list[1..];
      if env.now - list[0].started < cfg.drain {
        FinishOutcome(s, cfg, env, replicas, list[1..]);
      } else {
        var replica := FindReplica(replicas, list[0].name);
        var gone := if replica.Some? then Destroyed(s, env, replica.value.row.mid) else Result(s, true);
        var next := gone.s.(retiring := Dropped(gone.s.retiring, list[0].name), lastScale := env.now);
        DroppedKeeps(s.retiring, list[0].name);
        FinishOutcome(next, cfg, env, replicas, list[1..]);
        if gone.ok {
          NoneNewTrans(s.retiring, next.retiring, FinishedFrom(s, cfg, env, replicas, list).s.retiring);
        }
      }
    }
  }

  lemma NoneNewSelf(retiring: seq<Retirement>)
    ensures NoneNew(retiring, retiring)
  {
  }

  lemma {:induction false} ChosenIsNew(healthy: seq<Replica>, retiring: seq<Retirement>, now: int)
    requires Candidates(healthy, retiring) != []
    ensures var name := Victim(Candidates(healthy, retiring)).row.name;
            && Dropped(retiring, name) == retiring && !Retiring(retiring, name)
            && !NoneNew(retiring, retiring + [Retirement(name, now)])
  {
    hide Candidates, Victim, Dropped;
    var candidates := Candidates(healthy, retiring);
    VictimIsCandidate(candidates);
    CandidatesAre(healthy, retiring, Victim(candidates));
    DroppedNone(retiring, Victim(candidates).row.name);
    assert Retirement(Victim(candidates).row.name, now) in retiring + [Retirement(Victim(candidates).row.name, now)];
  }

  lemma AutoscaleBegins(s: State, t: State, cfg: Config, env: Env)
    requires ReapedTo(s, t, t.rows) && NoneDrained(s, cfg, env)
    ensures var t' := Autoscaled(t, cfg, env, Replicas(s.rows, env)).s;
            && (!NoneNew(s.retiring, t'.retiring) <==> WindowOver(s, cfg, env))
            && (WindowOver(s, cfg, env) ==>
                  t'.rows == t.rows && t'.retiring == s.retiring + [Retirement(Chosen(s, env), env.now)])
  {
    hide Healthy, Candidates, Victim, Dropped, Created, WantsMore, Busy, Queued, NoneNew, RewireRaises, FinishedFrom;
    var replicas := Replicas(s.rows, env);
    CreatedKeeps(t, cfg, env);
    NoneNewSelf(s.retiring);
    FinishOutcome(t, cfg, env, replicas, t.retiring);
    if Candidates(Healthy(replicas), s.retiring) != [] {
      ChosenIsNew(Healthy(replicas), s.retiring, env.now);
    }
  }

  /** Fresh from a creation, or from a retirement that drained, the fleet rests: nothing begins before the
      cooldown is over. */
  lemma CoolingBegins(t: State, cfg: Config, env: Env, replicas: seq<Replica>)
    requires cfg.cooldown > 0 && (t.lastScale == env.now || !NoneDrained(t, cfg, env))
    ensures NoneNew(t.retiring, Autoscaled(t, cfg, env, replicas).s.retiring)
  {
    hide Healthy, Created, WantsMore, Busy, Queued, FinishedFrom, NoneNew;
    FinishOutcome(t, cfg, env, replicas, t.retiring);
  }

  lemma EnsureOutcome(s: State, cfg: Config, env: Env)
    requires Bounded(s, cfg)
    ensures var r := EnsuredMin(s, cfg, env, s.rows);
            if EnsureQuiet(s, cfg, env) then r.ok && SameFleet(s, r.s) && Noted(s, r.s, env.now, 0)
            else r.ok ==> r.s.lastScale == env.now && r.s.retiring == s.retiring
  {
    hide Created, CountAlive, Refused, DistinctNames, DistinctMids;
    CreationOutcome(s, s, cfg, env);
  }

  /** A reap keeps the time of the last scaling step or makes it now. */
  lemma {:induction false} ReapKeepsScale(s: State, cfg: Config, env: Env, replicas: seq<Replica>)
    requires s.lastScale == env.now
    ensures ReapedFrom(s, cfg, env, replicas).s.lastScale == env.now
    decreases |replicas|
  {
    hide ReapOne;
    if replicas != [] {
      ReapOneKeepsScale(s, cfg, env, replicas[0]);
      match ReapOne(s, cfg, env, replicas[0])
      case Stop(r) =>
      case GoOn(next) => ReapKeepsScale(next, cfg, env, replicas[1..]);
    }
  }

  lemma ReapOneKeepsScale(s: State, cfg: Config, env: Env, r: Replica)
    requires s.lastScale == env.now
    ensures match ReapOne(s, cfg, env, r)
            case GoOn(next) => next.lastScale == env.now
            case Stop(result) => result.s.lastScale == env.now
  {
    hide ScanFrom, AgeOf, Seen, FreeName, OnDemandAlive, WithoutMid;
  }

  /** A cycle begins a retirement exactly when its idle window is over with a slot left to retire, no retirement
      has drained, and neither the minimum nor the reap created a slot or failed. */
  lemma RetirementBeginsIff(s: State, cfg: Config, env: Env)
    requires Bounded(s, cfg) && cfg.cooldown > 0
    ensures BeginsRetirement(s, cfg, env) <==>
            WindowOver(s, cfg, env) && NoneDrained(s, cfg, env) && EnsureQuiet(s, cfg, env) && ReapQuiet(s, cfg, env)
    ensures BeginsRetirement(s, cfg, env) ==>
              var s' := Cycled(s, cfg, env);
              s'.rows == RowsLeft(s, cfg, env) && s'.retiring == s.retiring + [Retirement(Chosen(s, env), env.now)]
  {
    hide Created, Autoscaled, ReapedFrom, CountAlive, DistinctNames, DistinctMids, Refused, WindowOver, ReapQuiet, Victim,
         Candidates, Healthy, RowsLeft, SameAges, UnhealthyFrom, NoneNew;
    var replicas := Replicas(s.rows, env);
    var ensured := EnsuredMin(s, cfg, env, s.rows);
    EnsureOutcome(s, cfg, env);
    CreatedKeeps(s, cfg, env);
    ReapingKeepsPlans(ensured.s, cfg, env, replicas);
    NoneNewSelf(s.retiring);
    var reaped := ReapedFrom(ensured.s, cfg, env, replicas);
    assert replicas[0..] == replicas;
    if EnsureQuiet(s, cfg, env) {
      ReapOutcome(s, ensured.s, cfg, env, 0);
      if ReapQuiet(s, cfg, env) && NoneDrained(s, cfg, env) {
        AutoscaleBegins(s, reaped.s, cfg, env);
      } else if reaped.ok {
        CoolingBegins(reaped.s, cfg, env, replicas);
      }
    } else if ensured.ok && reaped.ok {
      ReapKeepsScale(ensured.s, cfg, env, replicas);
      CoolingBegins(reaped.s, cfg, env, replicas);
    }
  }

  // ------------------------------------------------------------------ the margin of one retirement

  lemma WindowLeaves(s: State, cfg: Config, env: Env)
    requires WindowOver(s, cfg, env)
    ensures Candidates(Healthy(Replicas(s.rows, env)), s.retiring) != []
  {
  }

  lemma ChosenServes(s: State, cfg: Config, env: Env)
    requires WindowOver(s, cfg, env)
    ensures !Retiring(s.retiring, Chosen(s, env))
    ensures exists r :: r in s.rows && r.name == Chosen(s, env) && Probed(r, env).healthy && r.status == Running
  {
    hide Healthy, Candidates, Victim, WantsMore, Busy, Queued, Retiring;
    var replicas := Replicas(s.rows, env);
    var candidates := Candidates(Healthy(replicas), s.retiring);
    VictimIsCandidate(candidates);
    CandidatesAre(Healthy(replicas), s.retiring, Victim(candidates));
    HealthyAre(replicas, Victim(candidates));
    var i :| 0 <= i < |replicas| && replicas[i] == Victim(candidates);
    assert replicas[i] == Probed(s.rows[i], env) && s.rows[i] in s.rows;
  }

  /** The slot whose hung machine the reap destroys. */
  ghost function HungNames(s: State, cfg: Config, env: Env): set<nat> {
    if ReapsHung(s, cfg, env) then
      var i: nat :| FirstReapable(s, cfg, env, i) && s.rows[i].status == Running;
      {s.rows[i].name}
    else {}
  }

  /** A quiet reap leaves every alive slot but a hung one. */
  lemma AliveLeft(s: State, cfg: Config, env: Env)
    requires Bounded(s, cfg)
    ensures AliveNames(RowsLeft(s, cfg, env)) == AliveNames(s.rows) - HungNames(s, cfg, env)
    ensures forall r :: r in s.rows && Alive(r) && Probed(r, env).healthy ==> r.name in AliveNames(s.rows) - HungNames(s, cfg, env)
    ensures |AliveNames(s.rows) - HungNames(s, cfg, env)| == CountAlive(s.rows) - (if ReapsHung(s, cfg, env) then 1 else 0)
  {
    hide LeftAlone, WithoutMid, CountAlive, DistinctMids;
    AliveNamesCount(s.rows);
    if ReapsHung(s, cfg, env) {
      var i: nat :| FirstReapable(s, cfg, env, i) && s.rows[i].status == Running;
      assert forall j: nat :: FirstReapable(s, cfg, env, j) ==> i == j;
      AliveNamesWithout(s.rows, i, s.nextMid);
      assert s.rows[i] in s.rows && s.rows[i].name in AliveNames(s.rows);
      assert HungNames(s, cfg, env) == {s.rows[i].name};
      forall r | r in s.rows && Alive(r) && Probed(r, env).healthy ensures r.name in AliveNames(s.rows) - {s.rows[i].name} {
        var j :| 0 <= j < |s.rows| && s.rows[j] == r;
        HealthyLeftAlone(s, cfg, env, r);
      }
    } else {
      assert AliveNames(s.rows) - {} == AliveNames(s.rows);
    }
  }

  lemma HealthyLeftAlone(s: State, cfg: Config, env: Env, row: Row)
    requires Probed(row, env).healthy
    ensures LeftAlone(s, cfg, env, row)
  {
  }

  function RetiringNames(retiring: seq<Retirement>): set<nat> {
    set r | r in retiring :: r.name
  }

  /** The alive slots that are not being retired. */
  function AliveBeside(s: State): set<nat> {
    AliveNames(s.rows) - RetiringNames(s.retiring)
  }

  ghost predicate RetiresBelowMin(s: State, cfg: Config, env: Env) {
    BeginsRetirement(s, cfg, env) && |AliveBeside(Cycled(s, cfg, env))| < cfg.minReplicas
  }

  lemma {:induction false} MarginNames(s: State, s': State, cfg: Config, env: Env, name: nat)
    requires Bounded(s, cfg) && WindowOver(s, cfg, env) && name == Chosen(s, env)
    requires s'.rows == RowsLeft(s, cfg, env) && s'.retiring == s.retiring + [Retirement(name, env.now)]
    ensures name in AliveBeside(s) - HungNames(s, cfg, env)
    ensures AliveBeside(s') == AliveBeside(s) - HungNames(s, cfg, env) - {name}
  {
    hide CountAlive, WindowOver, ReapsHung, RowsLeft, HungNames, Chosen, DistinctNames, DistinctMids;
    AliveLeft(s, cfg, env);
    ChosenServes(s, cfg, env);
    assert RetiringNames(s'.retiring) == RetiringNames(s.retiring) + {name};
  }

  /** Main result: a cycle that begins a retirement leaves the minimum of alive slots beside the retiring ones
      exactly when the slots alive and not retiring at its start, less a hung one it reaps, are more than the
      minimum; so it goes below the minimum exactly under a condition on the slots listed at its start. */
  lemma RetirementMargin(s: State, cfg: Config, env: Env)
    requires Bounded(s, cfg) && cfg.cooldown > 0
    ensures var margin := |AliveBeside(s) - HungNames(s, cfg, env)|;
            && (s.retiring == [] ==> margin == CountAlive(s.rows) - (if ReapsHung(s, cfg, env) then 1 else 0))
            && (BeginsRetirement(s, cfg, env) ==>
                  (|AliveBeside(Cycled(s, cfg, env))| >= cfg.minReplicas <==> margin > cfg.minReplicas))
            && (RetiresBelowMin(s, cfg, env) <==>
                  && WindowOver(s, cfg, env) && NoneDrained(s, cfg, env)
                  && EnsureQuiet(s, cfg, env) && ReapQuiet(s, cfg, env)
                  && margin <= cfg.minReplicas)
  {
    hide Cycled, CountAlive, WindowOver, EnsureQuiet, ReapQuiet, ReapsHung, RowsLeft, HungNames, Chosen, AliveNames, NoneNew,
         DistinctNames, DistinctMids, NoneDrained;
    RetirementBeginsIff(s, cfg, env);
    AliveLeft(s, cfg, env);
    if s.retiring == [] {
      assert AliveBeside(s) == AliveNames(s.rows);
    }
    if BeginsRetirement(s, cfg, env) {
      WindowLeaves(s, cfg, env);
      MarginNames(s, Cycled(s, cfg, env), cfg, env, Chosen(s, env));
    }
  }

  // ------------------------------------------------------------------ runs

  lemma {:induction false} ReapExtends(s: State, t: State, cfg: Config, env: Env, k: nat)
    requires Noted(s, t, env.now, k) && Bounded(s, cfg) && Bounded(t, cfg) && Extends(t.rows, s.rows)
    requires forall j :: 0 <= j < k ==> LeftAlone(s, cfg, env, s.rows[j])
    requires !ReapsHung(s, cfg, env)
    ensures Extends(ReapedFrom(t, cfg, env, Replicas(s.rows, env)[k..]).s.rows, s.rows)
    decreases |s.rows| - k
  {
    hide ReapOne, LeftAlone, SameAges, DistinctMids, DistinctNames;
    var replicas := Replicas(s.rows, env);
    if k < |s.rows| {
      assert replicas[k..][0] == Probed(s.rows[k], env) && replicas[k..][1..] == replicas[k + 1..];
      if LeftAlone(s, cfg, env, s.rows[k]) {
        ReapGoesOn(s, t, cfg, env, k);
        ReapExtends(s, ReapOne(t, cfg, env, Probed(s.rows[k], env)).s, cfg, env, k + 1);
      } else {
        assert FirstReapable(s, cfg, env, k);
        ReapOneExtends(s, t, cfg, env, k);
      }
    }
  }

  lemma ReapOneExtends(s: State, t: State, cfg: Config, env: Env, k: nat)
    requires Noted(s, t, env.now, k) && Bounded(t, cfg) && Extends(t.rows, s.rows)
    requires FirstReapable(s, cfg, env, k) && (s.rows[k].status == Running ==> !env.destroyOk)
    ensures match ReapOne(t, cfg, env, Probed(s.rows[k], env))
            case GoOn(_) => false
            case Stop(r) => Extends(r.s.rows, s.rows)
  {
    hide Created, SameAges, AgeOf, Seen, WithoutMid, DistinctMids, DistinctNames;
    var row := s.rows[k];
    SameAge(row, s.firstSeen, t.firstSeen, env.now);
    var seen := t.(firstSeen := Seen(row, t.firstSeen, env.now));
    var first := if row.name in seen.unhealthySince then seen.unhealthySince[row.name] else env.now;
    CreateIsSafe(seen.(unhealthySince := seen.unhealthySince[row.name := first]), cfg, env);
  }

  lemma AliveExtends(rows: seq<Row>, before: seq<Row>)
    requires Extends(rows, before)
    ensures AliveNames(before) <= AliveNames(rows)
  {
    forall name | name in AliveNames(before) ensures name in AliveNames(rows) {
      var r :| r in before && Alive(r) && r.name == name;
      var i :| 0 <= i < |before| && before[i] == r;
      assert rows[i] == r && rows[i] in rows;
    }
  }

  lemma {:induction false} FoundReplica(replicas: seq<Replica>, name: nat)
    ensures var r := FindReplica(replicas, name); r.Some? ==> r.value in replicas && r.value.row.name == name
  {
    if replicas != [] {
      FoundReplica(replicas[1..], name);
    }
  }

  /** A machine of the listing has the name it was listed with. */
  ghost predicate MidsNamed(rows: seq<Row>, listed: seq<Row>) {
    forall q, r :: q in rows && r in listed && q.mid == r.mid ==> q.name == r.name
  }

  lemma ExtendsNamed(rows: seq<Row>, listed: seq<Row>, nextMid: nat)
    requires Extends(rows, listed) && DistinctMids(rows, nextMid)
    ensures MidsNamed(rows, listed)
  {
    forall q, r | q in rows && r in listed && q.mid == r.mid ensures q.name == r.name {
      var i :| 0 <= i < |rows| && rows[i] == q;
      var j :| 0 <= j < |listed| && listed[j] == r;
      assert rows[j] == r;
    }
  }

  lemma {:induction false} FinishOneKeeps(s: State, env: Env, listed: seq<Row>, name: nat)
    requires MidsNamed(s.rows, listed)
    ensures var replica := FindReplica(Replicas(listed, env), name);
            var gone := if replica.Some? then Destroyed(s, env, replica.value.row.mid) else Result(s, true);
            var next := gone.s.(retiring := Dropped(gone.s.retiring, name), lastScale := env.now);
            && gone.s.retiring == s.retiring && MidsNamed(next.rows, listed)
            && AliveBeside(s) - {name} <= AliveBeside(next)
            && (!gone.ok ==> gone.s == s)
  {
    hide Dropped, Alive;
    DroppedKeeps(s.retiring, name);
    var replicas := Replicas(listed, env);
    FoundReplica(replicas, name);
    var replica := FindReplica(replicas, name);
    if replica.Some? {
      var i :| 0 <= i < |replicas| && replicas[i] == replica.value;
      assert listed[i] in listed && listed[i] == replica.value.row;
      WithoutMidRows(s.rows, replica.value.row.mid);
    }
  }

  /** Finishing takes away no alive slot that was not retiring. */
  lemma {:induction false} FinishAlive(s: State, cfg: Config, env: Env, listed: seq<Row>, list: seq<Retirement>)
    requires MidsNamed(s.rows, listed)
    ensures var r := FinishedFrom(s, cfg, env, Replicas(listed, env), list);
            AliveBeside(s) - RetiringNames(list) <= AliveBeside(r.s)
    decreases |list|
  {
    hide Dropped, AliveBeside, MidsNamed;
    if list != [] {
      assert list == [list[0]] + list[1..];
      assert RetiringNames(list) == {list[0].name} + RetiringNames(list[1..]);
      if env.now - list[0].started < cfg.drain {
        FinishAlive(s, cfg, env, listed, list[1..]);
      } else {
        var replica := FindReplica(Replicas(listed, env), list[0].name);
        var gone := if replica.Some? then Destroyed(s, env, replica.value.row.mid) else Result(s, true);
        FinishOneKeeps(s, env, listed, list[0].name);
        FinishAlive(gone.s.(retiring := Dropped(gone.s.retiring, list[0].name), lastScale := env.now), cfg, env, listed,
                    list[1..]);
      }
    }
  }

  lemma {:induction false} AutoscaleKeepsBeside(s: State, cfg: Config, env: Env, listed: seq<Row>)
    requires Bounded(s, cfg) && cfg.cooldown > 0 && Extends(s.rows, listed)
    ensures var s' := Autoscaled(s, cfg, env, Replicas(listed, env)).s;
            && AliveBeside(s) <= AliveNames(s'.rows)
            && (NoneNew(s.retiring, s'.retiring) ==> AliveBeside(s) <= AliveBeside(s'))
  {
    hide FinishedFrom, Created, Healthy, WantsMore, Busy, Queued, DistinctNames, DistinctMids, AliveNames, Candidates, Victim,
         RewireRaises, NoneNew, Dropped;
    var replicas := Replicas(listed, env);
    ExtendsNamed(s.rows, listed, s.nextMid);
    FinishAlive(s, cfg, env, listed, s.retiring);
    FinishOutcome(s, cfg, env, replicas, s.retiring);
    FinishSafe(s, cfg, env, replicas, s.retiring);
    var finished := FinishedFrom(s, cfg, env, replicas, s.retiring);
    assert AliveBeside(s) <= AliveBeside(finished.s);
    CreateIsSafe(finished.s, cfg, env);
    CreatedKeeps(finished.s, cfg, env);
    AliveExtends(Created(finished.s, cfg, env).s.rows, finished.s.rows);
    if Candidates(Healthy(replicas), s.retiring) != [] {
      ChosenIsNew(Healthy(replicas), s.retiring, env.now);
    }
  }

  /** In a cycle that reaps no hung slot no alive slot goes that was not retiring. */
  lemma {:induction false} CycleKeepsBeside(s: State, cfg: Config, env: Env)
    requires Bounded(s, cfg) && cfg.cooldown > 0 && !ReapsHung(s, cfg, env)
    ensures var s' := Cycled(s, cfg, env);
            && AliveBeside(s) <= AliveNames(s'.rows)
            && (!BeginsRetirement(s, cfg, env) ==> AliveBeside(s) <= AliveBeside(s'))
  {
    hide Created, Autoscaled, ReapedFrom, CountAlive, DistinctNames, DistinctMids, AliveNames, ReapsHung, SameAges, NoneNew;
    var replicas := Replicas(s.rows, env);
    var ensured := EnsuredMin(s, cfg, env, s.rows);
    EnsureExtends(s, cfg, env);
    AliveExtends(ensured.s.rows, s.rows);
    ReapExtends(s, ensured.s, cfg, env, 0);
    assert replicas[0..] == replicas;
    var reaped := ReapedFrom(ensured.s, cfg, env, replicas);
    ReapSafe(ensured.s, cfg, env, replicas);
    AliveExtends(reaped.s.rows, s.rows);
    AutoscaleKeepsBeside(reaped.s, cfg, env, s.rows);
  }

  lemma EnsureExtends(s: State, cfg: Config, env: Env)
    requires Bounded(s, cfg)
    ensures var r := EnsuredMin(s, cfg, env, s.rows);
            && Extends(r.s.rows, s.rows) && Bounded(r.s, cfg) && Noted(s, r.s, env.now, 0)
            && r.s.retiring == s.retiring && r.s.idleSince == s.idleSince
  {
    hide ScanFrom, CountAlive, FreeName, OnDemandAlive, DistinctNames, DistinctMids, SameAges;
    CreateIsSafe(s, cfg, env);
    SelfAges(s.firstSeen, env.now);
    ScanKeepsAges(s.rows, s.firstSeen, s.firstSeen, cfg, env.now);
  }

  lemma SelfAges(seen: map<nat, int>, now: int)
    ensures SameAges(seen, seen, now)
  {
  }

  /** At least the minimum of alive slots stays beside those being retired. */
  ghost predicate KeepsAliveMin(s: State, cfg: Config) {
    s.retiring != [] ==> |AliveBeside(s)| >= cfg.minReplicas
  }

  lemma SubsetCard(a: set<nat>, b: set<nat>)
    requires a <= b
    ensures |a| <= |b|
  {
    SubsetSize(a, b);
  }

  lemma {:induction false} CycleAliveMin(s: State, cfg: Config, env: Env)
    requires Bounded(s, cfg) && cfg.cooldown > 0 && !ReapsHung(s, cfg, env) && KeepsAliveMin(s, cfg)
    ensures var s' := Cycled(s, cfg, env);
            && (KeepsAliveMin(s', cfg) <==> (BeginsRetirement(s, cfg, env) ==> |AliveBeside(s)| > cfg.minReplicas))
            && (!(AliveNames(s.rows) <= AliveNames(s'.rows)) ==> |AliveNames(s'.rows)| >= cfg.minReplicas)
  {
    hide Cycled, CountAlive, ReapsHung, DistinctNames, DistinctMids, AliveNames, WindowOver, EnsureQuiet, ReapQuiet, NoneDrained;
    var s' := Cycled(s, cfg, env);
    CycleKeepsBeside(s, cfg, env);
    RetirementMargin(s, cfg, env);
    RetirementBeginsIff(s, cfg, env);
    assert AliveBeside(s) - HungNames(s, cfg, env) == AliveBeside(s);
    if s.retiring == [] {
      assert AliveBeside(s) == AliveNames(s.rows);
    } else {
      SubsetCard(AliveBeside(s), AliveNames(s'.rows));
    }
    if !BeginsRetirement(s, cfg, env) {
      SubsetCard(AliveBeside(s), AliveBeside(s'));
      if s'.retiring != [] {
        assert s'.retiring[0] in s'.retiring && Retiring(s'.retiring, s'.retiring[0].name);
        assert s.retiring != [];
      }
    }
  }

  /** No slot alive at the end of a cycle is found dead by the next, and no cycle reaps a hung one. */
  ghost predicate Undisturbed(s: State, cfg: Config, ticks: seq<Tick>) {
    ticks != [] ==>
      var front, last := ticks[..|ticks| - 1], ticks[|ticks| - 1];
      var before := Reached(s, cfg, front);
      && Undisturbed(s, cfg, front) && AliveNames(before.rows) <= AliveNames(last.rows)
      && !ReapsHung(Found(before, last), cfg, last.env)
  }

  ghost predicate AlwaysKeepsAliveMin(s: State, cfg: Config, ticks: seq<Tick>) {
    KeepsAliveMin(Reached(s, cfg, ticks), cfg) && (ticks != [] ==> AlwaysKeepsAliveMin(s, cfg, ticks[..|ticks| - 1]))
  }

  /** Every cycle that begins a retirement finds more than the minimum of slots alive and not retiring. */
  ghost predicate AlwaysMargin(s: State, cfg: Config, ticks: seq<Tick>) {
    ticks != [] ==>
      var front, last := ticks[..|ticks| - 1], ticks[|ticks| - 1];
      var found := Found(Reached(s, cfg, front), last);
      && AlwaysMargin(s, cfg, front)
      && (BeginsRetirement(found, cfg, last.env) ==> |AliveBeside(found)| > cfg.minReplicas)
  }

  /** Main result: over a run without outside deaths or reaped hung slots, however many retirements are
      outstanding, the minimum of alive slots always stays beside the retiring ones exactly when every cycle that
      begins a retirement finds more than the minimum alive and not retiring; then a cycle that loses an alive
      slot leaves the minimum. */
  lemma {:induction false} ScaleDownKeepsAliveMin(s: State, cfg: Config, start: int, ticks: seq<Tick>)
    requires Bounded(s, cfg) && KeepsAliveMin(s, cfg) && cfg.cooldown > 0
    requires Legal(s, cfg, start, ticks) && Undisturbed(s, cfg, ticks)
    ensures AlwaysKeepsAliveMin(s, cfg, ticks) <==> AlwaysMargin(s, cfg, ticks)
    ensures ticks != [] && AlwaysMargin(s, cfg, ticks) ==>
              var found := Found(Reached(s, cfg, ticks[..|ticks| - 1]), ticks[|ticks| - 1]);
              var after := Reached(s, cfg, ticks);
              !(AliveNames(found.rows) <= AliveNames(after.rows)) ==> |AliveNames(after.rows)| >= cfg.minReplicas
  {
    hide Cycled, DistinctNames, DistinctMids, ReapsHung, CountAlive, AliveNames, BeginsRetirement;
    if ticks != [] {
      var front, last := ticks[..|ticks| - 1], ticks[|ticks| - 1];
      var before := Reached(s, cfg, front);
      var found := Found(before, last);
      ScaleDownKeepsAliveMin(s, cfg, start, front);
      RunBounded(s, cfg, start, front);
      if AlwaysKeepsAliveMin(s, cfg, front) {
        SubsetCard(AliveBeside(before), AliveBeside(found));
        CycleAliveMin(found, cfg, last.env);
      }
    }
  }

  // ------------------------------------------------------------------ where the minimum is lost

  const TIGHT := Config(1, 2, 100, 0, 10, 2, 12, 4, 50, 20, 0)
  const SERVING := Row(0, 0, Running, true, 50)
  const HUNG := Row(1, 1, Running, true, 500)
  const PAUSED := Row(1, 1, Paused, true, 500)
  const NOW := Env(1000, map[0 := Probe(true, 0, 0)], true, true, true, true)

  /** A young healthy slot and another one, under light load since 900. */
  function TwoSlots(other: Row): State {
    State(0, Some(900), [], map[1 := 900], map[], [SERVING, other], 2)
  }

  lemma {:induction false} OnlyServing(replicas: seq<Replica>)
    requires |replicas| == 2 && replicas[0] == Replica(SERVING, true, 0, 0) && !replicas[1].healthy
    ensures var h := Healthy(replicas); h == [replicas[0]] && Queued(h) == 0 && Busy(h) == 0
  {
    assert replicas[..1] == [replicas[0]] && replicas[..1][..0] == [];
    assert Healthy(replicas[..1]) == [replicas[0]];
    assert [replicas[0]][..0] == [];
  }

  lemma OneCandidate(r: Replica)
    ensures Candidates([r], []) == [r] && Victim([r]) == r
  {
    assert [r][..0] == [];
  }

  lemma TwoRows(other: Row)
    requires other == HUNG || other == PAUSED
    ensures Bounded(TwoSlots(other), TIGHT) && CountAlive([SERVING, other]) == if other == HUNG then 2 else 1
  {
    var rows := [SERVING, other];
    assert rows[..1] == [SERVING] && [SERVING][..0] == [];
    assert CountAlive([SERVING]) == 1;
  }

  lemma ServingIsPicked(other: Row)
    requires other == HUNG || other == PAUSED
    ensures var s := TwoSlots(other);
            && WindowOver(s, TIGHT, NOW) && Victim(Candidates(Healthy(Replicas(s.rows, NOW)), [])).row == SERVING
            && Bounded(s, TIGHT) && CountAlive(s.rows) == if other == HUNG then 2 else 1
  {
    hide Healthy, Victim, Candidates, CountAlive, Bounded, Queued, Busy;
    var replicas := Replicas(TwoSlots(other).rows, NOW);
    TwoRows(other);
    OnlyServing(replicas);
    OneCandidate(replicas[0]);
  }

  lemma HungIsReaped()
    ensures var s := TwoSlots(HUNG); ReapsHung(s, TIGHT, NOW) && ReapQuiet(s, TIGHT, NOW)
  {
    hide WithoutMid;
    var s := TwoSlots(HUNG);
    assert LeftAlone(s, TIGHT, NOW, s.rows[0]) && s.rows[1] == HUNG;
    assert FirstReapable(s, TIGHT, NOW, 1);
    WithoutMidRows(s.rows, HUNG.mid);
    assert SERVING in WithoutMid(s.rows, HUNG.mid) && Booting(SERVING, s.firstSeen, TIGHT, NOW.now);
  }

  /** The cycle that reaps the hung slot cannot replace it, since the other one is young, yet still counts two
      slots and retires the only one that serves. */
  lemma StaleCountRetiresLastSlot()
    ensures var s := TwoSlots(HUNG);
            && Bounded(s, TIGHT) && s.retiring == [] && Paced(TIGHT) && CountAlive(s.rows) == 2
            && RetiresBelowMin(s, TIGHT, NOW) && Cycled(s, TIGHT, NOW).retiring[0].name == SERVING.name
  {
    hide Cycled, Healthy, Victim, Candidates, CountAlive, WindowOver, Bounded, ReapQuiet, ReapsHung;
    var s := TwoSlots(HUNG);
    ServingIsPicked(HUNG);
    RetirementBeginsIff(s, TIGHT, NOW);
    RetirementMargin(s, TIGHT, NOW);
    HungIsReaped();
  }

  lemma PausedIsKept()
    ensures var s := TwoSlots(PAUSED); !ReapsHung(s, TIGHT, NOW) && ReapQuiet(s, TIGHT, NOW) && NoReap(s, TIGHT, NOW)
  {
    hide WithoutMid, CountAlive, ReapedFrom, DistinctNames, DistinctMids;
    var s := TwoSlots(PAUSED);
    TwoRows(PAUSED);
    assert LeftAlone(s, TIGHT, NOW, s.rows[0]) && s.rows[1] == PAUSED;
    EnsureExtends(s, TIGHT, NOW);
    ReapExtends(s, EnsuredMin(s, TIGHT, NOW, s.rows).s, TIGHT, NOW, 0);
    var replicas := Replicas(s.rows, NOW);
    assert replicas[0..] == replicas;
  }

  /** A paused slot is resumed at best, yet counts as one to spare: the only slot that serves is retired. */
  lemma PausedSlotIsCounted()
    ensures var s := TwoSlots(PAUSED);
            && Bounded(s, TIGHT) && s.retiring == [] && Paced(TIGHT) && CountAlive(s.rows) == 1
            && NoReap(s, TIGHT, NOW)
            && RetiresBelowMin(s, TIGHT, NOW) && Cycled(s, TIGHT, NOW).retiring[0].name == SERVING.name
  {
    hide Cycled, Healthy, Victim, Candidates, CountAlive, WindowOver, Bounded, ReapQuiet, ReapsHung, NoReap;
    var s := TwoSlots(PAUSED);
    ServingIsPicked(PAUSED);
    RetirementBeginsIff(s, TIGHT, NOW);
    RetirementMargin(s, TIGHT, NOW);
    PausedIsKept();
  }
}
