/**
The fleet manager's reconcile cycle (scripts/fleet_manager.py: create_slot, ensure_min, reap, autoscale,
finish_retirements, cycle) as functions of its own memory and the provider's rows. One clock reading
serves a cycle; a failing jl command or router call raises and ends the cycle where it stands. The listing a
cycle starts from is given, and a paused slot that is resumed shows as such at the next listing.
*/
module Fleet {
  import opened Options

  datatype Status = Running | Pending | Provisioning | Paused | Gone

  /** A provider row of a manager-owned slot: n of glm53-serve-n, the machine, its reported runtime. */
  datatype Row = Row(name: nat, mid: nat, status: Status, spot: bool, runtime: nat)

  datatype Config = Config(minReplicas: int, maxReplicas: int, bootTimeout: int, grace: int, cooldown: int,
                           scaleUpWaiting: int, capacity: int, threshold: int, idleFor: int, drain: int, onDemandMin: int)

  datatype Retirement = Retirement(name: nat, started: int)

  /** The manager's fields and the provider's rows. */
  datatype State = State(lastScale: int, idleSince: Option<int>, retiring: seq<Retirement>, unhealthySince: map<nat, int>,
                         firstSeen: map<nat, int>, rows: seq<Row>, nextMid: nat)

  /** What a cycle observes: the time, each machine's probe, whether jl create, destroy and the listing before a
      creation succeed, and whether the router takes a rewiring. */
  datatype Probe = Probe(healthy: bool, waiting: nat, running: nat)

  datatype Env = Env(now: int, probes: map<nat, Probe>, createOk: bool, destroyOk: bool, listOk: bool, wireOk: bool)

  /** ok is false when a command or a router call raised. */
  datatype Result = Result(s: State, ok: bool)

  predicate Alive(row: Row) {
    row.status == Running || row.status == Pending || row.status == Provisioning
  }

  function CountAlive(rows: seq<Row>): nat {
    if rows == [] then 0
    else CountAlive(rows[..|rows| - 1]) + if Alive(rows[|rows| - 1]) then 1 else 0
  }

  // ------------------------------------------------------------------ age_of

  /** The reported runtime, or the time since the manager first saw the machine. */
  function AgeOf(row: Row, firstSeen: map<nat, int>, now: int): int {
    if row.runtime > 0 then row.runtime
    else if row.mid in firstSeen then now - firstSeen[row.mid]
    else 0
  }

  function Seen(row: Row, firstSeen: map<nat, int>, now: int): map<nat, int> {
    if row.runtime > 0 || row.mid in firstSeen then firstSeen else firstSeen[row.mid := now]
  }

  predicate Booting(row: Row, firstSeen: map<nat, int>, cfg: Config, now: int) {
    Alive(row) && AgeOf(row, firstSeen, now) < cfg.bootTimeout
  }

  // ------------------------------------------------------------------ create_slot

  /** The boot scan stops at the first slot still booting. */
  function ScanFrom(rows: seq<Row>, firstSeen: map<nat, int>, cfg: Config, now: int): (bool, map<nat, int>) {
    if rows == [] then (false, firstSeen)
    else if !Alive(rows[0]) then ScanFrom(rows[1..], firstSeen, cfg, now)
    else if Booting(rows[0], firstSeen, cfg, now) then (true, Seen(rows[0], firstSeen, now))
    else ScanFrom(rows[1..], Seen(rows[0], firstSeen, now), cfg, now)
  }

  predicate Used(rows: seq<Row>, n: nat) {
    exists r :: r in rows && r.name == n
  }

  /** The first free slot number from n on, within the given number of tries. */
  function FreeFrom(rows: seq<Row>, n: nat, tries: nat): nat
    decreases tries
  {
    if tries == 0 || !Used(rows, n) then n else FreeFrom(rows, n + 1, tries - 1)
  }

  function FreeName(rows: seq<Row>): nat {
    FreeFrom(rows, 0, |rows|)
  }

  function OnDemandAlive(rows: seq<Row>): nat {
    if rows == [] then 0
    else
      OnDemandAlive(rows[..|rows| - 1]) + if Alive(rows[|rows| - 1]) && !rows[|rows| - 1].spot then 1 else 0
  }

  function Created(s: State, cfg: Config, env: Env): Result {
    if !env.listOk then Result(s, false)
    else if |s.rows| >= cfg.maxReplicas then Result(s, true)
    else
      var scan := ScanFrom(s.rows, s.firstSeen, cfg, env.now);
      var seen := s.(firstSeen := scan.1);
      if scan.0 then Result(seen, true)
      else if !env.createOk then Result(seen, false)
      else
        var spot := OnDemandAlive(s.rows) >= cfg.onDemandMin;
        Result(seen.(rows := s.rows + [Row(FreeName(s.rows), s.nextMid, Pending, spot, 0)], nextMid := s.nextMid + 1,
                     lastScale := env.now), true)
  }

  // ------------------------------------------------------------------ the snapshot and its actions

  datatype Replica = Replica(row: Row, healthy: bool, waiting: nat, running: nat)

  function Probed(row: Row, env: Env): Replica {
    if row.status == Running && row.mid in env.probes then
      var p := env.probes[row.mid];
      Replica(row, p.healthy, p.waiting, p.running)
    else Replica(row, false, 0, 0)
  }

  function Replicas(rows: seq<Row>, env: Env): (rs: seq<Replica>)
    ensures |rs| == |rows|
  {
    seq(|rows|, i requires 0 <= i < |rows| => Probed(rows[i], env))
  }

  function EnsuredMin(s: State, cfg: Config, env: Env, replicas: seq<Row>): Result {
    if cfg.minReplicas - CountAlive(replicas) > 0 then Created(s, cfg, env) else Result(s, true)
  }

  function WithoutMid(rows: seq<Row>, mid: nat): seq<Row> {
    if rows == [] then []
    else WithoutMid(rows[..|rows| - 1], mid) + if rows[|rows| - 1].mid == mid then [] else [rows[|rows| - 1]]
  }

  function Destroyed(s: State, env: Env, mid: nat): Result {
    if env.destroyOk then Result(s.(rows := WithoutMid(s.rows, mid)), true) else Result(s, false)
  }

  /** One replica of the reap loop: None goes on with the next one. */
  datatype ReapStep = GoOn(s: State) | Stop(r: Result)

  function ReapOne(s: State, cfg: Config, env: Env, r: Replica): ReapStep {
    var name := r.row.name;
    if r.healthy then GoOn(s.(unhealthySince := s.unhealthySince - {name}))
    else
      var age := AgeOf(r.row, s.firstSeen, env.now);
      var seen := s.(firstSeen := Seen(r.row, s.firstSeen, env.now));
      if r.row.status == Paused then Stop(Result(seen, true))
      else if Alive(r.row) && age < cfg.bootTimeout then GoOn(seen)
      else
        var first := if name in seen.unhealthySince then seen.unhealthySince[name] else env.now;
        var noted := seen.(unhealthySince := seen.unhealthySince[name := first]);
        if r.row.status != Running || env.now - first > cfg.grace then
          var killed := if r.row.status == Running then Destroyed(noted, env, r.row.mid) else Result(noted, true);
          if !killed.ok then Stop(killed)
          else
            var made := Created(killed.s, cfg, env);
            if !made.ok then Stop(made)
            else Stop(Result(made.s.(unhealthySince := made.s.unhealthySince - {name}), true))
        else GoOn(noted)
  }

  /** One action per cycle. */
  function ReapedFrom(s: State, cfg: Config, env: Env, replicas: seq<Replica>): Result
    decreases |replicas|
  {
    if replicas == [] then Result(s, true)
    else
      match ReapOne(s, cfg, env, replicas[0])
      case Stop(r) => r
      case GoOn(next) => ReapedFrom(next, cfg, env, replicas[1..])
  }

  // ------------------------------------------------------------------ retirements and scaling

  function FindReplica(replicas: seq<Replica>, name: nat): Option<Replica> {
    if replicas == [] then None
    else if replicas[0].row.name == name then Some(replicas[0])
    else FindReplica(replicas[1..], name)
  }

  function Dropped(retiring: seq<Retirement>, name: nat): seq<Retirement> {
    if retiring == [] then []
    else
      Dropped(retiring[..|retiring| - 1], name) +
      if retiring[|retiring| - 1].name == name then [] else [retiring[|retiring| - 1]]
  }

  /** Destroy what has drained, in the order the retirements began. */
  function FinishedFrom(s: State, cfg: Config, env: Env, replicas: seq<Replica>, list: seq<Retirement>): Result
    decreases |list|
  {
    if list == [] then Result(s, true)
    else if env.now - list[0].started < cfg.drain then FinishedFrom(s, cfg, env, replicas, list[1..])
    else
      var replica := FindReplica(replicas, list[0].name);
      var gone := if replica.Some? then Destroyed(s, env, replica.value.row.mid) else Result(s, true);
      if !gone.ok then gone
      else
        FinishedFrom(gone.s.(retiring := Dropped(gone.s.retiring, list[0].name), lastScale := env.now),
                     cfg, env, replicas, list[1..])
  }

  function Healthy(replicas: seq<Replica>): seq<Replica> {
    if replicas == [] then []
    else Healthy(replicas[..|replicas| - 1]) + if replicas[|replicas| - 1].healthy then [replicas[|replicas| - 1]] else []
  }

  predicate Retiring(retiring: seq<Retirement>, name: nat) {
    exists r :: r in retiring && r.name == name
  }

  function Candidates(healthy: seq<Replica>, retiring: seq<Retirement>): seq<Replica> {
    if healthy == [] then []
    else
      Candidates(healthy[..|healthy| - 1], retiring) +
      if Retiring(retiring, healthy[|healthy| - 1].row.name) then [] else [healthy[|healthy| - 1]]
  }

  function Queued(rs: seq<Replica>): nat {
    if rs == [] then 0 else Queued(rs[..|rs| - 1]) + rs[|rs| - 1].waiting
  }

  function Busy(rs: seq<Replica>): nat {
    if rs == [] then 0 else Busy(rs[..|rs| - 1]) + rs[|rs| - 1].running
  }

  /** Spot before on-demand, then the smaller load. */
  predicate Sooner(a: Replica, b: Replica) {
    if a.row.spot != b.row.spot then a.row.spot else a.running + a.waiting < b.running + b.waiting
  }

  /** The first of the least. */
  function Victim(candidates: seq<Replica>): Replica
    requires candidates != []
  {
    if |candidates| == 1 then candidates[0]
    else
      var best, last := Victim(candidates[..|candidates| - 1]), candidates[|candidates| - 1];
      if Sooner(last, best) then last else best
  }

  /** Rewiring asks the router as long as some healthy slot is left to serve. */
  predicate RewireRaises(env: Env, healthy: seq<Replica>, retiring: seq<Retirement>) {
    !env.wireOk && Candidates(healthy, retiring) != []
  }

  /** The retirement is recorded before the router is rewired, and the idle clock is cleared after. */
  function ScaledDown(s: State, cfg: Config, env: Env, replicas: seq<Replica>): Result {
    var healthy := Healthy(replicas);
    var idleSince := if s.idleSince.Some? then s.idleSince.value else env.now;
    var noted := s.(idleSince := Some(idleSince));
    var candidates := Candidates(healthy, s.retiring);
    if env.now - idleSince >= cfg.idleFor && |replicas| > cfg.minReplicas && candidates != [] then
      var name := Victim(candidates).row.name;
      var begun := noted.(retiring := Dropped(s.retiring, name) + [Retirement(name, env.now)]);
      if RewireRaises(env, healthy, begun.retiring) then Result(begun, false) else Result(begun.(idleSince := None), true)
    else Result(noted, true)
  }

  predicate WantsMore(cfg: Config, healthy: seq<Replica>) {
    Queued(healthy) > cfg.scaleUpWaiting || Busy(healthy) >= cfg.capacity * |healthy|
  }

  function Autoscaled(s: State, cfg: Config, env: Env, replicas: seq<Replica>): Result {
    var healthy := Healthy(replicas);
    var finished := FinishedFrom(s, cfg, env, replicas, s.retiring);
    if !finished.ok then finished
    else if healthy == [] || env.now - finished.s.lastScale < cfg.cooldown then finished
    else if WantsMore(cfg, healthy) then
      if |replicas| < cfg.maxReplicas then Created(finished.s, cfg, env) else finished
    else if Busy(healthy) + Queued(healthy) < cfg.threshold then ScaledDown(finished.s, cfg, env, replicas)
    else Result(finished.s.(idleSince := None), true)
  }

  /** A whole cycle, on the rows listed at its start. */
  function Cycled(s: State, cfg: Config, env: Env): State {
    var listed := s.rows;
    var replicas := Replicas(listed, env);
    var ensured := EnsuredMin(s, cfg, env, listed);
    if !ensured.ok then ensured.s
    else
      var reaped := ReapedFrom(ensured.s, cfg, env, replicas);
      if !reaped.ok then reaped.s
      else Autoscaled(reaped.s, cfg, env, replicas).s
  }

  // ------------------------------------------------------------------ names and bounds

  predicate DistinctNames(rows: seq<Row>) {
    forall i, j :: 0 <= i < j < |rows| ==> rows[i].name != rows[j].name
  }

  predicate DistinctMids(rows: seq<Row>, nextMid: nat) {
    && (forall i, j :: 0 <= i < j < |rows| ==> rows[i].mid != rows[j].mid)
    && (forall i :: 0 <= i < |rows| ==> rows[i].mid < nextMid)
  }

  ghost predicate Bounded(s: State, cfg: Config) {
    DistinctNames(s.rows) && DistinctMids(s.rows, s.nextMid) && |s.rows| <= cfg.maxReplicas
  }

  function NamesOf(rows: seq<Row>): set<nat> {
    set r | r in rows :: r.name
  }

  lemma {:induction false} FreeFromFree(rows: seq<Row>, n: nat, tries: nat)
    ensures n <= FreeFrom(rows, n, tries) <= n + tries
    ensures forall k :: n <= k < FreeFrom(rows, n, tries) ==> Used(rows, k)
    ensures FreeFrom(rows, n, tries) < n + tries ==> !Used(rows, FreeFrom(rows, n, tries))
    decreases tries
  {
    hide Used;
    if tries > 0 && Used(rows, n) {
      FreeFromFree(rows, n + 1, tries - 1);
    }
  }

  function NumbersBelow(n: nat): (numbers: set<nat>)
    ensures |numbers| == n && forall k: nat :: k in numbers <==> k < n
  {
    if n == 0 then {} else NumbersBelow(n - 1) + {n - 1}
  }

  lemma {:induction false} NamesSize(rows: seq<Row>)
    ensures |NamesOf(rows)| <= |rows|
  {
    if rows != [] {
      var front, last := rows[..|rows| - 1], rows[|rows| - 1];
      NamesSize(front);
      assert rows == front + [last];
      assert NamesOf(rows) == NamesOf(front) + {last.name};
    }
  }

  lemma SubsetSize(a: set<nat>, b: set<nat>)
    requires a <= b
    ensures |a| <= |b|
  {
    if a != {} {
      var x :| x in a;
      SubsetSize(a - {x}, b - {x});
    }
  }

  /** Pigeonhole: |rows| tries always find a free slot number, so the name search stops. */
  lemma FreeNameIsFree(rows: seq<Row>)
    ensures !Used(rows, FreeName(rows)) && FreeName(rows) <= |rows|
  {
    var n := |rows|;
    FreeFromFree(rows, 0, n);
    if FreeName(rows) == n && Used(rows, n) {
      var range := NumbersBelow(n + 1);
      forall k | k in range ensures k in NamesOf(rows) {
        assert Used(rows, k);
      }
      SubsetSize(range, NamesOf(rows));
      NamesSize(rows);
    }
  }

  lemma {:induction false} WithoutMidRows(rows: seq<Row>, mid: nat)
    ensures forall r :: r in WithoutMid(rows, mid) <==> r in rows && r.mid != mid
    ensures |WithoutMid(rows, mid)| <= |rows|
    ensures (forall r :: r in rows ==> r.mid != mid) ==> |WithoutMid(rows, mid)| == |rows|
  {
    if rows != [] {
      WithoutMidRows(rows[..|rows| - 1], mid);
      assert rows == rows[..|rows| - 1] + [rows[|rows| - 1]];
    }
  }

  lemma RowsSnoc(kept: seq<Row>, last: Row, nextMid: nat)
    requires DistinctNames(kept) && DistinctMids(kept, nextMid) && last.mid < nextMid
    requires forall r :: r in kept ==> r.name != last.name && r.mid != last.mid
    ensures DistinctNames(kept + [last]) && DistinctMids(kept + [last], nextMid)
  {
    forall i | 0 <= i < |kept| ensures kept[i].name != last.name && kept[i].mid != last.mid {
      assert kept[i] in kept;
    }
  }

  lemma FrontDistinct(rows: seq<Row>, nextMid: nat)
    requires rows != [] && DistinctNames(rows) && DistinctMids(rows, nextMid)
    ensures var front, last := rows[..|rows| - 1], rows[|rows| - 1];
            && DistinctNames(front) && DistinctMids(front, nextMid) && last.mid < nextMid
            && forall r :: r in front ==> r.name != last.name && r.mid != last.mid
  {
  }

  lemma {:induction false} WithoutMidKeeps(rows: seq<Row>, mid: nat, nextMid: nat)
    requires DistinctNames(rows) && DistinctMids(rows, nextMid)
    ensures var kept := WithoutMid(rows, mid);
            && DistinctNames(kept) && DistinctMids(kept, nextMid)
            && (forall r :: r in kept <==> r in rows && r.mid != mid)
            && |rows| - 1 <= |kept| <= |rows|
  {
    hide DistinctNames, DistinctMids;
    WithoutMidRows(rows, mid);
    if rows != [] {
      var front, last := rows[..|rows| - 1], rows[|rows| - 1];
      FrontDistinct(rows, nextMid);
      WithoutMidKeeps(front, mid, nextMid);
      WithoutMidRows(front, mid);
      if last.mid != mid {
        RowsSnoc(WithoutMid(front, mid), last, nextMid);
      } else {
        assert WithoutMid(front, mid) + [] == WithoutMid(front, mid);
      }
    }
  }

  lemma {:induction false} ScanDefers(rows: seq<Row>, firstSeen: map<nat, int>, cfg: Config, now: int)
    requires forall i, j :: 0 <= i < j < |rows| ==> rows[i].mid != rows[j].mid
    ensures ScanFrom(rows, firstSeen, cfg, now).0 <==> exists r :: r in rows && Booting(r, firstSeen, cfg, now)
  {
    if rows != [] {
      var first, rest := rows[0], rows[1..];
      assert rows == [first] + rest;
      var seen := if Alive(first) then Seen(first, firstSeen, now) else firstSeen;
      forall i, j | 0 <= i < j < |rest| ensures rest[i].mid != rest[j].mid {
        assert rest[i] == rows[i + 1] && rest[j] == rows[j + 1];
      }
      ScanDefers(rest, seen, cfg, now);
      forall r | r in rest ensures Booting(r, seen, cfg, now) == Booting(r, firstSeen, cfg, now) {
        var i :| 0 <= i < |rest| && rest[i] == r;
        assert r == rows[i + 1] && r.mid != first.mid;
      }
    }
  }

  /** create_slot adds at most one slot, only under the bound, under a free name, and only when no slot alive
      is younger than the boot timeout. */
  lemma CreateIsSafe(s: State, cfg: Config, env: Env)
    requires Bounded(s, cfg)
    ensures var s' := Created(s, cfg, env).s;
            && Bounded(s', cfg)
            && (s'.rows == s.rows ||
                 (&& |s.rows| < cfg.maxReplicas
                  && (forall r :: r in s.rows ==> !Booting(r, s.firstSeen, cfg, env.now))
                  && |s'.rows| == |s.rows| + 1 && s'.rows[..|s.rows|] == s.rows
                  && !Used(s.rows, s'.rows[|s.rows|].name)))
            && s'.retiring == s.retiring && s'.idleSince == s.idleSince
  {
    FreeNameIsFree(s.rows);
    ScanDefers(s.rows, s.firstSeen, cfg, env.now);
    var name := FreeName(s.rows);
    forall i | 0 <= i < |s.rows| ensures s.rows[i].name != name {
      assert s.rows[i] in s.rows;
    }
  }

  lemma DestroyIsSafe(s: State, cfg: Config, env: Env, mid: nat)
    requires Bounded(s, cfg)
    ensures Bounded(Destroyed(s, env, mid).s, cfg)
    ensures var s' := Destroyed(s, env, mid).s; s'.retiring == s.retiring && s'.idleSince == s.idleSince
  {
    WithoutMidKeeps(s.rows, mid, s.nextMid);
  }

  lemma ReapOneSafe(s: State, cfg: Config, env: Env, r: Replica)
    requires Bounded(s, cfg)
    ensures match ReapOne(s, cfg, env, r)
            case GoOn(next) => next.rows == s.rows && Bounded(next, cfg) && next.retiring == s.retiring && next.idleSince == s.idleSince
            case Stop(result) => Bounded(result.s, cfg) && result.s.retiring == s.retiring && result.s.idleSince == s.idleSince
  {
    hide Created, Destroyed, DistinctNames, DistinctMids;
    if !r.healthy {
      var name := r.row.name;
      var seen := s.(firstSeen := Seen(r.row, s.firstSeen, env.now));
      var first := if name in seen.unhealthySince then seen.unhealthySince[name] else env.now;
      var noted := seen.(unhealthySince := seen.unhealthySince[name := first]);
      DestroyIsSafe(noted, cfg, env, r.row.mid);
      CreateIsSafe(noted, cfg, env);
      CreateIsSafe(Destroyed(noted, env, r.row.mid).s, cfg, env);
    }
  }

  lemma {:induction false} ReapSafe(s: State, cfg: Config, env: Env, replicas: seq<Replica>)
    requires Bounded(s, cfg)
    ensures var s' := ReapedFrom(s, cfg, env, replicas).s;
            Bounded(s', cfg) && s'.retiring == s.retiring && s'.idleSince == s.idleSince
    decreases |replicas|
  {
    hide ReapOne, Bounded;
    if replicas != [] {
      ReapOneSafe(s, cfg, env, replicas[0]);
      match ReapOne(s, cfg, env, replicas[0])
      case Stop(r) =>
      case GoOn(next) => ReapSafe(next, cfg, env, replicas[1..]);
    }
  }

  lemma {:induction false} FinishSafe(s: State, cfg: Config, env: Env, replicas: seq<Replica>, list: seq<Retirement>)
    requires Bounded(s, cfg)
    ensures Bounded(FinishedFrom(s, cfg, env, replicas, list).s, cfg)
    ensures FinishedFrom(s, cfg, env, replicas, list).s.idleSince == s.idleSince
    decreases |list|
  {
    hide Destroyed, Dropped, DistinctNames, DistinctMids;
    if list != [] {
      if env.now - list[0].started < cfg.drain {
        FinishSafe(s, cfg, env, replicas, list[1..]);
      } else {
        var replica := FindReplica(replicas, list[0].name);
        if replica.Some? {
          DestroyIsSafe(s, cfg, env, replica.value.row.mid);
        }
        var gone := if replica.Some? then Destroyed(s, env, replica.value.row.mid) else Result(s, true);
        var next := gone.s.(retiring := Dropped(gone.s.retiring, list[0].name), lastScale := env.now);
        FinishSafe(next, cfg, env, replicas, list[1..]);
      }
    }
  }

  lemma AutoscaleSafe(s: State, cfg: Config, env: Env, replicas: seq<Replica>)
    requires Bounded(s, cfg)
    ensures Bounded(Autoscaled(s, cfg, env, replicas).s, cfg)
  {
    hide Created, FinishedFrom, Victim, Candidates, Healthy, DistinctNames, DistinctMids, WantsMore;
    FinishSafe(s, cfg, env, replicas, s.retiring);
    CreateIsSafe(FinishedFrom(s, cfg, env, replicas, s.retiring).s, cfg, env);
  }

  /** Main result: a cycle never exceeds the maximum and never reuses a name in use. */
  lemma CycleSafe(s: State, cfg: Config, env: Env)
    requires Bounded(s, cfg)
    ensures Bounded(Cycled(s, cfg, env), cfg)
  {
    hide Created, Autoscaled, ReapedFrom, Bounded, CountAlive;
    CreateIsSafe(s, cfg, env);
    var ensured := EnsuredMin(s, cfg, env, s.rows);
    ReapSafe(ensured.s, cfg, env, Replicas(s.rows, env));
    AutoscaleSafe(ReapedFrom(ensured.s, cfg, env, Replicas(s.rows, env)).s, cfg, env, Replicas(s.rows, env));
  }
}
