/**
The fleet manager as it runs (scripts/fleet_manager.py: class Fleet): each method updates the manager's
fields and the provider's rows, and is proved to compute the step functions of module Fleet. A method
returns false where the source raises.
*/
module FleetManager {
  import opened Options
  import opened Fleet

  class Manager {
    const cfg: Config
    var lastScale: int
    var idleSince: Option<int>
    var retiring: seq<Retirement>
    var unhealthySince: map<nat, int>
    var firstSeen: map<nat, int>
    var rows: seq<Row>
    var nextMid: nat

    ghost function View(): State
      reads this
    {
      State(lastScale, idleSince, retiring, unhealthySince, firstSeen, rows, nextMid)
    }

    constructor (cfg: Config, rows: seq<Row>, nextMid: nat)
      ensures this.cfg == cfg && View() == State(0, None, [], map[], map[], rows, nextMid)
    {
      this.cfg, this.rows, this.nextMid := cfg, rows, nextMid;
      lastScale, idleSince, retiring, unhealthySince, firstSeen := 0, None, [], map[], map[];
    }

    /** age_of, remembering when a machine without a runtime was first seen. */
    method Age(row: Row, now: int) returns (age: int)
      modifies this`firstSeen
      ensures age == AgeOf(row, old(firstSeen), now)
      ensures firstSeen == Seen(row, old(firstSeen), now)
    {
      if row.runtime > 0 {
        return row.runtime;
      }
      if row.mid !in firstSeen {
        firstSeen := firstSeen[row.mid := now];
      }
      age := now - firstSeen[row.mid];
    }

    /** The first slot still booting defers the creation. */
    method BootScan(now: int) returns (deferred: bool)
      modifies this`firstSeen
      ensures ScanFrom(rows, old(firstSeen), cfg, now) == (deferred, firstSeen)
    {
      var i := 0;
      ghost var seen := firstSeen;
      assert rows[0..] == rows;
      while i < |rows|
        invariant i <= |rows| && ScanFrom(rows[i..], firstSeen, cfg, now) == ScanFrom(rows, seen, cfg, now)
      {
        assert rows[i..][1..] == rows[i + 1..];
        if Alive(rows[i]) {
          ghost var before := firstSeen;
          var age := Age(rows[i], now);
          if age < cfg.bootTimeout {
            return true;
          }
        }
        i := i + 1;
      }
      deferred := false;
    }

    /** The least slot number that is not in use. */
    method SearchName() returns (n: nat)
      ensures n == FreeName(rows)
    {
      var used := NamesOf(rows);
      n := 0;
      FreeNameIsFree(rows);
      while n in used
        invariant n <= |rows| && FreeFrom(rows, n, |rows| - n) == FreeName(rows)
        decreases |rows| - n
      {
        assert Used(rows, n);
        n := n + 1;
      }
      assert !Used(rows, n) by {
        forall r | r in rows ensures r.name != n {
          assert r.name in used;
        }
      }
    }

    method CreateSlot(env: Env) returns (ok: bool)
      modifies this
      ensures Created(old(View()), cfg, env) == Result(View(), ok)
    {
      hide ScanFrom, FreeName;
      if !env.listOk {
        return false;
      }
      if |rows| >= cfg.maxReplicas {
        return true;
      }
      var deferred := BootScan(env.now);
      if deferred {
        return true;
      }
      var name := SearchName();
      if !env.createOk {
        return false;
      }
      var spot := OnDemandAlive(rows) >= cfg.onDemandMin;
      rows := rows + [Row(name, nextMid, Pending, spot, 0)];
      nextMid := nextMid + 1;
      lastScale := env.now;
      ok := true;
    }

    method EnsureMin(env: Env, replicas: seq<Row>) returns (ok: bool)
      modifies this
      ensures EnsuredMin(old(View()), cfg, env, replicas) == Result(View(), ok)
    {
      var alive := 0;
      for i := 0 to |replicas|
        invariant View() == old(View()) && alive == CountAlive(replicas[..i])
      {
        assert replicas[..i + 1][..i] == replicas[..i];
        if Alive(replicas[i]) {
          alive := alive + 1;
        }
      }
      assert replicas[..|replicas|] == replicas;
      ok := true;
      if cfg.minReplicas - alive > 0 {
        ok := CreateSlot(env);
      }
    }

    method Destroy(mid: nat, env: Env) returns (ok: bool)
      modifies this`rows
      ensures Destroyed(old(View()), env, mid) == Result(View(), ok)
    {
      if !env.destroyOk {
        return false;
      }
      rows := WithoutMid(rows, mid);
      ok := true;
    }

    /** One replica; stopped ends the loop. */
    method ReapReplica(r: Replica, env: Env) returns (stopped: bool, ok: bool)
      modifies this
      ensures ReapOne(old(View()), cfg, env, r) == (if stopped then Stop(Result(View(), ok)) else GoOn(View())) && (!stopped ==> ok)
    {
      hide Created, AgeOf, Seen, WithoutMid;
      var key := r.row.name;
      if r.healthy {
        unhealthySince := unhealthySince - {key};
        return false, true;
      }
      var age := Age(r.row, env.now);
      if r.row.status == Paused {
        return true, true;
      }
      if Alive(r.row) && age < cfg.bootTimeout {
        return false, true;
      }
      if key !in unhealthySince {
        unhealthySince := unhealthySince[key := env.now];
      }
      var first := unhealthySince[key];
      assert unhealthySince == unhealthySince[key := first];
      if r.row.status != Running || env.now - first > cfg.grace {
        if r.row.status == Running {
          ok := Destroy(r.row.mid, env);
          if !ok {
            return true, false;
          }
        }
        ok := CreateSlot(env);
        if !ok {
          return true, false;
        }
        unhealthySince := unhealthySince - {key};
        return true, true;
      }
      return false, true;
    }

    method Reap(replicas: seq<Replica>, env: Env) returns (ok: bool)
      modifies this
      ensures ReapedFrom(old(View()), cfg, env, replicas) == Result(View(), ok)
    {
      hide ReapOne;
      ghost var s := View();
      var i := 0;
      assert replicas[0..] == replicas;
      while i < |replicas|
        invariant i <= |replicas| && ReapedFrom(View(), cfg, env, replicas[i..]) == ReapedFrom(s, cfg, env, replicas)
      {
        assert replicas[i..][1..] == replicas[i + 1..];
        var stopped;
        stopped, ok := ReapReplica(replicas[i], env);
        if stopped {
          return;
        }
        i := i + 1;
      }
      ok := true;
    }

    /** Over a copy of the retirements, oldest first. */
    method FinishRetirements(replicas: seq<Replica>, env: Env) returns (ok: bool)
      modifies this
      ensures FinishedFrom(old(View()), cfg, env, replicas, old(retiring)) == Result(View(), ok)
    {
      hide Dropped, WithoutMid;
      ghost var s := View();
      var list := retiring;
      var i := 0;
      assert list[0..] == list;
      while i < |list|
        invariant i <= |list|
        invariant FinishedFrom(View(), cfg, env, replicas, list[i..]) == FinishedFrom(s, cfg, env, replicas, list)
      {
        assert list[i..][1..] == list[i + 1..];
        if env.now - list[i].started >= cfg.drain {
          var replica := FindReplica(replicas, list[i].name);
          if replica.Some? {
            ok := Destroy(replica.value.row.mid, env);
            if !ok {
              return;
            }
          }
          retiring := Dropped(retiring, list[i].name);
          lastScale := env.now;
        }
        i := i + 1;
      }
      ok := true;
    }

    method PickVictim(candidates: seq<Replica>) returns (victim: Replica)
      requires candidates != []
      ensures victim == Victim(candidates)
    {
      victim := candidates[0];
      assert candidates[..1] == [candidates[0]];
      for i := 1 to |candidates|
        invariant victim == Victim(candidates[..i])
      {
        assert candidates[..i + 1][..i] == candidates[..i];
        if Sooner(candidates[i], victim) {
          victim := candidates[i];
        }
      }
      assert candidates[..|candidates|] == candidates;
    }

    method Autoscale(replicas: seq<Replica>, env: Env) returns (ok: bool)
      modifies this
      ensures Autoscaled(old(View()), cfg, env, replicas) == Result(View(), ok)
    {
      hide FinishedFrom, Created, Healthy, Victim, Dropped, Candidates, Queued, Busy;
      var healthy := Healthy(replicas);
      ok := FinishRetirements(replicas, env);
      if !ok || healthy == [] || env.now - lastScale < cfg.cooldown {
        return;
      }
      if Queued(healthy) > cfg.scaleUpWaiting || Busy(healthy) >= cfg.capacity * |healthy| {
        if |replicas| < cfg.maxReplicas {
          ok := CreateSlot(env);
        }
        return;
      }
      if Busy(healthy) + Queued(healthy) < cfg.threshold {
        if idleSince.None? {
          idleSince := Some(env.now);
        }
        if env.now - idleSince.value >= cfg.idleFor && |replicas| > cfg.minReplicas {
          var candidates := Candidates(healthy, retiring);
          if candidates == [] {
            return;
          }
          var victim := PickVictim(candidates);
          retiring := Dropped(retiring, victim.row.name) + [Retirement(victim.row.name, env.now)];
          if RewireRaises(env, healthy, retiring) {
            return false;
          }
          idleSince := None;
        }
      } else {
        idleSince := None;
      }
    }

    method Cycle(env: Env)
      modifies this
      ensures View() == Cycled(old(View()), cfg, env)
    {
      hide Autoscaled, ReapedFrom, EnsuredMin;
      var listed := rows;
      var replicas := Replicas(listed, env);
      var ok := EnsureMin(env, listed);
      if !ok {
        return;
      }
      ok := Reap(replicas, env);
      if !ok {
        return;
      }
      ok := Autoscale(replicas, env);
    }
  }
}
