/**
What the fleet manager's decisions mean in terms of the provider's rows, the clock and the configuration
(scripts/fleet_manager.py: age_of, create_slot, ensure_min, reap, autoscale, finish_retirements).
*/
module FleetLaws {
  import opened Options
  import opened Fleet

  predicate Up(row: Row) {
    row.status in {Running, Pending, Provisioning}
  }

  /** How long a machine has run: what the provider reports, else the time since it was first seen. */
  ghost predicate Aged(row: Row, firstSeen: map<nat, int>, now: int, age: int) {
    if row.runtime != 0 then age == row.runtime
    else if row.mid in firstSeen then age == now - firstSeen[row.mid]
    else age == 0
  }

  /** An up machine younger than the boot timeout. */
  ghost predicate Young(row: Row, s: State, cfg: Config, now: int) {
    Up(row) && exists age :: Aged(row, s.firstSeen, now, age) && age < cfg.bootTimeout
  }

  lemma AgedIs(row: Row, firstSeen: map<nat, int>, now: int, age: int)
    ensures Aged(row, firstSeen, now, age) <==> age == AgeOf(row, firstSeen, now)
  {
  }

  lemma YoungIs(row: Row, s: State, cfg: Config, now: int)
    ensures Young(row, s, cfg, now) <==> Booting(row, s.firstSeen, cfg, now)
  {
    AgedIs(row, s.firstSeen, now, AgeOf(row, s.firstSeen, now));
  }

  /** Machines noted as first seen: none forgotten or re-dated, and new ones are up, without a runtime, and dated now. */
  ghost predicate Notes(rows: seq<Row>, before: map<nat, int>, after: map<nat, int>, now: int) {
    && (forall m :: m in before ==> m in after && after[m] == before[m])
    && (forall m :: m in after && m !in before ==>
          after[m] == now && exists row :: row in rows && row.mid == m && Up(row) && row.runtime == 0)
  }

  /** Every up machine without a runtime is noted. */
  ghost predicate AllNoted(rows: seq<Row>, after: map<nat, int>) {
    forall row :: row in rows && Up(row) && row.runtime == 0 ==> row.mid in after
  }

  lemma {:induction false} ScanNotes(rows: seq<Row>, firstSeen: map<nat, int>, cfg: Config, now: int)
    ensures Notes(rows, firstSeen, ScanFrom(rows, firstSeen, cfg, now).1, now)
    ensures !ScanFrom(rows, firstSeen, cfg, now).0 ==> AllNoted(rows, ScanFrom(rows, firstSeen, cfg, now).1)
  {
    if rows != [] {
      var first, rest := rows[0], rows[1..];
      assert rows == [first] + rest;
      if !Alive(first) {
        ScanNotes(rest, firstSeen, cfg, now);
      } else if !Booting(first, firstSeen, cfg, now) {
        ScanNotes(rest, Seen(first, firstSeen, now), cfg, now);
      } else {
        assert first in rows;
      }
    }
  }

  // ------------------------------------------------------------------ create_slot

  /** The positions of the up on-demand slots. */
  function Backbone(rows: seq<Row>): set<int> {
    set i | 0 <= i < |rows| && Up(rows[i]) && !rows[i].spot
  }

  lemma {:induction false} BackboneIs(rows: seq<Row>)
    ensures |Backbone(rows)| == OnDemandAlive(rows)
  {
    if rows != [] {
      var n := |rows| - 1;
      BackboneIs(rows[..n]);
      var joins := if Up(rows[n]) && !rows[n].spot then {n} else {};
      assert Backbone(rows) == Backbone(rows[..n]) + joins;
    }
  }

  function UpRows(rows: seq<Row>): set<int> {
    set i | 0 <= i < |rows| && Up(rows[i])
  }

  lemma {:induction false} UpRowsIs(rows: seq<Row>)
    ensures |UpRows(rows)| == CountAlive(rows)
  {
    if rows != [] {
      var n := |rows| - 1;
      UpRowsIs(rows[..n]);
      assert UpRows(rows) == UpRows(rows[..n]) + if Up(rows[n]) then {n} else {};
    }
  }

  /** A slot may be created: the listing succeeds, the fleet is below its maximum and no up slot is still booting. */
  ghost predicate MayCreate(s: State, cfg: Config, env: Env) {
    env.listOk && |s.rows| < cfg.maxReplicas && forall row :: row in s.rows ==> !Young(row, s, cfg, env.now)
  }

  predicate Taken(rows: seq<Row>, k: nat) {
    exists r :: r in rows && k == r.name
  }

  /** The new slot: the smallest free number, a fresh machine, pending, on demand while the backbone is short. */
  ghost predicate FreshSlot(s: State, cfg: Config, row: Row) {
    && !Taken(s.rows, row.name) && (forall k: nat :: k < row.name ==> Taken(s.rows, k))
    && row.mid == s.nextMid && row.status == Pending && row.runtime == 0
    && (row.spot <==> |Backbone(s.rows)| >= cfg.onDemandMin)
  }

  /** Main result: create_slot creates one slot exactly when it may and the provider agrees, then restarts the cooldown;
      it fails exactly when the listing or the allowed creation does, and touches nothing else. */
  lemma CreationLaw(s: State, cfg: Config, env: Env)
    requires Bounded(s, cfg)
    ensures var r := Created(s, cfg, env);
            && (!r.ok <==> !env.listOk || (MayCreate(s, cfg, env) && !env.createOk))
            && (if MayCreate(s, cfg, env) && env.createOk then
                  && |r.s.rows| == |s.rows| + 1 && r.s.rows[..|s.rows|] == s.rows && FreshSlot(s, cfg, r.s.rows[|s.rows|])
                  && r.s.nextMid == s.nextMid + 1 && r.s.lastScale == env.now && AllNoted(s.rows, r.s.firstSeen)
                else r.s.rows == s.rows && r.s.nextMid == s.nextMid && r.s.lastScale == s.lastScale)
            && Notes(s.rows, s.firstSeen, r.s.firstSeen, env.now)
            && r.s.idleSince == s.idleSince && r.s.retiring == s.retiring && r.s.unhealthySince == s.unhealthySince
  {
    hide ScanFrom, OnDemandAlive, Booting, Young, Notes, AllNoted, FreeName, Used, Taken;
    ScanDefers(s.rows, s.firstSeen, cfg, env.now);
    ScanNotes(s.rows, s.firstSeen, cfg, env.now);
    forall row ensures Young(row, s, cfg, env.now) <==> Booting(row, s.firstSeen, cfg, env.now) {
      YoungIs(row, s, cfg, env.now);
    }
    BackboneIs(s.rows);
    SmallestFree(s.rows);
    NotesNothing(s.rows, s.firstSeen, env.now);
  }

  lemma NotesNothing(rows: seq<Row>, firstSeen: map<nat, int>, now: int)
    ensures Notes(rows, firstSeen, firstSeen, now)
  {
  }

  lemma SmallestFree(rows: seq<Row>)
    ensures !Taken(rows, FreeName(rows)) && forall k: nat :: k < FreeName(rows) ==> Taken(rows, k)
  {
    FreeNameIsFree(rows);
    FreeFromFree(rows, 0, |rows|);
    forall k: nat | k < FreeName(rows) ensures Taken(rows, k) {
      assert Used(rows, k);
    }
  }

  /** ensure_min creates exactly when fewer slots than the minimum are up. */
  lemma EnsureLaw(s: State, cfg: Config, env: Env)
    ensures EnsuredMin(s, cfg, env, s.rows) ==
            if |UpRows(s.rows)| < cfg.minReplicas then Created(s, cfg, env) else Result(s, true)
  {
    hide Created, CountAlive;
    UpRowsIs(s.rows);
  }

  // ------------------------------------------------------------------ reap

  /** Since when the slot counts as unhealthy. */
  function Since(s: State, row: Row, now: int): int {
    if row.name in s.unhealthySince then s.unhealthySince[row.name] else now
  }

  /** A running machine that answers its probe. */
  predicate Serves(row: Row, env: Env) {
    row.status == Running && row.mid in env.probes && env.probes[row.mid].healthy
  }

  /** The reap passes the slot over: it serves, still boots, or runs unhealthily within its grace. */
  ghost predicate PassedOver(s: State, cfg: Config, env: Env, row: Row) {
    Serves(row, env) || Young(row, s, cfg, env.now) || (row.status == Running && env.now - Since(s, row, env.now) <= cfg.grace)
  }

  /** The slot the reap acts on. */
  ghost predicate ActsOn(s: State, cfg: Config, env: Env, k: int) {
    0 <= k < |s.rows| && !PassedOver(s, cfg, env, s.rows[k]) && forall j :: 0 <= j < k ==> PassedOver(s, cfg, env, s.rows[j])
  }

  /** A slot's unhealthy mark after it was passed over: none when it serves, as it was while it boots, else set. */
  ghost predicate Marked(s: State, cfg: Config, env: Env, row: Row, marks: map<nat, int>) {
    Look(marks, row.name) ==
      if Serves(row, env) then None
      else if Young(row, s, cfg, env.now) then Look(s.unhealthySince, row.name)
      else Some(Since(s, row, env.now))
  }

  /** The marks once the first k slots were passed over. */
  ghost predicate MarkedUpTo(s: State, cfg: Config, env: Env, k: int, marks: map<nat, int>) {
    && (forall j :: 0 <= j < k && j < |s.rows| ==> Marked(s, cfg, env, s.rows[j], marks))
    && (forall name :: (forall j :: 0 <= j < k && j < |s.rows| ==> s.rows[j].name != name) ==>
          Look(marks, name) == Look(s.unhealthySince, name))
  }

  /** A first sighting dates a machine now, which is the age it is given anyway. */
  ghost predicate Dates(before: map<nat, int>, after: map<nat, int>, now: int) {
    && (forall m :: m in before ==> m in after && after[m] == before[m])
    && (forall m :: m in after && m !in before ==> after[m] == now)
  }

  lemma DatesKeepAge(row: Row, before: map<nat, int>, after: map<nat, int>, now: int)
    requires Dates(before, after, now)
    ensures AgeOf(row, after, now) == AgeOf(row, before, now)
    ensures Dates(before, Seen(row, after, now), now)
  {
  }

  /** The reap's state before slot k: nothing but marks and dates has changed. */
  ghost predicate Passing(s: State, t: State, cfg: Config, env: Env, k: int) {
    && t == s.(firstSeen := t.firstSeen, unhealthySince := t.unhealthySince)
    && Dates(s.firstSeen, t.firstSeen, env.now) && MarkedUpTo(s, cfg, env, k, t.unhealthySince)
  }

  /** Passing over one slot sets or clears its own mark. */
  lemma PassedMark(s: State, t: State, cfg: Config, env: Env, k: nat)
    requires k < |s.rows| && Dates(s.firstSeen, t.firstSeen, env.now) && PassedOver(s, cfg, env, s.rows[k])
    requires Look(t.unhealthySince, s.rows[k].name) == Look(s.unhealthySince, s.rows[k].name)
    ensures match ReapOne(t, cfg, env, Probed(s.rows[k], env))
            case GoOn(next) =>
              && next == t.(firstSeen := next.firstSeen, unhealthySince := next.unhealthySince)
              && Dates(s.firstSeen, next.firstSeen, env.now)
              && Marked(s, cfg, env, s.rows[k], next.unhealthySince)
              && forall name :: name != s.rows[k].name ==> Look(next.unhealthySince, name) == Look(t.unhealthySince, name)
            case Stop(_) => false
  {
    hide AgeOf, Seen, Created, Destroyed, Young, Booting, Dates;
    var row := s.rows[k];
    DatesKeepAge(row, s.firstSeen, t.firstSeen, env.now);
    YoungIs(row, s, cfg, env.now);
    YoungMeans(row, s, cfg, env.now);
  }

  lemma MarkedNext(s: State, cfg: Config, env: Env, k: nat, marks: map<nat, int>, marks': map<nat, int>)
    requires k < |s.rows| && DistinctNames(s.rows) && MarkedUpTo(s, cfg, env, k, marks)
    requires Marked(s, cfg, env, s.rows[k], marks')
    requires forall name :: name != s.rows[k].name ==> Look(marks', name) == Look(marks, name)
    ensures MarkedUpTo(s, cfg, env, k + 1, marks')
  {
    hide Serves, Young;
  }

  lemma PassedStep(s: State, t: State, cfg: Config, env: Env, k: nat)
    requires k < |s.rows| && DistinctNames(s.rows) && Passing(s, t, cfg, env, k) && PassedOver(s, cfg, env, s.rows[k])
    ensures match ReapOne(t, cfg, env, Probed(s.rows[k], env))
            case GoOn(next) => Passing(s, next, cfg, env, k + 1)
            case Stop(_) => false
  {
    hide ReapOne, PassedOver, Dates, Marked, MarkedUpTo;
    UnmarkedYet(s, t, cfg, env, k);
    PassedMark(s, t, cfg, env, k);
    match ReapOne(t, cfg, env, Probed(s.rows[k], env))
    case GoOn(next) => MarkedNext(s, cfg, env, k, t.unhealthySince, next.unhealthySince);
    case Stop(_) =>
  }

  lemma YoungMeans(row: Row, s: State, cfg: Config, now: int)
    ensures Booting(row, s.firstSeen, cfg, now) <==> Alive(row) && AgeOf(row, s.firstSeen, now) < cfg.bootTimeout
  {
  }

  /** What the reap does about the slot it acts on. A paused one is left to its resumption. A running one is destroyed
      first; then, as for one that is gone, create_slot runs on the rows that are left, and the mark is cleared. */
  ghost predicate Acted(s: State, cfg: Config, env: Env, k: int, r: Result)
    requires 0 <= k < |s.rows|
  {
    var row := s.rows[k];
    var since := Since(s, row, env.now);
    match row.status
    case Paused => r.ok && r.s.rows == s.rows && r.s.lastScale == s.lastScale && MarkedUpTo(s, cfg, env, k, r.s.unhealthySince)
    case Running =>
      if !env.destroyOk then !r.ok && r.s.rows == s.rows && r.s.lastScale == s.lastScale && Look(r.s.unhealthySince, row.name) == Some(since)
      else exists left, t :: Leaves(s.rows, row.mid, left) && Replaced(s, t, cfg, env, k, left, r)
    case _ => exists t :: Replaced(s, t, cfg, env, k, s.rows, r)
  }

  /** The rows without one machine's. */
  ghost predicate Leaves(rows: seq<Row>, mid: nat, left: seq<Row>)
    decreases |rows|
  {
    if rows == [] then left == []
    else if rows[0].mid == mid then Leaves(rows[1..], mid, left)
    else left != [] && left[0] == rows[0] && Leaves(rows[1..], mid, left[1..])
  }

  /** create_slot ran on these rows, and the slot's mark is gone unless it failed. */
  ghost predicate Replaced(s: State, t: State, cfg: Config, env: Env, k: int, left: seq<Row>, r: Result)
    requires 0 <= k < |s.rows|
  {
    && t == s.(rows := left, firstSeen := t.firstSeen, unhealthySince := t.unhealthySince)
    && Dates(s.firstSeen, t.firstSeen, env.now)
    && var made := Created(t, cfg, env);
       && r == Result(made.s.(unhealthySince := r.s.unhealthySince), made.ok)
       && Look(r.s.unhealthySince, s.rows[k].name) == (if made.ok then None else Some(Since(s, s.rows[k], env.now)))
       && forall name :: name != s.rows[k].name ==> Look(r.s.unhealthySince, name) == Look(t.unhealthySince, name)
  }

  lemma {:induction false} WithoutLeaves(rows: seq<Row>, mid: nat)
    ensures Leaves(rows, mid, WithoutMid(rows, mid))
  {
    if rows == [] {
    } else {
      var front, last := rows[..|rows| - 1], rows[|rows| - 1];
      assert rows == front + [last];
      WithoutLeaves(front, mid);
      LeavesSnoc(front, last, mid, WithoutMid(front, mid));
      assert last.mid == mid ==> WithoutMid(front, mid) + [] == WithoutMid(front, mid);
    }
  }

  lemma {:induction false} LeavesSnoc(rows: seq<Row>, last: Row, mid: nat, left: seq<Row>)
    requires Leaves(rows, mid, left)
    ensures Leaves(rows + [last], mid, if last.mid == mid then left else left + [last])
    decreases |rows|
  {
    if rows == [] {
      assert rows + [last] == [last] && [last][1..] == [] && left + [last] == [last];
    } else {
      assert (rows + [last])[1..] == rows[1..] + [last];
      if rows[0].mid == mid {
        LeavesSnoc(rows[1..], last, mid, left);
      } else {
        LeavesSnoc(rows[1..], last, mid, left[1..]);
        assert (left + [last])[1..] == left[1..] + [last];
      }
    }
  }

  lemma CreatedKeepsMarks(s: State, cfg: Config, env: Env)
    ensures Created(s, cfg, env).s.unhealthySince == s.unhealthySince
  {
    hide ScanFrom, OnDemandAlive, FreeName;
  }

  lemma ActedStep(s: State, t: State, cfg: Config, env: Env, k: nat)
    requires k < |s.rows| && DistinctNames(s.rows) && Passing(s, t, cfg, env, k) && !PassedOver(s, cfg, env, s.rows[k])
    ensures match ReapOne(t, cfg, env, Probed(s.rows[k], env))
            case GoOn(_) => false
            case Stop(r) => Acted(s, cfg, env, k, r)
  {
    hide AgeOf, Seen, Created, Young, Booting, Dates, Leaves, MarkedUpTo, WithoutMid;
    var row := s.rows[k];
    DatesKeepAge(row, s.firstSeen, t.firstSeen, env.now);
    YoungIs(row, s, cfg, env.now);
    YoungMeans(row, s, cfg, env.now);
    UnmarkedYet(s, t, cfg, env, k);
    WithoutLeaves(s.rows, row.mid);
    var seen := t.(firstSeen := Seen(row, t.firstSeen, env.now));
    var noted := seen.(unhealthySince := seen.unhealthySince[row.name := Since(s, row, env.now)]);
    var left := if row.status == Running then WithoutMid(s.rows, row.mid) else s.rows;
    var u := noted.(rows := left);
    CreatedKeepsMarks(u, cfg, env);
    match ReapOne(t, cfg, env, Probed(row, env))
    case GoOn(_) =>
    case Stop(r) =>
      if row.status != Paused && (row.status == Running ==> env.destroyOk) {
        assert Replaced(s, u, cfg, env, k, left, r);
      }
  }

  lemma UnmarkedYet(s: State, t: State, cfg: Config, env: Env, k: nat)
    requires k < |s.rows| && DistinctNames(s.rows) && Passing(s, t, cfg, env, k)
    ensures Look(t.unhealthySince, s.rows[k].name) == Look(s.unhealthySince, s.rows[k].name)
  {
    hide Dates, Marked;
  }

  lemma {:induction false} ReapFrom(s: State, t: State, cfg: Config, env: Env, k: nat)
    requires k <= |s.rows| && DistinctNames(s.rows) && Passing(s, t, cfg, env, k)
    requires forall j :: 0 <= j < k ==> PassedOver(s, cfg, env, s.rows[j])
    ensures var r := ReapedFrom(t, cfg, env, Replicas(s.rows, env)[k..]);
            if exists i :: ActsOn(s, cfg, env, i) then exists i :: ActsOn(s, cfg, env, i) && Acted(s, cfg, env, i, r)
            else r.ok && Passing(s, r.s, cfg, env, |s.rows|)
    decreases |s.rows| - k
  {
    hide ReapOne, PassedOver, Passing, Acted;
    var replicas := Replicas(s.rows, env);
    if k < |s.rows| {
      assert replicas[k..][0] == Probed(s.rows[k], env) && replicas[k..][1..] == replicas[k + 1..];
      if PassedOver(s, cfg, env, s.rows[k]) {
        PassedStep(s, t, cfg, env, k);
        ReapFrom(s, ReapOne(t, cfg, env, Probed(s.rows[k], env)).s, cfg, env, k + 1);
      } else {
        ActedStep(s, t, cfg, env, k);
        assert ActsOn(s, cfg, env, k);
      }
    }
  }

  /** Main result: the reap passes over every slot that serves, boots or is within its grace, and acts on the first
      other one; the marks say since when each slot it passed over has been unhealthy. */
  lemma {:induction false} ReapLaw(s: State, cfg: Config, env: Env)
    requires DistinctNames(s.rows)
    ensures var r := ReapedFrom(s, cfg, env, Replicas(s.rows, env));
            if exists i :: ActsOn(s, cfg, env, i) then exists i :: ActsOn(s, cfg, env, i) && Acted(s, cfg, env, i, r)
            else r.ok && Passing(s, r.s, cfg, env, |s.rows|)
  {
    hide PassedOver, Acted, ReapOne, Marked;
    assert Replicas(s.rows, env)[0..] == Replicas(s.rows, env);
    ReapFrom(s, s, cfg, env, 0);
  }

  // ------------------------------------------------------------------ autoscale

  /** How many slots serve, and what they hold waiting and running. */
  datatype Load = Load(slots: nat, waiting: nat, running: nat)

  function LoadOf(rows: seq<Row>, env: Env): Load {
    if rows == [] then Load(0, 0, 0)
    else
      var rest := LoadOf(rows[1..], env);
      if !Serves(rows[0], env) then rest
      else
        var p := env.probes[rows[0].mid];
        Load(rest.slots + 1, rest.waiting + p.waiting, rest.running + p.running)
  }

  lemma {:induction false} LoadAppend(a: seq<Row>, b: seq<Row>, env: Env)
    ensures var x, y, all := LoadOf(a, env), LoadOf(b, env), LoadOf(a + b, env);
            all == Load(x.slots + y.slots, x.waiting + y.waiting, x.running + y.running)
  {
    if a == [] {
      assert a + b == b;
    } else {
      assert (a + b)[1..] == a[1..] + b;
      LoadAppend(a[1..], b, env);
    }
  }

  lemma {:induction false} LoadIs(rows: seq<Row>, env: Env)
    ensures var healthy := Healthy(Replicas(rows, env));
            LoadOf(rows, env) == Load(|healthy|, Queued(healthy), Busy(healthy))
  {
    if rows != [] {
      var front, last := rows[..|rows| - 1], rows[|rows| - 1];
      assert rows == front + [last];
      LoadIs(front, env);
      LoadAppend(front, [last], env);
      assert [last][1..] == [];
      assert Replicas(rows, env)[..|rows| - 1] == Replicas(front, env);
      var some := Healthy(Replicas(front, env));
      assert (some + [Probed(last, env)])[..|some|] == some;
      assert some + [] == some;
    }
  }

  /** More queued than allowed, or the serving slots full. */
  predicate Heavy(l: Load, cfg: Config) {
    l.waiting > cfg.scaleUpWaiting || l.running >= cfg.capacity * l.slots
  }

  predicate Light(l: Load, cfg: Config) {
    l.running + l.waiting < cfg.threshold
  }

  /** Main result: autoscaling, after the drained retirements are finished. Nothing happens without a serving slot or
      within the cooldown; heavy load creates a slot below the maximum; light load starts or keeps the idle clock and
      may begin a retirement; any other load stops the clock. */
  lemma {:induction false} AutoscaleLaw(s: State, cfg: Config, env: Env, rows: seq<Row>)
    ensures var replicas := Replicas(rows, env);
            var f := FinishedFrom(s, cfg, env, replicas, s.retiring);
            var r := Autoscaled(s, cfg, env, replicas);
            var l := LoadOf(rows, env);
            if !f.ok || l.slots == 0 || env.now - f.s.lastScale < cfg.cooldown then r == f
            else if Heavy(l, cfg) then r == if |rows| < cfg.maxReplicas then Created(f.s, cfg, env) else f
            else if Light(l, cfg) then
              var since := if f.s.idleSince.Some? then f.s.idleSince.value else env.now;
              && r.s.rows == f.s.rows && r.s.lastScale == f.s.lastScale
              && (r.s.retiring == f.s.retiring ==> r.ok && r.s.idleSince == Some(since))
              && (r.s.retiring != f.s.retiring ==>
                    && env.now - since >= cfg.idleFor && |rows| > cfg.minReplicas
                    && r.s.idleSince == (if r.ok then None else Some(since)) && (!r.ok ==> !env.wireOk))
            else r == Result(f.s.(idleSince := None), true)
  {
    hide FinishedFrom, Created, Victim, Candidates, Healthy, Queued, Busy, Dropped;
    LoadIs(rows, env);
    var f := FinishedFrom(s, cfg, env, Replicas(rows, env), s.retiring);
    if f.ok {
      ScaleDownLaw(f.s, cfg, env, rows);
    }
  }

  lemma {:induction false} ScaleDownLaw(s: State, cfg: Config, env: Env, rows: seq<Row>)
    ensures var r := ScaledDown(s, cfg, env, Replicas(rows, env));
            var since := if s.idleSince.Some? then s.idleSince.value else env.now;
            && r.s.rows == s.rows && r.s.lastScale == s.lastScale
            && (r.s.retiring == s.retiring ==> r.ok && r.s.idleSince == Some(since))
            && (r.s.retiring != s.retiring ==>
                  && env.now - since >= cfg.idleFor && |rows| > cfg.minReplicas
                  && r.s.idleSince == (if r.ok then None else Some(since)) && (!r.ok ==> !env.wireOk))
  {
    hide Victim, Healthy, Dropped;
    var healthy := Healthy(Replicas(rows, env));
    var candidates := Candidates(healthy, s.retiring);
    if candidates != [] {
      VictimNotRetiring(healthy, s.retiring);
      var name := Victim(candidates).row.name;
      assert Retiring(Dropped(s.retiring, name) + [Retirement(name, env.now)], name) by {
        assert Retirement(name, env.now) in Dropped(s.retiring, name) + [Retirement(name, env.now)];
      }
    }
  }

  lemma {:induction false} VictimNotRetiring(healthy: seq<Replica>, retiring: seq<Retirement>)
    requires Candidates(healthy, retiring) != []
    ensures !Retiring(retiring, Victim(Candidates(healthy, retiring)).row.name)
  {
    hide Retiring;
    var candidates := Candidates(healthy, retiring);
    VictimAmong(candidates);
    AllUnretiring(healthy, retiring, Victim(candidates));
  }

  lemma {:induction false} VictimAmong(candidates: seq<Replica>)
    requires candidates != []
    ensures Victim(candidates) in candidates
  {
    if |candidates| > 1 {
      VictimAmong(candidates[..|candidates| - 1]);
    }
  }

  lemma {:induction false} AllUnretiring(healthy: seq<Replica>, retiring: seq<Retirement>, r: Replica)
    requires r in Candidates(healthy, retiring)
    ensures !Retiring(retiring, r.row.name)
  {
    if r in Candidates(healthy[..|healthy| - 1], retiring) {
      AllUnretiring(healthy[..|healthy| - 1], retiring, r);
    }
  }
}
