/**
What the incidents and their events say, field by field (scripts/soul_controller.py: IncidentBook.reconcile):
in one cycle, and over whole runs.
*/
module IncidentRecords {
  import opened Options
  import opened Incidents
  import opened IncidentRuns

  /** What identifies an incident and never changes after its opening. */
  predicate SameOrigin(a: Incident, b: Incident) {
    a.id == b.id && a.fingerprint == b.fingerprint && a.finding == b.finding && a.openedAt == b.openedAt
  }

  /** The incident was opened now, for the finding reported under its fingerprint. */
  predicate OpenedNow(i: Incident, findings: Dict<Finding>, now: int, snapshot: string) {
    && i.fingerprint in findings.at && i.finding == findings.at[i.fingerprint]
    && i.openedAt == now && i.lastSeenAt == now && i.snapshotId == snapshot
    && i.state == Open && i.recoveredAt == None
  }

  /** The incident was open and its finding is still there. */
  predicate SeenNow(was: Incident, i: Incident, now: int, snapshot: string) {
    && SameOrigin(was, i)
    && i.lastSeenAt == now && i.snapshotId == snapshot && i.state == Open && i.recoveredAt == was.recoveredAt
  }

  /** The incident was open and its finding is gone. */
  predicate RecoveredNow(was: Incident, i: Incident, now: int, snapshot: string) {
    && SameOrigin(was, i)
    && i.lastSeenAt == was.lastSeenAt && i.snapshotId == snapshot && i.state == Recovered && i.recoveredAt == Some(now)
  }

  /** What happened to one incident by the time the findings on `seen` were raised and the checks `cleared`. */
  ghost predicate Moved(b: Book, b': Book, findings: Dict<Finding>, seen: set<Key>, cleared: set<Key>, now: int, snapshot: string,
                        id: Id)
  {
    if id in b.incidents then
      var was := b.incidents[id];
      id in b'.incidents &&
      if was.state == Open && was.fingerprint in seen then SeenNow(was, b'.incidents[id], now, snapshot)
      else if was.state == Open && was.fingerprint in cleared then RecoveredNow(was, b'.incidents[id], now, snapshot)
      else b'.incidents[id] == was
    else
      id in b'.incidents ==>
        id >= b.next && b'.incidents[id].fingerprint in seen && OpenedNow(b'.incidents[id], findings, now, snapshot)
  }

  /** An event says what the book says of its incident, and its kind is what happened to it. */
  ghost predicate Tells(b: Book, b': Book, findings: Dict<Finding>, now: int, snapshot: string, e: Event) {
    var i := e.incident;
    && e.at == now && Look(b'.incidents, i.id) == Some(i)
    && match e.kind
       case OpenedEvent => i.id !in b.incidents && OpenedNow(i, findings, now, snapshot)
       case UpdatedEvent =>
         i.id in b.incidents && b.incidents[i.id].state == Open && i.fingerprint in findings.at
         && SeenNow(b.incidents[i.id], i, now, snapshot)
       case RecoveredEvent =>
         i.id in b.incidents && b.incidents[i.id].state == Open && i.fingerprint !in findings.at
         && RecoveredNow(b.incidents[i.id], i, now, snapshot)
  }

  // ------------------------------------------------------------------ one finding, one check

  /** A finding refreshes the open incident it names or may open one, and leaves every other incident alone. */
  lemma FailedMoves(b: Book, k: Key, f: Finding, now: int, snapshot: string, id: Id)
    requires Valid(b)
    ensures var o := Failed(b, k, f, now, snapshot);
            && (id in b.incidents ==>
                  id in o.book.incidents &&
                  if b.incidents[id].state == Open && b.incidents[id].fingerprint == k
                  then SeenNow(b.incidents[id], o.book.incidents[id], now, snapshot)
                  else o.book.incidents[id] == b.incidents[id])
            && (id !in b.incidents && id in o.book.incidents ==>
                  id == b.next && o.events == [Event(OpenedEvent, now, o.book.incidents[id])]
                  && o.book.incidents[id] == Incident(f, id, k, Open, now, now, None, snapshot))
            && b.next <= o.book.next
  {
    assert Carried(b, k) && Owned(b, id) && Owned(b, b.next);
  }

  lemma FailedTells(b: Book, k: Key, f: Finding, now: int, snapshot: string, e: Event)
    requires Valid(b) && e in Failed(b, k, f, now, snapshot).events
    ensures var i := e.incident;
            && e.at == now && Look(Failed(b, k, f, now, snapshot).book.incidents, i.id) == Some(i) && i.fingerprint == k
            && (e.kind == OpenedEvent ==> i.id == b.next && i.id !in b.incidents)
            && (e.kind == UpdatedEvent ==> i.id in b.incidents && b.incidents[i.id].state == Open && b.incidents[i.id].fingerprint == k)
            && e.kind != RecoveredEvent
  {
    assert Carried(b, k) && Owned(b, b.next);
    if CheckOf(b, k).incidentId.Some? {
      assert Owned(b, CheckOf(b, k).incidentId.value);
    }
  }

  /** Clearing a check closes the open incident of its fingerprint and leaves every other incident alone. */
  lemma ClearedMoves(b: Book, k: Key, now: int, snapshot: string, id: Id)
    requires Valid(b)
    ensures var b' := Cleared(b, k, now, snapshot).book;
            && b'.incidents.Keys == b.incidents.Keys && b'.next == b.next
            && (id in b.incidents ==>
                  if b.incidents[id].state == Open && b.incidents[id].fingerprint == k
                  then RecoveredNow(b.incidents[id], b'.incidents[id], now, snapshot)
                  else b'.incidents[id] == b.incidents[id])
  {
    assert Carried(b, k) && Owned(b, id);
  }

  lemma ClearedTells(b: Book, k: Key, now: int, snapshot: string, e: Event)
    requires Valid(b) && e in Cleared(b, k, now, snapshot).events
    ensures var i := e.incident;
            && e.at == now && e.kind == RecoveredEvent && Look(Cleared(b, k, now, snapshot).book.incidents, i.id) == Some(i)
            && i.id in b.incidents && b.incidents[i.id].state == Open && b.incidents[i.id].fingerprint == k
  {
    assert Carried(b, k);
    assert Owned(b, CheckOf(b, k).incidentId.value);
  }

  // ------------------------------------------------------------------ the loops

  function KeySet(keys: seq<Key>): set<Key> {
    set k | k in keys
  }

  lemma KeySetSnoc(keys: seq<Key>, n: nat)
    requires n < |keys|
    ensures KeySet(keys[..n + 1]) == KeySet(keys[..n]) + {keys[n]}
    ensures Distinct(keys) ==> keys[n] !in KeySet(keys[..n])
  {
    assert keys[..n + 1] == keys[..n] + [keys[n]];
  }

  lemma {:induction false} FailedUpToMoves(b: Book, findings: Dict<Finding>, n: nat, now: int, snapshot: string, id: Id)
    requires findings.Keyed() && n <= |findings.keys| && Valid(b)
    ensures Moved(b, FailedUpTo(b, findings, n, now, snapshot).book, findings, KeySet(findings.keys[..n]), {}, now, snapshot, id)
    ensures b.next <= FailedUpTo(b, findings, n, now, snapshot).book.next
  {
    hide Failed, Valid;
    if n > 0 {
      FailedUpToMoves(b, findings, n - 1, now, snapshot, id);
      FailedUpToValid(b, findings, n - 1, now, snapshot);
      var so, k := FailedUpTo(b, findings, n - 1, now, snapshot).book, findings.keys[n - 1];
      FailedMoves(so, k, findings.at[k], now, snapshot, id);
      KeySetSnoc(findings.keys, n - 1);
    }
  }

  lemma {:induction false} FailedUpToTells(b: Book, findings: Dict<Finding>, n: nat, now: int, snapshot: string, e: Event)
    requires findings.Keyed() && n <= |findings.keys| && Valid(b) && e in FailedUpTo(b, findings, n, now, snapshot).events
    ensures Tells(b, FailedUpTo(b, findings, n, now, snapshot).book, findings, now, snapshot, e)
    ensures e.kind != RecoveredEvent && e.incident.fingerprint in findings.keys[..n]
    ensures e.incident.state == Open
  {
    hide Failed, Valid;
    var so, k := FailedUpTo(b, findings, n - 1, now, snapshot), findings.keys[n - 1];
    FailedUpToValid(b, findings, n - 1, now, snapshot);
    FailedMoves(so.book, k, findings.at[k], now, snapshot, e.incident.id);
    KeySetSnoc(findings.keys, n - 1);
    assert findings.keys[..n] == findings.keys[..n - 1] + [k];
    if e in so.events {
      FailedUpToTells(b, findings, n - 1, now, snapshot, e);
    } else {
      FailedTells(so.book, k, findings.at[k], now, snapshot, e);
      FailedUpToMoves(b, findings, n - 1, now, snapshot, e.incident.id);
      assert Owned(so.book, so.book.next) by { OwnedInValid(so.book, so.book.next); }
      assert Owned(b, e.incident.id) by { OwnedInValid(b, e.incident.id); }
    }
  }

  lemma OwnedInValid(b: Book, id: Id)
    requires Valid(b)
    ensures Owned(b, id)
  {
  }

  /** Clearing from a book in which nothing has been cleared yet. */
  lemma {:induction false} ClearedUpToMoves(b: Book, keys: seq<Key>, active: set<Key>, n: nat, now: int, snapshot: string, id: Id)
    requires n <= |keys| && Valid(b) && Distinct(keys)
    ensures var b' := ClearedUpTo(b, keys, active, n, now, snapshot).book;
            && b'.incidents.Keys == b.incidents.Keys && b'.next == b.next
            && (id in b.incidents ==>
                  if b.incidents[id].state == Open && b.incidents[id].fingerprint in KeySet(keys[..n]) - active
                  then RecoveredNow(b.incidents[id], b'.incidents[id], now, snapshot)
                  else b'.incidents[id] == b.incidents[id])
  {
    hide Cleared, Valid;
    if n > 0 {
      ClearedUpToMoves(b, keys, active, n - 1, now, snapshot, id);
      ClearedUpToValid(b, keys, active, n - 1, now, snapshot);
      KeySetSnoc(keys, n - 1);
      ClearedMoves(ClearedUpTo(b, keys, active, n - 1, now, snapshot).book, keys[n - 1], now, snapshot, id);
    }
  }

  lemma {:induction false} ClearedUpToTells(b: Book, keys: seq<Key>, active: set<Key>, n: nat, now: int, snapshot: string, e: Event)
    requires n <= |keys| && Valid(b) && Distinct(keys) && e in ClearedUpTo(b, keys, active, n, now, snapshot).events
    ensures var i := e.incident;
            && e.at == now && e.kind == RecoveredEvent
            && Look(ClearedUpTo(b, keys, active, n, now, snapshot).book.incidents, i.id) == Some(i)
            && i.id in b.incidents && b.incidents[i.id].state == Open && b.incidents[i.id].fingerprint in KeySet(keys[..n]) - active
  {
    hide Cleared, Valid;
    var so, k := ClearedUpTo(b, keys, active, n - 1, now, snapshot), keys[n - 1];
    ClearedUpToValid(b, keys, active, n - 1, now, snapshot);
    ClearedUpToMoves(b, keys, active, n - 1, now, snapshot, e.incident.id);
    KeySetSnoc(keys, n - 1);
    ClearedMoves(so.book, k, now, snapshot, e.incident.id);
    if e in so.events {
      ClearedUpToTells(b, keys, active, n - 1, now, snapshot, e);
    } else {
      ClearedTells(so.book, k, now, snapshot, e);
    }
  }

  /** Main result: what one cycle makes of every incident. One that was open is seen again while its finding is
      there and recovers, now, when it is gone; a new one was opened, now, for a finding of this cycle; any other
      stays as it was. */
  lemma CycleMoves(b: Book, findings: Dict<Finding>, now: int, snapshot: string, id: Id)
    requires findings.Keyed() && Valid(b)
    ensures var b' := Reconciled(b, findings, now, snapshot).book;
            if id in b.incidents then
              var was := b.incidents[id];
              id in b'.incidents &&
              if was.state != Open then b'.incidents[id] == was
              else if was.fingerprint in findings.at then SeenNow(was, b'.incidents[id], now, snapshot)
              else RecoveredNow(was, b'.incidents[id], now, snapshot)
            else
              id in b'.incidents ==> b.next <= id < b'.next && OpenedNow(b'.incidents[id], findings, now, snapshot)
  {
    hide FailedUpTo, ClearedUpTo, Carried;
    var n := |findings.keys|;
    var failed := FailedUpTo(b, findings, n, now, snapshot).book;
    var keys := failed.checks.keys;
    FailedUpToMoves(b, findings, n, now, snapshot, id);
    FailedUpToValid(b, findings, n, now, snapshot);
    ClearedUpToMoves(failed, keys, findings.at.Keys, |keys|, now, snapshot, id);
    assert findings.keys[..n] == findings.keys && keys[..|keys|] == keys;
    assert Owned(failed, id);
  }

  /** Main result: what every event of a cycle says. It carries its incident as the book then stores it: just opened
      for the finding reported under its key, seen again with the finding and the opening time it was opened
      with, or recovered now with this snapshot. */
  lemma CycleTells(b: Book, findings: Dict<Finding>, now: int, snapshot: string, e: Event)
    requires findings.Keyed() && Valid(b) && e in Reconciled(b, findings, now, snapshot).events
    ensures Tells(b, Reconciled(b, findings, now, snapshot).book, findings, now, snapshot, e)
  {
    hide FailedUpTo, ClearedUpTo, Carried, Owned;
    var n := |findings.keys|;
    var failed := FailedUpTo(b, findings, n, now, snapshot);
    var keys := failed.book.checks.keys;
    var i := e.incident;
    FailedUpToMoves(b, findings, n, now, snapshot, i.id);
    FailedUpToValid(b, findings, n, now, snapshot);
    ClearedUpToMoves(failed.book, keys, findings.at.Keys, |keys|, now, snapshot, i.id);
    assert findings.keys[..n] == findings.keys && keys[..|keys|] == keys;
    if e in failed.events {
      FailedUpToTells(b, findings, n, now, snapshot, e);
    } else {
      ClearedUpToTells(failed.book, keys, findings.at.Keys, |keys|, now, snapshot, e);
    }
  }

  // ------------------------------------------------------------------ the order of a cycle's events

  predicate Ahead(keys: seq<Key>, a: Key, b: Key) {
    exists m, n :: 0 <= m < n < |keys| && keys[m] == a && keys[n] == b
  }

  /** Events follow the order of these keys, one event to a key. */
  ghost predicate Sorted(events: seq<Event>, keys: seq<Key>) {
    forall i, j :: 0 <= i < j < |events| ==> Ahead(keys, events[i].incident.fingerprint, events[j].incident.fingerprint)
  }

  lemma AheadGrows(keys: seq<Key>, n: nat, a: Key, b: Key)
    requires n < |keys|
    ensures Ahead(keys[..n], a, b) ==> Ahead(keys[..n + 1], a, b)
    ensures a in keys[..n] && b == keys[n] ==> Ahead(keys[..n + 1], a, b)
  {
    assert keys[..n + 1] == keys[..n] + [keys[n]];
    if Ahead(keys[..n], a, b) {
      var i, j :| 0 <= i < j < n && keys[..n][i] == a && keys[..n][j] == b;
      assert keys[..n + 1][i] == a && keys[..n + 1][j] == b;
    }
    if a in keys[..n] && b == keys[n] {
      var i :| 0 <= i < n && keys[..n][i] == a;
      assert keys[..n + 1][i] == a && keys[..n + 1][n] == b;
    }
  }

  lemma SortedSnoc(events: seq<Event>, posted: seq<Event>, keys: seq<Key>, n: nat)
    requires n < |keys| && Sorted(events, keys[..n]) && |posted| <= 1
    requires forall e :: e in events ==> e.incident.fingerprint in keys[..n]
    requires forall e :: e in posted ==> e.incident.fingerprint == keys[n]
    ensures Sorted(events + posted, keys[..n + 1])
  {
    hide Ahead;
    var all := events + posted;
    forall i, j | 0 <= i < j < |all|
      ensures Ahead(keys[..n + 1], all[i].incident.fingerprint, all[j].incident.fingerprint)
    {
      AheadGrows(keys, n, all[i].incident.fingerprint, all[j].incident.fingerprint);
      assert all[i] in events && (j < |events| || all[j] in posted);
    }
  }

  lemma {:induction false} FailedUpToSorted(b: Book, findings: Dict<Finding>, n: nat, now: int, snapshot: string)
    requires findings.Keyed() && n <= |findings.keys| && Valid(b)
    ensures Sorted(FailedUpTo(b, findings, n, now, snapshot).events, findings.keys[..n])
  {
    hide Failed, Valid, Sorted, Tells;
    if n == 0 {
      NothingSorted([]);
      assert findings.keys[..0] == [];
    } else {
      var so, k := FailedUpTo(b, findings, n - 1, now, snapshot), findings.keys[n - 1];
      FailedUpToSorted(b, findings, n - 1, now, snapshot);
      FailedUpToValid(b, findings, n - 1, now, snapshot);
      FailedNames(so.book, k, findings.at[k], now, snapshot);
      forall e | e in so.events ensures e.incident.fingerprint in findings.keys[..n - 1] {
        FailedUpToTells(b, findings, n - 1, now, snapshot, e);
      }
      forall e | e in Failed(so.book, k, findings.at[k], now, snapshot).events ensures e.incident.fingerprint == k {
        FailedTells(so.book, k, findings.at[k], now, snapshot, e);
      }
      SortedSnoc(so.events, Failed(so.book, k, findings.at[k], now, snapshot).events, findings.keys, n - 1);
    }
  }

  lemma NothingSorted(keys: seq<Key>)
    ensures Sorted([], keys)
  {
  }

  lemma {:induction false} ClearedUpToSorted(b: Book, keys: seq<Key>, active: set<Key>, n: nat, now: int, snapshot: string)
    requires n <= |keys| && Valid(b) && Distinct(keys)
    ensures Sorted(ClearedUpTo(b, keys, active, n, now, snapshot).events, keys[..n])
    ensures forall e :: e in ClearedUpTo(b, keys, active, n, now, snapshot).events ==> e.incident.fingerprint in keys[..n]
  {
    hide Cleared, Valid, Sorted;
    if n == 0 {
      NothingSorted([]);
      assert keys[..0] == [];
    } else {
      var so, k := ClearedUpTo(b, keys, active, n - 1, now, snapshot), keys[n - 1];
      ClearedUpToSorted(b, keys, active, n - 1, now, snapshot);
      ClearedUpToValid(b, keys, active, n - 1, now, snapshot);
      ClearedPostsItsKey(so.book, k, now, snapshot);
      var posted := if k in active then [] else Cleared(so.book, k, now, snapshot).events;
      SortedSnoc(so.events, posted, keys, n - 1);
      assert so.events + posted == ClearedUpTo(b, keys, active, n, now, snapshot).events;
      assert keys[..n] == keys[..n - 1] + [k];
    }
  }

  lemma ClearedPostsItsKey(b: Book, k: Key, now: int, snapshot: string)
    requires Valid(b)
    ensures |Cleared(b, k, now, snapshot).events| <= 1
    ensures forall e :: e in Cleared(b, k, now, snapshot).events ==> e.incident.fingerprint == k
  {
    assert Carried(b, k);
  }

  /** A cycle reports its openings and updates in the order of its findings, then its recoveries in the order of the
      checks, and no fingerprint twice. */
  lemma CycleOrder(b: Book, findings: Dict<Finding>, now: int, snapshot: string)
    requires findings.Keyed() && Valid(b)
    ensures var o := Reconciled(b, findings, now, snapshot);
            exists m :: 0 <= m <= |o.events|
              && (forall e :: e in o.events[..m] ==> e.kind != RecoveredEvent)
              && (forall e :: e in o.events[m..] ==> e.kind == RecoveredEvent)
              && Sorted(o.events[..m], findings.keys) && Sorted(o.events[m..], o.book.checks.keys)
  {
    hide FailedUpTo, ClearedUpTo, Valid, Sorted, Tells;
    var n := |findings.keys|;
    var failed := FailedUpTo(b, findings, n, now, snapshot);
    var keys := failed.book.checks.keys;
    var cleared := ClearedUpTo(failed.book, keys, findings.at.Keys, |keys|, now, snapshot);
    assert findings.keys[..n] == findings.keys && keys[..|keys|] == keys;
    FailedUpToValid(b, findings, n, now, snapshot);
    KeysDistinct(failed.book);
    FailedUpToSorted(b, findings, n, now, snapshot);
    ClearedUpToSorted(failed.book, keys, findings.at.Keys, |keys|, now, snapshot);
    ClearedKeepsKeys(failed.book, keys, findings.at.Keys, |keys|, now, snapshot);
    forall e | e in failed.events ensures e.kind != RecoveredEvent {
      FailedUpToTells(b, findings, n, now, snapshot, e);
    }
    forall e | e in cleared.events ensures e.kind == RecoveredEvent {
      ClearedUpToTells(failed.book, keys, findings.at.Keys, |keys|, now, snapshot, e);
    }
    var events := Reconciled(b, findings, now, snapshot).events;
    assert events[..|failed.events|] == failed.events && events[|failed.events|..] == cleared.events;
  }

  lemma KeysDistinct(b: Book)
    requires Valid(b)
    ensures Distinct(b.checks.keys) && forall k :: k in b.checks.keys ==> k in b.checks.at
  {
  }

  lemma {:induction false} ClearedKeepsKeys(b: Book, keys: seq<Key>, active: set<Key>, n: nat, now: int, snapshot: string)
    requires n <= |keys| && forall k :: k in keys ==> k in b.checks.at
    ensures ClearedUpTo(b, keys, active, n, now, snapshot).book.checks.keys == b.checks.keys
    ensures b.checks.at.Keys <= ClearedUpTo(b, keys, active, n, now, snapshot).book.checks.at.Keys
  {
    if n > 0 {
      ClearedKeepsKeys(b, keys, active, n - 1, now, snapshot);
      assert keys[n - 1] in keys;
    }
  }

  // ------------------------------------------------------------------ whole runs

  /** The latest cycle of a run. */
  function LastCycle(steps: seq<Step>): Option<Step> {
    if steps == [] then None
    else if steps[|steps| - 1].Cycle? then Some(steps[|steps| - 1])
    else LastCycle(steps[..|steps| - 1])
  }

  /** An event agrees with the incident it carries on when it happened and on what happened. */
  predicate Dated(e: Event) {
    match e.kind
    case OpenedEvent => e.incident.state == Open && e.incident.openedAt == e.at && e.incident.lastSeenAt == e.at && e.incident.recoveredAt == None
    case UpdatedEvent => e.incident.state == Open && e.incident.lastSeenAt == e.at && e.incident.recoveredAt == None
    case RecoveredEvent => e.incident.state == Recovered && e.incident.recoveredAt == Some(e.at)
  }

  /** Every event of an incident keeps what its first one says of its origin. */
  ghost predicate Chronicle(trace: seq<Event>) {
    forall j :: 0 <= j < |trace| ==> Dated(trace[j]) && SameOrigin(trace[0].incident, trace[j].incident)
  }

  /** What the book stores of an incident is what its events say: its origin is that of the opening event, a recovered
      one is as its recovery reported it, and an open one was seen in the last cycle. */
  ghost predicate Stored(steps: seq<Step>, so: Outcome, id: Id) {
    id in so.book.incidents ==>
      var i, trace := so.book.incidents[id], Trace(so.events, id);
      && trace != [] && SameOrigin(trace[0].incident, i)
      && (i.state == Recovered ==> i == trace[|trace| - 1].incident)
      && (i.state == Open ==>
            && i.recoveredAt == None
            && LastCycle(steps).Some? && LastCycle(steps).value.Cycle?
            && i.lastSeenAt == LastCycle(steps).value.now && i.snapshotId == LastCycle(steps).value.snapshot)
  }

  ghost predicate Truthful(steps: seq<Step>, so: Outcome, id: Id) {
    Chronicle(Trace(so.events, id)) && Stored(steps, so, id)
  }

  lemma {:induction false} TraceConcat(log: seq<Event>, events: seq<Event>, id: Id)
    ensures Trace(log + events, id) == Trace(log, id) + Trace(events, id)
    decreases |events|
  {
    if events == [] {
      assert log + events == log;
    } else {
      var front, last := events[..|events| - 1], events[|events| - 1];
      assert log + events == (log + front) + [last] && events == front + [last];
      TraceSnoc(log + front, last, id);
      TraceConcat(log, front, id);
    }
  }

  lemma {:induction false} TraceMembers(log: seq<Event>, id: Id, e: Event)
    requires e in Trace(log, id)
    ensures e in log && e.incident.id == id
  {
    if e in Trace(log[..|log| - 1], id) {
      TraceMembers(log[..|log| - 1], id, e);
    }
  }

  /** The new events of an incident are dated and keep its origin. */
  lemma {:induction false} NewEvents(b: Book, findings: Dict<Finding>, now: int, snapshot: string, id: Id, e: Event)
    requires findings.Keyed() && Valid(b) && e in Trace(Reconciled(b, findings, now, snapshot).events, id)
    requires id in b.incidents && b.incidents[id].state == Open ==> b.incidents[id].recoveredAt == None
    ensures Dated(e) && e.incident.id == id
    ensures Look(Reconciled(b, findings, now, snapshot).book.incidents, id) == Some(e.incident)
    ensures id in b.incidents ==> SameOrigin(b.incidents[id], e.incident) && b.incidents[id].state == Open
  {
    hide Reconciled, Valid;
    TraceMembers(Reconciled(b, findings, now, snapshot).events, id, e);
    CycleTells(b, findings, now, snapshot, e);
  }

  /** The events of an incident the book knew go on from its origin. */
  lemma KnownGoesOn(old': seq<Event>, new': seq<Event>, was: Incident)
    requires Chronicle(old') && old' != [] && SameOrigin(old'[0].incident, was)
    requires forall e :: e in new' ==> Dated(e) && SameOrigin(was, e.incident)
    ensures Chronicle(old' + new')
  {
    hide Dated;
    var trace := old' + new';
    forall j | 0 <= j < |trace| ensures Dated(trace[j]) && SameOrigin(trace[0].incident, trace[j].incident) {
      assert j < |old'| || trace[j] in new';
    }
  }

  lemma NewBegins(new': seq<Event>, i: Option<Incident>)
    requires forall e :: e in new' ==> Dated(e) && i == Some(e.incident)
    ensures Chronicle(new')
  {
    hide Dated;
    forall j | 0 <= j < |new'| ensures Dated(new'[j]) && SameOrigin(new'[0].incident, new'[j].incident) {
      assert new'[j] in new' && new'[0] in new';
    }
  }

  /** A story ends with its recovery exactly when it is over. */
  lemma StoryEnds(trace: seq<Event>, open: bool)
    requires Story(trace, open)
    ensures trace != [] && (open <==> trace[|trace| - 1].kind != RecoveredEvent)
  {
  }

  lemma {:induction false} LivedMeans(so: Outcome, id: Id)
    requires Lived(so, id)
    ensures if id >= so.book.next then Trace(so.events, id) == [] else Story(Trace(so.events, id), IsOpen(so.book, id))
  {
    hide Story;
  }

  lemma {:induction false} LastCycleSnoc(steps: seq<Step>, last: Step)
    ensures LastCycle(steps + [last]) == if last.Cycle? then Some(last) else LastCycle(steps)
  {
    assert (steps + [last])[..|steps|] == steps;
  }

  lemma {:induction false} CycleTruthful(steps: seq<Step>, last: Step, so: Outcome, id: Id)
    requires last.Cycle? && last.findings.Keyed() && Valid(so.book) && Truthful(steps, so, id)
    requires Lived(so, id) && Lived(Then(so, Reconciled(so.book, last.findings, last.now, last.snapshot)), id)
    ensures Truthful(steps + [last], Then(so, Reconciled(so.book, last.findings, last.now, last.snapshot)), id)
  {
    hide Reconciled, Valid, Trace, Dated, Story, Lived, LastCycle, Chronicle;
    var b, o := so.book, Reconciled(so.book, last.findings, last.now, last.snapshot);
    var after := Then(so, o);
    var old', new' := Trace(so.events, id), Trace(o.events, id);
    TraceConcat(so.events, o.events, id);
    CycleMoves(b, last.findings, last.now, last.snapshot, id);
    OwnedInValid(b, id);
    LastCycleSnoc(steps, last);
    LivedMeans(so, id);
    LivedMeans(after, id);
    forall e | e in new'
      ensures Dated(e) && e.incident.id == id && Look(o.book.incidents, id) == Some(e.incident)
      ensures id in b.incidents ==> SameOrigin(b.incidents[id], e.incident) && b.incidents[id].state == Open
    {
      NewEvents(b, last.findings, last.now, last.snapshot, id, e);
    }
    if new' != [] {
      assert new'[0] in new' && id in o.book.incidents;
    }
    if id in b.incidents {
      KnownGoesOn(old', new', b.incidents[id]);
      KnownStored(steps, last, so, id);
    } else if id < b.next {
      assert old' + new' == old';
    } else {
      assert old' + new' == new';
      NewBegins(new', Look(o.book.incidents, id));
      if id in o.book.incidents {
        StoryEnds(new', IsOpen(o.book, id));
        assert new'[0] in new';
      }
    }
  }

  /** An incident the book knew is stored as its events say. */
  lemma {:induction false} KnownStored(steps: seq<Step>, last: Step, so: Outcome, id: Id)
    requires last.Cycle? && last.findings.Keyed() && Valid(so.book) && Truthful(steps, so, id) && id in so.book.incidents
    requires Lived(so, id) && Lived(Then(so, Reconciled(so.book, last.findings, last.now, last.snapshot)), id)
    ensures Stored(steps + [last], Then(so, Reconciled(so.book, last.findings, last.now, last.snapshot)), id)
  {
    hide Reconciled, Valid, Trace, Dated, Story, Lived, LastCycle, Chronicle;
    var b, o := so.book, Reconciled(so.book, last.findings, last.now, last.snapshot);
    var after := Then(so, o);
    var old', new' := Trace(so.events, id), Trace(o.events, id);
    TraceConcat(so.events, o.events, id);
    CycleMoves(b, last.findings, last.now, last.snapshot, id);
    OwnedInValid(b, id);
    ReconciledNext(b, last.findings, last.now, last.snapshot);
    LastCycleSnoc(steps, last);
    LivedMeans(so, id);
    LivedMeans(after, id);
    StoryEnds(old', IsOpen(b, id));
    StoryEnds(old' + new', IsOpen(o.book, id));
    if new' != [] {
      var e := new'[|new'| - 1];
      assert e in new' && (old' + new')[|old' + new'| - 1] == e;
      NewEvents(b, last.findings, last.now, last.snapshot, id, e);
    } else {
      assert old' + new' == old';
    }
  }

  lemma {:induction false} ReconciledNext(b: Book, findings: Dict<Finding>, now: int, snapshot: string)
    requires findings.Keyed() && Valid(b)
    ensures b.next <= Reconciled(b, findings, now, snapshot).book.next
  {
    hide FailedUpTo, ClearedUpTo, Carried, Owned;
    var n := |findings.keys|;
    var failed := FailedUpTo(b, findings, n, now, snapshot).book;
    FailedUpToMoves(b, findings, n, now, snapshot, 0);
    FailedUpToValid(b, findings, n, now, snapshot);
    ClearedUpToMoves(failed, failed.checks.keys, findings.at.Keys, |failed.checks.keys|, now, snapshot, 0);
  }

  /** Main result: over any run, every event of an incident carries the finding, the fingerprint and the opening time of
      its opening event and says when it happened; and what the book stores of an incident is what its events
      say, a recovered one as its recovery reported it, an open one as the last cycle saw it. */
  lemma {:induction false} RunsAreTruthful(steps: seq<Step>, id: Id)
    requires Wellformed(steps)
    ensures Truthful(steps, After(steps), id)
  {
    hide Reconciled, Valid, Truthful, Lived;
    if steps == [] {
      NothingTold(id);
    } else {
      var front, last := steps[..|steps| - 1], steps[|steps| - 1];
      var so := After(front);
      assert steps == front + [last];
      RunsAreTruthful(front, id);
      IncidentsLive(front);
      IncidentsLive(steps);
      AfterValid(front);
      match last
      case Compaction => CompactionTruthful(front, so, id);
      case Cycle(_, _, _) => CycleTruthful(front, last, so, id);
    }
  }

  lemma NothingTold(id: Id)
    ensures Truthful([], Outcome(EMPTY, []), id)
  {
  }

  lemma CompactionTruthful(steps: seq<Step>, so: Outcome, id: Id)
    requires Truthful(steps, so, id)
    ensures Truthful(steps + [Compaction], Outcome(Compacted(so.book), so.events), id)
  {
    hide Trace, Chronicle, LastCycle;
    LastCycleSnoc(steps, Compaction);
  }
}
