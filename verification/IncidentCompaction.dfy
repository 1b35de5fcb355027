/**
Whether discarding closed incidents and idle checks can be seen (scripts/soul_controller.py:
_compact_incident_state against IncidentBook.reconcile). It cannot, except in the order in which several
incidents recovering in one cycle are reported: that order is the order of the checks, and a discarded
check that fails again comes last.
*/
module IncidentCompaction {
  import opened Options
  import opened Incidents
  import opened IncidentRuns

  ghost predicate SameCheck(a: Book, b: Book, k: Key) {
    && CheckOf(a, k).failures == CheckOf(b, k).failures
    && CheckOf(a, k).incidentId == CheckOf(b, k).incidentId
    && (CheckOf(a, k).incidentId.Some? ==> CheckOf(a, k) == CheckOf(b, k))
  }

  ghost predicate SameIncident(a: Book, b: Book, i: Id) {
    IsOpen(a, i) == IsOpen(b, i) && (IsOpen(a, i) ==> a.incidents[i] == b.incidents[i])
  }

  /** Books that differ only in closed incidents, idle checks and the order of checks. */
  ghost predicate Related(a: Book, b: Book) {
    && Valid(a) && Valid(b) && a.next == b.next
    && (forall k :: SameCheck(a, b, k))
    && (forall i :: SameIncident(a, b, i))
  }

  lemma CompactedRelated(a: Book, b: Book)
    requires Related(a, b)
    ensures Related(a, Compacted(b))
  {
    CompactedValid(b);
    forall k ensures SameCheck(a, Compacted(b), k) {
      assert SameCheck(a, b, k);
      CompactedChecks(b, k);
    }
    forall i ensures SameIncident(a, Compacted(b), i) {
      assert SameIncident(a, b, i);
    }
  }

  lemma SameIncidentOf(a: Book, b: Book, k: Key)
    requires Related(a, b)
    ensures IncidentOf(a, k) == IncidentOf(b, k)
  {
    assert SameCheck(a, b, k) && Carried(a, k) && Carried(b, k);
    if CheckOf(a, k).incidentId.Some? {
      assert SameIncident(a, b, CheckOf(a, k).incidentId.value);
    }
  }

  lemma FailedSameCheck(a: Book, b: Book, k: Key, f: Finding, now: int, snapshot: string, other: Key)
    requires SameCheck(a, b, k) && SameCheck(a, b, other) && IncidentOf(a, k) == IncidentOf(b, k) && a.next == b.next
    requires CheckOf(a, k).incidentId.Some? ==> IncidentOf(a, k).Some?
    ensures SameCheck(Failed(a, k, f, now, snapshot).book, Failed(b, k, f, now, snapshot).book, other)
    ensures Failed(a, k, f, now, snapshot).events == Failed(b, k, f, now, snapshot).events
    ensures Failed(a, k, f, now, snapshot).book.next == Failed(b, k, f, now, snapshot).book.next
  {
  }

  lemma FailedSameIncident(a: Book, b: Book, k: Key, f: Finding, now: int, snapshot: string, i: Id)
    requires SameCheck(a, b, k) && SameIncident(a, b, i) && IncidentOf(a, k) == IncidentOf(b, k) && a.next == b.next
    ensures SameIncident(Failed(a, k, f, now, snapshot).book, Failed(b, k, f, now, snapshot).book, i)
  {
  }

  lemma FailedRelated(a: Book, b: Book, k: Key, f: Finding, now: int, snapshot: string)
    requires Related(a, b)
    ensures Related(Failed(a, k, f, now, snapshot).book, Failed(b, k, f, now, snapshot).book)
    ensures Failed(a, k, f, now, snapshot).events == Failed(b, k, f, now, snapshot).events
  {
    hide Failed, SameIncident, Owned;
    var a', b' := Failed(a, k, f, now, snapshot).book, Failed(b, k, f, now, snapshot).book;
    FailedValid(a, k, f, now, snapshot);
    FailedValid(b, k, f, now, snapshot);
    SameIncidentOf(a, b, k);
    assert SameCheck(a, b, k) && Carried(a, k);
    FailedSameCheck(a, b, k, f, now, snapshot, k);
    forall other ensures SameCheck(a', b', other) {
      assert SameCheck(a, b, other);
      FailedSameCheck(a, b, k, f, now, snapshot, other);
    }
    forall i ensures SameIncident(a', b', i) {
      assert SameIncident(a, b, i);
      FailedSameIncident(a, b, k, f, now, snapshot, i);
    }
  }

  lemma {:induction false} FailedUpToRelated(a: Book, b: Book, findings: Dict<Finding>, n: nat, now: int, snapshot: string)
    requires Related(a, b) && findings.Keyed() && n <= |findings.keys|
    ensures Related(FailedUpTo(a, findings, n, now, snapshot).book, FailedUpTo(b, findings, n, now, snapshot).book)
    ensures FailedUpTo(a, findings, n, now, snapshot).events == FailedUpTo(b, findings, n, now, snapshot).events
  {
    hide Related, Failed;
    if n > 0 {
      FailedUpToRelated(a, b, findings, n - 1, now, snapshot);
      var k := findings.keys[n - 1];
      FailedRelated(FailedUpTo(a, findings, n - 1, now, snapshot).book, FailedUpTo(b, findings, n - 1, now, snapshot).book,
                    k, findings.at[k], now, snapshot);
    }
  }

  // ------------------------------------------------------------------ recoveries, in the order of the checks

  /** The checks whose incidents close, in order. */
  function Recovering(b: Book, keys: seq<Key>, active: set<Key>): seq<Key> {
    if keys == [] then []
    else
      var k := keys[|keys| - 1];
      Recovering(b, keys[..|keys| - 1], active) + if k !in active && Recovers(b, k) then [k] else []
  }

  function Recoveries(b: Book, keys: seq<Key>, now: int, snapshot: string): (events: seq<Event>)
    requires forall k :: k in keys ==> Recovers(b, k)
    ensures |events| == |keys|
  {
    if keys == [] then []
    else Recoveries(b, keys[..|keys| - 1], now, snapshot) + [RecoveryOf(b, keys[|keys| - 1], now, snapshot)]
  }

  lemma {:induction false} RecoveringAre(b: Book, keys: seq<Key>, active: set<Key>)
    requires Distinct(keys)
    ensures forall k :: k in Recovering(b, keys, active) <==> k in keys && k !in active && Recovers(b, k)
    ensures Distinct(Recovering(b, keys, active))
  {
    hide Recovers;
    if keys != [] {
      var front, last := keys[..|keys| - 1], keys[|keys| - 1];
      RecoveringAre(b, front, active);
      assert keys == front + [last] && last !in front;
      DistinctSnoc(Recovering(b, front, active), last);
    }
  }

  lemma ClearedIncidents(b: Book, k: Key, now: int, snapshot: string, i: Id)
    requires Valid(b)
    ensures var b' := Cleared(b, k, now, snapshot).book;
            && (!IsOpen(b, i) ==> !IsOpen(b', i))
            && (IsOpen(b, i) ==>
                  if b.incidents[i].fingerprint == k then !IsOpen(b', i)
                  else i in b'.incidents && b'.incidents[i] == b.incidents[i])
  {
    assert Owned(b, i) && Carried(b, k);
  }

  lemma {:induction false} ClearedUpToIncidents(b: Book, keys: seq<Key>, active: set<Key>, n: nat, now: int, snapshot: string,
                                                i: Id)
    requires Valid(b) && n <= |keys|
    ensures var b' := ClearedUpTo(b, keys, active, n, now, snapshot).book;
            && (!IsOpen(b, i) ==> !IsOpen(b', i))
            && (IsOpen(b, i) ==>
                  var k := b.incidents[i].fingerprint;
                  if k in keys[..n] && k !in active then !IsOpen(b', i)
                  else i in b'.incidents && b'.incidents[i] == b.incidents[i])
  {
    hide Cleared, Valid;
    if n > 0 {
      ClearedUpToIncidents(b, keys, active, n - 1, now, snapshot, i);
      ClearedUpToValid(b, keys, active, n - 1, now, snapshot);
      assert keys[..n] == keys[..n - 1] + [keys[n - 1]];
      if keys[n - 1] !in active {
        ClearedIncidents(ClearedUpTo(b, keys, active, n - 1, now, snapshot).book, keys[n - 1], now, snapshot, i);
      }
    }
  }

  /** A check that has not been reached yet recovers as it would have at the start. */
  lemma {:induction false} StillRecovers(b: Book, keys: seq<Key>, active: set<Key>, n: nat, now: int, snapshot: string)
    requires Valid(b) && Distinct(keys) && n < |keys| && keys[n] !in active
    ensures var so := ClearedUpTo(b, keys, active, n, now, snapshot).book;
            && Recovers(so, keys[n]) == Recovers(b, keys[n])
            && (Recovers(b, keys[n]) ==> RecoveryOf(so, keys[n], now, snapshot) == RecoveryOf(b, keys[n], now, snapshot))
  {
    hide ClearedUpTo;
    var k := keys[n];
    ClearedUpToChecks(b, keys, active, n, now, snapshot, k);
    assert k !in keys[..n];
    assert Carried(b, k);
    if CheckOf(b, k).incidentId.Some? {
      ClearedUpToIncidents(b, keys, active, n, now, snapshot, CheckOf(b, k).incidentId.value);
    }
  }

  lemma {:induction false} RecoveringSnoc(b: Book, keys: seq<Key>, n: nat, active: set<Key>)
    requires 0 < n <= |keys|
    ensures Recovering(b, keys[..n], active) ==
            Recovering(b, keys[..n - 1], active) + if keys[n - 1] !in active && Recovers(b, keys[n - 1]) then [keys[n - 1]] else []
  {
    hide Recovers;
    assert keys[..n][..n - 1] == keys[..n - 1];
  }

  lemma {:induction false} RecoveriesSnoc(b: Book, keys: seq<Key>, k: Key, now: int, snapshot: string)
    requires Recovers(b, k) && forall k :: k in keys ==> Recovers(b, k)
    ensures Recoveries(b, keys + [k], now, snapshot) == Recoveries(b, keys, now, snapshot) + [RecoveryOf(b, k, now, snapshot)]
  {
    hide Recovers, RecoveryOf;
    assert (keys + [k])[..|keys|] == keys;
  }

  lemma {:induction false} ClearedUpToEvents(b: Book, keys: seq<Key>, active: set<Key>, n: nat, now: int, snapshot: string)
    requires Valid(b) && Distinct(keys) && n <= |keys|
    ensures forall k :: k in Recovering(b, keys[..n], active) ==> Recovers(b, k)
    ensures ClearedUpTo(b, keys, active, n, now, snapshot).events ==
            Recoveries(b, Recovering(b, keys[..n], active), now, snapshot)
  {
    hide Valid, Recovers, RecoveryOf, Cleared, Recoveries, Recovering;
    RecoveringAre(b, keys[..n], active);
    if n == 0 {
      assert keys[..n] == [];
      NoRecoveries(b, active, now, snapshot);
    } else {
      var k := keys[n - 1];
      ClearedUpToEvents(b, keys, active, n - 1, now, snapshot);
      RecoveringSnoc(b, keys, n, active);
      var before := Recovering(b, keys[..n - 1], active);
      assert before + [] == before;
      if k !in active {
        StillRecovers(b, keys, active, n - 1, now, snapshot);
        ClearedPost(ClearedUpTo(b, keys, active, n - 1, now, snapshot).book, k, now, snapshot);
        if Recovers(b, k) {
          RecoveriesSnoc(b, before, k, now, snapshot);
        }
      }
    }
  }

  lemma {:induction false} NoRecoveries(b: Book, active: set<Key>, now: int, snapshot: string)
    ensures Recovering(b, [], active) == [] && Recoveries(b, [], now, snapshot) == []
  {
  }

  lemma ClearedPost(b: Book, k: Key, now: int, snapshot: string)
    ensures Cleared(b, k, now, snapshot).events == if Recovers(b, k) then [RecoveryOf(b, k, now, snapshot)] else []
  {
  }

  // ------------------------------------------------------------------ one cycle

  /** The second loop on a whole book. */
  ghost function AllCleared(b: Book, active: set<Key>, now: int, snapshot: string): Outcome {
    ClearedUpTo(b, b.checks.keys, active, |b.checks.keys|, now, snapshot)
  }

  lemma AllClearedRelated(a: Book, b: Book, active: set<Key>, now: int, snapshot: string)
    requires Related(a, b)
    ensures Related(AllCleared(a, active, now, snapshot).book, AllCleared(b, active, now, snapshot).book)
  {
    hide ClearedUpTo, CheckOf, IsOpen;
    var a', b' := AllCleared(a, active, now, snapshot).book, AllCleared(b, active, now, snapshot).book;
    ClearedUpToValid(a, a.checks.keys, active, |a.checks.keys|, now, snapshot);
    ClearedUpToValid(b, b.checks.keys, active, |b.checks.keys|, now, snapshot);
    forall k ensures SameCheck(a', b', k) {
      assert SameCheck(a, b, k);
      ClearedCheck(a, active, now, snapshot, k);
      ClearedCheck(b, active, now, snapshot, k);
    }
    forall i ensures SameIncident(a', b', i) {
      assert SameIncident(a, b, i);
      ClearedIncident(a, active, now, snapshot, i);
      ClearedIncident(b, active, now, snapshot, i);
    }
    ClearedNext(a, a.checks.keys, active, |a.checks.keys|, now, snapshot);
    ClearedNext(b, b.checks.keys, active, |b.checks.keys|, now, snapshot);
  }

  lemma {:induction false} ClearedNext(b: Book, keys: seq<Key>, active: set<Key>, n: nat, now: int, snapshot: string)
    requires n <= |keys|
    ensures ClearedUpTo(b, keys, active, n, now, snapshot).book.next == b.next
  {
    if n > 0 {
      ClearedNext(b, keys, active, n - 1, now, snapshot);
    }
  }

  lemma ClearedCheck(b: Book, active: set<Key>, now: int, snapshot: string, k: Key)
    requires Valid(b)
    ensures var b' := AllCleared(b, active, now, snapshot).book;
            if k in active then CheckOf(b', k) == CheckOf(b, k)
            else CheckOf(b', k).failures == 0 && CheckOf(b', k).incidentId.None?
  {
    hide ClearedUpTo;
    var keys := b.checks.keys;
    ClearedUpToChecks(b, keys, active, |keys|, now, snapshot, k);
    assert keys[..|keys|] == keys;
  }

  lemma ClearedIncident(b: Book, active: set<Key>, now: int, snapshot: string, i: Id)
    requires Valid(b)
    ensures var b' := AllCleared(b, active, now, snapshot).book;
            && (IsOpen(b', i) <==> IsOpen(b, i) && b.incidents[i].fingerprint in active)
            && (IsOpen(b', i) ==> b'.incidents[i] == b.incidents[i])
  {
    hide ClearedUpTo;
    var keys := b.checks.keys;
    ClearedUpToIncidents(b, keys, active, |keys|, now, snapshot, i);
    assert keys[..|keys|] == keys && Owned(b, i);
  }

  lemma {:induction false} AllClearedEvents(b: Book, active: set<Key>, now: int, snapshot: string)
    requires Valid(b)
    ensures var rs := Recovering(b, b.checks.keys, active);
            && (forall k :: k in rs ==> Recovers(b, k))
            && AllCleared(b, active, now, snapshot).events == Recoveries(b, rs, now, snapshot)
  {
    hide ClearedUpTo, Recovers, Recoveries;
    ClearedUpToEvents(b, b.checks.keys, active, |b.checks.keys|, now, snapshot);
    assert b.checks.keys[..|b.checks.keys|] == b.checks.keys;
  }

  lemma {:induction false} SameRecoveries(a: Book, b: Book, keys: seq<Key>, now: int, snapshot: string)
    requires Related(a, b) && forall k :: k in keys ==> Recovers(a, k)
    ensures forall k :: k in keys ==> Recovers(b, k)
    ensures Recoveries(a, keys, now, snapshot) == Recoveries(b, keys, now, snapshot)
  {
    hide Related;
    forall k | k in keys ensures Recovers(b, k) && RecoveryOf(a, k, now, snapshot) == RecoveryOf(b, k, now, snapshot) {
      SameIncidentOf(a, b, k);
    }
    if keys != [] {
      SameRecoveries(a, b, keys[..|keys| - 1], now, snapshot);
    }
  }

  lemma {:induction false} RecoveringRelated(a: Book, b: Book, active: set<Key>)
    requires Related(a, b)
    ensures multiset(Recovering(a, a.checks.keys, active)) == multiset(Recovering(b, b.checks.keys, active))
  {
    hide Recovering;
    var ra, rb := Recovering(a, a.checks.keys, active), Recovering(b, b.checks.keys, active);
    RecoveringAre(a, a.checks.keys, active);
    RecoveringAre(b, b.checks.keys, active);
    forall k ensures k in ra <==> k in rb {
      SameIncidentOf(a, b, k);
    }
    SameMembers(ra, rb);
  }

  lemma SameMembers(a: seq<Key>, b: seq<Key>)
    requires Distinct(a) && Distinct(b) && forall k :: k in a <==> k in b
    ensures multiset(a) == multiset(b)
  {
    forall k ensures multiset(a)[k] == multiset(b)[k] {
      OnceEach(a, k);
      OnceEach(b, k);
    }
  }

  lemma {:induction false} OnceEach(a: seq<Key>, k: Key)
    requires Distinct(a)
    ensures multiset(a)[k] == if k in a then 1 else 0
  {
    if a != [] {
      var front, last := a[..|a| - 1], a[|a| - 1];
      assert a == front + [last];
      OnceEach(front, k);
    }
  }

  lemma {:induction false} RecoveriesPermute(b: Book, xs: seq<Key>, ys: seq<Key>, now: int, snapshot: string)
    requires multiset(xs) == multiset(ys) && (forall k :: k in xs ==> Recovers(b, k)) && (forall k :: k in ys ==> Recovers(b, k))
    ensures multiset(Recoveries(b, xs, now, snapshot)) == multiset(Recoveries(b, ys, now, snapshot))
    decreases |xs|
  {
    hide Recovers, RecoveryOf;
    if xs == [] {
      assert |multiset(ys)| == 0;
      assert ys == [];
    } else {
      var front, last := xs[..|xs| - 1], xs[|xs| - 1];
      assert xs == front + [last];
      assert last in multiset(ys);
      var j :| 0 <= j < |ys| && ys[j] == last;
      var rest := ys[..j] + ys[j + 1..];
      Without(front, ys, j);
      RecoveriesPermute(b, front, rest, now, snapshot);
      RecoveriesSplit(b, ys, j, now, snapshot);
    }
  }

  lemma Without(front: seq<Key>, ys: seq<Key>, j: nat)
    requires j < |ys| && multiset(front + [ys[j]]) == multiset(ys)
    ensures multiset(front) == multiset(ys[..j] + ys[j + 1..])
    ensures forall k :: k in ys[..j] + ys[j + 1..] ==> k in ys
  {
    var rest := ys[..j] + ys[j + 1..];
    assert ys == ys[..j] + [ys[j]] + ys[j + 1..];
    assert multiset(ys) == multiset(rest) + multiset{ys[j]};
    assert multiset(front) == multiset(front + [ys[j]]) - multiset{ys[j]};
    assert multiset(rest) == multiset(ys) - multiset{ys[j]};
  }

  lemma {:induction false} RecoveriesConcat(b: Book, xs: seq<Key>, ys: seq<Key>, now: int, snapshot: string)
    requires (forall k :: k in xs ==> Recovers(b, k)) && (forall k :: k in ys ==> Recovers(b, k))
    ensures Recoveries(b, xs + ys, now, snapshot) == Recoveries(b, xs, now, snapshot) + Recoveries(b, ys, now, snapshot)
    decreases |ys|
  {
    hide Recovers, RecoveryOf;
    if ys == [] {
      assert xs + ys == xs;
    } else {
      assert (xs + ys)[..|xs + ys| - 1] == xs + ys[..|ys| - 1];
      RecoveriesConcat(b, xs, ys[..|ys| - 1], now, snapshot);
    }
  }

  lemma RecoveriesSplit(b: Book, ys: seq<Key>, j: nat, now: int, snapshot: string)
    requires j < |ys| && forall k :: k in ys ==> Recovers(b, k)
    ensures var rest := ys[..j] + ys[j + 1..];
            && (forall k :: k in rest ==> Recovers(b, k))
            && multiset(Recoveries(b, ys, now, snapshot)) ==
               multiset(Recoveries(b, rest, now, snapshot)) + multiset{RecoveryOf(b, ys[j], now, snapshot)}
  {
    hide Recovers, RecoveryOf;
    assert ys == ys[..j] + ([ys[j]] + ys[j + 1..]);
    RecoveriesConcat(b, ys[..j], [ys[j]] + ys[j + 1..], now, snapshot);
    RecoveriesConcat(b, [ys[j]], ys[j + 1..], now, snapshot);
    RecoveriesConcat(b, ys[..j], ys[j + 1..], now, snapshot);
    assert [ys[j]][..0] == [];
    assert Recoveries(b, [ys[j]], now, snapshot) == [RecoveryOf(b, ys[j], now, snapshot)];
  }

  /** The reports of equal recoveries are equal only when they come in the same order. */
  lemma {:induction false} RecoveriesInjective(b: Book, xs: seq<Key>, ys: seq<Key>, now: int, snapshot: string)
    requires Valid(b) && (forall k :: k in xs ==> Recovers(b, k)) && (forall k :: k in ys ==> Recovers(b, k))
    requires Recoveries(b, xs, now, snapshot) == Recoveries(b, ys, now, snapshot)
    ensures xs == ys
    decreases |xs|
  {
    hide Valid;
    if xs != [] {
      assert |ys| == |xs|;
      var x, y := xs[|xs| - 1], ys[|ys| - 1];
      RecoveryNames(b, x, now, snapshot);
      RecoveryNames(b, y, now, snapshot);
      var ex, ey := Recoveries(b, xs, now, snapshot), Recoveries(b, ys, now, snapshot);
      assert ex[..|xs| - 1] == Recoveries(b, xs[..|xs| - 1], now, snapshot);
      assert ey[..|ys| - 1] == Recoveries(b, ys[..|ys| - 1], now, snapshot);
      assert ex[|xs| - 1] == ey[|ys| - 1];
      RecoveriesInjective(b, xs[..|xs| - 1], ys[..|ys| - 1], now, snapshot);
      assert xs == xs[..|xs| - 1] + [x] && ys == ys[..|ys| - 1] + [y];
    }
  }

  lemma RecoveryNames(b: Book, k: Key, now: int, snapshot: string)
    requires Valid(b) && Recovers(b, k)
    ensures RecoveryOf(b, k, now, snapshot).incident.fingerprint == k
  {
    assert Carried(b, k);
  }

  /** The recovery order a cycle will use, read off the book before the cycle. */
  ghost function RecoveryOrder(b: Book, findings: Dict<Finding>): seq<Key> {
    Recovering(b, b.checks.keys, findings.at.Keys)
  }

  lemma FailedKeys(b: Book, k: Key, f: Finding, now: int, snapshot: string)
    ensures var b' := Failed(b, k, f, now, snapshot).book;
            b'.checks.keys == b.checks.keys || b'.checks.keys == b.checks.keys + [k]
  {
  }

  lemma {:induction false} FailedUpToKeys(b: Book, findings: Dict<Finding>, n: nat, now: int, snapshot: string)
    requires findings.Keyed() && n <= |findings.keys|
    ensures var b' := FailedUpTo(b, findings, n, now, snapshot).book;
            |b.checks.keys| <= |b'.checks.keys| && b'.checks.keys[..|b.checks.keys|] == b.checks.keys &&
            forall j :: |b.checks.keys| <= j < |b'.checks.keys| ==> b'.checks.keys[j] in findings.at
  {
    hide Failed;
    if n > 0 {
      FailedUpToKeys(b, findings, n - 1, now, snapshot);
      var k := findings.keys[n - 1];
      FailedKeys(FailedUpTo(b, findings, n - 1, now, snapshot).book, k, findings.at[k], now, snapshot);
    }
  }

  lemma {:induction false} RecoveringTail(b: Book, keys: seq<Key>, m: nat, active: set<Key>)
    requires m <= |keys| && forall j :: m <= j < |keys| ==> keys[j] in active
    ensures Recovering(b, keys, active) == Recovering(b, keys[..m], active)
    decreases |keys|
  {
    hide Recovers;
    if m < |keys| {
      RecoveringTail(b, keys[..|keys| - 1], m, active);
      assert keys[..|keys| - 1][..m] == keys[..m];
    } else {
      assert keys[..m] == keys;
    }
  }

  lemma FailedElsewhere(b: Book, k: Key, f: Finding, now: int, snapshot: string, other: Key)
    requires Valid(b) && other != k
    ensures IncidentOf(Failed(b, k, f, now, snapshot).book, other) == IncidentOf(b, other)
  {
    assert Carried(b, k) && Carried(b, other) && Owned(b, b.next);
  }

  lemma {:induction false} FailedUpToElsewhere(b: Book, findings: Dict<Finding>, n: nat, now: int, snapshot: string, other: Key)
    requires findings.Keyed() && n <= |findings.keys| && Valid(b) && other !in findings.at
    ensures IncidentOf(FailedUpTo(b, findings, n, now, snapshot).book, other) == IncidentOf(b, other)
  {
    hide Failed, Valid, IncidentOf;
    if n > 0 {
      FailedUpToElsewhere(b, findings, n - 1, now, snapshot, other);
      FailedUpToValid(b, findings, n - 1, now, snapshot);
      var k := findings.keys[n - 1];
      FailedElsewhere(FailedUpTo(b, findings, n - 1, now, snapshot).book, k, findings.at[k], now, snapshot, other);
    }
  }

  lemma {:induction false} RecoveringByIncident(b: Book, b': Book, keys: seq<Key>, active: set<Key>)
    requires forall k :: k !in active ==> IncidentOf(b, k) == IncidentOf(b', k)
    ensures Recovering(b, keys, active) == Recovering(b', keys, active)
  {
    hide IncidentOf;
    if keys != [] {
      RecoveringByIncident(b, b', keys[..|keys| - 1], active);
    }
  }

  lemma {:induction false} OrderBefore(b: Book, findings: Dict<Finding>, now: int, snapshot: string)
    requires findings.Keyed() && Valid(b)
    ensures var failed := FailedUpTo(b, findings, |findings.keys|, now, snapshot).book;
            Recovering(failed, failed.checks.keys, findings.at.Keys) == RecoveryOrder(b, findings)
  {
    hide FailedUpTo, IncidentOf, Valid, Recovering;
    var failed := FailedUpTo(b, findings, |findings.keys|, now, snapshot).book;
    FailedUpToKeys(b, findings, |findings.keys|, now, snapshot);
    RecoveringTail(failed, failed.checks.keys, |b.checks.keys|, findings.at.Keys);
    forall k | k !in findings.at.Keys ensures IncidentOf(failed, k) == IncidentOf(b, k) {
      FailedUpToElsewhere(b, findings, |findings.keys|, now, snapshot, k);
    }
    RecoveringByIncident(failed, b, b.checks.keys, findings.at.Keys);
  }

  /** One cycle on related books: the same openings and updates in the same order, the same recoveries up to
      order, related books again; and the very same report exactly when the recovering checks stand in the
      same order in both books. */
  lemma RelatedCycle(a: Book, b: Book, findings: Dict<Finding>, now: int, snapshot: string)
    requires Related(a, b) && findings.Keyed()
    ensures Related(Reconciled(a, findings, now, snapshot).book, Reconciled(b, findings, now, snapshot).book)
    ensures SameReport(Reconciled(a, findings, now, snapshot).events, Reconciled(b, findings, now, snapshot).events)
    ensures Reconciled(a, findings, now, snapshot).events == Reconciled(b, findings, now, snapshot).events <==>
            RecoveryOrder(a, findings) == RecoveryOrder(b, findings)
  {
    hide Related, FailedUpTo, ClearedUpTo, Recovering, Recoveries, Recovers, Valid, RecoveryOrder;
    var n, active := |findings.keys|, findings.at.Keys;
    var fa, fb := FailedUpTo(a, findings, n, now, snapshot), FailedUpTo(b, findings, n, now, snapshot);
    RelatedValid(a, b);
    FailedUpToRelated(a, b, findings, n, now, snapshot);
    RelatedValid(fa.book, fb.book);
    AllClearedRelated(fa.book, fb.book, active, now, snapshot);
    var ca, cb := AllCleared(fa.book, active, now, snapshot).events, AllCleared(fb.book, active, now, snapshot).events;
    RecoveryReports(fa.book, fb.book, active, now, snapshot);
    OrderBefore(a, findings, now, snapshot);
    OrderBefore(b, findings, now, snapshot);
    SameRaised(fa.events, fa.book, fb.book, active, now, snapshot);
    assert fa.events + ca == fb.events + cb <==> ca == cb by {
      assert (fa.events + ca)[|fa.events|..] == ca && (fb.events + cb)[|fb.events|..] == cb;
    }
  }

  lemma RelatedValid(a: Book, b: Book)
    requires Related(a, b)
    ensures Valid(a) && Valid(b)
  {
  }

  lemma {:induction false} RecoveryReports(a: Book, b: Book, active: set<Key>, now: int, snapshot: string)
    requires Related(a, b)
    ensures var ca, cb := AllCleared(a, active, now, snapshot).events, AllCleared(b, active, now, snapshot).events;
            && multiset(ca) == multiset(cb)
            && (ca == cb <==> Recovering(a, a.checks.keys, active) == Recovering(b, b.checks.keys, active))
  {
    hide Related, AllCleared, Recovering, Recoveries, Recovers, Valid;
    var ra, rb := Recovering(a, a.checks.keys, active), Recovering(b, b.checks.keys, active);
    RelatedValid(a, b);
    AllClearedEvents(a, active, now, snapshot);
    AllClearedEvents(b, active, now, snapshot);
    SameRecoveries(a, b, ra, now, snapshot);
    RecoveringRelated(a, b, active);
    RecoveriesPermute(b, ra, rb, now, snapshot);
    if Recoveries(b, ra, now, snapshot) == Recoveries(b, rb, now, snapshot) {
      RecoveriesInjective(b, ra, rb, now, snapshot);
    }
  }

  // ------------------------------------------------------------------ reports up to the order of recoveries

  /** The openings and updates of a report. */
  function Raising(events: seq<Event>): seq<Event> {
    if events == [] then []
    else
      Raising(events[..|events| - 1]) +
      if events[|events| - 1].kind != RecoveredEvent then [events[|events| - 1]] else []
  }

  predicate SameReport(a: seq<Event>, b: seq<Event>) {
    Raising(a) == Raising(b) && multiset(a) == multiset(b)
  }

  lemma {:induction false} RaisingConcat(a: seq<Event>, b: seq<Event>)
    ensures Raising(a + b) == Raising(a) + Raising(b)
    decreases |b|
  {
    if b == [] {
      assert a + b == a;
    } else {
      assert (a + b)[..|a + b| - 1] == a + b[..|b| - 1];
      RaisingConcat(a, b[..|b| - 1]);
    }
  }

  lemma {:induction false} RecoveriesRaiseNothing(b: Book, keys: seq<Key>, now: int, snapshot: string)
    requires forall k :: k in keys ==> Recovers(b, k)
    ensures Raising(Recoveries(b, keys, now, snapshot)) == []
  {
    if keys != [] {
      var front := Recoveries(b, keys[..|keys| - 1], now, snapshot);
      RecoveriesRaiseNothing(b, keys[..|keys| - 1], now, snapshot);
      assert Recoveries(b, keys, now, snapshot)[..|keys| - 1] == front;
    }
  }

  lemma SameRaised(raised: seq<Event>, a: Book, b: Book, active: set<Key>, now: int, snapshot: string)
    requires Related(a, b)
    ensures SameReport(raised + AllCleared(a, active, now, snapshot).events, raised + AllCleared(b, active, now, snapshot).events)
  {
    hide Related, AllCleared, Recovering, Recoveries, Recovers, Valid, Raising;
    var ca, cb := AllCleared(a, active, now, snapshot).events, AllCleared(b, active, now, snapshot).events;
    RelatedValid(a, b);
    RecoveryReports(a, b, active, now, snapshot);
    AllClearedEvents(a, active, now, snapshot);
    AllClearedEvents(b, active, now, snapshot);
    RecoveriesRaiseNothing(a, Recovering(a, a.checks.keys, active), now, snapshot);
    RecoveriesRaiseNothing(b, Recovering(b, b.checks.keys, active), now, snapshot);
    RaisingConcat(raised, ca);
    RaisingConcat(raised, cb);
  }

  // ------------------------------------------------------------------ whole runs

  /** The book after the steps, and the report of each cycle. */
  ghost function Reports(b: Book, steps: seq<Step>): seq<seq<Event>>
    requires Wellformed(steps)
    decreases |steps|
  {
    if steps == [] then []
    else
      match steps[0]
      case Compaction => Reports(Compacted(b), Later(steps))
      case Cycle(findings, now, snapshot) =>
        assert steps[0].findings.Keyed();
        [Reconciled(b, findings, now, snapshot).events] + Reports(Reconciled(b, findings, now, snapshot).book, Later(steps))
  }

  ghost function Later(steps: seq<Step>): (later: seq<Step>)
    requires steps != [] && Wellformed(steps)
    ensures Wellformed(later) && |later| == |steps| - 1
  {
    assert forall n :: 0 <= n < |steps| - 1 ==> steps[1..][n] == steps[n + 1];
    steps[1..]
  }

  /** The same history with every compaction left out. */
  ghost function Uncompacted(steps: seq<Step>): (kept: seq<Step>)
    requires Wellformed(steps)
    ensures Wellformed(kept)
    decreases |steps|
  {
    if steps == [] then []
    else if steps[0].Compaction? then Uncompacted(Later(steps))
    else
      assert steps[0].findings.Keyed();
      [steps[0]] + Uncompacted(Later(steps))
  }

  ghost predicate SameReports(a: seq<seq<Event>>, b: seq<seq<Event>>) {
    |a| == |b| && forall n :: 0 <= n < |a| ==> SameReport(a[n], b[n])
  }

  /** A history that starts with a cycle reports it first, with or without its compactions. */
  lemma {:induction false} CycleFirst(b: Book, steps: seq<Step>)
    requires Wellformed(steps) && steps != [] && steps[0].Cycle? && steps[0].findings.Keyed()
    ensures var so := Reconciled(b, steps[0].findings, steps[0].now, steps[0].snapshot);
            && Reports(b, steps) == [so.events] + Reports(so.book, Later(steps))
            && Reports(b, Uncompacted(steps)) == [so.events] + Reports(so.book, Uncompacted(Later(steps)))
  {
    hide Reconciled, Compacted;
    assert Uncompacted(steps)[0] == steps[0] && Later(Uncompacted(steps)) == Uncompacted(Later(steps));
  }

  lemma SameReportsCons(x: seq<Event>, y: seq<Event>, a: seq<seq<Event>>, b: seq<seq<Event>>)
    requires SameReport(x, y) && SameReports(a, b)
    ensures SameReports([x] + a, [y] + b)
  {
    hide SameReport;
  }

  /** Main result: with compactions anywhere, every cycle of every future reports what it would have
      reported without them, up to the order of that cycle's recoveries. */
  lemma {:induction false} CompactionIsInvisible(a: Book, b: Book, steps: seq<Step>)
    requires Related(a, b) && Wellformed(steps)
    ensures SameReports(Reports(a, Uncompacted(steps)), Reports(b, steps))
    decreases |steps|
  {
    hide Related, Reconciled, Compacted, SameReport;
    if steps != [] {
      match steps[0]
      case Compaction =>
        CompactedRelated(a, b);
        CompactionIsInvisible(a, Compacted(b), Later(steps));
      case Cycle(findings, now, snapshot) =>
        assert steps[0].findings.Keyed();
        RelatedCycle(a, b, findings, now, snapshot);
        var a', b' := Reconciled(a, findings, now, snapshot), Reconciled(b, findings, now, snapshot);
        CompactionIsInvisible(a'.book, b'.book, Later(steps));
        CycleFirst(a, steps);
        CycleFirst(b, steps);
        SameReportsCons(a'.events, b'.events, Reports(a'.book, Uncompacted(Later(steps))), Reports(b'.book, Later(steps)));
    }
  }

  lemma SameBookRelated(b: Book)
    requires Valid(b)
    ensures Related(b, b)
  {
  }

  /** Compacting once, then any history: related to not compacting at all. */
  lemma {:induction false} CompactNowSeenNever(b: Book, steps: seq<Step>)
    requires Valid(b) && Wellformed(steps)
    ensures SameReports(Reports(b, Uncompacted(steps)), Reports(Compacted(b), steps))
  {
    hide Related, Valid, Reports, Compacted;
    SameBookRelated(b);
    CompactedRelated(b, b);
    CompactionIsInvisible(b, Compacted(b), steps);
  }
}
