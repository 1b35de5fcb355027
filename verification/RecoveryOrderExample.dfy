/**
The one thing compaction changes: a run in which two incidents recover in one cycle, reported in one order
when the idle check was kept and in the other when it was discarded.
*/
module RecoveryOrderExample {
  import opened Options
  import opened Incidents
  import opened IncidentRuns
  import opened IncidentCompaction

  const A: Key := "a"
  const C: Key := "c"

  function One(k: Key, f: Finding): Dict<Finding> {
    Dict([k], map[k := f])
  }

  function Two(f: Finding): Dict<Finding> {
    Dict([C, A], map[C := f, A := f])
  }

  const NOTHING: Dict<Finding> := Dict([], map[])

  const IDLE := Book(Dict([A], map[A := Check(0, None, 0)]), map[], 0)

  const COUNTED := Book(Dict([A], map[A := Check(1, None, 0)]), map[], 0)

  lemma FirstFailure(slow: Finding)
    requires slow.requires_ == 2
    ensures Failed(EMPTY, A, slow, 0, "") == Outcome(COUNTED, [])
  {
  }

  lemma {:induction false} OneFailed(slow: Finding)
    requires slow.requires_ == 2
    ensures FailedUpTo(EMPTY, One(A, slow), 1, 0, "") == Outcome(COUNTED, [])
  {
    hide Failed;
    FirstFailure(slow);
    assert FailedUpTo(EMPTY, One(A, slow), 0, 0, "") == Outcome(EMPTY, []);
  }

  lemma {:induction false} OneFailure(slow: Finding)
    requires slow.requires_ == 2
    ensures Reconciled(EMPTY, One(A, slow), 0, "") == Outcome(COUNTED, [])
  {
    hide Failed, FailedUpTo;
    OneFailed(slow);
    assert ClearedUpTo(COUNTED, [A], {A}, 0, 0, "") == Outcome(COUNTED, []);
    assert ClearedUpTo(COUNTED, [A], {A}, 1, 0, "") == Outcome(COUNTED, []);
    assert One(A, slow).at.Keys == {A};
  }

  lemma ThenIdle()
    ensures Reconciled(COUNTED, NOTHING, 1, "") == Outcome(IDLE, [])
  {
    var b := COUNTED;
    assert FailedUpTo(b, NOTHING, 0, 1, "") == Outcome(b, []);
    assert Cleared(b, A, 1, "") == Outcome(IDLE, []);
    assert ClearedUpTo(b, [A], {}, 0, 1, "") == Outcome(b, []);
    assert ClearedUpTo(b, [A], {}, 1, 1, "") == Outcome(IDLE, []);
    assert NOTHING.at.Keys == {};
  }

  lemma IdleDiscarded()
    ensures Compacted(IDLE) == EMPTY
  {
    assert [A][..0] == [];
    assert KeptKeys(IDLE, [A]) == [];
    assert forall k :: k in IDLE.checks.at ==> !Kept(IDLE, k);
    assert Compacted(IDLE).checks.at == map[];
    assert Compacted(IDLE).incidents == map[];
  }

  lemma TwoKeyed(f: Finding)
    ensures Two(f).Keyed()
  {
    assert A != C;
  }

  /** The order of the checks after both keys failed: new keys go last. */
  lemma KeysAfterBoth(b: Book, f: Finding)
    requires Valid(b) && Two(f).Keyed() && C !in b.checks.at
    requires f.requires_ <= 1 && CheckOf(b, A).incidentId.None?
    ensures var b' := Reconciled(b, Two(f), 2, "").book;
            && b'.checks.keys == (if A in b.checks.at then b.checks.keys + [C] else b.checks.keys + [C, A])
            && CheckOf(b', A).incidentId.Some? && CheckOf(b', C).incidentId.Some?
  {
    hide Valid;
    var findings := Two(f);
    assert A != C;
    ReconciledChecks(b, findings, 2, "", A);
    ReconciledChecks(b, findings, 2, "", C);
    var one := Failed(b, C, f, 2, "").book;
    var two := Failed(one, A, f, 2, "").book;
    assert FailedUpTo(b, findings, 1, 2, "").book == one;
    assert FailedUpTo(b, findings, 2, 2, "").book == two;
    assert one.checks.keys == b.checks.keys + [C];
    FailedValid(b, C, f, 2, "");
    FailedValid(one, A, f, 2, "");
    AllKeyed(two);
    ClearingKeepsKeys(two, two.checks.keys, findings.at.Keys, |two.checks.keys|, 2, "");
    assert (b.checks.keys + [C]) + [A] == b.checks.keys + [C, A];
  }

  lemma {:induction false} ClearingKeepsKeys(b: Book, keys: seq<Key>, active: set<Key>, n: nat, now: int, snapshot: string)
    requires n <= |keys| && forall k :: k in keys ==> k in b.checks.at
    ensures var b' := ClearedUpTo(b, keys, active, n, now, snapshot).book;
            b'.checks.keys == b.checks.keys && b'.checks.at.Keys == b.checks.at.Keys
  {
    if n > 0 {
      ClearingKeepsKeys(b, keys, active, n - 1, now, snapshot);
    }
  }

  lemma {:induction false} BothRecover(b: Book)
    requires Valid(b) && CheckOf(b, A).incidentId.Some? && CheckOf(b, C).incidentId.Some?
    requires b.checks.keys == [A, C] || b.checks.keys == [C, A]
    ensures Recovering(b, b.checks.keys, {}) == b.checks.keys
  {
    assert Carried(b, A) && Carried(b, C);
    var keys := b.checks.keys;
    assert keys[..1] == [keys[0]] && keys[..1][..0] == [];
    assert Recovering(b, keys[..1], {}) == [keys[0]];
  }

  /** The compacted book reports c before a, the other one a before c. */
  lemma CompactionReordersRecoveries(slow: Finding, f: Finding)
    requires slow.requires_ == 2 && f.requires_ == 1
    ensures Two(f).Keyed() && NOTHING.Keyed()
    ensures Compacted(IDLE) == EMPTY
    ensures var kept, discarded := Reconciled(IDLE, Two(f), 2, "").book, Reconciled(Compacted(IDLE), Two(f), 2, "").book;
            Reconciled(kept, NOTHING, 3, "").events != Reconciled(discarded, NOTHING, 3, "").events
    ensures IDLE == After([Cycle(One(A, slow), 0, ""), Cycle(NOTHING, 1, "")]).book
  {
    hide Reconciled, Valid, Related, Recovering, Compacted;
    TwoKeyed(f);
    IdleReached(slow);
    IdleDiscarded();
    CompactedValid(IDLE);
    SameBookRelated(IDLE);
    CompactedRelated(IDLE, IDLE);
    RelatedCycle(IDLE, EMPTY, Two(f), 2, "");
    KeysAfterBoth(IDLE, f);
    KeysAfterBoth(EMPTY, f);
    var kept, discarded := Reconciled(IDLE, Two(f), 2, "").book, Reconciled(EMPTY, Two(f), 2, "").book;
    RelatedCycle(kept, discarded, NOTHING, 3, "");
    RelatedValid(kept, discarded);
    assert [A] + [C] == [A, C] && [] + [C, A] == [C, A];
    BothRecover(kept);
    BothRecover(discarded);
    assert NOTHING.at.Keys == {};
    assert [A, C][0] != [C, A][0];
  }

  lemma IdleReached(slow: Finding)
    requires slow.requires_ == 2
    ensures Valid(IDLE)
    ensures After([Cycle(One(A, slow), 0, ""), Cycle(NOTHING, 1, "")]).book == IDLE
  {
    hide Reconciled, Valid;
    var c1, c2 := Cycle(One(A, slow), 0, ""), Cycle(NOTHING, 1, "");
    assert [c1, c2][..1] == [c1] && [c1][..0] == [];
    OneFailure(slow);
    ThenIdle();
    assert After([]) == Outcome(EMPTY, []);
    assert After([c1]).book == Reconciled(EMPTY, One(A, slow), 0, "").book;
    AfterValid([c1, c2]);
  }
}
