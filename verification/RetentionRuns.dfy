/**
Retention over many passes (scripts/soul_controller.py: _open_incident_files, _enforce_retention). One pass keeps
every file an open incident refers to; but it may also drop the journal entry that refers to it.
*/
module RetentionRuns {
  import opened Options
  import opened Incidents
  import opened IncidentRuns
  import opened Retention

  /** Lines that arrive in the journal, and then a pass. */
  datatype Pass = Pass(arrived: seq<Line>, book: Book, policy: Policy, listing: seq<Path>)

  function Arrived(t: Tree, lines: seq<Line>): Tree {
    t.(journal := if lines == [] then t.journal else Some((if t.journal.Some? then t.journal.value else []) + lines))
  }

  ghost function Passed(t: Tree, passes: seq<Pass>): Tree {
    if passes == [] then t
    else
      var last := passes[|passes| - 1];
      Enforced(Arrived(Passed(t, passes[..|passes| - 1]), last.arrived), last.book, last.policy, last.listing)
  }

  /** What pass n finds. */
  ghost function Before(t: Tree, passes: seq<Pass>, n: nat): Tree
    requires n < |passes|
  {
    Arrived(Passed(t, passes[..n]), passes[n].arrived)
  }

  ghost predicate Listed(t: Tree, b: Book, policy: Policy, listing: seq<Path>) {
    Lists(listing, Cleaned(t, policy, OpenRefs(b, t.journal)))
  }

  ghost predicate AllListed(t: Tree, passes: seq<Pass>) {
    forall n :: 0 <= n < |passes| ==> Listed(Before(t, passes, n), passes[n].book, passes[n].policy, passes[n].listing)
  }

  // ------------------------------------------------------------------ one pass, one evidence file

  /** The evidence files the size pass deletes. */
  ghost function SizedOut(t: Tree, b: Book, policy: Policy, listing: seq<Path>): seq<Path> {
    var refs := OpenRefs(b, t.journal);
    var cleaned := Cleaned(t, policy, refs);
    var list := Candidates(cleaned, listing, refs, true);
    list[..Needed(SizesOf(cleaned.files, list), Real(cleaned), policy.cap)]
  }

  /** Referred to by an open incident, or neither too old nor among the oldest that must go. */
  ghost predicate Spared(t: Tree, b: Book, policy: Policy, listing: seq<Path>, p: Path)
    requires p in t.files
  {
    || Referenced(b, t.journal, p)
    || (!(t.files[p].mtime < policy.evidenceCutoff) && p !in SizedOut(t, b, policy, listing))
  }

  lemma {:induction false} SizedOutUnreferenced(t: Tree, b: Book, policy: Policy, listing: seq<Path>, p: Path)
    requires p in SizedOut(t, b, policy, listing)
    ensures p !in OpenRefs(b, t.journal)
  {
    var refs := OpenRefs(b, t.journal);
    assert p in Candidates(Cleaned(t, policy, refs), listing, refs, true);
  }

  /** A pass keeps an evidence file exactly when it spares it. */
  lemma {:induction false} EvidenceKeptIff(t: Tree, b: Book, policy: Policy, listing: seq<Path>, p: Path)
    requires Listed(t, b, policy, listing) && InEvidence(p) && p != CONTROLLER_LOG
    ensures var t' := Enforced(t, b, policy, listing);
            && (p in t'.files <==> p in t.files && Spared(t, b, policy, listing, p))
            && (p in t'.files ==> t'.files[p] == t.files[p])
  {
    hide FileBytes, Needed, Candidates, Real, AfterRemainder, AfterJournal, AfterLog, LineRefs;
    var refs := OpenRefs(b, t.journal);
    OpenRefsAre(b, t.journal, p);
    var cleaned := Cleaned(t, policy, refs);
    var t1 := AfterEvidence(cleaned, listing, refs, Real(cleaned), policy.cap);
    assert t1 == Without(cleaned, SizedOut(t, b, policy, listing));
    EvidenceStage(cleaned, listing, refs, policy.cap);
    var t2 := AfterJournal(t1, Real(t1), policy.cap);
    JournalKeeps(t1, policy.cap);
    var t3 := AfterRemainder(t2, listing, refs, Real(t2), policy.cap);
    RemainderStage(t2, listing, refs, policy.cap);
    LogKeeps(t3, policy.cap);
    if p in SizedOut(t, b, policy, listing) {
      SizedOutUnreferenced(t, b, policy, listing, p);
    }
  }

  // ------------------------------------------------------------------ what a pass leaves of the protection

  /** How many of the oldest fresh journal lines the size pass drops. */
  ghost function Trimmed(t: Tree, b: Book, policy: Policy, listing: seq<Path>): nat
    requires t.journal.Some?
  {
    var refs := OpenRefs(b, t.journal);
    var cleaned := Cleaned(t, policy, refs);
    var t1 := AfterEvidence(cleaned, listing, refs, Real(cleaned), policy.cap);
    Needed(LineSizes(KeptLines(t.journal.value, policy.journalCutoff)), Real(t1), policy.cap)
  }

  ghost predicate SnapshotNamed(b: Book, p: Path) {
    exists i :: i in b.incidents && b.incidents[i].state == Open && b.incidents[i].snapshotId != ""
                && p == SnapshotPath(b.incidents[i].snapshotId)
  }

  /** After a pass a file is still referred to exactly when its incident's snapshot is that file, or some line that
      refers to it is fresh and not among those trimmed. */
  lemma {:induction false} StillReferencedIff(t: Tree, b: Book, policy: Policy, listing: seq<Path>, p: Path)
    requires t.journal.Some?
    ensures var kept := KeptLines(t.journal.value, policy.journalCutoff);
            var k := Trimmed(t, b, policy, listing);
            && k <= |kept|
            && (Referenced(b, Enforced(t, b, policy, listing).journal, p) <==>
                  SnapshotNamed(b, p) || exists n :: k <= n < |kept| && RefersTo(b, kept[n], p))
  {
    hide FileBytes, Needed, Candidates, Real, AfterEvidence, AfterRemainder, AfterLog, RefersTo, KeptLines;
    var refs := OpenRefs(b, t.journal);
    var cleaned := Cleaned(t, policy, refs);
    var t1 := AfterEvidence(cleaned, listing, refs, Real(cleaned), policy.cap);
    EvidenceKeepsJournal(cleaned, listing, refs, policy.cap);
    var t2 := AfterJournal(t1, Real(t1), policy.cap);
    RemainderKeepsJournal(t2, listing, refs, policy.cap);
    LogKeeps(AfterRemainder(t2, listing, refs, Real(t2), policy.cap), policy.cap);
    var kept, k := KeptLines(t.journal.value, policy.journalCutoff), Trimmed(t, b, policy, listing);
    var left := kept[k..];
    assert Enforced(t, b, policy, listing).journal == Some(left);
    if exists l :: l in left && RefersTo(b, l, p) {
      var l :| l in left && RefersTo(b, l, p);
      var n :| 0 <= n < |left| && left[n] == l;
      assert kept[k + n] == l;
    }
    if n :| k <= n < |kept| && RefersTo(b, kept[n], p) {
      assert left[n - k] == kept[n] && kept[n] in left;
      RefersIsOpen(b, kept[n], p);
    }
  }

  lemma RefersIsOpen(b: Book, l: Line, p: Path)
    requires RefersTo(b, l, p)
    ensures OpenIds(b) != {}
  {
  }

  lemma EvidenceKeepsJournal(t: Tree, listing: seq<Path>, refs: set<Path>, cap: nat)
    ensures AfterEvidence(t, listing, refs, Real(t), cap).journal == t.journal
  {
    hide FileBytes, Needed, Candidates, Real;
  }

  lemma RemainderKeepsJournal(t: Tree, listing: seq<Path>, refs: set<Path>, cap: nat)
    ensures AfterRemainder(t, listing, refs, Real(t), cap).journal == t.journal
  {
    hide FileBytes, Needed, Candidates, Real;
  }

  // ------------------------------------------------------------------ runs

  lemma {:induction false} EarlierPasses(t: Tree, passes: seq<Pass>)
    requires passes != [] && AllListed(t, passes)
    ensures var front := passes[..|passes| - 1];
            && AllListed(t, front)
            && (forall n :: 0 <= n < |front| ==> Before(t, front, n) == Before(t, passes, n) && front[n] == passes[n])
  {
    hide Enforced, Listed;
    var front := passes[..|passes| - 1];
    forall n | 0 <= n < |front| ensures Before(t, front, n) == Before(t, passes, n) && front[n] == passes[n] {
      assert front[..n] == passes[..n];
    }
  }

  lemma {:induction false} LastPass(t: Tree, passes: seq<Pass>)
    requires passes != []
    ensures var m := |passes| - 1;
            && Before(t, passes, m).files == Passed(t, passes[..m]).files
            && Passed(t, passes) == Enforced(Before(t, passes, m), passes[m].book, passes[m].policy, passes[m].listing)
  {
    hide Enforced;
  }

  /** Pass n finds the file and spares it. */
  ghost predicate SparedAt(t: Tree, passes: seq<Pass>, n: nat, p: Path)
    requires n < |passes|
  {
    p in Before(t, passes, n).files && Spared(Before(t, passes, n), passes[n].book, passes[n].policy, passes[n].listing, p)
  }

  lemma {:induction false} EarlierListed(t: Tree, passes: seq<Pass>)
    requires passes != [] && AllListed(t, passes)
    ensures AllListed(t, passes[..|passes| - 1])
  {
    hide AllListed;
    EarlierPasses(t, passes);
  }

  lemma {:induction false} EarlierSpared(t: Tree, passes: seq<Pass>, n: nat, p: Path)
    requires passes != [] && AllListed(t, passes) && n < |passes| - 1
    ensures SparedAt(t, passes[..|passes| - 1], n, p) == SparedAt(t, passes, n, p)
  {
    hide Spared, Before, Listed;
    EarlierPasses(t, passes);
  }

  lemma {:induction false} LastSpared(t: Tree, passes: seq<Pass>, p: Path)
    requires passes != [] && AllListed(t, passes) && InEvidence(p) && p != CONTROLLER_LOG
    ensures var m := |passes| - 1;
            && (p in Passed(t, passes).files <==> SparedAt(t, passes, m, p))
            && (SparedAt(t, passes, m, p) ==> p in Passed(t, passes[..m]).files)
  {
    hide Spared, Before, Listed, Passed, Enforced;
    var last := passes[|passes| - 1];
    LastPass(t, passes);
    EvidenceKeptIff(Before(t, passes, |passes| - 1), last.book, last.policy, last.listing, p);
  }

  /** Main result: over any number of passes an evidence file survives exactly when every pass spares it. */
  lemma {:induction false} EvidenceSurvivesIff(t: Tree, passes: seq<Pass>, p: Path)
    requires AllListed(t, passes) && InEvidence(p) && p != CONTROLLER_LOG && p in t.files
    ensures p in Passed(t, passes).files <==> forall n :: 0 <= n < |passes| ==> SparedAt(t, passes, n, p)
  {
    hide AllListed, Passed, SparedAt, Before, InEvidence;
    if passes == [] {
      NoPass(t);
    } else {
      var m := |passes| - 1;
      EarlierListed(t, passes);
      EvidenceSurvivesIff(t, passes[..m], p);
      forall n | 0 <= n < m ensures SparedAt(t, passes[..m], n, p) == SparedAt(t, passes, n, p) {
        EarlierSpared(t, passes, n, p);
      }
      LastSpared(t, passes, p);
    }
  }

  lemma {:induction false} NoPass(t: Tree)
    ensures Passed(t, []) == t
  {
  }

  /** So an open incident keeps its evidence as long as every pass finds a line or a snapshot that refers to it. */
  lemma {:induction false} ReferredSurvives(t: Tree, passes: seq<Pass>, p: Path)
    requires AllListed(t, passes) && InEvidence(p) && p != CONTROLLER_LOG && p in t.files
    requires forall n :: 0 <= n < |passes| ==> Referenced(passes[n].book, Before(t, passes, n).journal, p)
    ensures p in Passed(t, passes).files && Passed(t, passes).files[p] == t.files[p]
  {
    hide Enforced, Listed, Referenced, Passed, Before;
    if passes == [] {
      NoPass(t);
    } else {
      var m := |passes| - 1;
      var front, last := passes[..m], passes[m];
      EarlierPasses(t, passes);
      ReferredSurvives(t, front, p);
      LastPass(t, passes);
      EvidenceKeptIff(Before(t, passes, m), last.book, last.policy, last.listing, p);
    }
  }

  // ------------------------------------------------------------------ a long incident

  const OPENING := Path(SnapshotsDir, "s0.json")
  const LATEST := Path(SnapshotsDir, "s1.json")
  const CRITICAL := Finding("critical", "", 1)

  function One(k: Key): Dict<Finding> {
    Dict([k], map[k := CRITICAL])
  }

  /** A finding that persists: an incident opens with one snapshot and is seen again with another. */
  function Persisting(k: Key): seq<Step> {
    [Cycle(One(k), 0, "s0"), Cycle(One(k), 150, "s1")]
  }

  function Counting(k: Key, seen: nat, lastSeenAt: int, snapshot: string): Book {
    Book(Dict([k], map[k := Check(seen, Some(0), 0)]), map[0 := Incident(CRITICAL, 0, k, Open, 0, lastSeenAt, None, snapshot)], 1)
  }

  lemma {:induction false} OneCycle(b: Book, k: Key, now: int, snapshot: string, seen: Book)
    requires Failed(b, k, CRITICAL, now, snapshot).book == seen && seen.checks.keys == [k]
    ensures One(k).Keyed() && Reconciled(b, One(k), now, snapshot).book == seen
  {
    hide Failed;
    assert FailedUpTo(b, One(k), 0, now, snapshot).book == b;
    assert FailedUpTo(b, One(k), 1, now, snapshot).book == seen;
    assert ClearedUpTo(seen, [k], {k}, 0, now, snapshot).book == seen;
    assert ClearedUpTo(seen, [k], {k}, 1, now, snapshot).book == seen;
    assert One(k).at.Keys == {k};
  }

  lemma Raises(k: Key)
    ensures Failed(EMPTY, k, CRITICAL, 0, "s0").book == Counting(k, 1, 0, "s0")
  {
  }

  lemma SeesAgain(k: Key)
    ensures Failed(Counting(k, 1, 0, "s0"), k, CRITICAL, 150, "s1").book == Counting(k, 2, 150, "s1")
  {
  }

  lemma {:induction false} PersistingBook(k: Key)
    ensures Wellformed(Persisting(k)) && After(Persisting(k)).book == Counting(k, 2, 150, "s1")
  {
    hide Reconciled, Failed;
    Raises(k);
    SeesAgain(k);
    OneCycle(EMPTY, k, 0, "s0", Counting(k, 1, 0, "s0"));
    OneCycle(Counting(k, 1, 0, "s0"), k, 150, "s1", Counting(k, 2, 150, "s1"));
    var c1, c2 := Persisting(k)[0], Persisting(k)[1];
    assert Persisting(k)[..1] == [c1] && [c1][..0] == [];
    assert Wellformed([c1]);
    assert After([]) == Outcome(EMPTY, []);
    assert After([c1]).book == Counting(k, 1, 0, "s0");
  }

  /** The record of the opening names its snapshot, as long as both retention windows ago. */
  const OLD_LINE := Line(1, Some(Entry(Some(0), Some(0), [OPENING])))

  /** There is room for everything. */
  const LATER := Policy(1000, 100, 100, 1, 200)

  const LISTING := [OPENING, LATEST, INDEX]

  ghost function LongOpen(k: Key): Book {
    PersistingBook(k);
    After(Persisting(k)).book
  }

  ghost function TwoPasses(k: Key): seq<Pass> {
    var pass := Pass([], LongOpen(k), LATER, LISTING);
    [pass, pass]
  }

  const OPENED := Tree(map[OPENING := File(1, 0), LATEST := File(1, 150)], Some([OLD_LINE]), None)

  lemma PathsDiffer()
    ensures OPENING != LATEST && OPENING != INDEX && LATEST != INDEX
    ensures SnapshotPath("s0") == OPENING && SnapshotPath("s1") == LATEST
  {
    assert "s0.json"[1] == '0' && "s1.json"[1] == '1';
  }

  lemma OpeningIsReferred(k: Key)
    ensures OpenIds(LongOpen(k)) == {0}
    ensures Referenced(LongOpen(k), OPENED.journal, OPENING)
    ensures !Referenced(LongOpen(k), Some([]), OPENING)
  {
    PersistingBook(k);
    PathsDiffer();
    assert 0 in OpenIds(LongOpen(k));
    assert RefersTo(LongOpen(k), OLD_LINE, OPENING);
    assert OLD_LINE in OPENED.journal.value;
  }

  lemma {:induction false} OldLineGoes()
    ensures KeptLines([OLD_LINE], LATER.journalCutoff) == []
  {
    assert [OLD_LINE][..0] == [];
  }

  lemma ListsAll(t: Tree, b: Book)
    requires t.files.Keys <= {OPENING, LATEST, INDEX}
    ensures Listed(t, b, LATER, LISTING)
  {
    hide LineRefs, KeptLines, Tail;
    PathsDiffer();
  }

  /** The first pass keeps the opening snapshot and drops the old line; the second deletes the snapshot although the
      incident is still open: not even the size limit plays a part. */
  lemma OpenIncidentLosesEvidence(k: Key)
    ensures var passes := TwoPasses(k);
            && Wellformed(Persisting(k)) && passes[0].book == passes[1].book == After(Persisting(k)).book
            && AllListed(OPENED, passes) && OpenIds(passes[1].book) == {0}
            && Referenced(passes[0].book, OPENED.journal, OPENING)
            && OPENING in Passed(OPENED, passes[..1]).files && OPENING !in Passed(OPENED, passes).files
  {
    hide Enforced, Referenced, Listed, Needed, After;
    var passes := TwoPasses(k);
    PersistingBook(k);
    OpeningIsReferred(k);
    OldLineGoes();
    PathsDiffer();
    var b := LongOpen(k);
    assert passes[..0] == [] && passes[..2] == passes && passes[..1][..0] == [];
    var t1 := Enforced(OPENED, b, LATER, LISTING);
    assert Passed(OPENED, passes[..1]) == t1;
    ListsAll(OPENED, b);
    EvidenceKeptIff(OPENED, b, LATER, LISTING, OPENING);
    JournalEmptied(OPENED, b, LATER, LISTING);
    OnlySnapshots(b);
    ListsAll(t1, b);
    EvidenceKeptIff(t1, b, LATER, LISTING, OPENING);
    assert Passed(OPENED, passes) == Enforced(t1, b, LATER, LISTING);
    assert Before(OPENED, passes, 0) == OPENED && Before(OPENED, passes, 1) == t1;
  }

  lemma JournalEmptied(t: Tree, b: Book, policy: Policy, listing: seq<Path>)
    requires t.journal.Some? && KeptLines(t.journal.value, policy.journalCutoff) == []
    ensures Enforced(t, b, policy, listing).journal == Some([])
  {
    hide FileBytes, Needed, Candidates, Real, AfterEvidence, AfterRemainder, AfterLog;
    var refs := OpenRefs(b, t.journal);
    var cleaned := Cleaned(t, policy, refs);
    var t1 := AfterEvidence(cleaned, listing, refs, Real(cleaned), policy.cap);
    EvidenceKeepsJournal(cleaned, listing, refs, policy.cap);
    var t2 := AfterJournal(t1, Real(t1), policy.cap);
    RemainderKeepsJournal(t2, listing, refs, policy.cap);
    LogKeeps(AfterRemainder(t2, listing, refs, Real(t2), policy.cap), policy.cap);
  }

  lemma OnlySnapshots(b: Book)
    ensures Enforced(OPENED, b, LATER, LISTING).files.Keys <= {OPENING, LATEST, INDEX}
  {
    hide FileBytes, Needed, Candidates, Real, AfterEvidence, AfterRemainder, AfterLog, LineRefs;
    var refs := OpenRefs(b, OPENED.journal);
    var cleaned := Cleaned(OPENED, LATER, refs);
    ListsAll(OPENED, b);
    var t1 := AfterEvidence(cleaned, LISTING, refs, Real(cleaned), LATER.cap);
    EvidenceStage(cleaned, LISTING, refs, LATER.cap);
    var t2 := AfterJournal(t1, Real(t1), LATER.cap);
    JournalKeeps(t1, LATER.cap);
    var t3 := AfterRemainder(t2, LISTING, refs, Real(t2), LATER.cap);
    RemainderStage(t2, LISTING, refs, LATER.cap);
    LogKeeps(t3, LATER.cap);
    assert cleaned.files.Keys <= {OPENING, LATEST, INDEX};
  }
}
