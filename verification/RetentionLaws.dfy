/**
What a retention pass may and may not delete, by the files' own names and contents
(scripts/soul_controller.py: _enforce_retention).
*/
module RetentionLaws {
  import opened Options
  import opened Incidents
  import opened Retention

  /** Configuration, status, journal lock and undelivered events. */
  predicate Vital(p: Path) {
    p in {Path(Root, "config.json"), Path(Root, "status.json"), Path(Root, "journal.jsonl.lock"),
          Path(IncidentsDir, "pending-events.json")}
  }

  predicate IsIndex(p: Path) {
    p == Path(IncidentsDir, "index.json")
  }

  predicate IsLog(p: Path) {
    p == Path(LogsDir, "controller.log")
  }

  /** Past the retention age in one of the evidence folders, and no open incident refers to it. */
  ghost predicate Expired(t: Tree, b: Book, policy: Policy, p: Path) {
    && p in t.files && p.dir in {EvidenceDir, SnapshotsDir, LogsDir} && t.files[p].mtime < policy.evidenceCutoff
    && !Referenced(b, t.journal, p)
  }

  predicate Suffix<T(==)>(a: seq<T>, b: seq<T>) {
    |a| <= |b| && a == b[|b| - |a|..]
  }

  /** Vital files stay as they are, the incident index is there, the controller log keeps its end, and the journal
      goes on existing. */
  ghost predicate Spared(t: Tree, t': Tree) {
    && (forall p :: p in t.files && Vital(p) ==> p in t'.files && t'.files[p] == t.files[p])
    && (exists p :: p in t'.files && IsIndex(p))
    && (t.log.Some? ==> t'.log.Some? && Suffix(t'.log.value, t.log.value))
    && (t.log.None? ==> t'.log.None?)
    && (t.journal.Some? <==> t'.journal.Some?)
  }

  lemma VitalIsProtected(p: Path)
    requires Vital(p) || IsIndex(p)
    ensures p in PROTECTED && !InEvidence(p) && p != CONTROLLER_LOG
    ensures Vital(p) ==> p != INDEX
    ensures IsIndex(p) ==> p == INDEX
  {
    assert |"pending-events.json"| != |"index.json"|;
  }

  lemma {:induction false} SuffixTwice<T>(a: seq<T>, b: seq<T>, c: seq<T>)
    requires Suffix(a, b) && Suffix(b, c)
    ensures Suffix(a, c)
  {
    assert c[|c| - |b|..][|b| - |a|..] == c[|c| - |a|..];
  }

  lemma TailSuffix(content: seq<Byte>, limit: nat)
    ensures Suffix(Tail(content, limit), content) && |Tail(content, limit)| <= limit
  {
    TailIsBoundedSuffix(content, limit);
  }

  lemma ShrunkParts(t: Tree, listing: seq<Path>, refs: set<Path>, cap: nat)
    requires Lists(listing, t)
    ensures var t' := Shrunk(t, listing, refs, cap);
            && (forall p :: p in t'.files ==> p in t.files && t'.files[p] == t.files[p])
            && (t.journal.Some? <==> t'.journal.Some?)
            && (t.journal.Some? ==> Suffix(t'.journal.value, t.journal.value))
            && (t.log.Some? <==> t'.log.Some?)
            && (t.log.Some? ==> Suffix(t'.log.value, t.log.value))
  {
    hide FileBytes, Needed, Real, AfterEvidence, AfterRemainder, AfterJournal, AfterLog, Tail, Lists;
    var t1 := AfterEvidence(t, listing, refs, Real(t), cap);
    var t2 := AfterJournal(t1, Real(t1), cap);
    var t3 := AfterRemainder(t2, listing, refs, Real(t2), cap);
    EvidenceParts(t, listing, refs, cap);
    JournalParts(t1, Real(t1), cap);
    EvidenceParts(t2, listing, refs, cap);
    LogParts(t3, Real(t3), cap);
  }

  lemma EvidenceParts(t: Tree, listing: seq<Path>, refs: set<Path>, cap: nat)
    ensures var t' := AfterEvidence(t, listing, refs, Real(t), cap);
            (forall p :: p in t'.files ==> p in t.files && t'.files[p] == t.files[p]) && t'.journal == t.journal && t'.log == t.log
    ensures var t' := AfterRemainder(t, listing, refs, Real(t), cap);
            (forall p :: p in t'.files ==> p in t.files && t'.files[p] == t.files[p]) && t'.journal == t.journal && t'.log == t.log
  {
    hide FileBytes, Needed, Real, Candidates;
  }

  lemma JournalParts(t: Tree, total: int, cap: nat)
    ensures var t' := AfterJournal(t, total, cap);
            && t'.files == t.files && t'.log == t.log && (t.journal.Some? <==> t'.journal.Some?)
            && (t.journal.Some? ==> Suffix(t'.journal.value, t.journal.value))
  {
    hide Needed;
  }

  lemma LogParts(t: Tree, total: int, cap: nat)
    ensures var t' := AfterLog(t, total, cap);
            && t'.files == t.files && t'.journal == t.journal && (t.log.Some? <==> t'.log.Some?)
            && (t.log.Some? ==> Suffix(t'.log.value, t.log.value))
  {
    hide Tail;
    if t.log.Some? {
      var room := cap - (total - |t.log.value|);
      TailSuffix(t.log.value, if room > 0 then room else 0);
      assert t.log.value[0..] == t.log.value;
    }
  }

  lemma {:induction false} KeptAre(lines: seq<Line>, cutoff: int, l: Line)
    ensures l in KeptLines(lines, cutoff) <==> l in lines && Fresh(l, cutoff)
  {
    if lines != [] {
      KeptAre(lines[..|lines| - 1], cutoff, l);
      assert lines == lines[..|lines| - 1] + [lines[|lines| - 1]];
    }
  }

  lemma CleanedParts(t: Tree, policy: Policy, refs: set<Path>)
    ensures var t' := Cleaned(t, policy, refs);
            && (forall p :: p in t.files && Vital(p) ==> p in t'.files && t'.files[p] == t.files[p])
            && INDEX in t'.files
            && (t.journal.Some? <==> t'.journal.Some?)
            && (t.log.Some? <==> t'.log.Some?) && (t.log.Some? ==> Suffix(t'.log.value, t.log.value))
  {
    hide Tail, KeptLines;
    forall p | p in t.files && Vital(p) ensures !InEvidence(p) && p != INDEX {
      VitalIsProtected(p);
    }
    if t.log.Some? {
      TailSuffix(t.log.value, LogLimit(policy.cap));
    }
  }

  /** Main result: whatever a pass has to delete, it spares the configuration, the status, the journal lock, the
      undelivered events, the incident index and the end of the controller log. */
  lemma PassSpares(t: Tree, b: Book, policy: Policy, listing: seq<Path>)
    requires Lists(listing, Cleaned(t, policy, OpenRefs(b, t.journal)))
    ensures Spared(t, Enforced(t, b, policy, listing))
  {
    hide Shrunk, Cleaned, Exhausted, Retention.InOrder, Real, OpenRefs, Tail, Vital;
    var refs := OpenRefs(b, t.journal);
    var cleaned := Cleaned(t, policy, refs);
    CleanedParts(t, policy, refs);
    ShrunkParts(cleaned, listing, refs, policy.cap);
    ShrunkFits(cleaned, listing, refs, policy.cap);
    var t' := Enforced(t, b, policy, listing);
    forall p | p in t.files && Vital(p) ensures p in t'.files && t'.files[p] == t.files[p] {
      VitalIsProtected(p);
    }
    VitalIsProtected(Path(IncidentsDir, "index.json"));
    assert Path(IncidentsDir, "index.json") in t'.files && IsIndex(Path(IncidentsDir, "index.json"));
    if t.log.Some? {
      SuffixTwice(t'.log.value, cleaned.log.value, t.log.value);
    }
  }

  /** A sixteenth of the cap, but at least 64 KiB and at most 4 MiB. */
  function LogAllowance(cap: nat): nat {
    if cap / 16 <= 65536 then 65536 else if cap / 16 <= 4194304 then cap / 16 else 4194304
  }

  /** What is left of the directory once what is past its age is gone. */
  ghost predicate UpToDate(t: Tree, b: Book, policy: Policy, t': Tree) {
    && (forall p :: p in t'.files && !IsIndex(p) ==> p in t.files && t'.files[p] == t.files[p] && !Expired(t, b, policy, p))
    && (t'.journal.Some? ==> t.journal.Some? && forall l :: l in t'.journal.value ==>
          l in t.journal.value && l.entry.Some? && l.entry.value.stamp.Some? && l.entry.value.stamp.value >= policy.journalCutoff)
    && (t'.log.Some? ==> |t'.log.value| <= LogAllowance(policy.cap))
  }

  /** Every expired file is gone, every journal line left is dated and recent, the log is bounded, and no file has
      appeared or changed but the rewritten index. */
  lemma PassExpires(t: Tree, b: Book, policy: Policy, listing: seq<Path>)
    requires Lists(listing, Cleaned(t, policy, OpenRefs(b, t.journal)))
    ensures UpToDate(t, b, policy, Enforced(t, b, policy, listing))
  {
    hide Shrunk, Real, OpenRefs, Tail, KeptLines, Referenced;
    var refs := OpenRefs(b, t.journal);
    var cleaned := Cleaned(t, policy, refs);
    ShrunkParts(cleaned, listing, refs, policy.cap);
    var t' := Enforced(t, b, policy, listing);
    forall p | p in t'.files && !IsIndex(p)
      ensures p in t.files && t'.files[p] == t.files[p] && !Expired(t, b, policy, p)
    {
      OpenRefsAre(b, t.journal, p);
    }
    if t.journal.Some? {
      forall l | l in t'.journal.value ensures l in t.journal.value && Fresh(l, policy.journalCutoff) {
        assert l in cleaned.journal.value;
        KeptAre(t.journal.value, policy.journalCutoff, l);
      }
    }
    if t.log.Some? {
      TailSuffix(t.log.value, LogLimit(policy.cap));
    }
  }

  /** While the directory fits once the aged files are gone, the pass deletes nothing else: a file goes only when it is
      expired, or when the rest did not fit and it is neither vital, nor the index, nor referred to. */
  lemma PassDeletesOnly(t: Tree, b: Book, policy: Policy, listing: seq<Path>, p: Path)
    requires Lists(listing, Cleaned(t, policy, OpenRefs(b, t.journal)))
    requires p in t.files && p !in Enforced(t, b, policy, listing).files
    ensures Expired(t, b, policy, p) ||
            (Real(Cleaned(t, policy, OpenRefs(b, t.journal))) > policy.cap
             && !Vital(p) && !IsIndex(p) && !Referenced(b, t.journal, p))
  {
    hide Shrunk, Exhausted, Retention.InOrder, Real, OpenRefs, Tail, KeptLines, Referenced;
    var refs := OpenRefs(b, t.journal);
    var cleaned := Cleaned(t, policy, refs);
    OpenRefsAre(b, t.journal, p);
    ShrunkFits(cleaned, listing, refs, policy.cap);
    if Real(cleaned) <= policy.cap {
      FitsKept(cleaned, listing, refs, policy.cap);
    }
    if Vital(p) || IsIndex(p) {
      VitalIsProtected(p);
    }
  }

  lemma FitsKept(t: Tree, listing: seq<Path>, refs: set<Path>, cap: nat)
    requires Real(t) <= cap && Lists(listing, t)
    ensures Shrunk(t, listing, refs, cap) == t
  {
    hide FileBytes, Real, Candidates, Tail;
    NothingGoes(t, Candidates(t, listing, refs, true), Real(t), cap);
    var t1 := AfterEvidence(t, listing, refs, Real(t), cap);
    JournalAll(t1, cap);
    NothingGoes(t, Candidates(t, listing, refs, false), Real(t), cap);
    LogKeeps(t, cap);
  }

  lemma {:induction false} NothingGoes(t: Tree, list: seq<Path>, total: int, cap: nat)
    requires total <= cap && forall p :: p in list ==> p in t.files
    ensures Evicted(t, list, total, cap) == t
  {
    assert list[..0] == [];
    assert Without(t, []).files == t.files;
  }

  /** b is the lines of a that are dated and recent, in order. */
  ghost predicate Recent(a: seq<Line>, cutoff: int, b: seq<Line>)
    decreases |a|
  {
    if a == [] then b == []
    else if a[0].entry.Some? && a[0].entry.value.stamp.Some? && a[0].entry.value.stamp.value >= cutoff
    then b != [] && b[0] == a[0] && Recent(a[1..], cutoff, b[1..])
    else Recent(a[1..], cutoff, b)
  }

  /** A pass over a directory that fits once it is cleaned: only expired files are gone, only undated and old journal
      lines, and of the log what exceeds its allowance. */
  ghost predicate OnlyCleaned(t: Tree, b: Book, policy: Policy, t': Tree) {
    && (forall p :: p in t.files && !IsIndex(p) ==> (p in t'.files <==> !Expired(t, b, policy, p)))
    && (t.journal.Some? ==> t'.journal.Some? && Recent(t.journal.value, policy.journalCutoff, t'.journal.value))
    && (t.log.Some? && |t.log.value| <= LogAllowance(policy.cap) ==> t'.log == t.log)
  }

  lemma {:induction false} RecentSnoc(a: seq<Line>, x: Line, cutoff: int, b: seq<Line>)
    requires Recent(a, cutoff, b)
    ensures Recent(a + [x], cutoff, if Fresh(x, cutoff) then b + [x] else b)
    decreases |a|
  {
    if a == [] {
      assert [x][1..] == [] && a + [x] == [x] && b + [x] == [x];
    } else {
      assert (a + [x])[1..] == a[1..] + [x];
      if Fresh(a[0], cutoff) {
        RecentSnoc(a[1..], x, cutoff, b[1..]);
        assert (b + [x])[1..] == b[1..] + [x];
      } else {
        RecentSnoc(a[1..], x, cutoff, b);
      }
    }
  }

  lemma {:induction false} KeptIsRecent(lines: seq<Line>, cutoff: int)
    ensures Recent(lines, cutoff, KeptLines(lines, cutoff))
  {
    if lines != [] {
      var front, last := lines[..|lines| - 1], lines[|lines| - 1];
      assert lines == front + [last];
      KeptIsRecent(front, cutoff);
      RecentSnoc(front, last, cutoff, KeptLines(front, cutoff));
      assert KeptLines(front, cutoff) + [] == KeptLines(front, cutoff);
    }
  }

  /** While the directory fits once it is cleaned, cleaning it is all a pass does. */
  lemma PassOnlyCleans(t: Tree, b: Book, policy: Policy, listing: seq<Path>)
    requires Lists(listing, Cleaned(t, policy, OpenRefs(b, t.journal)))
    requires Real(Cleaned(t, policy, OpenRefs(b, t.journal))) <= policy.cap
    ensures OnlyCleaned(t, b, policy, Enforced(t, b, policy, listing))
  {
    hide Shrunk, Real, OpenRefs, KeptLines, Referenced, Recent;
    var refs := OpenRefs(b, t.journal);
    var cleaned := Cleaned(t, policy, refs);
    FitsKept(cleaned, listing, refs, policy.cap);
    forall p ensures p in refs <==> Referenced(b, t.journal, p) {
      OpenRefsAre(b, t.journal, p);
    }
    if t.journal.Some? {
      KeptIsRecent(t.journal.value, policy.journalCutoff);
    }
  }

  /** When a pass cannot bring the directory within its cap, nothing more can go: what is left is vital, the index, a
      file an open incident refers to or a file named like the log, and journal and log are empty. */
  lemma PassFitsOrExhausts(t: Tree, b: Book, policy: Policy, listing: seq<Path>)
    requires Lists(listing, Cleaned(t, policy, OpenRefs(b, t.journal)))
    ensures var t' := Enforced(t, b, policy, listing);
            Real(t') <= policy.cap ||
            (&& (forall p :: p in t'.files ==> Vital(p) || IsIndex(p) || IsLog(p) || Referenced(b, t.journal, p))
             && JournalBytes(t') == 0 && LogBytes(t') == 0)
  {
    hide Shrunk, Retention.InOrder, Real, OpenRefs, Tail, KeptLines, Referenced, JournalBytes, LogBytes;
    var refs := OpenRefs(b, t.journal);
    ShrunkFits(Cleaned(t, policy, refs), listing, refs, policy.cap);
    forall p ensures p in refs <==> Referenced(b, t.journal, p) {
      OpenRefsAre(b, t.journal, p);
    }
    forall p ensures p in PROTECTED <==> Vital(p) || IsIndex(p) || IsLog(p) {
      ProtectedIs(p);
    }
  }

  lemma ProtectedIs(p: Path)
    ensures p in PROTECTED <==> Vital(p) || IsIndex(p) || IsLog(p)
  {
  }
}
