/**
Retention of the SOUL state directory (scripts/soul_controller.py: _tail_truncate, _open_incident_files,
_enforce_retention), as a function of the directory, the open incidents and the order in which the
directory happens to be listed. No I/O call fails.
*/
module Retention {
  import opened Options
  import opened Incidents

  type Byte = x: int | 0 <= x < 256

  const NEWLINE: Byte := 10

  datatype Dir = Root | IncidentsDir | EvidenceDir | SnapshotsDir | LogsDir | Elsewhere(dir: string)

  datatype Path = Path(dir: Dir, name: string)

  const CONFIG := Path(Root, "config.json")
  const STATUS := Path(Root, "status.json")
  const JOURNAL_LOCK := Path(Root, "journal.jsonl.lock")
  const CONTROLLER_LOG := Path(LogsDir, "controller.log")
  const INDEX := Path(IncidentsDir, "index.json")
  const PENDING := Path(IncidentsDir, "pending-events.json")

  /** Files the size pass never deletes. */
  const PROTECTED: set<Path> := {CONFIG, STATUS, CONTROLLER_LOG, INDEX, JOURNAL_LOCK, PENDING}

  datatype File = File(size: nat, mtime: int)

  datatype Entry = Entry(stamp: Option<int>, incidentId: Option<Id>, refs: seq<Path>)

  /** A journal line: its length with the line break, and its document when it parses. */
  datatype Line = Line(bytes: nat, entry: Option<Entry>)

  /** The journal and the controller log are kept apart from the plain files: they have contents. */
  datatype Tree = Tree(files: map<Path, File>, journal: Option<seq<Line>>, log: Option<seq<Byte>>)

  // ------------------------------------------------------------------ sizes

  ghost function FileBytes(files: map<Path, File>): nat {
    if files == map[] then 0
    else
      var p :| p in files;
      files[p].size + FileBytes(files - {p})
  }

  lemma {:induction false} FileBytesWithout(files: map<Path, File>, p: Path)
    requires p in files
    ensures FileBytes(files) == files[p].size + FileBytes(files - {p})
    decreases |files|
  {
    var q :| q in files && FileBytes(files) == files[q].size + FileBytes(files - {q});
    if q != p {
      FileBytesWithout(files - {q}, p);
      FileBytesWithout(files - {p}, q);
      assert files - {q} - {p} == files - {p} - {q};
    }
  }

  function Bytes(lines: seq<Line>): nat {
    if lines == [] then 0 else lines[0].bytes + Bytes(lines[1..])
  }

  function JournalBytes(t: Tree): nat {
    if t.journal.Some? then Bytes(t.journal.value) else 0
  }

  function LogBytes(t: Tree): nat {
    if t.log.Some? then |t.log.value| else 0
  }

  /** The real byte sum of the directory. */
  ghost function Real(t: Tree): nat {
    FileBytes(t.files) + JournalBytes(t) + LogBytes(t)
  }

  // ------------------------------------------------------------------ tail truncation

  function FirstNewline(s: seq<Byte>): (r: Option<nat>)
    ensures r.Some? ==> r.value < |s| && s[r.value] == NEWLINE && NEWLINE !in s[..r.value]
    ensures r.None? ==> NEWLINE !in s
  {
    if s == [] then None
    else if s[0] == NEWLINE then Some(0)
    else
      var r := FirstNewline(s[1..]);
      assert s == [s[0]] + s[1..];
      if r.None? then None
      else
        assert s[..r.value + 1] == [s[0]] + s[1..][..r.value];
        Some(r.value + 1)
  }

  function Tail(content: seq<Byte>, limit: nat): seq<Byte> {
    if |content| <= limit then content
    else if limit == 0 then []
    else
      var tail := content[|content| - limit..];
      var newline := FirstNewline(tail);
      if newline.Some? then tail[newline.value + 1..] else tail
  }

  /** The log keeps a suffix within the limit: all of it when it fits, otherwise the longest one that
      starts a line when there is one, else the last limit bytes. */
  lemma TailIsBoundedSuffix(content: seq<Byte>, limit: nat)
    ensures var tail := Tail(content, limit);
            && |tail| <= limit
            && tail == content[|content| - |tail|..]
            && (|content| <= limit ==> tail == content)
            && (|content| > limit ==>
                  if |tail| == limit then 10 !in tail
                  else
                    && content[|content| - |tail| - 1] == 10
                    && 10 !in content[|content| - limit..|content| - |tail| - 1])
  {
    if |content| > limit > 0 {
      var tail := content[|content| - limit..];
      var newline := FirstNewline(tail);
      if newline.Some? {
        assert content[|content| - limit..|content| - limit + newline.value] == tail[..newline.value];
      }
    }
  }

  // ------------------------------------------------------------------ protection and age

  function SnapshotPath(snapshotId: string): Path {
    Path(SnapshotsDir, snapshotId + ".json")
  }

  /** Files an open incident refers to: its snapshot, and the evidence of its journal entries. */
  ghost predicate Referenced(b: Book, journal: Option<seq<Line>>, p: Path) {
    || (exists i :: i in b.incidents && b.incidents[i].state == Open && b.incidents[i].snapshotId != ""
                    && p == Path(SnapshotsDir, b.incidents[i].snapshotId + ".json"))
    || (journal.Some? && OpenIds(b) != {} && exists l :: l in journal.value && RefersTo(b, l, p))
  }

  predicate RefersTo(b: Book, l: Line, p: Path) {
    && l.entry.Some? && l.entry.value.incidentId.Some?
    && l.entry.value.incidentId.value in OpenIds(b) && p in l.entry.value.refs
  }

  function OpenRefs(b: Book, journal: Option<seq<Line>>): set<Path> {
    (set i | i in b.incidents && b.incidents[i].state == Open && b.incidents[i].snapshotId != "" ::
       SnapshotPath(b.incidents[i].snapshotId)) +
    if journal.None? then {} else LineRefs(b, journal.value)
  }

  function LineRefs(b: Book, lines: seq<Line>): set<Path> {
    if lines == [] then {}
    else
      var l := lines[0];
      (if l.entry.Some? && l.entry.value.incidentId.Some? && l.entry.value.incidentId.value in OpenIds(b)
       then set p | p in l.entry.value.refs else {}) + LineRefs(b, lines[1..])
  }

  lemma {:induction false} LineRefsAre(b: Book, lines: seq<Line>, p: Path)
    ensures p in LineRefs(b, lines) <==> exists l :: l in lines && RefersTo(b, l, p)
  {
    if lines != [] {
      LineRefsAre(b, lines[1..], p);
      assert lines == [lines[0]] + lines[1..];
      if RefersTo(b, lines[0], p) {
        assert lines[0] in lines;
      }
    }
  }

  lemma OpenRefsAre(b: Book, journal: Option<seq<Line>>, p: Path)
    ensures p in OpenRefs(b, journal) <==> Referenced(b, journal, p)
  {
    if journal.Some? {
      LineRefsAre(b, journal.value, p);
    }
  }

  predicate InEvidence(p: Path) {
    p.dir == EvidenceDir || p.dir == SnapshotsDir || p.dir == LogsDir
  }

  datatype Policy = Policy(cap: nat, evidenceCutoff: int, journalCutoff: int, indexSize: nat, now: int)

  predicate TooOld(f: File, p: Path, policy: Policy, refs: set<Path>) {
    InEvidence(p) && f.mtime < policy.evidenceCutoff && p !in refs
  }

  function Aged(t: Tree, policy: Policy, refs: set<Path>): Tree {
    t.(files := map p | p in t.files && !TooOld(t.files[p], p, policy, refs) :: t.files[p])
  }

  predicate Fresh(l: Line, cutoff: int) {
    l.entry.Some? && l.entry.value.stamp.Some? && l.entry.value.stamp.value >= cutoff
  }

  function KeptLines(lines: seq<Line>, cutoff: int): seq<Line> {
    if lines == [] then []
    else KeptLines(lines[..|lines| - 1], cutoff) + if Fresh(lines[|lines| - 1], cutoff) then [lines[|lines| - 1]] else []
  }

  function LogLimit(cap: nat): nat {
    var floor := if cap / 16 > 64 * 1024 then cap / 16 else 64 * 1024;
    if floor < 4 * 1024 * 1024 then floor else 4 * 1024 * 1024
  }

  /** Everything before the size pass: bound the log, delete by age, trim the journal, rewrite the index. */
  function Cleaned(t: Tree, policy: Policy, refs: set<Path>): Tree {
    var aged := Aged(t, policy, refs);
    Tree(aged.files[INDEX := File(policy.indexSize, policy.now)],
         if t.journal.None? then None else Some(KeptLines(t.journal.value, policy.journalCutoff)),
         if t.log.None? then None else Some(Tail(t.log.value, LogLimit(policy.cap))))
  }

  // ------------------------------------------------------------------ the size pass

  /** How many leading sizes must go before the rest fits. */
  function Needed(sizes: seq<nat>, total: int, cap: nat): (k: nat)
    ensures k <= |sizes|
  {
    if sizes == [] || total <= cap then 0 else 1 + Needed(sizes[1..], total - sizes[0], cap)
  }

  function Sum(sizes: seq<nat>): nat {
    if sizes == [] then 0 else sizes[0] + Sum(sizes[1..])
  }

  /** The shortest prefix: enough or everything, and no shorter one is enough. */
  lemma {:induction false} NeededIsShortest(sizes: seq<nat>, total: int, cap: nat)
    ensures var k := Needed(sizes, total, cap);
            && (total - Sum(sizes[..k]) <= cap || k == |sizes|)
            && (forall j :: 0 <= j < k ==> total - Sum(sizes[..j]) > cap)
  {
    if sizes != [] && total > cap {
      NeededIsShortest(sizes[1..], total - sizes[0], cap);
      var k := Needed(sizes, total, cap);
      assert sizes[..k][1..] == sizes[1..][..k - 1];
      forall j | 0 <= j < k ensures total - Sum(sizes[..j]) > cap {
        if j > 0 {
          assert sizes[..j][1..] == sizes[1..][..j - 1];
        }
      }
    }
  }

  function SizesOf(files: map<Path, File>, list: seq<Path>): (sizes: seq<nat>)
    requires forall p :: p in list ==> p in files
    ensures |sizes| == |list|
  {
    seq(|list|, i requires 0 <= i < |list| => files[list[i]].size)
  }

  function LineSizes(lines: seq<Line>): (sizes: seq<nat>)
    ensures |sizes| == |lines|
  {
    seq(|lines|, i requires 0 <= i < |lines| => lines[i].bytes)
  }

  predicate ByAge(files: map<Path, File>, list: seq<Path>) {
    && (forall p :: p in list ==> p in files)
    && (forall i, j :: 0 <= i < j < |list| ==> files[list[i]].mtime <= files[list[j]].mtime)
  }

  function Inserted(files: map<Path, File>, list: seq<Path>, p: Path): seq<Path>
    requires p in files && forall q :: q in list ==> q in files
  {
    if list == [] || files[list[|list| - 1]].mtime <= files[p].mtime then list + [p]
    else Inserted(files, list[..|list| - 1], p) + [list[|list| - 1]]
  }

  /** Oldest first; files of one age stay in the order they were listed. */
  function Sorted(files: map<Path, File>, list: seq<Path>): (sorted: seq<Path>)
    requires forall p :: p in list ==> p in files
    ensures forall p :: p in sorted <==> p in list
  {
    if list == [] then []
    else
      var front := Sorted(files, list[..|list| - 1]);
      InsertedMembers(files, front, list[|list| - 1]);
      assert list == list[..|list| - 1] + [list[|list| - 1]];
      Inserted(files, front, list[|list| - 1])
  }

  lemma {:induction false} InsertedMembers(files: map<Path, File>, list: seq<Path>, p: Path)
    requires p in files && forall q :: q in list ==> q in files
    ensures multiset(Inserted(files, list, p)) == multiset(list) + multiset{p}
    ensures forall q :: q in Inserted(files, list, p) <==> q in list || q == p
  {
    if list != [] && files[list[|list| - 1]].mtime > files[p].mtime {
      InsertedMembers(files, list[..|list| - 1], p);
      assert list == list[..|list| - 1] + [list[|list| - 1]];
    }
  }

  lemma ByAgeSnoc(files: map<Path, File>, list: seq<Path>, p: Path)
    requires ByAge(files, list) && p in files && forall q :: q in list ==> files[q].mtime <= files[p].mtime
    ensures ByAge(files, list + [p])
  {
    forall i, j | 0 <= i < j < |list + [p]| ensures files[(list + [p])[i]].mtime <= files[(list + [p])[j]].mtime {
      if j == |list| {
        assert list[i] in list;
      }
    }
  }

  lemma ByAgeLast(files: map<Path, File>, list: seq<Path>)
    requires ByAge(files, list) && list != []
    ensures ByAge(files, list[..|list| - 1])
    ensures forall q :: q in list ==> files[q].mtime <= files[list[|list| - 1]].mtime
  {
    forall q | q in list ensures files[q].mtime <= files[list[|list| - 1]].mtime {
      var i :| 0 <= i < |list| && list[i] == q;
      assert i < |list| - 1 ==> files[list[i]].mtime <= files[list[|list| - 1]].mtime;
    }
  }

  lemma {:induction false} InsertedByAge(files: map<Path, File>, list: seq<Path>, p: Path)
    requires p in files && ByAge(files, list)
    ensures ByAge(files, Inserted(files, list, p))
  {
    hide ByAge;
    ByAgeMembers(files, list);
    if list == [] || files[list[|list| - 1]].mtime <= files[p].mtime {
      if list != [] {
        ByAgeLast(files, list);
      }
      ByAgeSnoc(files, list, p);
    } else {
      var front, last := list[..|list| - 1], list[|list| - 1];
      ByAgeLast(files, list);
      InsertedByAge(files, front, p);
      InsertedMembers(files, front, p);
      ByAgeSnoc(files, Inserted(files, front, p), last);
    }
  }

  lemma ByAgeMembers(files: map<Path, File>, list: seq<Path>)
    requires ByAge(files, list)
    ensures forall p :: p in list ==> p in files
  {
  }

  lemma {:induction false} SortedByAge(files: map<Path, File>, list: seq<Path>)
    requires forall p :: p in list ==> p in files
    ensures ByAge(files, Sorted(files, list)) && multiset(Sorted(files, list)) == multiset(list)
  {
    hide Inserted;
    if list != [] {
      var front, last := list[..|list| - 1], list[|list| - 1];
      SortedByAge(files, front);
      InsertedByAge(files, Sorted(files, front), last);
      InsertedMembers(files, Sorted(files, front), last);
      assert list == front + [last];
    }
  }

  /** The listed plain files that qualify, oldest first. */
  function Candidates(t: Tree, listing: seq<Path>, refs: set<Path>, evidence: bool): (list: seq<Path>)
    ensures forall p :: p in list <==> p in listing && Evictable(t, p, refs, evidence)
  {
    var chosen := Chosen(t, listing, refs, evidence);
    Sorted(t.files, chosen)
  }

  /** evidence: in the evidence folders; otherwise everything else that is left. */
  predicate Evictable(t: Tree, p: Path, refs: set<Path>, evidence: bool) {
    p in t.files && p !in PROTECTED && p !in refs && InEvidence(p) == evidence
  }

  function Chosen(t: Tree, listing: seq<Path>, refs: set<Path>, evidence: bool): (list: seq<Path>)
    ensures forall p :: p in list <==> p in listing && Evictable(t, p, refs, evidence)
  {
    if listing == [] then []
    else
      var last := listing[|listing| - 1];
      assert listing == listing[..|listing| - 1] + [last];
      Chosen(t, listing[..|listing| - 1], refs, evidence) + if Evictable(t, last, refs, evidence) then [last] else []
  }

  function Without(t: Tree, gone: seq<Path>): Tree {
    t.(files := t.files - (set p | p in gone))
  }

  /** Oldest first, until the rest fits. */
  function Evicted(t: Tree, list: seq<Path>, total: int, cap: nat): Tree
    requires forall p :: p in list ==> p in t.files
  {
    Without(t, list[..Needed(SizesOf(t.files, list), total, cap)])
  }

  function AfterEvidence(t: Tree, listing: seq<Path>, refs: set<Path>, total: int, cap: nat): Tree {
    Evicted(t, Candidates(t, listing, refs, true), total, cap)
  }

  /** The oldest journal entries next. */
  function AfterJournal(t: Tree, total: int, cap: nat): Tree {
    if t.journal.None? then t
    else t.(journal := Some(t.journal.value[Needed(LineSizes(t.journal.value), total, cap)..]))
  }

  function AfterRemainder(t: Tree, listing: seq<Path>, refs: set<Path>, total: int, cap: nat): Tree {
    Evicted(t, Candidates(t, listing, refs, false), total, cap)
  }

  /** Last, the controller log. */
  function AfterLog(t: Tree, total: int, cap: nat): Tree {
    if t.log.None? || total <= cap then t
    else
      var room := cap - (total - |t.log.value|);
      t.(log := Some(Tail(t.log.value, if room > 0 then room else 0)))
  }

  ghost function Shrunk(t: Tree, listing: seq<Path>, refs: set<Path>, cap: nat): Tree {
    var t1 := AfterEvidence(t, listing, refs, Real(t), cap);
    var t2 := AfterJournal(t1, Real(t1), cap);
    var t3 := AfterRemainder(t2, listing, refs, Real(t2), cap);
    AfterLog(t3, Real(t3), cap)
  }

  /** A whole pass. */
  ghost function Enforced(t: Tree, b: Book, policy: Policy, listing: seq<Path>): Tree {
    var refs := OpenRefs(b, t.journal);
    Shrunk(Cleaned(t, policy, refs), listing, refs, policy.cap)
  }

  ghost predicate Lists(listing: seq<Path>, t: Tree) {
    Distinct(listing) && forall p :: p in t.files ==> p in listing
  }

  // ------------------------------------------------------------------ accounting

  lemma {:induction false} WithoutBytes(t: Tree, gone: seq<Path>)
    requires Distinct(gone) && forall p :: p in gone ==> p in t.files
    ensures FileBytes(Without(t, gone).files) == FileBytes(t.files) - Sum(SizesOf(t.files, gone))
    decreases |gone|
  {
    if gone == [] {
      assert Without(t, gone).files == t.files;
    } else {
      var first := Without(t, [gone[0]]);
      FileBytesWithout(t.files, gone[0]);
      assert first.files == t.files - {gone[0]};
      forall p | p in gone[1..] ensures p in first.files {
        var i :| 0 <= i < |gone| - 1 && gone[1..][i] == p;
        assert gone[i + 1] == p;
      }
      WithoutBytes(first, gone[1..]);
      assert gone == [gone[0]] + gone[1..];
      assert Without(first, gone[1..]).files == Without(t, gone).files;
      assert SizesOf(t.files, gone)[1..] == SizesOf(first.files, gone[1..]);
    }
  }

  lemma {:induction false} DropBytes(lines: seq<Line>, k: nat)
    requires k <= |lines|
    ensures Bytes(lines[k..]) == Bytes(lines) - Sum(LineSizes(lines)[..k])
  {
    if k == 0 {
      assert lines[0..] == lines;
    } else {
      DropBytes(lines[1..], k - 1);
      assert lines[1..][k - 1..] == lines[k..];
      assert LineSizes(lines)[..k][1..] == LineSizes(lines[1..])[..k - 1];
    }
  }

  lemma {:induction false} EvictedAll(t: Tree, list: seq<Path>, cap: nat)
    requires Distinct(list) && forall p :: p in list ==> p in t.files
    ensures var t' := Evicted(t, list, Real(t), cap);
            && Real(t') <= Real(t)
            && (Real(t') <= cap || t' == Without(t, list))
            && (forall j :: 0 <= j < Needed(SizesOf(t.files, list), Real(t), cap) ==> Real(Without(t, list[..j])) > cap)
            && Real(t') == Real(t) - Sum(SizesOf(t.files, list)[..Needed(SizesOf(t.files, list), Real(t), cap)])
  {
    hide FileBytes, Sum;
    var sizes := SizesOf(t.files, list);
    var k := Needed(sizes, Real(t), cap);
    NeededIsShortest(sizes, Real(t), cap);
    PrefixBytes(t, list, k);
    assert list[..|list|] == list;
    forall j | 0 <= j < k ensures Real(Without(t, list[..j])) > cap {
      PrefixBytes(t, list, j);
    }
  }

  lemma PrefixBytes(t: Tree, list: seq<Path>, j: nat)
    requires Distinct(list) && j <= |list| && forall p :: p in list ==> p in t.files
    ensures Real(Without(t, list[..j])) == Real(t) - Sum(SizesOf(t.files, list)[..j])
  {
    hide FileBytes, Sum;
    WithoutBytes(t, list[..j]);
    assert SizesOf(t.files, list[..j]) == SizesOf(t.files, list)[..j];
  }

  lemma CandidatesDistinct(t: Tree, listing: seq<Path>, refs: set<Path>, evidence: bool)
    requires Distinct(listing)
    ensures Distinct(Candidates(t, listing, refs, evidence))
    ensures ByAge(t.files, Candidates(t, listing, refs, evidence))
  {
    var chosen := Chosen(t, listing, refs, evidence);
    ChosenDistinct(t, listing, refs, evidence);
    SortedByAge(t.files, chosen);
    DistinctByCount(chosen, Sorted(t.files, chosen));
  }

  lemma {:induction false} ChosenDistinct(t: Tree, listing: seq<Path>, refs: set<Path>, evidence: bool)
    requires Distinct(listing)
    ensures Distinct(Chosen(t, listing, refs, evidence))
  {
    hide Evictable;
    if listing != [] {
      var front, last := listing[..|listing| - 1], listing[|listing| - 1];
      ChosenDistinct(t, front, refs, evidence);
      assert last !in front;
      DistinctSnoc(Chosen(t, front, refs, evidence), last);
    }
  }

  lemma TwiceCounts(b: seq<Path>, i: nat, j: nat)
    requires i < j < |b|
    ensures b[i] == b[j] ==> multiset(b)[b[i]] >= 2
  {
    assert b == b[..i] + [b[i]] + b[i + 1..j] + [b[j]] + b[j + 1..];
  }

  lemma DistinctByCount(a: seq<Path>, b: seq<Path>)
    requires Distinct(a) && multiset(a) == multiset(b)
    ensures Distinct(b)
  {
    forall i, j | 0 <= i < j < |b| ensures b[i] != b[j] {
      CountOnce(a, b[i]);
      TwiceCounts(b, i, j);
    }
  }

  lemma {:induction false} CountOnce(a: seq<Path>, p: Path)
    requires Distinct(a)
    ensures multiset(a)[p] <= 1
  {
    if a != [] {
      var front, last := a[..|a| - 1], a[|a| - 1];
      assert a == front + [last];
      CountOnce(front, p);
      if last == p {
        assert p !in front;
      }
    }
  }

  lemma {:induction false} JournalAll(t: Tree, cap: nat)
    ensures var t' := AfterJournal(t, Real(t), cap);
            && Real(t') <= Real(t)
            && (Real(t') <= cap || (JournalBytes(t') == 0 && (t'.journal.Some? ==> t'.journal.value == [])))
            && (Real(t) <= cap ==> t' == t)
            && (t.journal.Some? ==>
                  var k := Needed(LineSizes(t.journal.value), Real(t), cap);
                  forall j :: 0 <= j < k ==> Real(t.(journal := Some(t.journal.value[j..]))) > cap)
  {
    if t.journal.Some? {
      var lines := t.journal.value;
      var sizes := LineSizes(lines);
      var k := Needed(sizes, Real(t), cap);
      NeededIsShortest(sizes, Real(t), cap);
      DropBytes(lines, k);
      assert lines[0..] == lines;
      forall j | 0 <= j < k ensures Real(t.(journal := Some(lines[j..]))) > cap {
        DropBytes(lines, j);
      }
    }
  }

  lemma LogAll(t: Tree, cap: nat)
    ensures var t' := AfterLog(t, Real(t), cap);
            && Real(t') <= Real(t)
            && (Real(t') <= cap || LogBytes(t') == 0)
            && (Real(t) <= cap ==> t' == t)
  {
    hide Tail, FileBytes, JournalBytes;
    if t.log.Some? && Real(t) > cap {
      var log := t.log.value;
      var room := cap - (Real(t) - |log|);
      var limit := if room > 0 then room else 0;
      TailIsBoundedSuffix(log, limit);
      var t' := t.(log := Some(Tail(log, limit)));
      assert AfterLog(t, Real(t), cap) == t';
      SameRest(t, t');
    }
  }

  lemma SameRest(t: Tree, t': Tree)
    requires t'.files == t.files && t'.journal == t.journal
    ensures Real(t') - LogBytes(t') == Real(t) - LogBytes(t)
  {
    hide FileBytes, Bytes;
  }

  // ------------------------------------------------------------------ what a pass guarantees

  /** Nothing is left to delete: only protected and referenced files, no journal line, no log byte. */
  ghost predicate Exhausted(t: Tree, refs: set<Path>) {
    && (forall p :: p in t.files ==> p in PROTECTED || p in refs)
    && JournalBytes(t) == 0
    && LogBytes(t) == 0
  }

  /** What one category gives up before the next is touched. */
  ghost predicate InOrder(t: Tree, listing: seq<Path>, refs: set<Path>, cap: nat) {
    var t1 := AfterEvidence(t, listing, refs, Real(t), cap);
    var t2 := AfterJournal(t1, Real(t1), cap);
    var t3 := AfterRemainder(t2, listing, refs, Real(t2), cap);
    var t4 := AfterLog(t3, Real(t3), cap);
    && (t2 != t1 ==> forall p :: p in t1.files && InEvidence(p) ==> p in PROTECTED || p in refs)
    && (t3 != t2 ==> JournalBytes(t2) == 0)
    && (t4 != t3 ==> forall p :: p in t3.files ==> p in PROTECTED || p in refs)
  }

  lemma EvidenceStage(t: Tree, listing: seq<Path>, refs: set<Path>, cap: nat)
    requires Lists(listing, t)
    ensures var t1 := AfterEvidence(t, listing, refs, Real(t), cap);
            && Lists(listing, t1) && Real(t1) <= Real(t)
            && (Real(t1) <= cap || forall p :: p in t1.files && InEvidence(p) ==> p in PROTECTED || p in refs)
            && (forall p :: p in t.files && (p in PROTECTED || p in refs || !InEvidence(p)) ==>
                  p in t1.files && t1.files[p] == t.files[p])
            && (forall p :: p in t1.files ==> p in t.files)
            && t1.journal == t.journal && t1.log == t.log
  {
    hide FileBytes, Needed, Candidates, Real;
    var list := Candidates(t, listing, refs, true);
    CandidatesDistinct(t, listing, refs, true);
    EvictedAll(t, list, cap);
  }

  lemma RemainderStage(t: Tree, listing: seq<Path>, refs: set<Path>, cap: nat)
    requires Lists(listing, t)
    ensures var t1 := AfterRemainder(t, listing, refs, Real(t), cap);
            && Lists(listing, t1) && Real(t1) <= Real(t)
            && (Real(t1) <= cap || forall p :: p in t1.files && !InEvidence(p) ==> p in PROTECTED || p in refs)
            && (Real(t) <= cap ==> t1 == t)
            && (forall p :: p in t.files && (p in PROTECTED || p in refs || InEvidence(p)) ==>
                  p in t1.files && t1.files[p] == t.files[p])
            && (forall p :: p in t1.files ==> p in t.files)
            && t1.journal == t.journal && t1.log == t.log
  {
    hide FileBytes, Candidates, Real;
    var list := Candidates(t, listing, refs, false);
    CandidatesDistinct(t, listing, refs, false);
    EvictedAll(t, list, cap);
    if Real(t) <= cap {
      assert list[..0] == [];
      assert Without(t, []).files == t.files;
    }
  }

  /** Main result: the pass ends at or under the cap, or with nothing left to give; each category is
      sacrificed only after the one before it is exhausted; protected and referenced files survive. */
  lemma ShrunkFits(t: Tree, listing: seq<Path>, refs: set<Path>, cap: nat)
    requires Lists(listing, t)
    ensures var t' := Shrunk(t, listing, refs, cap);
            && Real(t') <= Real(t)
            && (Real(t') <= cap || Exhausted(t', refs))
            && InOrder(t, listing, refs, cap)
            && (forall p :: p in t.files && (p in PROTECTED || p in refs) ==> p in t'.files && t'.files[p] == t.files[p])
  {
    hide FileBytes, Needed, Real, AfterEvidence, AfterRemainder, AfterJournal, AfterLog;
    var t1 := AfterEvidence(t, listing, refs, Real(t), cap);
    var t2 := AfterJournal(t1, Real(t1), cap);
    var t3 := AfterRemainder(t2, listing, refs, Real(t2), cap);
    EvidenceStage(t, listing, refs, cap);
    JournalAll(t1, cap);
    JournalKeeps(t1, cap);
    RemainderStage(t2, listing, refs, cap);
    LogAll(t3, cap);
    LogKeeps(t3, cap);
  }

  lemma JournalKeeps(t: Tree, cap: nat)
    ensures var t' := AfterJournal(t, Real(t), cap); t'.files == t.files && t'.log == t.log
  {
  }

  lemma LogKeeps(t: Tree, cap: nat)
    ensures var t' := AfterLog(t, Real(t), cap); t'.files == t.files && t'.journal == t.journal
  {
  }

  /** Evidence goes as the shortest sufficient oldest-first prefix. */
  lemma {:induction false} EvidenceOldestFirst(t: Tree, listing: seq<Path>, refs: set<Path>, cap: nat)
    requires Lists(listing, t)
    ensures var list := Candidates(t, listing, refs, true);
            var k := Needed(SizesOf(t.files, list), Real(t), cap);
            && ByAge(t.files, list)
            && (forall p :: p in list <==> Evictable(t, p, refs, true))
            && AfterEvidence(t, listing, refs, Real(t), cap) == Without(t, list[..k])
            && (forall j :: 0 <= j < k ==> Real(Without(t, list[..j])) > cap)
            && (Real(Without(t, list[..k])) <= cap || k == |list|)
  {
    hide FileBytes, Needed, Candidates, Real;
    var list := Candidates(t, listing, refs, true);
    CandidatesDistinct(t, listing, refs, true);
    EvictedAll(t, list, cap);
    PrefixBytes(t, list, Needed(SizesOf(t.files, list), Real(t), cap));
    NeededIsShortest(SizesOf(t.files, list), Real(t), cap);
  }

  /** A whole pass: within the cap or exhausted, and an open incident keeps the files it refers to. */
  lemma RetentionHolds(t: Tree, b: Book, policy: Policy, listing: seq<Path>, p: Path)
    requires Lists(listing, Cleaned(t, policy, OpenRefs(b, t.journal)))
    ensures var t' := Enforced(t, b, policy, listing);
            && (Real(t') <= policy.cap || Exhausted(t', OpenRefs(b, t.journal)))
            && (p in t.files && (p in PROTECTED || Referenced(b, t.journal, p)) && p != CONTROLLER_LOG ==> p in t'.files)
            && (p in t.files && Referenced(b, t.journal, p) && p != INDEX ==> p in t'.files && t'.files[p] == t.files[p])
  {
    hide Shrunk, Exhausted, InOrder, Referenced, Real;
    var refs := OpenRefs(b, t.journal);
    ShrunkFits(Cleaned(t, policy, refs), listing, refs, policy.cap);
    OpenRefsAre(b, t.journal, p);
    if p in PROTECTED && p != CONTROLLER_LOG {
      assert !InEvidence(p);
    }
  }
}
