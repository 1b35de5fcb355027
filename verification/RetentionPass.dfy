/**
The retention pass as it runs (scripts/soul_controller.py: _enforce_retention): the directory is listed,
files are unlinked one by one and `total` is kept by subtraction. It is proved to compute
Retention.Enforced for the listing it happened to get.
*/
module RetentionPass {
  import opened Options
  import opened Incidents
  import opened Retention
  import opened RetentionLaws

  /** A walk over a set of paths, in whatever order the directory gives them. */
  method Glob(paths: set<Path>) returns (listing: seq<Path>)
    ensures Distinct(listing) && forall p :: p in listing <==> p in paths
  {
    listing := [];
    var rest := paths;
    while rest != {}
      invariant rest <= paths && Distinct(listing)
      invariant forall p :: p in listing <==> p in paths - rest
      decreases |rest|
    {
      var p :| p in rest;
      DistinctSnoc(listing, p);
      listing := listing + [p];
      rest := rest - {p};
    }
  }

  lemma SumSnoc(sizes: seq<nat>, k: nat)
    requires k < |sizes|
    ensures Sum(sizes[..k + 1]) == Sum(sizes[..k]) + sizes[k]
  {
    if k > 0 {
      SumSnoc(sizes[1..], k - 1);
      assert sizes[..k + 1][1..] == sizes[1..][..k] && sizes[..k][1..] == sizes[1..][..k - 1];
    } else {
      assert sizes[..1][1..] == [];
    }
  }

  lemma ListedBytes(t: Tree, listing: seq<Path>)
    requires Distinct(listing) && forall p :: p in listing <==> p in t.files
    ensures Sum(SizesOf(t.files, listing)) == FileBytes(t.files)
  {
    WithoutBytes(t, listing);
    assert Without(t, listing).files == map[];
  }

  lemma WithoutNext(t: Tree, list: seq<Path>, k: nat)
    requires k < |list|
    ensures Without(Without(t, list[..k]), [list[k]]) == Without(t, list[..k + 1])
  {
    assert list[..k + 1] == list[..k] + [list[k]];
    assert Without(Without(t, list[..k]), [list[k]]).files == Without(t, list[..k + 1]).files;
  }

  class StateDirectory {
    var files: map<Path, File>
    var journal: Option<seq<Line>>
    var log: Option<seq<Byte>>

    function View(): Tree
      reads this
    {
      Tree(files, journal, log)
    }

    /** The sizes of all listed files, added up. */
    method TotalBytes(listing: seq<Path>) returns (total: nat)
      requires Distinct(listing) && forall p :: p in listing <==> p in files
      ensures total == Real(View())
    {
      hide Sum, FileBytes;
      ghost var sizes := SizesOf(files, listing);
      total := 0;
      NoSizes();
      for k := 0 to |listing|
        invariant total == Sum(sizes[..k])
      {
        SumSnoc(sizes, k);
        total := total + files[listing[k]].size;
      }
      assert sizes[..|listing|] == sizes;
      ListedBytes(View(), listing);
      if journal.Some? {
        total := total + Bytes(journal.value);
      }
      if log.Some? {
        total := total + |log.value|;
      }
    }

    /** Unlink from the front of the list while the total is over the cap. */
    method EvictFrom(list: seq<Path>, total: int, cap: nat) returns (left: int)
      requires Distinct(list) && (forall p :: p in list ==> p in files) && total == Real(View())
      modifies this`files
      ensures View() == Evicted(old(View()), list, total, cap)
      ensures left == Real(View())
    {
      hide Sum, FileBytes, Needed;
      ghost var t, sizes := View(), SizesOf(files, list);
      left := total;
      var k := 0;
      assert Without(t, list[..0]).files == t.files;
      assert sizes[0..] == sizes;
      while k < |list| && left > cap
        invariant k <= |list|
        invariant View() == Without(t, list[..k]) && left == Real(View())
        invariant k + Needed(sizes[k..], left, cap) == Needed(sizes, total, cap)
      {
        var path := list[k];
        assert path in files by {
          assert path !in list[..k];
        }
        NeededStep(sizes[k..], left, cap);
        assert sizes[k..][1..] == sizes[k + 1..];
        WithoutNext(t, list, k);
        FileBytesWithout(files, path);
        left := left - files[path].size;
        files := files - {path};
        assert Without(Without(t, list[..k]), [path]).files == files;
        k := k + 1;
      }
      NeededDone(sizes[k..], left, cap);
    }

    /** Remove the oldest journal lines until the rest fits, in one rewrite. */
    method TrimOldest(total: int, cap: nat) returns (left: int)
      requires total == Real(View())
      modifies this`journal
      ensures View() == AfterJournal(old(View()), total, cap)
      ensures left == Real(View())
    {
      left := total;
      if total > cap && journal.Some? {
        hide Sum, Bytes, Needed;
        var lines := journal.value;
        ghost var sizes := LineSizes(lines);
        var removeCount, removedBytes := 0, 0;
        NoSizes();
        assert sizes[..0] == [] && sizes[0..] == sizes;
        while removeCount < |lines| && total - removedBytes > cap
          invariant journal == Some(lines) && removeCount <= |lines| && removedBytes == Sum(sizes[..removeCount])
          invariant removeCount + Needed(sizes[removeCount..], total - removedBytes, cap) == Needed(sizes, total, cap)
        {
          NeededStep(sizes[removeCount..], total - removedBytes, cap);
          assert sizes[removeCount..][1..] == sizes[removeCount + 1..];
          SumSnoc(sizes, removeCount);
          removedBytes := removedBytes + lines[removeCount].bytes;
          removeCount := removeCount + 1;
        }
        NeededDone(sizes[removeCount..], total - removedBytes, cap);
        DropBytes(lines, removeCount);
        assert lines[0..] == lines;
        if removeCount > 0 {
          journal := Some(lines[removeCount..]);
          left := left - removedBytes;
        }
      } else if journal.Some? {
        assert journal.value[0..] == journal.value;
      }
    }

    /** Delete what is past the retention age and not referenced. */
    method DeleteAged(policy: Policy, refs: set<Path>)
      modifies this`files
      ensures View() == Aged(old(View()), policy, refs)
    {
      ghost var was := files;
      var listing := Glob(files.Keys);
      for k := 0 to |listing|
        invariant forall p :: p in files <==> p in was && !(p in listing[..k] && TooOld(was[p], p, policy, refs))
        invariant forall p :: p in files ==> files[p] == was[p]
      {
        var path := listing[k];
        assert path !in listing[..k];
        assert listing[..k + 1] == listing[..k] + [path];
        if InEvidence(path) && files[path].mtime < policy.evidenceCutoff && path !in refs {
          files := files - {path};
        }
      }
      assert listing[..|listing|] == listing;
      assert files == Aged(old(View()), policy, refs).files;
    }

    method TrimByAge(cutoff: int)
      modifies this`journal
      ensures old(journal).None? ==> journal == old(journal)
      ensures old(journal).Some? ==> journal == Some(KeptLines(old(journal).value, cutoff))
    {
      if journal.Some? {
        var original := journal.value;
        var kept: seq<Line> := [];
        for k := 0 to |original|
          invariant journal == old(journal) && kept == KeptLines(original[..k], cutoff) && |kept| <= k
          invariant |kept| == k ==> kept == original[..k]
        {
          assert original[..k + 1][..k] == original[..k];
          if Fresh(original[k], cutoff) {
            kept := kept + [original[k]];
          }
        }
        assert original[..|original|] == original;
        if |kept| != |original| {
          journal := Some(kept);
        }
      }
    }

    method Clean(policy: Policy, refs: set<Path>)
      modifies this
      ensures View() == Cleaned(old(View()), policy, refs)
    {
      if log.Some? {
        log := Some(Tail(log.value, LogLimit(policy.cap)));
      }
      DeleteAged(policy, refs);
      TrimByAge(policy.journalCutoff);
      files := files[INDEX := File(policy.indexSize, policy.now)];
    }

    /** The size pass: evidence, journal, the rest and the log, each only while the total is over the cap. */
    method Shrink(listing: seq<Path>, refs: set<Path>, cap: nat)
      requires Distinct(listing) && forall p :: p in listing <==> p in files
      modifies this
      ensures View() == Shrunk(old(View()), listing, refs, cap)
    {
      hide FileBytes, Sum, Needed, Candidates;
      ghost var t := View();
      var total := TotalBytes(listing);
      if total <= cap {
        FitsAlready(t, listing, refs, cap);
        return;
      }
      var evidence := Candidates(View(), listing, refs, true);
      CandidatesDistinct(t, listing, refs, true);
      var left := EvictFrom(evidence, total, cap);
      left := TrimOldest(left, cap);
      ghost var t2 := View();
      if left > cap {
        var remainder := Candidates(View(), listing, refs, false);
        CandidatesDistinct(t2, listing, refs, false);
        left := EvictFrom(remainder, left, cap);
      } else {
        NoneEvicted(t2, Candidates(t2, listing, refs, false), left, cap);
      }
      if left > cap && log.Some? {
        var room := cap - (left - |log.value|);
        log := Some(Tail(log.value, if room > 0 then room else 0));
      }
    }

    /** Main: the listing it got is the only freedom in what it leaves. */
    method Enforce(policy: Policy, book: Book) returns (listing: seq<Path>)
      modifies this
      ensures Lists(listing, Cleaned(old(View()), policy, OpenRefs(book, old(journal))))
      ensures View() == Enforced(old(View()), book, policy, listing)
      ensures Spared(old(View()), View()) && UpToDate(old(View()), book, policy, View())
    {
      hide Cleaned, FileBytes, Shrunk, OpenRefs, Spared, UpToDate;
      ghost var t0 := View();
      var refs := OpenRefs(book, journal);
      Clean(policy, refs);
      listing := Glob(files.Keys);
      PassSpares(t0, book, policy, listing);
      PassExpires(t0, book, policy, listing);
      Shrink(listing, refs, policy.cap);
    }
  }

  lemma NoSizes()
    ensures Sum([]) == 0
  {
  }

  lemma NeededStep(sizes: seq<nat>, total: int, cap: nat)
    requires sizes != [] && total > cap
    ensures Needed(sizes, total, cap) == 1 + Needed(sizes[1..], total - sizes[0], cap)
  {
  }

  lemma {:induction false} NeededDone(sizes: seq<nat>, total: int, cap: nat)
    requires sizes == [] || total <= cap
    ensures Needed(sizes, total, cap) == 0
  {
  }

  lemma NoneEvicted(t: Tree, list: seq<Path>, total: int, cap: nat)
    requires total <= cap && forall p :: p in list ==> p in t.files
    ensures Evicted(t, list, total, cap) == t
  {
    NeededDone(SizesOf(t.files, list), total, cap);
    assert Without(t, []).files == t.files;
  }

  /** A directory that fits is left alone. */
  lemma FitsAlready(t: Tree, listing: seq<Path>, refs: set<Path>, cap: nat)
    requires Real(t) <= cap
    ensures Shrunk(t, listing, refs, cap) == t
  {
    hide Needed, Candidates, FileBytes;
    NoneEvicted(t, Candidates(t, listing, refs, true), Real(t), cap);
    NoneEvicted(t, Candidates(t, listing, refs, false), Real(t), cap);
    if t.journal.Some? {
      NeededDone(LineSizes(t.journal.value), Real(t), cap);
      assert t.journal.value[0..] == t.journal.value;
    }
  }
}
