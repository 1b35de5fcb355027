/**
Whole runs of the patch planner (scripts/apply_field_review_patches.py: preflight_components, main)
over several chains with disjoint files, stopped anywhere and started again.
*/
module PatchRuns {
  import opened Options
  import opened Patches
  import opened Snapshots

  /** No chain shares a file with a later one. */
  predicate Separate(jobs: seq<seq<Patch>>) {
    jobs == [] || (Clear(jobs[0], jobs[1..]) && Separate(jobs[1..]))
  }

  predicate Clear(job: seq<Patch>, others: seq<seq<Patch>>) {
    forall other :: other in others ==> FilesOf(job) !! FilesOf(other)
  }

  predicate Sound(job: seq<Patch>) {
    Continuous(job) && forall c :: c in job ==> Valid(c)
  }

  predicate AllSound(jobs: seq<seq<Patch>>) {
    forall job :: job in jobs ==> Sound(job)
  }

  /** Every chain's files are exactly in one of its snapshots. */
  predicate Located(t: Tree, jobs: seq<seq<Patch>>) {
    forall job :: job in jobs ==> Latest(t, job).Some?
  }

  predicate AtEnd(t: Tree, jobs: seq<seq<Patch>>) {
    forall job :: job in jobs ==> Matches(t, SnapAt(job, |job|))
  }

  /** What the preflight of t leaves to do: the rest of every chain, chain after chain. */
  function Work(t: Tree, jobs: seq<seq<Patch>>): seq<Patch>
    requires Located(t, jobs)
  {
    if jobs == [] then [] else jobs[0][Latest(t, jobs[0]).value..] + Work(t, jobs[1..])
  }

  predicate Tracked(jobs: seq<seq<Patch>>, p: Loc) {
    exists job :: job in jobs && p in FilesOf(job)
  }

  /** What a completed run leaves at p. */
  function FinalAt(t: Tree, jobs: seq<seq<Patch>>, p: Loc): Option<Hash> {
    if jobs == [] then Look(t, p)
    else if p in FilesOf(jobs[0]) then
      SnapKeys(jobs[0], |jobs[0]|);
      SnapAt(jobs[0], |jobs[0]|)[p]
    else FinalAt(t, jobs[1..], p)
  }

  lemma TrackedCons(jobs: seq<seq<Patch>>, p: Loc)
    requires jobs != []
    ensures Tracked(jobs, p) <==> p in FilesOf(jobs[0]) || Tracked(jobs[1..], p)
  {
    assert jobs == [jobs[0]] + jobs[1..];
    if Tracked(jobs, p) {
      var job :| job in jobs && p in FilesOf(job);
      assert job == jobs[0] || job in jobs[1..];
    }
  }

  lemma {:induction false} LatestOf(t: Tree, job: seq<Patch>, k: nat)
    requires k <= |job| && Matches(t, SnapAt(job, k))
    ensures Latest(t, job).Some?
  {
  }

  lemma {:induction false} LocatedMeans(t: Tree, job: seq<Patch>)
    requires Latest(t, job).Some?
    ensures Latest(t, job).value <= |job| && Matches(t, SnapAt(job, Latest(t, job).value))
  {
  }

  /** Chains that keep their files keep their place. */
  lemma {:induction false} PlacesKept(t: Tree, t': Tree, jobs: seq<seq<Patch>>)
    requires forall p :: Tracked(jobs, p) ==> Look(t, p) == Look(t', p)
    ensures Located(t, jobs) == Located(t', jobs) && AtEnd(t, jobs) == AtEnd(t', jobs)
    ensures Located(t, jobs) ==> Work(t, jobs) == Work(t', jobs)
  {
    hide Latest, Matches, FilesOf;
    forall job | job in jobs
      ensures Latest(t, job) == Latest(t', job) && Matches(t, SnapAt(job, |job|)) == Matches(t', SnapAt(job, |job|))
    {
      MatchesByFiles(t, t', job);
    }
    if Located(t, jobs) && jobs != [] {
      forall p | Tracked(jobs[1..], p) ensures Tracked(jobs, p) {
        TrackedCons(jobs, p);
      }
      PlacesKept(t, t', jobs[1..]);
    }
  }

  lemma {:induction false} HeadApart(jobs: seq<seq<Patch>>, p: Loc)
    requires jobs != [] && Separate(jobs) && Tracked(jobs[1..], p)
    ensures p !in FilesOf(jobs[0])
  {
  }

  lemma {:induction false} LocatedCons(t: Tree, jobs: seq<seq<Patch>>)
    requires jobs != []
    ensures Located(t, jobs) <==> Latest(t, jobs[0]).Some? && Located(t, jobs[1..])
    ensures AtEnd(t, jobs) <==> Matches(t, SnapAt(jobs[0], |jobs[0]|)) && AtEnd(t, jobs[1..])
  {
    hide Latest, Matches, SnapAt;
    assert jobs == [jobs[0]] + jobs[1..];
  }

  /** A run of the first b components of the work: no refusal, every chain at one of its snapshots,
      every other file untouched. */
  lemma {:induction false} CutRun(t: Tree, jobs: seq<seq<Patch>>, b: nat)
    requires Separate(jobs) && AllSound(jobs) && Located(t, jobs) && b <= |Work(t, jobs)|
    ensures Run(t, Work(t, jobs)[..b]).Some?
    ensures Located(Run(t, Work(t, jobs)[..b]).value, jobs)
    ensures b == |Work(t, jobs)| ==> AtEnd(Run(t, Work(t, jobs)[..b]).value, jobs)
    ensures forall p :: !Tracked(jobs, p) ==> Look(Run(t, Work(t, jobs)[..b]).value, p) == Look(t, p)
    decreases |jobs|
  {
    hide Latest, Matches, SnapAt, FilesOf, Tracked, Separate, Located, AtEnd, Sound;
    if jobs == [] {
      assert Work(t, jobs)[..b] == [];
      EmptyPlaces(Run(t, Work(t, jobs)[..b]).value);
    } else {
      var job, rest := jobs[0], jobs[1..];
      LocatedCons(t, jobs);
      LocatedMeans(t, job);
      var s := Latest(t, job).value;
      var work := job[s..];
      if b < |work| {
        assert Work(t, jobs)[..b] == job[s..s + b];
        JobPart(t, jobs, s, s + b);
      } else {
        assert Work(t, jobs)[..b] == job[s..|job|] + Work(t, rest)[..b - |work|];
        JobPart(t, jobs, s, |job|);
        var t1 := Run(t, job[s..|job|]).value;
        RunConcat(t, job[s..|job|], Work(t, rest)[..b - |work|]);
        CutRest(t, t1, jobs, b - |work|);
        CutRun(t1, rest, b - |work|);
        AfterRest(t1, Run(t1, Work(t1, rest)[..b - |work|]).value, jobs);
        forall p | !Tracked(jobs, p) ensures Look(Run(t, Work(t, jobs)[..b]).value, p) == Look(t, p) {
          TrackedCons(jobs, p);
        }
      }
    }
  }

  lemma EmptyPlaces(t: Tree)
    ensures Located(t, []) && AtEnd(t, [])
  {
  }

  /** Running part of the first chain moves only the first chain, to a snapshot of its own. */
  lemma {:induction false} JobPart(t: Tree, jobs: seq<seq<Patch>>, a: nat, b: nat)
    requires jobs != [] && Separate(jobs) && AllSound(jobs) && Located(t, jobs)
    requires a <= b <= |jobs[0]| && Matches(t, SnapAt(jobs[0], a))
    ensures Run(t, jobs[0][a..b]).Some?
    ensures var t1 := Run(t, jobs[0][a..b]).value;
            && Located(t1, jobs)
            && Matches(t1, SnapAt(jobs[0], b))
            && (forall p :: Tracked(jobs[1..], p) ==> Look(t1, p) == Look(t, p))
            && (forall p :: !Tracked(jobs, p) ==> Look(t1, p) == Look(t, p))
  {
    hide Latest, Matches, SnapAt, FilesOf, Tracked, Separate, Located, Run, Continuous, Valid;
    var job := jobs[0];
    assert Sound(job);
    RunFromSnap(t, job, a, b);
    var t1 := Run(t, job[a..b]).value;
    forall p | Tracked(jobs[1..], p) ensures Look(t1, p) == Look(t, p) {
      HeadApart(jobs, p);
    }
    forall p | !Tracked(jobs, p) ensures Look(t1, p) == Look(t, p) {
      TrackedCons(jobs, p);
    }
    PlacesKept(t, t1, jobs[1..]);
    LatestOf(t1, job, b);
    LocatedCons(t, jobs);
    LocatedCons(t1, jobs);
  }

  lemma {:induction false} CutRest(t: Tree, t1: Tree, jobs: seq<seq<Patch>>, b: nat)
    requires jobs != [] && Separate(jobs) && AllSound(jobs) && Located(t, jobs) && Located(t1, jobs)
    requires forall p :: Tracked(jobs[1..], p) ==> Look(t1, p) == Look(t, p)
    ensures Separate(jobs[1..]) && AllSound(jobs[1..]) && Located(t, jobs[1..]) && Located(t1, jobs[1..])
    ensures Work(t1, jobs[1..]) == Work(t, jobs[1..])
  {
    hide Latest, Matches, SnapAt, FilesOf, Tracked, Located, Work, Sound;
    LocatedCons(t, jobs);
    LocatedCons(t1, jobs);
    PlacesKept(t, t1, jobs[1..]);
  }

  /** Running the other chains leaves the first one where it is. */
  lemma {:induction false} AfterRest(t1: Tree, t2: Tree, jobs: seq<seq<Patch>>)
    requires jobs != [] && Separate(jobs) && Matches(t1, SnapAt(jobs[0], |jobs[0]|))
    requires forall p :: !Tracked(jobs[1..], p) ==> Look(t2, p) == Look(t1, p)
    requires Located(t2, jobs[1..])
    ensures Located(t2, jobs)
    ensures AtEnd(t2, jobs[1..]) ==> AtEnd(t2, jobs)
  {
    hide Latest, Matches, SnapAt, FilesOf, Tracked, Located, AtEnd, Separate;
    forall p | p in FilesOf(jobs[0]) ensures Look(t1, p) == Look(t2, p) {
      if Tracked(jobs[1..], p) {
        HeadApart(jobs, p);
      }
    }
    MatchesByFiles(t1, t2, jobs[0]);
    LatestOf(t2, jobs[0], |jobs[0]|);
    LocatedCons(t2, jobs);
  }

  lemma {:induction false} AtEndLooks(t: Tree, t': Tree, jobs: seq<seq<Patch>>, p: Loc)
    requires AtEnd(t', jobs) && (!Tracked(jobs, p) ==> Look(t', p) == Look(t, p))
    ensures Look(t', p) == FinalAt(t, jobs, p)
  {
    if jobs != [] {
      TrackedCons(jobs, p);
      LocatedCons(t', jobs);
      SnapKeys(jobs[0], |jobs[0]|);
      if p !in FilesOf(jobs[0]) {
        AtEndLooks(t, t', jobs[1..], p);
      }
    }
  }

  lemma {:induction false} FinalAtByUntracked(t: Tree, t': Tree, jobs: seq<seq<Patch>>, p: Loc)
    requires !Tracked(jobs, p) ==> Look(t', p) == Look(t, p)
    ensures FinalAt(t, jobs, p) == FinalAt(t', jobs, p)
  {
    if jobs != [] {
      TrackedCons(jobs, p);
      if p !in FilesOf(jobs[0]) {
        FinalAtByUntracked(t, t', jobs[1..], p);
      }
    }
  }

  /** A completed run from anywhere: every file of every chain at its final hash, the rest untouched. */
  lemma {:induction false} FullRun(t: Tree, jobs: seq<seq<Patch>>)
    requires Separate(jobs) && AllSound(jobs) && Located(t, jobs)
    ensures Run(t, Work(t, jobs)).Some?
    ensures AtEnd(Run(t, Work(t, jobs)).value, jobs)
    ensures forall p :: Look(Run(t, Work(t, jobs)).value, p) == FinalAt(t, jobs, p)
  {
    hide Run, Look, Work, Tracked, AtEnd, FinalAt, Separate, AllSound, Located;
    var work := Work(t, jobs);
    CutRun(t, jobs, |work|);
    assert work[..|work|] == work;
    forall p ensures Look(Run(t, work).value, p) == FinalAt(t, jobs, p) {
      AtEndLooks(t, Run(t, work).value, jobs, p);
    }
  }

  /** A rerun finds nothing to apply. */
  lemma {:induction false} RerunAppliesNothing(t: Tree, jobs: seq<seq<Patch>>)
    requires AtEnd(t, jobs)
    ensures Located(t, jobs) && Work(t, jobs) == []
  {
    if jobs != [] {
      LocatedCons(t, jobs);
      FinalIsLatest(t, jobs[0]);
      RerunAppliesNothing(t, jobs[1..]);
    }
  }

  /** The tree after runs stopped after cuts[0], cuts[1], … components, each starting afresh. */
  function AfterCuts(t: Tree, jobs: seq<seq<Patch>>, cuts: seq<nat>): Option<Tree>
    decreases |cuts|
  {
    if cuts == [] then Some(t)
    else if !Located(t, jobs) then None
    else
      var work := Work(t, jobs);
      var b := if cuts[0] < |work| then cuts[0] else |work|;
      var t' := Run(t, work[..b]);
      if t'.None? then None else AfterCuts(t'.value, jobs, cuts[1..])
  }

  /** Main result: stopped any number of times anywhere between components, a run is never refused and
      the last one reaches the very tree the first would have reached. */
  lemma {:induction false} ResumedRunsConverge(t: Tree, jobs: seq<seq<Patch>>, cuts: seq<nat>)
    requires Separate(jobs) && AllSound(jobs) && Located(t, jobs)
    ensures AfterCuts(t, jobs, cuts).Some?
    ensures var stopped := AfterCuts(t, jobs, cuts).value;
            Located(stopped, jobs) && Run(stopped, Work(stopped, jobs)) == Run(t, Work(t, jobs))
    decreases |cuts|
  {
    hide Run, Work, Tracked, AtEnd, FinalAt, Separate, AllSound, Located;
    if cuts != [] {
      var work := Work(t, jobs);
      var b := if cuts[0] < |work| then cuts[0] else |work|;
      CutRun(t, jobs, b);
      var t' := Run(t, work[..b]).value;
      ResumedRunsConverge(t', jobs, cuts[1..]);
      FullRun(t, jobs);
      FullRun(t', jobs);
      forall p ensures Look(Run(t, work).value, p) == Look(Run(t', Work(t', jobs)).value, p) {
        FinalAtByUntracked(t, t', jobs, p);
      }
      SameLooks(Run(t, work).value, Run(t', Work(t', jobs)).value);
    }
  }
}
