/**
The installer's steps on a mutable directory tree (scripts/apply_field_review_patches.py: state_for,
apply_component_at_root, component_snapshots, snapshot_index, preflight_components, main). A run may be
killed before any component; `budget` is how many it gets to apply.
*/
module PatchInstaller {
  import opened Options
  import opened Patches
  import opened Chains
  import opened ChainPlanner
  import opened Snapshots
  import opened PatchRuns
  import opened PatchPlans
  import opened InstalledFiles

  datatype Outcome = Malformed | Refused | Failed | Killed | Done

  datatype Plan = Plan(ordered: seq<Patch>, start: nat)

  // ------------------------------------------------------------------ snapshots

  /** The first component that touches a file gives its initial hash. */
  method SetDefaults(initial0: Snap, c: Patch) returns (initial: Snap)
    ensures initial == Befores(c) + initial0
  {
    var rels := c.files.Keys;
    initial := initial0;
    while rels != {}
      invariant rels <= c.files.Keys
      invariant initial.Keys == initial0.Keys + (c.files.Keys - rels)
      invariant forall p :: p in initial ==> initial[p] == if p in initial0 then initial0[p] else c.files[p].before
      decreases |rels|
    {
      var rel :| rel in rels;
      if rel !in initial {
        initial := initial[rel := c.files[rel].before];
      }
      rels := rels - {rel};
    }
  }

  method InitialSnapshot(ordered: seq<Patch>) returns (initial: Snap)
    ensures initial == Initial(ordered)
  {
    hide Befores;
    initial := map[];
    for i := 0 to |ordered|
      invariant initial == Initial(ordered[..i])
    {
      assert ordered[..i + 1][..i] == ordered[..i];
      initial := SetDefaults(initial, ordered[i]);
    }
    assert ordered[..|ordered|] == ordered;
  }

  method CheckFollows(current: Snap, c: Patch) returns (follows: bool)
    requires c.files.Keys <= current.Keys
    ensures follows <==> Follows(current, c)
  {
    var rels := c.files.Keys;
    follows := true;
    while rels != {} && follows
      invariant rels <= c.files.Keys
      invariant follows <==> forall p :: p in c.files.Keys - rels ==> current[p] == c.files[p].before
      decreases |rels|
    {
      var rel :| rel in rels;
      if current[rel] != c.files[rel].before {
        follows := false;
      }
      rels := rels - {rel};
    }
  }

  method Advance(current: Snap, c: Patch) returns (next: Snap)
    ensures next == current + Afters(c)
  {
    var rels := c.files.Keys;
    next := current;
    while rels != {}
      invariant rels <= c.files.Keys
      invariant next.Keys == current.Keys + (c.files.Keys - rels)
      invariant forall p :: p in next ==>
                  next[p] == if p in c.files && p !in rels then c.files[p].after else current[p]
      decreases |rels|
    {
      var rel :| rel in rels;
      next := next[rel := c.files[rel].after];
      rels := rels - {rel};
    }
  }

  /** The snapshots of a chain; None is the discontinuity error. */
  method ComponentSnapshots(ordered: seq<Patch>) returns (r: Option<seq<Snap>>)
    ensures r.Some? <==> Continuous(ordered)
    ensures r.Some? ==> |r.value| == |ordered| + 1 && forall k :: 0 <= k <= |ordered| ==> r.value[k] == SnapAt(ordered, k)
  {
    hide SnapAt, Follows, Afters, FilesOf;
    var current := InitialSnapshot(ordered);
    FirstSnap(ordered);
    var snapshots := [current];
    for i := 0 to |ordered|
      invariant |snapshots| == i + 1 && current == SnapAt(ordered, i)
      invariant forall k :: 0 <= k <= i ==> snapshots[k] == SnapAt(ordered, k)
      invariant forall k :: 0 <= k < i ==> Follows(SnapAt(ordered, k), ordered[k])
    {
      SnapKeys(ordered, i);
      FilesIn(ordered, i);
      var follows := CheckFollows(current, ordered[i]);
      if !follows {
        return None;
      }
      current := Advance(current, ordered[i]);
      NextSnap(ordered, i);
      snapshots := snapshots + [current];
    }
    r := Some(snapshots);
  }

  lemma {:induction false} FirstSnap(ordered: seq<Patch>)
    ensures SnapAt(ordered, 0) == Initial(ordered)
  {
  }

  lemma NextSnap(ordered: seq<Patch>, k: nat)
    requires k < |ordered|
    ensures SnapAt(ordered, k + 1) == SnapAt(ordered, k) + Afters(ordered[k])
  {
  }

  method ExactState(tree: Tree, snapshot: Snap) returns (exact: bool)
    ensures exact <==> Matches(tree, snapshot)
  {
    var rels := snapshot.Keys;
    exact := true;
    while rels != {}
      invariant rels <= snapshot.Keys
      invariant exact <==> forall p :: p in snapshot.Keys - rels ==> Look(tree, p) == snapshot[p]
      decreases |rels|
    {
      var rel :| rel in rels;
      exact := exact && Look(tree, rel) == snapshot[rel];
      rels := rels - {rel};
    }
  }

  /** The last of the snapshots the files are exactly in; None is the refusal. */
  method SnapshotIndex(tree: Tree, ghost ordered: seq<Patch>, snapshots: seq<Snap>) returns (index: Option<nat>)
    requires |snapshots| == |ordered| + 1 && forall k :: 0 <= k <= |ordered| ==> snapshots[k] == SnapAt(ordered, k)
    ensures index == Latest(tree, ordered)
  {
    hide Matches, SnapAt;
    index := None;
    for k := 0 to |snapshots|
      invariant k > 0 ==> index == LatestBelow(tree, ordered, k - 1)
      invariant k == 0 ==> index == None
    {
      var exact := ExactState(tree, snapshots[k]);
      if exact {
        index := Some(k);
      }
    }
  }

  // ------------------------------------------------------------------ directories

  class Directory {
    var files: Tree

    constructor (files: Tree)
      ensures this.files == files
    {
      this.files := files;
    }

    method StateFor(c: Patch) returns (allBefore: bool, allAfter: bool)
      ensures allBefore == AllBefore(files, c) && allAfter == AllAfter(files, c)
    {
      var rels := c.files.Keys;
      allBefore, allAfter := true, true;
      while rels != {}
        invariant rels <= c.files.Keys
        invariant allBefore <==> forall p :: p in c.files.Keys - rels ==> Look(files, p) == c.files[p].before
        invariant allAfter <==> forall p :: p in c.files.Keys - rels ==> Look(files, p) == c.files[p].after
        decreases |rels|
      {
        var rel :| rel in rels;
        allBefore := allBefore && Look(files, rel) == c.files[rel].before;
        allAfter := allAfter && Look(files, rel) == c.files[rel].after;
        rels := rels - {rel};
      }
    }

    method ApplyComponent(c: Patch) returns (ok: bool)
      modifies this
      ensures ok == ApplyOne(old(files), c).Some?
      ensures files == if ok then ApplyOne(old(files), c).value else old(files)
    {
      var allBefore, allAfter := StateFor(c);
      if allAfter {
        return true;
      }
      if !allBefore {
        return false;
      }
      files := Patched(files, c);
      ok := true;
    }

    /** One chain's components from start on, stopping before the first the budget does not cover. */
    method ApplyChain(ordered: seq<Patch>, start: nat, budget: nat) returns (ok: bool, left: nat, killed: bool)
      requires start <= |ordered|
      requires Run(files, ordered[start..start + Least(budget, |ordered| - start)]).Some?
      modifies this
      ensures var n := Least(budget, |ordered| - start);
              && ok && left == budget - n && killed == (n < |ordered| - start)
              && files == Run(old(files), ordered[start..start + n]).value
    {
      hide ApplyOne;
      ghost var n := Least(budget, |ordered| - start);
      left := budget;
      var k := start;
      while k < |ordered|
        invariant start <= k <= start + n && left == budget - (k - start)
        invariant Run(files, ordered[k..start + n]) == Run(old(files), ordered[start..start + n])
      {
        if left == 0 {
          assert ordered[k..start + n] == [];
          return true, 0, true;
        }
        assert ordered[k..start + n][1..] == ordered[k + 1..start + n];
        var applied := ApplyComponent(ordered[k]);
        if !applied {
          assert false;
          return false, left, false;
        }
        left, k := left - 1, k + 1;
      }
      assert ordered[k..start + n] == [];
      return true, left, false;
    }
  }

  function Least(a: nat, b: nat): nat {
    if a < b then a else b
  }

  // ------------------------------------------------------------------ preflight

  lemma {:induction false} ScratchPlace(t: Tree, ordered: seq<Patch>, scratch: Tree)
    requires Latest(t, ordered).Some? && forall p :: p in FilesOf(ordered) ==> Look(scratch, p) == Look(t, p)
    ensures Matches(scratch, SnapAt(ordered, Latest(t, ordered).value))
  {
    hide Matches;
    MatchesByFiles(t, scratch, ordered);
  }

  /** The dry run of one plan on a copy of the chain's files: it never fails. */
  method DryRun(tree: Tree, plan: Plan) returns (ok: bool)
    requires Sound(plan.ordered) && Latest(tree, plan.ordered) == Some(plan.start)
    ensures ok
  {
    hide Latest, SnapAt, Run, Matches;
    var ordered, start := plan.ordered, plan.start;
    LocatedMeans(tree, ordered);
    var snapshots := ComponentSnapshots(ordered);
    SnapKeys(ordered, 0);
    var copied := map p | p in snapshots.value[0] && p in tree :: tree[p];
    var scratch := new Directory(copied);
    ScratchPlace(tree, ordered, scratch.files);
    RunFromSnap(scratch.files, ordered, start, |ordered|);
    var left, killed;
    ok, left, killed := scratch.ApplyChain(ordered, start, |ordered|);
  }

  ghost predicate PlansFor(tree: Tree, jobs: seq<seq<Patch>>, plans: seq<Plan>) {
    |plans| == |jobs| &&
    forall i :: 0 <= i < |jobs| ==> plans[i].ordered == jobs[i] && Latest(tree, jobs[i]) == Some(plans[i].start)
  }

  /** The chains of one target located in the tree, appended to the plans found so far. */
  method LocateChains(tree: Tree, chains: seq<seq<Item>>, plans0: seq<Plan>, ghost jobs0: seq<seq<Patch>>)
    returns (ok: bool, plans: seq<Plan>)
    requires forall job :: job in JobsOf(chains) ==> Continuous(job)
    ensures ok <==> PatchRuns.Located(tree, JobsOf(chains))
    ensures ok && PlansFor(tree, jobs0, plans0) ==> PlansFor(tree, jobs0 + JobsOf(chains), plans)
  {
    hide Latest, Continuous, SnapAt;
    ok, plans := true, plans0;
    for i := 0 to |chains|
      invariant ok <==> forall j :: 0 <= j < i ==> Latest(tree, PatchesOf(chains[j])).Some?
      invariant ok && PlansFor(tree, jobs0, plans0) ==> PlansFor(tree, jobs0 + JobsOf(chains[..i]), plans)
    {
      var ordered := PatchesOf(chains[i]);
      assert JobsOf(chains)[i] in JobsOf(chains);
      var snapshots := ComponentSnapshots(ordered);
      var start := SnapshotIndex(tree, ordered, snapshots.value);
      assert JobsOf(chains[..i + 1]) == JobsOf(chains[..i]) + [ordered];
      if start.None? {
        ok := false;
      } else {
        plans := plans + [Plan(ordered, start.value)];
      }
    }
    assert chains[..|chains|] == chains;
    LocatedByIndex(tree, chains);
  }

  lemma LocatedByIndex(tree: Tree, chains: seq<seq<Item>>)
    ensures PatchRuns.Located(tree, JobsOf(chains)) <==>
            forall j :: 0 <= j < |chains| ==> Latest(tree, PatchesOf(chains[j])).Some?
  {
    hide Latest;
    if PatchRuns.Located(tree, JobsOf(chains)) {
      forall j | 0 <= j < |chains| ensures Latest(tree, PatchesOf(chains[j])).Some? {
        assert JobsOf(chains)[j] in JobsOf(chains);
      }
    }
  }

  /** The failures of every target and chain are collected first; only a clean preflight is dry-run. */
  method Preflight(tree: Tree, components: seq<Component>, roots: set<Target>) returns (ok: bool, plans: seq<Plan>)
    requires ManifestOk(components)
    ensures ok <==> Ready(tree, components, roots)
    ensures ok ==> PlansFor(tree, Jobs(components), plans)
  {
    hide Continuous, TargetJobs, Latest, ComponentOk, ManifestOk, Sound;
    ok, plans := true, [];
    for n := 0 to |TARGETS|
      invariant ok <==> PreflightUpTo(tree, components, roots, n)
      invariant ok ==> PlansFor(tree, JobsUpTo(components, n), plans)
    {
      var target := TARGETS[n];
      var chains := TargetComponentChains(components, target);
      ChainsAreJobs(components, target, chains);
      if chains != [] {
        if target !in roots {
          ok := false;
        } else {
          ManifestContinuous(components, n);
          var located, more := LocateChains(tree, chains, plans, JobsUpTo(components, n));
          ok, plans := ok && located, more;
        }
      } else {
        assert JobsUpTo(components, n + 1) == JobsUpTo(components, n);
      }
    }
    PreflightReady(tree, components, roots);
    if !ok {
      return;
    }
    ManifestSound(components);
    for i := 0 to |plans|
    {
      assert Jobs(components)[i] in Jobs(components);
      var passed := DryRun(tree, plans[i]);
      if !passed {
        assert false;
        return false, [];
      }
    }
  }

  lemma {:induction false} ChainsAreJobs(components: seq<Component>, target: Target, chains: seq<seq<Item>>)
    requires chains == ChainsOf(TargetItems(components, target))
    ensures TargetJobs(components, target) == JobsOf(chains)
  {
  }

  lemma ManifestContinuous(components: seq<Component>, n: nat)
    requires ManifestOk(components) && n < |TARGETS|
    ensures forall job :: job in TargetJobs(components, TARGETS[n]) ==> Continuous(job)
  {
    hide Continuous, TargetJobs;
    forall job | job in TargetJobs(components, TARGETS[n]) ensures Continuous(job) {
      JobsGrow(components, n, |TARGETS|, job);
    }
  }

  ghost predicate PreflightUpTo(tree: Tree, components: seq<Component>, roots: set<Target>, n: nat)
    requires n <= |TARGETS|
  {
    forall k :: 0 <= k < n ==> TargetReady(tree, components, roots, TARGETS[k])
  }

  ghost predicate TargetReady(tree: Tree, components: seq<Component>, roots: set<Target>, target: Target) {
    var jobs := TargetJobs(components, target);
    jobs != [] ==> target in roots && PatchRuns.Located(tree, jobs)
  }

  lemma PreflightReady(tree: Tree, components: seq<Component>, roots: set<Target>)
    ensures PreflightUpTo(tree, components, roots, |TARGETS|) <==> Ready(tree, components, roots)
  {
    hide TargetJobs, Latest;
    if PreflightUpTo(tree, components, roots, |TARGETS|) {
      forall target | target in TARGETS ensures TargetReady(tree, components, roots, target) {
        var k :| 0 <= k < |TARGETS| && TARGETS[k] == target;
      }
      forall job | job in Jobs(components) ensures Latest(tree, job).Some? {
        JobsTargets(components, |TARGETS|, job);
        var k :| 0 <= k < |TARGETS| && job in TargetJobs(components, TARGETS[k]);
        assert TARGETS[k] in TARGETS;
      }
    }
    if Ready(tree, components, roots) {
      forall k | 0 <= k < |TARGETS| ensures TargetReady(tree, components, roots, TARGETS[k]) {
        assert TARGETS[k] in TARGETS;
        forall job | job in TargetJobs(components, TARGETS[k]) ensures Latest(tree, job).Some? {
          JobsGrow(components, k, |TARGETS|, job);
        }
      }
    }
  }

  // ------------------------------------------------------------------ main

  /** Every component is checked, then the snapshots of every chain of every target. */
  method ValidateManifest(components: seq<Component>) returns (ok: bool)
    ensures ok <==> ManifestOk(components)
  {
    hide Continuous, TargetJobs, ComponentOk;
    if components == [] {
      return false;
    }
    for i := 0 to |components|
      invariant forall c :: c in components[..i] ==> ComponentOk(c)
    {
      if !ComponentOk(components[i]) {
        assert components[i] in components;
        return false;
      }
    }
    assert components[..|components|] == components;
    for n := 0 to |TARGETS|
      invariant forall job :: job in JobsUpTo(components, n) ==> Continuous(job)
    {
      var chains := TargetComponentChains(components, TARGETS[n]);
      ChainsAreJobs(components, TARGETS[n], chains);
      for i := 0 to |chains|
        invariant forall j :: 0 <= j < i ==> Continuous(JobsOf(chains)[j])
      {
        var snapshots := ComponentSnapshots(PatchesOf(chains[i]));
        if snapshots.None? {
          assert JobsOf(chains)[i] in JobsOf(chains);
          JobsGrow(components, n, |TARGETS|, JobsOf(chains)[i]);
          return false;
        }
      }
    }
    ok := true;
  }

  lemma {:induction false} WorkStep(t: Tree, jobs: seq<seq<Patch>>, i: nat)
    requires PatchRuns.Located(t, jobs) && i < |jobs|
    ensures PatchRuns.Located(t, jobs[i..]) && PatchRuns.Located(t, jobs[i + 1..])
    ensures jobs[i] in jobs && Latest(t, jobs[i]).Some? && Latest(t, jobs[i]).value <= |jobs[i]|
    ensures Work(t, jobs[i..]) == jobs[i][Latest(t, jobs[i]).value..] + Work(t, jobs[i + 1..])
  {
    hide Latest;
    assert jobs[i..][1..] == jobs[i + 1..];
    LocatedMeans(t, jobs[i]);
  }

  /** What the first b components of a chain and the chains after it do, chain first. */
  lemma {:induction false} SplitBudget(t: Tree, first: seq<Patch>, rest: seq<Patch>, left: nat)
    requires Run(t, (first + rest)[..Least(left, |first + rest|)]).Some?
    ensures Run(t, first[..Least(left, |first|)]).Some?
    ensures left >= |first| ==>
              Run(t, first).Some? &&
              Run(Run(t, first).value, rest[..Least(left - |first|, |rest|)]) ==
              Run(t, (first + rest)[..Least(left, |first + rest|)])
    ensures left < |first| ==>
              Run(t, first[..left]) == Run(t, (first + rest)[..Least(left, |first + rest|)])
  {
    hide Run;
    if left < |first| {
      assert (first + rest)[..left] == first[..left];
    } else {
      var b := Least(left - |first|, |rest|);
      assert (first + rest)[..Least(left, |first + rest|)] == first + rest[..b];
      assert first[..|first|] == first;
      RunConcat(t, first, rest[..b]);
    }
  }

  /** Refused before any mutation exactly when the manifest or some chain's place is bad; otherwise every
      component the budget covers is applied, none is refused, and the rest is left for the next run. */
  method Install(disk: Directory, components: seq<Component>, roots: set<Target>, budget: nat) returns (o: Outcome)
    modifies disk
    ensures o == if !ManifestOk(components) then Malformed
                 else if !Ready(old(disk.files), components, roots) then Refused
                 else if budget < |Work(old(disk.files), Jobs(components))| then Killed
                 else Done
    ensures o in {Malformed, Refused} ==> disk.files == old(disk.files)
    ensures o in {Killed, Done} ==>
              var work := Work(old(disk.files), Jobs(components));
              Run(old(disk.files), work[..Least(budget, |work|)]) == Some(disk.files)
    ensures o in {Killed, Done} ==> AfterCuts(old(disk.files), Jobs(components), [budget]) == Some(disk.files)
    ensures o == Malformed <==>
            components == [] || (exists c :: c in components && !WellMade(c)) || !HandsOver(components)
    ensures o in {Killed, Done} ==> HasRoots(components, roots)
    ensures o == Killed ==> UnderWay(components, old(disk.files), disk.files)
    ensures o == Done ==> Installed(components, old(disk.files), disk.files)
    ensures o == Done && AtBase(old(disk.files), Jobs(components)) ==>
              Run(old(disk.files), ManifestOrder(components)) == Some(disk.files)
  {
    hide ManifestOk, Run, Latest, Jobs, Rooted, Work, Sound, AtBase, ManifestOrder, AfterCuts, Installed, UnderWay, HasRoots, WellMade,
      HandsOver;
    AcceptedIff(components);
    RootedIff(components, roots);
    var valid := ValidateManifest(components);
    if !valid {
      return Malformed;
    }
    var ready, plans := Preflight(disk.files, components, roots);
    if !ready {
      return Refused;
    }
    ghost var t, jobs := disk.files, Jobs(components);
    ghost var work := Work(t, jobs);
    ManifestSound(components);
    CutRun(t, jobs, Least(budget, |work|));
    StoppedRunIsOnItsWay(t, components, Least(budget, |work|));
    OneCut(t, jobs, budget);
    FullRunInstalls(t, components);
    var left := budget;
    assert jobs[0..] == jobs;
    for i := 0 to |plans|
      invariant PatchRuns.Located(t, jobs[i..])
      invariant |Work(t, jobs[i..])| - left == |work| - budget
      invariant Run(disk.files, Work(t, jobs[i..])[..Least(left, |Work(t, jobs[i..])|)]) ==
                Run(t, work[..Least(budget, |work|)])
    {
      WorkStep(t, jobs, i);
      var ordered, start := plans[i].ordered, plans[i].start;
      assert ordered == jobs[i] && Latest(t, jobs[i]) == Some(start);
      ghost var first, rest := ordered[start..], Work(t, jobs[i + 1..]);
      SplitBudget(disk.files, first, rest, left);
      ghost var n := Least(left, |first|);
      assert ordered[start..start + n] == first[..n];
      var ok, remaining, killed := disk.ApplyChain(ordered, start, left);
      if killed {
        return Killed;
      }
      assert first[..n] == first;
      left := remaining;
    }
    NoWork(t, jobs[|plans|..]);
    AllRun(disk.files);
    assert work[..|work|] == work;
    if AtBase(t, jobs) {
      InstallRunsManifestOrder(t, components, roots, []);
    }
    o := Done;
  }

  /** One installation is one stopped run. */
  lemma {:induction false} OneCut(t: Tree, jobs: seq<seq<Patch>>, budget: nat)
    requires PatchRuns.Located(t, jobs)
    ensures AfterCuts(t, jobs, [budget]) == Run(t, Work(t, jobs)[..Least(budget, |Work(t, jobs)|)])
  {
    hide Run, Work;
    assert [budget][1..] == [];
    var t' := Run(t, Work(t, jobs)[..Least(budget, |Work(t, jobs)|)]);
    assert t'.Some? ==> AfterCuts(t'.value, jobs, []) == Some(t'.value);
  }

  lemma {:induction false} NoWork(t: Tree, jobs: seq<seq<Patch>>)
    requires jobs == []
    ensures PatchRuns.Located(t, jobs) && Work(t, jobs) == []
  {
  }

  lemma {:induction false} AllRun(t: Tree)
    ensures Run(t, []) == Some(t)
  {
  }

  /** Main result: after any number of killed runs the manifest is still accepted, and one full run
      reaches the tree an undisturbed run would have reached; a run after that has nothing to apply. */
  lemma {:induction false} InstallIsResumable(t: Tree, components: seq<Component>, roots: set<Target>, cuts: seq<nat>)
    requires ManifestOk(components) && Ready(t, components, roots)
    ensures var jobs := Jobs(components);
            && AfterCuts(t, jobs, cuts).Some?
            && Ready(AfterCuts(t, jobs, cuts).value, components, roots)
            && (var stopped := AfterCuts(t, jobs, cuts).value;
                Run(stopped, Work(stopped, jobs)) == Run(t, Work(t, jobs)))
            && Run(t, Work(t, jobs)).Some?
            && (var done := Run(t, Work(t, jobs)).value;
                Ready(done, components, roots) && Work(done, jobs) == [])
  {
    hide Run, Work, Jobs, ManifestOk, Rooted, Latest, AtEnd;
    var jobs := Jobs(components);
    ManifestSound(components);
    ResumedRunsConverge(t, jobs, cuts);
    FullRun(t, jobs);
    RerunAppliesNothing(Run(t, Work(t, jobs)).value, jobs);
  }

  // ------------------------------------------------------------------ the manifest order

  /** Every target's components in manifest order, target after target. */
  function ManifestUpTo(components: seq<Component>, n: nat): seq<Patch>
    requires n <= |TARGETS|
  {
    if n == 0 then [] else ManifestUpTo(components, n - 1) + PatchesOf(TargetItems(components, TARGETS[n - 1]))
  }

  function ManifestOrder(components: seq<Component>): seq<Patch> {
    ManifestUpTo(components, |TARGETS|)
  }

  /** No chain has begun: its initial snapshot is the latest its files are in. */
  predicate AtBase(t: Tree, jobs: seq<seq<Patch>>) {
    forall job :: job in jobs ==> Latest(t, job) == Some(0)
  }

  lemma {:induction false} BaseWork(t: Tree, jobs: seq<seq<Patch>>)
    requires AtBase(t, jobs)
    ensures PatchRuns.Located(t, jobs) && Work(t, jobs) == Flatten(jobs)
  {
    hide Latest;
    if jobs != [] {
      assert jobs[0] in jobs;
      assert forall job :: job in jobs[1..] ==> job in jobs;
      BaseWork(t, jobs[1..]);
      assert jobs[0][0..] == jobs[0];
    }
  }

  lemma {:induction false} FlattenConcat<T>(a: seq<seq<T>>, b: seq<seq<T>>)
    ensures Flatten(a + b) == Flatten(a) + Flatten(b)
  {
    if a == [] {
      assert a + b == b;
    } else {
      FlattenConcat(a[1..], b);
      assert (a + b)[1..] == a[1..] + b;
    }
  }

  lemma {:induction false} JobsFlatten(chains: seq<seq<Item>>)
    ensures Flatten(JobsOf(chains)) == PatchesOf(Flatten(chains))
  {
    if chains == [] {
      assert JobsOf(chains) == [] && PatchesOf(Flatten(chains)) == [];
    } else {
      JobsFlatten(chains[1..]);
      assert JobsOf(chains)[1..] == JobsOf(chains[1..]);
      PatchesConcat(chains[0], Flatten(chains[1..]));
    }
  }

  lemma {:induction false} JobsLikeManifest(components: seq<Component>, n: nat, t: Tree)
    requires n <= |TARGETS|
    ensures Run(t, Flatten(JobsUpTo(components, n))) == Run(t, ManifestUpTo(components, n))
  {
    hide Run, ChainsOf, TargetItems;
    if n > 0 {
      var target := TARGETS[n - 1];
      var items := TargetItems(components, target);
      var done, next := JobsUpTo(components, n - 1), TargetJobs(components, target);
      JobsLikeManifest(components, n - 1, t);
      FlattenConcat(done, next);
      RunConcat(t, Flatten(done), Flatten(next));
      RunConcat(t, ManifestUpTo(components, n - 1), PatchesOf(items));
      JobsFlatten(ChainsOf(items));
      TargetItemsIncreasing(components, target);
      if Run(t, Flatten(done)).Some? {
        ChainsRunLikeManifest(items, Run(t, Flatten(done)).value);
      }
    }
  }

  /** Main result: an undisturbed install from the base tree leaves the tree that the components leave in manifest
      order, target after target; and so does one that was killed any number of times on the way. */
  lemma {:induction false} InstallRunsManifestOrder(t: Tree, components: seq<Component>, roots: set<Target>, cuts: seq<nat>)
    requires ManifestOk(components) && Rooted(components, roots) && AtBase(t, Jobs(components))
    ensures Ready(t, components, roots)
    ensures Run(t, Work(t, Jobs(components))) == Run(t, ManifestOrder(components))
    ensures Run(t, ManifestOrder(components)).Some?
    ensures var jobs := Jobs(components);
            && AfterCuts(t, jobs, cuts).Some? && Ready(AfterCuts(t, jobs, cuts).value, components, roots)
            && var stopped := AfterCuts(t, jobs, cuts).value;
               Run(stopped, Work(stopped, jobs)) == Run(t, ManifestOrder(components))
  {
    hide Run, Jobs, JobsUpTo, ManifestUpTo, ManifestOk, Rooted, Latest, Work;
    var jobs := Jobs(components);
    BaseWork(t, jobs);
    JobsAreUpTo(components);
    JobsLikeManifest(components, |TARGETS|, t);
    InstallIsResumable(t, components, roots, cuts);
  }

  lemma {:induction false} JobsAreUpTo(components: seq<Component>)
    ensures Jobs(components) == JobsUpTo(components, |TARGETS|)
  {
  }
}
