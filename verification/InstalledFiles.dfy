/**
What a manifest asks for, file by file and without its chains: which component decides a file's content, when
a manifest hangs together, and what a completed or stopped installation leaves
(scripts/apply_field_review_patches.py: component_snapshots, preflight_components, main).
*/
module InstalledFiles {
  import opened Options
  import opened Patches
  import opened Chains
  import opened ChainPlanner
  import opened Snapshots
  import opened PatchRuns
  import opened PatchPlans

  /** The component changes this file. */
  predicate Names(c: Component, p: Loc) {
    p.target in c.targets && p.rel in c.files
  }

  predicate LastToName(components: seq<Component>, k: int, p: Loc) {
    0 <= k < |components| && Names(components[k], p) && forall j :: k < j < |components| ==> !Names(components[j], p)
  }

  predicate FirstToName(components: seq<Component>, k: int, p: Loc) {
    0 <= k < |components| && Names(components[k], p) && forall j :: 0 <= j < k ==> !Names(components[j], p)
  }

  /** j is the last component before k to change this file. */
  predicate LastBefore(components: seq<Component>, j: int, k: int, p: Loc) {
    && 0 <= j < k < |components| && Names(components[j], p) && Names(components[k], p)
    && forall i :: j < i < k ==> !Names(components[i], p)
  }

  predicate Named(components: seq<Component>, p: Loc) {
    exists k :: 0 <= k < |components| && Names(components[k], p)
  }

  /** Every file of every component is, at every target the component lists, what the last component to change it
      makes of it, and no other file has changed. */
  ghost predicate Installed(components: seq<Component>, before: Tree, after: Tree) {
    && (forall k, p :: LastToName(components, k, p) ==> Look(after, p) == components[k].files[p.rel].after)
    && (forall p :: !Named(components, p) ==> Look(after, p) == Look(before, p))
  }

  /** No component has touched any file yet. */
  ghost predicate Unbegun(components: seq<Component>, t: Tree) {
    forall k, p :: FirstToName(components, k, p) ==> Look(t, p) == components[k].files[p.rel].before
  }

  /** A file is as its first component wants to find it, or as one of its components leaves it. */
  ghost predicate OnItsWay(components: seq<Component>, t: Tree, p: Loc) {
    || (exists k :: FirstToName(components, k, p) && Look(t, p) == components[k].files[p.rel].before)
    || (exists k :: 0 <= k < |components| && Names(components[k], p) && Look(t, p) == components[k].files[p.rel].after)
  }

  /** Every file some component changes is on its way, and no other file has changed. */
  ghost predicate UnderWay(components: seq<Component>, before: Tree, after: Tree) {
    forall p :: if Named(components, p) then OnItsWay(components, after, p) else Look(after, p) == Look(before, p)
  }

  /** Every component finds a file as the component before it left it. */
  ghost predicate HandsOver(components: seq<Component>) {
    forall j, k, p :: LastBefore(components, j, k, p) ==>
      components[j].files[p.rel].after == components[k].files[p.rel].before
  }

  // ------------------------------------------------------------------ positions in a chain

  lemma LocatedFiles(c: Component, p: Loc, target: Target)
    ensures p in ChainPlanner.Located(c, target).files <==> p.target == target && p.rel in c.files
    ensures p.target == target && p.rel in c.files ==> ChainPlanner.Located(c, target).files[p] == c.files[p.rel]
  {
    var files := ChainPlanner.Located(c, target).files;
    if p in files {
      var rel :| rel in c.files && p == Loc(target, rel);
    }
    if p.target == target && p.rel in c.files {
      assert p == Loc(target, p.rel);
    }
  }

  lemma {:induction false} ItemOf(components: seq<Component>, target: Target, k: nat)
    requires k < |components| && target in components[k].targets
    ensures Item(k, ChainPlanner.Located(components[k], target)) in TargetItems(components, target)
  {
    if k < |components| - 1 {
      ItemOf(components[..|components| - 1], target, k);
    }
  }

  /** One chain of a target, with what its elements are. */
  ghost predicate ChainOf(components: seq<Component>, target: Target, chain: seq<Item>) {
    chain in ChainsOf(TargetItems(components, target))
  }

  lemma {:induction false} ElementOf(components: seq<Component>, target: Target, chain: seq<Item>, i: nat)
    requires ChainOf(components, target, chain) && i < |chain|
    ensures chain[i].at < |components| && target in components[chain[i].at].targets
    ensures chain[i].patch == ChainPlanner.Located(components[chain[i].at], target)
    ensures forall p :: p in chain[i].patch.files ==>
              p.target == target && Names(components[chain[i].at], p) &&
              chain[i].patch.files[p] == components[chain[i].at].files[p.rel]
  {
    var items := TargetItems(components, target);
    FlattenMember(ChainsOf(items), chain, chain[i]);
    PartitionMembers(items, chain[i]);
    TargetItemsIncreasing(components, target);
    forall p | p in chain[i].patch.files
      ensures p.target == target && Names(components[chain[i].at], p)
      ensures chain[i].patch.files[p] == components[chain[i].at].files[p.rel]
    {
      LocatedFiles(components[chain[i].at], p, target);
    }
  }

  lemma {:induction false} Ordered(chain: seq<Item>, i: nat, j: nat, p: Loc)
    requires InOrder(chain) && i < j < |chain| && p in chain[i].patch.files && p in chain[j].patch.files
    ensures chain[i].at < chain[j].at
  {
    if i == 0 {
      assert chain[1..][j - 1] == chain[j];
      assert p in chain[0].patch.files.Keys * chain[j].patch.files.Keys;
    } else {
      Ordered(chain[1..], i - 1, j - 1, p);
    }
  }

  lemma {:induction false} OrderedOf(components: seq<Component>, target: Target, chain: seq<Item>)
    requires ChainOf(components, target, chain)
    ensures InOrder(chain)
  {
    TargetItemsIncreasing(components, target);
    ChainsInOrder(TargetItems(components, target));
  }

  /** The chain of a component of a target, and the component's place in it. */
  lemma {:induction false} PlaceOf(components: seq<Component>, p: Loc, k: nat) returns (chain: seq<Item>, i: nat)
    requires k < |components| && Names(components[k], p)
    ensures ChainOf(components, p.target, chain) && i < |chain|
    ensures chain[i] == Item(k, ChainPlanner.Located(components[k], p.target)) && p in chain[i].patch.files
  {
    var items := TargetItems(components, p.target);
    var x := Item(k, ChainPlanner.Located(components[k], p.target));
    ItemOf(components, p.target, k);
    PartitionMembers(items, x);
    chain := FlattenElement(ChainsOf(items), x);
    i :| 0 <= i < |chain| && chain[i] == x;
    LocatedFiles(components[k], p, p.target);
  }

  /** Every component that changes a file of a chain is in that chain. */
  lemma {:induction false} PlaceIn(components: seq<Component>, p: Loc, chain: seq<Item>, m: nat, k: nat) returns (i: nat)
    requires ChainOf(components, p.target, chain) && m < |chain| && p in chain[m].patch.files
    requires k < |components| && Names(components[k], p)
    ensures i < |chain| && chain[i].at == k && p in chain[i].patch.files
  {
    var other, at := PlaceOf(components, p, k);
    var items := TargetItems(components, p.target);
    ElementPaths(chain, chain[m]);
    ElementPaths(other, other[at]);
    assert p in PathsOf(chain) * PathsOf(other);
    if chain != other {
      ChainsDisjoint(items);
      SharedPath(ChainsOf(items), chain, other);
    }
    i := at;
  }

  /** Of two elements of a chain that change one file, the one with the smaller index comes first. */
  lemma OrderIff(components: seq<Component>, chain: seq<Item>, p: Loc, i: nat, j: nat)
    requires ChainOf(components, p.target, chain) && i < |chain| && j < |chain|
    requires p in chain[i].patch.files && p in chain[j].patch.files
    ensures chain[i].at < chain[j].at <==> i < j
  {
    OrderedOf(components, p.target, chain);
    if i < j {
      Ordered(chain, i, j, p);
    } else if j < i {
      Ordered(chain, j, i, p);
    }
  }

  // ------------------------------------------------------------------ snapshots, file by file

  lemma {:induction false} SnapLast(job: seq<Patch>, r: nat, m: nat, p: Loc)
    requires m < r <= |job| && p in job[m].files && forall i :: m < i < r ==> p !in job[i].files
    ensures p in SnapAt(job, r) && SnapAt(job, r)[p] == job[m].files[p].after
  {
    if m < r - 1 {
      SnapLast(job, r - 1, m, p);
    }
  }

  lemma {:induction false} InitialFirst(job: seq<Patch>, m: nat, p: Loc)
    requires m < |job| && p in job[m].files && forall i :: 0 <= i < m ==> p !in job[i].files
    ensures p in Initial(job) && Initial(job)[p] == job[m].files[p].before
  {
    var front := job[..|job| - 1];
    InitialKeys(front);
    if m < |job| - 1 {
      InitialFirst(front, m, p);
    } else if p in FilesOf(front) {
      FilesOwned(front, p);
    }
  }

  lemma {:induction false} SnapFirst(job: seq<Patch>, r: nat, m: nat, p: Loc)
    requires r <= m < |job| && p in job[m].files && forall i :: 0 <= i < m ==> p !in job[i].files
    ensures p in SnapAt(job, r) && SnapAt(job, r)[p] == job[m].files[p].before
  {
    if r == 0 {
      InitialFirst(job, m, p);
    } else {
      SnapFirst(job, r - 1, m, p);
    }
  }

  /** The last of the first r patches to change a file, if any does. */
  lemma {:induction false} LastOf(job: seq<Patch>, r: nat, p: Loc) returns (m: Option<nat>)
    requires r <= |job|
    ensures m.None? ==> forall i :: 0 <= i < r ==> p !in job[i].files
    ensures m.Some? ==> m.value < r && p in job[m.value].files && forall i :: m.value < i < r ==> p !in job[i].files
  {
    if r == 0 {
      m := None;
    } else if p in job[r - 1].files {
      m := Some(r - 1);
    } else {
      m := LastOf(job, r - 1, p);
    }
  }

  lemma {:induction false} FirstOf(job: seq<Patch>, k: nat, p: Loc) returns (m: nat)
    requires k < |job| && p in job[k].files
    ensures m <= k && p in job[m].files && forall i :: 0 <= i < m ==> p !in job[i].files
    decreases k
  {
    var earlier := LastOf(job, k, p);
    if earlier.None? {
      m := k;
    } else {
      m := FirstOf(job, earlier.value, p);
    }
  }

  // ------------------------------------------------------------------ which chain decides a file

  lemma {:induction false} TargetAt(target: Target) returns (n: nat)
    ensures n < |TARGETS| && TARGETS[n] == target
  {
    n := match target case SitePackages => 0 case VllmSource => 1 case LauncherBin => 2;
  }

  /** The chain is one of the manifest's jobs. */
  lemma {:induction false} ChainIsJob(components: seq<Component>, target: Target, chain: seq<Item>)
    requires ChainOf(components, target, chain)
    ensures PatchesOf(chain) in Jobs(components)
  {
    var chains := ChainsOf(TargetItems(components, target));
    var i :| 0 <= i < |chains| && chains[i] == chain;
    assert JobsOf(chains)[i] == PatchesOf(chain);
    assert PatchesOf(chain) in TargetJobs(components, target);
    var n := TargetAt(target);
    JobsGrow(components, n, |TARGETS|, PatchesOf(chain));
  }

  /** Every job is a chain of some target. */
  lemma {:induction false} JobIsChain(components: seq<Component>, job: seq<Patch>) returns (target: Target, chain: seq<Item>)
    requires job in Jobs(components)
    ensures ChainOf(components, target, chain) && job == PatchesOf(chain)
  {
    JobsTargets(components, |TARGETS|, job);
    var n :| 0 <= n < |TARGETS| && job in TargetJobs(components, TARGETS[n]);
    target := TARGETS[n];
    var chains := ChainsOf(TargetItems(components, target));
    var i :| 0 <= i < |chains| && JobsOf(chains)[i] == job;
    chain := chains[i];
  }

  lemma {:induction false} TrackedIffNamed(components: seq<Component>, p: Loc)
    ensures Tracked(Jobs(components), p) <==> Named(components, p)
  {
    hide Jobs, FilesOf;
    if Tracked(Jobs(components), p) {
      var job: seq<Patch> :| job in Jobs(components) && p in FilesOf(job);
      var target, chain := JobIsChain(components, job);
      FilesOwned(job, p);
      var i :| 0 <= i < |job| && p in job[i].files;
      ElementOf(components, target, chain, i);
    }
    if Named(components, p) {
      var k :| 0 <= k < |components| && Names(components[k], p);
      var chain, i := PlaceOf(components, p, k);
      ChainIsJob(components, p.target, chain);
      FilesIn(PatchesOf(chain), i);
    }
  }

  lemma {:induction false} FinalOf(t: Tree, jobs: seq<seq<Patch>>, job: seq<Patch>, p: Loc)
    requires Separate(jobs) && job in jobs && p in FilesOf(job)
    ensures p in SnapAt(job, |job|) && FinalAt(t, jobs, p) == SnapAt(job, |job|)[p]
  {
    hide SnapAt, FilesOf;
    SnapKeys(job, |job|);
    if job != jobs[0] {
      assert jobs == [jobs[0]] + jobs[1..];
      FinalOf(t, jobs[1..], job, p);
    }
  }

  /** The last component to change a file stands last in its chain among those that change it. */
  lemma {:induction false} LastInChain(components: seq<Component>, k: nat, p: Loc) returns (chain: seq<Item>, m: nat)
    requires LastToName(components, k, p)
    ensures ChainOf(components, p.target, chain) && m < |chain| && p in chain[m].patch.files
    ensures chain[m].patch.files[p] == components[k].files[p.rel]
    ensures forall i :: m < i < |chain| ==> p !in chain[i].patch.files
  {
    chain, m := PlaceOf(components, p, k);
    ElementOf(components, p.target, chain, m);
    forall i | m < i < |chain| && p in chain[i].patch.files ensures false {
      ElementOf(components, p.target, chain, i);
      OrderIff(components, chain, p, m, i);
    }
  }

  // ------------------------------------------------------------------ what an installation leaves

  lemma {:induction false} FinalIsLast(t: Tree, components: seq<Component>, k: nat, p: Loc)
    requires ManifestOk(components) && LastToName(components, k, p)
    ensures FinalAt(t, Jobs(components), p) == components[k].files[p.rel].after
  {
    hide SnapAt, Jobs, ManifestOk, FinalAt, FilesOf;
    var chain, m := LastInChain(components, k, p);
    var job := PatchesOf(chain);
    ChainIsJob(components, p.target, chain);
    ManifestSound(components);
    FilesIn(job, m);
    FinalOf(t, Jobs(components), job, p);
    SnapLast(job, |job|, m, p);
  }

  lemma {:induction false} FinalUntracked(t: Tree, jobs: seq<seq<Patch>>, p: Loc)
    requires !Tracked(jobs, p)
    ensures FinalAt(t, jobs, p) == Look(t, p)
  {
    if jobs != [] {
      TrackedCons(jobs, p);
      FinalUntracked(t, jobs[1..], p);
    }
  }

  /** Main result: a completed installation leaves every file of every component, at every target it lists, as the
      last component to change it wants it, and changes nothing else. */
  lemma {:induction false} FullRunInstalls(t: Tree, components: seq<Component>)
    requires ManifestOk(components) && PatchRuns.Located(t, Jobs(components))
    ensures Run(t, Work(t, Jobs(components))).Some?
    ensures Installed(components, t, Run(t, Work(t, Jobs(components))).value)
  {
    hide Run, Jobs, ManifestOk, FinalAt, Work;
    ManifestSound(components);
    FullRun(t, Jobs(components));
    var after := Run(t, Work(t, Jobs(components))).value;
    forall k, p | LastToName(components, k, p) ensures Look(after, p) == components[k].files[p.rel].after {
      FinalIsLast(t, components, k, p);
    }
    forall p | !Named(components, p) ensures Look(after, p) == Look(t, p) {
      TrackedIffNamed(components, p);
      FinalUntracked(t, Jobs(components), p);
    }
  }

  lemma {:induction false} SnapOnItsWay(t: Tree, components: seq<Component>, p: Loc)
    requires PatchRuns.Located(t, Jobs(components)) && Named(components, p)
    ensures OnItsWay(components, t, p)
  {
    hide SnapAt, Jobs, FilesOf, LatestBelow;
    var k :| 0 <= k < |components| && Names(components[k], p);
    var chain, i := PlaceOf(components, p, k);
    var job := PatchesOf(chain);
    ChainIsJob(components, p.target, chain);
    FilesIn(job, i);
    LocatedMeans(t, job);
    var r := Latest(t, job).value;
    SnapKeys(job, r);
    var last := LastOf(job, r, p);
    if last.Some? {
      SnapLast(job, r, last.value, p);
      ElementOf(components, p.target, chain, last.value);
    } else {
      var m := FirstOf(job, i, p);
      SnapFirst(job, r, m, p);
      ElementOf(components, p.target, chain, m);
      FirstOfChain(components, p, chain, m);
    }
  }

  lemma {:induction false} FirstOfChain(components: seq<Component>, p: Loc, chain: seq<Item>, m: nat)
    requires ChainOf(components, p.target, chain) && m < |chain| && p in chain[m].patch.files
    requires forall i :: 0 <= i < m ==> p !in PatchesOf(chain)[i].files
    ensures FirstToName(components, chain[m].at, p)
  {
    ElementOf(components, p.target, chain, m);
    forall j | 0 <= j < chain[m].at && Names(components[j], p) ensures false {
      var i := PlaceIn(components, p, chain, m, j);
      assert p in PatchesOf(chain)[i].files;
      OrderIff(components, chain, p, i, m);
    }
  }

  /** A run stopped between any two components leaves every file on its way, and changes no file that no component
      changes. */
  lemma {:induction false} StoppedRunIsOnItsWay(t: Tree, components: seq<Component>, b: nat)
    requires ManifestOk(components) && PatchRuns.Located(t, Jobs(components)) && b <= |Work(t, Jobs(components))|
    ensures Run(t, Work(t, Jobs(components))[..b]).Some?
    ensures UnderWay(components, t, Run(t, Work(t, Jobs(components))[..b]).value)
  {
    hide Run, Jobs, ManifestOk, Work, OnItsWay, Named;
    ManifestSound(components);
    CutRun(t, Jobs(components), b);
    var after := Run(t, Work(t, Jobs(components))[..b]).value;
    forall p ensures if Named(components, p) then OnItsWay(components, after, p) else Look(after, p) == Look(t, p) {
      TrackedIffNamed(components, p);
      if Named(components, p) {
        SnapOnItsWay(after, components, p);
      }
    }
  }

  // ------------------------------------------------------------------ when a manifest is accepted

  predicate WellMade(c: Component) {
    && c.targets != [] && |c.files| > 0
    && (forall i, j :: 0 <= i < |c.targets| && 0 <= j < |c.targets| && c.targets[i] == c.targets[j] ==> i == j)
    && (forall rel :: rel in c.files ==> c.files[rel].after != c.files[rel].before)
  }

  /** Main result: a manifest is accepted exactly when it has components, each well made, and every component finds
      each of its files as the component before it in the manifest left it. */
  lemma {:induction false} AcceptedIff(components: seq<Component>)
    ensures ManifestOk(components) <==>
            components != [] && (forall c :: c in components ==> WellMade(c)) && HandsOver(components)
  {
    hide SnapAt, Jobs, FilesOf;
    forall c: Component ensures ComponentOk(c) <==> WellMade(c) {
    }
    if forall job :: job in Jobs(components) ==> Continuous(job) {
      forall j, k, p | LastBefore(components, j, k, p)
        ensures components[j].files[p.rel].after == components[k].files[p.rel].before
      {
        ContinuousHandsOver(components, j, k, p);
      }
    }
    if HandsOver(components) {
      forall job | job in Jobs(components) ensures Continuous(job) {
        var target, chain := JobIsChain(components, job);
        HandsOverContinuous(components, target, chain);
      }
    }
  }

  lemma {:induction false} ContinuousHandsOver(components: seq<Component>, j: nat, k: nat, p: Loc)
    requires LastBefore(components, j, k, p) && forall job :: job in Jobs(components) ==> Continuous(job)
    ensures components[j].files[p.rel].after == components[k].files[p.rel].before
  {
    hide SnapAt, Jobs, FilesOf;
    var chain, m := PlaceOf(components, p, k);
    var i := PlaceIn(components, p, chain, m, j);
    var job := PatchesOf(chain);
    ChainIsJob(components, p.target, chain);
    OrderIff(components, chain, p, i, m);
    forall n | i < n < m && p in job[n].files ensures false {
      ElementOf(components, p.target, chain, n);
      OrderIff(components, chain, p, i, n);
      OrderIff(components, chain, p, n, m);
    }
    SnapLast(job, m, i, p);
    assert Follows(SnapAt(job, m), job[m]);
    ElementOf(components, p.target, chain, i);
    ElementOf(components, p.target, chain, m);
  }

  lemma {:induction false} HandsOverContinuous(components: seq<Component>, target: Target, chain: seq<Item>)
    requires ChainOf(components, target, chain) && HandsOver(components)
    ensures Continuous(PatchesOf(chain))
  {
    hide SnapAt, FilesOf, HandsOver;
    var job := PatchesOf(chain);
    forall m, p | 0 <= m < |job| && p in job[m].files
      ensures p in SnapAt(job, m) && SnapAt(job, m)[p] == job[m].files[p].before
    {
      var last := LastOf(job, m, p);
      if last.None? {
        SnapFirst(job, m, m, p);
      } else {
        SnapLast(job, m, last.value, p);
        NeighboursHandOver(components, target, chain, last.value, m, p);
      }
    }
  }

  lemma {:induction false} NeighboursHandOver(components: seq<Component>, target: Target, chain: seq<Item>, i: nat, m: nat, p: Loc)
    requires ChainOf(components, target, chain) && HandsOver(components) && i < m < |chain|
    requires p in chain[i].patch.files && p in chain[m].patch.files
    requires forall n :: i < n < m ==> p !in PatchesOf(chain)[n].files
    ensures chain[i].patch.files[p].after == chain[m].patch.files[p].before
  {
    ElementOf(components, target, chain, i);
    ElementOf(components, target, chain, m);
    OrderIff(components, chain, p, i, m);
    forall j | chain[i].at < j < chain[m].at && Names(components[j], p) ensures false {
      var n := PlaceIn(components, p, chain, m, j);
      assert p in PatchesOf(chain)[n].files;
      OrderIff(components, chain, p, i, n);
      OrderIff(components, chain, p, n, m);
    }
    assert LastBefore(components, chain[i].at, chain[m].at, p);
  }

  // ------------------------------------------------------------------ when a tree is ready

  /** The root of every target that some component lists. */
  predicate HasRoots(components: seq<Component>, roots: set<Target>) {
    forall k :: 0 <= k < |components| ==> forall target :: target in components[k].targets ==> target in roots
  }

  lemma {:induction false} RootedIff(components: seq<Component>, roots: set<Target>)
    ensures Rooted(components, roots) <==> HasRoots(components, roots)
  {
    hide ChainsOf, TargetItems;
    forall target
      ensures TargetJobs(components, target) != [] <==>
              exists k :: 0 <= k < |components| && target in components[k].targets
    {
      JobsIff(components, target);
    }
    forall target: Target ensures target in TARGETS {
      var n := TargetAt(target);
    }
  }

  lemma {:induction false} JobsIff(components: seq<Component>, target: Target)
    ensures TargetJobs(components, target) != [] <==> exists k :: 0 <= k < |components| && target in components[k].targets
  {
    var items := TargetItems(components, target);
    TargetItemsIncreasing(components, target);
    if items != [] {
      assert items[0] in items && target in components[items[0].at].targets;
    }
    if k :| 0 <= k < |components| && target in components[k].targets {
      ItemOf(components, target, k);
      PartitionMembers(items, Item(k, ChainPlanner.Located(components[k], target)));
      assert ChainsOf(items) != [] by {
        if ChainsOf(items) == [] { NothingFlattens(); }
      }
    }
  }

  /** A tree no component has touched yet is ready, once every root is there; so is one that is already as the
      manifest leaves it, and then there is nothing to do. */
  lemma {:induction false} UntouchedAndFinishedAreReady(t: Tree, components: seq<Component>, roots: set<Target>)
    requires ManifestOk(components) && HasRoots(components, roots)
    ensures Unbegun(components, t) ==> Ready(t, components, roots)
    ensures Installed(components, t, t) ==> Ready(t, components, roots) && Work(t, Jobs(components)) == []
  {
    hide SnapAt, Jobs, FilesOf, LatestBelow, ManifestOk, Unbegun, Installed, Work;
    RootedIff(components, roots);
    if Unbegun(components, t) {
      forall job | job in Jobs(components) ensures Latest(t, job).Some? {
        var target, chain := JobIsChain(components, job);
        AtFirstSnap(t, components, target, chain);
        LatestOf(t, job, 0);
      }
    }
    if Installed(components, t, t) {
      forall job | job in Jobs(components) ensures Matches(t, SnapAt(job, |job|)) {
        var target, chain := JobIsChain(components, job);
        AtLastSnap(t, components, target, chain);
      }
      RerunAppliesNothing(t, Jobs(components));
    }
  }

  lemma {:induction false} AtFirstSnap(t: Tree, components: seq<Component>, target: Target, chain: seq<Item>)
    requires ChainOf(components, target, chain) && Unbegun(components, t)
    ensures Matches(t, SnapAt(PatchesOf(chain), 0))
  {
    hide SnapAt, FilesOf, ChainOf, Unbegun, FirstToName;
    var job := PatchesOf(chain);
    SnapKeys(job, 0);
    forall p | p in SnapAt(job, 0) ensures Look(t, p) == SnapAt(job, 0)[p] {
      FirstHash(t, components, target, chain, p);
    }
  }

  lemma {:induction false} FirstHash(t: Tree, components: seq<Component>, target: Target, chain: seq<Item>, p: Loc)
    requires ChainOf(components, target, chain) && Unbegun(components, t) && p in FilesOf(PatchesOf(chain))
    ensures var first := SnapAt(PatchesOf(chain), 0); p in first && Look(t, p) == first[p]
  {
    hide SnapAt, FilesOf, ChainOf;
    var job := PatchesOf(chain);
    FilesOwned(job, p);
    var i :| 0 <= i < |job| && p in job[i].files;
    var m := FirstOf(job, i, p);
    SnapFirst(job, 0, m, p);
    ElementOf(components, target, chain, m);
    FirstOfChain(components, p, chain, m);
  }

  lemma {:induction false} AtLastSnap(t: Tree, components: seq<Component>, target: Target, chain: seq<Item>)
    requires ChainOf(components, target, chain) && Installed(components, t, t)
    ensures Matches(t, SnapAt(PatchesOf(chain), |chain|))
  {
    hide SnapAt, FilesOf, ChainOf, Installed, LastToName;
    var job := PatchesOf(chain);
    SnapKeys(job, |job|);
    forall p | p in SnapAt(job, |job|) ensures Look(t, p) == SnapAt(job, |job|)[p] {
      LastHash(t, components, target, chain, p);
    }
  }

  lemma {:induction false} LastHash(t: Tree, components: seq<Component>, target: Target, chain: seq<Item>, p: Loc)
    requires ChainOf(components, target, chain) && Installed(components, t, t) && p in FilesOf(PatchesOf(chain))
    ensures var last := SnapAt(PatchesOf(chain), |chain|); p in last && Look(t, p) == last[p]
  {
    hide SnapAt, FilesOf, ChainOf;
    var job := PatchesOf(chain);
    FilesOwned(job, p);
    var m := LastOf(job, |job|, p);
    SnapLast(job, |job|, m.value, p);
    ElementOf(components, target, chain, m.value);
    LastOfChain(components, p, chain, m.value);
  }

  lemma {:induction false} LastOfChain(components: seq<Component>, p: Loc, chain: seq<Item>, m: nat)
    requires ChainOf(components, p.target, chain) && m < |chain| && p in chain[m].patch.files
    requires forall i :: m < i < |chain| ==> p !in PatchesOf(chain)[i].files
    ensures LastToName(components, chain[m].at, p)
  {
    ElementOf(components, p.target, chain, m);
    forall j | chain[m].at < j < |components| && Names(components[j], p) ensures false {
      var i := PlaceIn(components, p, chain, m, j);
      assert p in PatchesOf(chain)[i].files;
      OrderIff(components, chain, p, m, i);
    }
  }
}
