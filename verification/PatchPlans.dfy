/**
What a manifest plans (scripts/apply_field_review_patches.py: load_manifest, main): the chains of every
target, when a manifest is accepted, and when a tree is ready for it.
*/
module PatchPlans {
  import opened Options
  import opened Patches
  import opened Chains
  import opened ChainPlanner
  import opened Snapshots
  import opened PatchRuns

  const TARGETS: seq<Target> := [SitePackages, VllmSource, LauncherBin]

  // ------------------------------------------------------------------ the chains of a manifest

  function JobsOf(chains: seq<seq<Item>>): (jobs: seq<seq<Patch>>)
    ensures |jobs| == |chains|
  {
    seq(|chains|, i requires 0 <= i < |chains| => PatchesOf(chains[i]))
  }

  function TargetJobs(components: seq<Component>, target: Target): seq<seq<Patch>> {
    JobsOf(ChainsOf(TargetItems(components, target)))
  }

  /** The chains of the first n targets. */
  function JobsUpTo(components: seq<Component>, n: nat): seq<seq<Patch>>
    requires n <= |TARGETS|
  {
    if n == 0 then [] else JobsUpTo(components, n - 1) + TargetJobs(components, TARGETS[n - 1])
  }

  function Jobs(components: seq<Component>): seq<seq<Patch>> {
    JobsUpTo(components, |TARGETS|)
  }

  predicate ComponentOk(c: Component) {
    && c.targets != []
    && (forall i, j :: 0 <= i < j < |c.targets| ==> c.targets[i] != c.targets[j])
    && c.files != map[]
    && (forall rel :: rel in c.files ==> c.files[rel].before != c.files[rel].after)
  }

  predicate ManifestOk(components: seq<Component>) {
    && components != []
    && (forall c :: c in components ==> ComponentOk(c))
    && (forall job :: job in Jobs(components) ==> Continuous(job))
  }

  predicate Rooted(components: seq<Component>, roots: set<Target>) {
    forall target :: target in TARGETS && TargetJobs(components, target) != [] ==> target in roots
  }

  /** The preflight accepts: every root a chain needs exists, every chain is at one of its snapshots. */
  predicate Ready(t: Tree, components: seq<Component>, roots: set<Target>) {
    Rooted(components, roots) && PatchRuns.Located(t, Jobs(components))
  }

  lemma {:induction false} SamePaths(chain: seq<Item>)
    ensures FilesOf(PatchesOf(chain)) == PathsOf(chain)
    decreases |chain|
  {
    if chain != [] {
      var front, last := chain[..|chain| - 1], chain[|chain| - 1];
      assert chain == front + [last];
      PathsConcat(front, [last]);
      SamePaths(front);
      assert PatchesOf(chain)[..|chain| - 1] == PatchesOf(front);
      assert [last][1..] == [];
    } else {
      assert PatchesOf(chain) == [];
    }
  }

  lemma {:induction false} JobsSeparate(chains: seq<seq<Item>>)
    requires Pairwise(chains)
    ensures Separate(JobsOf(chains))
  {
    hide FilesOf, PathsOf;
    if chains != [] {
      JobsSeparate(chains[1..]);
      assert JobsOf(chains)[1..] == JobsOf(chains[1..]);
      forall other | other in JobsOf(chains[1..]) ensures FilesOf(PatchesOf(chains[0])) !! FilesOf(other) {
        var i :| 0 <= i < |chains| - 1 && other == JobsOf(chains[1..])[i];
        assert chains[1..][i] in chains[1..];
        SamePaths(chains[0]);
        SamePaths(chains[1..][i]);
      }
    } else {
      assert JobsOf(chains) == [];
    }
  }

  lemma {:induction false} SeparateConcat(a: seq<seq<Patch>>, b: seq<seq<Patch>>)
    requires Separate(a) && Separate(b)
    requires forall x, y :: x in a && y in b ==> FilesOf(x) !! FilesOf(y)
    ensures Separate(a + b)
    decreases |a|
  {
    hide FilesOf;
    if a == [] {
      assert a + b == b;
    } else {
      SeparateConcat(a[1..], b);
      assert (a + b)[1..] == a[1..] + b;
    }
  }

  /** A job of a target: located components of that target, in one of its chains. */
  lemma JobMembers(components: seq<Component>, target: Target, job: seq<Patch>, c: Patch)
    requires job in TargetJobs(components, target) && c in job
    ensures exists k :: 0 <= k < |components| && c == ChainPlanner.Located(components[k], target)
  {
    var items := TargetItems(components, target);
    var chains := ChainsOf(items);
    var i :| 0 <= i < |chains| && job == JobsOf(chains)[i];
    var j :| 0 <= j < |chains[i]| && c == PatchesOf(chains[i])[j];
    var x := chains[i][j];
    FlattenMember(chains, chains[i], x);
    PartitionMembers(items, x);
    TargetItemsIncreasing(components, target);
    assert c == ChainPlanner.Located(components[x.at], target);
  }

  lemma {:induction false} JobFiles(components: seq<Component>, target: Target, job: seq<Patch>, p: Loc)
    requires job in TargetJobs(components, target) && p in FilesOf(job)
    ensures p.target == target
  {
    hide TargetJobs, FilesOf;
    FilesOwned(job, p);
    var k :| 0 <= k < |job| && p in job[k].files;
    JobMembers(components, target, job, job[k]);
  }

  lemma {:induction false} JobsTargets(components: seq<Component>, n: nat, job: seq<Patch>)
    requires n <= |TARGETS| && job in JobsUpTo(components, n)
    ensures exists k :: 0 <= k < n && job in TargetJobs(components, TARGETS[k])
  {
    if job in TargetJobs(components, TARGETS[n - 1]) {
    } else {
      JobsTargets(components, n - 1, job);
    }
  }

  lemma {:induction false} AllSeparate(components: seq<Component>, n: nat)
    requires n <= |TARGETS|
    ensures Separate(JobsUpTo(components, n))
  {
    hide TargetJobs, FilesOf, Separate;
    if n == 0 {
      NoneSeparate();
    } else {
      AllSeparate(components, n - 1);
      var done, next := JobsUpTo(components, n - 1), TargetJobs(components, TARGETS[n - 1]);
      OneTargetSeparate(components, TARGETS[n - 1]);
      forall x, y | x in done && y in next ensures FilesOf(x) !! FilesOf(y) {
        JobsTargets(components, n - 1, x);
        var k :| 0 <= k < n - 1 && x in TargetJobs(components, TARGETS[k]);
        forall p | p in FilesOf(x) && p in FilesOf(y) ensures false {
          JobFiles(components, TARGETS[k], x, p);
          JobFiles(components, TARGETS[n - 1], y, p);
          TargetsDiffer(k, n - 1);
        }
      }
      SeparateConcat(done, next);
    }
  }

  lemma TargetsDiffer(i: nat, j: nat)
    requires i < j < |TARGETS|
    ensures TARGETS[i] != TARGETS[j]
  {
  }

  lemma NoneSeparate()
    ensures Separate([])
  {
  }

  lemma OneTargetSeparate(components: seq<Component>, target: Target)
    ensures Separate(TargetJobs(components, target))
  {
    hide Separate, Pairwise, ChainsOf;
    ChainsDisjoint(TargetItems(components, target));
    JobsSeparate(ChainsOf(TargetItems(components, target)));
  }

  lemma {:induction false} ManifestSound(components: seq<Component>)
    requires ManifestOk(components)
    ensures Separate(Jobs(components)) && AllSound(Jobs(components))
  {
    hide TargetJobs, Separate, Continuous;
    AllSeparate(components, |TARGETS|);
    forall job, c | job in Jobs(components) && c in job ensures Valid(c) {
      JobsTargets(components, |TARGETS|, job);
      var k :| 0 <= k < |TARGETS| && job in TargetJobs(components, TARGETS[k]);
      JobMembers(components, TARGETS[k], job, c);
      var m :| 0 <= m < |components| && c == ChainPlanner.Located(components[m], TARGETS[k]);
      LocatedValid(components[m], TARGETS[k]);
    }
  }

  lemma LocatedValid(c: Component, target: Target)
    requires ComponentOk(c)
    ensures Valid(ChainPlanner.Located(c, target))
  {
    var rel :| rel in c.files;
    assert Loc(target, rel) in ChainPlanner.Located(c, target).files;
  }

  lemma {:induction false} JobsGrow(components: seq<Component>, n: nat, m: nat, job: seq<Patch>)
    requires n < m <= |TARGETS| && job in TargetJobs(components, TARGETS[n])
    ensures job in JobsUpTo(components, m)
  {
    if n < m - 1 {
      JobsGrow(components, n, m - 1, job);
    }
  }
}
