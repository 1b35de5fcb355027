/**
Exact-hash snapshots of a chain and where a tree stands in it (scripts/apply_field_review_patches.py:
component_snapshots, snapshot_index), and what running the rest of the chain from there does.
*/
module Snapshots {
  import opened Options
  import opened Patches

  /** The hash of each file a chain tracks; None is an absent file. */
  type Snap = map<Loc, Option<Hash>>

  function FilesOf(ordered: seq<Patch>): set<Loc> {
    if ordered == [] then {} else FilesOf(ordered[..|ordered| - 1]) + ordered[|ordered| - 1].files.Keys
  }

  function Befores(c: Patch): Snap {
    map p | p in c.files :: c.files[p].before
  }

  function Afters(c: Patch): Snap {
    map p | p in c.files :: c.files[p].after
  }

  /** The first component that names a file decides its initial hash. */
  function Initial(ordered: seq<Patch>): Snap {
    if ordered == [] then map[]
    else Befores(ordered[|ordered| - 1]) + Initial(ordered[..|ordered| - 1])
  }

  function SnapAt(ordered: seq<Patch>, k: nat): Snap
    requires k <= |ordered|
  {
    if k == 0 then Initial(ordered) else SnapAt(ordered, k - 1) + Afters(ordered[k - 1])
  }

  /** Every component's before-hashes are what the components before it leave. */
  predicate Continuous(ordered: seq<Patch>) {
    forall k :: 0 <= k < |ordered| ==> Follows(SnapAt(ordered, k), ordered[k])
  }

  predicate Follows(current: Snap, c: Patch) {
    forall p :: p in c.files ==> p in current && current[p] == c.files[p].before
  }

  predicate Matches(t: Tree, snap: Snap) {
    forall p :: p in snap ==> Look(t, p) == snap[p]
  }

  /** The latest snapshot the tree is exactly in, counting down from k. */
  function LatestBelow(t: Tree, ordered: seq<Patch>, k: nat): (r: Option<nat>)
    requires k <= |ordered|
    ensures r.Some? ==> r.value <= k && Matches(t, SnapAt(ordered, r.value))
    ensures r.Some? ==> forall j :: r.value < j <= k ==> !Matches(t, SnapAt(ordered, j))
    ensures r.None? ==> forall j :: 0 <= j <= k ==> !Matches(t, SnapAt(ordered, j))
  {
    if Matches(t, SnapAt(ordered, k)) then Some(k)
    else if k == 0 then None
    else LatestBelow(t, ordered, k - 1)
  }

  function Latest(t: Tree, ordered: seq<Patch>): Option<nat> {
    LatestBelow(t, ordered, |ordered|)
  }

  lemma {:induction false} FilesIn(ordered: seq<Patch>, k: nat)
    requires k < |ordered|
    ensures ordered[k].files.Keys <= FilesOf(ordered)
  {
    if k < |ordered| - 1 {
      FilesIn(ordered[..|ordered| - 1], k);
    }
  }

  lemma {:induction false} FilesOwned(ordered: seq<Patch>, p: Loc)
    requires p in FilesOf(ordered)
    ensures exists k :: 0 <= k < |ordered| && p in ordered[k].files
  {
    if p in ordered[|ordered| - 1].files.Keys {
    } else {
      FilesOwned(ordered[..|ordered| - 1], p);
      var k :| 0 <= k < |ordered| - 1 && p in ordered[..|ordered| - 1][k].files;
      assert p in ordered[k].files;
    }
  }

  lemma {:induction false} InitialKeys(ordered: seq<Patch>)
    ensures Initial(ordered).Keys == FilesOf(ordered)
  {
    if ordered != [] {
      InitialKeys(ordered[..|ordered| - 1]);
    }
  }

  lemma {:induction false} SnapKeys(ordered: seq<Patch>, k: nat)
    requires k <= |ordered|
    ensures SnapAt(ordered, k).Keys == FilesOf(ordered)
  {
    if k == 0 {
      InitialKeys(ordered);
    } else {
      SnapKeys(ordered, k - 1);
      FilesIn(ordered, k - 1);
    }
  }

  /** A tree at snapshot k takes component k, and is at snapshot k + 1 after it. */
  lemma StepFromSnap(t: Tree, ordered: seq<Patch>, k: nat)
    requires k < |ordered| && Continuous(ordered) && Valid(ordered[k]) && Matches(t, SnapAt(ordered, k))
    ensures AllBefore(t, ordered[k]) && !AllAfter(t, ordered[k])
    ensures ApplyOne(t, ordered[k]).Some?
    ensures Matches(ApplyOne(t, ordered[k]).value, SnapAt(ordered, k + 1))
  {
    var c := ordered[k];
    assert Follows(SnapAt(ordered, k), c);
    assert AllBefore(t, c);
    var p :| p in c.files;
    assert Look(t, p) == c.files[p].before != c.files[p].after;
  }

  lemma {:induction false} RunSnoc(t: Tree, xs: seq<Patch>, c: Patch)
    ensures Run(t, xs + [c]) == if Run(t, xs).None? then None else ApplyOne(Run(t, xs).value, c)
  {
    RunConcat(t, xs, [c]);
    if Run(t, xs).Some? {
      OneStep(Run(t, xs).value, c);
    }
  }

  /** From snapshot a, the components up to b all apply and lead to snapshot b; nothing else moves. */
  lemma {:induction false} RunFromSnap(t: Tree, ordered: seq<Patch>, a: nat, b: nat)
    requires a <= b <= |ordered| && Continuous(ordered) && Matches(t, SnapAt(ordered, a))
    requires forall c :: c in ordered ==> Valid(c)
    ensures Run(t, ordered[a..b]).Some?
    ensures Matches(Run(t, ordered[a..b]).value, SnapAt(ordered, b))
    ensures forall p :: p !in FilesOf(ordered) ==> Look(Run(t, ordered[a..b]).value, p) == Look(t, p)
    decreases b
  {
    hide ApplyOne, Continuous, Matches, SnapAt, Valid, FilesOf;
    if a == b {
      assert ordered[a..b] == [];
    } else {
      RunFromSnap(t, ordered, a, b - 1);
      assert ordered[a..b] == ordered[a..b - 1] + [ordered[b - 1]];
      RunSnoc(t, ordered[a..b - 1], ordered[b - 1]);
      var t' := Run(t, ordered[a..b - 1]).value;
      StepFromSnap(t', ordered, b - 1);
      FilesIn(ordered, b - 1);
      forall p | p !in FilesOf(ordered) ensures Look(Run(t, ordered[a..b]).value, p) == Look(t, p) {
        OtherFilesKept(t', ordered[b - 1], p);
      }
    }
  }

  /** A tree that holds the last snapshot's files is at the end of its chain. */
  lemma {:induction false} FinalIsLatest(t: Tree, ordered: seq<Patch>)
    requires Matches(t, SnapAt(ordered, |ordered|))
    ensures Latest(t, ordered) == Some(|ordered|)
  {
  }

  lemma {:induction false} MatchesByFiles(t: Tree, t': Tree, ordered: seq<Patch>)
    requires forall p :: p in FilesOf(ordered) ==> Look(t, p) == Look(t', p)
    ensures forall k :: 0 <= k <= |ordered| ==> Matches(t, SnapAt(ordered, k)) == Matches(t', SnapAt(ordered, k))
    ensures Latest(t, ordered) == Latest(t', ordered)
  {
    forall k | 0 <= k <= |ordered| ensures Matches(t, SnapAt(ordered, k)) == Matches(t', SnapAt(ordered, k)) {
      SnapKeys(ordered, k);
    }
  }
}
