/**
The planner as it runs (scripts/apply_field_review_patches.py: target_components,
target_component_chains): two parallel lists, grown, overwritten and deleted from in place. It is
proved to compute Chains.ChainsOf.
*/
module ChainPlanner {
  import opened Patches
  import opened Chains

  /** A manifest component: one diff, applied at every target it names. */
  datatype Component = Component(name: string, targets: seq<Target>, files: map<string, Change>)

  function Located(c: Component, target: Target): Patch {
    Patch(c.name, map rel | rel in c.files :: Loc(target, rel) := c.files[rel])
  }

  /** The components of one target, in manifest order. */
  function TargetItems(components: seq<Component>, target: Target): seq<Item> {
    if components == [] then []
    else
      var last := |components| - 1;
      TargetItems(components[..last], target) +
      if target in components[last].targets then [Item(last, Located(components[last], target))] else []
  }

  lemma {:induction false} TargetItemsIncreasing(components: seq<Component>, target: Target)
    ensures Increasing(TargetItems(components, target))
    ensures forall x :: x in TargetItems(components, target) ==>
              x.at < |components| && x.patch == Located(components[x.at], target)
              && target in components[x.at].targets
  {
    if components != [] {
      TargetItemsIncreasing(components[..|components| - 1], target);
    }
  }

  // ------------------------------------------------------------------ the overlapping indices

  /** Exactly the indices of the chains that n touches, ascending. */
  ghost predicate Overlapping(chains: seq<seq<Item>>, n: Item, at: seq<nat>) {
    && (forall m :: 0 <= m < |at| ==> at[m] < |chains| && Touches(chains[at[m]], n))
    && (forall m, k :: 0 <= m < k < |at| ==> at[m] < at[k])
    && (forall i :: 0 <= i < |chains| && Touches(chains[i], n) ==> i in at)
  }

  predicate PathsTracked(chains: seq<seq<Item>>, chainPaths: seq<set<Loc>>) {
    |chains| == |chainPaths| && forall i :: 0 <= i < |chains| ==> chainPaths[i] == PathsOf(chains[i])
  }

  function Pick(chains: seq<seq<Item>>, at: seq<nat>): seq<seq<Item>>
    requires forall m :: 0 <= m < |at| ==> at[m] < |chains|
  {
    seq(|at|, m requires 0 <= m < |at| => chains[at[m]])
  }

  lemma EntriesInRange(chains: seq<seq<Item>>, n: Item, at: seq<nat>)
    requires Overlapping(chains, n, at)
    ensures forall m :: 0 <= m < |at| ==> at[m] < |chains|
    ensures forall m :: 0 <= m < |at| ==> Touches(chains[at[m]], n)
    ensures forall m, k :: 0 <= m < k < |at| ==> at[m] < at[k]
  {
    hide Touches;
  }

  /** Between two neighbouring entries nothing is touched. */
  lemma Between(chains: seq<seq<Item>>, n: Item, at: seq<nat>, m: nat, i: nat)
    requires Overlapping(chains, n, at) && m <= |at| && i < |chains|
    requires m > 0 ==> at[m - 1] < i
    requires m < |at| ==> i < at[m]
    ensures !Touches(chains[i], n)
  {
    assert Touches(chains[i], n) ==> i in at;
  }

  lemma {:induction false} UntouchedSpan(chains: seq<seq<Item>>, n: Item, a: nat, b: nat)
    requires a <= b <= |chains| && forall i :: a <= i < b ==> !Touches(chains[i], n)
    ensures Untouched(chains[a..], n) == chains[a..b] + Untouched(chains[b..], n)
    ensures Touched(chains[a..], n) == Touched(chains[b..], n)
    decreases b - a
  {
    hide Touches;
    if a < b {
      UntouchedSpan(chains, n, a + 1, b);
      assert chains[a..][1..] == chains[a + 1..];
      assert chains[a..b] == [chains[a]] + chains[a + 1..b];
    }
  }

  lemma {:induction false} TouchedAtHead(chains: seq<seq<Item>>, n: Item, i: nat)
    requires i < |chains| && Touches(chains[i], n)
    ensures Untouched(chains[i..], n) == Untouched(chains[i + 1..], n)
    ensures Touched(chains[i..], n) == [chains[i]] + Touched(chains[i + 1..], n)
  {
    hide Touches;
    assert chains[i..][1..] == chains[i + 1..];
  }

  /** Where entry m of the list starts: past the end when there is none. */
  function Bound(chains: seq<seq<Item>>, at: seq<nat>, m: nat): nat {
    if m < |at| then at[m] else |chains|
  }

  lemma {:induction false} PickedAreTouched(chains: seq<seq<Item>>, n: Item, at: seq<nat>, m: nat)
    requires Overlapping(chains, n, at) && m <= |at|
    ensures Pick(chains, at[m..]) == Touched(chains[Bound(chains, at, m)..], n)
    decreases |at| - m
  {
    hide Touches, Touched, Untouched, Overlapping;
    EntriesInRange(chains, n, at);
    if m == |at| {
      assert at[m..] == [] && chains[|chains|..] == [];
      assert Pick(chains, []) == [];
      NothingTouched(n);
    } else {
      TouchedAtHead(chains, n, at[m]);
      var b := Bound(chains, at, m + 1);
      forall i | at[m] + 1 <= i < b ensures !Touches(chains[i], n) {
        Between(chains, n, at, m + 1, i);
      }
      UntouchedSpan(chains, n, at[m] + 1, b);
      PickedAreTouched(chains, n, at, m + 1);
      assert Pick(chains, at[m..]) == [chains[at[m]]] + Pick(chains, at[m + 1..]);
    }
  }

  lemma {:induction false} NothingTouched(n: Item)
    ensures Touched([], n) == []
  {
  }

  lemma {:induction false} AllPicked(chains: seq<seq<Item>>, n: Item, at: seq<nat>)
    requires Overlapping(chains, n, at)
    ensures Pick(chains, at) == Touched(chains, n)
  {
    hide Touches;
    var b := Bound(chains, at, 0);
    forall i | 0 <= i < b ensures !Touches(chains[i], n) {
      Between(chains, n, at, 0, i);
    }
    UntouchedSpan(chains, n, 0, b);
    PickedAreTouched(chains, n, at, 0);
    assert at[0..] == at && chains[0..] == chains;
  }

  lemma {:induction false} PlacedAt(chains: seq<seq<Item>>, n: Item, merged: seq<Item>, first: nat, from: nat)
    requires from <= first < |chains| && Touches(chains[first], n)
    requires forall i :: 0 <= i < first ==> !Touches(chains[i], n)
    ensures Placed(chains[from..], n, merged) ==
            chains[from..first] + ([merged] + Untouched(chains[first + 1..], n))
    decreases first - from
  {
    hide Touches, Untouched;
    assert chains[from..][1..] == chains[from + 1..];
    if from < first {
      PlacedAt(chains, n, merged, first, from + 1);
      assert chains[from..first] == [chains[from]] + chains[from + 1..first];
    }
  }

  lemma {:induction false} PlacedLast(chains: seq<seq<Item>>, n: Item, merged: seq<Item>, from: nat)
    requires from <= |chains| && forall i :: 0 <= i < |chains| ==> !Touches(chains[i], n)
    ensures Placed(chains[from..], n, merged) == chains[from..] + [merged]
    ensures Touched(chains[from..], n) == []
    decreases |chains| - from
  {
    hide Touches, Untouched;
    if from < |chains| {
      assert chains[from..][1..] == chains[from + 1..];
      PlacedLast(chains, n, merged, from + 1);
      assert chains[from..] == [chains[from]] + chains[from + 1..];
    }
  }

  // ------------------------------------------------------------------ the loops

  /** The indices of the chains whose files the component shares. */
  method FindOverlapping(ghost chains: seq<seq<Item>>, chainPaths: seq<set<Loc>>, n: Item) returns (at: seq<nat>)
    requires PathsTracked(chains, chainPaths)
    ensures Overlapping(chains, n, at)
  {
    at := [];
    for index := 0 to |chainPaths|
      invariant forall m :: 0 <= m < |at| ==> at[m] < index && Touches(chains[at[m]], n)
      invariant forall m, k :: 0 <= m < k < |at| ==> at[m] < at[k]
      invariant forall i :: 0 <= i < index && Touches(chains[i], n) ==> i in at
    {
      if chainPaths[index] * n.patch.files.Keys != {} {
        at := at + [index];
      }
    }
  }

  /** The overlapping chains end to end, the new component last. */
  method Merge(chains: seq<seq<Item>>, chainPaths: seq<set<Loc>>, n: Item, at: seq<nat>)
    returns (merged: seq<Item>, mergedPaths: set<Loc>)
    requires PathsTracked(chains, chainPaths) && Overlapping(chains, n, at)
    ensures merged == Flatten(Touched(chains, n)) + [n]
    ensures mergedPaths == PathsOf(merged)
  {
    hide Touches, Touched, Flatten, PathsOf;
    merged, mergedPaths := [], n.patch.files.Keys;
    assert at[0..] == at;
    NoPaths();
    for k := 0 to |at|
      invariant merged + Flatten(Pick(chains, at[k..])) == Flatten(Pick(chains, at))
      invariant mergedPaths == PathsOf(merged) + n.patch.files.Keys
    {
      MergeStep(chains, at, k, merged);
      merged := merged + chains[at[k]];
      mergedPaths := mergedPaths + chainPaths[at[k]];
    }
    assert Pick(chains, at[|at|..]) == [];
    NothingFlattens();
    AllPicked(chains, n, at);
    PathsConcat(merged, [n]);
    OnePath(n);
    merged := merged + [n];
  }

  lemma NoPaths()
    ensures PathsOf([]) == {}
  {
  }

  lemma OnePath(n: Item)
    ensures PathsOf([n]) == n.patch.files.Keys
  {
    assert [n][1..] == [];
  }

  lemma {:induction false} MergeStep(chains: seq<seq<Item>>, at: seq<nat>, k: nat, merged: seq<Item>)
    requires k < |at| && forall m :: 0 <= m < |at| ==> at[m] < |chains|
    ensures merged + Flatten(Pick(chains, at[k..])) == (merged + chains[at[k]]) + Flatten(Pick(chains, at[k + 1..]))
    ensures PathsOf(merged + chains[at[k]]) == PathsOf(merged) + PathsOf(chains[at[k]])
  {
    hide PathsOf;
    assert Pick(chains, at[k..])[1..] == Pick(chains, at[k + 1..]);
    PathsConcat(merged, chains[at[k]]);
  }

  lemma {:induction false} DeleteStep(chains: seq<seq<Item>>, n: Item, at: seq<nat>, m: nat, placed: seq<seq<Item>>, now: seq<seq<Item>>)
    requires Overlapping(chains, n, at) && 1 < m <= |at| && |placed| == |chains|
    requires forall i :: at[0] < i < |chains| ==> placed[i] == chains[i]
    requires now == placed[..Bound(chains, at, m)] + Untouched(chains[Bound(chains, at, m)..], n)
    ensures at[m - 1] < |now|
    ensures now[..at[m - 1]] + now[at[m - 1] + 1..] == placed[..at[m - 1]] + Untouched(chains[at[m - 1]..], n)
  {
    hide Touches, Untouched;
    var i, b := at[m - 1], Bound(chains, at, m);
    assert at[0] < i < b;
    TouchedAtHead(chains, n, i);
    forall j | i + 1 <= j < b ensures !Touches(chains[j], n) {
      Between(chains, n, at, m, j);
    }
    UntouchedSpan(chains, n, i + 1, b);
    assert now[i + 1..] == placed[i + 1..b] + Untouched(chains[b..], n);
    assert placed[i + 1..b] == chains[i + 1..b];
    assert now[..i] == placed[..i];
  }

  lemma {:induction false} DeletedAll(chains: seq<seq<Item>>, n: Item, at: seq<nat>, merged: seq<Item>, now: seq<seq<Item>>)
    requires Overlapping(chains, n, at) && at != []
    requires var b := Bound(chains, at, 1); now == chains[at[0] := merged][..b] + Untouched(chains[b..], n)
    ensures now == Placed(chains, n, merged)
  {
    hide Touches, Untouched, Placed, Overlapping;
    EntriesInRange(chains, n, at);
    var first, b := at[0], Bound(chains, at, 1);
    forall j | first + 1 <= j < b ensures !Touches(chains[j], n) {
      Between(chains, n, at, 1, j);
    }
    UntouchedSpan(chains, n, first + 1, b);
    forall j | 0 <= j < first ensures !Touches(chains[j], n) {
      Between(chains, n, at, 0, j);
    }
    PlacedAt(chains, n, merged, first, 0);
    assert chains[0..] == chains && first < b;
    assert chains[first := merged][..b] == chains[..first] + [merged] + chains[first + 1..b];
  }

  /** Deletes the absorbed chains, the last one first. */
  method DeleteMerged(chains: seq<seq<Item>>, chainPaths: seq<set<Loc>>, n: Item, at: seq<nat>, merged: seq<Item>,
                      mergedPaths: set<Loc>)
    returns (chains': seq<seq<Item>>, chainPaths': seq<set<Loc>>)
    requires PathsTracked(chains, chainPaths) && Overlapping(chains, n, at) && at != []
    requires mergedPaths == PathsOf(merged)
    ensures chains' == Placed(chains, n, merged)
    ensures PathsTracked(chains', chainPaths')
  {
    hide Touches, Untouched, Placed;
    var first := at[0];
    chains', chainPaths' := chains[first := merged], chainPaths[first := mergedPaths];
    ghost var placed := chains';
    var m := |at|;
    assert chains[|chains|..] == [] && Untouched([], n) == [] by {
      UntouchedSpan([], n, 0, 0);
      NothingUntouched(n);
    }
    while m > 1
      invariant 1 <= m <= |at|
      invariant PathsTracked(chains', chainPaths')
      invariant chains' == placed[..Bound(chains, at, m)] + Untouched(chains[Bound(chains, at, m)..], n)
    {
      DeleteStep(chains, n, at, m, placed, chains');
      var index := at[m - 1];
      chains' := chains'[..index] + chains'[index + 1..];
      chainPaths' := chainPaths'[..index] + chainPaths'[index + 1..];
      m := m - 1;
    }
    DeletedAll(chains, n, at, merged, chains');
  }

  lemma {:induction false} NothingUntouched(n: Item)
    ensures Untouched([], n) == []
  {
  }

  method TargetComponentChains(components: seq<Component>, target: Target) returns (chains: seq<seq<Item>>)
    ensures chains == ChainsOf(TargetItems(components, target))
  {
    hide Touches, Untouched, Placed, Touched;
    var items := TargetItems(components, target);
    chains := [];
    var chainPaths: seq<set<Loc>> := [];
    for k := 0 to |items|
      invariant PathsTracked(chains, chainPaths)
      invariant chains == ChainsOf(items[..k])
    {
      var component := items[k];
      assert items[..k + 1][..k] == items[..k];
      ghost var before := chains;
      var at := FindOverlapping(chains, chainPaths, component);
      if at == [] {
        FreshChain(chains, component, at);
        chains, chainPaths := chains + [[component]], chainPaths + [component.patch.files.Keys];
      } else {
        var merged, mergedPaths := Merge(chains, chainPaths, component, at);
        chains, chainPaths := DeleteMerged(chains, chainPaths, component, at, merged, mergedPaths);
      }
      assert chains == Extended(before, component);
    }
    assert items[..|items|] == items;
  }

  lemma FreshChain(chains: seq<seq<Item>>, n: Item, at: seq<nat>)
    requires Overlapping(chains, n, at) && at == []
    ensures Extended(chains, n) == chains + [[n]]
    ensures PathsOf([n]) == n.patch.files.Keys
  {
    PlacedLast(chains, n, [n], 0);
    assert chains[0..] == chains;
    assert Flatten<Item>([]) + [n] == [n];
  }
}
