/**
Planning (scripts/apply_field_review_patches.py: target_component_chains): patches that share files
are grouped into chains, and chains are merged in place when a later patch touches several.
*/
module Chains {
  import opened Options
  import opened Patches

  /** A component object of the manifest list: its position is its identity. */
  datatype Item = Item(at: nat, patch: Patch)

  function PathsOf(chain: seq<Item>): set<Loc> {
    if chain == [] then {} else chain[0].patch.files.Keys + PathsOf(chain[1..])
  }

  predicate Overlap(a: Item, b: Item) {
    a.patch.files.Keys * b.patch.files.Keys != {}
  }

  predicate Touches(chain: seq<Item>, n: Item) {
    PathsOf(chain) * n.patch.files.Keys != {}
  }

  function Touched(chains: seq<seq<Item>>, n: Item): seq<seq<Item>> {
    if chains == [] then []
    else (if Touches(chains[0], n) then [chains[0]] else []) + Touched(chains[1..], n)
  }

  function Untouched(chains: seq<seq<Item>>, n: Item): seq<seq<Item>> {
    if chains == [] then []
    else (if Touches(chains[0], n) then [] else [chains[0]]) + Untouched(chains[1..], n)
  }

  function Flatten<T>(xss: seq<seq<T>>): seq<T> {
    if xss == [] then [] else xss[0] + Flatten(xss[1..])
  }

  /** The merged chain takes the place of the first chain it absorbs, or comes last. */
  function Placed(chains: seq<seq<Item>>, n: Item, merged: seq<Item>): seq<seq<Item>> {
    if chains == [] then [merged]
    else if Touches(chains[0], n) then [merged] + Untouched(chains[1..], n)
    else [chains[0]] + Placed(chains[1..], n, merged)
  }

  function Extended(chains: seq<seq<Item>>, n: Item): seq<seq<Item>> {
    Placed(chains, n, Flatten(Touched(chains, n)) + [n])
  }

  function ChainsOf(items: seq<Item>): seq<seq<Item>> {
    if items == [] then []
    else Extended(ChainsOf(items[..|items| - 1]), items[|items| - 1])
  }

  // ------------------------------------------------------------------ partition

  lemma {:induction false} FlattenCons<T>(xs: seq<T>, rest: seq<seq<T>>)
    ensures Flatten([xs] + rest) == xs + Flatten(rest)
  {
    assert ([xs] + rest)[1..] == rest;
  }

  lemma {:induction false} SplitFlatten(chains: seq<seq<Item>>, n: Item)
    ensures multiset(Flatten(chains)) == multiset(Flatten(Touched(chains, n))) + multiset(Flatten(Untouched(chains, n)))
  {
    hide Touches, Flatten;
    if chains == [] {
      NothingFlattens();
    } else {
      var first, touched, untouched := chains[0], Touched(chains[1..], n), Untouched(chains[1..], n);
      SplitFlatten(chains[1..], n);
      FlattenCons(first, chains[1..]);
      assert chains == [first] + chains[1..];
      assert multiset(Flatten(chains)) == multiset(first) + multiset(Flatten(chains[1..]));
      if Touches(first, n) {
        FlattenCons(first, touched);
        assert [] + untouched == untouched;
      } else {
        FlattenCons(first, untouched);
        assert [] + touched == touched;
      }
    }
  }

  lemma {:induction false} PlacedFlatten(chains: seq<seq<Item>>, n: Item, merged: seq<Item>)
    ensures multiset(Flatten(Placed(chains, n, merged))) == multiset(merged) + multiset(Flatten(Untouched(chains, n)))
  {
    if chains == [] {
      assert [merged][1..] == [];
    } else if Touches(chains[0], n) {
      assert ([merged] + Untouched(chains[1..], n))[1..] == Untouched(chains[1..], n);
      assert [] + Untouched(chains[1..], n) == Untouched(chains[1..], n);
    } else {
      PlacedFlatten(chains[1..], n, merged);
      assert ([chains[0]] + Placed(chains[1..], n, merged))[1..] == Placed(chains[1..], n, merged);
      assert ([chains[0]] + Untouched(chains[1..], n))[1..] == Untouched(chains[1..], n);
    }
  }

  lemma NothingFlattens()
    ensures Flatten<Item>([]) == []
  {
  }

  /** The chains partition the target's components: each occurs exactly once. */
  lemma {:induction false} ChainsPartition(items: seq<Item>)
    ensures multiset(Flatten(ChainsOf(items))) == multiset(items)
  {
    hide Touched, Untouched, Placed, Flatten;
    if items == [] {
      NothingFlattens();
    } else {
      var last := items[|items| - 1];
      var rest := ChainsOf(items[..|items| - 1]);
      ChainsPartition(items[..|items| - 1]);
      SplitFlatten(rest, last);
      PlacedFlatten(rest, last, Flatten(Touched(rest, last)) + [last]);
      assert items == items[..|items| - 1] + [last];
    }
  }

  // ------------------------------------------------------------------ disjointness

  /** No file belongs to two chains. */
  predicate Pairwise(chains: seq<seq<Item>>) {
    chains == [] || (Apart(chains[0], chains[1..]) && Pairwise(chains[1..]))
  }

  predicate Apart(chain: seq<Item>, others: seq<seq<Item>>) {
    forall other :: other in others ==> PathsOf(chain) !! PathsOf(other)
  }

  lemma {:induction false} TouchedAre(chains: seq<seq<Item>>, n: Item)
    ensures forall chain :: chain in Touched(chains, n) <==> chain in chains && Touches(chain, n)
    ensures forall chain :: chain in Untouched(chains, n) <==> chain in chains && !Touches(chain, n)
  {
    if chains != [] {
      TouchedAre(chains[1..], n);
      assert chains == [chains[0]] + chains[1..];
    }
  }

  lemma {:induction false} PlacedAre(chains: seq<seq<Item>>, n: Item, merged: seq<Item>)
    ensures forall chain :: chain in Placed(chains, n, merged) <==>
              chain == merged || (chain in chains && !Touches(chain, n))
  {
    if chains != [] {
      PlacedAre(chains[1..], n, merged);
      TouchedAre(chains[1..], n);
      assert chains == [chains[0]] + chains[1..];
    }
  }

  lemma {:induction false} PathsConcat(a: seq<Item>, b: seq<Item>)
    ensures PathsOf(a + b) == PathsOf(a) + PathsOf(b)
  {
    if a == [] {
      assert a + b == b;
    } else {
      PathsConcat(a[1..], b);
      assert (a + b)[1..] == a[1..] + b;
    }
  }

  lemma {:induction false} PathsFlatten(chains: seq<seq<Item>>, p: Loc)
    ensures p in PathsOf(Flatten(chains)) <==> exists chain :: chain in chains && p in PathsOf(chain)
  {
    if chains != [] {
      PathsConcat(chains[0], Flatten(chains[1..]));
      PathsFlatten(chains[1..], p);
      assert chains == [chains[0]] + chains[1..];
    }
  }

  /** Touched and untouched chains of a pairwise disjoint plan share no file. */
  lemma {:induction false} TouchedApart(chains: seq<seq<Item>>, n: Item, a: seq<Item>, b: seq<Item>)
    requires Pairwise(chains) && a in chains && b in chains && Touches(a, n) && !Touches(b, n)
    ensures PathsOf(a) !! PathsOf(b)
  {
    assert chains == [chains[0]] + chains[1..];
    if a != chains[0] && b != chains[0] {
      TouchedApart(chains[1..], n, a, b);
    } else if a == chains[0] {
      assert b in chains[1..];
    } else {
      assert a in chains[1..];
    }
  }

  lemma {:induction false} UntouchedPairwise(chains: seq<seq<Item>>, n: Item)
    requires Pairwise(chains)
    ensures Pairwise(Untouched(chains, n)) && Pairwise(Touched(chains, n))
  {
    if chains != [] {
      UntouchedPairwise(chains[1..], n);
      TouchedAre(chains[1..], n);
      if Touches(chains[0], n) {
        assert ([chains[0]] + Touched(chains[1..], n))[1..] == Touched(chains[1..], n);
        assert [] + Untouched(chains[1..], n) == Untouched(chains[1..], n);
      } else {
        assert ([chains[0]] + Untouched(chains[1..], n))[1..] == Untouched(chains[1..], n);
        assert [] + Touched(chains[1..], n) == Touched(chains[1..], n);
      }
    }
  }

  lemma {:induction false} PlacedPairwise(chains: seq<seq<Item>>, n: Item, merged: seq<Item>)
    requires Pairwise(chains)
    requires forall chain :: chain in chains && !Touches(chain, n) ==> PathsOf(merged) !! PathsOf(chain)
    ensures Pairwise(Placed(chains, n, merged))
  {
    if chains != [] {
      assert chains == [chains[0]] + chains[1..];
      TouchedAre(chains[1..], n);
      if Touches(chains[0], n) {
        UntouchedPairwise(chains[1..], n);
        assert ([merged] + Untouched(chains[1..], n))[1..] == Untouched(chains[1..], n);
      } else {
        PlacedPairwise(chains[1..], n, merged);
        PlacedAre(chains[1..], n, merged);
        assert ([chains[0]] + Placed(chains[1..], n, merged))[1..] == Placed(chains[1..], n, merged);
      }
    }
  }

  lemma {:induction false} MergedApart(chains: seq<seq<Item>>, n: Item)
    requires Pairwise(chains)
    ensures forall chain :: chain in chains && !Touches(chain, n) ==>
              PathsOf(Flatten(Touched(chains, n)) + [n]) !! PathsOf(chain)
  {
    var merged := Flatten(Touched(chains, n));
    PathsConcat(merged, [n]);
    TouchedAre(chains, n);
    forall chain, p | chain in chains && !Touches(chain, n) && p in PathsOf(chain) ensures p !in PathsOf(merged + [n]) {
      PathsFlatten(Touched(chains, n), p);
      if p in PathsOf(merged) {
        var a :| a in Touched(chains, n) && p in PathsOf(a);
        TouchedApart(chains, n, a, chain);
      }
    }
  }

  /** The chains' file sets are pairwise disjoint. */
  lemma {:induction false} ChainsDisjoint(items: seq<Item>)
    ensures Pairwise(ChainsOf(items))
  {
    if items != [] {
      var last := items[|items| - 1];
      var rest := ChainsOf(items[..|items| - 1]);
      ChainsDisjoint(items[..|items| - 1]);
      MergedApart(rest, last);
      PlacedPairwise(rest, last, Flatten(Touched(rest, last)) + [last]);
    }
  }

  // ------------------------------------------------------------------ manifest order

  /** Components that share a file come in manifest order. */
  predicate InOrder(chain: seq<Item>) {
    chain == [] || (Precedes(chain[0], chain[1..]) && InOrder(chain[1..]))
  }

  predicate Precedes(a: Item, later: seq<Item>) {
    forall b :: b in later && Overlap(a, b) ==> a.at < b.at
  }

  lemma {:induction false} InOrderConcat(a: seq<Item>, b: seq<Item>)
    requires InOrder(a) && InOrder(b)
    requires forall x, y :: x in a && y in b && Overlap(x, y) ==> x.at < y.at
    ensures InOrder(a + b)
  {
    if a == [] {
      assert a + b == b;
    } else {
      InOrderConcat(a[1..], b);
      assert (a + b)[1..] == a[1..] + b;
    }
  }

  lemma {:induction false} ElementPaths(chain: seq<Item>, x: Item)
    requires x in chain
    ensures x.patch.files.Keys <= PathsOf(chain)
  {
    if x != chain[0] {
      assert chain == [chain[0]] + chain[1..];
      ElementPaths(chain[1..], x);
    }
  }

  lemma {:induction false} FlattenElement(chains: seq<seq<Item>>, x: Item) returns (chain: seq<Item>)
    requires x in Flatten(chains)
    ensures chain in chains && x in chain
  {
    if x in chains[0] {
      chain := chains[0];
    } else {
      chain := FlattenElement(chains[1..], x);
    }
  }

  /** Chains that are in order and disjoint are in order end to end. */
  lemma {:induction false} FlattenInOrder(chains: seq<seq<Item>>)
    requires Pairwise(chains) && forall chain :: chain in chains ==> InOrder(chain)
    ensures InOrder(Flatten(chains))
  {
    if chains != [] {
      FlattenInOrder(chains[1..]);
      forall x, y | x in chains[0] && y in Flatten(chains[1..]) && Overlap(x, y) ensures false {
        var other := FlattenElement(chains[1..], y);
        ElementPaths(chains[0], x);
        ElementPaths(other, y);
      }
      InOrderConcat(chains[0], Flatten(chains[1..]));
    }
  }

  lemma {:induction false} FlattenMember(chains: seq<seq<Item>>, chain: seq<Item>, x: Item)
    requires chain in chains && x in chain
    ensures x in Flatten(chains)
  {
    if chain != chains[0] {
      assert chains == [chains[0]] + chains[1..];
      FlattenMember(chains[1..], chain, x);
    }
  }

  lemma {:induction false} PartitionMembers(items: seq<Item>, x: Item)
    ensures x in Flatten(ChainsOf(items)) <==> x in items
  {
    ChainsPartition(items);
    assert x in Flatten(ChainsOf(items)) <==> x in multiset(Flatten(ChainsOf(items)));
    assert x in items <==> x in multiset(items);
  }

  predicate Increasing(items: seq<Item>) {
    forall i, j :: 0 <= i < j < |items| ==> items[i].at < items[j].at
  }

  /** Merging keeps components that share a file in manifest order. */
  lemma {:induction false} ChainsInOrder(items: seq<Item>)
    requires Increasing(items)
    ensures forall chain :: chain in ChainsOf(items) ==> InOrder(chain)
  {
    if items != [] {
      var last := items[|items| - 1];
      var front := items[..|items| - 1];
      var rest := ChainsOf(front);
      ChainsInOrder(front);
      ChainsDisjoint(front);
      TouchedAre(rest, last);
      UntouchedPairwise(rest, last);
      FlattenInOrder(Touched(rest, last));
      forall x | x in Flatten(Touched(rest, last)) ensures x.at < last.at {
        var chain := FlattenElement(Touched(rest, last), x);
        FlattenMember(rest, chain, x);
        PartitionMembers(front, x);
      }
      InOrderConcat(Flatten(Touched(rest, last)), [last]);
      PlacedAre(rest, last, Flatten(Touched(rest, last)) + [last]);
    }
  }

  // ------------------------------------------------------------------ connected components

  /** A set of components that no overlap leaves. */
  ghost predicate Closed(items: seq<Item>, s: set<Item>) {
    forall a, b :: a in s && a in items && b in items && Overlap(a, b) ==> b in s
  }

  /** Connected in the file-overlap graph: in every closed set together. */
  ghost predicate Linked(items: seq<Item>, x: Item, y: Item) {
    forall s: set<Item> :: Closed(items, s) && x in s ==> y in s
  }

  lemma LinkedSymmetric(items: seq<Item>, x: Item, y: Item)
    requires x in items && y in items && Linked(items, x, y)
    ensures Linked(items, y, x)
  {
    forall s: set<Item> | Closed(items, s) && y in s ensures x in s {
      var rest := (set i | i in items) - s;
      assert Closed(items, rest);
    }
  }

  lemma LinkedGrows(front: seq<Item>, last: Item, x: Item, y: Item)
    requires Linked(front, x, y)
    ensures Linked(front + [last], x, y)
  {
    forall s: set<Item> | Closed(front + [last], s) && x in s ensures y in s {
      assert Closed(front, s);
    }
  }

  lemma TouchWitness(chain: seq<Item>, n: Item) returns (z: Item)
    requires Touches(chain, n)
    ensures z in chain && Overlap(z, n)
  {
    if chain[0].patch.files.Keys * n.patch.files.Keys != {} {
      z := chain[0];
    } else {
      z := TouchWitness(chain[1..], n);
    }
  }

  ghost predicate AllLinked(items: seq<Item>, chain: seq<Item>) {
    forall x, y :: x in chain && y in chain ==> Linked(items, x, y)
  }

  lemma {:induction false} ChainsLinked(items: seq<Item>)
    ensures forall chain :: chain in ChainsOf(items) ==> AllLinked(items, chain)
  {
    if items != [] {
      var last := items[|items| - 1];
      var front := items[..|items| - 1];
      var rest := ChainsOf(front);
      var merged := Flatten(Touched(rest, last)) + [last];
      ChainsLinked(front);
      assert items == front + [last];
      PlacedAre(rest, last, merged);
      forall chain | chain in ChainsOf(items) ensures AllLinked(items, chain) {
        if chain == merged {
          MergedLinked(front, last);
        } else {
          forall x, y | x in chain && y in chain ensures Linked(items, x, y) {
            LinkedGrows(front, last, x, y);
          }
        }
      }
    }
  }

  /** Every component of the merged chain is linked to the component that merged it. */
  lemma {:induction false} LinkedToLast(front: seq<Item>, last: Item, x: Item)
    requires forall chain :: chain in ChainsOf(front) ==> AllLinked(front, chain)
    requires x in Flatten(Touched(ChainsOf(front), last))
    ensures x in front && Linked(front + [last], x, last) && Linked(front + [last], last, x)
  {
    var rest := ChainsOf(front);
    TouchedAre(rest, last);
    var chain := FlattenElement(Touched(rest, last), x);
    var z := TouchWitness(chain, last);
    FlattenMember(rest, chain, x);
    FlattenMember(rest, chain, z);
    PartitionMembers(front, x);
    PartitionMembers(front, z);
    LinkedGrows(front, last, x, z);
    forall s: set<Item> | Closed(front + [last], s) && x in s ensures last in s {
      assert z in s;
      assert z in front + [last] && last in front + [last];
    }
    LinkedSymmetric(front + [last], x, last);
  }

  lemma {:induction false} MergedLinked(front: seq<Item>, last: Item)
    requires forall chain :: chain in ChainsOf(front) ==> AllLinked(front, chain)
    ensures AllLinked(front + [last], Flatten(Touched(ChainsOf(front), last)) + [last])
  {
    var merged := Flatten(Touched(ChainsOf(front), last)) + [last];
    forall x, y | x in merged && y in merged ensures Linked(front + [last], x, y) {
      if x != last {
        LinkedToLast(front, last, x);
      }
      if y != last {
        LinkedToLast(front, last, y);
      }
    }
  }

  /** The items of one chain are a closed set. */
  lemma {:induction false} ChainClosed(items: seq<Item>, chains: seq<seq<Item>>, chain: seq<Item>)
    requires Pairwise(chains) && chain in chains && forall x :: x in items ==> x in Flatten(chains)
    ensures Closed(items, set x | x in chain)
  {
    forall a, b | a in chain && b in items && Overlap(a, b) ensures b in chain {
      var other := FlattenElement(chains, b);
      ElementPaths(chain, a);
      ElementPaths(other, b);
      if other != chain {
        SharedPath(chains, chain, other);
      }
    }
  }

  lemma {:induction false} SharedPath(chains: seq<seq<Item>>, a: seq<Item>, b: seq<Item>)
    requires Pairwise(chains) && a in chains && b in chains && a != b
    ensures PathsOf(a) !! PathsOf(b)
  {
    assert chains == [chains[0]] + chains[1..];
    if a != chains[0] && b != chains[0] {
      SharedPath(chains[1..], a, b);
    } else if a == chains[0] {
      assert b in chains[1..];
    } else {
      assert a in chains[1..];
    }
  }

  /** Main result: the chains are exactly the connected components of the file-overlap graph. */
  lemma {:induction false} ChainsAreComponents(items: seq<Item>, chain: seq<Item>, x: Item, y: Item)
    requires chain in ChainsOf(items) && x in chain && y in items
    ensures y in chain <==> Linked(items, x, y)
  {
    ChainsDisjoint(items);
    ChainsLinked(items);
    forall z | z in items ensures z in Flatten(ChainsOf(items)) {
      PartitionMembers(items, z);
    }
    ChainClosed(items, ChainsOf(items), chain);
    assert AllLinked(items, chain);
    if Linked(items, x, y) {
      assert y in (set z | z in chain);
    }
  }

  // ------------------------------------------------------------------ running the plan

  function PatchesOf(items: seq<Item>): (ps: seq<Patch>)
    ensures |ps| == |items|
  {
    seq(|items|, i requires 0 <= i < |items| => items[i].patch)
  }

  lemma PatchesConcat(a: seq<Item>, b: seq<Item>)
    ensures PatchesOf(a + b) == PatchesOf(a) + PatchesOf(b)
  {
  }

  /** The position of the component with the smallest ordinal; everything before it is disjoint from it. */
  lemma FirstIsFree(items: seq<Item>, plan: seq<Item>) returns (p: nat)
    requires items != [] && Increasing(items) && InOrder(plan) && multiset(plan) == multiset(items)
    ensures p < |plan| && plan[p] == items[0]
    ensures forall x :: x in plan[..p] ==> Disjoint(x.patch, items[0].patch)
  {
    assert items[0] in multiset(plan);
    p :| 0 <= p < |plan| && plan[p] == items[0];
    forall y | y in plan ensures y.at >= items[0].at {
      assert y in multiset(items);
    }
    forall x | x in plan[..p] && !Disjoint(x.patch, items[0].patch) ensures false {
      var i :| 0 <= i < p && plan[i] == x;
      assert Overlap(plan[i], plan[p]) by {
        var l :| l in x.patch.files.Keys && l in items[0].patch.files.Keys;
        assert l in plan[i].patch.files.Keys * plan[p].patch.files.Keys;
      }
      OrderedPair(plan, i, p);
    }
  }

  lemma {:induction false} OrderedPair(plan: seq<Item>, i: nat, j: nat)
    requires InOrder(plan) && i < j < |plan| && Overlap(plan[i], plan[j])
    ensures plan[i].at < plan[j].at
  {
    if i == 0 {
      assert plan[j] == plan[1..][j - 1];
    } else {
      OrderedPair(plan[1..], i - 1, j - 1);
    }
  }

  lemma {:induction false} InOrderSplit(a: seq<Item>, b: seq<Item>)
    requires InOrder(a + b)
    ensures InOrder(a) && InOrder(b)
    ensures forall x, y :: x in a && y in b && Overlap(x, y) ==> x.at < y.at
  {
    if a == [] {
      assert a + b == b;
    } else {
      assert (a + b)[1..] == a[1..] + b;
      InOrderSplit(a[1..], b);
      assert a == [a[0]] + a[1..];
    }
  }

  /** A permutation that keeps overlapping components in order runs like the ordered list itself. */
  lemma {:induction false} PermutedRun(items: seq<Item>, plan: seq<Item>, t: Tree)
    requires Increasing(items) && InOrder(plan) && multiset(plan) == multiset(items)
    ensures Run(t, PatchesOf(plan)) == Run(t, PatchesOf(items))
    decreases |items|
  {
    hide Run, Disjoint, InOrder, Increasing;
    if items == [] {
      assert |multiset(plan)| == 0;
      assert PatchesOf(plan) == PatchesOf(items);
    } else {
      var p := FirstIsFree(items, plan);
      var before, after := plan[..p], plan[p + 1..];
      WithoutFirst(items, plan, p);
      FrontFirst(before, items[0], after, t);
      FrontFirst([], items[0], items[1..], t);
      assert items == [] + ([items[0]] + items[1..]) && [] + items[1..] == items[1..];
      if Run(t, [items[0].patch]).Some? {
        PermutedRun(items[1..], before + after, Run(t, [items[0].patch]).value);
      }
    }
  }

  lemma {:induction false} WithoutFirst(items: seq<Item>, plan: seq<Item>, p: nat)
    requires items != [] && Increasing(items) && InOrder(plan) && multiset(plan) == multiset(items)
    requires p < |plan| && plan[p] == items[0]
    ensures var before, after := plan[..p], plan[p + 1..];
            && plan == before + ([items[0]] + after)
            && InOrder(before + after)
            && multiset(before + after) == multiset(items[1..])
            && Increasing(items[1..])
  {
    hide InOrder;
    var before, after := plan[..p], plan[p + 1..];
    assert plan == before + ([items[0]] + after);
    OrderWithout(before, items[0], after);
    MultisetWithout(items, before, after);
  }

  lemma {:induction false} OrderWithout(before: seq<Item>, n: Item, after: seq<Item>)
    requires InOrder(before + ([n] + after))
    ensures InOrder(before + after)
  {
    hide InOrder;
    InOrderSplit(before, [n] + after);
    InOrderSplit([n], after);
    assert forall y :: y in after ==> y in [n] + after;
    InOrderConcat(before, after);
  }

  lemma MultisetWithout(items: seq<Item>, before: seq<Item>, after: seq<Item>)
    requires items != [] && multiset(before + ([items[0]] + after)) == multiset(items)
    ensures multiset(before + after) == multiset(items[1..])
  {
    var whole := multiset(before + after) + multiset{items[0]};
    assert items == [items[0]] + items[1..];
    assert multiset(before + ([items[0]] + after)) == whole;
    assert whole == multiset(items[1..]) + multiset{items[0]};
    assert whole - multiset{items[0]} == multiset(before + after);
  }

  /** Running the plan is running its freed component first and the rest after it. */
  lemma {:induction false} FrontFirst(before: seq<Item>, n: Item, after: seq<Item>, t: Tree)
    requires forall x :: x in before ==> Disjoint(x.patch, n.patch)
    ensures var first := Run(t, [n.patch]);
            Run(t, PatchesOf(before + ([n] + after))) ==
            if first.None? then None else Run(first.value, PatchesOf(before + after))
  {
    hide Run, Disjoint;
    var bs, as_ := PatchesOf(before), PatchesOf(after);
    PatchesConcat(before, [n] + after);
    PatchesConcat([n], after);
    PatchesConcat(before, after);
    assert PatchesOf([n]) == [n.patch];
    assert bs + ([n.patch] + as_) == (bs + [n.patch]) + as_;
    assert ([n.patch] + bs) + as_ == [n.patch] + (bs + as_);
    forall y | y in bs ensures Disjoint(y, n.patch) {
    }
    RunConcat(t, bs + [n.patch], as_);
    MoveToFront(t, bs, n.patch);
    RunConcat(t, [n.patch] + bs, as_);
    RunConcat(t, [n.patch], bs + as_);
  }

  /** Main result: running chain after chain accepts the same trees as the manifest order and leaves
      the same tree. */
  lemma {:induction false} ChainsRunLikeManifest(items: seq<Item>, t: Tree)
    requires Increasing(items)
    ensures Run(t, PatchesOf(Flatten(ChainsOf(items)))) == Run(t, PatchesOf(items))
  {
    ChainsPartition(items);
    ChainsDisjoint(items);
    ChainsInOrder(items);
    FlattenInOrder(ChainsOf(items));
    PermutedRun(items, Flatten(ChainsOf(items)), t);
  }
}
