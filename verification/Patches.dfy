/**
Qualified patches and the trees they apply to (scripts/apply_field_review_patches.py: state_for,
apply_component_at_root). A tree maps locations to content hashes; an absent file has no entry.
*/
module Patches {
  import opened Options

  type Hash = string

  datatype Target = SitePackages | VllmSource | LauncherBin

  /** A file under one of the three patch roots. */
  datatype Loc = Loc(target: Target, rel: string)

  type Tree = map<Loc, Hash>

  datatype Change = Change(before: Option<Hash>, after: Option<Hash>)

  /** A component as applied at one root: the exact hashes before and after, file by file. */
  datatype Patch = Patch(name: string, files: map<Loc, Change>)

  /** validate_component: at least one file, and every file changes. */
  predicate Valid(c: Patch) {
    c.files != map[] && forall p :: p in c.files ==> c.files[p].before != c.files[p].after
  }

  predicate AllBefore(t: Tree, c: Patch) {
    forall p :: p in c.files ==> Look(t, p) == c.files[p].before
  }

  predicate AllAfter(t: Tree, c: Patch) {
    forall p :: p in c.files ==> Look(t, p) == c.files[p].after
  }

  /** What a file holds once c is applied: patch maps the before-hash of a file to its after-hash. */
  function AfterAt(t: Tree, c: Patch, p: Loc): Option<Hash> {
    if p in c.files then c.files[p].after else Look(t, p)
  }

  function Patched(t: Tree, c: Patch): (t': Tree)
    ensures forall p :: Look(t', p) == AfterAt(t, c, p)
  {
    map p | p in t.Keys + c.files.Keys && AfterAt(t, c, p).Some? :: AfterAt(t, c, p).value
  }

  /** Skip what is applied, apply what is exactly before, refuse anything else. */
  function ApplyOne(t: Tree, c: Patch): Option<Tree> {
    if AllAfter(t, c) then Some(t)
    else if AllBefore(t, c) then Some(Patched(t, c))
    else None
  }

  function Run(t: Tree, cs: seq<Patch>): Option<Tree>
    decreases |cs|
  {
    if cs == [] then Some(t)
    else
      var t' := ApplyOne(t, cs[0]);
      if t'.None? then None else Run(t'.value, cs[1..])
  }

  predicate Disjoint(a: Patch, b: Patch) {
    a.files.Keys !! b.files.Keys
  }

  lemma SameLooks(a: Tree, b: Tree)
    requires forall p :: Look(a, p) == Look(b, p)
    ensures a == b
  {
    forall p | p in a ensures p in b && a[p] == b[p] {
      assert Look(a, p) == Look(b, p);
    }
    forall p | p in b ensures p in a {
      assert Look(a, p) == Look(b, p);
    }
  }

  lemma OtherFilesKept(t: Tree, c: Patch, p: Loc)
    requires p !in c.files && ApplyOne(t, c).Some?
    ensures Look(ApplyOne(t, c).value, p) == Look(t, p)
  {
  }

  lemma SameFilesSameFate(t: Tree, t': Tree, c: Patch)
    requires forall p :: p in c.files ==> Look(t, p) == Look(t', p)
    ensures AllBefore(t, c) == AllBefore(t', c) && AllAfter(t, c) == AllAfter(t', c)
    ensures ApplyOne(t, c).Some? == ApplyOne(t', c).Some?
  {
  }

  /** What a patch needs and what it leaves: every file of it exactly before, or every one exactly after; then every one
      after, and no other file changed. */
  lemma AppliesIff(t: Tree, c: Patch)
    ensures ApplyOne(t, c).Some? <==>
            || (forall p :: p in c.files ==> Look(t, p) == c.files[p].before)
            || (forall p :: p in c.files ==> Look(t, p) == c.files[p].after)
    ensures ApplyOne(t, c).Some? ==>
              forall p :: Look(ApplyOne(t, c).value, p) == if p in c.files then c.files[p].after else Look(t, p)
  {
  }

  /** Two patches with no file in common commute: same tree, same refusals. */
  lemma {:induction false} DisjointCommute(t: Tree, a: Patch, b: Patch)
    requires Disjoint(a, b)
    ensures Run(t, [a, b]) == Run(t, [b, a])
  {
    TwoSteps(t, a, b);
    TwoSteps(t, b, a);
    if ApplyOne(t, a).Some? {
      SameFilesSameFate(t, ApplyOne(t, a).value, b);
    }
    if ApplyOne(t, b).Some? {
      SameFilesSameFate(t, ApplyOne(t, b).value, a);
    }
    if ApplyOne(t, a).Some? && ApplyOne(t, b).Some? {
      var ab := ApplyOne(ApplyOne(t, a).value, b).value;
      var ba := ApplyOne(ApplyOne(t, b).value, a).value;
      SameLooks(ab, ba);
    }
  }

  lemma {:induction false} TwoSteps(t: Tree, a: Patch, b: Patch)
    ensures Run(t, [a, b]) == if ApplyOne(t, a).None? then None else ApplyOne(ApplyOne(t, a).value, b)
  {
    assert [a, b][1..] == [b];
    if ApplyOne(t, a).Some? {
      OneStep(ApplyOne(t, a).value, b);
    }
  }

  lemma {:induction false} OneStep(t: Tree, c: Patch)
    ensures Run(t, [c]) == ApplyOne(t, c)
  {
    assert [c][1..] == [];
  }

  lemma {:induction false} RunConcat(t: Tree, xs: seq<Patch>, ys: seq<Patch>)
    ensures Run(t, xs + ys) == if Run(t, xs).None? then None else Run(Run(t, xs).value, ys)
    decreases |xs|
  {
    if xs == [] {
      assert xs + ys == ys;
    } else {
      assert (xs + ys)[1..] == xs[1..] + ys;
      if ApplyOne(t, xs[0]).Some? {
        RunConcat(ApplyOne(t, xs[0]).value, xs[1..], ys);
      }
    }
  }

  /** A patch moves to the front past patches it shares no file with. */
  lemma {:induction false} MoveToFront(t: Tree, xs: seq<Patch>, c: Patch)
    requires forall x :: x in xs ==> Disjoint(x, c)
    ensures Run(t, xs + [c]) == Run(t, [c] + xs)
    decreases |xs|
  {
    if xs == [] {
      assert xs + [c] == [c] + xs;
    } else {
      var x, rest := xs[0], xs[1..];
      assert xs + [c] == [x] + (rest + [c]);
      assert [c] + xs == [c, x] + rest;
      assert [x] + ([c] + rest) == [x, c] + rest;
      RunConcat(t, [x], rest + [c]);
      RunConcat(t, [x], [c] + rest);
      if Run(t, [x]).Some? {
        MoveToFront(Run(t, [x]).value, rest, c);
      }
      DisjointCommute(t, x, c);
      RunConcat(t, [x, c], rest);
      RunConcat(t, [c, x], rest);
    }
  }
}
