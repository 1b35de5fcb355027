/**
The MTP78 graft (scripts/graft_mtp78.py): three files are backed up, rebuilt from the backups and atomically
replaced; --revert renames the backups back. Either script may stop before any of its atomic steps.
*/
module Graft {
  import opened Options

  datatype Which = LShard | Idx | Cfg

  const EXPERTS := "model.layers.78.mlp.experts."
  const LSHARD := "model-layer-078.safetensors"
  const LAYER78 := "layers.78"

  type Tensor = nat

  type Tensors = map<string, Tensor>

  /** The tail's expert range, when there is a tail and when the tail has one; the ignore list likewise. */
  datatype Section = Section(tail: Option<Option<(int, int)>>, quant: Option<Option<seq<string>>>)

  datatype Content =
    | ShardFile(tensors: Tensors)
    | IndexFile(weights: map<string, string>, totalSize: nat)
    | ConfigFile(own: Section, text: Option<Section>, rest: string)

  /** What the graft reads besides the three files: the overlay's tensors, the sizes of the other shards and
      the size a shard takes on disk. */
  datatype Overlay = Overlay(tensors: Tensors, shards: map<string, nat>, bytes: Tensors -> nat)

  datatype ModelDir = ModelDir(live: map<Which, Content>, orig: map<Which, Content>, marker: bool)

  // ------------------------------------------------------------------ the rebuilt files

  predicate IsExpert(name: string) {
    EXPERTS <= name
  }

  predicate StartsAt(entry: string, part: string, i: nat)
    requires i <= |entry|
  {
    part <= entry[i..]
  }

  predicate Mentions(entry: string, part: string) {
    exists i :: 0 <= i <= |entry| && StartsAt(entry, part, i)
  }

  /** The non-expert layer-78 tensors of the original shard, and all of the overlay's. */
  function GraftedTensors(original: Tensors, overlay: Tensors): Tensors {
    (map k | k in original && !IsExpert(k) :: original[k]) + overlay
  }

  function GraftedWeights(original: map<string, string>, tensors: Tensors): map<string, string> {
    (map k | k in original && !IsExpert(k) :: original[k]) + (map k | k in tensors :: LSHARD)
  }

  function SizeOf(name: string, tensors: Tensors, overlay: Overlay): Option<nat> {
    if name == LSHARD then Some(overlay.bytes(tensors)) else Look(overlay.shards, name)
  }

  ghost function TotalSize(names: set<string>, tensors: Tensors, overlay: Overlay): Option<nat> {
    if names == {} then Some(0)
    else
      var name :| name in names;
      Plus(SizeOf(name, tensors, overlay), TotalSize(names - {name}, tensors, overlay))
  }

  function Plus(a: Option<nat>, b: Option<nat>): Option<nat> {
    if a.None? || b.None? then None else Some(a.value + b.value)
  }

  function KeptIgnores(entries: seq<string>): seq<string> {
    if entries == [] then []
    else
      KeptIgnores(entries[..|entries| - 1]) +
      if Mentions(entries[|entries| - 1], LAYER78) then [] else [entries[|entries| - 1]]
  }

  /** A tail without its range stops the script. */
  predicate Readable(s: Section) {
    s.tail.Some? ==> s.tail.value.Some?
  }

  predicate ReadableConfig(c: Content)
    requires c.ConfigFile?
  {
    Readable(c.own) && (c.text.Some? ==> Readable(c.text.value))
  }

  function GraftedSection(s: Section): Section {
    Section(if s.tail.Some? && s.tail.value.Some? && s.tail.value.value.1 < 78
            then Some(Some((s.tail.value.value.0, 78))) else s.tail,
            if s.quant.None? then None
            else Some(Some(KeptIgnores(if s.quant.value.Some? then s.quant.value.value else []))))
  }

  /** The three files exist and are what their names say. */
  predicate Shaped(files: map<Which, Content>) {
    && files.Keys == {LShard, Idx, Cfg}
    && files[LShard].ShardFile? && files[Idx].IndexFile? && files[Cfg].ConfigFile?
  }

  /** The grafted form of one file; None is a shard named by the index that is not on disk, or a tail without
      its range. */
  ghost function Grafted(original: map<Which, Content>, overlay: Overlay, which: Which): Option<Content>
    requires Shaped(original)
  {
    var tensors := GraftedTensors(original[LShard].tensors, overlay.tensors);
    match which
    case LShard => Some(ShardFile(tensors))
    case Idx =>
      var weights := GraftedWeights(original[Idx].weights, tensors);
      var total := TotalSize(weights.Values, tensors, overlay);
      if total.None? then None else Some(IndexFile(weights, total.value))
    case Cfg =>
      var c := original[Cfg];
      if !ReadableConfig(c) then None
      else Some(ConfigFile(GraftedSection(c.own), if c.text.None? then None else Some(GraftedSection(c.text.value)), c.rest))
  }

  // ------------------------------------------------------------------ atomic steps

  datatype Action = Forward(overlay: Overlay, budget: nat) | Revert(budget: nat)

  const FILES: seq<Which> := [LShard, Idx, Cfg]

  /** Step k of a forward run: three backups, three rebuilds, the marker. None stops the script. */
  ghost function ForwardStep(d: ModelDir, overlay: Overlay, k: nat): Option<ModelDir>
    requires k < 7
  {
    if k < 3 then
      if FILES[k] in d.orig then Some(d)
      else if FILES[k] in d.live then Some(d.(orig := d.orig[FILES[k] := d.live[FILES[k]]]))
      else None
    else if k < 6 then
      if !Shaped(d.orig) then None
      else
        var file := Grafted(d.orig, overlay, FILES[k - 3]);
        if file.None? then None else Some(d.(live := d.live[FILES[k - 3] := file.value]))
    else Some(d.(marker := true))
  }

  /** Step k of a revert: three renames, the marker. */
  function RevertStep(d: ModelDir, k: nat): ModelDir
    requires k < 4
  {
    if k == 3 then d.(marker := false)
    else if FILES[k] in d.orig then ModelDir(d.live[FILES[k] := d.orig[FILES[k]]], d.orig - {FILES[k]}, d.marker)
    else d
  }

  /** The first n steps, or as many as a forward run gets through, and how many those were. */
  ghost function ForwardRun(d: ModelDir, overlay: Overlay, n: nat): (ModelDir, nat)
    requires n <= 7
  {
    if n == 0 then (d, 0)
    else
      var so := ForwardRun(d, overlay, n - 1);
      if so.1 < n - 1 then so
      else
        var next := ForwardStep(so.0, overlay, n - 1);
        if next.None? then so else (next.value, n)
  }

  function RevertRun(d: ModelDir, n: nat): ModelDir
    requires n <= 4
  {
    if n == 0 then d else RevertStep(RevertRun(d, n - 1), n - 1)
  }

  // ------------------------------------------------------------------ crash consistency

  ghost predicate Backed(d: ModelDir, pristine: map<Which, Content>, f: Which) {
    && f in d.live && f in pristine
    && (if f in d.orig then d.orig[f] == pristine[f] else d.live[f] == pristine[f])
  }

  /** Each file is backed up by its original, or is itself the original. */
  ghost predicate Recoverable(d: ModelDir, pristine: map<Which, Content>) {
    Shaped(pristine) && d.live.Keys == {LShard, Idx, Cfg} && d.orig.Keys <= {LShard, Idx, Cfg} &&
    forall f :: Backed(d, pristine, f)
  }

  /** A recoverable directory after k completed forward steps. */
  ghost predicate Stage(d: ModelDir, pristine: map<Which, Content>, overlay: Overlay, k: nat) {
    && Recoverable(d, pristine)
    && (forall i :: 0 <= i < 3 && i < k ==> FILES[i] in d.orig)
    && (forall i :: 0 <= i < 3 && i + 3 < k ==> Rebuilt(d, pristine, overlay, FILES[i]))
    && (k == 7 ==> d.marker)
  }

  ghost predicate Rebuilt(d: ModelDir, pristine: map<Which, Content>, overlay: Overlay, f: Which)
    requires Shaped(pristine)
  {
    f in d.live && Grafted(pristine, overlay, f) == Some(d.live[f])
  }

  lemma OriginalsBacked(d: ModelDir, pristine: map<Which, Content>)
    requires Recoverable(d, pristine) && forall i :: 0 <= i < 3 ==> FILES[i] in d.orig
    ensures d.orig == pristine
  {
    assert FILES[0] in d.orig && FILES[1] in d.orig && FILES[2] in d.orig;
    forall f | f in d.orig ensures d.orig[f] == pristine[f] {
      assert Backed(d, pristine, f);
    }
  }

  lemma BackupAdvances(d: ModelDir, pristine: map<Which, Content>, overlay: Overlay, k: nat)
    requires k < 3 && Stage(d, pristine, overlay, k)
    ensures ForwardStep(d, overlay, k).Some? && Stage(ForwardStep(d, overlay, k).value, pristine, overlay, k + 1)
  {
    hide Grafted;
    assert Backed(d, pristine, FILES[k]);
    var d' := ForwardStep(d, overlay, k).value;
    forall f ensures Backed(d', pristine, f) {
      assert Backed(d, pristine, f);
    }
  }

  lemma RebuildAdvances(d: ModelDir, pristine: map<Which, Content>, overlay: Overlay, k: nat)
    requires 3 <= k < 6 && Stage(d, pristine, overlay, k)
    ensures ForwardStep(d, overlay, k).Some? <==> Grafted(pristine, overlay, FILES[k - 3]).Some?
    ensures ForwardStep(d, overlay, k).Some? ==> Stage(ForwardStep(d, overlay, k).value, pristine, overlay, k + 1)
  {
    hide Grafted;
    OriginalsBacked(d, pristine);
    if Grafted(pristine, overlay, FILES[k - 3]).Some? {
      var d' := ForwardStep(d, overlay, k).value;
      forall f ensures Backed(d', pristine, f) {
        assert Backed(d, pristine, f);
      }
      forall i | 0 <= i < 3 && i + 3 < k + 1 ensures Rebuilt(d', pristine, overlay, FILES[i]) {
        assert i + 3 < k ==> Rebuilt(d, pristine, overlay, FILES[i]) && FILES[i] != FILES[k - 3];
      }
    }
  }

  lemma MarkAdvances(d: ModelDir, pristine: map<Which, Content>, overlay: Overlay)
    requires Stage(d, pristine, overlay, 6)
    ensures ForwardStep(d, overlay, 6).Some? && Stage(ForwardStep(d, overlay, 6).value, pristine, overlay, 7)
  {
    hide Grafted;
    var d' := ForwardStep(d, overlay, 6).value;
    forall f ensures Backed(d', pristine, f) {
      assert Backed(d, pristine, f);
    }
    forall i | 0 <= i < 3 ensures Rebuilt(d', pristine, overlay, FILES[i]) {
      assert Rebuilt(d, pristine, overlay, FILES[i]);
    }
  }

  /** The rebuilt shard is on disk by then. */
  predicate OnDisk(shard: string, overlay: Overlay) {
    shard == LSHARD || shard in overlay.shards
  }

  /** Every shard the original index names for a tensor that the graft keeps is on disk, and every tail of the
      configuration has its range. */
  predicate Buildable(pristine: map<Which, Content>, overlay: Overlay)
    requires Shaped(pristine)
  {
    var weights := pristine[Idx].weights;
    var tensors := GraftedTensors(pristine[LShard].tensors, overlay.tensors);
    && (forall k :: k in weights && !IsExpert(k) && k !in tensors ==> OnDisk(weights[k], overlay))
    && ReadableConfig(pristine[Cfg])
  }

  lemma ShardOnDisk(overlay: Overlay)
    ensures OnDisk(LSHARD, overlay)
  {
  }

  lemma SizeKnown(name: string, tensors: Tensors, overlay: Overlay)
    ensures SizeOf(name, tensors, overlay).Some? <==> OnDisk(name, overlay)
  {
  }

  lemma {:induction false} TotalSizeIff(names: set<string>, tensors: Tensors, overlay: Overlay)
    ensures TotalSize(names, tensors, overlay).Some? <==> forall name :: name in names ==> OnDisk(name, overlay)
    decreases |names|
  {
    hide OnDisk, SizeOf;
    if names != {} {
      var name :| name in names &&
        TotalSize(names, tensors, overlay) ==
        Plus(SizeOf(name, tensors, overlay), TotalSize(names - {name}, tensors, overlay));
      SizeKnown(name, tensors, overlay);
      var rest := names - {name};
      var a, b := SizeOf(name, tensors, overlay), TotalSize(rest, tensors, overlay);
      assert TotalSize(names, tensors, overlay) == Plus(a, b);
      assert Plus(a, b).Some? <==> a.Some? && b.Some?;
      TotalSizeIff(rest, tensors, overlay);
      assert forall other :: other in names <==> other == name || other in rest;
    }
  }

  /** What stops a rebuild, file by file: only the index and the configuration can. */
  lemma {:induction false} BuildableIff(pristine: map<Which, Content>, overlay: Overlay)
    requires Shaped(pristine)
    ensures Grafted(pristine, overlay, LShard).Some?
    ensures Buildable(pristine, overlay) <==>
            Grafted(pristine, overlay, Idx).Some? && Grafted(pristine, overlay, Cfg).Some?
  {
    hide TotalSize, IsExpert, OnDisk;
    var named, tensors := pristine[Idx].weights, GraftedTensors(pristine[LShard].tensors, overlay.tensors);
    var weights := GraftedWeights(named, tensors);
    TotalSizeIff(weights.Values, tensors, overlay);
    if forall name :: name in weights.Values ==> OnDisk(name, overlay) {
      forall k | k in named && !IsExpert(k) && k !in tensors ensures OnDisk(named[k], overlay) {
        assert weights[k] == named[k] && weights[k] in weights.Values;
      }
    }
    if forall k :: k in named && !IsExpert(k) && k !in tensors ==> OnDisk(named[k], overlay) {
      forall name | name in weights.Values ensures OnDisk(name, overlay) {
        var k :| k in weights && weights[k] == name;
        if k in tensors {
          assert weights[k] == LSHARD;
          ShardOnDisk(overlay);
        } else {
          assert k in named && weights[k] == named[k];
        }
      }
    }
  }

  lemma {:induction false} ForwardStages(d: ModelDir, pristine: map<Which, Content>, overlay: Overlay, n: nat)
    requires Recoverable(d, pristine) && n <= 7
    ensures var r := ForwardRun(d, overlay, n); r.1 <= n && Stage(r.0, pristine, overlay, r.1)
    ensures Buildable(pristine, overlay) ==> ForwardRun(d, overlay, n).1 == n
  {
    hide Stage, Recoverable, ForwardStep, Grafted, Buildable;
    if n == 0 {
      FirstStage(d, pristine, overlay);
    } else {
      ForwardStages(d, pristine, overlay, n - 1);
      var so := ForwardRun(d, overlay, n - 1);
      StageShaped(so.0, pristine, overlay, so.1);
      if so.1 == n - 1 {
        if n - 1 < 3 {
          BackupAdvances(so.0, pristine, overlay, n - 1);
        } else if n - 1 < 6 {
          RebuildAdvances(so.0, pristine, overlay, n - 1);
          BuildableIff(pristine, overlay);
        } else {
          MarkAdvances(so.0, pristine, overlay);
        }
      }
    }
  }

  lemma FirstStage(d: ModelDir, pristine: map<Which, Content>, overlay: Overlay)
    requires Recoverable(d, pristine)
    ensures Stage(d, pristine, overlay, 0)
  {
  }

  lemma StageShaped(d: ModelDir, pristine: map<Which, Content>, overlay: Overlay, k: nat)
    requires Stage(d, pristine, overlay, k)
    ensures Recoverable(d, pristine) && Shaped(pristine)
  {
  }

  lemma RevertKeeps(d: ModelDir, pristine: map<Which, Content>, k: nat)
    requires Recoverable(d, pristine) && k < 4 && forall i :: 0 <= i < 3 && i < k ==> FILES[i] !in d.orig
    ensures var d' := RevertStep(d, k);
            Recoverable(d', pristine) && forall i :: 0 <= i < 3 && i < k + 1 ==> FILES[i] !in d'.orig
  {
    var d' := RevertStep(d, k);
    forall f ensures Backed(d', pristine, f) {
      assert Backed(d, pristine, f);
    }
  }

  lemma {:induction false} RevertStages(d: ModelDir, pristine: map<Which, Content>, n: nat)
    requires Recoverable(d, pristine) && n <= 4
    ensures var d' := RevertRun(d, n);
            && Recoverable(d', pristine)
            && (forall i :: 0 <= i < 3 && i < n ==> FILES[i] !in d'.orig)
            && (n == 4 ==> !d'.marker)
  {
    hide Recoverable;
    if n > 0 {
      RevertStages(d, pristine, n - 1);
      RevertKeeps(RevertRun(d, n - 1), pristine, n - 1);
    }
  }

  function Cut(budget: nat, all: nat): nat {
    if budget < all then budget else all
  }

  /** Any sequence of forward and revert runs, each stopped after its budget of steps. */
  ghost function After(d: ModelDir, actions: seq<Action>): ModelDir {
    if actions == [] then d
    else
      var so := After(d, actions[..|actions| - 1]);
      match actions[|actions| - 1]
      case Forward(overlay, budget) => ForwardRun(so, overlay, Cut(budget, 7)).0
      case Revert(budget) => RevertRun(so, Cut(budget, 4))
  }

  function Pristine(files: map<Which, Content>): ModelDir {
    ModelDir(files, map[], false)
  }

  /** Main result: under any runs, stopped anywhere, every file keeps its original as itself or as backup. */
  lemma {:induction false} AlwaysRecoverable(pristine: map<Which, Content>, actions: seq<Action>)
    requires Shaped(pristine)
    ensures Recoverable(After(Pristine(pristine), actions), pristine)
  {
    hide ForwardRun, RevertRun, Stage;
    if actions == [] {
      forall f ensures Backed(Pristine(pristine), pristine, f) {
        OneOfThree(f);
      }
    } else {
      var so := After(Pristine(pristine), actions[..|actions| - 1]);
      AlwaysRecoverable(pristine, actions[..|actions| - 1]);
      match actions[|actions| - 1]
      case Forward(overlay, budget) =>
        ForwardStages(so, pristine, overlay, Cut(budget, 7));
        StageShaped(ForwardRun(so, overlay, Cut(budget, 7)).0, pristine, overlay, ForwardRun(so, overlay, Cut(budget, 7)).1);
      case Revert(budget) =>
        RevertStages(so, pristine, Cut(budget, 4));
    }
  }

  /** So a completed revert restores the originals and leaves no trace of the graft. */
  lemma {:induction false} CompletedRevertRestores(pristine: map<Which, Content>, actions: seq<Action>)
    requires Shaped(pristine)
    ensures RevertRun(After(Pristine(pristine), actions), 4) == Pristine(pristine)
  {
    hide After, RevertRun;
    var d := After(Pristine(pristine), actions);
    AlwaysRecoverable(pristine, actions);
    RevertStages(d, pristine, 4);
    var d' := RevertRun(d, 4);
    assert FILES[0] !in d'.orig && FILES[1] !in d'.orig && FILES[2] !in d'.orig;
    assert d'.orig.Keys == {};
    forall f | f in d'.live ensures d'.live[f] == pristine[f] {
      assert Backed(d', pristine, f);
    }
  }

  /** And a forward run completes exactly when every shard still named is on disk and every tail has its range,
      with the same grafted files as from the pristine checkpoint, whatever was cut before. */
  lemma {:induction false} CompletedForwardGrafts(pristine: map<Which, Content>, actions: seq<Action>, overlay: Overlay)
    requires Shaped(pristine)
    ensures var r := ForwardRun(After(Pristine(pristine), actions), overlay, 7);
            && (r.1 == 7 <==> Buildable(pristine, overlay))
            && (r.1 == 7 ==>
                  && r.0.marker && r.0.orig == pristine
                  && r.0 == ForwardRun(Pristine(pristine), overlay, 7).0)
  {
    hide After, ForwardRun, Grafted, Buildable;
    AlwaysRecoverable(pristine, actions);
    AlwaysRecoverable(pristine, []);
    NoActions(Pristine(pristine));
    var r := ForwardRun(After(Pristine(pristine), actions), overlay, 7);
    var r0 := ForwardRun(Pristine(pristine), overlay, 7);
    ForwardStages(After(Pristine(pristine), actions), pristine, overlay, 7);
    ForwardStages(Pristine(pristine), pristine, overlay, 7);
    if r.1 == 7 {
      GraftedFiles(r.0, pristine, overlay);
      GraftedFiles(r0.0, pristine, overlay);
      forall f | f in r.0.live ensures r.0.live[f] == r0.0.live[f] {
        assert Rebuilt(r.0, pristine, overlay, f) && Rebuilt(r0.0, pristine, overlay, f);
      }
    }
  }

  lemma OneOfThree(f: Which)
    ensures f in {LShard, Idx, Cfg}
    ensures exists i :: 0 <= i < 3 && FILES[i] == f
  {
    match f
    case LShard => assert FILES[0] == f;
    case Idx => assert FILES[1] == f;
    case Cfg => assert FILES[2] == f;
  }

  lemma {:induction false} NoActions(d: ModelDir)
    ensures After(d, []) == d
  {
  }

  lemma GraftedFiles(d: ModelDir, pristine: map<Which, Content>, overlay: Overlay)
    requires Stage(d, pristine, overlay, 7)
    ensures forall f :: Rebuilt(d, pristine, overlay, f)
    ensures d.orig == pristine && Buildable(pristine, overlay)
  {
    hide Grafted, Buildable;
    forall f ensures Rebuilt(d, pristine, overlay, f) {
      OneOfThree(f);
    }
    assert Rebuilt(d, pristine, overlay, Idx) && Rebuilt(d, pristine, overlay, Cfg);
    BuildableIff(pristine, overlay);
    OriginalsBacked(d, pristine);
  }

  // ------------------------------------------------------------------ what the grafted files say

  lemma {:induction false} KeptIgnoresAre(entries: seq<string>, x: string)
    ensures x in KeptIgnores(entries) <==> x in entries && !Mentions(x, LAYER78)
  {
    hide Mentions;
    if entries != [] {
      KeptIgnoresAre(entries[..|entries| - 1], x);
      assert entries == entries[..|entries| - 1] + [entries[|entries| - 1]];
    }
  }

  /** The grafted index agrees with the grafted shard: it names exactly the shard's tensors there, and keeps
      every other tensor that is not a layer-78 expert where it was. */
  lemma GraftedIndexAgrees(original: map<Which, Content>, overlay: Overlay, name: string)
    requires Shaped(original) && Grafted(original, overlay, Idx).Some?
    requires forall k :: k in original[Idx].weights && original[Idx].weights[k] == LSHARD ==> k in original[LShard].tensors
    ensures var shard, index := Grafted(original, overlay, LShard).value, Grafted(original, overlay, Idx).value;
            && (Look(index.weights, name) == Some(LSHARD) <==> name in shard.tensors)
            && (name !in shard.tensors && !IsExpert(name) ==> Look(index.weights, name) == Look(original[Idx].weights, name))
            && (name !in shard.tensors && IsExpert(name) ==> name !in index.weights)
  {
    hide TotalSize;
    var tensors := GraftedTensors(original[LShard].tensors, overlay.tensors);
    assert name in tensors <==> (name in original[LShard].tensors && !IsExpert(name)) || name in overlay.tensors;
  }

  /** The grafted configuration spans layer 78 and no longer ignores it; grafting it again changes nothing. */
  lemma GraftedSectionSpans(s: Section, entry: string)
    ensures var g := GraftedSection(s);
            && (Readable(s) && s.tail.Some? ==>
                  g.tail.Some? && g.tail.value.Some? && g.tail.value.value.1 >= 78 && g.tail.value.value.0 == s.tail.value.value.0)
            && (g.quant.Some? ==>
                  && g.quant.value.Some?
                  && (entry in g.quant.value.value <==>
                      s.quant.value.Some? && entry in s.quant.value.value && !Mentions(entry, LAYER78)))
            && GraftedSection(g) == g
  {
    if s.quant.Some? {
      var entries := if s.quant.value.Some? then s.quant.value.value else [];
      KeptIgnoresAre(entries, entry);
      KeptTwice(entries);
    }
  }

  lemma {:induction false} KeptTwice(entries: seq<string>)
    ensures KeptIgnores(KeptIgnores(entries)) == KeptIgnores(entries)
  {
    hide Mentions;
    if entries != [] {
      var front, last := entries[..|entries| - 1], entries[|entries| - 1];
      KeptTwice(front);
      if !Mentions(last, LAYER78) {
        assert (KeptIgnores(front) + [last])[..|KeptIgnores(front)|] == KeptIgnores(front);
      } else {
        assert KeptIgnores(front) + [] == KeptIgnores(front);
      }
    }
  }
}
