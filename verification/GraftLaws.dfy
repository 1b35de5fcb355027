/**
What a completed graft leaves in the three files, entry by entry (scripts/graft_mtp78.py).
*/
module GraftLaws {
  import opened Options
  import opened Graft
  import opened GraftScript

  predicate LayerExpert(name: string) {
    "model.layers.78.mlp.experts." <= name
  }

  /** The entry has "layers.78" in it. */
  predicate NamesLayer(entry: string) {
    exists i, j :: 0 <= i <= j <= |entry| && entry[i..j] == "layers.78"
  }

  /** The shard has the overlay's tensors, and the original's for every other name that is no layer-78 expert. */
  ghost predicate ShardSays(original: Content, overlay: Overlay, c: Content)
    requires original.ShardFile?
  {
    c.ShardFile? &&
    forall name :: Look(c.tensors, name) ==
      if name in overlay.tensors then Some(overlay.tensors[name])
      else if LayerExpert(name) then None
      else Look(original.tensors, name)
  }

  /** One file name's size: the grafted shard as it is written, any other as it is on disk. */
  function SizeOnDisk(shard: string, tensors: Tensors, overlay: Overlay): nat
    requires shard == "model-layer-078.safetensors" || shard in overlay.shards
  {
    if shard == "model-layer-078.safetensors" then overlay.bytes(tensors) else overlay.shards[shard]
  }

  predicate AllOnDisk(shards: seq<string>, overlay: Overlay) {
    forall s :: s in shards ==> s == "model-layer-078.safetensors" || s in overlay.shards
  }

  function SizesOnDisk(shards: seq<string>, tensors: Tensors, overlay: Overlay): nat
    requires AllOnDisk(shards, overlay)
  {
    if shards == [] then 0 else SizeOnDisk(shards[0], tensors, overlay) + SizesOnDisk(shards[1..], tensors, overlay)
  }

  /** The shards the index names, each once, in whatever order. */
  ghost predicate ListsShards(shards: seq<string>, weights: map<string, string>) {
    && (forall i, j :: 0 <= i < j < |shards| ==> shards[i] != shards[j])
    && (forall s :: s in shards <==> s in weights.Values)
  }

  /** The index names the grafted shard for each of its tensors and keeps where any other tensor was that is no
      layer-78 expert; its total is the size of the shards it names, each counted once. */
  ghost predicate IndexSays(original: Content, shard: Content, overlay: Overlay, c: Content)
    requires original.IndexFile? && shard.ShardFile?
  {
    && c.IndexFile?
    && (forall name :: Look(c.weights, name) ==
          if name in shard.tensors then Some("model-layer-078.safetensors")
          else if LayerExpert(name) then None
          else Look(original.weights, name))
    && (forall s :: s in c.weights.Values ==> s == "model-layer-078.safetensors" || s in overlay.shards)
    && (forall shards :: ListsShards(shards, c.weights) && AllOnDisk(shards, overlay) ==>
          c.totalSize == SizesOnDisk(shards, shard.tensors, overlay))
  }

  /** The expert range reaches layer 78, and the ignore list is the old one without the entries that name it. */
  ghost predicate SectionSays(s: Section, g: Section) {
    && (s.tail.None? ==> g.tail.None?)
    && (s.tail.Some? ==>
          s.tail.value.Some? && g.tail == Some(Some((s.tail.value.value.0, if s.tail.value.value.1 < 78 then 78 else s.tail.value.value.1))))
    && (s.quant.None? ==> g.quant.None?)
    && (s.quant.Some? ==> g.quant.Some? && g.quant.value.Some?)
    && (s.quant.Some? ==> LeavesOut(if s.quant.value.Some? then s.quant.value.value else [], g.quant.value.value))
  }

  /** b is a without the entries that name the layer. */
  ghost predicate LeavesOut(a: seq<string>, b: seq<string>)
    decreases |a|
  {
    if a == [] then b == []
    else if NamesLayer(a[0]) then LeavesOut(a[1..], b)
    else b != [] && b[0] == a[0] && LeavesOut(a[1..], b[1..])
  }

  /** Both sections of the configuration are grafted and nothing else of it changes. */
  ghost predicate ConfigSays(original: Content, c: Content)
    requires original.ConfigFile?
  {
    && c.ConfigFile? && c.rest == original.rest && SectionSays(original.own, c.own)
    && (original.text.Some? <==> c.text.Some?)
    && (original.text.Some? ==> SectionSays(original.text.value, c.text.value))
  }

  // ------------------------------------------------------------------ file by file

  lemma ShardLaw(original: map<Which, Content>, overlay: Overlay)
    requires Shaped(original)
    ensures Grafted(original, overlay, LShard).Some?
    ensures ShardSays(original[LShard], overlay, Grafted(original, overlay, LShard).value)
  {
  }

  lemma {:induction false} SizesSum(shards: seq<string>, names: set<string>, tensors: Tensors, overlay: Overlay)
    requires (forall i, j :: 0 <= i < j < |shards| ==> shards[i] != shards[j]) && AllOnDisk(shards, overlay)
    requires forall s :: s in shards <==> s in names
    ensures TotalSize(names, tensors, overlay) == Some(SizesOnDisk(shards, tensors, overlay))
    decreases |shards|
  {
    hide TotalSize;
    if shards == [] {
      assert names == {};
      NoSize(tensors, overlay);
    } else {
      var first, rest := shards[0], shards[1..];
      assert shards == [first] + rest;
      TotalSizeWithout(names, first, tensors, overlay);
      SizesSum(rest, names - {first}, tensors, overlay);
    }
  }

  lemma {:induction false} NoSize(tensors: Tensors, overlay: Overlay)
    ensures TotalSize({}, tensors, overlay) == Some(0)
  {
  }

  lemma {:induction false} IndexLaw(original: map<Which, Content>, overlay: Overlay)
    requires Shaped(original) && Grafted(original, overlay, Idx).Some?
    ensures Grafted(original, overlay, LShard).Some? && Grafted(original, overlay, LShard).value.ShardFile?
    ensures IndexSays(original[Idx], Grafted(original, overlay, LShard).value, overlay, Grafted(original, overlay, Idx).value)
  {
    hide TotalSize;
    var tensors := GraftedTensors(original[LShard].tensors, overlay.tensors);
    var c := Grafted(original, overlay, Idx).value;
    TotalSizeIff(c.weights.Values, tensors, overlay);
    forall s | s in c.weights.Values ensures s == "model-layer-078.safetensors" || s in overlay.shards {
      assert OnDisk(s, overlay);
    }
    forall shards | ListsShards(shards, c.weights) && AllOnDisk(shards, overlay)
      ensures c.totalSize == SizesOnDisk(shards, tensors, overlay)
    {
      SizesSum(shards, c.weights.Values, tensors, overlay);
    }
  }

  lemma NamesLayerIff(entry: string)
    ensures NamesLayer(entry) <==> Mentions(entry, LAYER78)
  {
    if Mentions(entry, LAYER78) {
      var i :| 0 <= i <= |entry| && StartsAt(entry, LAYER78, i);
      assert entry[i..][..|LAYER78|] == entry[i..i + |LAYER78|];
      assert entry[i..i + |LAYER78|] == "layers.78";
    }
    if NamesLayer(entry) {
      var i, j :| 0 <= i <= j <= |entry| && entry[i..j] == "layers.78";
      assert entry[i..] == entry[i..j] + entry[j..];
      assert StartsAt(entry, LAYER78, i);
    }
  }

  lemma {:induction false} KeptConcat(a: seq<string>, b: seq<string>)
    ensures KeptIgnores(a + b) == KeptIgnores(a) + KeptIgnores(b)
    decreases |b|
  {
    hide Mentions;
    if b == [] {
      assert a + b == a && KeptIgnores(a) + [] == KeptIgnores(a);
    } else {
      assert (a + b)[..|a + b| - 1] == a + b[..|b| - 1];
      KeptConcat(a, b[..|b| - 1]);
    }
  }

  lemma {:induction false} KeptLeavesOut(entries: seq<string>)
    ensures LeavesOut(entries, KeptIgnores(entries))
  {
    hide Mentions, NamesLayer;
    if entries != [] {
      var first, rest := entries[0], entries[1..];
      assert entries == [first] + rest;
      KeptConcat([first], rest);
      KeptOne(first);
      NamesLayerIff(first);
      KeptLeavesOut(rest);
      var kept := KeptIgnores(rest);
      assert KeptIgnores(entries) == if NamesLayer(first) then kept else [first] + kept;
      assert ([first] + kept)[1..] == kept;
    }
  }

  lemma {:induction false} KeptOne(x: string)
    ensures KeptIgnores([x]) == if Mentions(x, LAYER78) then [] else [x]
  {
    assert [x][..0] == [] && KeptIgnores([]) == [];
  }

  lemma SectionLaw(s: Section)
    requires Readable(s)
    ensures SectionSays(s, GraftedSection(s))
  {
    hide KeptIgnores, LeavesOut;
    if s.quant.Some? {
      KeptLeavesOut(if s.quant.value.Some? then s.quant.value.value else []);
    }
  }

  lemma ConfigLaw(original: map<Which, Content>, overlay: Overlay)
    requires Shaped(original) && Grafted(original, overlay, Cfg).Some?
    ensures ConfigSays(original[Cfg], Grafted(original, overlay, Cfg).value)
  {
    hide TotalSize, GraftedSection, SectionSays;
    SectionLaw(original[Cfg].own);
    if original[Cfg].text.Some? {
      SectionLaw(original[Cfg].text.value);
    }
  }

  /** Main result: whatever runs were stopped before, a forward run that completes leaves exactly these three files,
      made from the originals, which it keeps as backups. */
  lemma {:induction false} CompletedGraftSays(pristine: map<Which, Content>, actions: seq<Action>, overlay: Overlay)
    requires Shaped(pristine) && ForwardRun(After(Pristine(pristine), actions), overlay, 7).1 == 7
    ensures var d := ForwardRun(After(Pristine(pristine), actions), overlay, 7).0;
            && d.orig == pristine && d.marker && d.live.Keys == {LShard, Idx, Cfg}
            && ShardSays(pristine[LShard], overlay, d.live[LShard])
            && IndexSays(pristine[Idx], d.live[LShard], overlay, d.live[Idx])
            && ConfigSays(pristine[Cfg], d.live[Cfg])
  {
    hide After, ForwardRun, Grafted, Buildable, Stage, ShardSays, IndexSays, ConfigSays;
    var so := After(Pristine(pristine), actions);
    var d := ForwardRun(so, overlay, 7).0;
    AlwaysRecoverable(pristine, actions);
    ForwardStages(so, pristine, overlay, 7);
    StageShaped(d, pristine, overlay, 7);
    GraftedFiles(d, pristine, overlay);
    StageMarked(d, pristine, overlay);
    assert Rebuilt(d, pristine, overlay, LShard) && Rebuilt(d, pristine, overlay, Idx) && Rebuilt(d, pristine, overlay, Cfg);
    ShardLaw(pristine, overlay);
    IndexLaw(pristine, overlay);
    ConfigLaw(pristine, overlay);
  }

  lemma StageMarked(d: ModelDir, pristine: map<Which, Content>, overlay: Overlay)
    requires Stage(d, pristine, overlay, 7)
    ensures d.marker
  {
    hide Grafted;
  }
}
