/**
The reconciler as it runs (scripts/reconcile_checkpoint.py: baseline, reconcile_text_config,
build_wrapper, reconcile_index, reconcile_chat_template, markers, main), rewriting the files of a model
directory one after another. It is proved to compute Reconciler.Reconciled, or nothing in a dry run.
*/
module ReconcileScript {
  import opened Options
  import opened NameOrder
  import opened Reconciler

  class Checkpoint {
    var disk: Disk

    /** baseline: the cache, or the first trustworthy document for each field. */
    method FindBaseline(text: Fields, dry: bool) returns (base: Baseline)
      modifies this
      ensures base == BaselineFor(old(disk), text)
      ensures disk == if dry then old(disk) else old(disk).(baseline := Some(base))
    {
      if disk.baseline.Some? && disk.baseline.value.checkpoint == disk.checkpoint {
        base := disk.baseline.value;
        assert disk == disk.(baseline := Some(base));
        return;
      }
      var docs := Sources(disk, text);
      var moe: Option<Range> := None;
      var n := 0;
      assert docs[0..] == docs;
      while n < |docs| && moe.None?
        invariant n <= |docs|
        invariant (if moe.Some? then moe else FirstPregraft(docs[n..])) == FirstPregraft(docs)
        decreases |docs| - n
      {
        assert docs[n..][1..] == docs[n + 1..];
        if Pregraft(docs[n]) {
          moe := MoeLayers(docs[n]);
        }
        n := n + 1;
      }
      var ignore: seq<Pattern> := [];
      n := 0;
      while n < |docs| && ignore == []
        invariant n <= |docs|
        invariant (if ignore != [] then ignore else FirstIgnore(docs[n..])) == FirstIgnore(docs)
        decreases |docs| - n
      {
        assert docs[n..][1..] == docs[n + 1..];
        ignore := Layer78Patterns(Ignores(docs[n]));
        n := n + 1;
      }
      var fallback := (if MoeLayers(text).Some? then MoeLayers(text).value.0 else 3, MTP_LAYER - 1);
      base := Baseline(disk.checkpoint, if moe.Some? then moe.value else fallback, ignore, text.architectures);
      if !dry {
        disk := disk.(baseline := Some(base));
      }
    }

    /** The wrapper, or None when there is nothing to build it from. */
    method BuildWrapper(text: Config, wrapper: Option<Fields>) returns (merged: Option<Config>)
      requires disk.config.Some? && wrapper == WrapperOf(disk.config.value)
      ensures merged.Some? <==> WrapperSource(disk).Some?
      ensures merged.Some? ==> merged.value == Merged(WrapperSource(disk).value, text)
    {
      var vision := disk.visionConfig;
      if vision.None? && wrapper.Some? {
        vision := wrapper;
      }
      if vision.None? {
        return None;
      }
      var outer := vision.value.(quant := Own(text).quant, architectures := Some(GLM5V));
      if Own(text).tail.Some? {
        outer := outer.(tail := Own(text).tail);
      }
      merged := Some(Wrapped(outer, text));
    }

    /** Rebuild the map from the shards that exist; problem is an unreadable shard. */
    method RebuildIndex(on: bool, dry: bool) returns (problem: bool)
      modifies this
      ensures disk == if dry then old(disk) else old(disk).(index := NewIndex(old(disk), on))
      ensures problem <==> old(disk).index.Some? && !AllReadable(old(disk), on)
    {
      hide Mapped;
      ghost var d := disk;
      problem := false;
      assert d == d.(index := d.index);
      if disk.index.None? {
        return;
      }
      var list := Sort(Listed(disk, on));
      OneListing(list, Sorted(Listed(disk, on)), Listed(disk, on));
      if list == [] {
        return;
      }
      var wm: map<string, string>, total := map[], 0;
      for n := 0 to |list|
        invariant disk == d
        invariant Readable(d.shards, list[..n])
        invariant wm == WeightMap(d.shards, list[..n]) && total == TotalSize(d.shards, list[..n])
      {
        assert list[n] in Listed(d, on);
        assert list[..n + 1] == list[..n] + [list[n]] && list[..n + 1][..n] == list[..n];
        var shard := disk.shards[list[n]];
        if shard.tensors.None? {
          assert list[n] in list;
          problem := true;
          return;
        }
        wm := AddTensors(wm, shard.tensors.value, list[n]);
        total := total + shard.size;
      }
      assert list[..|list|] == list;
      if disk.index.value.weights == wm {
        return;
      }
      if !dry {
        disk := disk.(index := Some(Index(wm, total)));
      }
    }

    method RestoreTemplate(on: bool, dry: bool)
      modifies this
      ensures disk == if dry then old(disk)
                      else old(disk).(template := NewTemplate(old(disk), on), textTemplate := NewTextTemplate(old(disk), on))
    {
      if on && disk.visionTemplate.Some? {
        var already := disk.template == disk.visionTemplate;
        if disk.template.Some? && disk.textTemplate.None? && !already {
          if !dry {
            disk := disk.(textTemplate := disk.template);
          }
        }
        if !already {
          if !dry {
            disk := disk.(template := disk.visionTemplate);
          }
        }
      } else if !on && disk.textTemplate.Some? {
        if disk.template != disk.textTemplate {
          if !dry {
            disk := disk.(template := disk.textTemplate);
          }
        }
      }
    }

    method SetMarkers(layer78: Layer78, on: bool, dry: bool)
      modifies this
      ensures disk == if dry then old(disk)
                      else old(disk).(grafted := old(disk).grafted && layer78 == Trellis,
                                      trellisMarker := layer78 == Trellis, visionMarker := on)
    {
      if dry {
        return;
      }
      if layer78 != Trellis && disk.grafted {
        disk := disk.(grafted := false);
      }
      disk := disk.(trellisMarker := layer78 == Trellis);
      disk := disk.(visionMarker := on);
    }

    /** The configuration part: reconcile the text, wrap it when vision can be on, write it when it changed. */
    method Reconfigure(vision: bool, dry: bool) returns (on: bool)
      requires Usable(disk)
      modifies this
      ensures on == VisionOn(old(disk), vision)
      ensures disk == if dry then old(disk)
                      else old(disk).(config := Some(NewConfig(old(disk), vision)),
                                      baseline := Some(BaselineFor(old(disk), Own(TextOf(old(disk).config.value)))))
    {
      hide Captured, ReconciledText, Merged, Holds, BaselineFor, HasVisionShards;
      ghost var d := disk;
      var wrapper := WrapperOf(disk.config.value);
      var text := TextOf(disk.config.value);
      var layer78 := Observed(disk);
      on := vision && HasVisionShards(disk);
      var base := FindBaseline(Own(text), dry);
      if layer78 != Absent {
        text := WithOwn(text, ReconciledText(Own(text), base, layer78));
      }
      assert text == NewText(d);
      var config := text;
      if on {
        var wrapped := BuildWrapper(text, wrapper);
        if wrapped.None? {
          on := false;
        } else {
          config := wrapped.value;
        }
      }
      assert config == NewConfig(d, vision);
      if !dry && Some(config) != disk.config {
        disk := disk.(config := Some(config));
      }
    }

    /** Exit code 0 exactly for a usable checkpoint with a readable listing; a dry run changes nothing. */
    method Run(vision: bool, dry: bool) returns (exit: int)
      modifies this
      ensures dry ==> disk == old(disk)
      ensures !dry ==> disk == Reconciled(old(disk), vision)
      ensures exit == if Succeeds(old(disk), vision) then 0 else 1
    {
      hide Captured, NewTemplate, NewTextTemplate, NewIndex, AllReadable, Holds, NewConfig, BaselineFor, VisionOn;
      ghost var d := disk;
      if disk.config.None? {
        return 1;
      }
      var layer78 := Observed(disk);
      if layer78 == Unreadable {
        return 1;
      }
      var on := Reconfigure(vision, dry);
      SameIndex(d, disk, on);
      var problem := RebuildIndex(on, dry);
      SameTemplates(d, disk, on);
      RestoreTemplate(on, dry);
      SetMarkers(layer78, on, dry);
      exit := if problem then 1 else 0;
    }
  }

  lemma SameIndex(d: Disk, e: Disk, on: bool)
    requires d.shards == e.shards && d.index == e.index
    ensures NewIndex(d, on) == NewIndex(e, on) && AllReadable(d, on) == AllReadable(e, on)
  {
  }

  lemma SameTemplates(d: Disk, e: Disk, on: bool)
    requires d.template == e.template && d.textTemplate == e.textTemplate && d.visionTemplate == e.visionTemplate
    ensures NewTemplate(d, on) == NewTemplate(e, on) && NewTextTemplate(d, on) == NewTextTemplate(e, on)
  {
  }

  /** Every tensor of the shard now maps to it. */
  method AddTensors(wm: map<string, string>, tensors: seq<Tensor>, shard: string) returns (wm': map<string, string>)
    ensures wm' == Mapped(wm, tensors, shard)
  {
    wm' := wm;
    for i := 0 to |tensors|
      invariant wm' == Mapped(wm, tensors[..i], shard)
    {
      assert tensors[..i + 1][..i] == tensors[..i];
      wm' := wm'[tensors[i].name := shard];
    }
    assert tensors[..|tensors|] == tensors;
  }
}
