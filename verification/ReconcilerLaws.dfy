/**
What a reconciled checkpoint agrees on: configuration, weight index and marker, and turning vision on and
off again (scripts/reconcile_checkpoint.py: main, reconcile_index, build_wrapper).
*/
module ReconcilerLaws {
  import opened Options
  import opened NameOrder
  import opened Reconciler

  // ------------------------------------------------------------------ on and off again

  lemma OffAfterOn(d: Disk)
    requires Usable(d) && CachePristine(d) && !NestedTextOnly(d, true)
    ensures Reconciled(Reconciled(d, true), false).config == Reconciled(d, false).config
  {
    hide Captured, ReconciledText, NewIndex, Observed, NewText, HasVisionShards, NewTemplate, NewTextTemplate;
    var d' := Reconciled(d, true);
    SameDecisions(d, true);
    NewTextKeeps(d);
    NewTextSettled(d, d');
  }

  /** Vision on and then off leaves the configuration that vision off would have left directly, except exactly
      when vision could not be turned on around a wrapper inside a wrapper. */
  lemma OnThenOffIsOff(d: Disk)
    requires Usable(d) && CachePristine(d)
    ensures Reconciled(Reconciled(d, true), false).config == Reconciled(d, false).config <==> !NestedTextOnly(d, true)
  {
    hide Captured, ReconciledText, NewIndex, Observed, NewText, HasVisionShards, NewTemplate, NewTextTemplate, BaselineFor;
    if NestedTextOnly(d, true) {
      var d' := Reconciled(d, true);
      SameDecisions(d, true);
      NewTextKeeps(d);
      NewTextKeeps(d');
      assert Depth(NewConfig(d', false)) == Depth(NewConfig(d, false)) - 1;
    } else {
      OffAfterOn(d);
    }
  }

  // ------------------------------------------------------------------ agreement

  /** The configuration is wrapped exactly when the marker says so, except for a wrapper inside a wrapper with
      vision off. */
  lemma MarkerMatchesConfig(d: Disk, vision: bool)
    requires Usable(d)
    ensures var d' := Reconciled(d, vision);
            (d'.config.value.Wrapped? <==> d'.visionMarker) <==> !NestedTextOnly(d, vision)
  {
    hide Captured, ReconciledText, NewIndex, Observed, NewText, NewTemplate, NewTextTemplate;
    NewTextKeeps(d);
  }

  predicate Carries(shards: map<string, Shard>, s: string, name: string) {
    s in shards && shards[s].tensors.Some? && exists t :: t in shards[s].tensors.value && t.name == name
  }

  lemma {:induction false} MappedAt(wm: map<string, string>, tensors: seq<Tensor>, shard: string, name: string)
    ensures Look(Mapped(wm, tensors, shard), name) ==
            if exists t :: t in tensors && t.name == name then Some(shard) else Look(wm, name)
  {
    if tensors != [] {
      var front, last := tensors[..|tensors| - 1], tensors[|tensors| - 1];
      MappedAt(wm, front, shard, name);
      assert tensors == front + [last];
    }
  }

  /** The map sends a tensor to the last listed shard that carries it. */
  lemma {:induction false} WeightMapAt(shards: map<string, Shard>, list: seq<string>, name: string, k: nat)
    requires Readable(shards, list) && Ascending(list) && k < |list|
    ensures Look(WeightMap(shards, list), name) == Some(list[k]) <==>
            Carries(shards, list[k], name) && forall j :: k < j < |list| ==> !Carries(shards, list[j], name)
  {
    hide Less, Mapped;
    var n := |list| - 1;
    var front, last := list[..n], list[n];
    assert forall j :: 0 <= j < n ==> front[j] == list[j];
    MappedAt(WeightMap(shards, front), shards[last].tensors.value, last, name);
    assert Carries(shards, last, name) <==> exists t :: t in shards[last].tensors.value && t.name == name;
    if k < n {
      WeightMapAt(shards, front, name, k);
      LessIrreflexive(list[k]);
      assert Less(list[k], last);
    } else {
      MapStaysListed(shards, front, name);
      LessIrreflexive(last);
      forall j | 0 <= j < n ensures front[j] != last {
        assert Less(list[j], last);
      }
    }
  }

  lemma {:induction false} MapStaysListed(shards: map<string, Shard>, list: seq<string>, name: string)
    requires Readable(shards, list)
    ensures name in WeightMap(shards, list) ==> WeightMap(shards, list)[name] in list
  {
    hide Mapped;
    if list != [] {
      var front, last := list[..|list| - 1], list[|list| - 1];
      MapStaysListed(shards, front, name);
      MappedAt(WeightMap(shards, front), shards[last].tensors.value, last, name);
      assert list == front + [last];
    }
  }

  /** The shard has a tensor that no later shard of the listing has. */
  ghost predicate OwnsTensor(d: Disk, on: bool, s: string) {
    exists name :: Carries(d.shards, s, name) &&
      forall other :: other in Listed(d, on) && Less(s, other) ==> !Carries(d.shards, other, name)
  }

  ghost predicate Names(index: Index, s: string) {
    exists name :: Look(index.weights, name) == Some(s)
  }

  lemma {:induction false} NamesListed(d: Disk, list: seq<string>, on: bool, s: string)
    requires ListingOf(list, Listed(d, on)) && Readable(d.shards, list)
    ensures (exists name :: Look(WeightMap(d.shards, list), name) == Some(s)) <==> s in list && OwnsTensor(d, on, s)
  {
    hide Less, WeightMap, Listed;
    if exists name :: Look(WeightMap(d.shards, list), name) == Some(s) {
      var name :| Look(WeightMap(d.shards, list), name) == Some(s);
      MapStaysListed(d.shards, list, name);
      var k :| 0 <= k < |list| && list[k] == s;
      WeightMapAt(d.shards, list, name, k);
      forall other | other in Listed(d, on) && Less(s, other) ensures !Carries(d.shards, other, name) {
        LaterIn(list, k, other);
      }
    }
    if s in list && OwnsTensor(d, on, s) {
      var name :| Carries(d.shards, s, name) &&
        forall other :: other in Listed(d, on) && Less(s, other) ==> !Carries(d.shards, other, name);
      var k :| 0 <= k < |list| && list[k] == s;
      WeightMapAt(d.shards, list, name, k);
      assert forall j :: k < j < |list| ==> list[j] in Listed(d, on) && Less(s, list[j]);
    }
  }

  lemma {:induction false} LaterIn(list: seq<string>, k: nat, other: string)
    requires Ascending(list) && k < |list| && other in list && Less(list[k], other)
    ensures exists j :: k < j < |list| && list[j] == other
  {
    hide Less;
    var j :| 0 <= j < |list| && list[j] == other;
    LessIrreflexive(other);
    if j < k {
      LessTransitive(other, list[k], other);
    }
  }

  lemma IndexMatchesListed(d: Disk, vision: bool, s: string)
    requires Succeeds(d, vision) && d.index.Some? && Listed(d, VisionOn(d, vision)) != {}
    ensures var d' := Reconciled(d, vision);
            && d'.index.Some?
            && (Names(d'.index.value, s) <==> s in Listed(d, d'.visionMarker) && OwnsTensor(d, d'.visionMarker, s))
  {
    hide Captured, ReconciledText, Observed, NewText, NewTemplate, NewTextTemplate, WeightMap, TotalSize, Less, OwnsTensor;
    var on := VisionOn(d, vision);
    var list := Sorted(Listed(d, on));
    if list == [] {
      NoneListed(list, Listed(d, on));
    }
    NamesListed(d, list, on, s);
    assert Reconciled(d, vision).index.value.weights == WeightMap(d.shards, list);
    assert s in list <==> s in Listed(d, on);
  }

  lemma IndexUnlisted(d: Disk, vision: bool)
    requires Usable(d) && Listed(d, VisionOn(d, vision)) == {}
    ensures Reconciled(d, vision).index == d.index
  {
    hide Captured, ReconciledText, Observed, NewText, NewTemplate, NewTextTemplate, WeightMap, TotalSize, Less;
    var list := Sorted(Listed(d, VisionOn(d, vision)));
    HasName(list, Listed(d, VisionOn(d, vision)));
  }

  /** After a successful run the index names a shard exactly when that shard is listed and owns a tensor; when
      no shard is listed it names what it named before. */
  lemma IndexMatchesShards(d: Disk, vision: bool, s: string)
    requires Succeeds(d, vision) && d.index.Some?
    ensures var d' := Reconciled(d, vision);
            && d'.index.Some?
            && (Names(d'.index.value, s) <==>
                  if Listed(d, d'.visionMarker) == {} then Names(d.index.value, s)
                  else s in Listed(d, d'.visionMarker) && OwnsTensor(d, d'.visionMarker, s))
  {
    hide Captured, ReconciledText, Observed, NewIndex, NewText, NewTemplate, NewTextTemplate, Less, OwnsTensor, Listed;
    if Listed(d, VisionOn(d, vision)) == {} {
      IndexUnlisted(d, vision);
    } else {
      IndexMatchesListed(d, vision, s);
    }
  }

  lemma NoneListed(list: seq<string>, names: set<string>)
    requires ListingOf(list, names) && list == []
    ensures names == {}
  {
  }

  /** Main result: after a successful run the index names a vision shard while vision is off exactly when the
      run ended with vision off, no other shard was there to list, and the index named that shard before. */
  lemma StaleVisionEntryIff(d: Disk, vision: bool, s: string)
    requires Succeeds(d, vision) && d.index.Some? && s in VISION_SHARDS
    ensures var d' := Reconciled(d, vision);
            && d'.index.Some? && (d'.visionMarker <==> VisionOn(d, vision))
            && (d'.visionMarker ==> d'.config.value.Wrapped?)
            && (Names(d'.index.value, s) && !d'.visionMarker <==>
                  !VisionOn(d, vision) && d.shards.Keys <= VISION_SHARDS && Names(d.index.value, s))
  {
    hide Captured, ReconciledText, Observed, NewIndex, NewText, NewTemplate, NewTextTemplate, OwnsTensor, HasVisionShards;
    IndexMatchesShards(d, vision, s);
    if !VisionOn(d, vision) {
      assert Listed(d, false) == {} <==> d.shards.Keys <= VISION_SHARDS;
    }
  }

  /** Only the tower is left of a checkpoint, and an index that still names it. */
  function TowerOnly(): Disk {
    Disk("c", Some(Plain(Fields(None, None, None, ""))), None, None, None, Some(Index(map["vision.weight" := TOWER], 1)),
         map[TOWER := Shard(Some([Tensor("vision.weight", OtherTensor)]), 1)], None, None, None, false, false, true, None)
  }

  /** A successful run turns vision off and leaves an index that names the tower. */
  lemma IndexStaysStale()
    ensures Succeeds(TowerOnly(), false) && !Reconciled(TowerOnly(), false).visionMarker
    ensures Reconciled(TowerOnly(), false).index.Some? && Names(Reconciled(TowerOnly(), false).index.value, TOWER)
  {
    hide Reconciled;
    var d := TowerOnly();
    assert TOWER != LSHARD by {
      assert TOWER[0] != LSHARD[0];
    }
    assert Look(d.index.value.weights, "vision.weight") == Some(TOWER);
    var list := Sorted(Listed(d, false));
    HasName(list, Listed(d, false));
    StaleVisionEntryIff(d, false, TOWER);
  }

  /** The configuration that stays wrong when only snapshots are trusted: whatever range and ignore list the
      stale configuration holds, the run sets them to what layer 78 is. */
  lemma RunMatchesTensors(d: Disk, vision: bool)
    requires Usable(d) && CachePristine(d) && Observed(d) != Absent
    ensures var f := Own(TextOf(d.config.value));
            var g := Own(if VisionOn(d, vision) then TextOf(Reconciled(d, vision).config.value)
                         else Reconciled(d, vision).config.value);
            && (g.tail.Some? ==> MoeLayers(g).Some? && (MoeLayers(g).value.1 == MTP_LAYER <==> Observed(d) == Trellis))
            && (Observed(d) == Trellis && g.quant.Some? ==> Layer78Patterns(Ignores(g)) == [])
            && (Observed(d) == Bf16 && g.quant.Some? ==>
                  (Layer78Patterns(Ignores(g)) != [] <==>
                   Layer78Patterns(Ignores(f)) != [] || BaselineFor(d, f).ignore != []))
  {
    hide Captured, ReconciledText, NewIndex, NewTemplate, NewTextTemplate, BaselineFor, Holds;
    var f := Own(TextOf(d.config.value));
    BaselinePristine(d, f);
    TextMatchesTensors(f, BaselineFor(d, f), Observed(d));
  }

  // ------------------------------------------------------------------ a wrapper inside a wrapper

  const BARE := Fields(None, None, None, "")

  function NestedDisk(config: Config): Disk {
    Disk("c", Some(config), None, None, None, None, map[], None, None, None, false, false, false, None)
  }

  /** Without vision shards the first run leaves a wrapper and the second one unwraps it: running twice changes the
      configuration, on and off again is not off, and no marker says that the first result is wrapped. */
  lemma NestedWrapperUnwrapsTwice()
    ensures var d := NestedDisk(Wrapped(BARE, Wrapped(BARE, Plain(BARE))));
            && Usable(d) && CachePristine(d) && NestedTextOnly(d, false)
            && Reconciled(d, false).config == Some(Wrapped(BARE, Plain(BARE))) && !Reconciled(d, false).visionMarker
            && Reconciled(Reconciled(d, false), false).config == Some(Plain(BARE))
            && NestedTextOnly(d, true) && Reconciled(Reconciled(d, true), false).config == Some(Plain(BARE))
  {
    hide Captured, NewIndex, NewTemplate, NewTextTemplate;
  }
}
