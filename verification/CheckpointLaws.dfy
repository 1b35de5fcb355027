/**
What a run of the checkpoint reconciler leaves, file by file (scripts/reconcile_checkpoint.py).
*/
module CheckpointLaws {
  import opened Options
  import opened NameOrder
  import opened Reconciler
  import opened ReconcilerLaws

  // ------------------------------------------------------------------ what is on disk

  /** The layer-78 shard can be read and has a tensor of this kind. */
  predicate LayerHas(d: Disk, kind: Kind) {
    && "model-layer-078.safetensors" in d.shards
    && d.shards["model-layer-078.safetensors"].tensors.Some?
    && exists t :: t in d.shards["model-layer-078.safetensors"].tensors.value && t.kind == kind
  }

  predicate Damaged(d: Disk) {
    "model-layer-078.safetensors" in d.shards && d.shards["model-layer-078.safetensors"].tensors.None?
  }

  /** The tower and the projector are there, and a wrapper to build on. */
  predicate CanSee(d: Disk) {
    && "vision_tower.safetensors" in d.shards && "mm_projector.safetensors" in d.shards
    && (d.visionConfig.Some? || (d.config.Some? && d.config.value.Wrapped?))
  }

  lemma ObservedIs(d: Disk)
    ensures Observed(d) == Trellis <==> LayerHas(d, TrellisExpert)
    ensures Observed(d) == Bf16 <==> LayerHas(d, Bf16Expert) && !LayerHas(d, TrellisExpert)
    ensures Observed(d) == Unreadable <==> Damaged(d)
  {
  }

  lemma SeesIs(d: Disk, vision: bool)
    requires d.config.Some?
    ensures VisionOn(d, vision) <==> vision && CanSee(d)
  {
  }

  // ------------------------------------------------------------------ markers and templates

  /** The markers say what is on disk, and what a run does not write it leaves alone. */
  ghost predicate Marked(d: Disk, vision: bool, d': Disk) {
    && (d'.visionMarker <==> vision && CanSee(d))
    && (d'.trellisMarker <==> LayerHas(d, TrellisExpert))
    && (d'.grafted <==> d.grafted && LayerHas(d, TrellisExpert))
    && d'.shards == d.shards && d'.checkpoint == d.checkpoint && d'.visionConfig == d.visionConfig
    && d'.visionTemplate == d.visionTemplate && d'.graftBackup == d.graftBackup && d'.visionBackup == d.visionBackup
  }

  /** Which chat template is live: the vision one with vision on, the saved text one with vision off, if there is one;
      a text template is saved once, when the vision one is about to replace it. */
  ghost predicate Talks(d: Disk, d': Disk) {
    && (d'.visionMarker && d.visionTemplate.Some? ==> d'.template == d.visionTemplate)
    && (d'.visionMarker && d.visionTemplate.None? ==> d'.template == d.template)
    && (!d'.visionMarker && d.textTemplate.Some? ==> d'.template == d.textTemplate)
    && (!d'.visionMarker && d.textTemplate.None? ==> d'.template == d.template)
    && (d.textTemplate.Some? ==> d'.textTemplate == d.textTemplate)
    && (d.textTemplate.None? && d'.template == d.template ==> d'.textTemplate == None)
    && (d.textTemplate.None? && d'.template != d.template ==> d'.textTemplate == d.template)
  }

  /** A directory that cannot be reconciled is left as it is; any other gets its markers and its template. */
  lemma RunMarks(d: Disk, vision: bool)
    ensures var d' := Reconciled(d, vision);
            if d.config.None? || Damaged(d) then d' == d else Marked(d, vision, d') && Talks(d, d')
  {
    hide Captured, ReconciledText, NewIndex, NewText, BaselineFor, Observed, VisionOn, NewConfig, LayerHas, CanSee;
    ObservedIs(d);
    if d.config.Some? {
      SeesIs(d, vision);
    }
  }

  /** Vision on and then off leaves the template that vision off would have left directly, except exactly when there was
      no template to save: then the vision one stays. */
  lemma TemplateOnThenOff(d: Disk)
    requires d.config.Some? && !Damaged(d)
    ensures Reconciled(Reconciled(d, true), false).template == Reconciled(d, false).template <==>
            !(CanSee(d) && d.visionTemplate.Some? && d.textTemplate.None? && d.template.None?)
  {
    hide Captured, ReconciledText, NewIndex, NewText, BaselineFor, Observed, VisionOn, NewConfig, LayerHas, CanSee, Damaged,
      NewTemplate, NewTextTemplate;
    var on := Reconciled(d, true);
    RunMarks(d, true);
    RunMarks(d, false);
    RunMarks(on, false);
    StillUsable(d, true);
  }

  lemma StillUsable(d: Disk, vision: bool)
    requires d.config.Some? && !Damaged(d)
    ensures Reconciled(d, vision).config.Some? && !Damaged(Reconciled(d, vision))
  {
    hide Captured, ReconciledText, NewIndex, NewText, BaselineFor, VisionOn, NewConfig;
  }

  // ------------------------------------------------------------------ the configuration

  /** The text configuration of a document, wrapped or not. */
  function Inside(c: Config): Config {
    match c
    case Plain(_) => c
    case Wrapped(_, text) => text
  }

  function Outermost(c: Config): Fields {
    match c
    case Plain(fields) => fields
    case Wrapped(outer, _) => outer
  }

  /** The same nesting, with other fields outermost. */
  ghost predicate Refitted(c: Config, c': Config) {
    (c.Plain? <==> c'.Plain?) && (c.Wrapped? ==> c'.text == c.text)
  }

  /** b is a without the patterns that name layer 78. */
  ghost predicate Cleared(a: seq<Pattern>, b: seq<Pattern>)
    decreases |a|
  {
    if a == [] then b == []
    else if a[0].layer78 then Cleared(a[1..], b)
    else b != [] && b[0] == a[0] && Cleared(a[1..], b[1..])
  }

  /** b is the patterns of a that name layer 78. */
  ghost predicate Picked(a: seq<Pattern>, b: seq<Pattern>)
    decreases |a|
  {
    if a == [] then b == []
    else if a[0].layer78 then b != [] && b[0] == a[0] && Picked(a[1..], b[1..])
    else Picked(a[1..], b)
  }

  predicate NamesLayer(patterns: seq<Pattern>) {
    exists p :: p in patterns && p.layer78
  }

  function Listing(f: Fields): seq<Pattern> {
    match f.quant
    case Some(Some(patterns)) => patterns
    case _ => []
  }

  /** An ignore list that names layer 78 exactly when layer 78 is not trellis, as far as the baseline knows how. */
  ghost predicate Ignored(was: seq<Pattern>, base: Baseline, trellis: bool, now: seq<Pattern>) {
    if trellis then Cleared(was, now)
    else now == if NamesLayer(was) then was else was + base.ignore
  }

  /** The fields that describe layer 78, from what layer 78 is and from the baseline; the rest as it was. */
  ghost predicate Described(f: Fields, base: Baseline, trellis: bool, g: Fields) {
    && g.rest == f.rest
    && (if f.tail.None? then g.tail.None?
        else g.tail == Some(Some((base.moeLayers.0, if trellis then 78 else base.moeLayers.1))))
    && (f.quant.Some? <==> g.quant.Some?)
    && (f.quant.Some? ==> g.quant.value.Some? && Ignored(Listing(f), base, trellis, g.quant.value.value))
    && g.architectures == if base.architectures.Some? && base.architectures.value != [] then base.architectures else f.architectures
  }

  /** The wrapper: the vision installer's fields, or the current wrapper's, around the text configuration, with the
      text's own range and quantization. */
  ghost predicate Wraps(d: Disk, c: Config, outer: Fields)
    requires d.config.Some? && (d.visionConfig.Some? || d.config.value.Wrapped?)
  {
    var source := if d.visionConfig.Some? then d.visionConfig.value else d.config.value.outer;
    var own := Outermost(c);
    && outer.rest == source.rest && outer.architectures == Some(["Glm5vForConditionalGeneration"])
    && outer.quant == own.quant && outer.tail == if own.tail.Some? then own.tail else source.tail
  }

  /** The configuration after a run. */
  ghost predicate Configured(d: Disk, vision: bool, d': Disk)
    requires d.config.Some?
  {
    var text := Inside(d.config.value);
    && d'.config.Some? && d'.baseline.Some?
    && (vision && CanSee(d) ==> d'.config.value.Wrapped? && Wraps(d, d'.config.value.text, d'.config.value.outer))
    && var text' := if vision && CanSee(d) then Inside(d'.config.value) else d'.config.value;
       if !LayerHas(d, TrellisExpert) && !LayerHas(d, Bf16Expert) then text' == text
       else
         && Refitted(text, text')
         && Described(Outermost(text), d'.baseline.value, LayerHas(d, TrellisExpert), Outermost(text'))
  }

  lemma {:induction false} SnocCleared(a: seq<Pattern>, x: Pattern, b: seq<Pattern>)
    requires Cleared(a, b)
    ensures Cleared(a + [x], if x.layer78 then b else b + [x])
    decreases |a|
  {
    if a == [] {
      assert [x][1..] == [] && (a + [x]) == [x] && b + [x] == [x];
    } else {
      assert (a + [x])[1..] == a[1..] + [x];
      if a[0].layer78 {
        SnocCleared(a[1..], x, b);
      } else {
        SnocCleared(a[1..], x, b[1..]);
        assert (b + [x])[1..] == b[1..] + [x];
      }
    }
  }

  lemma {:induction false} SnocPicked(a: seq<Pattern>, x: Pattern, b: seq<Pattern>)
    requires Picked(a, b)
    ensures Picked(a + [x], if x.layer78 then b + [x] else b)
    decreases |a|
  {
    if a == [] {
      assert [x][1..] == [] && (a + [x]) == [x] && b + [x] == [x];
    } else {
      assert (a + [x])[1..] == a[1..] + [x];
      if a[0].layer78 {
        SnocPicked(a[1..], x, b[1..]);
        assert (b + [x])[1..] == b[1..] + [x];
      } else {
        SnocPicked(a[1..], x, b);
      }
    }
  }

  lemma {:induction false} FiltersAre(patterns: seq<Pattern>)
    ensures Cleared(patterns, OtherPatterns(patterns)) && Picked(patterns, Layer78Patterns(patterns))
    ensures Layer78Patterns(patterns) != [] <==> NamesLayer(patterns)
    ensures !NamesLayer(patterns) ==> OtherPatterns(patterns) == patterns
  {
    hide Cleared, Picked;
    if patterns == [] {
      NothingFiltered();
    } else {
      var front, last := patterns[..|patterns| - 1], patterns[|patterns| - 1];
      assert patterns == front + [last];
      FiltersAre(front);
      assert OtherPatterns(front) + [] == OtherPatterns(front) && Layer78Patterns(front) + [] == Layer78Patterns(front);
      SnocCleared(front, last, OtherPatterns(front));
      SnocPicked(front, last, Layer78Patterns(front));
    }
  }

  lemma NothingFiltered()
    ensures Cleared([], []) && Picked([], [])
  {
  }

  lemma TextDescribed(f: Fields, base: Baseline, layer78: Layer78)
    requires layer78 != Absent
    ensures Described(f, base, layer78 == Trellis, ReconciledText(f, base, layer78))
  {
    hide Cleared, Picked, OtherPatterns, Layer78Patterns, NamesLayer;
    FiltersAre(Ignores(f));
    assert Ignores(f) == Listing(f);
  }

  /** Main result: a run sets the fields that describe layer 78 from what is on disk and wraps the text exactly when
      vision is on; a layer 78 it cannot classify leaves the text alone. */
  lemma RunConfigures(d: Disk, vision: bool)
    requires d.config.Some? && !Damaged(d)
    ensures Configured(d, vision, Reconciled(d, vision))
  {
    hide Captured, ReconciledText, NewIndex, BaselineFor, Observed, VisionOn, LayerHas, CanSee, Damaged, NewTemplate,
      NewTextTemplate, Described;
    ObservedIs(d);
    SeesIs(d, vision);
    SourceThere(d);
    var text := Inside(d.config.value);
    var base := BaselineFor(d, Own(TextOf(d.config.value)));
    if Observed(d) != Absent {
      TextDescribed(Outermost(text), base, Observed(d));
    }
  }

  lemma SourceThere(d: Disk)
    requires d.config.Some?
    ensures CanSee(d) ==> WrapperSource(d).Some?
    ensures WrapperSource(d).Some? <==> d.visionConfig.Some? || d.config.value.Wrapped?
    ensures WrapperSource(d).Some? ==>
              WrapperSource(d).value == if d.visionConfig.Some? then d.visionConfig.value else d.config.value.outer
  {
  }

  // ------------------------------------------------------------------ the baseline

  /** A range that does not reach layer 78: the one a checkpoint had before any graft. */
  predicate Ungrafted(f: Fields) {
    f.tail.Some? && f.tail.value.Some? && f.tail.value.value.1 != 78
  }

  function Document(c: Config): Fields {
    Outermost(Inside(c))
  }

  function Backup(c: Option<Config>): Option<Fields> {
    if c.Some? then Some(Document(c.value)) else None
  }

  /** The range of the first document that has an ungrafted one, else one that stops short of layer 78. */
  function RangeFrom(graft: Option<Fields>, seen: Option<Fields>, text: Fields): Range {
    if graft.Some? && Ungrafted(graft.value) then graft.value.tail.value.value
    else if seen.Some? && Ungrafted(seen.value) then seen.value.tail.value.value
    else if Ungrafted(text) then text.tail.value.value
    else (if text.tail.Some? && text.tail.value.Some? then text.tail.value.value.0 else 3, 77)
  }

  /** The layer-78 patterns of the first document that has any. */
  ghost predicate PatternsFrom(graft: Option<Fields>, seen: Option<Fields>, text: Fields, ignore: seq<Pattern>) {
    if graft.Some? && NamesLayer(Listing(graft.value)) then Picked(Listing(graft.value), ignore)
    else if seen.Some? && NamesLayer(Listing(seen.value)) then Picked(Listing(seen.value), ignore)
    else Picked(Listing(text), ignore)
  }

  /** The baseline captured for this checkpoint: range and ignore list each from the first document that has a usable
      one, the graft's backup before the vision installer's before the current text. */
  ghost predicate CapturedFrom(d: Disk, text: Fields, base: Baseline) {
    && base.checkpoint == d.checkpoint && base.architectures == text.architectures
    && base.moeLayers == RangeFrom(Backup(d.graftBackup), Backup(d.visionBackup), text)
    && PatternsFrom(Backup(d.graftBackup), Backup(d.visionBackup), text, base.ignore)
  }

  lemma FirstOfThree(a: Option<Fields>, b: Option<Fields>, c: Fields)
    ensures var docs := Three(a, b, c);
            && FirstPregraft(docs) == (if a.Some? && Pregraft(a.value) then MoeLayers(a.value)
                                       else if b.Some? && Pregraft(b.value) then MoeLayers(b.value)
                                       else if Pregraft(c) then MoeLayers(c) else None)
            && FirstIgnore(docs) == (if a.Some? && Layer78Patterns(Ignores(a.value)) != [] then Layer78Patterns(Ignores(a.value))
                                     else if b.Some? && Layer78Patterns(Ignores(b.value)) != [] then Layer78Patterns(Ignores(b.value))
                                     else Layer78Patterns(Ignores(c)))
  {
    hide Pregraft, MoeLayers, Layer78Patterns, Ignores;
    FirstOfOne(c);
    if b.Some? {
      FirstOfMore(b.value, [c]);
    }
    var rest := (if b.Some? then [b.value] else []) + [c];
    if a.Some? {
      FirstOfMore(a.value, rest);
      assert [a.value] + (if b.Some? then [b.value] else []) + [c] == [a.value] + rest;
    } else {
      assert [] + (if b.Some? then [b.value] else []) + [c] == rest;
    }
    assert b.None? ==> rest == [c];
  }

  lemma {:induction false} FirstOfOne(c: Fields)
    ensures FirstPregraft([c]) == if Pregraft(c) then MoeLayers(c) else None
    ensures FirstIgnore([c]) == Layer78Patterns(Ignores(c))
  {
    assert [c][1..] == [] && FirstPregraft([]) == None && FirstIgnore([]) == [];
  }

  lemma {:induction false} FirstOfMore(a: Fields, rest: seq<Fields>)
    ensures FirstPregraft([a] + rest) == if Pregraft(a) then MoeLayers(a) else FirstPregraft(rest)
    ensures FirstIgnore([a] + rest) == if Layer78Patterns(Ignores(a)) != [] then Layer78Patterns(Ignores(a)) else FirstIgnore(rest)
  {
    assert ([a] + rest)[1..] == rest;
  }

  function Three(a: Option<Fields>, b: Option<Fields>, c: Fields): seq<Fields> {
    (if a.Some? then [a.value] else []) + (if b.Some? then [b.value] else []) + [c]
  }

  lemma RangeLaw(a: Option<Fields>, b: Option<Fields>, c: Fields)
    ensures var moe := FirstPregraft(Three(a, b, c));
            RangeFrom(a, b, c) == if moe.Some? then moe.value else (if MoeLayers(c).Some? then MoeLayers(c).value.0 else 3, MTP_LAYER - 1)
  {
    hide FirstPregraft, FirstIgnore, Layer78Patterns;
    FirstOfThree(a, b, c);
  }

  lemma DocumentPatterns(f: Fields)
    ensures Picked(Listing(f), Layer78Patterns(Ignores(f)))
    ensures Layer78Patterns(Ignores(f)) != [] <==> NamesLayer(Listing(f))
  {
    hide Picked, NamesLayer, Layer78Patterns, Cleared, OtherPatterns;
    FiltersAre(Listing(f));
    assert Ignores(f) == Listing(f);
  }

  lemma PatternsLaw(a: Option<Fields>, b: Option<Fields>, c: Fields)
    ensures PatternsFrom(a, b, c, FirstIgnore(Three(a, b, c)))
  {
    hide FirstPregraft, FirstIgnore, Layer78Patterns, Picked, NamesLayer, Pregraft, MoeLayers, Listing, Ignores, Three;
    FirstOfThree(a, b, c);
    DocumentPatterns(c);
    if a.Some? {
      DocumentPatterns(a.value);
    }
    if b.Some? {
      DocumentPatterns(b.value);
    }
  }

  lemma CapturedLaw(d: Disk, text: Fields)
    ensures CapturedFrom(d, text, Captured(d, text))
  {
    hide PatternsFrom, RangeFrom, FirstPregraft, FirstIgnore, MoeLayers;
    RangeLaw(Backup(d.graftBackup), Backup(d.visionBackup), text);
    PatternsLaw(Backup(d.graftBackup), Backup(d.visionBackup), text);
    assert Sources(d, text) == Three(Backup(d.graftBackup), Backup(d.visionBackup), text);
  }

  /** The baseline a run uses and keeps: the cached one of this very checkpoint, or a new capture. */
  lemma RunCaptures(d: Disk, vision: bool)
    requires d.config.Some? && !Damaged(d)
    ensures var base := Reconciled(d, vision).baseline;
            && base.Some?
            && if d.baseline.Some? && d.baseline.value.checkpoint == d.checkpoint then base == d.baseline
               else CapturedFrom(d, Document(d.config.value), base.value)
  {
    hide ReconciledText, NewIndex, VisionOn, NewTemplate, NewTextTemplate, NewConfig, CapturedFrom, Captured;
    CapturedLaw(d, Document(d.config.value));
  }

  // ------------------------------------------------------------------ the index

  /** The shards a run lists: all of them, without the vision ones while vision is off. */
  predicate Lists(d: Disk, on: bool, s: string) {
    s in d.shards && (on || (s != "vision_tower.safetensors" && s != "mm_projector.safetensors"))
  }

  /** Lexicographic order: a proper prefix, or the smaller character at the first difference. */
  predicate Before(a: string, b: string) {
    exists i :: 0 <= i <= |a| && i < |b| && a[..i] == b[..i] && (i == |a| || a[i] < b[i])
  }

  lemma {:induction false} BeforeIff(a: string, b: string)
    ensures Less(a, b) <==> Before(a, b)
    decreases |a|
  {
    if b == "" || a == "" {
      assert a == "" && b != "" ==> a[..0] == b[..0];
    } else {
      BeforeIff(a[1..], b[1..]);
      if Before(a[1..], b[1..]) && a[0] == b[0] {
        var i :| 0 <= i <= |a| - 1 && i < |b| - 1 && a[1..][..i] == b[1..][..i] && (i == |a| - 1 || a[1..][i] < b[1..][i]);
        assert a[..i + 1] == [a[0]] + a[1..][..i] && b[..i + 1] == [b[0]] + b[1..][..i];
      }
      if a[0] < b[0] {
        assert a[..0] == b[..0];
      }
      if Before(a, b) && !(a[0] < b[0]) {
        var i :| 0 <= i <= |a| && i < |b| && a[..i] == b[..i] && (i == |a| || a[i] < b[i]);
        assert i > 0 && a[..i][0] == b[..i][0];
        assert a[1..][..i - 1] == a[..i][1..] && b[1..][..i - 1] == b[..i][1..];
      }
    }
  }

  function SizesOf(shards: map<string, Shard>, list: seq<string>): nat
    requires forall s :: s in list ==> s in shards
  {
    if list == [] then 0 else shards[list[0]].size + SizesOf(shards, list[1..])
  }

  /** The listed shard is the last, by name, that carries this tensor. */
  ghost predicate Carrier(d: Disk, on: bool, name: string, s: string) {
    Lists(d, on, s) && Carries(d.shards, s, name)
    && forall other :: Lists(d, on, other) && Before(s, other) ==> !Carries(d.shards, other, name)
  }

  ghost predicate ListsAll(d: Disk, on: bool, list: seq<string>) {
    && (forall s :: s in list ==> s in d.shards)
    && (forall i, j :: 0 <= i < j < |list| ==> list[i] != list[j])
    && (forall s :: s in list <==> Lists(d, on, s))
  }

  /** Every tensor is indexed at the last listed shard that carries it, and no other is; a rewritten index totals the
      sizes of the listed shards, each once. Nothing is rewritten without an index, without a listed shard, or with
      one that cannot be read. */
  ghost predicate Indexed(d: Disk, on: bool, d': Disk) {
    if d.index.None? || (forall s :: !Lists(d, on, s)) || (exists s :: Lists(d, on, s) && d.shards[s].tensors.None?)
    then d'.index == d.index
    else
      && d'.index.Some?
      && (forall name, s :: Look(d'.index.value.weights, name) == Some(s) <==> Carrier(d, on, name, s))
      && (d'.index == d.index
          || forall list :: ListsAll(d, on, list) ==> d'.index.value.totalSize == SizesOf(d.shards, list))
  }

  lemma ListedIs(d: Disk, on: bool, s: string)
    ensures s in Listed(d, on) <==> Lists(d, on, s)
  {
  }

  lemma {:induction false} CarrierIs(d: Disk, on: bool, list: seq<string>, name: string, s: string)
    requires ListingOf(list, Listed(d, on)) && Readable(d.shards, list)
    ensures Look(WeightMap(d.shards, list), name) == Some(s) <==> Carrier(d, on, name, s)
  {
    hide Less, WeightMap, Listed, Lists, Before;
    forall x ensures x in list <==> Lists(d, on, x) {
      ListedIs(d, on, x);
    }
    if Look(WeightMap(d.shards, list), name) == Some(s) {
      MapStaysListed(d.shards, list, name);
    }
    if s in list {
      var k :| 0 <= k < |list| && list[k] == s;
      WeightMapAt(d.shards, list, name, k);
      forall other | Lists(d, on, other) && Before(s, other) ensures exists j :: k < j < |list| && list[j] == other {
        BeforeIff(s, other);
        LaterIn(list, k, other);
      }
      forall j | k < j < |list| ensures Lists(d, on, list[j]) && Before(s, list[j]) {
        BeforeIff(s, list[j]);
        assert list[j] in list;
      }
    }
  }

  lemma {:induction false} SizesAppend(shards: map<string, Shard>, a: seq<string>, b: seq<string>)
    requires forall s :: s in a + b ==> s in shards
    ensures (forall s :: s in a ==> s in shards) && (forall s :: s in b ==> s in shards)
    ensures SizesOf(shards, a + b) == SizesOf(shards, a) + SizesOf(shards, b)
    decreases |a|
  {
    assert forall s :: s in a || s in b ==> s in a + b;
    if a == [] {
      assert a + b == b;
    } else {
      assert (a + b)[1..] == a[1..] + b;
      SizesAppend(shards, a[1..], b);
    }
  }

  lemma {:induction false} SizesPermute(shards: map<string, Shard>, a: seq<string>, b: seq<string>)
    requires (forall s :: s in a ==> s in shards) && (forall s :: s in a <==> s in b)
    requires (forall i, j :: 0 <= i < j < |a| ==> a[i] != a[j]) && (forall i, j :: 0 <= i < j < |b| ==> b[i] != b[j])
    ensures SizesOf(shards, a) == SizesOf(shards, b)
    decreases |a|
  {
    assert b != [] ==> b[0] in b;
    if a != [] {
      var x, rest := a[0], a[1..];
      assert a == [x] + rest && x in a;
      var k :| 0 <= k < |b| && b[k] == x;
      var front, back := b[..k], b[k + 1..];
      assert b == front + ([x] + back);
      SizesAppend(shards, front, [x] + back);
      SizesAppend(shards, [x], back);
      SizesAppend(shards, front, back);
      assert [x][1..] == [];
      WithoutOne(rest, front, back, x, b, k);
      SizesPermute(shards, rest, front + back);
    }
  }

  lemma WithoutOne(rest: seq<string>, front: seq<string>, back: seq<string>, x: string, b: seq<string>, k: nat)
    requires k < |b| && b[k] == x && front == b[..k] && back == b[k + 1..]
    requires (forall i, j :: 0 <= i < j < |b| ==> b[i] != b[j]) && x !in rest
    requires forall s :: s in [x] + rest <==> s in b
    ensures (forall s :: s in rest <==> s in front + back)
    ensures forall i, j :: 0 <= i < j < |front + back| ==> (front + back)[i] != (front + back)[j]
  {
    forall s ensures s in rest <==> s in front + back {
      assert s in b <==> s in front || s == x || s in back by {
        assert b == front + [x] + back;
      }
      assert s in [x] + rest <==> s == x || s in rest;
    }
  }

  lemma {:induction false} TotalIs(shards: map<string, Shard>, list: seq<string>)
    requires forall s :: s in list ==> s in shards
    ensures TotalSize(shards, list) == SizesOf(shards, list)
  {
    if list != [] {
      var front, last := list[..|list| - 1], list[|list| - 1];
      assert list == front + [last];
      TotalIs(shards, front);
      SizesAppend(shards, front, [last]);
      assert [last][1..] == [];
    }
  }

  lemma {:induction false} TotalFor(d: Disk, on: bool, list: seq<string>, other: seq<string>)
    requires ListingOf(list, Listed(d, on)) && ListsAll(d, on, other)
    ensures forall s :: s in other ==> s in d.shards
    ensures (forall s :: s in list ==> s in d.shards) && TotalSize(d.shards, list) == SizesOf(d.shards, other)
  {
    hide Less;
    forall x ensures x in list <==> Lists(d, on, x) {
      ListedIs(d, on, x);
    }
    TotalIs(d.shards, list);
    forall i, j | 0 <= i < j < |list| ensures list[i] != list[j] {
      LessIrreflexive(list[i]);
    }
    SizesPermute(d.shards, list, other);
  }

  /** Main result: what the weight index says after a run. */
  lemma RunIndexes(d: Disk, vision: bool)
    requires d.config.Some? && !Damaged(d)
    ensures Indexed(d, vision && CanSee(d), Reconciled(d, vision))
  {
    hide Captured, ReconciledText, NewText, BaselineFor, Observed, VisionOn, NewConfig, LayerHas, CanSee, Damaged, NewTemplate,
      NewTextTemplate, Less, WeightMap, TotalSize, Listed, Lists, Carrier, ListsAll;
    ObservedIs(d);
    SeesIs(d, vision);
    var on := vision && CanSee(d);
    var list := Sorted(Listed(d, on));
    forall x ensures x in list <==> Lists(d, on, x) {
      ListedIs(d, on, x);
    }
    assert list != [] ==> list[0] in list;
    ListedOnDisk(d, on);
    if Readable(d.shards, list) {
      forall name, s ensures Look(WeightMap(d.shards, list), name) == Some(s) <==> Carrier(d, on, name, s) {
        CarrierIs(d, on, list, name, s);
      }
      forall other | ListsAll(d, on, other)
        ensures (forall s :: s in other ==> s in d.shards) && TotalSize(d.shards, list) == SizesOf(d.shards, other)
      {
        TotalFor(d, on, list, other);
      }
    }
  }

  lemma ListedOnDisk(d: Disk, on: bool)
    ensures forall s :: Lists(d, on, s) ==> s in d.shards
  {
  }
}
