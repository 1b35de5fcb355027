/**
The checkpoint reconciler (scripts/reconcile_checkpoint.py): it derives the layer-78 fields, the vision
wrapper, the weight index, the chat template and the markers from what is on disk. No I/O call fails;
unreadable files are part of the disk.
*/
module Reconciler {
  import opened Options
  import opened NameOrder

  const LSHARD := "model-layer-078.safetensors"
  const TOWER := "vision_tower.safetensors"
  const PROJECTOR := "mm_projector.safetensors"
  const VISION_SHARDS: set<string> := {TOWER, PROJECTOR}
  const GLM5V: seq<string> := ["Glm5vForConditionalGeneration"]
  const MTP_LAYER := 78

  /** What a tensor name says about layer 78's experts. */
  datatype Kind = TrellisExpert | Bf16Expert | OtherTensor

  datatype Tensor = Tensor(name: string, kind: Kind)

  /** A shard file; None when its header cannot be read or it is truncated. */
  datatype Shard = Shard(tensors: Option<seq<Tensor>>, size: nat)

  /** One entry of quantization_config.ignore, and whether it names layer 78. */
  datatype Pattern = Pattern(text: string, layer78: bool)

  type Range = (int, int)

  /** The configuration fields the reconciler looks at; rest is everything else. */
  datatype Fields = Fields(tail: Option<Option<Range>>, quant: Option<Option<seq<Pattern>>>,
                           architectures: Option<seq<string>>, rest: string)

  /** A text configuration, or a multimodal wrapper around one. */
  datatype Config = Plain(fields: Fields) | Wrapped(outer: Fields, text: Config)

  datatype Baseline = Baseline(checkpoint: string, moeLayers: Range, ignore: seq<Pattern>, architectures: Option<seq<string>>)

  datatype Index = Index(weights: map<string, string>, totalSize: nat)

  /** A model directory; a missing or unreadable configuration is None. */
  datatype Disk = Disk(checkpoint: string, config: Option<Config>, graftBackup: Option<Config>,
                       visionBackup: Option<Config>, visionConfig: Option<Fields>, index: Option<Index>,
                       shards: map<string, Shard>, template: Option<string>, textTemplate: Option<string>,
                       visionTemplate: Option<string>, grafted: bool, trellisMarker: bool, visionMarker: bool,
                       baseline: Option<Baseline>)

  // ------------------------------------------------------------------ observation

  datatype Layer78 = Trellis | Bf16 | Absent | Unreadable

  predicate Holds(tensors: seq<Tensor>, kind: Kind) {
    exists t :: t in tensors && t.kind == kind
  }

  function Observed(d: Disk): Layer78 {
    if LSHARD !in d.shards then Absent
    else if d.shards[LSHARD].tensors.None? then Unreadable
    else if Holds(d.shards[LSHARD].tensors.value, TrellisExpert) then Trellis
    else if Holds(d.shards[LSHARD].tensors.value, Bf16Expert) then Bf16
    else Absent
  }

  predicate HasVisionShards(d: Disk) {
    TOWER in d.shards && PROJECTOR in d.shards
  }

  function TextOf(c: Config): Config {
    if c.Wrapped? then c.text else c
  }

  function WrapperOf(c: Config): Option<Fields> {
    if c.Wrapped? then Some(c.outer) else None
  }

  function Own(c: Config): Fields {
    match c
    case Plain(fields) => fields
    case Wrapped(outer, _) => outer
  }

  function WithOwn(c: Config, fields: Fields): Config {
    match c
    case Plain(_) => Plain(fields)
    case Wrapped(_, text) => Wrapped(fields, text)
  }

  // ------------------------------------------------------------------ baseline

  function MoeLayers(f: Fields): Option<Range> {
    if f.tail.Some? then f.tail.value else None
  }

  function Layer78Patterns(patterns: seq<Pattern>): seq<Pattern> {
    if patterns == [] then []
    else
      Layer78Patterns(patterns[..|patterns| - 1]) +
      if patterns[|patterns| - 1].layer78 then [patterns[|patterns| - 1]] else []
  }

  function OtherPatterns(patterns: seq<Pattern>): seq<Pattern> {
    if patterns == [] then []
    else
      OtherPatterns(patterns[..|patterns| - 1]) +
      if patterns[|patterns| - 1].layer78 then [] else [patterns[|patterns| - 1]]
  }

  function Ignores(f: Fields): seq<Pattern> {
    if f.quant.Some? && f.quant.value.Some? then f.quant.value.value else []
  }

  /** The documents a baseline may come from, best first. */
  function Sources(d: Disk, text: Fields): seq<Fields> {
    (if d.graftBackup.Some? then [Own(TextOf(d.graftBackup.value))] else []) +
    (if d.visionBackup.Some? then [Own(TextOf(d.visionBackup.value))] else []) +
    [text]
  }

  predicate Pregraft(f: Fields) {
    MoeLayers(f).Some? && MoeLayers(f).value.1 != MTP_LAYER
  }

  function FirstPregraft(docs: seq<Fields>): Option<Range> {
    if docs == [] then None
    else if Pregraft(docs[0]) then MoeLayers(docs[0])
    else FirstPregraft(docs[1..])
  }

  function FirstIgnore(docs: seq<Fields>): seq<Pattern> {
    if docs == [] then []
    else
      var got := Layer78Patterns(Ignores(docs[0]));
      if got != [] then got else FirstIgnore(docs[1..])
  }

  function Captured(d: Disk, text: Fields): Baseline {
    var docs := Sources(d, text);
    var moe := FirstPregraft(docs);
    var fallback := (if MoeLayers(text).Some? then MoeLayers(text).value.0 else 3, MTP_LAYER - 1);
    Baseline(d.checkpoint, if moe.Some? then moe.value else fallback, FirstIgnore(docs), text.architectures)
  }

  /** The cached baseline of this checkpoint, or a new capture. */
  function BaselineFor(d: Disk, text: Fields): Baseline {
    if d.baseline.Some? && d.baseline.value.checkpoint == d.checkpoint then d.baseline.value else Captured(d, text)
  }

  // ------------------------------------------------------------------ configuration

  function WantedLayers(base: Baseline, layer78: Layer78): Range {
    if layer78 == Trellis then (base.moeLayers.0, MTP_LAYER) else base.moeLayers
  }

  function WantedIgnores(ignores: seq<Pattern>, base: Baseline, layer78: Layer78): seq<Pattern> {
    if layer78 == Trellis then
      if Layer78Patterns(ignores) != [] then OtherPatterns(ignores) else ignores
    else if Layer78Patterns(ignores) == [] then ignores + base.ignore
    else ignores
  }

  function WantedArchitectures(f: Fields, base: Baseline): Option<seq<string>> {
    if base.architectures.Some? && base.architectures.value != [] then base.architectures else f.architectures
  }

  /** Only the fields that describe layer 78, from what layer 78 is. */
  function ReconciledText(f: Fields, base: Baseline, layer78: Layer78): Fields {
    Fields(if f.tail.None? then None else Some(Some(WantedLayers(base, layer78))),
           if f.quant.None? then None else Some(Some(WantedIgnores(Ignores(f), base, layer78))),
           WantedArchitectures(f, base), f.rest)
  }

  /** The wrapper around a text configuration, from the vision installer's or the current one. */
  function Merged(vision: Fields, text: Config): Config {
    Wrapped(Fields(if Own(text).tail.Some? then Own(text).tail else vision.tail, Own(text).quant, Some(GLM5V), vision.rest),
            text)
  }

  function WrapperSource(d: Disk): Option<Fields> {
    if d.visionConfig.Some? then d.visionConfig
    else if d.config.Some? then WrapperOf(d.config.value)
    else None
  }

  predicate VisionRequested(d: Disk, vision: bool) {
    vision && HasVisionShards(d)
  }

  /** Vision is on when it is wanted, its shards are there and a wrapper can be built. */
  predicate VisionOn(d: Disk, vision: bool) {
    VisionRequested(d, vision) && WrapperSource(d).Some?
  }

  function NewText(d: Disk): Config
    requires d.config.Some?
  {
    var text := TextOf(d.config.value);
    var layer78 := Observed(d);
    if layer78 == Absent then text
    else WithOwn(text, ReconciledText(Own(text), BaselineFor(d, Own(text)), layer78))
  }

  function NewConfig(d: Disk, vision: bool): Config
    requires d.config.Some?
  {
    if VisionOn(d, vision) then Merged(WrapperSource(d).value, NewText(d)) else NewText(d)
  }

  // ------------------------------------------------------------------ index

  function Listed(d: Disk, vision: bool): set<string> {
    if vision then d.shards.Keys else d.shards.Keys - VISION_SHARDS
  }

  function Mapped(wm: map<string, string>, tensors: seq<Tensor>, shard: string): map<string, string> {
    if tensors == [] then wm
    else Mapped(wm, tensors[..|tensors| - 1], shard)[tensors[|tensors| - 1].name := shard]
  }

  predicate Readable(shards: map<string, Shard>, list: seq<string>) {
    forall s :: s in list ==> s in shards && shards[s].tensors.Some?
  }

  /** The weight map of the shards in listing order: a later shard wins. */
  function WeightMap(shards: map<string, Shard>, list: seq<string>): map<string, string>
    requires Readable(shards, list)
  {
    if list == [] then map[]
    else
      var last := list[|list| - 1];
      Mapped(WeightMap(shards, list[..|list| - 1]), shards[last].tensors.value, last)
  }

  function TotalSize(shards: map<string, Shard>, list: seq<string>): nat
    requires forall s :: s in list ==> s in shards
  {
    if list == [] then 0 else TotalSize(shards, list[..|list| - 1]) + shards[list[|list| - 1]].size
  }

  ghost predicate AllReadable(d: Disk, vision: bool) {
    Readable(d.shards, Sorted(Listed(d, vision)))
  }

  /** The index after the run: rebuilt when its map is not that of the shards on disk. */
  ghost function NewIndex(d: Disk, vision: bool): Option<Index> {
    var list := Sorted(Listed(d, vision));
    if d.index.None? || list == [] || !Readable(d.shards, list) then d.index
    else
      var wm := WeightMap(d.shards, list);
      if d.index.value.weights == wm then d.index else Some(Index(wm, TotalSize(d.shards, list)))
  }

  // ------------------------------------------------------------------ chat template

  function NewTemplate(d: Disk, vision: bool): Option<string> {
    if vision && d.visionTemplate.Some? then d.visionTemplate
    else if !vision && d.textTemplate.Some? then d.textTemplate
    else d.template
  }

  function NewTextTemplate(d: Disk, vision: bool): Option<string> {
    if vision && d.visionTemplate.Some? && d.textTemplate.None? && d.template != d.visionTemplate then d.template
    else d.textTemplate
  }

  // ------------------------------------------------------------------ main

  /** Whether the run gets past the configuration and the layer-78 shard. */
  predicate Usable(d: Disk) {
    d.config.Some? && Observed(d) != Unreadable
  }

  ghost predicate Succeeds(d: Disk, vision: bool) {
    Usable(d) && (d.index.None? || AllReadable(d, VisionOn(d, vision)))
  }

  ghost function Reconciled(d: Disk, vision: bool): Disk {
    if !Usable(d) then d
    else
      var on, layer78 := VisionOn(d, vision), Observed(d);
      d.(config := Some(NewConfig(d, vision)),
         baseline := Some(BaselineFor(d, Own(TextOf(d.config.value)))),
         index := NewIndex(d, on),
         template := NewTemplate(d, on),
         textTemplate := NewTextTemplate(d, on),
         grafted := d.grafted && layer78 == Trellis,
         trellisMarker := layer78 == Trellis,
         visionMarker := on)
  }

  // ------------------------------------------------------------------ layer 78

  lemma {:induction false} PatternsSplit(patterns: seq<Pattern>, p: Pattern)
    ensures p in Layer78Patterns(patterns) <==> p in patterns && p.layer78
    ensures p in OtherPatterns(patterns) <==> p in patterns && !p.layer78
  {
    if patterns != [] {
      PatternsSplit(patterns[..|patterns| - 1], p);
      assert patterns == patterns[..|patterns| - 1] + [patterns[|patterns| - 1]];
    }
  }

  lemma {:induction false} OthersHaveNone(patterns: seq<Pattern>)
    ensures Layer78Patterns(OtherPatterns(patterns)) == []
  {
    if patterns != [] {
      var front, last := OtherPatterns(patterns[..|patterns| - 1]), patterns[|patterns| - 1];
      OthersHaveNone(patterns[..|patterns| - 1]);
      if !last.layer78 {
        assert (front + [last])[..|front|] == front;
      } else {
        assert front + [] == front;
      }
    }
  }

  lemma {:induction false} Layer78Concat(a: seq<Pattern>, b: seq<Pattern>)
    ensures Layer78Patterns(a + b) == Layer78Patterns(a) + Layer78Patterns(b)
    decreases |b|
  {
    if b == [] {
      assert a + b == a;
    } else {
      assert (a + b)[..|a + b| - 1] == a + b[..|b| - 1];
      Layer78Concat(a, b[..|b| - 1]);
    }
  }

  lemma {:induction false} FirstIgnoreAll78(docs: seq<Fields>, p: Pattern)
    ensures p in FirstIgnore(docs) ==> p.layer78
  {
    if docs != [] {
      PatternsSplit(Ignores(docs[0]), p);
      FirstIgnoreAll78(docs[1..], p);
    }
  }

  lemma {:induction false} FirstPregraftIsOne(docs: seq<Fields>)
    ensures FirstPregraft(docs).Some? ==> FirstPregraft(docs).value.1 != MTP_LAYER
  {
    if docs != [] {
      FirstPregraftIsOne(docs[1..]);
    }
  }

  /** A baseline worth keeping: no grafted range, only layer-78 patterns. */
  predicate Pristine(base: Baseline) {
    base.moeLayers.1 != MTP_LAYER && forall p :: p in base.ignore ==> p.layer78
  }

  predicate CachePristine(d: Disk) {
    d.baseline.Some? ==> Pristine(d.baseline.value)
  }

  /** A captured baseline never holds the grafted range, whatever the snapshots say. */
  lemma CapturedPristine(d: Disk, text: Fields)
    ensures Pristine(Captured(d, text))
  {
    var docs := Sources(d, text);
    FirstPregraftIsOne(docs);
    forall p | p in FirstIgnore(docs) ensures p.layer78 {
      FirstIgnoreAll78(docs, p);
    }
  }

  lemma BaselinePristine(d: Disk, text: Fields)
    requires CachePristine(d)
    ensures Pristine(BaselineFor(d, text))
  {
    CapturedPristine(d, text);
  }

  /** The reconciled text says what layer 78 is: its expert range reaches 78 exactly for a trellis layer, and
      its ignore list names layer 78 exactly for a layer that is not, whenever the baseline knows how. */
  lemma TextMatchesTensors(f: Fields, base: Baseline, layer78: Layer78)
    requires Pristine(base) && layer78 != Absent
    ensures var g := ReconciledText(f, base, layer78);
            && (g.tail.Some? <==> f.tail.Some?)
            && (g.tail.Some? ==> MoeLayers(g).Some? && (MoeLayers(g).value.1 == MTP_LAYER <==> layer78 == Trellis))
            && (layer78 == Trellis && g.quant.Some? ==> Layer78Patterns(Ignores(g)) == [])
            && (layer78 != Trellis && g.quant.Some? ==>
                  (Layer78Patterns(Ignores(g)) != [] <==> Layer78Patterns(Ignores(f)) != [] || base.ignore != []))
            && g.rest == f.rest
  {
    OthersHaveNone(Ignores(f));
    Layer78Concat(Ignores(f), base.ignore);
    All78(base.ignore);
  }

  lemma {:induction false} All78(patterns: seq<Pattern>)
    requires forall p :: p in patterns ==> p.layer78
    ensures Layer78Patterns(patterns) == patterns
  {
    if patterns != [] {
      All78(patterns[..|patterns| - 1]);
      assert patterns == patterns[..|patterns| - 1] + [patterns[|patterns| - 1]];
    }
  }

  lemma IgnoresTwice(ignores: seq<Pattern>, base: Baseline, layer78: Layer78)
    requires Pristine(base)
    ensures var once := WantedIgnores(ignores, base, layer78); WantedIgnores(once, base, layer78) == once
  {
    hide OtherPatterns, Layer78Patterns;
    OthersHaveNone(ignores);
    Layer78Concat(ignores, base.ignore);
    All78(base.ignore);
    if base.ignore == [] {
      assert ignores + base.ignore == ignores;
    }
  }

  lemma TextTwice(f: Fields, base: Baseline, layer78: Layer78)
    requires Pristine(base)
    ensures var g := ReconciledText(f, base, layer78); ReconciledText(g, base, layer78) == g
  {
    hide WantedIgnores, Pristine, WantedLayers;
    IgnoresTwice(Ignores(f), base, layer78);
  }

  // ------------------------------------------------------------------ idempotence

  function Depth(c: Config): nat {
    match c
    case Plain(_) => 0
    case Wrapped(_, text) => Depth(text) + 1
  }

  lemma NewTextKeeps(d: Disk)
    requires d.config.Some?
    ensures NewText(d).Wrapped? == TextOf(d.config.value).Wrapped?
    ensures Depth(NewText(d)) == Depth(TextOf(d.config.value))
  {
  }

  /** Reconciling a text configuration that has been reconciled. */
  lemma NewTextSettled(d: Disk, d': Disk)
    requires d.config.Some? && d'.config.Some? && TextOf(d'.config.value) == NewText(d) && CachePristine(d)
    requires Observed(d') == Observed(d) && d'.checkpoint == d.checkpoint
    requires d'.baseline == Some(BaselineFor(d, Own(TextOf(d.config.value))))
    ensures NewText(d') == NewText(d)
  {
    hide Captured, Observed, ReconciledText;
    var f := Own(TextOf(d.config.value));
    BaselinePristine(d, f);
    TextTwice(f, BaselineFor(d, f), Observed(d));
    CapturedForThis(d, f);
  }

  lemma CapturedForThis(d: Disk, text: Fields)
    ensures BaselineFor(d, text).checkpoint == d.checkpoint
  {
  }

  lemma MergedTwice(vision: Fields, text: Config)
    ensures Merged(vision, text).outer == Own(Merged(vision, text)) && Merged(Merged(vision, text).outer, text) == Merged(vision, text)
  {
  }

  /** A second run decides as the first one did. */
  lemma SameDecisions(d: Disk, vision: bool)
    requires Usable(d)
    ensures var d' := Reconciled(d, vision);
            && Usable(d') && Observed(d') == Observed(d) && HasVisionShards(d') == HasVisionShards(d)
            && VisionOn(d', vision) == VisionOn(d, vision)
  {
    hide Captured, ReconciledText, NewIndex, Holds;
  }

  lemma IndexTwice(d: Disk, d': Disk, on: bool)
    requires d'.shards == d.shards && d'.index == NewIndex(d, on)
    ensures NewIndex(d', on) == NewIndex(d, on)
  {
    hide WeightMap, TotalSize, Readable;
  }

  lemma TemplateTwice(d: Disk, d': Disk, on: bool)
    requires d'.template == NewTemplate(d, on) && d'.textTemplate == NewTextTemplate(d, on)
    requires d'.visionTemplate == d.visionTemplate
    ensures NewTemplate(d', on) == NewTemplate(d, on) && NewTextTemplate(d', on) == NewTextTemplate(d, on)
  {
  }

  /** Vision off, and the text configuration inside the wrapper is itself a wrapper. */
  predicate NestedTextOnly(d: Disk, vision: bool)
    requires d.config.Some?
  {
    !VisionOn(d, vision) && TextOf(d.config.value).Wrapped?
  }

  lemma ConfigTwice(d: Disk, vision: bool)
    requires Usable(d) && CachePristine(d) && !NestedTextOnly(d, vision)
    ensures var d' := Reconciled(d, vision); NewConfig(d', vision) == NewConfig(d, vision)
  {
    hide Captured, ReconciledText, NewIndex, Observed, Merged, NewText, HasVisionShards;
    var d' := Reconciled(d, vision);
    SameDecisions(d, vision);
    NewTextKeeps(d);
    if VisionOn(d, vision) {
      MergedParts(WrapperSource(d).value, NewText(d));
      NewTextSettled(d, d');
      MergedTwice(WrapperSource(d).value, NewText(d));
    } else {
      NewTextSettled(d, d');
    }
  }

  lemma MergedParts(vision: Fields, text: Config)
    ensures Merged(vision, text).Wrapped? && TextOf(Merged(vision, text)) == text
  {
  }

  /** Main result: a second run changes no file, except exactly when the configuration is a wrapper inside a
      wrapper and vision ends up off, where each run unwraps one more level. */
  lemma SecondRunChangesNothing(d: Disk, vision: bool)
    requires Usable(d) && CachePristine(d)
    ensures Reconciled(Reconciled(d, vision), vision) == Reconciled(d, vision) <==> !NestedTextOnly(d, vision)
  {
    hide Captured, ReconciledText, NewIndex, Observed, Merged, NewText, HasVisionShards, NewConfig, NewTemplate, NewTextTemplate;
    var d' := Reconciled(d, vision);
    SameDecisions(d, vision);
    NewTextKeeps(d);
    if NestedTextOnly(d, vision) {
      NestedRunDiffers(d, vision);
    } else {
      ConfigTwice(d, vision);
      IndexTwice(d, d', VisionOn(d, vision));
      TemplateTwice(d, d', VisionOn(d, vision));
      CapturedForThis(d, Own(TextOf(d.config.value)));
    }
  }

  lemma NestedRunDiffers(d: Disk, vision: bool)
    requires Usable(d) && NestedTextOnly(d, vision)
    ensures Reconciled(Reconciled(d, vision), vision).config != Reconciled(d, vision).config
  {
    hide Captured, ReconciledText, NewIndex, Observed, HasVisionShards, NewTemplate, NewTextTemplate, BaselineFor;
    var d' := Reconciled(d, vision);
    SameDecisions(d, vision);
    var c, c' := NewConfig(d, vision), NewConfig(d', vision);
    assert c.Wrapped?;
    NewTextKeeps(d');
    assert Depth(c') == Depth(c) - 1;
  }
}
