/**
A small registry with the shapes of the shipped one, and the submissions that keep the round trip from being
unconditional, on every registry of their shape.
*/
module SampleRegistry {
  import opened Options
  import opened Knobs
  import opened Resolution
  import opened Minimization
  import opened RoundTrip
  import DiffLaws

  function Pick(choices: set<Value>, raw: Value): Option<Value> {
    if raw in choices then Some(raw) else None
  }

  function Bounded(lo: int, hi: int, raw: Value): Option<Value> {
    if raw.Num? && lo <= raw.n <= hi then Some(raw) else None
  }

  const QWEN: Value := Text("qwen36")
  const TR3: Value := Text("exl3-tr3")
  const NVFP4: Value := Text("nvfp4")
  const QWEN_NVFP4: Value := Text("qwen36-nvfp4")
  const NATIVE: Value := Text("native")
  const FAMILIES: set<Value> := {GLM, QWEN}
  const VARIANTS: set<Value> := {TR3, NVFP4, QWEN_NVFP4}
  const SHARDS: set<Value> := {Num(1), Num(2), Num(4), Num(8)}
  const DRAFTS: set<Value> := {NATIVE, OFF}
  const FAIRNESS: Key := Other("PREFILL_FAIRNESS_ENGINE")

  const FamilyKnob := Knob(GLM, {}, true, false, raw => Pick(FAMILIES, raw))
  const VariantKnob := Knob(TR3, {}, true, false, raw => Pick(VARIANTS, raw))
  const IdKnob := Knob(Text(""), {Text("custom")}, true, false, (raw: Value) => if raw.Text? then Some(raw) else None)
  const TpKnob := Knob(Num(4), {}, true, false, raw => Bounded(1, 16, raw))
  const DcpKnob := Knob(Num(4), {GLM}, true, false, raw => Pick(SHARDS, raw))
  const DraftKnob := Knob(NATIVE, {GLM}, true, false, raw => Pick(DRAFTS, raw))
  const TokensKnob := Knob(Num(3), {}, true, false, raw => Bounded(0, 8, raw))
  const FairnessKnob := Knob(OFF, {GLM}, true, true, raw => Pick({OFF, Text("compute_share")}, raw))

  const ORDER: seq<Key> :=
    [MODEL_FAMILY, TENSOR_PARALLEL_SIZE, MODEL_VARIANT, MODEL_ID, FAIRNESS, MTP_DRAFT, MTP_TOKENS, DCP]

  function KnobFor(k: Key): Knob {
    match k
    case MODEL_FAMILY => FamilyKnob
    case MODEL_VARIANT => VariantKnob
    case MODEL_ID => IdKnob
    case TENSOR_PARALLEL_SIZE => TpKnob
    case DCP => DcpKnob
    case MTP_DRAFT => DraftKnob
    case MTP_TOKENS => TokensKnob
    case Other(_) => FairnessKnob
  }

  /** The default variant sets its own DCP and depth, the NVFP4 one neither. */
  const PROFILES: map<Value, VariantProfile> :=
    map[TR3 := VariantProfile(Some(NATIVE), map[DCP := Num(2), MTP_TOKENS := Num(5)]),
        NVFP4 := VariantProfile(None, map[]), QWEN_NVFP4 := VariantProfile(None, map[])]

  const Sample: Registry := Registry(
    ORDER,
    map k | k in ORDER :: KnobFor(k),
    map[GLM := FamilyProfile(Some(TR3), map[MTP_TOKENS := Num(3)]),
        QWEN := FamilyProfile(Some(QWEN_NVFP4), map[TENSOR_PARALLEL_SIZE := Num(1), MTP_TOKENS := Num(0)])],
    PROFILES,
    (k, v) => v == Text("glm53"),
    16,
    [8, 4, 2, 1])

  lemma OrderHolds(k: Key)
    ensures k in ORDER <==> !k.Other? || k == FAIRNESS
  {
    assert ORDER[0] == MODEL_FAMILY && ORDER[1] == TENSOR_PARALLEL_SIZE && ORDER[2] == MODEL_VARIANT && ORDER[3] == MODEL_ID
      && ORDER[4] == FAIRNESS && ORDER[5] == MTP_DRAFT && ORDER[6] == MTP_TOKENS && ORDER[7] == DCP;
  }

  lemma SampleKnob(k: Key)
    ensures k in Sample.knobs <==> k in ORDER
    ensures k in Sample.knobs ==> Sample.knobs[k] == KnobFor(k)
  {
    hide KnobFor;
  }

  lemma LegalDescends()
    ensures StrictlyDescending(Sample.dcpLegal)
    ensures forall i :: 0 <= i < |Sample.dcpLegal| ==> Sample.dcpLegal[i] > 0
  {
  }

  lemma SampleIsComplete()
    ensures Complete(Sample)
  {
    hide StrictlyDescending, KnobFor;
    LegalDescends();
    forall k ensures k in Sample.knobs <==> k in Sample.order {
      SampleKnob(k);
    }
    forall k | k in {MODEL_FAMILY, MODEL_VARIANT, MODEL_ID, TENSOR_PARALLEL_SIZE, DCP, MTP_DRAFT, MTP_TOKENS}
      ensures k in Sample.knobs
    {
      OrderHolds(k);
      SampleKnob(k);
    }
  }

  lemma KnobsSettle(k: Key)
    ensures Settled(KnobFor(k))
    ensures k == MTP_TOKENS ==> Counting(KnobFor(k))
    ensures k == MODEL_FAMILY ==> Naming(KnobFor(k))
  {
  }

  lemma SelectorsServe(k: Key)
    requires k == MODEL_FAMILY || k == MODEL_VARIANT
    ensures k in Sample.knobs && Selector(Sample.knobs[k]) && SelectorsServable(Sample, k)
  {
    OrderHolds(k);
    SampleKnob(k);
    assert forall v :: v in FAMILIES + VARIANTS ==> v != Text("glm53") by {
      assert |"glm52"| == 5 && "glm52"[4] == '2' && "glm53"[4] == '3';
      assert |"qwen36"| == 6 && |"exl3-tr3"| == 8 && |"glm53"| == 5 && |"qwen36-nvfp4"| == 12;
      assert "nvfp4"[0] == 'n' && "glm53"[0] == 'g';
    }
  }

  /** The hypotheses of the general theorems are satisfiable. */
  lemma SampleIsWellFormed()
    ensures WellFormed(Sample)
  {
    hide StrictlyDescending, KnobFor, Settled, Counting, Naming, SelectorsServable, Selector, CoherentFamily, Complete, Applies;
    SampleIsComplete();
    SampleFamilies();
    SampleVariants();
    forall k | k in Sample.knobs ensures Settled(Sample.knobs[k]) {
      SampleKnob(k);
      KnobsSettle(k);
    }
    SelectorsServe(MODEL_FAMILY);
    SelectorsServe(MODEL_VARIANT);
    SampleKnob(MTP_TOKENS);
    SampleKnob(MODEL_FAMILY);
    KnobsSettle(MTP_TOKENS);
    KnobsSettle(MODEL_FAMILY);
    SampleShape();
  }

  lemma SampleShape()
    ensures MTP_TOKENS in Sample.knobs && Sample.knobs[MTP_TOKENS].families == {}
    ensures TENSOR_PARALLEL_SIZE in Sample.knobs && Sample.knobs[TENSOR_PARALLEL_SIZE].families == {}
    ensures MTP_DRAFT in Sample.knobs && AppliesTo(Sample, GLM, MTP_DRAFT)
  {
    hide KnobFor;
    KnobFamilies();
    forall k | k in {MTP_TOKENS, TENSOR_PARALLEL_SIZE, MTP_DRAFT} ensures k in Sample.knobs && Sample.knobs[k] == KnobFor(k) {
      OrderHolds(k);
      SampleKnob(k);
    }
  }

  lemma KnobFamilies()
    ensures KnobFor(MTP_TOKENS).families == {} && KnobFor(TENSOR_PARALLEL_SIZE).families == {}
    ensures KnobFor(MTP_DRAFT).families == {GLM}
  {
  }

  lemma SampleFamilies()
    ensures MODEL_VARIANT in Sample.knobs
    ensures forall f :: f in Sample.families ==> CoherentFamily(Sample, Sample.families[f])
  {
    OrderHolds(MODEL_VARIANT);
    SampleKnob(MODEL_VARIANT);
  }

  lemma SampleVariants()
    ensures forall v :: v in Sample.variants ==> {MODEL_FAMILY, MODEL_VARIANT} !! Sample.variants[v].defaults.Keys
  {
    assert Sample.variants == PROFILES;
    forall v | v in PROFILES ensures {MODEL_FAMILY, MODEL_VARIANT} !! PROFILES[v].defaults.Keys {
      DistinctVariants();
      assert v == TR3 || v == NVFP4 || v == QWEN_NVFP4;
    }
  }

  // ------------------------------------------------------------------ submissions the GLM family accepts

  ghost predicate Accepts(reg: Registry, k: Key, v: Value) {
    k in reg.knobs && reg.knobs[k].editable && AppliesTo(reg, GLM, k) && reg.knobs[k].coerce(v) == Some(v)
  }

  /** A registry whose built-in family is GLM, and one of its variants. */
  ghost predicate ServesGlm(reg: Registry, variant: Value) {
    WellFormed(reg) && reg.knobs[MODEL_FAMILY].default == GLM && reg.knobs[MODEL_VARIANT].coerce(variant) == Some(variant)
  }

  /** The layers below the file leave the GPU shape of this variant to detection. */
  ghost predicate DetectsShape(reg: Registry, variant: Value) {
    && ServesGlm(reg, variant)
    && {TENSOR_PARALLEL_SIZE, DCP} !! VariantOf(reg, variant).defaults.Keys
    && reg.dcpLegal == [8, 4, 2, 1] && reg.tpMax == 16
    && Accepts(reg, DCP, Num(2)) && Accepts(reg, TENSOR_PARALLEL_SIZE, Num(4))
  }

  /** This variant speculates unless told not to. */
  ghost predicate Speculates(reg: Registry, variant: Value) {
    && ServesGlm(reg, variant)
    && Profiled(reg, GLM, variant, 0, MTP_TOKENS, None, None).value != Num(0)
    && Accepts(reg, MTP_DRAFT, OFF) && Accepts(reg, MTP_DRAFT, NATIVE) && Accepts(reg, MTP_TOKENS, Num(0))
  }

  lemma SampleAccepts(k: Key, v: Value)
    requires (k, v) in {(DCP, Num(2)), (TENSOR_PARALLEL_SIZE, Num(4)), (MTP_DRAFT, OFF), (MTP_DRAFT, NATIVE), (MTP_TOKENS, Num(0))}
    ensures Accepts(Sample, k, v)
  {
    OrderHolds(k);
    SampleKnob(k);
  }

  lemma SampleServes(variant: Value)
    requires variant == TR3 || variant == NVFP4
    ensures ServesGlm(Sample, variant)
  {
    hide WellFormed;
    SampleIsWellFormed();
    OrderHolds(MODEL_FAMILY);
    OrderHolds(MODEL_VARIANT);
    SampleKnob(MODEL_FAMILY);
    SampleKnob(MODEL_VARIANT);
  }

  lemma DistinctVariants()
    ensures NVFP4 != TR3 && NVFP4 != QWEN_NVFP4 && TR3 != QWEN_NVFP4 && GLM != QWEN
  {
    assert |"nvfp4"| == 5 && |"exl3-tr3"| == 8 && |"qwen36-nvfp4"| == 12 && |"glm52"| == 5 && |"qwen36"| == 6;
  }

  lemma SampleDepth()
    requires MTP_TOKENS in Sample.knobs && Sample.knobs[MTP_TOKENS] == TokensKnob && GLM in Sample.families
    ensures Profiled(Sample, GLM, TR3, 0, MTP_TOKENS, None, None).value == Num(5)
  {
    DistinctVariants();
    var profile := VariantOf(Sample, TR3);
    assert profile.defaults == map[DCP := Num(2), MTP_TOKENS := Num(5)];
    assert TokensKnob.coerce(Num(5)) == Some(Num(5));
    assert Overridable(Layered(Sample, GLM, 0, MTP_TOKENS, None, None).source);
  }

  lemma SampleLeavesShape()
    ensures {TENSOR_PARALLEL_SIZE, DCP} !! VariantOf(Sample, NVFP4).defaults.Keys
  {
    DistinctVariants();
  }

  /** The sample, like the shipped registry, has a variant of either kind: the NVFP4 one leaves the shape to
      detection, and the default one, which sets DCP itself, speculates. */
  lemma SampleHasBothKinds()
    ensures DetectsShape(Sample, NVFP4) && Speculates(Sample, TR3)
  {
    hide Accepts, ServesGlm, StrictlyDescending, Settled, Counting, Naming, SelectorsServable, Selector, Profiled, VariantOf, KnobFor;
    SampleServes(NVFP4);
    SampleServes(TR3);
    SampleAccepts(DCP, Num(2));
    SampleAccepts(TENSOR_PARALLEL_SIZE, Num(4));
    SampleAccepts(MTP_DRAFT, OFF);
    SampleAccepts(MTP_DRAFT, NATIVE);
    SampleAccepts(MTP_TOKENS, Num(0));
    SampleIsComplete();
    OrderHolds(MTP_TOKENS);
    SampleKnob(MTP_TOKENS);
    SampleTokens();
    SampleDepth();
    SampleLeavesShape();
  }

  lemma SampleTokens()
    ensures KnobFor(MTP_TOKENS) == TokensKnob
  {
  }

  /** A submission of usable values that names no other family minimizes, and its diff resolves. */
  lemma UsableSubmission(reg: Registry, variant: Value, values: Values, env: Env)
    requires ServesGlm(reg, variant) && Look(values, MODEL_VARIANT) == Some(variant) && MODEL_FAMILY !in values
    requires env.values.Keys !! {MODEL_FAMILY, MODEL_VARIANT}
    requires forall k :: k in values && k in reg.knobs ==> reg.knobs[k].coerce(values[k]).Some?
    requires forall k :: k in env.values && k in reg.knobs ==> reg.knobs[k].coerce(env.values[k]).Some?
    ensures Minimized(reg, values, env) == Ok(DiffOf(reg, values, env))
    ensures Resolved(reg, DiffOf(reg, values, env), env).Ok?
    ensures FamilyName(reg, values, env) == GLM && SelectedVariant(reg, values, GLM, env) == variant
    ensures InvalidStrict(reg, env) == {} && Baseline(reg, env) == env
  {
    hide StrictlyDescending, Settled, Counting, Naming, CoherentFamily, Selector, BaseVariant;
    assert MODEL_FAMILY !in env.values && MODEL_VARIANT !in env.values;
    assert env.values - {} == env.values;
    DiffLaws.NothingUnusable(reg, 0, values, GLM);
    assert Minimized(reg, values, env).Ok?;
    DiffResolvesIff(reg, values, env);
  }

  // ------------------------------------------------------------------ a submitted DCP that moves

  lemma FollowSteps()
    ensures FollowTp([8, 4, 2, 1], 6) == 2 && FollowTp([8, 4, 2, 1], 4) == 4
  {
    assert [8, 4, 2, 1][1..] == [4, 2, 1] && [4, 2, 1][1..] == [2, 1];
  }

  lemma SixGpus(reg: Registry, variant: Value)
    requires DetectsShape(reg, variant) && Baseline(reg, Env(map[], 6)) == Env(map[], 6)
    ensures Below(reg, GLM, variant, Env(map[], 6), DCP) == Setting(Num(2), Detected)
  {
    hide StrictlyDescending, Settled, Counting, Naming, SelectorsServable, CoherentFamily, Selector, InvalidStrict, FollowTp;
    FollowSteps();
  }

  /** On a six-GPU host the detected DCP of such a variant is 2. Asking for TP 4 together with that same DCP 2
      stores only the TP, and the DCP then follows it away from the 2 that was asked for. */
  lemma SubmittedDcpMoves(reg: Registry, variant: Value)
    requires DetectsShape(reg, variant)
    ensures var env := Env(map[], 6);
            var values: Values := map[MODEL_VARIANT := variant, TENSOR_PARALLEL_SIZE := Num(4), DCP := Num(2)];
            var out := Minimized(reg, values, env);
            && out.Ok? && Resolved(reg, out.value, env).Ok?
            && Submitted(reg, values, GLM, DCP)
            && Resolved(reg, out.value, env).value[DCP].value != Clean(reg, values, DCP)
  {
    hide StrictlyDescending, Settled, Counting, Naming, SelectorsServable, CoherentFamily, Selector, ConfigFor, FirstRefused,
      FirstUnusable, DiffOf, FollowTp, SelectedVariant, FamilyName, Below, Resolved, Minimized, InvalidStrict, Beneath, Baseline;
    var env := Env(map[], 6);
    var values: Values := map[MODEL_VARIANT := variant, TENSOR_PARALLEL_SIZE := Num(4), DCP := Num(2)];
    UsableSubmission(reg, variant, values, env);
    FollowSteps();
    SixGpus(reg, variant);
    assert DcpFollows(reg, values, env);
    assert Wanted(reg, values, env, TENSOR_PARALLEL_SIZE) == Num(4);
    MinimizedResolvesToSubmission(reg, values, env);
  }

  // ------------------------------------------------------------------ a submitted depth that returns

  lemma DepthIsNumber(reg: Registry, variant: Value)
    requires WellFormed(reg)
    ensures Profiled(reg, GLM, variant, 0, MTP_TOKENS, None, None).value.Num?
  {
    hide StrictlyDescending, Settled, Naming, SelectorsServable, CoherentFamily, Selector;
  }

  lemma DraftOffBelow(reg: Registry, variant: Value)
    requires Speculates(reg, variant)
    requires Baseline(reg, Env(map[MTP_DRAFT := OFF], 0)) == Env(map[MTP_DRAFT := OFF], 0)
    ensures Below(reg, GLM, variant, Env(map[MTP_DRAFT := OFF], 0), MTP_TOKENS) == Setting(Num(0), Derived)
  {
    hide StrictlyDescending, Settled, Counting, Naming, SelectorsServable, CoherentFamily, Selector, InvalidStrict, FollowTp, Preset;
    DepthIsNumber(reg, variant);
  }

  /** A template that starts with the draft off implies a depth of 0. Turning the draft on while
      asking for that same depth 0 stores only the draft, and the depth comes back. */
  lemma SubmittedDepthReturns(reg: Registry, variant: Value)
    requires Speculates(reg, variant)
    ensures var env := Env(map[MTP_DRAFT := OFF], 0);
            var values: Values := map[MODEL_VARIANT := variant, MTP_DRAFT := NATIVE, MTP_TOKENS := Num(0)];
            var out := Minimized(reg, values, env);
            && out.Ok? && Resolved(reg, out.value, env).Ok?
            && Submitted(reg, values, GLM, MTP_TOKENS)
            && Resolved(reg, out.value, env).value[MTP_TOKENS].value != Clean(reg, values, MTP_TOKENS)
  {
    hide StrictlyDescending, Settled, Counting, Naming, SelectorsServable, CoherentFamily, Selector, ConfigFor, FirstRefused,
      FirstUnusable, DiffOf, FollowTp, SelectedVariant, FamilyName, Below, Resolved, Minimized, InvalidStrict, Beneath, Baseline,
      Profiled;
    var env := Env(map[MTP_DRAFT := OFF], 0);
    var values: Values := map[MODEL_VARIANT := variant, MTP_DRAFT := NATIVE, MTP_TOKENS := Num(0)];
    UsableSubmission(reg, variant, values, env);
    DraftOffBelow(reg, variant);
    assert DepthImplied(reg, values, env);
    assert |"off"| == 3 && |"native"| == 6;
    assert Wanted(reg, values, env, MTP_DRAFT) == NATIVE;
    MinimizedResolvesToSubmission(reg, values, env);
  }
}
