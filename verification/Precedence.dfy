/**
What resolution promises about its layers (scripts/glm_config.py: resolve), stated from the top down: file, then
environment, then the variant, then the detected hardware, then the family, then the built-in default. The
source builds a setting from the bottom up and in several passes; the two views agree on every knob.
*/
module Precedence {
  import opened Options
  import opened Knobs
  import opened Resolution

  /** The layer has a value for this knob that the knob accepts. */
  predicate Usable(knob: Knob, layer: Values, k: Key) {
    k in layer && knob.coerce(layer[k]).Some?
  }

  function Taken(knob: Knob, layer: Values, k: Key): Value
    requires Usable(knob, layer, k)
  {
    knob.coerce(layer[k]).value
  }

  predicate Meaningful(knob: Knob, family: Value) {
    family in knob.families || knob.families == {}
  }

  /** The family's own profile, or GLM's for a name no profile has. */
  function ProfileOf(reg: Registry, family: Value): FamilyProfile
    requires Text("glm52") in reg.families
  {
    reg.families[if family in reg.families then family else Text("glm52")]
  }

  /** What the layers under the variant give: hardware over family over the built-in default. */
  function Hardware(reg: Registry, gpus: nat, family: Value, k: Key): Setting
    requires k in reg.knobs && Text("glm52") in reg.families
  {
    var knob := reg.knobs[k];
    var profile := ProfileOf(reg, family);
    if k == TENSOR_PARALLEL_SIZE && gpus >= 1 then Setting(Num(if gpus >= reg.tpMax then reg.tpMax else gpus), Detected)
    else if k == DCP && gpus >= 1 then Setting(Num(if gpus >= 8 then 8 else gpus), Detected)
    else if Usable(knob, profile.defaults, k) then Setting(Taken(knob, profile.defaults, k), Family)
    else if k != MODEL_VARIANT then Setting(knob.default, Default)
    else if profile.defaultVariant.Some? then Setting(profile.defaultVariant.value, Family)
    else Setting(knob.default, Family)
  }

  /** The value of the highest layer that has a usable one, and which layer that is. A knob the family does
      not have takes nothing from the variant and is marked as not applicable. */
  function Highest(reg: Registry, state: Values, env: Env, family: Value, variant: Value, k: Key): Setting
    requires k in reg.knobs && Text("glm52") in reg.families
  {
    var knob := reg.knobs[k];
    var meaningful := Meaningful(knob, family);
    var s :=
      if Usable(knob, state, k) && knob.editable then Setting(Taken(knob, state, k), File)
      else if Usable(knob, env.values, k) then Setting(Taken(knob, env.values, k), Environment)
      else if meaningful && variant in reg.variants && Usable(knob, reg.variants[variant].defaults, k)
      then Setting(Taken(knob, reg.variants[variant].defaults, k), Variant)
      else if k == MTP_DRAFT && family == Text("glm52") && variant in reg.variants && reg.variants[variant].defaultDraft.Some?
      then Setting(reg.variants[variant].defaultDraft.value, Variant)
      else Hardware(reg, env.gpus, family, k);
    if meaningful then s else Setting(s.value, NotApplicable)
  }

  /** The largest of the legal shard counts that divides the rank count, or 1 when none does. */
  ghost predicate LargestShare(legal: seq<int>, ranks: int, c: int) {
    && (c == 1 || (c in legal && 0 < c <= ranks && ranks % c == 0))
    && forall d {:trigger d in legal} :: d in legal && 0 < d <= ranks && ranks % d == 0 ==> d <= c && c in legal
  }

  /** The setting of one knob, given the one the layers leave it: a DCP nobody chose follows the resolved
      tensor-parallel size, and a draft that is off leaves no speculation depth. */
  ghost predicate Settles(reg: Registry, c: Config, k: Key, layered: Setting)
    requires {k, MODEL_FAMILY, TENSOR_PARALLEL_SIZE, MTP_DRAFT} <= c.Keys
  {
    var tp := c[TENSOR_PARALLEL_SIZE].value;
    var silent := c[MODEL_FAMILY].value == Text("glm52") && c[MTP_DRAFT].value == Text("off");
    if k == DCP && layered.source == Detected then
      && c[k].source == Detected && c[k].value.Num?
      && LargestShare(reg.dcpLegal, if tp.Num? && tp.n != 0 then tp.n else 1, c[k].value.n)
    else if k == MTP_TOKENS && silent && layered.value != Num(0) then c[k] == Setting(Num(0), Derived)
    else c[k] == layered
  }

  // ------------------------------------------------------------------ the two views agree

  lemma PresetIsHardware(reg: Registry, gpus: nat, family: Value, k: Key)
    requires k in reg.knobs && GLM in reg.families
    ensures Preset(reg, family, gpus, k) == Hardware(reg, gpus, family, k)
    ensures Hardware(reg, gpus, family, k).source in {Default, Family, Detected}
    ensures Hardware(reg, gpus, family, k).source == Detected ==> k == TENSOR_PARALLEL_SIZE || k == DCP
  {
  }

  /** One knob before the coupling passes. */
  lemma ProfiledIsHighest(reg: Registry, state: Values, env: Env, family: Value, variant: Value, k: Key)
    requires GLM in reg.families && k in reg.knobs && (k == MTP_DRAFT && family == GLM ==> AppliesTo(reg, GLM, k))
    ensures Profiled(reg, family, variant, env.gpus, k, Look(env.values, k), Look(state, k)) ==
            Highest(reg, state, env, family, variant, k)
  {
    hide Preset, Hardware;
    PresetIsHardware(reg, env.gpus, family, k);
  }

  lemma {:induction false} FollowsLargest(legal: seq<int>, ranks: int)
    requires StrictlyDescending(legal) && forall i :: 0 <= i < |legal| ==> legal[i] > 0
    ensures LargestShare(legal, ranks, FollowTp(legal, ranks))
  {
    if legal != [] {
      assert legal == [legal[0]] + legal[1..];
      FollowsLargest(legal[1..], ranks);
    }
  }

  /** The depth is a number, so the only one that counts as unset is 0. */
  lemma DepthIsCounted(reg: Registry, state: Values, env: Env, family: Value, variant: Value)
    requires WellFormed(reg)
    ensures MTP_TOKENS in reg.knobs && Highest(reg, state, env, family, variant, MTP_TOKENS).value.Num?
  {
    hide StrictlyDescending, Settled, Naming, SelectorsServable, CoherentFamily, Selector;
  }

  /** Main result: in every successful resolution each knob carries the value of the highest layer that has a
      usable one for the resolved family and variant, but for the two couplings. */
  lemma HighestLayerWins(reg: Registry, state: Values, env: Env, k: Key)
    requires WellFormed(reg) && Resolved(reg, state, env).Ok? && k in reg.knobs
    ensures var c := Resolved(reg, state, env).value;
            && c.Keys == reg.knobs.Keys
            && Settles(reg, c, k, Highest(reg, state, env, c[MODEL_FAMILY].value, c[MODEL_VARIANT].value, k))
  {
    hide StrictlyDescending, Settled, Counting, Naming, SelectorsServable, CoherentFamily, Selector, FirstRefused, FlashSelected,
      FamilyName, VariantName, Highest, Profiled, ConfigFor, LargestShare, FollowTp;
    var c := Resolved(reg, state, env).value;
    var family, variant := c[MODEL_FAMILY].value, c[MODEL_VARIANT].value;
    SelectorsResolve(reg, state, env);
    ResolvedKeys(reg, state, env);
    ProfiledIsHighest(reg, state, env, family, variant, k);
    ProfiledIsHighest(reg, state, env, family, variant, TENSOR_PARALLEL_SIZE);
    ProfiledIsHighest(reg, state, env, family, variant, MTP_DRAFT);
    DepthIsCounted(reg, state, env, family, variant);
    FollowsLargest(reg.dcpLegal, RankCount(c[TENSOR_PARALLEL_SIZE].value));
    assert c[k] == SettingIn(reg, family, variant, state, env, k);
    assert c[TENSOR_PARALLEL_SIZE] == SettingIn(reg, family, variant, state, env, TENSOR_PARALLEL_SIZE);
    assert c[MTP_DRAFT] == SettingIn(reg, family, variant, state, env, MTP_DRAFT);
  }

  // ------------------------------------------------------------------ refusals

  /** The family a state file and an environment ask for. */
  function Asked(reg: Registry, state: Values, env: Env): Value
    requires MODEL_FAMILY in reg.knobs
  {
    var knob := reg.knobs[MODEL_FAMILY];
    if Usable(knob, state, MODEL_FAMILY) then Taken(knob, state, MODEL_FAMILY)
    else if Usable(knob, env.values, MODEL_FAMILY) then Taken(knob, env.values, MODEL_FAMILY)
    else knob.default
  }

  /** A strict knob of the family, set to something it cannot take and not repaired by the file. */
  ghost predicate Unserviceable(reg: Registry, state: Values, env: Env, k: Key)
    requires {MODEL_FAMILY, k} <= reg.knobs.Keys
  {
    var knob := reg.knobs[k];
    && knob.rejectInvalid && Meaningful(knob, Asked(reg, state, env))
    && !(knob.editable && Usable(knob, state, k))
    && ((k in env.values && !Usable(knob, env.values, k)) || (k in state && knob.editable))
  }

  ghost predicate AsksForWithdrawn(reg: Registry, layer: Values) {
    exists k :: k in layer && (k == MODEL_FAMILY || k == MODEL_VARIANT) && reg.withdrawn(k, layer[k])
  }

  lemma {:induction false} FirstRefusedIsFirst(reg: Registry, i: nat, state: Values, env: Env)
    requires Complete(reg) && i <= |reg.order|
    ensures var first := FirstRefused(reg, i, FamilyName(reg, state, env), state, env);
            if first.None? then forall j :: i <= j < |reg.order| ==> !Unserviceable(reg, state, env, reg.order[j])
            else exists j :: i <= j < |reg.order| && reg.order[j] == first.value && Unserviceable(reg, state, env, reg.order[j])
                   && forall m :: i <= m < j ==> !Unserviceable(reg, state, env, reg.order[m])
    decreases |reg.order| - i
  {
    hide StrictlyDescending;
    if i < |reg.order| {
      FirstRefusedIsFirst(reg, i + 1, state, env);
    }
  }

  /** Resolution fails on a withdrawn profile in either layer, and otherwise on the first strict knob in
      registry order that cannot be served; there is no other failure. */
  lemma FailsIff(reg: Registry, state: Values, env: Env)
    requires Complete(reg)
    ensures var r := Resolved(reg, state, env);
            var withdrawn := AsksForWithdrawn(reg, env.values) || AsksForWithdrawn(reg, state);
            && (r == Err(FlashUnavailable) <==> withdrawn)
            && (r.Ok? <==> !withdrawn && forall j :: 0 <= j < |reg.order| ==> !Unserviceable(reg, state, env, reg.order[j]))
            && (r.Err? && r.error.InvalidValue? ==>
                  exists j :: 0 <= j < |reg.order| && reg.order[j] == r.error.key && Unserviceable(reg, state, env, reg.order[j])
                    && forall m :: 0 <= m < j ==> !Unserviceable(reg, state, env, reg.order[m]))
  {
    hide FirstRefused, ConfigFor, VariantName, Unserviceable, StrictlyDescending;
    FirstRefusedIsFirst(reg, 0, state, env);
  }

  // ------------------------------------------------------------------ reading a resolution off its layers

  lemma VariantWins(reg: Registry, state: Values, env: Env, family: Value, variant: Value, k: Key)
    requires k in reg.knobs && Text("glm52") in reg.families && k !in state && k !in env.values
    requires Meaningful(reg.knobs[k], family) && variant in reg.variants && Usable(reg.knobs[k], reg.variants[variant].defaults, k)
    ensures Highest(reg, state, env, family, variant, k) == Setting(Taken(reg.knobs[k], reg.variants[variant].defaults, k), Variant)
  {
  }

  lemma HardwareWins(reg: Registry, state: Values, env: Env, family: Value, variant: Value, k: Key)
    requires k in reg.knobs && Text("glm52") in reg.families && k !in state && k !in env.values && k != MTP_DRAFT
    requires Meaningful(reg.knobs[k], family) && (variant in reg.variants ==> k !in reg.variants[variant].defaults)
    ensures Highest(reg, state, env, family, variant, k) == Hardware(reg, env.gpus, family, k)
  {
    hide Hardware;
  }

  /** A setting that no coupling touches is the one its layer gives. */
  lemma LayerStands(reg: Registry, state: Values, env: Env, k: Key, s: Setting)
    requires WellFormed(reg) && Resolved(reg, state, env).Ok? && k in reg.knobs && k != MTP_TOKENS
    requires Resolved(reg, state, env).value.Keys == reg.knobs.Keys
    requires var c := Resolved(reg, state, env).value;
             s == Highest(reg, state, env, c[MODEL_FAMILY].value, c[MODEL_VARIANT].value, k)
    requires k == DCP ==> s.source != Detected
    ensures Resolved(reg, state, env).value[k] == s
  {
    hide Settled, Counting, Naming, SelectorsServable, CoherentFamily, Selector, Resolved, Highest, LargestShare;
    HighestLayerWins(reg, state, env, k);
  }

  /** What the layers give the selectors settles the family and the variant the other knobs are resolved for. */
  lemma SelectorsStand(reg: Registry, state: Values, env: Env, family: Setting, variant: Setting)
    requires WellFormed(reg) && Resolved(reg, state, env).Ok?
    requires forall f, v :: Highest(reg, state, env, f, v, MODEL_FAMILY) == family
    requires forall v :: Highest(reg, state, env, family.value, v, MODEL_VARIANT) == variant
    ensures var c := Resolved(reg, state, env).value;
            && c.Keys == reg.knobs.Keys && c[MODEL_FAMILY] == family && c[MODEL_VARIANT] == variant
            && forall k :: k in reg.knobs && k != MTP_TOKENS ==>
                 var s := Highest(reg, state, env, family.value, variant.value, k);
                 (k == DCP ==> s.source != Detected) ==> c[k] == s
  {
    hide Settled, Counting, Naming, SelectorsServable, CoherentFamily, Selector, Resolved, Highest, LargestShare;
    ResolvedKeys(reg, state, env);
    var c := Resolved(reg, state, env).value;
    LayerStands(reg, state, env, MODEL_FAMILY, Highest(reg, state, env, c[MODEL_FAMILY].value, c[MODEL_VARIANT].value, MODEL_FAMILY));
    LayerStands(reg, state, env, MODEL_VARIANT, Highest(reg, state, env, c[MODEL_FAMILY].value, c[MODEL_VARIANT].value, MODEL_VARIANT));
    forall k | k in reg.knobs && k != MTP_TOKENS
      ensures var s := Highest(reg, state, env, family.value, variant.value, k);
              (k == DCP ==> s.source != Detected) ==> c[k] == s
    {
      if k == DCP ==> Highest(reg, state, env, family.value, variant.value, k).source != Detected {
        LayerStands(reg, state, env, k, Highest(reg, state, env, family.value, variant.value, k));
      }
    }
  }
}
