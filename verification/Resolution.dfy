/**
Resolution of the six configuration layers (scripts/glm_config.py: resolve_family, resolve).

The functions give the meaning of one knob; the method Resolve is the source's loop, proved to
compute it. A knob's setting depends on the other knobs of the state file only through the
family, the variant, and the two coupling passes in Coupled.
*/
module Resolution {
  import opened Options
  import opened Knobs

  datatype Source = Default | Family | Detected | Variant | Environment | File | NotApplicable | Derived

  datatype Setting = Setting(value: Value, source: Source)

  type Config = map<Key, Setting>

  datatype Error = FlashUnavailable | InvalidValue(key: Key)

  datatype Result<+T> = Ok(value: T) | Err(error: Error)

  function Effective(c: Config): Values {
    map k | k in c :: c[k].value
  }

  // ------------------------------------------------------------------ the family

  predicate FlashSelected(reg: Registry, layer: Values) {
    || (MODEL_FAMILY in layer && reg.withdrawn(MODEL_FAMILY, layer[MODEL_FAMILY]))
    || (MODEL_VARIANT in layer && reg.withdrawn(MODEL_VARIANT, layer[MODEL_VARIANT]))
  }

  /** The last of two layers whose value coerces, or the fallback. */
  function Prevailing(knob: Knob, fallback: Value, lower: Option<Value>, upper: Option<Value>): Value {
    if upper.Some? && knob.coerce(upper.value).Some? then knob.coerce(upper.value).value
    else if lower.Some? && knob.coerce(lower.value).Some? then knob.coerce(lower.value).value
    else fallback
  }

  function FamilyName(reg: Registry, state: Values, env: Env): Value
    requires MODEL_FAMILY in reg.knobs
  {
    var knob := reg.knobs[MODEL_FAMILY];
    Prevailing(knob, knob.default, Look(env.values, MODEL_FAMILY), Look(state, MODEL_FAMILY))
  }

  // ------------------------------------------------------------------ one knob

  /** The layers under the environment: built-in default, family preset, detected hardware. */
  function Preset(reg: Registry, family: Value, gpus: nat, k: Key): Setting
    requires k in reg.knobs && GLM in reg.families
  {
    var knob := reg.knobs[k];
    var profile := FamilyOf(reg, family);
    var s0 :=
      if k == MODEL_VARIANT then
        Setting(if profile.defaultVariant.Some? then profile.defaultVariant.value else knob.default, Family)
      else Setting(knob.default, Default);
    var s1 :=
      if k in profile.defaults && knob.coerce(profile.defaults[k]).Some?
      then Setting(knob.coerce(profile.defaults[k]).value, Family) else s0;
    if gpus > 0 && k == TENSOR_PARALLEL_SIZE then Setting(Num(if gpus < reg.tpMax then gpus else reg.tpMax), Detected)
    else if gpus > 0 && k == DCP then Setting(Num(if gpus < 8 then gpus else 8), Detected)
    else s1
  }

  /** All six layers of one knob but the variant's, from its own raw environment and file values. */
  function Layered(reg: Registry, family: Value, gpus: nat, k: Key, fromEnv: Option<Value>, fromFile: Option<Value>): Setting
    requires k in reg.knobs && GLM in reg.families
  {
    var knob := reg.knobs[k];
    var s0 := Preset(reg, family, gpus, k);
    var s1 :=
      if fromEnv.Some? && knob.coerce(fromEnv.value).Some?
      then Setting(knob.coerce(fromEnv.value).value, Environment) else s0;
    var s2 :=
      if fromFile.Some? && knob.editable && knob.coerce(fromFile.value).Some?
      then Setting(knob.coerce(fromFile.value).value, File) else s1;
    if Applies(knob, family) then s2 else Setting(s2.value, NotApplicable)
  }

  /** A strict knob whose environment or file value is invalid and that no valid file value repairs. */
  predicate Refused(knob: Knob, family: Value, fromEnv: Option<Value>, fromFile: Option<Value>) {
    var repaired := fromFile.Some? && knob.editable && knob.coerce(fromFile.value).Some?;
    && knob.rejectInvalid
    && Applies(knob, family)
    && !repaired
    && (|| (fromEnv.Some? && knob.coerce(fromEnv.value).None?)
        || (fromFile.Some? && knob.editable))
  }

  predicate Overridable(source: Source) {
    source == Default || source == Family || source == Detected
  }

  function Overlaid(knob: Knob, s: Setting, preset: Option<Value>): Setting {
    if preset.Some? && Overridable(s.source) && knob.coerce(preset.value).Some?
    then Setting(knob.coerce(preset.value).value, Variant) else s
  }

  /** The variant layer laid over one layered setting, including the variant's stock draft. */
  function Laid(reg: Registry, family: Value, variant: Value, k: Key, layered: Setting): Setting
    requires k in reg.knobs
  {
    var profile := VariantOf(reg, variant);
    var s := Overlaid(reg.knobs[k], layered, Look(profile.defaults, k));
    if k == MTP_DRAFT && family == GLM && profile.defaultDraft.Some? && (s.source == Default || s.source == Family)
    then Setting(profile.defaultDraft.value, Variant) else s
  }

  function Profiled(reg: Registry, family: Value, variant: Value, gpus: nat, k: Key, fromEnv: Option<Value>, fromFile: Option<Value>): Setting
    requires k in reg.knobs && GLM in reg.families
  {
    Laid(reg, family, variant, k, Layered(reg, family, gpus, k, fromEnv, fromFile))
  }

  // ------------------------------------------------------------------ coupled knobs

  /** The first legal shard count that divides the tensor-parallel size, or 1. */
  function FollowTp(legal: seq<int>, tp: int): int
    requires forall i :: 0 <= i < |legal| ==> legal[i] > 0
  {
    if legal == [] then 1
    else if legal[0] <= tp && tp % legal[0] == 0 then legal[0]
    else FollowTp(legal[1..], tp)
  }

  /** A size that is missing or zero counts as one rank. */
  function RankCount(v: Value): int {
    if v.Num? && v.n != 0 then v.n else 1
  }

  /** Detected DCP follows the resolved TP, and a draft that is off zeroes the speculation depth. */
  function Coupled(reg: Registry, family: Value, k: Key, own: Setting, tp: Value, draft: Value): Setting
    requires Complete(reg)
  {
    if k == DCP && own.source == Detected then Setting(Num(FollowTp(reg.dcpLegal, RankCount(tp))), Detected)
    else if k == MTP_TOKENS && family == GLM && draft == OFF && Truthy(own.value) then Setting(Num(0), Derived)
    else own
  }

  // ------------------------------------------------------------------ all knobs

  ghost function ProfiledIn(reg: Registry, family: Value, variant: Value, state: Values, env: Env, k: Key): Setting
    requires Complete(reg) && k in reg.knobs
  {
    Profiled(reg, family, variant, env.gpus, k, Look(env.values, k), Look(state, k))
  }

  ghost function SettingIn(reg: Registry, family: Value, variant: Value, state: Values, env: Env, k: Key): Setting
    requires Complete(reg) && k in reg.knobs
  {
    Coupled(reg, family, k,
      ProfiledIn(reg, family, variant, state, env, k),
      ProfiledIn(reg, family, variant, state, env, TENSOR_PARALLEL_SIZE).value,
      ProfiledIn(reg, family, variant, state, env, MTP_DRAFT).value)
  }

  ghost function ConfigFor(reg: Registry, family: Value, variant: Value, state: Values, env: Env): (c: Config)
    requires Complete(reg)
    ensures forall k {:trigger k in c} :: k in c <==> k in reg.knobs
    ensures forall k {:trigger c[k]} :: k in reg.knobs ==> c[k] == SettingIn(reg, family, variant, state, env, k)
  {
    map k | k in reg.knobs :: SettingIn(reg, family, variant, state, env, k)
  }

  ghost function VariantName(reg: Registry, state: Values, env: Env): Value
    requires Complete(reg)
  {
    Layered(reg, FamilyName(reg, state, env), env.gpus, MODEL_VARIANT,
      Look(env.values, MODEL_VARIANT), Look(state, MODEL_VARIANT)).value
  }

  ghost predicate RefusedIn(reg: Registry, family: Value, state: Values, env: Env, k: Key)
    requires k in reg.knobs
  {
    Refused(reg.knobs[k], family, Look(env.values, k), Look(state, k))
  }

  /** The first knob that resolution refuses, in registry order from position i. */
  ghost function FirstRefused(reg: Registry, i: nat, family: Value, state: Values, env: Env): Option<Key>
    requires Complete(reg) && i <= |reg.order|
    decreases |reg.order| - i
  {
    if i == |reg.order| then None
    else if RefusedIn(reg, family, state, env, reg.order[i]) then Some(reg.order[i])
    else FirstRefused(reg, i + 1, family, state, env)
  }

  /** What `resolve` returns for a state file's values under an environment. */
  ghost function Resolved(reg: Registry, state: Values, env: Env): Result<Config>
    requires Complete(reg)
  {
    var family := FamilyName(reg, state, env);
    var refused := FirstRefused(reg, 0, family, state, env);
    if FlashSelected(reg, env.values) || FlashSelected(reg, state) then Err(FlashUnavailable)
    else if refused.Some? then Err(InvalidValue(refused.value))
    else Ok(ConfigFor(reg, family, VariantName(reg, state, env), state, env))
  }

  lemma {:induction false} FirstRefusedIff(reg: Registry, i: nat, family: Value, state: Values, env: Env)
    requires Complete(reg) && i <= |reg.order|
    ensures FirstRefused(reg, i, family, state, env).None? <==>
            forall j :: i <= j < |reg.order| ==> !RefusedIn(reg, family, state, env, reg.order[j])
    decreases |reg.order| - i
  {
    if i < |reg.order| {
      FirstRefusedIff(reg, i + 1, family, state, env);
    }
  }

  /** Resolution succeeds exactly when no layer asks for a withdrawn profile and every strict knob
      the family has is valid or repaired by the state file. */
  lemma ResolvesIff(reg: Registry, state: Values, env: Env)
    requires Complete(reg)
    ensures Resolved(reg, state, env).Ok? <==>
            && !FlashSelected(reg, env.values) && !FlashSelected(reg, state)
            && forall k :: k in reg.knobs ==> !RefusedIn(reg, FamilyName(reg, state, env), state, env, k)
  {
    hide FamilyName, FlashSelected, RefusedIn, ConfigFor, VariantName, StrictlyDescending, FirstRefused;
    FirstRefusedIff(reg, 0, FamilyName(reg, state, env), state, env);
    forall k | k in reg.knobs
      ensures exists j :: 0 <= j < |reg.order| && reg.order[j] == k
    {
      assert k in reg.order;
    }
  }

  /** The resolved family and variant are the ones every other knob was resolved for. */
  lemma SelectorsResolve(reg: Registry, state: Values, env: Env)
    requires WellFormed(reg) && Resolved(reg, state, env).Ok?
    ensures Resolved(reg, state, env).value[MODEL_FAMILY].value == FamilyName(reg, state, env)
    ensures Resolved(reg, state, env).value[MODEL_VARIANT].value == VariantName(reg, state, env)
  {
    hide FirstRefused, FlashSelected, Counting, Settled, SelectorsServable, Naming, StrictlyDescending, ConfigFor, FamilyName;
    var family := FamilyName(reg, state, env);
    var c := Resolved(reg, state, env).value;
    assert c[MODEL_FAMILY] == ProfiledIn(reg, family, VariantName(reg, state, env), state, env, MODEL_FAMILY);
    assert c[MODEL_VARIANT] == ProfiledIn(reg, family, VariantName(reg, state, env), state, env, MODEL_VARIANT);
    VariantLayerSkipsSelectors(reg, VariantName(reg, state, env));
    FamilyIsLayered(reg, family, state, env);
  }

  lemma VariantLayerSkipsSelectors(reg: Registry, variant: Value)
    requires WellFormed(reg)
    ensures MODEL_FAMILY !in VariantOf(reg, variant).defaults && MODEL_VARIANT !in VariantOf(reg, variant).defaults
  {
    hide Counting, Settled, SelectorsServable, Naming, StrictlyDescending, Selector, CoherentFamily;
    if variant in reg.variants {
      assert MODEL_FAMILY in {MODEL_FAMILY, MODEL_VARIANT} && MODEL_VARIANT in {MODEL_FAMILY, MODEL_VARIANT};
    }
  }

  lemma FamilyIsLayered(reg: Registry, family: Value, state: Values, env: Env)
    requires WellFormed(reg)
    ensures Layered(reg, family, env.gpus, MODEL_FAMILY, Look(env.values, MODEL_FAMILY), Look(state, MODEL_FAMILY)).value ==
            FamilyName(reg, state, env)
  {
    hide Counting, Settled, SelectorsServable, Naming, StrictlyDescending;
    assert CoherentFamily(reg, FamilyOf(reg, family));
  }

  lemma ResolvedKeys(reg: Registry, state: Values, env: Env)
    requires Complete(reg) && Resolved(reg, state, env).Ok?
    ensures Resolved(reg, state, env).value.Keys == reg.knobs.Keys
    ensures {MODEL_FAMILY, MODEL_VARIANT} <= reg.knobs.Keys
  {
    hide FirstRefused, FlashSelected, FamilyName, VariantName, SettingIn, StrictlyDescending;
  }

  /** FollowTp is the largest legal shard count dividing the rank count. */
  lemma {:induction false} FollowTpIsLargestDivisor(legal: seq<int>, tp: int)
    requires StrictlyDescending(legal) && forall i :: 0 <= i < |legal| ==> legal[i] > 0
    requires tp > 0
    ensures var c := FollowTp(legal, tp);
            && 0 < c <= tp && tp % c == 0
            && (c in legal || c == 1)
            && forall d :: d in legal && d <= tp && tp % d == 0 ==> d <= c
  {
    if legal != [] && !(legal[0] <= tp && tp % legal[0] == 0) {
      FollowTpIsLargestDivisor(legal[1..], tp);
      assert legal == [legal[0]] + legal[1..];
    } else if legal == [] {
      assert tp % 1 == 0;
    }
  }

  /** Whatever the layers say, a DCP that nobody chose divides the resolved tensor-parallel size,
      so the validation rule that demands it cannot reject a detected topology. */
  lemma DetectedDcpDividesTp(reg: Registry, state: Values, env: Env)
    requires Complete(reg) && Resolved(reg, state, env).Ok?
    ensures var c := Resolved(reg, state, env).value;
            c[DCP].source == Detected && c[TENSOR_PARALLEL_SIZE].value.Num? && c[TENSOR_PARALLEL_SIZE].value.n > 0 ==>
              && c[DCP].value.Num? && c[DCP].value.n > 0
              && c[TENSOR_PARALLEL_SIZE].value.n % c[DCP].value.n == 0
  {
    hide FirstRefused, FlashSelected, ProfiledIn, FamilyName, VariantName, ConfigFor;
    var c := Resolved(reg, state, env).value;
    var tp := c[TENSOR_PARALLEL_SIZE].value;
    if tp.Num? && tp.n > 0 {
      FollowTpIsLargestDivisor(reg.dcpLegal, tp.n);
    }
  }

  // ------------------------------------------------------------------ the loop

  method DetectDcp(reg: Registry, tp: Value) returns (dcp: Value)
    requires Complete(reg)
    ensures dcp == Num(FollowTp(reg.dcpLegal, RankCount(tp)))
  {
    var ranks := RankCount(tp);
    var i := 0;
    while i < |reg.dcpLegal|
      invariant 0 <= i <= |reg.dcpLegal|
      invariant FollowTp(reg.dcpLegal, ranks) == FollowTp(reg.dcpLegal[i..], ranks)
    {
      assert reg.dcpLegal[i..][1..] == reg.dcpLegal[i + 1..];
      if reg.dcpLegal[i] <= ranks && ranks % reg.dcpLegal[i] == 0 {
        return Num(reg.dcpLegal[i]);
      }
      i := i + 1;
    }
    return Num(1);
  }

  method ResolveFamily(reg: Registry, state: Values, env: Env) returns (r: Result<Value>)
    requires Complete(reg)
    ensures r == if FlashSelected(reg, env.values) || FlashSelected(reg, state) then Err(FlashUnavailable)
                 else Ok(FamilyName(reg, state, env))
  {
    if FlashSelected(reg, env.values) || FlashSelected(reg, state) {
      return Err(FlashUnavailable);
    }
    var knob := reg.knobs[MODEL_FAMILY];
    var name := knob.default;
    var layers := [env.values, state];
    for i := 0 to |layers|
      invariant i == 0 ==> name == knob.default
      invariant i == 1 ==> name == Prevailing(knob, knob.default, Look(env.values, MODEL_FAMILY), None)
      invariant i == 2 ==> name == FamilyName(reg, state, env)
    {
      if MODEL_FAMILY in layers[i] && knob.coerce(layers[i][MODEL_FAMILY]).Some? {
        name := knob.coerce(layers[i][MODEL_FAMILY]).value;
      }
    }
    return Ok(name);
  }

  /** One pass of the layer loop of `resolve`, for one knob. */
  method ResolveKnob(reg: Registry, family: Value, k: Key, state: Values, env: Env) returns (r: Result<Setting>)
    requires Complete(reg) && k in reg.knobs
    ensures r == if Refused(reg.knobs[k], family, Look(env.values, k), Look(state, k)) then Err(InvalidValue(k))
                 else Ok(Layered(reg, family, env.gpus, k, Look(env.values, k), Look(state, k)))
  {
    var knob := reg.knobs[k];
    var profile := FamilyOf(reg, family);
    var value, source := knob.default, Default;
    var invalid := false;
    if k == MODEL_VARIANT {
      value := if profile.defaultVariant.Some? then profile.defaultVariant.value else value;
      source := Family;
    }
    if k in profile.defaults && knob.coerce(profile.defaults[k]).Some? {
      value, source := knob.coerce(profile.defaults[k]).value, Family;
    }
    if env.gpus > 0 && k == TENSOR_PARALLEL_SIZE {
      value, source := Num(if env.gpus < reg.tpMax then env.gpus else reg.tpMax), Detected;
    }
    if env.gpus > 0 && k == DCP {
      value, source := Num(if env.gpus < 8 then env.gpus else 8), Detected;
    }
    if k in env.values {
      if knob.coerce(env.values[k]).Some? {
        value, source := knob.coerce(env.values[k]).value, Environment;
      } else if knob.rejectInvalid {
        invalid := true;
      }
    }
    if k in state && knob.editable {
      if knob.coerce(state[k]).Some? {
        value, source := knob.coerce(state[k]).value, File;
      } else if knob.rejectInvalid {
        invalid := true;
      }
    }
    if invalid && source != File && Applies(knob, family) {
      return Err(InvalidValue(k));
    }
    if !Applies(knob, family) {
      source := NotApplicable;
    }
    return Ok(Setting(value, source));
  }

  /** The variant's defaults, laid over whatever no one has chosen. */
  method OverlayDefaults(knobs: map<Key, Knob>, defaults: Values, layered: Config) returns (c: Config)
    requires layered.Keys == knobs.Keys
    ensures c.Keys == knobs.Keys
    ensures forall k :: k in knobs ==> c[k] == Overlaid(knobs[k], layered[k], Look(defaults, k))
  {
    c := layered;
    var pending := defaults.Keys;
    while pending != {}
      invariant pending <= defaults.Keys
      invariant c.Keys == knobs.Keys
      invariant forall k :: k in knobs && k in pending ==> c[k] == layered[k]
      invariant forall k :: k in knobs && k !in pending ==> c[k] == Overlaid(knobs[k], layered[k], Look(defaults, k))
    {
      var k :| k in pending;
      pending := pending - {k};
      if k in knobs && Overridable(c[k].source) && knobs[k].coerce(defaults[k]).Some? {
        c := c[k := Setting(knobs[k].coerce(defaults[k]).value, Variant)];
      }
    }
  }

  ghost predicate IsLayered(reg: Registry, family: Value, state: Values, env: Env, c: Config)
    requires GLM in reg.families
  {
    && c.Keys == reg.knobs.Keys
    && forall k :: k in reg.knobs ==>
         c[k] == Layered(reg, family, env.gpus, k, Look(env.values, k), Look(state, k))
  }

  /** The layer loop: every knob's setting, or the first refusal. */
  method LayerKnobs(reg: Registry, family: Value, state: Values, env: Env) returns (r: Result<Config>)
    requires Complete(reg)
    ensures var refused := FirstRefused(reg, 0, family, state, env);
            && (refused.Some? ==> r == Err(InvalidValue(refused.value)))
            && (refused.None? ==> r.Ok? && IsLayered(reg, family, state, env, r.value))
  {
    hide Layered, Refused, StrictlyDescending;
    var c: Config := map[];
    var i := 0;
    while i < |reg.order|
      invariant 0 <= i <= |reg.order|
      invariant FirstRefused(reg, 0, family, state, env) == FirstRefused(reg, i, family, state, env)
      invariant forall j :: 0 <= j < i ==> reg.order[j] in c
      invariant forall k :: k in c ==> k in reg.knobs
      invariant forall k :: k in c ==> c[k] == Layered(reg, family, env.gpus, k, Look(env.values, k), Look(state, k))
    {
      var k := reg.order[i];
      var setting := ResolveKnob(reg, family, k, state, env);
      if setting.Err? {
        return Err(setting.error);
      }
      c := c[k := setting.value];
      i := i + 1;
    }
    forall k | k in reg.knobs ensures k in c {
      assert k in reg.order;
    }
    return Ok(c);
  }

  method OverlayVariant(reg: Registry, family: Value, layered: Config) returns (c: Config)
    requires Complete(reg) && layered.Keys == reg.knobs.Keys
    ensures c.Keys == reg.knobs.Keys
    ensures forall k :: k in reg.knobs ==> c[k] == Laid(reg, family, layered[MODEL_VARIANT].value, k, layered[k])
  {
    hide Overlaid, StrictlyDescending;
    var profile := VariantOf(reg, layered[MODEL_VARIANT].value);
    c := OverlayDefaults(reg.knobs, profile.defaults, layered);
    if family == GLM && profile.defaultDraft.Some? && (c[MTP_DRAFT].source == Default || c[MTP_DRAFT].source == Family) {
      c := c[MTP_DRAFT := Setting(profile.defaultDraft.value, Variant)];
    }
  }

  method CoupleKnobs(reg: Registry, family: Value, laid: Config) returns (c: Config)
    requires Complete(reg) && laid.Keys == reg.knobs.Keys
    ensures c.Keys == reg.knobs.Keys
    ensures forall k :: k in reg.knobs ==>
              c[k] == Coupled(reg, family, k, laid[k], laid[TENSOR_PARALLEL_SIZE].value, laid[MTP_DRAFT].value)
  {
    hide FollowTp, StrictlyDescending;
    c := laid;
    if c[DCP].source == Detected {
      var dcp := DetectDcp(reg, c[TENSOR_PARALLEL_SIZE].value);
      c := c[DCP := Setting(dcp, Detected)];
    }
    if family == GLM && c[MTP_DRAFT].value == OFF && Truthy(c[MTP_TOKENS].value) {
      c := c[MTP_TOKENS := Setting(Num(0), Derived)];
    }
  }

  method Resolve(reg: Registry, state: Values, env: Env) returns (r: Result<Config>)
    requires Complete(reg)
    ensures r == Resolved(reg, state, env)
  {
    hide Layered, Laid, FirstRefused, Coupled, Prevailing, StrictlyDescending;
    var named := ResolveFamily(reg, state, env);
    if named.Err? {
      return Err(named.error);
    }
    var family := named.value;
    var layered := LayerKnobs(reg, family, state, env);
    if layered.Err? {
      return layered;
    }
    var laid := OverlayVariant(reg, family, layered.value);
    var c := CoupleKnobs(reg, family, laid);
    assert layered.value[MODEL_VARIANT].value == VariantName(reg, state, env);
    forall k | k in reg.knobs
      ensures c[k] == SettingIn(reg, family, VariantName(reg, state, env), state, env, k)
    {
      assert laid[k] == ProfiledIn(reg, family, VariantName(reg, state, env), state, env, k);
      assert laid[TENSOR_PARALLEL_SIZE] == ProfiledIn(reg, family, VariantName(reg, state, env), state, env, TENSOR_PARALLEL_SIZE);
      assert laid[MTP_DRAFT] == ProfiledIn(reg, family, VariantName(reg, state, env), state, env, MTP_DRAFT);
    }
    assert c == ConfigFor(reg, family, VariantName(reg, state, env), state, env);
    return Ok(c);
  }
}
