/**
The state file is a diff (scripts/glm_config.py: minimize). This module proves in what sense it is
the diff of the configuration that was submitted.
*/
module Minimization {
  import opened Options
  import opened Knobs
  import opened Resolution

  // ------------------------------------------------------------------ the two baselines

  /** Strict environment values that do not coerce. */
  function InvalidStrict(reg: Registry, env: Env): set<Key> {
    set k | k in env.values && k in reg.knobs && reg.knobs[k].rejectInvalid && reg.knobs[k].coerce(env.values[k]).None?
  }

  function Baseline(reg: Registry, env: Env): Env {
    Env(env.values - InvalidStrict(reg, env), env.gpus)
  }

  ghost function BaseVariant(reg: Registry, family: Value, env: Env): Value
    requires Complete(reg)
  {
    VariantName(reg, map[MODEL_FAMILY := family], Baseline(reg, env))
  }

  ghost function SelectedVariant(reg: Registry, values: Values, family: Value, env: Env): Value
    requires Complete(reg)
  {
    Prevailing(reg.knobs[MODEL_VARIANT], BaseVariant(reg, family, env), None, Look(values, MODEL_VARIANT))
  }

  function Selectors(family: Value, variant: Value): Values {
    map[MODEL_FAMILY := family, MODEL_VARIANT := variant]
  }

  /** What a knob gets from the layers below the state file, under a family and a variant. */
  ghost function Below(reg: Registry, family: Value, variant: Value, env: Env, k: Key): Setting
    requires Complete(reg) && k in reg.knobs
  {
    SettingIn(reg, family, variant, Selectors(family, variant), Baseline(reg, env), k)
  }

  /** Below, before the coupling passes. */
  ghost function Beneath(reg: Registry, family: Value, variant: Value, env: Env, k: Key): Setting
    requires Complete(reg) && k in reg.knobs
  {
    ProfiledIn(reg, family, variant, Selectors(family, variant), Baseline(reg, env), k)
  }

  // ------------------------------------------------------------------ the diff

  predicate IsSelector(k: Key) {
    k == MODEL_FAMILY || k == MODEL_VARIANT
  }

  /** The caller supplies a usable value for a knob the family has. */
  predicate Submitted(reg: Registry, values: Values, family: Value, k: Key)
    requires k in reg.knobs
  {
    && k in values
    && reg.knobs[k].editable
    && reg.knobs[k].coerce(values[k]).Some?
    && AppliesTo(reg, family, k)
  }

  function Clean(reg: Registry, values: Values, k: Key): Value
    requires k in reg.knobs && k in values && reg.knobs[k].coerce(values[k]).Some?
  {
    reg.knobs[k].coerce(values[k]).value
  }

  predicate Unusable(reg: Registry, values: Values, family: Value, k: Key)
    requires k in reg.knobs
  {
    && !IsSelector(k)
    && k in values
    && reg.knobs[k].editable
    && reg.knobs[k].coerce(values[k]).None?
    && reg.knobs[k].rejectInvalid
    && AppliesTo(reg, family, k)
  }

  ghost function FirstUnusable(reg: Registry, i: nat, values: Values, family: Value): Option<Key>
    requires Complete(reg) && i <= |reg.order|
    decreases |reg.order| - i
  {
    if i == |reg.order| then None
    else if Unusable(reg, values, family, reg.order[i]) then Some(reg.order[i])
    else FirstUnusable(reg, i + 1, values, family)
  }

  /** The value a knob leaves in the state file, if it leaves one. */
  ghost function Stored(reg: Registry, values: Values, env: Env, k: Key): Option<Value>
    requires Complete(reg) && k in reg.knobs
  {
    var family := FamilyName(reg, values, env);
    var variant := SelectedVariant(reg, values, family, env);
    if k == MODEL_FAMILY then
      if family != FamilyName(reg, map[], Baseline(reg, env)) then Some(family) else None
    else if k == MODEL_VARIANT then
      if variant != BaseVariant(reg, family, env) then Some(variant) else None
    else if Submitted(reg, values, family, k)
      && (Clean(reg, values, k) != Below(reg, family, variant, env, k).value || k in InvalidStrict(reg, env))
    then Some(Clean(reg, values, k))
    else None
  }

  ghost function DiffOf(reg: Registry, values: Values, env: Env): (out: Values)
    requires Complete(reg)
    ensures forall k :: k in out ==> k in reg.knobs
    ensures forall k {:trigger Look(out, k)} :: k in reg.knobs ==> Look(out, k) == Stored(reg, values, env, k)
  {
    map k | k in reg.knobs && Stored(reg, values, env, k).Some? :: Stored(reg, values, env, k).value
  }

  /** What `minimize` returns. */
  ghost function Minimized(reg: Registry, values: Values, env: Env): Result<Values>
    requires Complete(reg)
  {
    var unusable := FirstUnusable(reg, 0, values, FamilyName(reg, values, env));
    if FlashSelected(reg, env.values) || FlashSelected(reg, values) then Err(FlashUnavailable)
    else if unusable.Some? then Err(InvalidValue(unusable.value))
    else Ok(DiffOf(reg, values, env))
  }

  // ------------------------------------------------------------------ the loop

  /** The layers below the state file always resolve once the invalid strict values are set aside. */
  lemma BaselineResolves(reg: Registry, state: Values, env: Env)
    requires WellFormed(reg) && !FlashSelected(reg, env.values) && !FlashSelected(reg, state)
    requires state.Keys <= {MODEL_FAMILY, MODEL_VARIANT}
    ensures Resolved(reg, state, Baseline(reg, env)).Ok?
  {
    hide Settled, StrictlyDescending, ConfigFor, SelectorsServable, CoherentFamily;
    ResolvesIff(reg, state, Baseline(reg, env));
  }

  /** A family name that any layer supplies, coerces to itself and is not withdrawn. */
  lemma FamilyNameSettles(reg: Registry, state: Values, env: Env)
    requires WellFormed(reg)
    ensures var f := FamilyName(reg, state, env);
            reg.knobs[MODEL_FAMILY].coerce(f) == Some(f) && !reg.withdrawn(MODEL_FAMILY, f)
  {
  }

  lemma VariantSettles(reg: Registry, values: Values, family: Value, env: Env)
    requires WellFormed(reg)
    ensures var v := BaseVariant(reg, family, env);
            reg.knobs[MODEL_VARIANT].coerce(v) == Some(v) && !reg.withdrawn(MODEL_VARIANT, v)
    ensures var v := SelectedVariant(reg, values, family, env);
            reg.knobs[MODEL_VARIANT].coerce(v) == Some(v) && !reg.withdrawn(MODEL_VARIANT, v)
  {
  }

  /** Resolving bare selectors yields exactly those selectors. */
  lemma SelectorsTake(reg: Registry, family: Value, variant: Value, env: Env)
    requires WellFormed(reg)
    requires reg.knobs[MODEL_FAMILY].coerce(family) == Some(family)
    requires reg.knobs[MODEL_VARIANT].coerce(variant) == Some(variant)
    ensures FamilyName(reg, Selectors(family, variant), env) == family
    ensures VariantName(reg, Selectors(family, variant), env) == variant
    ensures FamilyName(reg, map[MODEL_FAMILY := family], env) == family
  {
  }

  method FindInvalidStrict(reg: Registry, env: Env) returns (invalid: set<Key>, baseline: Env)
    requires Complete(reg)
    ensures invalid == InvalidStrict(reg, env)
    ensures baseline == Baseline(reg, env)
  {
    invalid := {};
    var layer := env.values;
    for i := 0 to |reg.order|
      invariant forall k :: k in invalid ==> k in InvalidStrict(reg, env)
      invariant forall j :: 0 <= j < i && reg.order[j] in InvalidStrict(reg, env) ==> reg.order[j] in invalid
      invariant layer == env.values - invalid
    {
      var k := reg.order[i];
      if reg.knobs[k].rejectInvalid && k in layer && reg.knobs[k].coerce(layer[k]).None? {
        invalid := invalid + {k};
        layer := layer - {k};
      }
    }
    assert invalid == InvalidStrict(reg, env) by {
      forall k | k in InvalidStrict(reg, env) ensures k in invalid {
        assert k in reg.order;
      }
    }
    baseline := Env(layer, env.gpus);
  }

  /** The three baselines `minimize` compares against. */
  method Baselines(reg: Registry, values: Values, family: Value, baseline: Env, ghost env: Env)
    returns (variant: Value, familyStays: bool, variantStays: bool, below: Config)
    requires WellFormed(reg) && baseline == Baseline(reg, env)
    requires !FlashSelected(reg, env.values) && !FlashSelected(reg, values)
    requires family == FamilyName(reg, values, env)
    ensures variant == SelectedVariant(reg, values, family, env)
    ensures familyStays == (family == FamilyName(reg, map[], baseline))
    ensures variantStays == (variant == BaseVariant(reg, family, env))
    ensures below.Keys == reg.knobs.Keys
    ensures forall k :: k in reg.knobs ==> below[k] == Below(reg, family, variant, env, k)
  {
    hide Settled, StrictlyDescending, SettingIn, SelectorsServable, CoherentFamily, Counting, Preset;
    FamilyNameSettles(reg, values, env);
    VariantSettles(reg, values, family, env);
    variant := SelectedVariantOf(reg, values, family, baseline, env);
    SelectorsTake(reg, family, variant, baseline);

    BaselineResolves(reg, map[MODEL_FAMILY := family], env);
    var base := Resolve(reg, map[MODEL_FAMILY := family], baseline);
    SelectorsResolve(reg, map[MODEL_FAMILY := family], baseline);
    variantStays := variant == base.value[MODEL_VARIANT].value;

    BaselineResolves(reg, map[], env);
    var unfiled := Resolve(reg, map[], baseline);
    SelectorsResolve(reg, map[], baseline);
    familyStays := family == unfiled.value[MODEL_FAMILY].value;

    BaselineResolves(reg, Selectors(family, variant), env);
    var chosen := Resolve(reg, map[MODEL_FAMILY := family, MODEL_VARIANT := variant], baseline);
    below := chosen.value;
  }

  method SelectedVariantOf(reg: Registry, values: Values, family: Value, baseline: Env, ghost env: Env) returns (variant: Value)
    requires WellFormed(reg) && baseline == Baseline(reg, env)
    requires !FlashSelected(reg, env.values)
    requires reg.knobs[MODEL_FAMILY].coerce(family) == Some(family) && !reg.withdrawn(MODEL_FAMILY, family)
    ensures variant == SelectedVariant(reg, values, family, env)
  {
    hide Settled, StrictlyDescending, SettingIn, SelectorsServable, CoherentFamily, Counting, Preset;
    BaselineResolves(reg, map[MODEL_FAMILY := family], env);
    var base := Resolve(reg, map[MODEL_FAMILY := family], baseline);
    SelectorsResolve(reg, map[MODEL_FAMILY := family], baseline);
    variant := base.value[MODEL_VARIANT].value;
    if MODEL_VARIANT in values && reg.knobs[MODEL_VARIANT].coerce(values[MODEL_VARIANT]).Some? {
      variant := reg.knobs[MODEL_VARIANT].coerce(values[MODEL_VARIANT]).value;
    }
  }

  method Minimize(reg: Registry, values: Values, env: Env) returns (r: Result<Values>, dropped: set<Key>)
    requires WellFormed(reg)
    ensures r == Minimized(reg, values, env)
    ensures r.Ok? ==> forall k :: k in dropped <==>
              k in reg.knobs && Drops(reg, values, FamilyName(reg, values, env), k)
  {
    dropped := {};
    var named := ResolveFamily(reg, values, env);
    if named.Err? {
      return Err(named.error), dropped;
    }
    var family := named.value;
    var invalid, baseline := FindInvalidStrict(reg, env);
    var variant, familyStays, variantStays, below := Baselines(reg, values, family, baseline, env);
    r, dropped := Diff(reg, values, env, family, variant, familyStays, variantStays, below, invalid);
  }

  /** The knob loop of `minimize`. */
  method Diff(reg: Registry, values: Values, ghost env: Env, family: Value, variant: Value,
      familyStays: bool, variantStays: bool, below: Config, invalid: set<Key>)
    returns (r: Result<Values>, dropped: set<Key>)
    requires Complete(reg)
    requires !FlashSelected(reg, env.values) && !FlashSelected(reg, values)
    requires family == FamilyName(reg, values, env) && variant == SelectedVariant(reg, values, family, env)
    requires familyStays == (family == FamilyName(reg, map[], Baseline(reg, env)))
    requires variantStays == (variant == BaseVariant(reg, family, env))
    requires below.Keys == reg.knobs.Keys
    requires forall k :: k in reg.knobs ==> below[k] == Below(reg, family, variant, env, k)
    requires invalid == InvalidStrict(reg, env)
    ensures r == Minimized(reg, values, env)
    ensures r.Ok? ==> forall k :: k in dropped <==> k in reg.knobs && Drops(reg, values, family, k)
  {
    hide StrictlyDescending, Below, FamilyName, SelectedVariant, BaseVariant, InvalidStrict, Stored, Drops, Unusable, FlashSelected, Filed, Dropped, DiffOf;
    dropped := {};
    var out: Values := map[];
    if !familyStays {
      out := out[MODEL_FAMILY := family];
    }
    if !variantStays {
      out := out[MODEL_VARIANT := variant];
    }
    SelectorsStored(reg, values, env);
    FiledStart(reg, values, env, out);
    ghost var done: set<Key> := {};
    for i := 0 to |reg.order|
      invariant FirstUnusable(reg, 0, values, family) == FirstUnusable(reg, i, values, family)
      invariant forall j :: 0 <= j < i ==> reg.order[j] in done
      invariant Filed(reg, values, env, done, out)
      invariant Dropped(reg, values, family, done, dropped)
    {
      var k := reg.order[i];
      assert k in reg.knobs;
      var bad, kept, drop := DiffKnob(reg, values, env, family, variant, below[k].value, k in invalid, k);
      if bad {
        return Err(InvalidValue(k)), dropped;
      }
      FiledStep(reg, values, env, done, out, k);
      DroppedStep(reg, values, family, done, dropped, k);
      if kept.Some? {
        out := out[k := kept.value];
      }
      if drop {
        dropped := dropped + {k};
      }
      done := done + {k};
    }
    FiledAll(reg, values, env, family, done, out, dropped);
    return Ok(out), dropped;
  }

  lemma FiledAll(reg: Registry, values: Values, env: Env, family: Value, done: set<Key>, out: Values, dropped: set<Key>)
    requires Complete(reg) && forall j :: 0 <= j < |reg.order| ==> reg.order[j] in done
    requires Filed(reg, values, env, done, out) && Dropped(reg, values, family, done, dropped)
    ensures out == DiffOf(reg, values, env)
    ensures forall k :: k in dropped <==> k in reg.knobs && Drops(reg, values, family, k)
  {
    hide Stored, Drops, StrictlyDescending;
    forall k | k in reg.knobs ensures k in done {
      assert k in reg.order;
    }
  }

  /** The diff so far: the selectors, and what the knobs already visited leave behind. */
  ghost predicate Filed(reg: Registry, values: Values, env: Env, done: set<Key>, out: Values)
    requires Complete(reg)
  {
    && (forall k :: k in out ==> k in reg.knobs)
    && forall k :: k in reg.knobs ==>
         Look(out, k) == if k in done || IsSelector(k) then Stored(reg, values, env, k) else None
  }

  ghost predicate Dropped(reg: Registry, values: Values, family: Value, done: set<Key>, dropped: set<Key>)
  {
    forall k :: k in dropped <==> k in reg.knobs && k in done && Drops(reg, values, family, k)
  }

  lemma FiledStart(reg: Registry, values: Values, env: Env, out: Values)
    requires Complete(reg) && out.Keys <= {MODEL_FAMILY, MODEL_VARIANT}
    requires Look(out, MODEL_FAMILY) == Stored(reg, values, env, MODEL_FAMILY)
    requires Look(out, MODEL_VARIANT) == Stored(reg, values, env, MODEL_VARIANT)
    ensures Filed(reg, values, env, {}, out)
    ensures Dropped(reg, values, FamilyName(reg, values, env), {}, {})
  {
    hide Stored, Drops, StrictlyDescending;
  }

  lemma FiledStep(reg: Registry, values: Values, env: Env, done: set<Key>, out: Values, k: Key)
    requires Complete(reg) && Filed(reg, values, env, done, out) && k in reg.knobs
    ensures var kept := if IsSelector(k) then None else Stored(reg, values, env, k);
            Filed(reg, values, env, done + {k}, if kept.Some? then out[k := kept.value] else out)
  {
    hide Stored, Below, StrictlyDescending;
  }

  lemma DroppedStep(reg: Registry, values: Values, family: Value, done: set<Key>, dropped: set<Key>, k: Key)
    requires Complete(reg) && Dropped(reg, values, family, done, dropped) && k in reg.knobs
    ensures Dropped(reg, values, family, done + {k}, if Drops(reg, values, family, k) then dropped + {k} else dropped)
  {
    hide Drops, StrictlyDescending;
  }

  /** A usable submitted value that the selected family has no use for. */
  predicate Drops(reg: Registry, values: Values, family: Value, k: Key)
    requires k in reg.knobs
  {
    && !IsSelector(k) && k in values && reg.knobs[k].editable && !AppliesTo(reg, family, k)
    && reg.knobs[k].coerce(values[k]).Some?
    && Clean(reg, values, k) != reg.knobs[k].default
  }

  /** What the page is told was not saved: an editable field with a usable value other than the default, of a knob that
      only other families have. */
  lemma DropsIff(reg: Registry, values: Values, family: Value, k: Key)
    requires k in reg.knobs
    ensures Drops(reg, values, family, k) <==>
            && k !in {MODEL_FAMILY, MODEL_VARIANT} && reg.knobs[k].editable
            && reg.knobs[k].families != {} && family !in reg.knobs[k].families
            && k in values && exists v :: reg.knobs[k].coerce(values[k]) == Some(v) && v != reg.knobs[k].default
  {
  }

  lemma SelectorsStored(reg: Registry, values: Values, env: Env)
    requires Complete(reg)
    ensures var family := FamilyName(reg, values, env);
            && Stored(reg, values, env, MODEL_FAMILY)
               == (if family != FamilyName(reg, map[], Baseline(reg, env)) then Some(family) else None)
            && Stored(reg, values, env, MODEL_VARIANT)
               == (if SelectedVariant(reg, values, family, env) != BaseVariant(reg, family, env)
                   then Some(SelectedVariant(reg, values, family, env)) else None)
  {
  }

  /** One pass of the knob loop. */
  method DiffKnob(reg: Registry, values: Values, ghost env: Env, family: Value, ghost variant: Value,
      below: Value, invalid: bool, k: Key)
    returns (bad: bool, kept: Option<Value>, drop: bool)
    requires Complete(reg) && k in reg.knobs
    requires family == FamilyName(reg, values, env) && variant == SelectedVariant(reg, values, family, env)
    requires below == Below(reg, family, variant, env, k).value && invalid == (k in InvalidStrict(reg, env))
    ensures bad == Unusable(reg, values, family, k)
    ensures !bad ==> kept == (if IsSelector(k) then None else Stored(reg, values, env, k))
    ensures !bad ==> drop == Drops(reg, values, family, k)
  {
    hide StrictlyDescending, Below, FamilyName, SelectedVariant, BaseVariant, InvalidStrict;
    bad, kept, drop := false, None, false;
    var knob := reg.knobs[k];
    if !IsSelector(k) && k in values && knob.editable {
      if knob.coerce(values[k]).None? {
        bad := knob.rejectInvalid && Applies(knob, family);
      } else {
        var value := knob.coerce(values[k]).value;
        if !Applies(knob, family) {
          drop := value != knob.default;
        } else if value != below || invalid {
          kept := Some(value);
        }
      }
    }
  }
}
