/** The web form's profile cutover (landing.py: _profile_switch_form_values). */
module ProfileSwitch {
  import opened Options
  import opened Knobs
  import opened Resolution
  import opened Minimization
  import opened RoundTrip
  import opened DiffLaws

  predicate IsIdentity(k: Key) {
    k == MODEL_FAMILY || k == MODEL_VARIANT || k == MODEL_ID
  }

  predicate Switches(values: Values, current: Values) {
    || (MODEL_FAMILY in values && Look(current, MODEL_FAMILY) != Some(values[MODEL_FAMILY]))
    || (MODEL_VARIANT in values && Look(current, MODEL_VARIANT) != Some(values[MODEL_VARIANT]))
  }

  /** On a profile change, keep only the identity fields and the fields the user touched. */
  function Cutover(values: Values, current: Values): Values {
    if Switches(values, current)
    then map k | k in values && (IsIdentity(k) || Look(current, k) != Some(values[k])) :: values[k]
    else values
  }

  /** The form as rendered: every editable knob at its current value. */
  function Rendered(reg: Registry, current: Values): Values {
    map k | k in current && k in reg.knobs && reg.knobs[k].editable :: current[k]
  }

  ghost predicate SameOutcome(a: Result<Config>, b: Result<Config>) {
    (a.Err? && a == b) || SameEffect(a, b)
  }

  /** The untouched form with another variant leaves only identity fields after the cutover. */
  lemma CutoverKeepsIdentity(reg: Registry, current: Values, variant: Value)
    requires WellFormed(reg) && current.Keys == reg.knobs.Keys && variant != current[MODEL_VARIANT]
    ensures var kept := Cutover(Rendered(reg, current)[MODEL_VARIANT := variant], current);
            && Look(kept, MODEL_FAMILY) == Some(current[MODEL_FAMILY])
            && Look(kept, MODEL_VARIANT) == Some(variant)
            && (forall k :: k in kept ==> IsIdentity(k))
  {
  }

  lemma {:induction false} RefusalsAgree(reg: Registry, i: nat, family: Value, a: Values, b: Values, env: Env)
    requires Complete(reg) && i <= |reg.order|
    requires forall k :: k in reg.knobs ==> RefusedIn(reg, family, a, env, k) == RefusedIn(reg, family, b, env, k)
    ensures FirstRefused(reg, i, family, a, env) == FirstRefused(reg, i, family, b, env)
    decreases |reg.order| - i
  {
    if i < |reg.order| {
      RefusalsAgree(reg, i + 1, family, a, b, env);
    }
  }

  lemma SameRefusal(reg: Registry, family: Value, a: Values, b: Values, env: Env, k: Key)
    requires WellFormed(reg) && k in reg.knobs && (!IsSelector(k) ==> Look(a, k) == Look(b, k))
    ensures RefusedIn(reg, family, a, env, k) == RefusedIn(reg, family, b, env, k)
  {
    hide StrictlyDescending, CoherentFamily, Counting, SelectorsServable, Settled, Naming, Complete, Applies;
  }

  lemma SameSetting(reg: Registry, family: Value, variant: Value, a: Values, b: Values, env: Env, k: Key)
    requires Complete(reg) && k in reg.knobs && !IsSelector(k)
    requires forall k :: k in reg.knobs && !IsSelector(k) ==> Look(a, k) == Look(b, k)
    ensures SettingIn(reg, family, variant, a, env, k) == SettingIn(reg, family, variant, b, env, k)
  {
    hide StrictlyDescending, Profiled, Coupled;
  }

  /** Two files that name the same profile and agree on every other knob have the same outcome. */
  lemma SameProfileSameOutcome(reg: Registry, a: Values, b: Values, env: Env)
    requires WellFormed(reg)
    requires FamilyName(reg, a, env) == FamilyName(reg, b, env) && VariantName(reg, a, env) == VariantName(reg, b, env)
    requires FlashSelected(reg, a) == FlashSelected(reg, b)
    requires forall k :: k in reg.knobs && !IsSelector(k) ==> Look(a, k) == Look(b, k)
    ensures SameOutcome(Resolved(reg, a, env), Resolved(reg, b, env))
  {
    hide StrictlyDescending, CoherentFamily, Counting, SelectorsServable, Settled, Naming, Selector, FamilyName, VariantName,
      SettingIn, FlashSelected, FirstRefused, RefusedIn;
    var family, variant := FamilyName(reg, a, env), VariantName(reg, a, env);
    forall k | k in reg.knobs ensures RefusedIn(reg, family, a, env, k) == RefusedIn(reg, family, b, env, k) {
      SameRefusal(reg, family, a, b, env, k);
    }
    RefusalsAgree(reg, 0, family, a, b, env);
    if Resolved(reg, a, env).Ok? {
      SelectorsResolve(reg, a, env);
      SelectorsResolve(reg, b, env);
      forall k | k in reg.knobs && !IsSelector(k)
        ensures SettingIn(reg, family, variant, a, env, k) == SettingIn(reg, family, variant, b, env, k)
      {
        SameSetting(reg, family, variant, a, b, env, k);
      }
      SameValues(reg.knobs.Keys, Resolved(reg, a, env).value, Resolved(reg, b, env).value);
    }
  }

  /** A submission of identity fields alone stores nothing but selectors. */
  lemma IdentityOnlyDiff(reg: Registry, submitted: Values, env: Env)
    requires WellFormed(reg)
    requires forall k :: k in submitted ==> IsIdentity(k)
    requires !AppliesTo(reg, FamilyName(reg, submitted, env), MODEL_ID)
    requires !FlashSelected(reg, env.values) && !FlashSelected(reg, submitted)
    ensures Minimized(reg, submitted, env) == Ok(DiffOf(reg, submitted, env))
    ensures DiffOf(reg, submitted, env).Keys <= {MODEL_FAMILY, MODEL_VARIANT}
  {
    hide StrictlyDescending, CoherentFamily, Counting, SelectorsServable, Settled, BaseVariant, InvalidStrict, Below,
      FamilyName, Selector, SelectedVariant;
    var family := FamilyName(reg, submitted, env);
    forall k | k in reg.knobs ensures !Unusable(reg, submitted, family, k) {
    }
    NothingUnusable(reg, 0, submitted, family);
    var out := DiffOf(reg, submitted, env);
    forall k | k in out ensures k in {MODEL_FAMILY, MODEL_VARIANT} {
      assert Look(out, k) == Stored(reg, submitted, env, k);
    }
  }

  /** Changing nothing but the variant, within a family that does not use MODEL_ID, writes nothing
      but selectors and lands exactly on that family and variant: none of the values the old variant
      displayed is pinned. */
  lemma VariantSwitchLandsOnProfile(reg: Registry, state: Values, env: Env, variant: Value)
    requires WellFormed(reg) && Resolved(reg, state, env).Ok?
    requires reg.knobs[MODEL_VARIANT].coerce(variant) == Some(variant)
    requires var current := Effective(Resolved(reg, state, env).value);
             variant != current[MODEL_VARIANT] && !AppliesTo(reg, current[MODEL_FAMILY], MODEL_ID)
    ensures var current := Effective(Resolved(reg, state, env).value);
            var submitted := Cutover(Rendered(reg, current)[MODEL_VARIANT := variant], current);
            var out := Minimized(reg, submitted, env);
            && out.Ok?
            && out.value.Keys <= {MODEL_FAMILY, MODEL_VARIANT}
            && SameOutcome(Resolved(reg, out.value, env), Resolved(reg, Selectors(current[MODEL_FAMILY], variant), env))
  {
    hide StrictlyDescending, CoherentFamily, Counting, SelectorsServable, Settled, VariantName, ProfiledIn, Coupled,
      FirstRefused, BaseVariant, InvalidStrict, Below, FamilyName, ConfigFor, Cutover, Rendered, Selector, DiffOf, SameOutcome,
      Minimized, Applies;
    var current := Effective(Resolved(reg, state, env).value);
    var family := current[MODEL_FAMILY];
    var submitted := Cutover(Rendered(reg, current)[MODEL_VARIANT := variant], current);
    SelectorsResolve(reg, state, env);
    FamilyNameSettles(reg, state, env);
    VariantServable(reg, variant);
    CutoverKeepsIdentity(reg, current, variant);
    SubmittedFamily(reg, submitted, family, env);
    IdentityOnlyDiff(reg, submitted, env);
    DiffKeepsSelectors(reg, submitted, env);
    SelectorsTake(reg, family, variant, env);
    SelectedFrom(reg, submitted, variant, env);
    BareSelectors(reg, DiffOf(reg, submitted, env), Selectors(family, variant));
    NotWithdrawn(reg, family, variant);
    SameProfileSameOutcome(reg, DiffOf(reg, submitted, env), Selectors(family, variant), env);
  }

  lemma SelectedFrom(reg: Registry, submitted: Values, variant: Value, env: Env)
    requires WellFormed(reg) && Look(submitted, MODEL_VARIANT) == Some(variant)
    requires reg.knobs[MODEL_VARIANT].coerce(variant) == Some(variant)
    ensures SelectedVariant(reg, submitted, FamilyName(reg, submitted, env), env) == variant
  {
    hide FamilyName, BaseVariant;
  }

  lemma BareSelectors(reg: Registry, a: Values, b: Values)
    requires a.Keys <= {MODEL_FAMILY, MODEL_VARIANT} && b.Keys <= {MODEL_FAMILY, MODEL_VARIANT}
    ensures forall k :: !IsSelector(k) ==> Look(a, k) == Look(b, k)
  {
    forall k | !IsSelector(k) ensures k !in a && k !in b {
      assert k !in {MODEL_FAMILY, MODEL_VARIANT};
    }
  }

  lemma NotWithdrawn(reg: Registry, family: Value, variant: Value)
    requires !reg.withdrawn(MODEL_FAMILY, family) && !reg.withdrawn(MODEL_VARIANT, variant)
    ensures !FlashSelected(reg, Selectors(family, variant))
  {
  }

  lemma VariantServable(reg: Registry, variant: Value)
    requires WellFormed(reg) && reg.knobs[MODEL_VARIANT].coerce(variant) == Some(variant)
    ensures !reg.withdrawn(MODEL_VARIANT, variant)
  {
  }

  lemma SubmittedFamily(reg: Registry, submitted: Values, family: Value, env: Env)
    requires WellFormed(reg) && Look(submitted, MODEL_FAMILY) == Some(family)
    requires reg.knobs[MODEL_FAMILY].coerce(family) == Some(family)
    ensures FamilyName(reg, submitted, env) == family
  {
  }
}
