/**
What the diff preserves: resolving the minimized values gives back the submitted configuration,
except where one of the two coupling passes makes a value follow another knob.
*/
module RoundTrip {
  import opened Options
  import opened Knobs
  import opened Resolution
  import opened Minimization

  /** The value a submission asks of a knob: its own, or what the layers below give. */
  ghost function Wanted(reg: Registry, values: Values, env: Env, k: Key): Value
    requires Complete(reg) && k in reg.knobs
  {
    var family := FamilyName(reg, values, env);
    if Submitted(reg, values, family, k) then Clean(reg, values, k)
    else Beneath(reg, family, SelectedVariant(reg, values, family, env), env, k).value
  }

  /** The setting a submission would see for a knob if it stored nothing for it. */
  ghost function Underlying(reg: Registry, values: Values, env: Env, k: Key): Setting
    requires Complete(reg) && k in reg.knobs
  {
    var family := FamilyName(reg, values, env);
    Below(reg, family, SelectedVariant(reg, values, family, env), env, k)
  }

  predicate DraftOff(family: Value, draft: Value) {
    family == GLM && draft == OFF
  }

  lemma BaselineLook(reg: Registry, env: Env, k: Key)
    ensures k !in InvalidStrict(reg, env) ==> Look(Baseline(reg, env).values, k) == Look(env.values, k)
    ensures k in InvalidStrict(reg, env) ==> Look(Baseline(reg, env).values, k) == None
  {
  }

  /** The diff selects the family and the variant that the submission selected. */
  lemma DiffKeepsSelectors(reg: Registry, values: Values, env: Env)
    requires WellFormed(reg)
    ensures var out := DiffOf(reg, values, env);
            var family := FamilyName(reg, values, env);
            && FamilyName(reg, out, env) == family
            && VariantName(reg, out, env) == SelectedVariant(reg, values, family, env)
    ensures !FlashSelected(reg, DiffOf(reg, values, env))
  {
    hide Settled, StrictlyDescending, Below, CoherentFamily, Counting;
    var out := DiffOf(reg, values, env);
    var family := FamilyName(reg, values, env);
    FamilyNameSettles(reg, values, env);
    VariantSettles(reg, values, family, env);
    SelectorsStored(reg, values, env);
    BaselineLook(reg, env, MODEL_FAMILY);
    BaselineLook(reg, env, MODEL_VARIANT);
    assert Look(out, MODEL_FAMILY) == Stored(reg, values, env, MODEL_FAMILY);
    assert Look(out, MODEL_VARIANT) == Stored(reg, values, env, MODEL_VARIANT);
  }

  /** The frame: a stored knob takes its stored value, any other is what the lower layers give. */
  lemma KnobAfterDiff(reg: Registry, values: Values, env: Env, k: Key)
    requires WellFormed(reg) && k in reg.knobs && !IsSelector(k)
    ensures var out := DiffOf(reg, values, env);
            var family := FamilyName(reg, values, env);
            var variant := SelectedVariant(reg, values, family, env);
            var s := ProfiledIn(reg, family, variant, out, env, k);
            && (k in out ==> s == Setting(out[k], File) && Submitted(reg, values, family, k) && out[k] == Clean(reg, values, k))
            && (k !in out && k !in InvalidStrict(reg, env) ==> s == Beneath(reg, family, variant, env, k))
  {
    hide StrictlyDescending, Below, FamilyName, SelectedVariant, CoherentFamily, Counting, SelectorsServable, Profiled, DiffOf,
      Stored, InvalidStrict, Submitted, Naming, Selector;
    var out := DiffOf(reg, values, env);
    var family := FamilyName(reg, values, env);
    assert Look(out, k) == Stored(reg, values, env, k);
    BaselineLook(reg, env, k);
    if k in out {
      StoredIsSubmitted(reg, values, env, k);
      assert Settled(reg.knobs[k]);
      assert reg.knobs[k].coerce(values[k]) == Some(out[k]);
      FileWins(reg, family, SelectedVariant(reg, values, family, env), env.gpus, k, Look(env.values, k), out[k]);
    }
  }

  /** Only a submitted, usable value is stored. */
  lemma StoredIsSubmitted(reg: Registry, values: Values, env: Env, k: Key)
    requires Complete(reg) && k in reg.knobs && !IsSelector(k) && Stored(reg, values, env, k).Some?
    ensures k in values && Submitted(reg, values, FamilyName(reg, values, env), k)
    ensures reg.knobs[k].editable && AppliesTo(reg, FamilyName(reg, values, env), k)
    ensures Stored(reg, values, env, k).value == Clean(reg, values, k)
    ensures reg.knobs[k].coerce(values[k]) == Some(Clean(reg, values, k))
  {
    hide StrictlyDescending, Below, FamilyName, SelectedVariant, InvalidStrict;
  }

  /** A usable file value outranks every other layer. */
  lemma FileWins(reg: Registry, family: Value, variant: Value, gpus: nat, k: Key, fromEnv: Option<Value>, v: Value)
    requires Complete(reg) && k in reg.knobs && reg.knobs[k].editable && AppliesTo(reg, family, k)
    requires reg.knobs[k].coerce(v) == Some(v)
    ensures Profiled(reg, family, variant, gpus, k, fromEnv, Some(v)) == Setting(v, File)
  {
    hide Preset, StrictlyDescending;
  }

  /** The diff resolves exactly when the submission repairs every invalid strict environment value
      of its family. */
  lemma DiffResolvesIff(reg: Registry, values: Values, env: Env)
    requires WellFormed(reg) && Minimized(reg, values, env).Ok?
    ensures Resolved(reg, Minimized(reg, values, env).value, env).Ok? <==>
            forall k :: k in InvalidStrict(reg, env) && AppliesTo(reg, FamilyName(reg, values, env), k) ==>
              Submitted(reg, values, FamilyName(reg, values, env), k)
  {
    hide StrictlyDescending, FamilyName, CoherentFamily, Counting, ConfigFor;
    var out := Minimized(reg, values, env).value;
    var family := FamilyName(reg, values, env);
    DiffKeepsSelectors(reg, values, env);
    ResolvesIff(reg, out, env);
    forall k | k in reg.knobs
      ensures RefusedIn(reg, family, out, env, k) <==>
              k in InvalidStrict(reg, env) && AppliesTo(reg, family, k) && !Submitted(reg, values, family, k)
    {
      RefusedAfterDiff(reg, values, env, k);
    }
  }

  lemma RefusedAfterDiff(reg: Registry, values: Values, env: Env, k: Key)
    requires WellFormed(reg) && k in reg.knobs
    ensures var family := FamilyName(reg, values, env);
            RefusedIn(reg, family, DiffOf(reg, values, env), env, k) <==>
            k in InvalidStrict(reg, env) && AppliesTo(reg, family, k) && !Submitted(reg, values, family, k)
  {
    hide StrictlyDescending, FamilyName, CoherentFamily, Counting, ConfigFor, Below, SelectedVariant, SelectorsServable;
    assert Look(DiffOf(reg, values, env), k) == Stored(reg, values, env, k);
    assert Settled(reg.knobs[k]);
  }

  /** Before the coupling passes, the diff gives every knob but the coupled two what was wanted. */
  lemma WantedBeneath(reg: Registry, values: Values, env: Env, k: Key)
    requires WellFormed(reg) && k in reg.knobs && !IsSelector(k) && k != DCP && k != MTP_TOKENS
    requires k in InvalidStrict(reg, env) ==>
               Submitted(reg, values, FamilyName(reg, values, env), k) || !AppliesTo(reg, FamilyName(reg, values, env), k)
    requires AppliesTo(reg, FamilyName(reg, values, env), k)
    ensures var family := FamilyName(reg, values, env);
            ProfiledIn(reg, family, SelectedVariant(reg, values, family, env), DiffOf(reg, values, env), env, k).value
            == Wanted(reg, values, env, k)
  {
    hide StrictlyDescending, FamilyName, SelectedVariant, CoherentFamily, Counting, SelectorsServable, ProfiledIn, Settled;
    KnobAfterDiff(reg, values, env, k);
    assert Look(DiffOf(reg, values, env), k) == Stored(reg, values, env, k);
  }

  /** A DCP equal to the detected one below is not stored, so it goes on following TP. */
  ghost predicate DcpFollows(reg: Registry, values: Values, env: Env)
    requires Complete(reg) && DCP in values && reg.knobs[DCP].coerce(values[DCP]).Some?
  {
    && Underlying(reg, values, env, DCP) == Setting(Clean(reg, values, DCP), Detected)
    && DCP !in InvalidStrict(reg, env)
  }

  /** A depth of zero that the draft below implies is not stored, so it comes back with the draft. */
  ghost predicate DepthImplied(reg: Registry, values: Values, env: Env)
    requires Complete(reg) && MTP_TOKENS in values && reg.knobs[MTP_TOKENS].coerce(values[MTP_TOKENS]).Some?
  {
    && Underlying(reg, values, env, MTP_TOKENS) == Setting(Num(0), Derived)
    && Clean(reg, values, MTP_TOKENS) == Num(0)
    && MTP_TOKENS !in InvalidStrict(reg, env)
  }

  /** Main result. For every submission, environment and GPU count: the minimized file keeps the
      family and the variant and gives every knob of the family what was wanted of it; a submitted
      DCP survives unless it follows a TP that moves it, and a submitted speculation depth survives
      exactly when it does not contradict the draft. */
  lemma MinimizedResolvesToSubmission(reg: Registry, values: Values, env: Env)
    requires WellFormed(reg) && Minimized(reg, values, env).Ok?
    requires Resolved(reg, Minimized(reg, values, env).value, env).Ok?
    ensures var family := FamilyName(reg, values, env);
            var c := Resolved(reg, Minimized(reg, values, env).value, env).value;
            && c[MODEL_FAMILY].value == family
            && c[MODEL_VARIANT].value == SelectedVariant(reg, values, family, env)
            && (forall k :: k in reg.knobs && AppliesTo(reg, family, k) && !IsSelector(k) && k != DCP && k != MTP_TOKENS ==>
                  c[k].value == Wanted(reg, values, env, k))
            && (Submitted(reg, values, family, DCP) ==>
                  (c[DCP].value == Clean(reg, values, DCP) <==>
                   DcpFollows(reg, values, env) ==>
                     Num(FollowTp(reg.dcpLegal, RankCount(Wanted(reg, values, env, TENSOR_PARALLEL_SIZE)))) == Clean(reg, values, DCP)))
            && (Submitted(reg, values, family, MTP_TOKENS) ==>
                  (c[MTP_TOKENS].value == Clean(reg, values, MTP_TOKENS) <==>
                   if DraftOff(family, Wanted(reg, values, env, MTP_DRAFT)) then Clean(reg, values, MTP_TOKENS) == Num(0)
                   else !DepthImplied(reg, values, env)))
  {
    hide StrictlyDescending, FamilyName, SelectedVariant, CoherentFamily, Counting, SelectorsServable, ProfiledIn,
      Settled, Wanted, Selector, FirstRefused, DcpFollows, DepthImplied, Submitted, InvalidStrict;
    var out := DiffOf(reg, values, env);
    var family := FamilyName(reg, values, env);
    var variant := SelectedVariant(reg, values, family, env);
    DiffKeepsSelectors(reg, values, env);
    DiffResolvesIff(reg, values, env);
    SelectorsResolve(reg, out, env);
    forall k | k in reg.knobs && AppliesTo(reg, family, k) && !IsSelector(k) && k != DCP && k != MTP_TOKENS
      ensures SettingIn(reg, family, variant, out, env, k).value == Wanted(reg, values, env, k)
    {
      WantedBeneath(reg, values, env, k);
    }
    if Submitted(reg, values, family, DCP) {
      DcpAfterDiff(reg, values, env);
    }
    if Submitted(reg, values, family, MTP_TOKENS) {
      DepthAfterDiff(reg, values, env);
    }
  }

  /** A submitted knob is left out of the diff exactly when the layers below already give its value. */
  lemma StoredWhenDifferent(reg: Registry, values: Values, env: Env, k: Key)
    requires WellFormed(reg) && k in reg.knobs && !IsSelector(k)
    requires Submitted(reg, values, FamilyName(reg, values, env), k)
    ensures var v := Clean(reg, values, k);
            Look(DiffOf(reg, values, env), k) ==
            if v != Underlying(reg, values, env, k).value || k in InvalidStrict(reg, env) then Some(v) else None
  {
    hide StrictlyDescending, FamilyName, SelectedVariant, CoherentFamily, SelectorsServable, Settled, InvalidStrict, Below;
    assert Look(DiffOf(reg, values, env), k) == Stored(reg, values, env, k);
  }

  lemma DcpAfterDiff(reg: Registry, values: Values, env: Env)
    requires WellFormed(reg) && Minimized(reg, values, env).Ok?
    requires Resolved(reg, Minimized(reg, values, env).value, env).Ok?
    requires Submitted(reg, values, FamilyName(reg, values, env), DCP)
    ensures var family := FamilyName(reg, values, env);
            var variant := SelectedVariant(reg, values, family, env);
            SettingIn(reg, family, variant, DiffOf(reg, values, env), env, DCP).value == Clean(reg, values, DCP) <==>
            (DcpFollows(reg, values, env) ==>
              Num(FollowTp(reg.dcpLegal, RankCount(Wanted(reg, values, env, TENSOR_PARALLEL_SIZE)))) == Clean(reg, values, DCP))
  {
    hide StrictlyDescending, FamilyName, SelectedVariant, CoherentFamily, Counting, SelectorsServable, ProfiledIn,
      Settled, Wanted, Selector, FirstRefused, InvalidStrict, FollowTp;
    DiffResolvesIff(reg, values, env);
    WantedBeneath(reg, values, env, TENSOR_PARALLEL_SIZE);
    KnobAfterDiff(reg, values, env, DCP);
    assert Look(DiffOf(reg, values, env), DCP) == Stored(reg, values, env, DCP);
  }

  lemma DepthAfterDiff(reg: Registry, values: Values, env: Env)
    requires WellFormed(reg) && Minimized(reg, values, env).Ok?
    requires Resolved(reg, Minimized(reg, values, env).value, env).Ok?
    requires Submitted(reg, values, FamilyName(reg, values, env), MTP_TOKENS)
    ensures var family := FamilyName(reg, values, env);
            var variant := SelectedVariant(reg, values, family, env);
            SettingIn(reg, family, variant, DiffOf(reg, values, env), env, MTP_TOKENS).value == Clean(reg, values, MTP_TOKENS) <==>
            if DraftOff(family, Wanted(reg, values, env, MTP_DRAFT)) then Clean(reg, values, MTP_TOKENS) == Num(0)
            else !DepthImplied(reg, values, env)
  {
    hide StrictlyDescending, FamilyName, SelectedVariant, CoherentFamily, SelectorsServable, ProfiledIn,
      Settled, Wanted, Selector, FirstRefused, InvalidStrict, FollowTp, FlashSelected, VariantName, Coupled, Counting,
      Preset, Layered, Laid;
    var family := FamilyName(reg, values, env);
    var variant := SelectedVariant(reg, values, family, env);
    var out := DiffOf(reg, values, env);
    DiffResolvesIff(reg, values, env);
    if family == GLM {
      WantedBeneath(reg, values, env, MTP_DRAFT);
    }
    KnobAfterDiff(reg, values, env, MTP_TOKENS);
    BeneathDepthCounts(reg, family, variant, env);
    StoredWhenDifferent(reg, values, env, MTP_TOKENS);
    CleanDepthCounts(reg, values);
    DepthCases(reg, family, Clean(reg, values, MTP_TOKENS),
      Beneath(reg, family, variant, env, MTP_TOKENS),
      Beneath(reg, family, variant, env, TENSOR_PARALLEL_SIZE).value,
      Beneath(reg, family, variant, env, MTP_DRAFT).value,
      ProfiledIn(reg, family, variant, out, env, MTP_TOKENS),
      ProfiledIn(reg, family, variant, out, env, TENSOR_PARALLEL_SIZE).value,
      ProfiledIn(reg, family, variant, out, env, MTP_DRAFT).value,
      MTP_TOKENS in InvalidStrict(reg, env));
  }

  lemma CleanDepthCounts(reg: Registry, values: Values)
    requires WellFormed(reg) && MTP_TOKENS in values && reg.knobs[MTP_TOKENS].coerce(values[MTP_TOKENS]).Some?
    ensures Clean(reg, values, MTP_TOKENS).Num?
  {
    assert Counting(reg.knobs[MTP_TOKENS]);
  }

  /** The arithmetic of the speculation depth: `own` settles under one draft, `own'` under another. */
  lemma DepthCases(reg: Registry, family: Value, v: Value, own: Setting, tp: Value, draft: Value,
      own': Setting, tp': Value, draft': Value, invalid: bool)
    requires Complete(reg) && v.Num? && own.value.Num? && own.source != Derived
    requires var below := Coupled(reg, family, MTP_TOKENS, own, tp, draft);
             own' == if v != below.value || invalid then Setting(v, File) else own
    ensures var below := Coupled(reg, family, MTP_TOKENS, own, tp, draft);
            Coupled(reg, family, MTP_TOKENS, own', tp', draft').value == v <==>
            if DraftOff(family, draft') then v == Num(0)
            else !(below == Setting(Num(0), Derived) && v == Num(0) && !invalid)
  {
  }

  lemma BeneathDepthCounts(reg: Registry, family: Value, variant: Value, env: Env)
    requires WellFormed(reg)
    ensures Beneath(reg, family, variant, env, MTP_TOKENS).value.Num?
    ensures Beneath(reg, family, variant, env, MTP_TOKENS).source != Derived
  {
    hide StrictlyDescending, FamilyName, CoherentFamily, SelectorsServable, Settled, FollowTp, InvalidStrict;
    assert Counting(reg.knobs[MTP_TOKENS]);
  }
}
