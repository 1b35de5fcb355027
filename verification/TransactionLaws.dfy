/**
What the configuration commands promise, over the files they share: when a submission takes effect and what is
in force afterwards, when a rollback happens, and what each command writes (landing.py: apply_values,
scripts/config_cli.py).
*/
module TransactionLaws {
  import opened Options
  import opened Knobs
  import opened Resolution
  import opened Minimization
  import opened RoundTrip
  import opened Transactions
  import opened TransactionRuns
  import opened Precedence

  // ------------------------------------------------------------------ a diff and what it is the diff of

  lemma {:induction false} FirstUnusableIff(reg: Registry, i: nat, values: Values, family: Value)
    requires Complete(reg) && i <= |reg.order|
    ensures FirstUnusable(reg, i, values, family).None? <==>
            forall j :: i <= j < |reg.order| ==> !Unusable(reg, values, family, reg.order[j])
    decreases |reg.order| - i
  {
    hide StrictlyDescending, Unusable;
    if i < |reg.order| {
      FirstUnusableIff(reg, i + 1, values, family);
    }
  }

  lemma MinimizesIff(reg: Registry, values: Values, env: Env)
    requires Complete(reg)
    ensures Minimized(reg, values, env).Ok? <==>
            && !FlashSelected(reg, env.values) && !FlashSelected(reg, values)
            && forall k :: k in reg.knobs ==> !Unusable(reg, values, FamilyName(reg, values, env), k)
  {
    hide FamilyName, FlashSelected, Unusable, StrictlyDescending, FirstUnusable, DiffOf;
    FirstUnusableIff(reg, 0, values, FamilyName(reg, values, env));
    forall k | k in reg.knobs ensures exists j :: 0 <= j < |reg.order| && reg.order[j] == k {
      assert k in reg.order;
    }
  }

  lemma RefusedParts(reg: Registry, values: Values, env: Env, family: Value, k: Key)
    requires WellFormed(reg) && k in reg.knobs
    ensures RefusedIn(reg, family, values, env, k) <==>
            || Unusable(reg, values, family, k)
            || (k in InvalidStrict(reg, env) && AppliesTo(reg, family, k) && !Submitted(reg, values, family, k))
  {
    hide StrictlyDescending, Settled, CoherentFamily, Counting, SelectorsServable, Naming;
  }

  /** Values minimize to a file that resolves exactly when they would resolve as the file themselves. */
  lemma DiffResolvesLikeWhole(reg: Registry, values: Values, env: Env)
    requires WellFormed(reg)
    ensures Minimized(reg, values, env).Ok? && Resolved(reg, Minimized(reg, values, env).value, env).Ok?
            <==> Resolved(reg, values, env).Ok?
  {
    hide StrictlyDescending, Settled, CoherentFamily, Counting, SelectorsServable, Naming, Selector, FamilyName, FlashSelected,
      Unusable, RefusedIn, Resolved, Minimized, InvalidStrict, Submitted, Applies;
    var family := FamilyName(reg, values, env);
    MinimizesIff(reg, values, env);
    ResolvesIff(reg, values, env);
    if Minimized(reg, values, env).Ok? {
      DiffResolvesIff(reg, values, env);
    }
    forall k | k in reg.knobs
      ensures RefusedIn(reg, family, values, env, k) <==>
              || Unusable(reg, values, family, k)
              || (k in InvalidStrict(reg, env) && AppliesTo(reg, family, k) && !Submitted(reg, values, family, k))
    {
      RefusedParts(reg, values, env, family, k);
    }
    assert forall k :: k in InvalidStrict(reg, env) ==> k in reg.knobs by { StrictKnobs(reg, env); }
  }

  lemma StrictKnobs(reg: Registry, env: Env)
    ensures forall k :: k in InvalidStrict(reg, env) ==> k in reg.knobs
  {
  }

  // ------------------------------------------------------------------ what is in force

  /** The configuration in force: what the file's values resolve to, or nothing's when there is no file or it
      mentions a key that no file may hold. */
  ghost predicate InForce(h: Host, s: Store, c: Config)
    requires Complete(h.reg)
  {
    if s.file.Some? && s.file.value.values.Keys !! h.forbidden then Resolved(h.reg, s.file.value.values, s.env) == Ok(c)
    else Resolved(h.reg, map[], s.env) == Ok(c)
  }

  lemma InForceIsCurrent(h: Host, s: Store, c: Config)
    requires Complete(h.reg)
    ensures InForce(h, s, c) <==> Current(h, s) == Ok(c)
  {
    hide Complete, Resolved;
    if s.file.Some? {
      assert s.file.value.values.Keys !! h.forbidden <==> !Forbids(h, s.file.value.values);
    }
  }

  /** The user changed this field of the form. */
  predicate Touched(values: Values, shown: Config, k: Key)
    requires k in values
  {
    k !in shown || values[k] != shown[k].value
  }

  /** What of a submission is taken. A form that changes the family or the variant leaves behind every field
      the user did not touch, but for those that name the model; any other submission is taken whole. */
  ghost predicate Taking(sub: Submission, shown: Config, kept: Values) {
    match sub
    case Reset(_) => kept == map[]
    case Import(values, _) => kept == values
    case Form(values, _) =>
      if exists k :: k in values && k in {MODEL_FAMILY, MODEL_VARIANT} && Touched(values, shown, k) then
        && (forall k :: k in kept ==> k in values && kept[k] == values[k])
        && (forall k :: k in values ==>
              (k in kept <==> k in {MODEL_FAMILY, MODEL_VARIANT, MODEL_ID} || Touched(values, shown, k)))
      else kept == values
  }

  lemma SubmittedIsTaken(sub: Submission, shown: Config)
    ensures Taking(sub, shown, SubmittedValues(sub, Effective(shown)))
    ensures forall kept :: Taking(sub, shown, kept) ==> kept == SubmittedValues(sub, Effective(shown))
  {
    forall kept | Taking(sub, shown, kept) ensures kept == SubmittedValues(sub, Effective(shown)) {
      if sub.Form? {
        assert kept.Keys == SubmittedValues(sub, Effective(shown)).Keys;
      }
    }
  }

  // ------------------------------------------------------------------ submissions

  predicate Accepted(code: Code) {
    code == Done || code == Unchanged
  }

  /** The page showed the configuration in force, and the submission mentions no key that no file may hold. */
  ghost predicate Fresh(h: Host, sub: Submission, shown: Config) {
    && sub.rendered.Keys == shown.Keys
    && (forall k :: k in shown ==> sub.rendered[k] == shown[k].value)
    && (sub.Reset? || sub.values.Keys !! h.forbidden)
  }

  lemma FreshIff(h: Host, sub: Submission, shown: Config)
    ensures Fresh(h, sub, shown) <==> sub.rendered == Effective(shown) && !Mentions(h, sub)
  {
    if !sub.Reset? {
      assert sub.values.Keys !! h.forbidden <==> !Forbids(h, sub.values);
    }
  }

  /** Main result: a submission is accepted exactly when the page was fresh, what is taken of it resolves, and
      validation passes what the stored diff resolves to. An accepted one is Done exactly when it is a reset or
      that configuration differs from the one in force at some knob; any other code changes nothing. */
  lemma SubmissionOutcome(h: Host, s: Store, sub: Submission, now: int, shown: Config, kept: Values)
    requires HostWellFormed(h) && InForce(h, s, shown) && Taking(sub, shown, kept)
    ensures var out := Apply(h, s, sub, now);
            var stored := DiffOf(h.reg, kept, s.env);
            var next := Resolved(h.reg, stored, s.env);
            && (Accepted(out.1) <==>
                  && Fresh(h, sub, shown) && Resolved(h.reg, kept, s.env).Ok?
                  && next.Ok? && h.valid(Effective(next.value), stored.Keys, s.env))
            && (Accepted(out.1) ==>
                  && next.value.Keys == shown.Keys == h.reg.knobs.Keys
                  && (out.1 == Done <==> sub.Reset? || exists k :: k in shown && shown[k].value != next.value[k].value))
            && (out.1 != Done ==> out.0 == s)
            && (out.1 == Done ==>
                  out.0 == s.(file := if sub.Reset? then None else Some(StateDoc(stored, now)),
                              apply := ApplyState(Trial, now), restart := true))
  {
    hide Complete, Resolved, DiffOf, Minimized, Fresh, InForce, StrictlyDescending, CoherentFamily, Counting, Settled,
      SelectorsServable, Naming, Selector, Forbids, Taking;
    InForceIsCurrent(h, s, shown);
    SubmittedIsTaken(sub, shown);
    FreshIff(h, sub, shown);
    DiffResolvesLikeWhole(h.reg, kept, s.env);
    MinimizedIsDiff(h.reg, kept, s.env);
    if Accepted(Apply(h, s, sub, now).1) {
      ResolvedKeys(h.reg, DiffOf(h.reg, kept, s.env), s.env);
      CurrentKeys(h, s, shown);
      SameKnobsIff(h.reg, shown, Resolved(h.reg, DiffOf(h.reg, kept, s.env), s.env).value);
    }
  }

  lemma MinimizedIsDiff(reg: Registry, values: Values, env: Env)
    requires Complete(reg)
    ensures Minimized(reg, values, env).Ok? ==> Minimized(reg, values, env).value == DiffOf(reg, values, env)
  {
    hide DiffOf, FirstUnusable, FlashSelected, StrictlyDescending;
  }

  lemma CurrentKeys(h: Host, s: Store, c: Config)
    requires Complete(h.reg) && Current(h, s) == Ok(c)
    ensures c.Keys == h.reg.knobs.Keys
  {
    hide Complete, Resolved, Loaded;
    ResolvedKeys(h.reg, Loaded(h, s.file), s.env);
  }

  lemma SameKnobsIff(reg: Registry, a: Config, b: Config)
    requires a.Keys == b.Keys == reg.knobs.Keys
    ensures SameKnobs(reg, Effective(a), Effective(b)) <==> !exists k :: k in a && a[k].value != b[k].value
  {
    if SameKnobs(reg, Effective(a), Effective(b)) {
      forall k | k in a ensures a[k].value == b[k].value {
        assert Look(Effective(a), k) == Look(Effective(b), k);
      }
    }
  }

  /** After an accepted change the configuration in force is what the stored diff resolves to; after a reset, what
      the layers below the file give. */
  lemma SubmissionTakesForce(h: Host, s: Store, sub: Submission, now: int, shown: Config, kept: Values)
    requires HostWellFormed(h) && InForce(h, s, shown) && Taking(sub, shown, kept) && Apply(h, s, sub, now).1 == Done
    ensures var stored := DiffOf(h.reg, kept, s.env);
            && Resolved(h.reg, stored, s.env).Ok?
            && InForce(h, Apply(h, s, sub, now).0, Resolved(h.reg, stored, s.env).value)
  {
    hide Complete, Resolved, DiffOf, Minimized, Fresh, StrictlyDescending, CoherentFamily, Counting, Settled,
      SelectorsServable, Naming, Selector, Forbids, Taking, Apply;
    SubmissionOutcome(h, s, sub, now, shown, kept);
    if sub.Reset? {
      assert kept == map[] by { ResetTakesNothing(sub, shown, kept); }
      EmptyStored(h.reg, s.env);
    } else {
      StoredIsAllowed(h, kept, s.env);
    }
  }

  lemma ResetTakesNothing(sub: Submission, shown: Config, kept: Values)
    requires Taking(sub, shown, kept) && sub.Reset?
    ensures kept == map[]
  {
  }

  lemma EmptyStored(reg: Registry, env: Env)
    requires WellFormed(reg) && Resolved(reg, map[], env).Ok?
    ensures DiffOf(reg, map[], env) == map[]
  {
    hide DiffOf, FirstUnusable, FlashSelected, StrictlyDescending, Settled, CoherentFamily, Counting, SelectorsServable, Naming;
    EmptyDiff(reg, env);
  }

  lemma StoredIsAllowed(h: Host, values: Values, env: Env)
    requires HostWellFormed(h)
    ensures DiffOf(h.reg, values, env).Keys !! h.forbidden
  {
    hide WellFormed, Stored;
  }

  /** What was asked of a knob is in force, but for a DCP that equals the one detected below and follows the
      tensor-parallel size, a depth under a draft that is off, and a depth of 0 that the draft below implied. */
  ghost predicate Honoured(reg: Registry, kept: Values, env: Env, next: Config, k: Key)
    requires Complete(reg) && k in kept && k in reg.knobs && reg.knobs[k].coerce(kept[k]).Some?
    requires {MODEL_FAMILY, MTP_DRAFT, k} <= next.Keys
  {
    var asked := reg.knobs[k].coerce(kept[k]).value;
    if k == DCP && DcpFollows(reg, kept, env) then next[k].source == Detected
    else if k == MTP_TOKENS && Silent(next) then next[k].value == Num(0)
    else if k == MTP_TOKENS && DepthImplied(reg, kept, env) then asked == Num(0) && next[k].value != asked
    else next[k].value == asked
  }

  lemma SelectorsHonoured(reg: Registry, kept: Values, env: Env, k: Key)
    requires WellFormed(reg) && IsSelector(k) && k in kept && reg.knobs[k].coerce(kept[k]).Some?
    ensures k == MODEL_FAMILY ==> FamilyName(reg, kept, env) == reg.knobs[k].coerce(kept[k]).value
    ensures k == MODEL_VARIANT ==> SelectedVariant(reg, kept, FamilyName(reg, kept, env), env) == reg.knobs[k].coerce(kept[k]).value
  {
    hide StrictlyDescending, CoherentFamily, Counting, Settled, SelectorsServable, Naming, Selector, BaseVariant;
  }

  /** A DCP that is not stored because it equals the detected one stays detected. */
  lemma DcpStaysDetected(reg: Registry, kept: Values, env: Env)
    requires WellFormed(reg) && Resolved(reg, DiffOf(reg, kept, env), env).Ok?
    requires DCP in kept && Submitted(reg, kept, FamilyName(reg, kept, env), DCP) && DcpFollows(reg, kept, env)
    ensures DCP in Resolved(reg, DiffOf(reg, kept, env), env).value
    ensures Resolved(reg, DiffOf(reg, kept, env), env).value[DCP].source == Detected
  {
    hide StrictlyDescending, FamilyName, SelectedVariant, CoherentFamily, Counting, SelectorsServable, ProfiledIn,
      Settled, Naming, Selector, FirstRefused, InvalidStrict, FollowTp, DiffOf;
    DiffKeepsSelectors(reg, kept, env);
    StoredWhenDifferent(reg, kept, env, DCP);
    KnobAfterDiff(reg, kept, env, DCP);
  }

  lemma DiffHonours(reg: Registry, kept: Values, env: Env, k: Key)
    requires WellFormed(reg) && Minimized(reg, kept, env).Ok? && Resolved(reg, DiffOf(reg, kept, env), env).Ok?
    requires k in kept && k in reg.knobs && reg.knobs[k].editable && reg.knobs[k].coerce(kept[k]).Some?
    requires Meaningful(reg.knobs[k], FamilyName(reg, kept, env))
    ensures var next := Resolved(reg, DiffOf(reg, kept, env), env).value;
            && next.Keys == reg.knobs.Keys && {MODEL_FAMILY, MTP_DRAFT} <= next.Keys
            && next[MODEL_FAMILY].value == FamilyName(reg, kept, env)
            && Honoured(reg, kept, env, next, k)
  {
    hide Resolved, DiffOf, StrictlyDescending, CoherentFamily, Counting, Settled, Minimized, Silent,
      SelectorsServable, Naming, Selector, FamilyName, SelectedVariant, DcpFollows, DepthImplied, ConfigFor, FirstUnusable, FollowTp, Wanted;
    MinimizedIsDiff(reg, kept, env);
    ResolvedKeys(reg, DiffOf(reg, kept, env), env);
    DiffKeepsSelectors(reg, kept, env);
    SelectorsResolve(reg, DiffOf(reg, kept, env), env);
    WantedIsAsked(reg, kept, env, k);
    if k == MTP_TOKENS {
      DepthHonoured(reg, kept, env);
    } else if IsSelector(k) {
      SelectorsHonoured(reg, kept, env, k);
    } else {
      OthersHonoured(reg, kept, env, k);
    }
  }

  lemma OthersHonoured(reg: Registry, kept: Values, env: Env, k: Key)
    requires WellFormed(reg) && Minimized(reg, kept, env).Ok? && Minimized(reg, kept, env).value == DiffOf(reg, kept, env)
    requires Resolved(reg, DiffOf(reg, kept, env), env).Ok? && k != MTP_TOKENS && !IsSelector(k)
    requires k in kept && k in reg.knobs && reg.knobs[k].coerce(kept[k]).Some?
    requires Submitted(reg, kept, FamilyName(reg, kept, env), k) && AppliesTo(reg, FamilyName(reg, kept, env), k)
    requires Wanted(reg, kept, env, k) == Clean(reg, kept, k) == reg.knobs[k].coerce(kept[k]).value
    requires {MODEL_FAMILY, MTP_DRAFT, k} <= Resolved(reg, DiffOf(reg, kept, env), env).value.Keys
    ensures Honoured(reg, kept, env, Resolved(reg, DiffOf(reg, kept, env), env).value, k)
  {
    hide Resolved, DiffOf, StrictlyDescending, CoherentFamily, Counting, Settled, Minimized, Submitted,
      SelectorsServable, Naming, Selector, FamilyName, SelectedVariant, DcpFollows, DepthImplied, DraftOff, Underlying, InvalidStrict, FollowTp, Wanted;
    MinimizedResolvesToSubmission(reg, kept, env);
    if k == DCP && DcpFollows(reg, kept, env) {
      DcpStaysDetected(reg, kept, env);
    }
  }

  lemma WantedIsAsked(reg: Registry, kept: Values, env: Env, k: Key)
    requires Complete(reg) && k in kept && k in reg.knobs && reg.knobs[k].editable && reg.knobs[k].coerce(kept[k]).Some?
    requires Meaningful(reg.knobs[k], FamilyName(reg, kept, env))
    ensures Submitted(reg, kept, FamilyName(reg, kept, env), k) && AppliesTo(reg, FamilyName(reg, kept, env), k)
    ensures Wanted(reg, kept, env, k) == Clean(reg, kept, k) == reg.knobs[k].coerce(kept[k]).value
  {
    hide StrictlyDescending, FamilyName, SelectedVariant;
  }

  predicate Silent(c: Config)
    requires {MODEL_FAMILY, MTP_DRAFT} <= c.Keys
  {
    c[MODEL_FAMILY].value == GLM && c[MTP_DRAFT].value == OFF
  }

  lemma SilentDepth(reg: Registry, state: Values, env: Env)
    requires WellFormed(reg) && Resolved(reg, state, env).Ok?
    ensures {MODEL_FAMILY, MTP_DRAFT, MTP_TOKENS} <= Resolved(reg, state, env).value.Keys
    ensures Silent(Resolved(reg, state, env).value) ==> Resolved(reg, state, env).value[MTP_TOKENS].value == Num(0)
  {
    hide Resolved, StrictlyDescending, CoherentFamily, Counting, Settled, SelectorsServable, Naming, Selector, Highest, LargestShare;
    HighestLayerWins(reg, state, env, MTP_TOKENS);
  }

  /** Whether the draft that was wanted is off is whether the one in force is. */
  lemma SilentIff(reg: Registry, kept: Values, env: Env)
    requires WellFormed(reg) && Minimized(reg, kept, env).Ok? && Minimized(reg, kept, env).value == DiffOf(reg, kept, env)
    requires Resolved(reg, DiffOf(reg, kept, env), env).Ok?
    requires {MODEL_FAMILY, MTP_DRAFT} <= Resolved(reg, DiffOf(reg, kept, env), env).value.Keys
    ensures Silent(Resolved(reg, DiffOf(reg, kept, env), env).value) <==>
            DraftOff(FamilyName(reg, kept, env), Wanted(reg, kept, env, MTP_DRAFT))
  {
    hide Resolved, DiffOf, StrictlyDescending, CoherentFamily, Counting, Settled, Minimized, Submitted, DepthImplied,
      SelectorsServable, Naming, Selector, FamilyName, SelectedVariant, DcpFollows, Wanted;
    MinimizedResolvesToSubmission(reg, kept, env);
  }

  lemma DepthHonoured(reg: Registry, kept: Values, env: Env)
    requires WellFormed(reg) && Minimized(reg, kept, env).Ok? && Minimized(reg, kept, env).value == DiffOf(reg, kept, env)
    requires Resolved(reg, DiffOf(reg, kept, env), env).Ok?
    requires MTP_TOKENS in kept && reg.knobs[MTP_TOKENS].coerce(kept[MTP_TOKENS]).Some?
    requires Submitted(reg, kept, FamilyName(reg, kept, env), MTP_TOKENS)
    requires {MODEL_FAMILY, MTP_DRAFT, MTP_TOKENS} <= Resolved(reg, DiffOf(reg, kept, env), env).value.Keys
    ensures Honoured(reg, kept, env, Resolved(reg, DiffOf(reg, kept, env), env).value, MTP_TOKENS)
  {
    hide Resolved, DiffOf, StrictlyDescending, CoherentFamily, Counting, Settled, Minimized, Submitted, Underlying, InvalidStrict,
      SelectorsServable, Naming, Selector, FamilyName, SelectedVariant, DcpFollows, Wanted, DraftOff;
    SilentDepth(reg, DiffOf(reg, kept, env), env);
    SilentIff(reg, kept, env);
    if !Silent(Resolved(reg, DiffOf(reg, kept, env), env).value) {
      MinimizedResolvesToSubmission(reg, kept, env);
    }
  }

  /** Main result: after an accepted change, every field that was taken of the submission, that the page may set,
      whose value its knob accepts and that the new family has, is in force with that value. The two exceptions
      are a DCP that follows the tensor-parallel size and a speculation depth that follows the draft. */
  lemma TakenIsInForce(h: Host, s: Store, sub: Submission, now: int, shown: Config, kept: Values, next: Config, k: Key)
    requires HostWellFormed(h) && InForce(h, s, shown) && Taking(sub, shown, kept)
    requires Apply(h, s, sub, now).1 == Done && !sub.Reset? && InForce(h, Apply(h, s, sub, now).0, next)
    requires k in kept && k in h.reg.knobs && h.reg.knobs[k].editable && h.reg.knobs[k].coerce(kept[k]).Some?
    ensures next.Keys == h.reg.knobs.Keys
    ensures Meaningful(h.reg.knobs[k], next[MODEL_FAMILY].value) ==> Honoured(h.reg, kept, s.env, next, k)
  {
    hide Complete, Resolved, DiffOf, Minimized, Fresh, StrictlyDescending, CoherentFamily, Counting, Settled,
      SelectorsServable, Naming, Selector, Forbids, Taking, Apply, Meaningful;
    SubmissionTakesForce(h, s, sub, now, shown, kept);
    SubmissionOutcome(h, s, sub, now, shown, kept);
    DiffResolvesLikeWhole(h.reg, kept, s.env);
    var stored := DiffOf(h.reg, kept, s.env);
    DiffKeepsSelectors(h.reg, kept, s.env);
    SelectorsResolve(h.reg, stored, s.env);
    ResolvedKeys(h.reg, stored, s.env);
    if Meaningful(h.reg.knobs[k], FamilyName(h.reg, kept, s.env)) {
      DiffHonours(h.reg, kept, s.env, k);
    }
  }

  // ------------------------------------------------------------------ rollbacks and completions

  /** The token is the latest begun attempt's, and the state file is as it was at its begin. */
  predicate Completes(s: Store, token: nat) {
    s.attempt.Some? && s.attempt.value.token == token && s.file == s.attempt.value.identity
  }

  function Plain(c: Config): Values {
    map k | k in c :: c[k].value
  }

  /** A selector, or a knob of the family the record names; GLM when it names none. */
  predicate Compared(reg: Registry, target: Config, k: Key)
    requires k in reg.knobs
  {
    var named := MODEL_FAMILY in target && target[MODEL_FAMILY].value !in {Num(0), Flag(false), Text(""), Fraction(0.0)};
    k in {MODEL_FAMILY, MODEL_VARIANT} || Meaningful(reg.knobs[k], if named then target[MODEL_FAMILY].value else Text("glm52"))
  }

  /** A recorded configuration can be had again today: its diff gives back the two selectors and every knob of its
      family, and validation passes it. */
  ghost predicate Restorable(h: Host, target: Config, env: Env)
    requires Complete(h.reg)
  {
    var stored := DiffOf(h.reg, Plain(target), env);
    var next := Resolved(h.reg, stored, env);
    && next.Ok?
    && (forall k :: k in target && k in h.reg.knobs && Compared(h.reg, target, k) ==>
          k in next.value && next.value[k].value == target[k].value)
    && h.valid(Plain(next.value), stored.Keys, env)
  }

  lemma RestorableIff(h: Host, target: Config, env: Env)
    requires HostWellFormed(h) && Resolved(h.reg, Plain(target), env).Ok?
    ensures Restorable(h, target, env) <==> KnownGoodReplay(h, Effective(target), env).Replayed?
    ensures KnownGoodReplay(h, Effective(target), env) == Unreplayable ||
            KnownGoodReplay(h, Effective(target), env) == Replayed(DiffOf(h.reg, Plain(target), env))
  {
    hide Complete, Resolved, DiffOf, Minimized, StrictlyDescending, CoherentFamily, Counting, Settled,
      SelectorsServable, Naming, Selector, Compared, Reproduces;
    DiffResolvesLikeWhole(h.reg, Plain(target), env);
    MinimizedIsDiff(h.reg, Plain(target), env);
    ReproducesIff(h.reg, target, Resolved(h.reg, DiffOf(h.reg, Plain(target), env), env).value);
  }

  lemma ReproducesIff(reg: Registry, target: Config, next: Config)
    ensures Reproduces(reg, Plain(target), Plain(next)) <==>
            forall k :: k in target && k in reg.knobs && Compared(reg, target, k) ==>
              k in next && next[k].value == target[k].value
  {
    forall k ensures Look(Plain(next), k) == if k in next then Some(next[k].value) else None {
    }
  }

  /** The two configurations differ at some knob of the registry. */
  ghost predicate Differ(reg: Registry, a: Config, b: Config) {
    exists k :: k in reg.knobs && ((k in a) != (k in b) || (k in a && k in b && a[k].value != b[k].value))
  }

  lemma DifferIff(reg: Registry, a: Config, b: Config)
    ensures Differ(reg, a, b) <==> !SameKnobs(reg, Effective(a), Effective(b))
  {
    if !Differ(reg, a, b) {
      forall k | k in reg.knobs ensures Look(Effective(a), k) == Look(Effective(b), k) {
      }
    } else {
      var k :| k in reg.knobs && ((k in a) != (k in b) || (k in a && k in b && a[k].value != b[k].value));
      assert Look(Effective(a), k) != Look(Effective(b), k);
    }
  }

  /** Main result: when a rollback happens and what it writes. With a known-good record it writes that record's diff,
      if the record can be had again and differs from what was attempted; without one it drops a file that sets
      something. Every performed rollback asks for a restart, every refused one marks the configuration failed
      and leaves the restart flag as it was. */
  lemma RollbackOutcome(h: Host, s: Store, token: nat, now: int)
    requires HostWellFormed(h)
    ensures var out := Rollback(h, s, token, now);
            && (out.1 == Superseded <==> !Completes(s, token))
            && (out.1 == Raised <==> Completes(s, token) && s.good.Some? && !Resolved(h.reg, Plain(s.good.value.config), s.env).Ok?)
            && (out.1 == Done <==>
                  && Completes(s, token)
                  && if s.good.None? then s.attempt.value.values != map[]
                     else
                       && Resolved(h.reg, Plain(s.good.value.config), s.env).Ok?
                       && Restorable(h, s.good.value.config, s.env)
                       && Differ(h.reg, s.attempt.value.config, s.good.value.config))
            && out.1 in {Superseded, Raised, Done, NothingToDo}
            && (out.1 == Done ==>
                  var file := if s.good.None? then None else Some(StateDoc(DiffOf(h.reg, Plain(s.good.value.config), s.env), now));
                  out.0 == s.(file := file, apply := ApplyState(RolledBack, now), restart := true))
            && (out.1 == NothingToDo ==> out.0 == s.(apply := ApplyState(Failed, now)))
            && (out.1 in {Superseded, Raised} ==> out.0 == s)
  {
    hide Complete, Resolved, DiffOf, Minimized, StrictlyDescending, CoherentFamily, Counting, Settled,
      SelectorsServable, Naming, Selector, KnownGoodReplay, SameKnobs, Restorable, Differ;
    if Completes(s, token) && s.good.Some? {
      DifferIff(h.reg, s.attempt.value.config, s.good.value.config);
      ReplayRaisedIff(h, s.good.value.config, s.env);
      if Resolved(h.reg, Plain(s.good.value.config), s.env).Ok? {
        RestorableIff(h, s.good.value.config, s.env);
      }
    }
  }

  lemma ReplayRaisedIff(h: Host, target: Config, env: Env)
    requires HostWellFormed(h)
    ensures KnownGoodReplay(h, Effective(target), env).ReplayRaised? <==> !Resolved(h.reg, Plain(target), env).Ok?
  {
    hide Complete, Resolved, DiffOf, Minimized, StrictlyDescending, CoherentFamily, Counting, Settled,
      SelectorsServable, Naming, Selector, Reproduces;
    DiffResolvesLikeWhole(h.reg, Plain(target), env);
  }

  /** The other commands of PID 1: a begin records the configuration in force under a new token, a completion of the
      live attempt makes it the known-good or marks it unverified, and any other changes nothing. */
  lemma CompletionOutcome(h: Host, s: Store, token: nat, now: int)
    requires Complete(h.reg)
    ensures var out := BeginAttempt(h, s);
            && (out.1 == Done <==> exists c :: InForce(h, s, c))
            && (out.1 == Done ==>
                  && out.0.attempt.Some? && out.0.attempt.value.token == out.0.issued == s.issued + 1
                  && out.0.attempt.value.identity == s.file
                  && InForce(h, s, out.0.attempt.value.config)
                  && out.0 == s.(attempt := out.0.attempt, issued := out.0.issued))
            && (out.1 != Done ==> out == (s, Raised))
    ensures var out := MarkGood(s, token, now);
            if Completes(s, token)
            then out.1 == Done && out.0 == s.(good := Some(KnownGood(now, s.attempt.value.values, s.attempt.value.config)),
                                              apply := ApplyState(Steady, now))
            else out == (s, Superseded)
    ensures var out := MarkUnverified(s, token, now);
            if Completes(s, token) then out == (s.(apply := ApplyState(Degraded, now)), Done) else out == (s, Superseded)
    ensures var code := Validate(h, s, token);
            if !Completes(s, token) then code == Superseded
            else code == Done <==> h.valid(Plain(s.attempt.value.config), s.attempt.value.values.Keys, s.env)
  {
    hide Complete, Resolved, InForce, Loaded;
    forall c ensures InForce(h, s, c) <==> Current(h, s) == Ok(c) {
      InForceIsCurrent(h, s, c);
    }
  }

  /** What happens outside the commands: clearing the restart flag touches nothing else; a container start takes the new
      environment, and with a new runtime directory forgets the attempt and the restart flag. */
  lemma ContainerOutcome(h: Host, s: Store, env: Env, newDir: bool)
    requires Complete(h.reg)
    ensures var s' := Step(h, s, ClearRestart).0;
            !s'.restart && s'.file == s.file && s'.good == s.good && s'.apply == s.apply && s'.attempt == s.attempt && s'.env == s.env
    ensures var s' := Step(h, s, SnapshotEnv(env, newDir)).0;
            && s'.env == env && s'.file == s.file && s'.good == s.good && s'.apply == s.apply && s'.issued == s.issued
            && s'.attempt == (if newDir then None else s.attempt) && (s'.restart <==> s.restart && !newDir)
  {
    hide Complete;
  }
}
