/** A run whose rollbacks never end: a known-good recorded for a family without DCP, in a container whose
    template set DCP, is replayed in one whose template does not. On every registry of the shipped shape. */
module RollbackLoop {
  import opened Options
  import opened Knobs
  import opened Resolution
  import opened Minimization
  import opened RoundTrip
  import opened Transactions
  import opened TransactionRuns
  import opened RollbackRuns
  import opened SampleRegistry
  import DiffLaws

  const RECORDED_IN: Env := Env(map[DCP := Num(2)], 0)
  const REPLAYED_IN: Env := Env(map[], 0)

  /** A second family without DCP, and built-in values of its knobs that the page itself would accept. */
  ghost predicate TwoFamilies(reg: Registry) {
    && WellFormed(reg)
    && QWEN in reg.families && reg.knobs[MODEL_FAMILY].coerce(QWEN) == Some(QWEN)
    && (forall k :: k in reg.knobs && AppliesTo(reg, QWEN, k) ==>
          reg.knobs[k].editable && reg.knobs[k].coerce(reg.knobs[k].default) == Some(reg.knobs[k].default))
    && !AppliesTo(reg, QWEN, DCP) && reg.knobs[DCP].coerce(Num(2)) == Some(Num(2))
    && Preset(reg, QWEN, 0, DCP).value != Num(2)
  }

  lemma QwenIsNotGlm()
    ensures QWEN != GLM && Truthy(QWEN)
  {
    assert |"glm52"| == 5 && |"qwen36"| == 6 && |""| == 0;
  }

  lemma QwenFacts(reg: Registry)
    requires TwoFamilies(reg)
    ensures Complete(reg) && WellFormed(reg) && !AppliesTo(reg, QWEN, DCP) && AppliesTo(reg, QWEN, MTP_TOKENS)
    ensures DCP in reg.knobs && Preset(reg, QWEN, 0, DCP).value != Num(2)
    ensures forall k :: k in reg.knobs ==> Settled(reg.knobs[k])
  {
    hide StrictlyDescending, Settled, Counting, Naming, SelectorsServable, CoherentFamily, Selector, Preset;
  }

  // ------------------------------------------------------------------ what the second family resolves to

  /** Untouched by file and environment, a knob the family has resolves to a value the page would accept. */
  lemma QwenValueSettles(reg: Registry, variant: Value, k: Key)
    requires TwoFamilies(reg) && k in reg.knobs && AppliesTo(reg, QWEN, k) && !IsSelector(k)
    ensures var v := Profiled(reg, QWEN, variant, 0, k, None, None).value;
            reg.knobs[k].editable && reg.knobs[k].coerce(v) == Some(v)
  {
    hide StrictlyDescending, Counting, Naming, SelectorsServable, CoherentFamily, Selector, Complete;
    QwenIsNotGlm();
    assert Settled(reg.knobs[k]);
  }

  lemma QwenSource(reg: Registry, variant: Value, k: Key, fromEnv: Option<Value>)
    requires TwoFamilies(reg) && k in reg.knobs && !IsSelector(k)
    ensures var s := Profiled(reg, QWEN, variant, 0, k, fromEnv, None);
            && s.source != Derived && s.source != Detected
            && (k == DCP ==> s == Setting(Prevailing(reg.knobs[DCP], Preset(reg, QWEN, 0, DCP).value, fromEnv, None), NotApplicable))
  {
    hide StrictlyDescending, Counting, Naming, SelectorsServable, CoherentFamily, Selector, Complete, Settled;
    QwenIsNotGlm();
  }

  lemma Uncoupled(reg: Registry, k: Key, own: Setting)
    requires Complete(reg) && own.source != Derived && own.source != Detected
    ensures forall tp, draft :: Coupled(reg, QWEN, k, own, tp, draft) == own
  {
    hide StrictlyDescending;
    QwenIsNotGlm();
  }

  lemma QwenSetting(reg: Registry, variant: Value, state: Values, env: Env, k: Key)
    requires TwoFamilies(reg) && env.gpus == 0 && env.values.Keys <= {DCP} && state.Keys <= {MODEL_FAMILY, MODEL_VARIANT}
    requires k in reg.knobs && !IsSelector(k)
    ensures var s := SettingIn(reg, QWEN, variant, state, env, k);
            && s.source != Derived
            && (AppliesTo(reg, QWEN, k) ==> reg.knobs[k].editable && reg.knobs[k].coerce(s.value) == Some(s.value))
            && (k == DCP ==> s.value == Prevailing(reg.knobs[DCP], Preset(reg, QWEN, 0, DCP).value, Look(env.values, DCP), None))
  {
    hide StrictlyDescending, Settled, Counting, Naming, SelectorsServable, CoherentFamily, Selector, FollowTp, Profiled, Preset,
      Prevailing, Applies, Coupled;
    QwenFacts(reg);
    assert Look(state, k) == None;
    QwenSource(reg, variant, k, Look(env.values, k));
    Uncoupled(reg, k, ProfiledIn(reg, QWEN, variant, state, env, k));
    if AppliesTo(reg, QWEN, k) {
      assert Look(env.values, k) == None;
      QwenValueSettles(reg, variant, k);
    }
  }

  lemma QwenNamed(reg: Registry, env: Env)
    requires TwoFamilies(reg) && env.values.Keys <= {DCP}
    ensures var state: Values := map[MODEL_FAMILY := QWEN];
            FamilyName(reg, state, env) == QWEN && !FlashSelected(reg, state) && !FlashSelected(reg, env.values)
  {
    hide StrictlyDescending, Settled, Counting, Naming, SelectorsServable, CoherentFamily, Selector, Preset;
    FamilyNameSettles(reg, map[MODEL_FAMILY := QWEN], env);
    assert MODEL_FAMILY !in env.values && MODEL_VARIANT !in env.values;
  }

  lemma SelectorFree(reg: Registry, state: Values, env: Env, other: Env)
    requires Complete(reg) && env.gpus == other.gpus
    requires env.values.Keys !! {MODEL_FAMILY, MODEL_VARIANT} && other.values.Keys !! {MODEL_FAMILY, MODEL_VARIANT}
    ensures VariantName(reg, state, env) == VariantName(reg, state, other)
  {
    hide StrictlyDescending, Layered, Prevailing;
    assert MODEL_FAMILY !in env.values && MODEL_FAMILY !in other.values;
    assert MODEL_VARIANT !in env.values && MODEL_VARIANT !in other.values;
  }

  lemma QwenVariant(reg: Registry, env: Env)
    requires TwoFamilies(reg) && env.values.Keys <= {DCP}
    ensures var v := VariantName(reg, map[MODEL_FAMILY := QWEN], env);
            reg.knobs[MODEL_VARIANT].coerce(v) == Some(v) && !reg.withdrawn(MODEL_VARIANT, v)
  {
    hide FamilyName, StrictlyDescending, Counting, Naming, Settled, SelectorsServable, CoherentFamily, Selector, VariantName, Preset,
      Applies;
    VariantSettles(reg, map[], QWEN, env);
    SelectorFree(reg, map[MODEL_FAMILY := QWEN], env, Baseline(reg, env));
  }

  lemma NoneRefused(reg: Registry, env: Env)
    requires TwoFamilies(reg) && env.values.Keys <= {DCP}
    ensures forall k :: k in reg.knobs ==> !RefusedIn(reg, QWEN, map[MODEL_FAMILY := QWEN], env, k)
  {
    hide StrictlyDescending, Settled, Counting, Naming, SelectorsServable, CoherentFamily, Preset;
  }

  /** A file that selects the family resolves, to values the page would accept, whatever DCP the environment
      carries; the carried DCP stays visible as a leftover. */
  lemma QwenResolves(reg: Registry, env: Env)
    requires TwoFamilies(reg) && env.gpus == 0 && env.values.Keys <= {DCP}
    ensures var r := Resolved(reg, map[MODEL_FAMILY := QWEN], env);
            && r.Ok? && r.value.Keys == reg.knobs.Keys && r.value[MODEL_FAMILY].value == QWEN
            && reg.knobs[MODEL_VARIANT].coerce(r.value[MODEL_VARIANT].value) == Some(r.value[MODEL_VARIANT].value)
            && !reg.withdrawn(MODEL_VARIANT, r.value[MODEL_VARIANT].value)
            && (forall k :: k in reg.knobs && AppliesTo(reg, QWEN, k) && !IsSelector(k) ==>
                  reg.knobs[k].editable && reg.knobs[k].coerce(r.value[k].value) == Some(r.value[k].value))
            && r.value[DCP].value == Prevailing(reg.knobs[DCP], Preset(reg, QWEN, 0, DCP).value, Look(env.values, DCP), None)
  {
    hide StrictlyDescending, Settled, Counting, Naming, SelectorsServable, CoherentFamily, Selector, FollowTp, ConfigFor, SettingIn,
      Refused, VariantName, FamilyName, Preset, Applies, Prevailing;
    var state: Values := map[MODEL_FAMILY := QWEN];
    QwenFacts(reg);
    QwenNamed(reg, env);
    QwenVariant(reg, env);
    NoneRefused(reg, env);
    ResolvesIff(reg, state, env);
    SelectorsResolve(reg, state, env);
    forall k | k in reg.knobs && !IsSelector(k)
      ensures var s := SettingIn(reg, QWEN, VariantName(reg, state, env), state, env, k);
              && (AppliesTo(reg, QWEN, k) ==> reg.knobs[k].editable && reg.knobs[k].coerce(s.value) == Some(s.value))
              && (k == DCP ==> s.value == Prevailing(reg.knobs[DCP], Preset(reg, QWEN, 0, DCP).value, Look(env.values, DCP), None))
    {
      QwenSetting(reg, VariantName(reg, state, env), state, env, k);
    }
  }

  // ------------------------------------------------------------------ the replay

  /** A configuration the page would accept for the family, with a DCP left over from elsewhere. */
  ghost predicate QwenTarget(reg: Registry, target: Values)
    requires Complete(reg)
  {
    && target.Keys == reg.knobs.Keys && target[MODEL_FAMILY] == QWEN && target[DCP] == Num(2)
    && reg.knobs[MODEL_VARIANT].coerce(target[MODEL_VARIANT]) == Some(target[MODEL_VARIANT])
    && !reg.withdrawn(MODEL_VARIANT, target[MODEL_VARIANT])
    && forall k :: k in reg.knobs && AppliesTo(reg, QWEN, k) && !IsSelector(k) ==>
         reg.knobs[k].editable && reg.knobs[k].coerce(target[k]) == Some(target[k])
  }

  ghost function Recorded(reg: Registry): Config
    requires TwoFamilies(reg) && Resolved(reg, map[MODEL_FAMILY := QWEN], RECORDED_IN).Ok?
  {
    Resolved(reg, map[MODEL_FAMILY := QWEN], RECORDED_IN).value
  }

  lemma RecordedTarget(reg: Registry)
    requires TwoFamilies(reg)
    ensures Complete(reg) && Resolved(reg, map[MODEL_FAMILY := QWEN], RECORDED_IN).Ok?
    ensures QwenTarget(reg, Effective(Recorded(reg)))
  {
    hide StrictlyDescending, Settled, Counting, Naming, SelectorsServable, CoherentFamily, Selector, Resolved, Applies, Preset;
    QwenResolves(reg, RECORDED_IN);
    QwenFacts(reg);
  }

  lemma TargetUsable(reg: Registry, target: Values)
    requires TwoFamilies(reg) && Complete(reg) && QwenTarget(reg, target)
    ensures FamilyName(reg, target, REPLAYED_IN) == QWEN && !FlashSelected(reg, target)
    ensures SelectedVariant(reg, target, QWEN, REPLAYED_IN) == target[MODEL_VARIANT]
    ensures forall k :: k in reg.knobs ==> !Unusable(reg, target, QWEN, k)
  {
    hide StrictlyDescending, Settled, Counting, Naming, SelectorsServable, CoherentFamily, Selector, BaseVariant, Preset;
    FamilyNameSettles(reg, target, REPLAYED_IN);
  }

  lemma TargetMinimizes(reg: Registry, target: Values)
    requires TwoFamilies(reg) && Complete(reg) && QwenTarget(reg, target)
    ensures FamilyName(reg, target, REPLAYED_IN) == QWEN
    ensures SelectedVariant(reg, target, QWEN, REPLAYED_IN) == target[MODEL_VARIANT]
    ensures Minimized(reg, target, REPLAYED_IN) == Ok(DiffOf(reg, target, REPLAYED_IN))
    ensures Resolved(reg, DiffOf(reg, target, REPLAYED_IN), REPLAYED_IN).Ok?
  {
    hide StrictlyDescending, Settled, Counting, Naming, SelectorsServable, CoherentFamily, Selector, BaseVariant, Preset, DiffOf,
      Resolved, FamilyName, SelectedVariant, Unusable, QwenTarget, FlashSelected, Complete, TwoFamilies;
    QwenFacts(reg);
    TargetUsable(reg, target);
    QwenNamed(reg, REPLAYED_IN);
    DiffLaws.NothingUnusable(reg, 0, target, QWEN);
    assert InvalidStrict(reg, REPLAYED_IN) == {};
    assert Minimized(reg, target, REPLAYED_IN).Ok?;
    DiffResolvesIff(reg, target, REPLAYED_IN);
  }

  /** Every recorded value of a knob the family has is a usable submission. */
  lemma SubmittedAsRecorded(reg: Registry, target: Values, k: Key)
    requires Complete(reg) && QwenTarget(reg, target) && FamilyName(reg, target, REPLAYED_IN) == QWEN
    requires k in reg.knobs && AppliesTo(reg, QWEN, k) && !IsSelector(k)
    ensures Submitted(reg, target, QWEN, k)
    ensures Clean(reg, target, k) == target[k] == Wanted(reg, target, REPLAYED_IN, k)
  {
    hide StrictlyDescending, FamilyName, SelectedVariant, Beneath, Applies;
  }

  lemma QwenDepth(reg: Registry, target: Values)
    requires TwoFamilies(reg) && FamilyName(reg, target, REPLAYED_IN) == QWEN
    ensures Underlying(reg, target, REPLAYED_IN, MTP_TOKENS).source != Derived
  {
    hide StrictlyDescending, Settled, Counting, Naming, SelectorsServable, CoherentFamily, Selector, FollowTp,
      FamilyName, SelectedVariant, SettingIn, Preset;
    QwenSetting(reg, SelectedVariant(reg, target, QWEN, REPLAYED_IN),
      Selectors(QWEN, SelectedVariant(reg, target, QWEN, REPLAYED_IN)), Baseline(reg, REPLAYED_IN), MTP_TOKENS);
  }

  lemma LeftoverDrops(reg: Registry, target: Values)
    requires TwoFamilies(reg) && FamilyName(reg, target, REPLAYED_IN) == QWEN
    requires Resolved(reg, DiffOf(reg, target, REPLAYED_IN), REPLAYED_IN).Ok?
    ensures DCP in reg.knobs && DCP in Resolved(reg, DiffOf(reg, target, REPLAYED_IN), REPLAYED_IN).value
    ensures Resolved(reg, DiffOf(reg, target, REPLAYED_IN), REPLAYED_IN).value[DCP].value != Num(2)
  {
    hide StrictlyDescending, Settled, Counting, Naming, SelectorsServable, CoherentFamily, Selector, FollowTp, FirstRefused,
      FamilyName, SelectedVariant, FlashSelected, VariantName, Coupled, Profiled, Preset;
    var out := DiffOf(reg, target, REPLAYED_IN);
    DiffKeepsSelectors(reg, target, REPLAYED_IN);
    assert Look(out, DCP) == Stored(reg, target, REPLAYED_IN, DCP);
    QwenSource(reg, VariantName(reg, out, REPLAYED_IN), DCP, None);
    Uncoupled(reg, DCP, ProfiledIn(reg, QWEN, VariantName(reg, out, REPLAYED_IN), out, REPLAYED_IN, DCP));
  }

  lemma RestoredKnobs(reg: Registry, target: Values)
    requires TwoFamilies(reg) && Complete(reg) && QwenTarget(reg, target)
    requires FamilyName(reg, target, REPLAYED_IN) == QWEN
    requires SelectedVariant(reg, target, QWEN, REPLAYED_IN) == target[MODEL_VARIANT]
    requires Minimized(reg, target, REPLAYED_IN) == Ok(DiffOf(reg, target, REPLAYED_IN))
    requires Resolved(reg, DiffOf(reg, target, REPLAYED_IN), REPLAYED_IN).Ok?
    ensures var c := Resolved(reg, DiffOf(reg, target, REPLAYED_IN), REPLAYED_IN).value;
            && c.Keys == reg.knobs.Keys
            && (forall k :: k in reg.knobs && (IsSelector(k) || AppliesTo(reg, QWEN, k)) ==> c[k].value == target[k])
            && c[DCP].value != target[DCP]
  {
    hide StrictlyDescending, Settled, Counting, Naming, SelectorsServable, CoherentFamily, Selector, FollowTp, FirstRefused, ConfigFor,
      FamilyName, FlashSelected, DiffOf, SelectedVariant, InvalidStrict, Underlying, Minimized, Resolved, Applies, DcpFollows,
      Wanted, Submitted, Clean, TwoFamilies, Preset;
    QwenFacts(reg);
    MinimizedResolvesToSubmission(reg, target, REPLAYED_IN);
    QwenIsNotGlm();
    ResolvedKeys(reg, DiffOf(reg, target, REPLAYED_IN), REPLAYED_IN);
    QwenDepth(reg, target);
    LeftoverDrops(reg, target);
    forall k | k in reg.knobs && AppliesTo(reg, QWEN, k) && !IsSelector(k)
      ensures Submitted(reg, target, QWEN, k) && Clean(reg, target, k) == target[k] == Wanted(reg, target, REPLAYED_IN, k)
    {
      SubmittedAsRecorded(reg, target, k);
    }
  }

  lemma ReproducesQwen(reg: Registry, target: Values, c: Config)
    requires MODEL_FAMILY in target && target[MODEL_FAMILY] == QWEN && c.Keys == reg.knobs.Keys && target.Keys == reg.knobs.Keys
    requires forall k :: k in reg.knobs && (IsSelector(k) || AppliesTo(reg, QWEN, k)) ==> c[k].value == target[k]
    ensures Reproduces(reg, target, Effective(c))
  {
    hide Applies;
    QwenIsNotGlm();
  }

  /** The replay reproduces every knob the family has, and drops the leftover. */
  lemma TargetReplays(reg: Registry, target: Values)
    requires TwoFamilies(reg) && Complete(reg) && QwenTarget(reg, target)
    ensures Minimized(reg, target, REPLAYED_IN).Ok?
            && Resolved(reg, Minimized(reg, target, REPLAYED_IN).value, REPLAYED_IN).Ok?
            && var restored := Effective(Resolved(reg, Minimized(reg, target, REPLAYED_IN).value, REPLAYED_IN).value);
               Reproduces(reg, target, restored) && DCP in restored && restored[DCP] != target[DCP]
  {
    hide StrictlyDescending, Settled, Counting, Naming, SelectorsServable, CoherentFamily, Selector, FollowTp, FirstRefused, ConfigFor,
      FamilyName, FlashSelected, Resolved, Minimized, DiffOf, SelectedVariant, InvalidStrict, Reproduces, VariantName, Applies, Preset;
    TargetMinimizes(reg, target);
    RestoredKnobs(reg, target);
    ReproducesQwen(reg, target, Resolved(reg, DiffOf(reg, target, REPLAYED_IN), REPLAYED_IN).value);
  }

  lemma TargetLoops(reg: Registry, h: Host, target: Values)
    requires TwoFamilies(reg) && Complete(reg) && QwenTarget(reg, target)
    requires h.reg == reg && forall e, keys, env :: h.valid(e, keys, env)
    ensures KnownGoodReplay(h, target, REPLAYED_IN).Replayed? && !LeftoversAgree(h, target, REPLAYED_IN)
  {
    hide StrictlyDescending, Settled, Counting, Naming, SelectorsServable, CoherentFamily, Selector, FollowTp,
      Resolved, Minimized, Reproduces, Applies, Preset;
    TargetReplays(reg, target);
    QwenIsNotGlm();
    assert !AppliesTo(reg, QWEN, DCP);
    assert !Comparable(reg, target, DCP);
  }

  // ------------------------------------------------------------------ the run

  /** A first boot in a container whose template sets DCP is marked good; then the container is created anew from
      a template that does not, and the boot fails. */
  function Boots(now: int): seq<Event> {
    [Begin, Good(1, now), SnapshotEnv(REPLAYED_IN, true), Begin, Roll(2, now)]
  }

  /** A volume whose file selects the family, and nothing else. */
  function Volume(now: int): Store {
    Store(Some(StateDoc(map[MODEL_FAMILY := QWEN], now)), None, ApplyState(Steady, now), None, false, RECORDED_IN, 0)
  }

  function AnyHost(reg: Registry): Host {
    Host(reg, (e, keys, env) => true, {})
  }

  /** The files when the second boot fails. */
  ghost function Failing(reg: Registry, now: int): Store
    requires TwoFamilies(reg) && Resolved(reg, map[MODEL_FAMILY := QWEN], RECORDED_IN).Ok?
    requires Resolved(reg, map[MODEL_FAMILY := QWEN], REPLAYED_IN).Ok?
  {
    var file := Volume(now).file;
    Store(file, Some(KnownGood(now, map[MODEL_FAMILY := QWEN], Recorded(reg))), ApplyState(Steady, now),
          Some(Attempt(2, file, Resolved(reg, map[MODEL_FAMILY := QWEN], REPLAYED_IN).value, map[MODEL_FAMILY := QWEN])),
          false, REPLAYED_IN, 2)
  }

  lemma BootsReach(reg: Registry, now: int)
    requires TwoFamilies(reg)
    ensures Complete(reg) && Resolved(reg, map[MODEL_FAMILY := QWEN], RECORDED_IN).Ok?
    ensures Resolved(reg, map[MODEL_FAMILY := QWEN], REPLAYED_IN).Ok?
    ensures StateAt(AnyHost(reg), Volume(now), Boots(now), 4) == Failing(reg, now)
    ensures KeepsEnvironment(AnyHost(reg), Volume(now), Boots(now), 4)
  {
    hide StrictlyDescending, Settled, Counting, Naming, SelectorsServable, CoherentFamily, Selector, Resolved, Preset, Applies,
      Complete;
    QwenResolves(reg, RECORDED_IN);
    QwenResolves(reg, REPLAYED_IN);
    QwenFacts(reg);
    var h, s0, es := AnyHost(reg), Volume(now), Boots(now);
    assert Loaded(h, s0.file) == map[MODEL_FAMILY := QWEN];
    assert StateAt(h, s0, es, 0) == s0;
    var s1 := BeginAttempt(h, s0).0;
    assert StateAt(h, s0, es, 1) == s1;
    var s2 := MarkGood(s1, 1, now).0;
    assert StateAt(h, s0, es, 2) == s2;
    var s3 := s2.(env := REPLAYED_IN, attempt := None, restart := false);
    assert StateAt(h, s0, es, 3) == s3;
    assert StateAt(h, s0, es, 4) == BeginAttempt(h, s3).0;
  }

  lemma FailingRollsBack(reg: Registry, now: int)
    requires TwoFamilies(reg) && Complete(reg) && Resolved(reg, map[MODEL_FAMILY := QWEN], RECORDED_IN).Ok?
    requires Resolved(reg, map[MODEL_FAMILY := QWEN], REPLAYED_IN).Ok?
    ensures Rollback(AnyHost(reg), Failing(reg, now), 2, now).1 == Done
    ensures !LeftoversAgree(AnyHost(reg), TargetOf(Failing(reg, now).good.value), REPLAYED_IN)
  {
    hide StrictlyDescending, Settled, Counting, Naming, SelectorsServable, CoherentFamily, Selector, Resolved, Preset, Applies,
      Complete, KnownGoodReplay, LeftoversAgree;
    var target := Effective(Recorded(reg));
    QwenFacts(reg);
    RecordedTarget(reg);
    TargetLoops(reg, AnyHost(reg), target);
    QwenResolves(reg, REPLAYED_IN);
    var attempted := Effective(Failing(reg, now).attempt.value.config);
    assert DCP in attempted && attempted[DCP] != Num(2);
    assert !SameKnobs(reg, attempted, target);
  }

  /** In this run of the protocol the failed boot is rolled back, and so is every later attempt: an unbounded
      loop the guard was meant to stop. */
  lemma {:induction false} RollbackCanLoop(reg: Registry, now: int, n: nat)
    requires TwoFamilies(reg)
    ensures Complete(reg) && HostWellFormed(AnyHost(reg)) && Starting(Volume(now))
    ensures var h, s0, es := AnyHost(reg), Volume(now), Boots(now);
            && KeepsEnvironment(h, s0, es, 4)
            && Step(h, StateAt(h, s0, es, 4), es[4]).1 == Done
            && Round(h, Rounds(h, StateAt(h, s0, es, 5), now, n), now).1 == Done
  {
    hide StrictlyDescending, Settled, Counting, Naming, SelectorsServable, CoherentFamily, Selector, Resolved, Preset, Applies,
      Complete, Rollback, LeftoversAgree, Round, Rounds, KeepsEnvironment, TwoFamilies;
    QwenFacts(reg);
    BootsReach(reg, now);
    FailingRollsBack(reg, now);
    var h, s0, es := AnyHost(reg), Volume(now), Boots(now);
    EveryRoundRollsBack(h, Failing(reg, now), 2, now, n);
    assert Step(h, StateAt(h, s0, es, 4), es[4]) == Rollback(h, Failing(reg, now), 2, now);
    assert StateAt(h, s0, es, 5) == Rollback(h, Failing(reg, now), 2, now).0;
  }

  // ------------------------------------------------------------------ the sample

  lemma DefaultAccepted(k: Key)
    ensures KnobFor(k).editable && KnobFor(k).coerce(KnobFor(k).default) == Some(KnobFor(k).default)
  {
  }

  lemma SampleDefaults()
    ensures forall k :: k in Sample.knobs ==>
              Sample.knobs[k].editable && Sample.knobs[k].coerce(Sample.knobs[k].default) == Some(Sample.knobs[k].default)
  {
    hide KnobFor;
    forall k | k in Sample.knobs
      ensures Sample.knobs[k].editable && Sample.knobs[k].coerce(Sample.knobs[k].default) == Some(Sample.knobs[k].default)
    {
      SampleKnob(k);
      DefaultAccepted(k);
    }
  }

  lemma SampleFamilyKnob()
    ensures MODEL_FAMILY in Sample.knobs && Sample.knobs[MODEL_FAMILY].coerce(QWEN) == Some(QWEN) && QWEN in Sample.families
  {
    OrderHolds(MODEL_FAMILY);
    SampleKnob(MODEL_FAMILY);
  }

  lemma SampleDcpKnob()
    ensures DCP in Sample.knobs && Sample.knobs[DCP].default == Num(4) && !AppliesTo(Sample, QWEN, DCP)
    ensures Sample.knobs[DCP].coerce(Num(2)) == Some(Num(2))
  {
    QwenIsNotGlm();
    OrderHolds(DCP);
    SampleKnob(DCP);
  }

  lemma SampleDcpPreset()
    requires DCP in Sample.knobs && Sample.knobs[DCP].default == Num(4) && GLM in Sample.families
    ensures Preset(Sample, QWEN, 0, DCP).value == Num(4)
  {
    DistinctVariants();
    assert FamilyOf(Sample, QWEN).defaults == map[TENSOR_PARALLEL_SIZE := Num(1), MTP_TOKENS := Num(0)];
  }

  /** The sample registry, whose second family has presets of its own, is one on which rollbacks loop. */
  lemma SampleHasTwoFamilies()
    ensures TwoFamilies(Sample)
  {
    hide WellFormed, KnobFor, Preset, Complete, Applies;
    SampleIsWellFormed();
    SampleIsComplete();
    SampleDefaults();
    SampleFamilyKnob();
    SampleDcpKnob();
    SampleGlm();
    SampleDcpPreset();
  }

  lemma SampleGlm()
    ensures GLM in Sample.families
  {
  }
}
