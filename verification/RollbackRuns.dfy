/** Rollback converges, and a page that is out of date cannot overwrite what it did not show. */
module RollbackRuns {
  import opened Options
  import opened Knobs
  import opened Resolution
  import opened Minimization
  import opened RoundTrip
  import opened Transactions
  import opened TransactionRuns

  function TargetOf(good: KnownGood): Values {
    Effective(good.config)
  }

  /** A successful rollback to a known-good leaves a file that resolves to it on every comparable
      knob, with no validation error. */
  lemma RollbackRestoresKnownGood(h: Host, s: Store, token: nat, now: int)
    requires HostWellFormed(h) && s.good.Some? && Rollback(h, s, token, now).1 == Done
    ensures var s' := Rollback(h, s, token, now).0;
            var target := TargetOf(s.good.value);
            && Current(h, s').Ok?
            && Reproduces(h.reg, target, Effective(Current(h, s').value))
            && h.valid(Effective(Current(h, s').value), Loaded(h, s'.file).Keys, s'.env)
            && KnownGoodReplay(h, target, s.env) == Replayed(Loaded(h, s'.file))
  {
    hide Complete, Resolved, SameKnobs, DiffOf, FirstUnusable, FlashSelected, FamilyName, Reproduces;
    DiffIsLoadable(h, TargetOf(s.good.value), s.env, now);
  }

  // ------------------------------------------------------------------ no second rollback

  /** Neither a submission, nor a mark-good, nor another container. */
  predicate Quiet(e: Event) {
    e.Begin? || e.Unverified? || e.Roll? || e.Ask? || e.Check? || e.ClearRestart?
  }

  /** The attempt file was written under the environment still in force. */
  ghost predicate AttemptFresh(h: Host, s: Store)
    requires Complete(h.reg)
  {
    s.attempt.Some? ==>
      var a := s.attempt.value;
      a.values == Loaded(h, a.identity) && Resolved(h.reg, a.values, s.env) == Ok(a.config)
  }

  /** The knobs that replay does not compare, but the rollback guard does, already agree. */
  ghost predicate LeftoversAgree(h: Host, target: Values, env: Env)
    requires Complete(h.reg)
  {
    var r := KnownGoodReplay(h, target, env);
    r.Replayed? ==>
      var restored := Resolved(h.reg, r.values, env);
      restored.Ok? &&
      forall k :: k in h.reg.knobs && !(k in target && Comparable(h.reg, target, k)) ==>
        Look(Effective(restored.value), k) == Look(target, k)
  }

  /** Nothing a later rollback looks at has moved since the rollback that led to s1: the attempt is out of date,
      or was begun since. */
  ghost predicate Unmoved(h: Host, s1: Store, s: Store)
    requires Complete(h.reg)
  {
    && s.file == s1.file && s.good == s1.good && s.env == s1.env
    && ((s.attempt.Some? ==> s.attempt.value.identity != s.file) || AttemptFresh(h, s))
  }

  /** In a state a rollback has led to, a quiet step neither moves anything nor rolls back again. */
  lemma QuietStep(h: Host, s0: Store, token: nat, now: int, s: Store, e: Event)
    requires HostWellFormed(h) && Rollback(h, s0, token, now).1 == Done
    requires s0.good.Some? ==> LeftoversAgree(h, TargetOf(s0.good.value), s0.env)
    requires Unmoved(h, Rollback(h, s0, token, now).0, s) && Quiet(e)
    ensures Unmoved(h, Rollback(h, s0, token, now).0, Step(h, s, e).0)
    ensures e.Roll? ==> Step(h, s, e).1 != Done
  {
    hide Complete, Resolved, Minimized, KnownGoodReplay, WellFormed, SameKnobs, Reproduces, LeftoversAgree;
    if e.Roll? && LiveAttempt(s, e.token).Some? && s0.good.Some? {
      RollbackRestoresKnownGood(h, s0, token, now);
      ReplayedIsSame(h, TargetOf(s0.good.value), s0.env);
    }
  }

  lemma ReplayedIsSame(h: Host, target: Values, env: Env)
    requires HostWellFormed(h) && KnownGoodReplay(h, target, env).Replayed?
    ensures var restored := Resolved(h.reg, KnownGoodReplay(h, target, env).values, env);
            restored.Ok? && (LeftoversAgree(h, target, env) <==> SameKnobs(h.reg, Effective(restored.value), target))
  {
    hide Complete, Resolved, Minimized, Comparable;
  }

  lemma {:induction false} QuietRun(h: Host, s0: Store, token: nat, now: int, es: seq<Event>, i: nat)
    requires HostWellFormed(h) && Rollback(h, s0, token, now).1 == Done
    requires LiveAttempt(Rollback(h, s0, token, now).0, token).None?
    requires s0.good.Some? ==> LeftoversAgree(h, TargetOf(s0.good.value), s0.env)
    requires (forall e :: e in es ==> Quiet(e)) && i <= |es|
    ensures var s1 := Rollback(h, s0, token, now).0;
            Unmoved(h, s1, StateAt(h, s1, es, i))
  {
    hide Complete, Resolved, Minimized, KnownGoodReplay, SameKnobs, Reproduces, LeftoversAgree, Step;
    hide StrictlyDescending, CoherentFamily, Counting, Settled, SelectorsServable, Naming, Selector;
    if i > 0 {
      QuietRun(h, s0, token, now, es, i - 1);
      QuietStep(h, s0, token, now, StateAt(h, Rollback(h, s0, token, now).0, es, i - 1), es[i - 1]);
    }
  }

  ghost predicate RollsBackAgain(h: Host, s1: Store, es: seq<Event>, i: nat)
    requires Complete(h.reg)
  {
    && i < |es|
    && (forall e :: e in es ==> Quiet(e))
    && es[i].Roll?
    && Step(h, StateAt(h, s1, es, i), es[i]).1 == Done
  }

  /** Main result. After any successful rollback, and with no submission, mark-good or new container in between,
      another rollback can succeed exactly when there is a known-good whose leftover knobs, those its family
      does not have, resolve differently today, or when the rollback left the very file its attempt began with. */
  lemma SecondRollbackIff(h: Host, s: Store, token: nat, now: int)
    requires HostWellFormed(h) && Rollback(h, s, token, now).1 == Done
    ensures var s1 := Rollback(h, s, token, now).0;
            (exists es, i :: RollsBackAgain(h, s1, es, i)) <==>
            (s.good.Some? && !LeftoversAgree(h, TargetOf(s.good.value), s.env)) || LiveAttempt(s1, token).Some?
  {
    hide Complete, Resolved, Minimized, KnownGoodReplay, SameKnobs, Reproduces, LeftoversAgree, Step, Rollback, LiveAttempt;
    hide StrictlyDescending, CoherentFamily, Counting, Settled, SelectorsServable, Naming, Selector;
    var s1 := Rollback(h, s, token, now).0;
    if s.good.Some? && !LeftoversAgree(h, TargetOf(s.good.value), s.env) {
      RollsBackForever(h, s, token, now);
    } else if LiveAttempt(s1, token).Some? {
      SameFileAgain(h, s, token, now);
    } else {
      forall es, i | RollsBackAgain(h, s1, es, i) ensures false {
        QuietRun(h, s, token, now, es, i);
        QuietStep(h, s, token, now, StateAt(h, s1, es, i), es[i]);
      }
    }
  }

  /** A token that still completes the attempt after its rollback rolls back once more. */
  lemma SameFileAgain(h: Host, s: Store, token: nat, now: int)
    requires HostWellFormed(h) && Rollback(h, s, token, now).1 == Done
    requires LiveAttempt(Rollback(h, s, token, now).0, token).Some?
    ensures RollsBackAgain(h, Rollback(h, s, token, now).0, [Roll(token, now)], 0)
  {
    hide Complete, Resolved, Minimized, KnownGoodReplay, SameKnobs;
    hide StrictlyDescending, CoherentFamily, Counting, Settled, SelectorsServable, Naming, Selector;
    var s1 := Rollback(h, s, token, now).0;
    assert StateAt(h, s1, [Roll(token, now)], 0) == s1;
  }

  /** An attempt that was begun under today's environment never survives its own rollback. */
  lemma FreshIsRolledAway(h: Host, s: Store, token: nat, now: int)
    requires HostWellFormed(h) && Rollback(h, s, token, now).1 == Done && AttemptFresh(h, s)
    requires s.good.Some? ==> LeftoversAgree(h, TargetOf(s.good.value), s.env)
    ensures LiveAttempt(Rollback(h, s, token, now).0, token).None?
  {
    hide Complete, Resolved, Minimized, KnownGoodReplay, SameKnobs, Reproduces, LeftoversAgree;
    hide StrictlyDescending, CoherentFamily, Counting, Settled, SelectorsServable, Naming, Selector;
    if s.good.Some? {
      RollbackRestoresKnownGood(h, s, token, now);
      ReplayedIsSame(h, TargetOf(s.good.value), s.env);
    }
  }

  /** With leftovers that disagree, beginning an attempt and rolling it back succeeds again. */
  lemma RollsBackForever(h: Host, s: Store, token: nat, now: int)
    requires HostWellFormed(h) && Rollback(h, s, token, now).1 == Done
    requires s.good.Some? && !LeftoversAgree(h, TargetOf(s.good.value), s.env)
    ensures var s1 := Rollback(h, s, token, now).0;
            RollsBackAgain(h, s1, [Begin, Roll(s1.issued + 1, now)], 1)
  {
    hide Complete, Resolved, Minimized, KnownGoodReplay, SameKnobs, Reproduces, LeftoversAgree, Loaded;
    hide StrictlyDescending, CoherentFamily, Counting, Settled, SelectorsServable, Naming, Selector;
    var s1 := Rollback(h, s, token, now).0;
    var es := [Begin, Roll(s1.issued + 1, now)];
    RollbackRestoresKnownGood(h, s, token, now);
    ReplayedIsSame(h, TargetOf(s.good.value), s.env);
    var s2 := Step(h, s1, Begin).0;
    assert StateAt(h, s1, es, 0) == s1;
    assert StateAt(h, s1, es, 1) == s2;
    assert LiveAttempt(s2, s1.issued + 1) == s2.attempt;
    assert Step(h, s2, es[1]).1 == Done;
  }

  // ------------------------------------------------------------------ over runs

  /** No start in the same runtime directory has brought another environment. */
  ghost predicate KeepsEnvironment(h: Host, s0: Store, es: seq<Event>, i: nat)
    requires Complete(h.reg) && i <= |es|
  {
    forall m :: 0 <= m < i && es[m].SnapshotEnv? && !es[m].newDir ==> es[m].env == StateAt(h, s0, es, m).env
  }

  lemma FreshStep(h: Host, s: Store, e: Event)
    requires Complete(h.reg) && AttemptFresh(h, s) && (e.SnapshotEnv? && !e.newDir ==> e.env == s.env)
    ensures AttemptFresh(h, Step(h, s, e).0)
  {
    hide Complete, Resolved, Minimized, KnownGoodReplay, SameKnobs, Reproduces, Loaded, LiveAttempt;
  }

  /** In every run whose starts keep the environment or the directory is new, what the attempt file holds is what
      its values resolve to today. */
  lemma {:induction false} RunKeepsAttemptFresh(h: Host, s0: Store, es: seq<Event>, i: nat)
    requires Complete(h.reg) && Starting(s0) && i <= |es| && KeepsEnvironment(h, s0, es, i)
    ensures AttemptFresh(h, StateAt(h, s0, es, i))
  {
    hide Complete, Step, AttemptFresh;
    if i > 0 {
      RunKeepsAttemptFresh(h, s0, es, i - 1);
      FreshStep(h, StateAt(h, s0, es, i - 1), es[i - 1]);
    } else {
      StartIsFresh(h, s0);
    }
  }

  lemma StartIsFresh(h: Host, s0: Store)
    requires Complete(h.reg) && Starting(s0)
    ensures AttemptFresh(h, s0)
  {
  }

  /** Over runs: in any run whose starts keep the environment unless the directory is new, a rollback never leaves
      the file its attempt began with, so only the leftover knobs can make another one succeed. */
  lemma SecondRollbackOverRuns(h: Host, s0: Store, es: seq<Event>, i: nat)
    requires HostWellFormed(h) && Starting(s0) && i < |es| && KeepsEnvironment(h, s0, es, i)
    requires es[i].Roll? && Step(h, StateAt(h, s0, es, i), es[i]).1 == Done
    ensures var s := StateAt(h, s0, es, i);
            var s1 := StateAt(h, s0, es, i + 1);
            (exists later, n :: RollsBackAgain(h, s1, later, n)) <==>
            s.good.Some? && !LeftoversAgree(h, TargetOf(s.good.value), s.env)
  {
    hide Complete, StrictlyDescending, CoherentFamily, Counting, Settled, SelectorsServable, Naming, Selector, Rollback, RollsBackAgain, LeftoversAgree, AttemptFresh, KeepsEnvironment;
    RunKeepsAttemptFresh(h, s0, es, i);
    var s := StateAt(h, s0, es, i);
    assert StateAt(h, s0, es, i + 1) == Rollback(h, s, es[i].token, es[i].now).0;
    assert Rollback(h, s, es[i].token, es[i].now).1 == Done;
    SecondRollbackIff(h, s, es[i].token, es[i].now);
    if s.good.None? || LeftoversAgree(h, TargetOf(s.good.value), s.env) {
      FreshIsRolledAway(h, s, es[i].token, es[i].now);
    }
  }

  /** Begin an attempt and roll it back. */
  ghost function Round(h: Host, s: Store, now: int): (Store, Code)
    requires Complete(h.reg)
  {
    var begun := BeginAttempt(h, s).0;
    Rollback(h, begun, begun.issued, now)
  }

  ghost function Rounds(h: Host, s: Store, now: int, n: nat): Store
    requires Complete(h.reg)
  {
    if n == 0 then s else Round(h, Rounds(h, s, now, n - 1), now).0
  }

  /** With leftovers that disagree no round ever ends the loop: each of them rolls back. */
  lemma {:induction false} EveryRoundRollsBack(h: Host, s: Store, token: nat, now: int, n: nat)
    requires HostWellFormed(h) && Rollback(h, s, token, now).1 == Done
    requires s.good.Some? && !LeftoversAgree(h, TargetOf(s.good.value), s.env)
    ensures var s1 := Rollback(h, s, token, now).0;
            var looped := Rounds(h, s1, now, n);
            Round(h, looped, now).1 == Done && looped.good == s.good && looped.env == s.env
  {
    hide Complete, StrictlyDescending, CoherentFamily, Counting, Settled, SelectorsServable, Naming, Selector, LeftoversAgree, Rollback;
    var s1 := Rollback(h, s, token, now).0;
    RolledKeeps(h, s, token, now);
    if n == 0 {
      OneRound(h, s, token, now);
    } else {
      EveryRoundRollsBack(h, s, token, now, n - 1);
      var begun := BeginAttempt(h, Rounds(h, s1, now, n - 1)).0;
      BegunKeeps(h, Rounds(h, s1, now, n - 1));
      RolledKeeps(h, begun, begun.issued, now);
      OneRound(h, begun, begun.issued, now);
    }
  }

  lemma BegunKeeps(h: Host, s: Store)
    requires Complete(h.reg)
    ensures BeginAttempt(h, s).0.good == s.good && BeginAttempt(h, s).0.env == s.env
  {
    hide Complete, Resolved;
  }

  lemma RolledKeeps(h: Host, s: Store, token: nat, now: int)
    requires Complete(h.reg)
    ensures Rollback(h, s, token, now).0.good == s.good && Rollback(h, s, token, now).0.env == s.env
  {
    hide Complete, KnownGoodReplay, SameKnobs, LiveAttempt;
  }

  lemma OneRound(h: Host, s: Store, token: nat, now: int)
    requires HostWellFormed(h) && Rollback(h, s, token, now).1 == Done
    requires s.good.Some? && !LeftoversAgree(h, TargetOf(s.good.value), s.env)
    ensures Round(h, Rollback(h, s, token, now).0, now).1 == Done
  {
    hide Complete, StrictlyDescending, CoherentFamily, Counting, Settled, SelectorsServable, Naming, Selector, LeftoversAgree, Rollback;
    var s1 := Rollback(h, s, token, now).0;
    RollsBackForever(h, s, token, now);
    BeginIssues(h, s, token, now);
    var es := [Begin, Roll(s1.issued + 1, now)];
    assert StateAt(h, s1, es, 0) == s1;
    assert StateAt(h, s1, es, 1) == BeginAttempt(h, s1).0;
  }

  lemma BeginIssues(h: Host, s: Store, token: nat, now: int)
    requires HostWellFormed(h) && Rollback(h, s, token, now).1 == Done && s.good.Some?
    ensures BeginAttempt(h, Rollback(h, s, token, now).0).0.issued == Rollback(h, s, token, now).0.issued + 1
  {
    hide Complete, WellFormed, Resolved, Rollback, Reproduces;
    RollbackRestoresKnownGood(h, s, token, now);
  }

  /** A known-good recorded in today's environment from a file that minimize wrote has no leftovers
      to disagree on: within one environment the rollback loop always stops. */
  lemma NoLoopWithinOneEnvironment(h: Host, values: Values, env: Env)
    requires HostWellFormed(h) && Resolved(h.reg, DiffOf(h.reg, values, env), env).Ok?
    ensures LeftoversAgree(h, Effective(Resolved(h.reg, DiffOf(h.reg, values, env), env).value), env)
  {
    hide Complete, Resolved, ConfigFor, Minimized, SameKnobs, KnownGoodReplay, DiffOf;
    hide StrictlyDescending, CoherentFamily, Counting, Settled, SelectorsServable, Naming, Selector;
    var target := Effective(Resolved(h.reg, DiffOf(h.reg, values, env), env).value);
    var r := KnownGoodReplay(h, target, env);
    if r.Replayed? {
      ReplayIsDiff(h, target, env);
      ResolvedKeys(h.reg, DiffOf(h.reg, values, env), env);
      ResolvedKeys(h.reg, r.values, env);
      var restored := Resolved(h.reg, r.values, env).value;
      forall k | k in h.reg.knobs && !(k in target && Comparable(h.reg, target, k))
        ensures Look(Effective(restored), k) == Look(target, k)
      {
        LeftoverKnob(h.reg, values, env, k);
      }
    }
  }

  lemma ReplayIsDiff(h: Host, target: Values, env: Env)
    requires HostWellFormed(h) && KnownGoodReplay(h, target, env).Replayed?
    ensures KnownGoodReplay(h, target, env) == Replayed(DiffOf(h.reg, target, env))
    ensures Minimized(h.reg, target, env).Ok? && Resolved(h.reg, DiffOf(h.reg, target, env), env).Ok?
    ensures Reproduces(h.reg, target, Effective(Resolved(h.reg, DiffOf(h.reg, target, env), env).value))
  {
    hide Complete, Resolved, DiffOf, FirstUnusable, FlashSelected, FamilyName, Reproduces;
  }

  lemma RecordedFamily(reg: Registry, values: Values, env: Env)
    requires WellFormed(reg) && Resolved(reg, DiffOf(reg, values, env), env).Ok?
    ensures var target := Effective(Resolved(reg, DiffOf(reg, values, env), env).value);
            && target.Keys == reg.knobs.Keys
            && {MODEL_FAMILY, MODEL_VARIANT} <= target.Keys
            && TargetFamily(target) == target[MODEL_FAMILY] == FamilyName(reg, values, env)
            && target[MODEL_VARIANT] == SelectedVariant(reg, values, FamilyName(reg, values, env), env)
  {
    hide StrictlyDescending, CoherentFamily, Counting, Settled, SelectorsServable, FamilyName, SelectedVariant;
    DiffKeepsSelectors(reg, values, env);
    SelectorsResolve(reg, DiffOf(reg, values, env), env);
    FamilyNameSettles(reg, values, env);
    assert Naming(reg.knobs[MODEL_FAMILY]);
  }

  /** A knob the family does not have is in no diff, so it resolves the same from both files. */
  lemma LeftoverKnob(reg: Registry, values: Values, env: Env, k: Key)
    requires WellFormed(reg) && Resolved(reg, DiffOf(reg, values, env), env).Ok? && k in reg.knobs
    requires var target := Effective(Resolved(reg, DiffOf(reg, values, env), env).value);
             var restored := Resolved(reg, DiffOf(reg, target, env), env);
             && restored.Ok? && Reproduces(reg, target, Effective(restored.value))
             && !(k in target && Comparable(reg, target, k))
    ensures var recorded := Resolved(reg, DiffOf(reg, values, env), env).value;
            var restored := Resolved(reg, DiffOf(reg, Effective(recorded), env), env).value;
            k in restored && k in recorded && restored[k] == recorded[k]
  {
    hide StrictlyDescending, CoherentFamily, Counting, Settled, SelectorsServable, FamilyName, SelectedVariant, Reproduces,
      Selector, DiffOf, Naming, Resolved, Complete;
    var target := Effective(Resolved(reg, DiffOf(reg, values, env), env).value);
    RecordedFamily(reg, values, env);
    ResolvedKeys(reg, DiffOf(reg, target, env), env);
    SameSelectors(reg, target, env);
    InapplicableInBoth(reg, values, target, env, k);
  }

  /** Two diffs that resolve to one profile agree on every knob its family does not have. */
  lemma InapplicableInBoth(reg: Registry, a: Values, b: Values, env: Env, k: Key)
    requires WellFormed(reg) && k in reg.knobs && !IsSelector(k)
    requires Resolved(reg, DiffOf(reg, a, env), env).Ok? && Resolved(reg, DiffOf(reg, b, env), env).Ok?
    requires var ca, cb := Resolved(reg, DiffOf(reg, a, env), env).value, Resolved(reg, DiffOf(reg, b, env), env).value;
             && ca[MODEL_FAMILY].value == cb[MODEL_FAMILY].value && ca[MODEL_VARIANT].value == cb[MODEL_VARIANT].value
             && !AppliesTo(reg, ca[MODEL_FAMILY].value, k)
    ensures Resolved(reg, DiffOf(reg, a, env), env).value[k] == Resolved(reg, DiffOf(reg, b, env), env).value[k]
  {
    hide StrictlyDescending, CoherentFamily, Counting, Settled, SelectorsServable, FamilyName, SelectedVariant, FirstRefused,
      FlashSelected, VariantName, SettingIn, Selector, DiffOf, Naming, Applies;
    SelectorsResolve(reg, DiffOf(reg, a, env), env);
    SelectorsResolve(reg, DiffOf(reg, b, env), env);
    DiffKeepsSelectors(reg, a, env);
    DiffKeepsSelectors(reg, b, env);
    InapplicableSetting(reg, a, b, FamilyName(reg, a, env), VariantName(reg, DiffOf(reg, a, env), env), env, k);
  }

  lemma SameSelectors(reg: Registry, target: Values, env: Env)
    requires WellFormed(reg) && {MODEL_FAMILY, MODEL_VARIANT} <= target.Keys
    requires var restored := Resolved(reg, DiffOf(reg, target, env), env);
             restored.Ok? && Reproduces(reg, target, Effective(restored.value))
    ensures var restored := Resolved(reg, DiffOf(reg, target, env), env).value;
            && restored[MODEL_FAMILY].value == target[MODEL_FAMILY]
            && restored[MODEL_VARIANT].value == target[MODEL_VARIANT]
  {
    hide StrictlyDescending, CoherentFamily, Counting, Settled, SelectorsServable, FamilyName, SelectedVariant, FirstRefused,
      Naming, FlashSelected, VariantName, ConfigFor, DiffOf, Selector, Applies;
    var restored := Effective(Resolved(reg, DiffOf(reg, target, env), env).value);
    assert Look(restored, MODEL_FAMILY) == Some(target[MODEL_FAMILY]);
    assert Look(restored, MODEL_VARIANT) == Some(target[MODEL_VARIANT]);
  }

  lemma InapplicableSetting(reg: Registry, a: Values, b: Values, family: Value, variant: Value, env: Env, k: Key)
    requires WellFormed(reg) && k in reg.knobs && !IsSelector(k) && !AppliesTo(reg, family, k)
    requires FamilyName(reg, a, env) == family && FamilyName(reg, b, env) == family
    ensures SettingIn(reg, family, variant, DiffOf(reg, a, env), env, k) == SettingIn(reg, family, variant, DiffOf(reg, b, env), env, k)
  {
    hide StrictlyDescending, CoherentFamily, Counting, Settled, SelectorsServable, FamilyName, SelectedVariant, Naming, Profiled,
      DiffOf, Coupled, Stored;
    assert Look(DiffOf(reg, a, env), k) == Stored(reg, a, env, k);
    assert Look(DiffOf(reg, b, env), k) == Stored(reg, b, env, k);
    InapplicableNotStored(reg, a, env, k);
    InapplicableNotStored(reg, b, env, k);
    InapplicableSource(reg, family, variant, env.gpus, k, Look(env.values, k));
    InapplicableUncoupled(reg, family, k, Profiled(reg, family, variant, env.gpus, k, Look(env.values, k), None));
  }

  lemma InapplicableNotStored(reg: Registry, values: Values, env: Env, k: Key)
    requires Complete(reg) && k in reg.knobs && !IsSelector(k) && !AppliesTo(reg, FamilyName(reg, values, env), k)
    ensures Stored(reg, values, env, k) == None
  {
    hide StrictlyDescending, FamilyName, SelectedVariant, Below, InvalidStrict;
  }

  lemma InapplicableSource(reg: Registry, family: Value, variant: Value, gpus: nat, k: Key, fromEnv: Option<Value>)
    requires Complete(reg) && k in reg.knobs && !AppliesTo(reg, family, k)
    ensures Profiled(reg, family, variant, gpus, k, fromEnv, None).source == NotApplicable
  {
    hide StrictlyDescending, Preset;
  }

  lemma InapplicableUncoupled(reg: Registry, family: Value, k: Key, own: Setting)
    requires WellFormed(reg) && k in reg.knobs && !AppliesTo(reg, family, k) && own.source == NotApplicable
    ensures forall tp, draft :: Coupled(reg, family, k, own, tp, draft) == own
  {
    hide StrictlyDescending, CoherentFamily, Counting, Settled, SelectorsServable, Naming, Selector;
  }

  // ------------------------------------------------------------------ the condition, before the call

  /** What today's layers below the file give a knob. */
  function Unfiled(reg: Registry, family: Value, env: Env, k: Key): Value
    requires k in reg.knobs && GLM in reg.families
  {
    Layered(reg, family, env.gpus, k, Look(env.values, k), None).value
  }

  lemma InapplicableValue(reg: Registry, family: Value, variant: Value, gpus: nat, k: Key, fromEnv: Option<Value>)
    requires Complete(reg) && k in reg.knobs && !AppliesTo(reg, family, k)
    ensures Profiled(reg, family, variant, gpus, k, fromEnv, None) ==
            Setting(Layered(reg, family, gpus, k, fromEnv, None).value, NotApplicable) ||
            (k == MTP_DRAFT && family == GLM)
  {
    hide StrictlyDescending, Preset;
  }

  /** A replay gives every knob the family lacks what today's lower layers give it. */
  lemma LeftoverValue(reg: Registry, target: Values, env: Env, k: Key)
    requires WellFormed(reg) && k in reg.knobs && !IsSelector(k) && {MODEL_FAMILY, MODEL_VARIANT} <= target.Keys
    requires var restored := Resolved(reg, DiffOf(reg, target, env), env);
             restored.Ok? && Reproduces(reg, target, Effective(restored.value))
    requires !AppliesTo(reg, TargetFamily(target), k)
    ensures var restored := Resolved(reg, DiffOf(reg, target, env), env).value;
            k in restored && restored[k].value == Unfiled(reg, TargetFamily(target), env, k)
  {
    hide StrictlyDescending, CoherentFamily, Counting, Settled, SelectorsServable, FamilyName, SelectedVariant, Naming, Profiled,
      DiffOf, Coupled, Stored, Reproduces, FirstRefused, FlashSelected, VariantName, Applies, Selector, Layered;
    var out := DiffOf(reg, target, env);
    var family, variant := FamilyName(reg, out, env), VariantName(reg, out, env);
    SameSelectors(reg, target, env);
    SelectorsResolve(reg, out, env);
    ResolvedKeys(reg, out, env);
    DiffKeepsSelectors(reg, target, env);
    RestoredFamily(reg, target, out, env);
    assert Look(out, k) == Stored(reg, target, env, k);
    InapplicableNotStored(reg, target, env, k);
    GlmDrafts(reg);
    InapplicableValue(reg, family, variant, env.gpus, k, Look(env.values, k));
    assert Look(out, k) == None && !AppliesTo(reg, family, k);
    assert ProfiledIn(reg, family, variant, out, env, k) == Setting(Unfiled(reg, family, env, k), NotApplicable);
    InapplicableUncoupled(reg, family, k, Profiled(reg, family, variant, env.gpus, k, Look(env.values, k), None));
  }

  lemma GlmDrafts(reg: Registry)
    requires WellFormed(reg)
    ensures AppliesTo(reg, GLM, MTP_DRAFT) && GLM in reg.families
  {
    hide StrictlyDescending, CoherentFamily, Counting, Settled, SelectorsServable, Naming, Selector;
  }

  lemma RestoredFamily(reg: Registry, target: Values, out: Values, env: Env)
    requires WellFormed(reg) && MODEL_FAMILY in target && target[MODEL_FAMILY] == FamilyName(reg, out, env)
    ensures TargetFamily(target) == FamilyName(reg, out, env)
  {
    hide StrictlyDescending, CoherentFamily, Counting, Settled, SelectorsServable, Selector, FamilyName;
    FamilyNameSettles(reg, out, env);
    assert Naming(reg.knobs[MODEL_FAMILY]);
  }

  /** Main result: the leftovers of a record that replays agree exactly when it records every knob, and every knob its
      family lacks has, from today's layers below the file, the value it records. */
  lemma LeftoversAgreeIff(h: Host, target: Values, env: Env)
    requires HostWellFormed(h) && KnownGoodReplay(h, target, env).Replayed?
    ensures LeftoversAgree(h, target, env) <==>
            && h.reg.knobs.Keys <= target.Keys
            && forall k :: k in h.reg.knobs && !Comparable(h.reg, target, k) ==>
                 target[k] == Unfiled(h.reg, TargetFamily(target), env, k)
  {
    hide Complete, Resolved, DiffOf, KnownGoodReplay, Minimized, Reproduces, Unfiled, Applies;
    hide StrictlyDescending, CoherentFamily, Counting, Settled, SelectorsServable, Naming, Selector;
    ReplayIsDiff(h, target, env);
    ResolvedKeys(h.reg, DiffOf(h.reg, target, env), env);
    GlmDrafts(h.reg);
    var restored := Resolved(h.reg, DiffOf(h.reg, target, env), env).value;
    if h.reg.knobs.Keys <= target.Keys {
      forall k | k in h.reg.knobs && !Comparable(h.reg, target, k)
        ensures restored[k].value == Unfiled(h.reg, TargetFamily(target), env, k)
      {
        LeftoverValue(h.reg, target, env, k);
      }
    }
  }

  /** A rollback leaves the very file its attempt began with exactly when that file is what it writes. */
  lemma SameFileIff(h: Host, s: Store, token: nat, now: int)
    requires HostWellFormed(h) && Rollback(h, s, token, now).1 == Done
    ensures LiveAttempt(Rollback(h, s, token, now).0, token).Some? <==>
            s.file == if s.good.None? then None else Some(StateDoc(DiffOf(h.reg, TargetOf(s.good.value), s.env), now))
  {
    hide Complete, Resolved, DiffOf, KnownGoodReplay, SameKnobs;
    hide StrictlyDescending, CoherentFamily, Counting, Settled, SelectorsServable, Naming, Selector;
    if s.good.Some? {
      ReplayIsDiff(h, TargetOf(s.good.value), s.env);
    }
  }

  // ------------------------------------------------------------------ optimistic editing

  ghost predicate Shows(h: Host, s: Store, rendered: Values)
    requires Complete(h.reg)
  {
    Current(h, s).Ok? && Effective(Current(h, s).value) == rendered
  }

  /** A submission is accepted, with or without a change, only over the configuration it was rendered from. */
  lemma AcceptedOverItsRendering(h: Host, s: Store, sub: Submission, now: int)
    requires Complete(h.reg) && (Apply(h, s, sub, now).1 == Done || Apply(h, s, sub, now).1 == Unchanged)
    ensures Shows(h, s, sub.rendered)
  {
    hide Complete, Resolved, Minimized;
  }

  lemma {:induction false} ShownAgain(h: Host, s0: Store, es: seq<Event>, i: nat, j: nat, rendered: Values) returns (m: nat)
    requires Complete(h.reg) && i < j <= |es|
    requires !Shows(h, StateAt(h, s0, es, i), rendered) && Shows(h, StateAt(h, s0, es, j), rendered)
    ensures i <= m < j && !Shows(h, StateAt(h, s0, es, m), rendered) && Shows(h, StateAt(h, s0, es, m + 1), rendered)
  {
    hide Complete, Shows, Step;
    if Shows(h, StateAt(h, s0, es, j - 1), rendered) {
      m := ShownAgain(h, s0, es, i, j - 1, rendered);
    } else {
      m := j - 1;
    }
  }

  /** Of two submissions from one rendering, the second is accepted after the first changed the
      configuration only if some event in between undid that change. */
  lemma SecondSubmissionNeedsUndo(h: Host, s0: Store, es: seq<Event>, i: nat, j: nat)
    requires Complete(h.reg) && i < j < |es| && es[i].Submit? && es[j].Submit?
    requires es[i].sub.rendered == es[j].sub.rendered
    requires !Shows(h, StateAt(h, s0, es, i + 1), es[i].sub.rendered)
    requires var code := Step(h, StateAt(h, s0, es, j), es[j]).1; code == Done || code == Unchanged
    ensures exists m :: i < m < j
              && !Shows(h, StateAt(h, s0, es, m), es[i].sub.rendered)
              && Shows(h, StateAt(h, s0, es, m + 1), es[i].sub.rendered)
  {
    hide Complete, Shows, Apply;
    AcceptedOverItsRendering(h, StateAt(h, s0, es, j), es[j].sub, es[j].now);
    var m := ShownAgain(h, s0, es, i + 1, j, es[i].sub.rendered);
  }
}
