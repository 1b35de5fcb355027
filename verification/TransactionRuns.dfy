/**
Whole runs of the configuration protocol: every interleaving of attempts, completions, rollbacks
and dashboard submissions, from any files a volume may hold.
*/
module TransactionRuns {
  import opened Options
  import opened Knobs
  import opened Resolution
  import opened Minimization
  import opened RoundTrip
  import opened DiffLaws
  import opened ProfileSwitch
  import opened Transactions

  ghost function StateAt(h: Host, s0: Store, es: seq<Event>, i: nat): Store
    requires Complete(h.reg) && i <= |es|
  {
    if i == 0 then s0 else Step(h, StateAt(h, s0, es, i - 1), es[i - 1]).0
  }

  /** A container start with an empty runtime directory. */
  predicate Starting(s: Store) {
    s.attempt == None && !s.restart
  }

  // ------------------------------------------------------------------ lost updates

  /** The i-th event begins an attempt: resolution succeeds and a token is issued. */
  ghost predicate BeginsAt(h: Host, s0: Store, es: seq<Event>, i: nat)
    requires Complete(h.reg) && i < |es|
  {
    es[i] == Begin && Current(h, StateAt(h, s0, es, i)).Ok?
  }

  /** Token t was issued at event j and no attempt was begun from then to event i. */
  ghost predicate LatestBegun(h: Host, s0: Store, es: seq<Event>, i: nat, j: nat, t: nat)
    requires Complete(h.reg) && i <= |es|
  {
    && j < i
    && BeginsAt(h, s0, es, j)
    && StateAt(h, s0, es, j).issued + 1 == t
    && forall m :: j < m < i ==> !BeginsAt(h, s0, es, m)
  }

  /** What the attempt file holds is the latest begun attempt, as it was at its begin. */
  lemma {:induction false} AttemptOrigin(h: Host, s0: Store, es: seq<Event>, i: nat) returns (j: nat)
    requires Complete(h.reg) && Starting(s0) && i <= |es|
    requires StateAt(h, s0, es, i).attempt.Some?
    ensures var a := StateAt(h, s0, es, i).attempt.value;
            && LatestBegun(h, s0, es, i, j, a.token)
            && a.identity == StateAt(h, s0, es, j).file
            && a.values == Loaded(h, StateAt(h, s0, es, j).file)
            && Current(h, StateAt(h, s0, es, j)) == Ok(a.config)
  {
    hide Complete, Resolved, Minimized, KnownGoodReplay, Loaded, SameKnobs, Apply;
    if BeginsAt(h, s0, es, i - 1) {
      j := i - 1;
    } else {
      AttemptKept(h, StateAt(h, s0, es, i - 1), es[i - 1]);
      j := AttemptOrigin(h, s0, es, i - 1);
    }
  }

  /** Only a successful begin puts an attempt in the attempt file. */
  lemma AttemptKept(h: Host, s: Store, e: Event)
    requires Complete(h.reg) && !(e == Begin && Current(h, s).Ok?)
    ensures var s' := Step(h, s, e).0;
            s'.attempt.Some? ==> s'.attempt == s.attempt
  {
    hide Complete, Resolved, Minimized, KnownGoodReplay, Loaded, SameKnobs;
  }

  /** Main result: over every interleaving, a completion that carries a token changes the state
      file, the known-good record or the apply state only when that token is the latest begun and
      the state file holds exactly what it held at that begin. */
  lemma NoLostUpdate(h: Host, s0: Store, es: seq<Event>, i: nat)
    requires Complete(h.reg) && Starting(s0) && i < |es|
    requires es[i].Good? || es[i].Unverified? || es[i].Roll? || es[i].Ask? || es[i].Check?
    requires var s, s' := StateAt(h, s0, es, i), StateAt(h, s0, es, i + 1);
             s'.file != s.file || s'.good != s.good || s'.apply != s.apply
    ensures exists j :: LatestBegun(h, s0, es, i, j, es[i].token) && StateAt(h, s0, es, j).file == StateAt(h, s0, es, i).file
  {
    hide Complete, Resolved, Minimized, KnownGoodReplay, Loaded, SameKnobs, Apply, LatestBegun;
    assert LiveAttempt(StateAt(h, s0, es, i), es[i].token).Some?;
    var j := AttemptOrigin(h, s0, es, i);
  }

  // ------------------------------------------------------------------ sound records

  /** A known-good record written at event k for the attempt begun at event j: its configuration is
      what its values resolved to at j, and both events saw those values in the state file. */
  ghost predicate RecordedAt(h: Host, s0: Store, es: seq<Event>, j: nat, k: nat, good: KnownGood)
    requires Complete(h.reg)
  {
    && j < k < |es|
    && es[k].Good?
    && LatestBegun(h, s0, es, k, j, es[k].token)
    && good.values == Loaded(h, StateAt(h, s0, es, j).file)
    && Resolved(h.reg, good.values, StateAt(h, s0, es, j).env) == Ok(good.config)
    && StateAt(h, s0, es, k).file == StateAt(h, s0, es, j).file
  }

  ghost predicate RecordedBefore(h: Host, s0: Store, es: seq<Event>, i: nat, good: KnownGood)
    requires Complete(h.reg)
  {
    exists j: nat, k: nat :: k < i && RecordedAt(h, s0, es, j, k, good)
  }

  /** In every run, the known-good record is the one the volume started with or a sound one. */
  lemma {:induction false} KnownGoodIsSound(h: Host, s0: Store, es: seq<Event>, i: nat)
    requires Complete(h.reg) && Starting(s0) && i <= |es|
    ensures var good := StateAt(h, s0, es, i).good;
            good == s0.good || (good.Some? && RecordedBefore(h, s0, es, i, good.value))
  {
    hide Complete, Resolved, Minimized, KnownGoodReplay, Loaded, SameKnobs, Step, LatestBegun, RecordedAt, LiveAttempt;
    if i > 0 {
      var s := StateAt(h, s0, es, i - 1);
      var e := es[i - 1];
      if e.Good? && LiveAttempt(s, e.token).Some? {
        RecordedNow(h, s0, es, i - 1);
      } else {
        GoodKept(h, s, e);
        KnownGoodIsSound(h, s0, es, i - 1);
      }
    }
  }

  lemma RecordedNow(h: Host, s0: Store, es: seq<Event>, k: nat)
    requires Complete(h.reg) && Starting(s0) && k < |es|
    requires es[k].Good? && LiveAttempt(StateAt(h, s0, es, k), es[k].token).Some?
    ensures var good := StateAt(h, s0, es, k + 1).good;
            good.Some? && RecordedBefore(h, s0, es, k + 1, good.value)
  {
    hide Complete, Resolved, Minimized, KnownGoodReplay, Loaded, SameKnobs, Apply, LatestBegun;
    var j := AttemptOrigin(h, s0, es, k);
    LatestIsEarlier(h, s0, es, k, j, es[k].token);
    assert RecordedAt(h, s0, es, j, k, StateAt(h, s0, es, k + 1).good.value);
  }

  lemma LatestIsEarlier(h: Host, s0: Store, es: seq<Event>, i: nat, j: nat, t: nat)
    requires Complete(h.reg) && i <= |es| && LatestBegun(h, s0, es, i, j, t)
    ensures j < i
  {
  }

  lemma GoodKept(h: Host, s: Store, e: Event)
    requires Complete(h.reg) && !(e.Good? && LiveAttempt(s, e.token).Some?)
    ensures Step(h, s, e).0.good == s.good
  {
    hide Complete, Resolved, Minimized, KnownGoodReplay, Loaded, SameKnobs;
  }

  /** Nothing selects nothing: the diff of an empty submission is empty. */
  lemma EmptyDiff(reg: Registry, env: Env)
    requires WellFormed(reg) && !FlashSelected(reg, env.values)
    ensures Minimized(reg, map[], env) == Ok(map[])
  {
    hide StrictlyDescending, CoherentFamily, Counting, Settled, SelectorsServable, Below, InvalidStrict, Preset;
    NothingUnusable(reg, 0, map[], FamilyName(reg, map[], env));
    SelectorsStored(reg, map[], env);
    BaselineLook(reg, env, MODEL_FAMILY);
    StrictSelectors(reg, env);
    FamilyNameSettles(reg, map[], env);
    forall k | k in reg.knobs ensures Stored(reg, map[], env, k) == None {
    }
    SameEntries(DiffOf(reg, map[], env), map[], reg.knobs.Keys);
  }

  lemma DiffIsLoadable(h: Host, values: Values, env: Env, now: int)
    requires HostWellFormed(h)
    ensures Loaded(h, Some(StateDoc(DiffOf(h.reg, values, env), now))) == DiffOf(h.reg, values, env)
  {
    hide WellFormed, Stored;
  }

  /** Whatever an accepted submission or a known-good replay leaves on the volume resolves, in that
      environment, to a configuration that validation passed with the keys the file then persists. */
  lemma WrittenStateIsValidated(h: Host, s: Store, e: Event)
    requires HostWellFormed(h)
    requires (e.Submit? || (e.Roll? && s.good.Some?)) && Step(h, s, e).1 == Done
    ensures var s' := Step(h, s, e).0;
            var values := Loaded(h, s'.file);
            && Current(h, s').Ok?
            && h.valid(Effective(Current(h, s').value), values.Keys, s'.env)
  {
    hide Complete, Resolved, SameKnobs, DiffOf, FirstUnusable, Cutover, FlashSelected, FamilyName;
    if e.Roll? {
      DiffIsLoadable(h, Effective(s.good.value.config), s.env, e.now);
    } else {
      var current := Effective(Current(h, s).value);
      DiffIsLoadable(h, SubmittedValues(e.sub, current), s.env, e.now);
      if e.sub.Reset? {
        ResolvesFlash(h.reg, Loaded(h, s.file), s.env);
        EmptyDiff(h.reg, s.env);
      }
    }
  }

  lemma ResolvesFlash(reg: Registry, state: Values, env: Env)
    requires Complete(reg) && Resolved(reg, state, env).Ok?
    ensures !FlashSelected(reg, env.values)
  {
  }
}
