/**
The configuration transactions that run on top of the resolver: PID 1 begins an attempt, then marks
it good, marks it unverified or rolls it back (scripts/config_cli.py), while the dashboard applies,
imports and resets (landing.py: apply_values). Every command holds one lock for its whole
read-validate-write, so each is one step.
*/
module Transactions {
  import opened Options
  import opened Knobs
  import opened Resolution
  import opened Minimization
  import opened ProfileSwitch

  /** What a step needs to know about the program: the registry, the validation matrix as a verdict
      over (effective, persisted keys, environment), and the keys a state file may never hold. */
  datatype Host = Host(reg: Registry, valid: (Values, set<Key>, Env) -> bool, forbidden: set<Key>)

  datatype StateDoc = StateDoc(values: Values, writtenAt: int)

  datatype Attempt = Attempt(token: nat, identity: Option<StateDoc>, config: Config, values: Values)

  datatype KnownGood = KnownGood(ts: int, values: Values, config: Config)

  datatype Mode = Steady | Trial | Degraded | RolledBack | Failed

  datatype ApplyState = ApplyState(mode: Mode, since: int)

  /** The files the commands share. `issued` counts the tokens handed out: tokens are random and
      never repeat, so the model numbers them. Equal content stands for equal SHA-256. */
  datatype Store = Store(
    file: Option<StateDoc>,
    good: Option<KnownGood>,
    apply: ApplyState,
    attempt: Option<Attempt>,
    restart: bool,
    env: Env,
    issued: nat)

  datatype Code = Done | NothingToDo | Superseded | Invalid | Rejected | Unchanged | Raised

  ghost predicate HostWellFormed(h: Host) {
    WellFormed(h.reg) && h.reg.knobs.Keys !! h.forbidden
  }

  // ------------------------------------------------------------------ reading

  predicate Forbids(h: Host, values: Values) {
    exists k :: k in values && k in h.forbidden
  }

  /** A state file that mentions a startup-only switch is ignored as a whole. */
  function Loaded(h: Host, file: Option<StateDoc>): Values {
    if file.Some? && !Forbids(h, file.value.values) then file.value.values else map[]
  }

  ghost function Current(h: Host, s: Store): Result<Config>
    requires Complete(h.reg)
  {
    Resolved(h.reg, Loaded(h, s.file), s.env)
  }

  /** The attempt a token still completes: the latest begun, over the same file content. */
  function LiveAttempt(s: Store, token: nat): Option<Attempt> {
    if s.attempt.Some? && s.attempt.value.token == token && s.attempt.value.identity == s.file
    then s.attempt else None
  }

  /** `diff` is empty: equal on every knob of the registry. */
  predicate SameKnobs(reg: Registry, a: Values, b: Values) {
    forall k :: k in reg.knobs ==> Look(a, k) == Look(b, k)
  }

  // ------------------------------------------------------------------ PID 1

  ghost function BeginAttempt(h: Host, s: Store): (Store, Code)
    requires Complete(h.reg)
  {
    var c := Current(h, s);
    if c.Err? then (s, Raised)
    else (s.(attempt := Some(Attempt(s.issued + 1, s.file, c.value, Loaded(h, s.file))), issued := s.issued + 1), Done)
  }

  function MarkGood(s: Store, token: nat, now: int): (Store, Code) {
    var a := LiveAttempt(s, token);
    if a.None? then (s, Superseded)
    else (s.(good := Some(KnownGood(now, a.value.values, a.value.config)), apply := ApplyState(Steady, now)), Done)
  }

  function MarkUnverified(s: Store, token: nat, now: int): (Store, Code) {
    if LiveAttempt(s, token).None? then (s, Superseded)
    else (s.(apply := ApplyState(Degraded, now)), Done)
  }

  function Validate(h: Host, s: Store, token: nat): Code {
    var a := LiveAttempt(s, token);
    if a.None? then Superseded
    else if h.valid(Effective(a.value.config), a.value.values.Keys, s.env) then Done
    else Invalid
  }

  datatype Replay = Replayed(values: Values) | Unreplayable | ReplayRaised

  function TargetFamily(target: Values): Value {
    if MODEL_FAMILY in target && Truthy(target[MODEL_FAMILY]) then target[MODEL_FAMILY] else GLM
  }

  /** The knobs a replay must reproduce: the selectors and whatever the target's family has. */
  predicate Comparable(reg: Registry, target: Values, k: Key)
    requires k in reg.knobs
  {
    IsSelector(k) || AppliesTo(reg, TargetFamily(target), k)
  }

  predicate Reproduces(reg: Registry, target: Values, restored: Values) {
    forall k :: k in reg.knobs && k in target && Comparable(reg, target, k) ==> Look(restored, k) == Some(target[k])
  }

  /** State values that reproduce a recorded configuration under today's environment. */
  ghost function KnownGoodReplay(h: Host, target: Values, env: Env): Replay
    requires Complete(h.reg)
  {
    var m := Minimized(h.reg, target, env);
    if m.Err? then ReplayRaised
    else
      var restored := Resolved(h.reg, m.value, env);
      if restored.Err? then ReplayRaised
      else if !Reproduces(h.reg, target, Effective(restored.value)) then Unreplayable
      else if !h.valid(Effective(restored.value), m.value.Keys, env) then Unreplayable
      else Replayed(m.value)
  }

  ghost function Rollback(h: Host, s: Store, token: nat, now: int): (Store, Code)
    requires Complete(h.reg)
  {
    var a := LiveAttempt(s, token);
    var failed := s.(apply := ApplyState(Failed, now));
    if a.None? then (s, Superseded)
    else if s.good.None? then
      if a.value.values != map[] then (s.(file := None, apply := ApplyState(RolledBack, now), restart := true), Done)
      else (failed, NothingToDo)
    else
      var target := Effective(s.good.value.config);
      match KnownGoodReplay(h, target, s.env)
      case ReplayRaised => (s, Raised)
      case Unreplayable => (failed, NothingToDo)
      case Replayed(values) =>
        if SameKnobs(h.reg, Effective(a.value.config), target) then (failed, NothingToDo)
        else (s.(file := Some(StateDoc(values, now)), apply := ApplyState(RolledBack, now), restart := true), Done)
  }

  ghost function ShouldRollback(h: Host, s: Store, token: nat): Code
    requires Complete(h.reg)
  {
    var a := LiveAttempt(s, token);
    if a.None? then Superseded
    else if s.good.None? then (if a.value.values != map[] then Done else NothingToDo)
    else
      var target := Effective(s.good.value.config);
      match KnownGoodReplay(h, target, s.env)
      case ReplayRaised => Raised
      case Unreplayable => NothingToDo
      case Replayed(_) => if SameKnobs(h.reg, Effective(a.value.config), target) then NothingToDo else Done
  }

  // ------------------------------------------------------------------ the dashboard

  datatype Submission = Form(values: Values, rendered: Values) | Import(values: Values, rendered: Values) | Reset(rendered: Values)

  function SubmittedValues(sub: Submission, current: Values): Values {
    match sub
    case Form(values, _) => Cutover(values, current)
    case Import(values, _) => values
    case Reset(_) => map[]
  }

  predicate Mentions(h: Host, sub: Submission) {
    !sub.Reset? && Forbids(h, sub.values)
  }

  /** `apply_values`: `rendered` is the effective configuration the page showed; its digest is the
      revision that the submission carries. */
  ghost function Apply(h: Host, s: Store, sub: Submission, now: int): (Store, Code)
    requires Complete(h.reg)
  {
    var current := Current(h, s);
    if Mentions(h, sub) then (s, Rejected)
    else if current.Err? then (s, Raised)
    else if sub.rendered != Effective(current.value) then (s, Rejected)
    else
      var minimal := Minimized(h.reg, SubmittedValues(sub, Effective(current.value)), s.env);
      if minimal.Err? then (s, Raised)
      else
        var candidate := Resolved(h.reg, minimal.value, s.env);
        if candidate.Err? then (s, Raised)
        else if !h.valid(Effective(candidate.value), minimal.value.Keys, s.env) then (s, Rejected)
        else if !sub.Reset? && SameKnobs(h.reg, Effective(current.value), Effective(candidate.value)) then (s, Unchanged)
        else
          var file := if sub.Reset? then None else Some(StateDoc(minimal.value, now));
          (s.(file := file, apply := ApplyState(Trial, now), restart := true), Done)
  }

  // ------------------------------------------------------------------ steps

  datatype Event =
    | Begin
    | Good(token: nat, now: int)
    | Unverified(token: nat, now: int)
    | Roll(token: nat, now: int)
    | Ask(token: nat)                       // should-rollback
    | Check(token: nat)                     // validate
    | Submit(sub: Submission, now: int)
    | ClearRestart
    | SnapshotEnv(env: Env, newDir: bool)   // container start; newDir when the runtime directory is new

  ghost function Step(h: Host, s: Store, e: Event): (Store, Code)
    requires Complete(h.reg)
  {
    match e
    case Begin => BeginAttempt(h, s)
    case Good(token, now) => MarkGood(s, token, now)
    case Unverified(token, now) => MarkUnverified(s, token, now)
    case Roll(token, now) => Rollback(h, s, token, now)
    case Ask(token) => (s, ShouldRollback(h, s, token))
    case Check(token) => (s, Validate(h, s, token))
    case Submit(sub, now) => Apply(h, s, sub, now)
    case ClearRestart => (s.(restart := false), Done)
    case SnapshotEnv(env, newDir) =>
      (if newDir then s.(env := env, attempt := None, restart := false) else s.(env := env), Done)
  }

  /** should-rollback promises a useful rollback exactly when rollback, then and there, performs one. */
  lemma ShouldRollbackPredictsRollback(h: Host, s: Store, token: nat, now: int)
    requires Complete(h.reg)
    ensures ShouldRollback(h, s, token) == Done <==> Rollback(h, s, token, now).1 == Done
    ensures ShouldRollback(h, s, token) == Superseded <==> Rollback(h, s, token, now).1 == Superseded
  {
  }

  // ------------------------------------------------------------------ the shared files

  class ConfigStore {
    const h: Host
    var file: Option<StateDoc>
    var good: Option<KnownGood>
    var apply: ApplyState
    var attempt: Option<Attempt>
    var restart: bool
    var env: Env
    ghost var issued: nat

    constructor (h: Host, file: Option<StateDoc>, good: Option<KnownGood>, apply: ApplyState, env: Env)
      ensures this.h == h && View() == Store(file, good, apply, None, false, env, 0)
    {
      this.h, this.file, this.good, this.apply, this.env := h, file, good, apply, env;
      this.attempt, this.restart, this.issued := None, false, 0;
    }

    ghost function View(): Store
      reads this
    {
      Store(file, good, apply, attempt, restart, env, issued)
    }

    /** `_current_attempt`, under the lock. */
    method CurrentAttempt(token: nat) returns (a: Option<Attempt>)
      ensures a == LiveAttempt(View(), token)
    {
      a := None;
      if attempt.Some? && attempt.value.token == token && attempt.value.identity == file {
        a := attempt;
      }
    }

    method DoBegin(token: nat) returns (code: Code)
      requires Complete(h.reg) && token == issued + 1
      modifies this
      ensures (View(), code) == BeginAttempt(h, old(View()))
    {
      hide Resolved, Loaded, StrictlyDescending;
      var values := Loaded(h, file);
      var c := Resolve(h.reg, values, env);
      if c.Err? {
        return Raised;
      }
      attempt := Some(Attempt(token, file, c.value, values));
      issued := issued + 1;
      return Done;
    }

    method DoMarkGood(token: nat, now: int) returns (code: Code)
      modifies this
      ensures (View(), code) == MarkGood(old(View()), token, now)
    {
      var a := CurrentAttempt(token);
      if a.None? {
        return Superseded;
      }
      good := Some(KnownGood(now, a.value.values, a.value.config));
      apply := ApplyState(Steady, now);
      return Done;
    }

    method DoMarkUnverified(token: nat, now: int) returns (code: Code)
      modifies this
      ensures (View(), code) == MarkUnverified(old(View()), token, now)
    {
      var a := CurrentAttempt(token);
      if a.None? {
        return Superseded;
      }
      apply := ApplyState(Degraded, now);
      return Done;
    }

    method Replay(target: Values) returns (r: Replay)
      requires HostWellFormed(h)
      ensures r == KnownGoodReplay(h, target, env)
    {
      var m, _ := Minimize(h.reg, target, env);
      if m.Err? {
        return ReplayRaised;
      }
      var restored := Resolve(h.reg, m.value, env);
      if restored.Err? {
        return ReplayRaised;
      }
      if !Reproduces(h.reg, target, Effective(restored.value)) {
        return Unreplayable;
      }
      if !h.valid(Effective(restored.value), m.value.Keys, env) {
        return Unreplayable;
      }
      return Replayed(m.value);
    }

    method DoRollback(token: nat, now: int) returns (code: Code)
      requires HostWellFormed(h)
      modifies this
      ensures (View(), code) == Rollback(h, old(View()), token, now)
    {
      hide Complete, WellFormed, KnownGoodReplay, SameKnobs, Effective;
      var a := CurrentAttempt(token);
      if a.None? {
        return Superseded;
      }
      if good.None? {
        if a.value.values != map[] {
          file := None;
          apply := ApplyState(RolledBack, now);
          restart := true;
          return Done;
        }
        apply := ApplyState(Failed, now);
        return NothingToDo;
      }
      var target := Effective(good.value.config);
      var r := Replay(target);
      if r.ReplayRaised? {
        return Raised;
      }
      if r.Unreplayable? || SameKnobs(h.reg, Effective(a.value.config), target) {
        apply := ApplyState(Failed, now);
        return NothingToDo;
      }
      file := Some(StateDoc(r.values, now));
      apply := ApplyState(RolledBack, now);
      restart := true;
      return Done;
    }

    method DoShouldRollback(token: nat) returns (code: Code)
      requires HostWellFormed(h)
      ensures code == ShouldRollback(h, View(), token)
    {
      hide Complete, WellFormed, KnownGoodReplay, SameKnobs, Effective;
      var a := CurrentAttempt(token);
      if a.None? {
        return Superseded;
      }
      if good.None? {
        return if a.value.values != map[] then Done else NothingToDo;
      }
      var target := Effective(good.value.config);
      var r := Replay(target);
      if r.ReplayRaised? {
        return Raised;
      }
      if r.Unreplayable? || SameKnobs(h.reg, Effective(a.value.config), target) {
        return NothingToDo;
      }
      return Done;
    }

    method DoApply(sub: Submission, now: int) returns (code: Code)
      requires HostWellFormed(h)
      modifies this
      ensures (View(), code) == Apply(h, old(View()), sub, now)
    {
      hide Complete, SameKnobs, Effective, Minimized, Resolved, Cutover, Forbids, Loaded;
      if Mentions(h, sub) {
        return Rejected;
      }
      var current := Resolve(h.reg, Loaded(h, file), env);
      if current.Err? {
        return Raised;
      }
      if sub.rendered != Effective(current.value) {
        return Rejected;
      }
      var minimal, _ := Minimize(h.reg, SubmittedValues(sub, Effective(current.value)), env);
      if minimal.Err? {
        return Raised;
      }
      var candidate := Resolve(h.reg, minimal.value, env);
      if candidate.Err? {
        return Raised;
      }
      if !h.valid(Effective(candidate.value), minimal.value.Keys, env) {
        return Rejected;
      }
      if !sub.Reset? && SameKnobs(h.reg, Effective(current.value), Effective(candidate.value)) {
        return Unchanged;
      }
      file := if sub.Reset? then None else Some(StateDoc(minimal.value, now));
      apply := ApplyState(Trial, now);
      restart := true;
      return Done;
    }
  }
}
