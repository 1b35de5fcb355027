/** Laws of the diff: it is idempotent, nothing in it is redundant, and a profile switch leaves
    nothing of the old profile in it. */
module DiffLaws {
  import opened Options
  import opened Knobs
  import opened Resolution
  import opened Minimization
  import opened RoundTrip

  lemma {:induction false} NothingUnusable(reg: Registry, i: nat, values: Values, family: Value)
    requires Complete(reg) && i <= |reg.order|
    requires forall k :: k in reg.knobs ==> !Unusable(reg, values, family, k)
    ensures FirstUnusable(reg, i, values, family) == None
    decreases |reg.order| - i
  {
    if i < |reg.order| {
      NothingUnusable(reg, i + 1, values, family);
    }
  }

  lemma DiffSelectsVariant(reg: Registry, values: Values, env: Env)
    requires WellFormed(reg)
    ensures var family := FamilyName(reg, values, env);
            SelectedVariant(reg, DiffOf(reg, values, env), family, env) == SelectedVariant(reg, values, family, env)
  {
    hide StrictlyDescending, FamilyName, BaseVariant, CoherentFamily, Counting, Settled, SelectorsServable, InvalidStrict;
    VariantSettles(reg, values, FamilyName(reg, values, env), env);
    SelectorsStored(reg, values, env);
    assert Look(DiffOf(reg, values, env), MODEL_VARIANT) == Stored(reg, values, env, MODEL_VARIANT);
  }

  lemma StoredStays(reg: Registry, values: Values, env: Env, k: Key)
    requires WellFormed(reg) && k in reg.knobs
    ensures var out := DiffOf(reg, values, env);
            Stored(reg, out, env, k) == Look(out, k)
            && !Unusable(reg, out, FamilyName(reg, out, env), k)
  {
    hide StrictlyDescending, FamilyName, SelectedVariant, BaseVariant, CoherentFamily, Counting, SelectorsServable, InvalidStrict, Below;
    DiffKeepsSelectors(reg, values, env);
    DiffSelectsVariant(reg, values, env);
    assert Look(DiffOf(reg, values, env), k) == Stored(reg, values, env, k);
    assert Settled(reg.knobs[k]);
  }

  /** Minimizing a diff gives the same diff. */
  lemma MinimizeIsIdempotent(reg: Registry, values: Values, env: Env)
    requires WellFormed(reg) && Minimized(reg, values, env).Ok?
    ensures var out := Minimized(reg, values, env).value;
            Minimized(reg, out, env) == Ok(out)
  {
    hide StrictlyDescending, FamilyName, CoherentFamily, Counting, SelectorsServable, InvalidStrict, Stored, Unusable,
      Settled, Selector;
    var out := DiffOf(reg, values, env);
    DiffKeepsSelectors(reg, values, env);
    forall k | k in reg.knobs
      ensures Stored(reg, out, env, k) == Look(out, k) && !Unusable(reg, out, FamilyName(reg, out, env), k)
    {
      StoredStays(reg, values, env, k);
    }
    NothingUnusable(reg, 0, out, FamilyName(reg, out, env));
    SameEntries(DiffOf(reg, out, env), out, reg.knobs.Keys);
  }

  lemma SameEntries(a: Values, b: Values, keys: set<Key>)
    requires a.Keys <= keys && b.Keys <= keys
    requires forall k :: k in keys ==> Look(a, k) == Look(b, k)
    ensures a == b
  {
    forall k | k in a ensures k in b && a[k] == b[k] {
      assert k in keys;
    }
    forall k | k in b ensures k in a {
      assert k in keys;
    }
  }

  // ------------------------------------------------------------------ nothing is redundant

  ghost predicate SameEffect(a: Result<Config>, b: Result<Config>) {
    a.Ok? && b.Ok? && Effective(a.value) == Effective(b.value)
  }

  lemma SelectorWithout(reg: Registry, values: Values, env: Env, k: Key)
    requires WellFormed(reg) && IsSelector(k) && k in DiffOf(reg, values, env)
    ensures var out := DiffOf(reg, values, env);
            && (k == MODEL_FAMILY ==> FamilyName(reg, out - {k}, env) != FamilyName(reg, out, env))
            && (k == MODEL_VARIANT ==> VariantName(reg, out - {k}, env) != VariantName(reg, out, env))
  {
    hide StrictlyDescending, CoherentFamily, Counting, SelectorsServable, Settled, InvalidStrict, Selector, SelectedVariant,
      FlashSelected;
    var out := DiffOf(reg, values, env);
    var without := out - {k};
    var family := FamilyName(reg, values, env);
    DiffKeepsSelectors(reg, values, env);
    FamilyNameSettles(reg, values, env);
    SelectorsStored(reg, values, env);
    assert Look(out, k) == Stored(reg, values, env, k);
    BaselineLook(reg, env, MODEL_FAMILY);
    BaselineLook(reg, env, MODEL_VARIANT);
    StrictSelectors(reg, env);
    if k == MODEL_FAMILY {
      assert FamilyName(reg, without, env) == FamilyName(reg, map[], Baseline(reg, env));
    } else {
      assert Look(without, MODEL_FAMILY) == Look(out, MODEL_FAMILY);
      assert VariantName(reg, without, env) == BaseVariant(reg, family, env);
    }
  }

  lemma DifferentValue(a: Config, b: Config, k: Key)
    requires k in a && k in b && a[k].value != b[k].value
    ensures Effective(a) != Effective(b)
  {
    assert Effective(a)[k] == a[k].value && Effective(b)[k] == b[k].value;
  }

  /** Dropping a selector from the diff changes the family or the variant. */
  lemma SelectorMatters(reg: Registry, values: Values, env: Env, k: Key)
    requires WellFormed(reg) && IsSelector(k) && k in DiffOf(reg, values, env)
    requires Resolved(reg, DiffOf(reg, values, env), env).Ok?
    ensures var out := DiffOf(reg, values, env);
            !SameEffect(Resolved(reg, out - {k}, env), Resolved(reg, out, env))
  {
    hide StrictlyDescending, CoherentFamily, Counting, SelectorsServable, Settled, FirstRefused, ConfigFor, Selector,
      FamilyName, VariantName, DiffOf, FlashSelected, Effective, Resolved, Naming, Complete;
    var out := DiffOf(reg, values, env);
    if Resolved(reg, out - {k}, env).Ok? {
      ResolvedKeys(reg, out, env);
      ResolvedKeys(reg, out - {k}, env);
      SelectorWithout(reg, values, env, k);
      SelectorsResolve(reg, out, env);
      SelectorsResolve(reg, out - {k}, env);
      DifferentValue(Resolved(reg, out - {k}, env).value, Resolved(reg, out, env).value, k);
    }
  }

  lemma StrictSelectors(reg: Registry, env: Env)
    requires WellFormed(reg)
    ensures MODEL_FAMILY !in InvalidStrict(reg, env) && MODEL_VARIANT !in InvalidStrict(reg, env)
  {
  }

  /** Without one stored knob the selectors stay... */
  lemma WithoutKnobSelectors(reg: Registry, values: Values, env: Env, k: Key)
    requires WellFormed(reg) && !IsSelector(k)
    ensures var without := DiffOf(reg, values, env) - {k};
            && FamilyName(reg, without, env) == FamilyName(reg, values, env)
            && VariantName(reg, without, env) == SelectedVariant(reg, values, FamilyName(reg, values, env), env)
  {
    hide StrictlyDescending, CoherentFamily, Counting, SelectorsServable, Settled, Selector, SelectedVariant, Layered, Stored, DiffOf, Prevailing;
    var out := DiffOf(reg, values, env);
    DiffKeepsSelectors(reg, values, env);
    assert Look(out - {k}, MODEL_FAMILY) == Look(out, MODEL_FAMILY);
    assert Look(out - {k}, MODEL_VARIANT) == Look(out, MODEL_VARIANT);
  }

  /** ...every other knob resolves as before... */
  lemma WithoutKnobOthers(reg: Registry, values: Values, env: Env, k: Key, j: Key, family: Value, variant: Value)
    requires Complete(reg) && j in reg.knobs && j != k
    ensures var out := DiffOf(reg, values, env);
            && ProfiledIn(reg, family, variant, out - {k}, env, j) == ProfiledIn(reg, family, variant, out, env, j)
            && RefusedIn(reg, family, out - {k}, env, j) == RefusedIn(reg, family, out, env, j)
  {
    hide StrictlyDescending, Profiled, Refused, Stored;
    assert Look(DiffOf(reg, values, env) - {k}, j) == Look(DiffOf(reg, values, env), j);
  }

  /** ...and the knob itself falls to the layers below. */
  lemma WithoutKnobItself(reg: Registry, values: Values, env: Env, k: Key)
    requires WellFormed(reg) && !IsSelector(k) && k in DiffOf(reg, values, env)
    ensures var without := DiffOf(reg, values, env) - {k};
            var family := FamilyName(reg, values, env);
            var variant := SelectedVariant(reg, values, family, env);
            && RefusedIn(reg, family, without, env, k) == (k in InvalidStrict(reg, env))
            && (k !in InvalidStrict(reg, env) ==>
                  ProfiledIn(reg, family, variant, without, env, k) == Beneath(reg, family, variant, env, k))
  {
    hide StrictlyDescending, CoherentFamily, Counting, SelectorsServable, Settled, Selector, SelectedVariant, FamilyName, Profiled, Stored;
    KnobAfterDiff(reg, values, env, k);
    BaselineLook(reg, env, k);
    assert Look(DiffOf(reg, values, env) - {k}, k) == None;
  }

  lemma WithoutKnob(reg: Registry, values: Values, env: Env, k: Key)
    requires WellFormed(reg) && !IsSelector(k) && k in DiffOf(reg, values, env)
    ensures var out := DiffOf(reg, values, env);
            var without := out - {k};
            var family := FamilyName(reg, values, env);
            var variant := SelectedVariant(reg, values, family, env);
            && FamilyName(reg, without, env) == family
            && VariantName(reg, without, env) == variant
            && (forall j :: j in reg.knobs && j != k ==>
                  && ProfiledIn(reg, family, variant, without, env, j) == ProfiledIn(reg, family, variant, out, env, j)
                  && RefusedIn(reg, family, without, env, j) == RefusedIn(reg, family, out, env, j))
            && RefusedIn(reg, family, without, env, k) == (k in InvalidStrict(reg, env))
            && (k !in InvalidStrict(reg, env) ==>
                  ProfiledIn(reg, family, variant, without, env, k) == Beneath(reg, family, variant, env, k))
  {
    hide StrictlyDescending, CoherentFamily, Counting, SelectorsServable, Settled, Selector, SelectedVariant, FamilyName, ProfiledIn,
      RefusedIn, VariantName, InvalidStrict, Stored, Beneath;
    WithoutKnobSelectors(reg, values, env, k);
    WithoutKnobItself(reg, values, env, k);
    var family := FamilyName(reg, values, env);
    var variant := SelectedVariant(reg, values, family, env);
    forall j | j in reg.knobs && j != k
      ensures ProfiledIn(reg, family, variant, DiffOf(reg, values, env) - {k}, env, j) == ProfiledIn(reg, family, variant, DiffOf(reg, values, env), env, j)
      ensures RefusedIn(reg, family, DiffOf(reg, values, env) - {k}, env, j) == RefusedIn(reg, family, DiffOf(reg, values, env), env, j)
    {
      WithoutKnobOthers(reg, values, env, k, j, family, variant);
    }
  }

  lemma SameValues(keys: set<Key>, a: Config, b: Config)
    requires a.Keys == keys && b.Keys == keys
    requires forall j :: j in keys ==> a[j].value == b[j].value
    ensures Effective(a) == Effective(b)
  {
    SameEntries(Effective(a), Effective(b), keys);
  }

  /** Dropping any other stored knob changes its value or makes resolution fail; a stored DCP or
      speculation depth is redundant exactly when its coupling already yields it. */
  lemma DiffIsIrredundant(reg: Registry, values: Values, env: Env, k: Key)
    requires WellFormed(reg) && Minimized(reg, values, env).Ok?
    requires k in Minimized(reg, values, env).value
    requires Resolved(reg, Minimized(reg, values, env).value, env).Ok?
    ensures var out := Minimized(reg, values, env).value;
            var same := SameEffect(Resolved(reg, out - {k}, env), Resolved(reg, out, env));
            var family := FamilyName(reg, values, env);
            var variant := SelectedVariant(reg, values, family, env);
            if k == DCP then
              same <==>
                && k !in InvalidStrict(reg, env)
                && Underlying(reg, values, env, k).source == Detected
                && out[k] == Num(FollowTp(reg.dcpLegal, RankCount(Wanted(reg, values, env, TENSOR_PARALLEL_SIZE))))
            else if k == MTP_TOKENS then
              same <==>
                && k !in InvalidStrict(reg, env)
                && (DraftOff(family, Wanted(reg, values, env, MTP_DRAFT))
                    || (Underlying(reg, values, env, k).source == Derived
                        && out[k] == Beneath(reg, family, variant, env, k).value))
            else !same
  {
    hide StrictlyDescending, CoherentFamily, Counting, SelectorsServable, Settled, FirstRefused, InvalidStrict,
      Selector, SelectedVariant, FamilyName, Wanted, ProfiledIn, FollowTp, Submitted, Clean, FlashSelected, RefusedIn, Applies;
    if IsSelector(k) {
      SelectorMatters(reg, values, env, k);
    } else {
      KnobMatters(reg, values, env, k);
    }
  }

  lemma KnobMatters(reg: Registry, values: Values, env: Env, k: Key)
    requires WellFormed(reg) && Minimized(reg, values, env).Ok? && !IsSelector(k)
    requires k in DiffOf(reg, values, env)
    requires Resolved(reg, DiffOf(reg, values, env), env).Ok?
    ensures var out := DiffOf(reg, values, env);
            var same := SameEffect(Resolved(reg, out - {k}, env), Resolved(reg, out, env));
            var family := FamilyName(reg, values, env);
            var variant := SelectedVariant(reg, values, family, env);
            if k == DCP then
              same <==>
                && k !in InvalidStrict(reg, env)
                && Underlying(reg, values, env, k).source == Detected
                && out[k] == Num(FollowTp(reg.dcpLegal, RankCount(Wanted(reg, values, env, TENSOR_PARALLEL_SIZE))))
            else if k == MTP_TOKENS then
              same <==>
                && k !in InvalidStrict(reg, env)
                && (DraftOff(family, Wanted(reg, values, env, MTP_DRAFT))
                    || (Underlying(reg, values, env, k).source == Derived
                        && out[k] == Beneath(reg, family, variant, env, k).value))
            else !same
  {
    hide StrictlyDescending, CoherentFamily, Counting, SelectorsServable, Settled, FirstRefused, InvalidStrict,
      Selector, SelectedVariant, FamilyName, Wanted, ProfiledIn, FollowTp, Clean, FlashSelected, RefusedIn, Applies,
      Coupled, Below, Beneath, ConfigFor, VariantName, Stored;
    var out := DiffOf(reg, values, env);
    var without := out - {k};
    var family := FamilyName(reg, values, env);
    var variant := SelectedVariant(reg, values, family, env);
    DiffKeepsSelectors(reg, values, env);
    WithoutKnob(reg, values, env, k);
    ResolvesIff(reg, out, env);
    ResolvesIff(reg, without, env);
    WithdrawnWithout(reg, values, env, k);
    if k !in InvalidStrict(reg, env) {
      var a, b := Resolved(reg, without, env), Resolved(reg, out, env);
      assert a.Ok?;
      assert a.value[k] == SettingIn(reg, family, variant, without, env, k);
      assert b.value[k] == SettingIn(reg, family, variant, out, env, k);
      KnobValues(reg, values, env, k);
      if a.value[k].value != b.value[k].value {
        DifferentValue(a.value, b.value, k);
      } else {
        forall j | j in reg.knobs && j != k ensures a.value[j] == b.value[j] {
        }
        SameValues(reg.knobs.Keys, a.value, b.value);
      }
    }
  }

  lemma WithdrawnWithout(reg: Registry, values: Values, env: Env, k: Key)
    requires WellFormed(reg) && !IsSelector(k)
    ensures !FlashSelected(reg, DiffOf(reg, values, env) - {k})
  {
    DiffKeepsSelectors(reg, values, env);
  }

  /** A stored knob's value with and without its entry. */
  lemma KnobValues(reg: Registry, values: Values, env: Env, k: Key)
    requires WellFormed(reg) && Minimized(reg, values, env).Ok? && !IsSelector(k)
    requires Resolved(reg, DiffOf(reg, values, env), env).Ok?
    requires k in DiffOf(reg, values, env) && k !in InvalidStrict(reg, env)
    ensures var out := DiffOf(reg, values, env);
            var family := FamilyName(reg, values, env);
            var variant := SelectedVariant(reg, values, family, env);
            var before := SettingIn(reg, family, variant, out, env, k).value;
            var after := SettingIn(reg, family, variant, out - {k}, env, k).value;
            if k == DCP then
              before == after <==>
                && Underlying(reg, values, env, k).source == Detected
                && out[k] == Num(FollowTp(reg.dcpLegal, RankCount(Wanted(reg, values, env, TENSOR_PARALLEL_SIZE))))
            else if k == MTP_TOKENS then
              before == after <==>
                (DraftOff(family, Wanted(reg, values, env, MTP_DRAFT))
                 || (Underlying(reg, values, env, k).source == Derived
                     && out[k] == Beneath(reg, family, variant, env, k).value))
            else before != after
  {
    hide StrictlyDescending, CoherentFamily, Counting, SelectorsServable, Settled, FirstRefused, InvalidStrict,
      Selector, SelectedVariant, FamilyName, Wanted, FollowTp, FlashSelected, RefusedIn,
      ConfigFor, VariantName, Coupled, ProfiledIn, Clean, Stored;
    var out := DiffOf(reg, values, env);
    var family := FamilyName(reg, values, env);
    var variant := SelectedVariant(reg, values, family, env);
    WithoutKnob(reg, values, env, k);
    KnobAfterDiff(reg, values, env, k);
    DiffResolvesIff(reg, values, env);
    StoredWhenDifferent(reg, values, env, k);
    var own := Beneath(reg, family, variant, env, k);
    var tp' := Beneath(reg, family, variant, env, TENSOR_PARALLEL_SIZE).value;
    var draft' := Beneath(reg, family, variant, env, MTP_DRAFT).value;
    if k == DCP {
      WantedBeneath(reg, values, env, TENSOR_PARALLEL_SIZE);
      DcpRedundant(reg, family, out[k], own, Wanted(reg, values, env, TENSOR_PARALLEL_SIZE), tp',
        ProfiledIn(reg, family, variant, out, env, MTP_DRAFT).value, draft');
    } else if k == MTP_TOKENS {
      if family == GLM {
        WantedBeneath(reg, values, env, MTP_DRAFT);
      }
      CleanDepthCounts(reg, values);
      BeneathDepthCounts(reg, family, variant, env);
      DepthRedundant(reg, family, out[k], own, tp', draft',
        ProfiledIn(reg, family, variant, out, env, TENSOR_PARALLEL_SIZE).value,
        ProfiledIn(reg, family, variant, out, env, MTP_DRAFT).value);
    } else {
      Uncoupled(reg, family, k);
    }
  }

  lemma Uncoupled(reg: Registry, family: Value, k: Key)
    requires Complete(reg) && k != DCP && k != MTP_TOKENS
    ensures forall own, tp, draft :: Coupled(reg, family, k, own, tp, draft) == own
  {
  }

  lemma DcpRedundant(reg: Registry, family: Value, v: Value, own: Setting, tp: Value, tp': Value, draft: Value, draft': Value)
    requires Complete(reg)
    requires v != Coupled(reg, family, DCP, own, tp', draft').value
    ensures Coupled(reg, family, DCP, Setting(v, File), tp, draft).value == Coupled(reg, family, DCP, own, tp, draft).value <==>
            && Coupled(reg, family, DCP, own, tp', draft').source == Detected
            && v == Num(FollowTp(reg.dcpLegal, RankCount(tp)))
  {
  }

  lemma DepthRedundant(reg: Registry, family: Value, v: Value, own: Setting, tp': Value, draft': Value, tp: Value, draft: Value)
    requires Complete(reg) && v.Num? && own.value.Num? && own.source != Derived
    requires v != Coupled(reg, family, MTP_TOKENS, own, tp', draft').value
    ensures Coupled(reg, family, MTP_TOKENS, Setting(v, File), tp, draft).value
              == Coupled(reg, family, MTP_TOKENS, own, tp, draft).value <==>
            || DraftOff(family, draft)
            || (Coupled(reg, family, MTP_TOKENS, own, tp', draft').source == Derived && v == own.value)
  {
  }
}
