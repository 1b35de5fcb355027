/**
The knob registry of the self-service configuration (scripts/glm_config.py), with the
registry's contents left abstract: any knobs, families and variants that satisfy WellFormed.
*/
module Knobs {
  import opened Options

  /** A decoded JSON scalar. The DCP choices, which the registry spells as digit strings,
      are represented by the numbers they spell. */
  datatype Value = Flag(b: bool) | Num(n: int) | Fraction(r: real) | Text(s: string)

  /** Knob keys. The named ones are those the resolution code mentions by name. */
  datatype Key =
    | MODEL_FAMILY
    | MODEL_VARIANT
    | MODEL_ID
    | TENSOR_PARALLEL_SIZE
    | DCP
    | MTP_DRAFT
    | MTP_TOKENS
    | Other(name: string)

  type Values = map<Key, Value>

  datatype Knob = Knob(
    default: Value,
    families: set<Value>,       // empty: meaningful for every family
    editable: bool,
    rejectInvalid: bool,
    coerce: Value -> Option<Value>)

  datatype FamilyProfile = FamilyProfile(defaultVariant: Option<Value>, defaults: Values)

  datatype VariantProfile = VariantProfile(defaultDraft: Option<Value>, defaults: Values)

  datatype Registry = Registry(
    order: seq<Key>,            // the order of the KNOBS list
    knobs: map<Key, Knob>,
    families: map<Value, FamilyProfile>,
    variants: map<Value, VariantProfile>,
    withdrawn: (Key, Value) -> bool,
    tpMax: int,
    dcpLegal: seq<int>)         // the DCP choices, largest first

  const GLM: Value := Text("glm52")
  const OFF: Value := Text("off")

  /** The startup environment layer and the GPU count the entrypoint measured (0: unknown). */
  datatype Env = Env(values: Values, gpus: nat)

  predicate Truthy(v: Value) {
    v != Num(0) && v != Flag(false) && v != Text("") && v != Fraction(0.0)
  }

  predicate Applies(knob: Knob, family: Value) {
    knob.families == {} || family in knob.families
  }

  predicate AppliesTo(reg: Registry, family: Value, k: Key)
    requires k in reg.knobs
  {
    Applies(reg.knobs[k], family)
  }

  function FamilyOf(reg: Registry, family: Value): FamilyProfile
    requires GLM in reg.families
  {
    if family in reg.families then reg.families[family] else reg.families[GLM]
  }

  function VariantOf(reg: Registry, variant: Value): VariantProfile {
    if variant in reg.variants then reg.variants[variant] else VariantProfile(None, map[])
  }

  /** A raw value that coerces, coerces to itself from then on. */
  ghost predicate Settled(knob: Knob) {
    forall raw, v :: knob.coerce(raw) == Some(v) ==> knob.coerce(v) == Some(v)
  }

  /** A knob every family has, that the page may set, and that degrades when invalid. */
  predicate Universal(knob: Knob) {
    knob.families == {} && knob.editable && !knob.rejectInvalid
  }

  ghost predicate SelectorsServable(reg: Registry, k: Key)
    requires k in reg.knobs
  {
    forall raw, v :: reg.knobs[k].coerce(raw) == Some(v) ==> !reg.withdrawn(k, raw) && !reg.withdrawn(k, v)
  }

  predicate StrictlyDescending(s: seq<int>) {
    forall i, j :: 0 <= i < j < |s| ==> s[i] > s[j]
  }

  /** What resolution needs in order to be defined: the named knobs exist, the list covers the
      registry, and the DCP choices are positive and sorted. */
  ghost predicate Complete(reg: Registry) {
    && (forall i :: 0 <= i < |reg.order| ==> reg.order[i] in reg.knobs)
    && (forall k {:trigger k in reg.order} :: k in reg.knobs ==> k in reg.order)
    && {MODEL_FAMILY, MODEL_VARIANT, MODEL_ID, TENSOR_PARALLEL_SIZE, DCP, MTP_DRAFT, MTP_TOKENS} <= reg.knobs.Keys
    && GLM in reg.families
    && StrictlyDescending(reg.dcpLegal)
    && (forall i :: 0 <= i < |reg.dcpLegal| ==> reg.dcpLegal[i] > 0)
  }

  predicate Selector(knob: Knob) {
    Universal(knob) && knob.coerce(knob.default) == Some(knob.default)
  }

  /** A choice among non-empty names. */
  ghost predicate Naming(knob: Knob) {
    forall raw, v :: knob.coerce(raw) == Some(v) ==> Truthy(v)
  }

  /** An integer knob. */
  ghost predicate Counting(knob: Knob) {
    knob.default.Num? && forall raw, v :: knob.coerce(raw) == Some(v) ==> v.Num?
  }

  predicate CoherentFamily(reg: Registry, profile: FamilyProfile)
    requires MODEL_VARIANT in reg.knobs
  {
    && MODEL_FAMILY !in profile.defaults
    && (profile.defaultVariant.Some? ==>
          reg.knobs[MODEL_VARIANT].coerce(profile.defaultVariant.value) == Some(profile.defaultVariant.value))
  }

  /** Every registry the source could hold: values settle once coerced, and the two selector knobs
      are universal, never withdrawn once accepted, and not set by the presets they select. */
  ghost predicate WellFormed(reg: Registry) {
    && Complete(reg)
    && (forall k :: k in reg.knobs ==> Settled(reg.knobs[k]))
    && Selector(reg.knobs[MODEL_FAMILY])
    && Selector(reg.knobs[MODEL_VARIANT])
    && Counting(reg.knobs[MTP_TOKENS])
    && reg.knobs[MTP_TOKENS].families == {}
    && reg.knobs[TENSOR_PARALLEL_SIZE].families == {}
    && AppliesTo(reg, GLM, MTP_DRAFT)
    && Naming(reg.knobs[MODEL_FAMILY])
    && SelectorsServable(reg, MODEL_FAMILY)
    && SelectorsServable(reg, MODEL_VARIANT)
    && (forall f :: f in reg.families ==> CoherentFamily(reg, reg.families[f]))
    && (forall v :: v in reg.variants ==> {MODEL_FAMILY, MODEL_VARIANT} !! reg.variants[v].defaults.Keys)
  }
}
