/** A measured variant on detected hardware: which layer wins on a four-GPU host, on the sample registry. */
module PrecedenceExample {
  import opened Options
  import opened Knobs
  import opened Resolution
  import opened SampleRegistry
  import opened Precedence

  lemma SampleNames()
    ensures KnobFor(MODEL_FAMILY) == FamilyKnob && KnobFor(MODEL_VARIANT) == VariantKnob
    ensures KnobFor(DCP) == DcpKnob && KnobFor(TENSOR_PARALLEL_SIZE) == TpKnob
    ensures forall k :: k in {MODEL_FAMILY, MODEL_VARIANT, DCP, TENSOR_PARALLEL_SIZE} ==> k in Sample.knobs && Sample.knobs[k] == KnobFor(k)
  {
    hide KnobFor;
    forall k | k in {MODEL_FAMILY, MODEL_VARIANT, DCP, TENSOR_PARALLEL_SIZE} ensures k in Sample.knobs && Sample.knobs[k] == KnobFor(k) {
      OrderHolds(k);
      SampleKnob(k);
    }
    NamedKnobs();
  }

  lemma NamedKnobs()
    ensures KnobFor(MODEL_FAMILY) == FamilyKnob && KnobFor(MODEL_VARIANT) == VariantKnob
    ensures KnobFor(DCP) == DcpKnob && KnobFor(TENSOR_PARALLEL_SIZE) == TpKnob
  {
  }

  const FOUR_GPUS := Env(map[], 4)

  lemma NoProfileSelects(v: Value)
    ensures v in Sample.variants ==>
              MODEL_FAMILY !in Sample.variants[v].defaults && MODEL_VARIANT !in Sample.variants[v].defaults
  {
    SampleVariants();
    if v in Sample.variants {
      assert MODEL_FAMILY in {MODEL_FAMILY, MODEL_VARIANT} && MODEL_VARIANT in {MODEL_FAMILY, MODEL_VARIANT};
    }
  }

  lemma SampleSelectors(f: Value, v: Value)
    ensures {MODEL_FAMILY, MODEL_VARIANT} <= Sample.knobs.Keys && Text("glm52") in Sample.families
    ensures Highest(Sample, map[], FOUR_GPUS, f, v, MODEL_FAMILY) == Setting(GLM, Default)
    ensures Highest(Sample, map[], FOUR_GPUS, GLM, v, MODEL_VARIANT) == Setting(TR3, Family)
  {
    hide KnobFor, Hardware, Highest;
    SampleNames();
    NoProfileSelects(v);
    HardwareWins(Sample, map[], FOUR_GPUS, f, v, MODEL_FAMILY);
    HardwareWins(Sample, map[], FOUR_GPUS, GLM, v, MODEL_VARIANT);
    SampleFamilyHardware(f);
    SampleVariantHardware();
  }

  lemma SampleFamilyHardware(f: Value)
    ensures MODEL_FAMILY in Sample.knobs && Text("glm52") in Sample.families
    ensures Hardware(Sample, 4, f, MODEL_FAMILY) == Setting(GLM, Default)
  {
    hide KnobFor, Usable;
    SampleNames();
    SampleFamilies();
    assert MODEL_FAMILY !in ProfileOf(Sample, f).defaults;
    assert !Usable(FamilyKnob, ProfileOf(Sample, f).defaults, MODEL_FAMILY) by {
      NothingUnnamed(FamilyKnob, ProfileOf(Sample, f).defaults, MODEL_FAMILY);
    }
  }

  lemma NothingUnnamed(knob: Knob, layer: Values, k: Key)
    requires k !in layer
    ensures !Usable(knob, layer, k)
  {
  }

  lemma SampleVariantHardware()
    ensures MODEL_VARIANT in Sample.knobs && Text("glm52") in Sample.families
    ensures Hardware(Sample, 4, GLM, MODEL_VARIANT) == Setting(TR3, Family)
  {
    hide KnobFor;
    SampleNames();
    DistinctVariants();
  }

  lemma DcpTaken()
    ensures Usable(DcpKnob, map[DCP := Num(2), MTP_TOKENS := Num(5)], DCP)
    ensures Taken(DcpKnob, map[DCP := Num(2), MTP_TOKENS := Num(5)], DCP) == Num(2)
    ensures Meaningful(DcpKnob, GLM) && Meaningful(TpKnob, GLM)
  {
  }

  lemma SampleDcp()
    ensures DCP in Sample.knobs && Text("glm52") in Sample.families
    ensures Highest(Sample, map[], FOUR_GPUS, GLM, TR3, DCP) == Setting(Num(2), Variant)
  {
    hide KnobFor, Hardware, Usable, Taken, Highest, Meaningful;
    SampleNames();
    DistinctVariants();
    assert Sample.variants == PROFILES && PROFILES[TR3].defaults == map[DCP := Num(2), MTP_TOKENS := Num(5)];
    DcpTaken();
    VariantWins(Sample, map[], FOUR_GPUS, GLM, TR3, DCP);
  }

  lemma SampleTp()
    ensures TENSOR_PARALLEL_SIZE in Sample.knobs && Text("glm52") in Sample.families
    ensures Highest(Sample, map[], FOUR_GPUS, GLM, TR3, TENSOR_PARALLEL_SIZE) == Setting(Num(4), Detected)
  {
    hide KnobFor, Usable, Taken, Highest, Meaningful;
    SampleNames();
    DistinctVariants();
    assert Sample.variants == PROFILES && TENSOR_PARALLEL_SIZE !in PROFILES[TR3].defaults;
    DcpTaken();
    HardwareWins(Sample, map[], FOUR_GPUS, GLM, TR3, TENSOR_PARALLEL_SIZE);
  }

  lemma SampleResolves()
    ensures WellFormed(Sample) && Resolved(Sample, map[], FOUR_GPUS).Ok?
    ensures Resolved(Sample, map[], FOUR_GPUS).value.Keys == Sample.knobs.Keys
  {
    hide WellFormed, StrictlyDescending, KnobFor, Resolved, Meaningful;
    SampleIsWellFormed();
    SampleIsComplete();
    FailsIff(Sample, map[], FOUR_GPUS);
    assert Resolved(Sample, map[], FOUR_GPUS).Ok?;
    ResolvedKeys(Sample, map[], FOUR_GPUS);
  }

  /** The default variant's own DCP of 2 outranks the 4 shards a four-GPU host would be given, while the
      tensor-parallel size stays detected. */
  lemma MeasuredVariantOutranksHardware()
    ensures WellFormed(Sample)
    ensures var r := Resolved(Sample, map[], FOUR_GPUS);
            && r.Ok?
            && Look(r.value, MODEL_VARIANT) == Some(Setting(TR3, Family))
            && Look(r.value, DCP) == Some(Setting(Num(2), Variant))
            && Look(r.value, TENSOR_PARALLEL_SIZE) == Some(Setting(Num(4), Detected))
  {
    hide WellFormed, KnobFor, Resolved, Highest;
    SampleResolves();
    SampleDcp();
    SampleTp();
    forall f, v ensures Highest(Sample, map[], FOUR_GPUS, f, v, MODEL_FAMILY) == Setting(GLM, Default) {
      SampleSelectors(f, v);
    }
    forall v ensures Highest(Sample, map[], FOUR_GPUS, GLM, v, MODEL_VARIANT) == Setting(TR3, Family) {
      SampleSelectors(GLM, v);
    }
    SelectorsStand(Sample, map[], FOUR_GPUS, Setting(GLM, Default), Setting(TR3, Family));
  }
}
