/** The bases that are chosen for an image, in numbers. */
module ExecutionPlanLaws {
  import opened Bytes
  import opened PeFormat
  import opened PeExecutionPlanFactory

  /** The base and the first two of the candidates that differ from it. */
  ghost function WithTwoOthers(base: U64, a: U64, b: U64, c: U64): seq<U64> {
    if base == a then [a, b, c] else if base == b then [b, a, c] else [base, a, b]
  }

  lemma FilledIs(base: U64, a: U64, b: U64, c: U64, d: U64)
    requires a != 0 && b != 0 && c != 0 && a != b && a != c && b != c
    ensures Filled(base, [a, b, c, d]) == WithTwoOthers(base, a, b, c)
  {
    var s := [a, b, c, d];
    assert s[..3] == [a, b, c] && [a, b, c][..2] == [a, b] && [a, b][..1] == [a] && [a][..0] == [];
    assert Filled(base, []) == [base];
    assert Filled(base, [a]) == if a == base then [base] else [base, a];
    assert Filled(base, [a, b]) == if a == base then [base, b] else if b == base then [base, a] else [base, a, b];
    assert Filled(base, [a, b, c]) == WithTwoOthers(base, a, b, c);
  }

  /** Every supported image gets a plan. Without relocations it runs where it was linked,
      once. With them it is rebuilt at its own base, or at 0x400000 (64-bit: 0x140000000)
      where it may be moved, captured at three bases and checked at a fourth. */
  lemma PlanIsExact(image: Layout, supported: bool)
    ensures Outcome(image, supported).Some? <==> supported
    ensures supported && !image.sourceLoadPolicy.hasRelocations ==>
              var own := image.preferredImageBase;
              Outcome(image, supported).value == ExecutionPlan(false, false, false, own, [own], own)
    ensures supported && image.sourceLoadPolicy.hasRelocations ==>
              var plan, policy := Outcome(image, supported).value, image.sourceLoadPolicy;
              plan.rebuildRelocations && plan.enableDynamicBase == policy.dynamicBase
              && (plan.enableHighEntropyVa <==> policy.dynamicBase && policy.highEntropyVa && image.format == Pe64)
              && (!policy.dynamicBase ==> plan.outputBase == image.preferredImageBase)
              && (image.format == Pe32 ==>
                    (policy.dynamicBase ==> plan.outputBase == 0x40_0000) && plan.validationBase == 0x3000_0000
                    && plan.captureBases == (if image.imageKind == DynamicLibrary then [0x1000_0000, 0x2000_0000, 0x2800_0000]
                                             else WithTwoOthers(plan.outputBase, 0x40_0000, 0x1000_0000, 0x2000_0000)))
              && (image.format == Pe64 ==>
                    (policy.dynamicBase ==> plan.outputBase == 0x1_4000_0000) && plan.validationBase == 0x2_4000_0000
                    && plan.captureBases == WithTwoOthers(plan.outputBase, 0x1_4000_0000, 0x1_8000_0000, 0x1_c000_0000))
  {
    hide Filled;
    FilledIs(OutputBase(image), 0x40_0000, 0x1000_0000, 0x2000_0000, 0x2800_0000);
    FilledIs(OutputBase(image), 0x1_4000_0000, 0x1_8000_0000, 0x1_c000_0000, 0x2_0000_0000);
  }
}
