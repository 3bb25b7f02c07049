/** Chooses the bases at which an image is captured, rebuilt and validated. */
module PeExecutionPlanFactory {
  import opened Bytes
  import opened PeFormat
  import Alignment
  import Parser = PeParser
  import Relocations = RelocationReconstructor
  import RelocationLaws

  const CAPTURES := 3

  datatype ExecutionPlan = ExecutionPlan(
    rebuildRelocations: bool, enableDynamicBase: bool, enableHighEntropyVa: bool,
    outputBase: U64, captureBases: seq<U64>, validationBase: U64)

  const EXECUTABLE_BASES_32: seq<U64> := [0x0040_0000, 0x1000_0000, 0x2000_0000, 0x2800_0000]
  const LIBRARY_BASES_32: seq<U64> := [0x1000_0000, 0x2000_0000, 0x2800_0000]
  const BASES_64: seq<U64> := [0x1_4000_0000, 0x1_8000_0000, 0x1_c000_0000, 0x2_0000_0000]

  /** The output base and then every new nonzero candidate, up to three bases. */
  function Filled(outputBase: U64, candidates: seq<U64>): (bases: seq<U64>)
    ensures 0 < |bases| <= CAPTURES && bases[0] == outputBase
  {
    if candidates == [] then [outputBase]
    else
      var before, c := Filled(outputBase, candidates[..|candidates| - 1]), candidates[|candidates| - 1];
      if |before| == CAPTURES || c == 0 || c in before then before else before + [c]
  }

  /** The candidate loop; `count` slots of the array are in use. */
  method FillDistinctBases(bases: array<U64>, outputBase: U64, candidates: seq<U64>) returns (count: nat)
    requires bases.Length == CAPTURES
    modifies bases
    ensures count <= CAPTURES && bases[..count] == Filled(outputBase, candidates)
  {
    bases[0] := outputBase;
    count := 1;
    var index := 0;
    while index < |candidates|
      invariant 0 <= index <= |candidates| && 0 < count <= CAPTURES
      invariant bases[..count] == Filled(outputBase, candidates[..index])
    {
      if count == bases.Length {
        FullStays(outputBase, candidates, index);
        break;
      }
      var candidate := candidates[index];
      assert candidates[..index + 1][..index] == candidates[..index];
      index := index + 1;
      if candidate != 0 && candidate != outputBase {
        if candidate !in bases[..count] {
          bases[count] := candidate;
          count := count + 1;
        }
      }
    }
    assert index == |candidates| ==> candidates[..index] == candidates;
  }

  lemma {:induction false} FullStays(outputBase: U64, candidates: seq<U64>, n: nat)
    requires n <= |candidates| && |Filled(outputBase, candidates[..n])| == CAPTURES
    ensures Filled(outputBase, candidates) == Filled(outputBase, candidates[..n])
    decreases |candidates| - n
  {
    if n < |candidates| {
      assert candidates[..n + 1][..n] == candidates[..n];
      FullStays(outputBase, candidates, n + 1);
    } else {
      assert candidates[..n] == candidates;
    }
  }

  function OutputBase(image: Layout): U64 {
    if image.sourceLoadPolicy.dynamicBase then if image.format.Pe32? then 0x0040_0000 else 0x1_4000_0000
    else image.preferredImageBase
  }

  /** The plan for an image; `supported` is the backend's answer for it. */
  function Outcome(image: Layout, supported: bool): Option<ExecutionPlan> {
    var policy := image.sourceLoadPolicy;
    if !supported then None
    else if !policy.hasRelocations then
      Some(ExecutionPlan(false, false, false, image.preferredImageBase, [image.preferredImageBase], image.preferredImageBase))
    else
      var base := OutputBase(image);
      var bases := if image.format.Pe64? then Filled(base, BASES_64)
                   else if image.imageKind.DynamicLibrary? then LIBRARY_BASES_32
                   else Filled(base, EXECUTABLE_BASES_32);
      if |bases| != CAPTURES then None
      else
        Some(ExecutionPlan(true, policy.dynamicBase, policy.dynamicBase && image.format.Pe64? && policy.highEntropyVa,
                           base, bases, if image.format.Pe32? then 0x3000_0000 else 0x2_4000_0000))
  }

  method Create(image: Layout, supported: bool) returns (plan: Option<ExecutionPlan>)
    ensures plan == Outcome(image, supported)
  {
    hide Filled;
    if !supported {
      return None;
    }
    var policy := image.sourceLoadPolicy;
    var enableDynamicBase := policy.hasRelocations && policy.dynamicBase;
    var enableHighEntropyVa := enableDynamicBase && image.format.Pe64? && policy.highEntropyVa;
    if !policy.hasRelocations {
      return Some(ExecutionPlan(false, false, false, image.preferredImageBase, [image.preferredImageBase], image.preferredImageBase));
    }
    var canonical: U64 := if image.format.Pe32? then 0x0040_0000 else 0x1_4000_0000;
    var outputBase := if enableDynamicBase then canonical else image.preferredImageBase;
    var bases: seq<U64>;
    if image.format.Pe32? && image.imageKind.DynamicLibrary? {
      bases := LIBRARY_BASES_32;
    } else {
      var slots := new U64[CAPTURES];
      var count := FillDistinctBases(slots, outputBase, if image.format.Pe32? then EXECUTABLE_BASES_32 else BASES_64);
      bases := slots[..count];
    }
    if |bases| != CAPTURES {
      return None;
    }
    plan := Some(ExecutionPlan(true, enableDynamicBase, enableHighEntropyVa, outputBase, bases,
                               if image.format.Pe32? then 0x3000_0000 else 0x2_4000_0000));
  }

  // ---- the bases are always three, distinct and usable ----

  ghost predicate Distinct(bases: seq<U64>) {
    forall i, j :: 0 <= i < j < |bases| ==> bases[i] != bases[j]
  }

  lemma {:induction false} FilledIsDistinct(outputBase: U64, candidates: seq<U64>)
    requires outputBase != 0
    ensures Distinct(Filled(outputBase, candidates))
    ensures forall b :: b in Filled(outputBase, candidates) ==> b != 0 && (b == outputBase || b in candidates)
  {
    if candidates != [] {
      FilledIsDistinct(outputBase, candidates[..|candidates| - 1]);
    }
  }

  /** Each distinct nonzero candidate adds a base, except the output base itself. */
  lemma {:induction false} FilledEnough(outputBase: U64, candidates: seq<U64>)
    requires outputBase != 0 && Distinct(candidates) && 0 !in candidates
    ensures |Filled(outputBase, candidates)| >= Min(CAPTURES, |candidates| + if outputBase in candidates then 0 else 1)
  {
    if candidates != [] {
      var rest, c := candidates[..|candidates| - 1], candidates[|candidates| - 1];
      assert Distinct(rest);
      FilledEnough(outputBase, rest);
      FilledIsDistinct(outputBase, rest);
      assert c !in rest;
    }
  }

  lemma OutputBaseFits(image: Layout)
    requires Parser.Parsed(image)
    ensures OutputBase(image) != 0 && image.format.AddressFits(OutputBase(image))
  {
    hide Parser.OrderedFrom, Alignment.IsPowerOfTwo, PeFormat.Has;
  }

  lemma BaseLists()
    ensures Distinct(EXECUTABLE_BASES_32) && Distinct(BASES_64) && Distinct(LIBRARY_BASES_32)
    ensures forall b :: b in EXECUTABLE_BASES_32 || b in LIBRARY_BASES_32 ==> 0 < b < 0x1_0000_0000
    ensures forall b :: b in BASES_64 ==> 0 < b
  {
  }

  ghost predicate Usable(format: Format, bases: seq<U64>) {
    |bases| == CAPTURES && Distinct(bases) && forall b :: b in bases ==> b != 0 && format.AddressFits(b)
  }

  lemma FilledIsUsable(format: Format, base: U64, candidates: seq<U64>)
    requires base != 0 && format.AddressFits(base) && Distinct(candidates) && |candidates| >= CAPTURES
    requires forall b :: b in candidates ==> b != 0 && format.AddressFits(b)
    ensures Usable(format, Filled(base, candidates))
  {
    FilledEnough(base, candidates);
    FilledIsDistinct(base, candidates);
  }

  /** Every supported image with relocations gets a plan, and its three capture
      bases are distinct, nonzero and addressable in its format. */
  lemma CaptureBasesAreDistinct(image: Layout)
    requires Parser.Parsed(image) && image.sourceLoadPolicy.hasRelocations
    ensures Outcome(image, true).Some?
    ensures Usable(image.format, Outcome(image, true).value.captureBases)
  {
    hide Filled, Parser.Parsed, OutputBase, Usable, Distinct;
    var base := OutputBase(image);
    OutputBaseFits(image);
    BaseLists();
    if image.format.Pe64? {
      FilledIsUsable(image.format, base, BASES_64);
      UsableLength(image.format, Filled(base, BASES_64));
    } else {
      FilledIsUsable(image.format, base, EXECUTABLE_BASES_32);
      UsableLength(image.format, Filled(base, EXECUTABLE_BASES_32));
      LibraryUsable(image.format);
    }
  }

  lemma UsableLength(format: Format, bases: seq<U64>)
    requires Usable(format, bases)
    ensures |bases| == CAPTURES
  {
  }

  lemma LibraryUsable(format: Format)
    requires format.Pe32?
    ensures Usable(format, LIBRARY_BASES_32)
  {
    BaseLists();
  }

  /** Snapshots taken at the planned bases, long enough and of an image that has
      contents after its headers, pass every input check of relocation inference. */
  lemma PlannedSnapshotsAreAccepted(image: Layout, snapshots: seq<Relocations.Snapshot>)
    requires Parser.Parsed(image) && image.sourceLoadPolicy.hasRelocations && image.sizeOfHeaders < image.sizeOfImage
    requires Outcome(image, true).Some? && |snapshots| == CAPTURES
    requires forall k :: 0 <= k < CAPTURES ==>
      snapshots[k].loadedBase == Outcome(image, true).value.captureBases[k] && image.sizeOfImage <= |snapshots[k].bytes|
    ensures RelocationLaws.Accepted(snapshots, image, Outcome(image, true).value.outputBase)
  {
    hide Filled, Parser.OrderedFrom, Alignment.IsPowerOfTwo, PeFormat.Has;
    CaptureBasesAreDistinct(image);
    var bases := Outcome(image, true).value.captureBases;
    forall p, k | 0 <= p < k < 3 ensures snapshots[p].loadedBase != snapshots[k].loadedBase {
      assert bases[p] != bases[k];
    }
    forall k | 0 <= k < 3 ensures snapshots[k].loadedBase != 0 && image.format.AddressFits(snapshots[k].loadedBase) {
      assert bases[k] in bases;
    }
    OutputBaseFits(image);
    assert Outcome(image, true).value.outputBase == OutputBase(image);
  }
}
