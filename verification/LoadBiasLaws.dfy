/** When a load bias is found, in program-header numbers and stops of the walk. */
module LoadBiasLaws {
  import opened Bytes
  import opened ElfFormat
  import opened LoadBiasResolver

  /** The first mapping in the list that holds the address is readable, executable where
      bit 0 of the flags asks for it, and writable only where bit 1 does; it ends at `end`. */
  ghost predicate StandsOn(mappings: seq<Mapping>, a: nat, flags: nat, end: nat) {
    exists k :: 0 <= k < |mappings| && mappings[k].begin <= a < mappings[k].end == end
                && (forall j :: 0 <= j < k ==> a < mappings[j].begin || mappings[j].end <= a)
                && mappings[k].readable && (flags % 2 == 1 ==> mappings[k].executable)
                && (flags / 2 % 2 == 0 ==> !mappings[k].writable)
  }

  /** From the first address to the last, each stop the end of the mapping before it. */
  ghost predicate Stops(mappings: seq<Mapping>, flags: nat, from: nat, to: nat, stops: seq<nat>) {
    |stops| > 0 && stops[0] == from && stops[|stops| - 1] >= to
    && forall i :: 0 <= i < |stops| - 1 ==> stops[i] < to && StandsOn(mappings, stops[i], flags, stops[i + 1])
  }

  ghost predicate Crossed(mappings: seq<Mapping>, flags: nat, from: nat, to: nat) {
    exists stops :: Stops(mappings, flags, from, to, stops)
  }

  /** Every PT_LOAD with file bytes is mapped for its permissions, without overflow. */
  ghost predicate Mapped(mappings: seq<Mapping>, headers: seq<ProgramHeader>, bias: int) {
    forall k :: 0 <= k < |headers| && headers[k].kind == 1 && headers[k].fileSize > 0 ==>
      var from := bias + headers[k].virtualAddress;
      0 <= from && from + headers[k].fileSize <= 0xffff_ffff_ffff_ffff
      && Crossed(mappings, headers[k].flags, from, from + headers[k].fileSize)
  }

  /** A PT_LOAD at file offset 0 of 16 bytes or more puts the file header there. */
  ghost predicate Carries(h: ProgramHeader, headerAddress: int, bias: int) {
    h.kind == 1 && h.fileOffset == 0 && h.fileSize >= 16 && bias >= 0 && headerAddress == bias + h.virtualAddress
  }

  ghost predicate Proposed(mappings: seq<Mapping>, headers: seq<ProgramHeader>, headerAddress: int, bias: int) {
    Mapped(mappings, headers, bias) && exists k :: 0 <= k < |headers| && Carries(headers[k], headerAddress, bias)
  }

  // ---- the model's words ----

  lemma {:induction false} FirstIs(mappings: seq<Mapping>, a: nat, k: nat)
    requires k < |mappings| && mappings[k].begin <= a < mappings[k].end
    requires forall j :: 0 <= j < k ==> a < mappings[j].begin || mappings[j].end <= a
    ensures FirstAt(mappings, a) == Some(mappings[k])
  {
    if k > 0 {
      FirstIs(mappings[1..], a, k - 1);
    }
  }

  lemma {:induction false} FirstStands(mappings: seq<Mapping>, a: nat) returns (k: nat)
    requires FirstAt(mappings, a).Some?
    ensures k < |mappings| && FirstAt(mappings, a).value == mappings[k] && mappings[k].begin <= a < mappings[k].end
    ensures forall j :: 0 <= j < k ==> a < mappings[j].begin || mappings[j].end <= a
  {
    if mappings[0].Holds(a) {
      k := 0;
    } else {
      var n := FirstStands(mappings[1..], a);
      k := n + 1;
      forall j | 0 <= j < k ensures a < mappings[j].begin || mappings[j].end <= a {
        if j > 0 {
          assert mappings[j] == mappings[1..][j - 1];
        }
      }
    }
  }

  lemma StandsIs(mappings: seq<Mapping>, a: nat, h: ProgramHeader, end: nat)
    ensures StandsOn(mappings, a, h.flags, end)
            <==> FirstAt(mappings, a).Some? && FirstAt(mappings, a).value.Suits(h) && FirstAt(mappings, a).value.end == end
  {
    if FirstAt(mappings, a).Some? {
      var k := FirstStands(mappings, a);
      if FirstAt(mappings, a).value.Suits(h) && FirstAt(mappings, a).value.end == end {
        assert mappings[k].begin <= a < mappings[k].end == end;
      }
    }
    if StandsOn(mappings, a, h.flags, end) {
      var k: nat :| k < |mappings| && mappings[k].begin <= a < mappings[k].end == end
                    && (forall j :: 0 <= j < k ==> a < mappings[j].begin || mappings[j].end <= a)
                    && mappings[k].readable && (h.flags % 2 == 1 ==> mappings[k].executable)
                    && (h.flags / 2 % 2 == 0 ==> !mappings[k].writable);
      FirstIs(mappings, a, k);
    }
  }

  lemma {:induction false} WalkIs(mappings: seq<Mapping>, from: nat, to: nat, h: ProgramHeader)
    ensures Walked(mappings, from, to, h) <==> Crossed(mappings, h.flags, from, to)
    decreases if from < to then to - from else 0
  {
    hide StandsOn, FirstAt;
    if from >= to {
      assert Stops(mappings, h.flags, from, to, [from]);
    } else {
      var m := FirstAt(mappings, from);
      if Walked(mappings, from, to, h) {
        StandsIs(mappings, from, h, m.value.end);
        if m.value.end >= to {
          assert Stops(mappings, h.flags, from, to, [from, m.value.end]);
        } else {
          WalkIs(mappings, m.value.end, to, h);
          var rest :| Stops(mappings, h.flags, m.value.end, to, rest);
          Prepend(mappings, h.flags, from, to, rest);
        }
      }
      if stops :| Stops(mappings, h.flags, from, to, stops) {
        StandsIs(mappings, from, h, stops[1]);
        if stops[1] < to {
          assert Stops(mappings, h.flags, stops[1], to, stops[1..]);
          WalkIs(mappings, stops[1], to, h);
        }
      }
    }
  }

  lemma Prepend(mappings: seq<Mapping>, flags: nat, from: nat, to: nat, rest: seq<nat>)
    requires from < to && |rest| > 0 && StandsOn(mappings, from, flags, rest[0]) && Stops(mappings, flags, rest[0], to, rest)
    ensures Stops(mappings, flags, from, to, [from] + rest)
  {
    hide StandsOn;
    var stops := [from] + rest;
    forall i | 0 <= i < |stops| - 1 ensures stops[i] < to && StandsOn(mappings, stops[i], flags, stops[i + 1]) {
      if i > 0 {
        assert stops[i] == rest[i - 1] && stops[i + 1] == rest[i];
      }
    }
  }

  lemma MappedIs(mappings: seq<Mapping>, headers: seq<ProgramHeader>, bias: U64)
    ensures AllCovered(mappings, headers, bias) <==> Mapped(mappings, headers, bias)
  {
    hide Walked, Crossed;
    forall k | 0 <= k < |headers|
      ensures LoadCovered(mappings, headers[k], bias)
              <==> (headers[k].kind == 1 && headers[k].fileSize > 0 ==>
                      bias + headers[k].virtualAddress + headers[k].fileSize <= 0xffff_ffff_ffff_ffff
                      && Crossed(mappings, headers[k].flags, bias + headers[k].virtualAddress,
                                 bias + headers[k].virtualAddress + headers[k].fileSize))
    {
      var from := bias + headers[k].virtualAddress;
      WalkIs(mappings, from, from + headers[k].fileSize, headers[k]);
    }
  }

  lemma SuggestionIs(mappings: seq<Mapping>, headers: seq<ProgramHeader>, headerAddress: U64, k: nat, bias: U64)
    requires k < |headers|
    ensures Suggests(mappings, headers, headerAddress, k, bias)
            <==> Carries(headers[k], headerAddress, bias) && Mapped(mappings, headers, bias)
  {
    hide AllCovered, Mapped;
    MappedIs(mappings, headers, bias);
  }

  /** The bias that is resolved is the only one at which a PT_LOAD carries the file header
      to its address and every PT_LOAD crosses suitable mappings from its first file byte to
      its last. */
  lemma BiasIsExact(headers: seq<ProgramHeader>, headerAddress: U64, mappings: seq<Mapping>, bias: U64)
    ensures OnlyBias(mappings, headers, headerAddress, |headers|, bias)
            <==> Proposed(mappings, headers, headerAddress, bias)
                 && forall other: U64 :: Proposed(mappings, headers, headerAddress, other) ==> other == bias
  {
    hide Suggests, Proposed;
    forall other: U64
      ensures Proposed(mappings, headers, headerAddress, other)
              <==> exists k :: 0 <= k < |headers| && Suggests(mappings, headers, headerAddress, k, other)
    {
      ProposalIs(mappings, headers, headerAddress, other);
    }
    forall k: nat, other: U64 | k < |headers| && Suggests(mappings, headers, headerAddress, k, other)
      ensures Proposed(mappings, headers, headerAddress, other)
    {
      ProposalIs(mappings, headers, headerAddress, other);
    }
  }

  lemma ProposalIs(mappings: seq<Mapping>, headers: seq<ProgramHeader>, headerAddress: U64, bias: U64)
    ensures Proposed(mappings, headers, headerAddress, bias)
            <==> exists k :: 0 <= k < |headers| && Suggests(mappings, headers, headerAddress, k, bias)
  {
    hide Suggests, Carries, Mapped;
    if Proposed(mappings, headers, headerAddress, bias) {
      var k: nat :| k < |headers| && Carries(headers[k], headerAddress, bias);
      SuggestionIs(mappings, headers, headerAddress, k, bias);
    }
    if k: nat :| k < |headers| && Suggests(mappings, headers, headerAddress, k, bias) {
      SuggestionIs(mappings, headers, headerAddress, k, bias);
    }
  }
}
