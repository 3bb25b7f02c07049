/** Finds where a recovered ELF image was mapped. */
module LoadBiasResolver {
  import opened Bytes
  import opened ElfFormat

  const HEADER_BYTES := 16

  datatype Mapping = Mapping(begin: U64, end: U64, readable: bool, writable: bool, executable: bool) {
    predicate Holds(a: int) {
      begin <= a < end
    }

    /** Executable loads need execute permission; loads without write permission must not be writable. */
    predicate Suits(h: ProgramHeader) {
      readable && (h.Executable() ==> executable) && (!h.Writable() ==> !writable)
    }
  }

  function FirstAt(mappings: seq<Mapping>, a: int): (m: Option<Mapping>)
    ensures m.Some? ==> m.value.Holds(a) && m.value in mappings
  {
    if mappings == [] then None else if mappings[0].Holds(a) then Some(mappings[0]) else FirstAt(mappings[1..], a)
  }

  /** The walk from `cursor` to `end`, one mapping at a time. */
  predicate Walked(mappings: seq<Mapping>, cursor: nat, end: nat, h: ProgramHeader)
    decreases end - cursor
  {
    cursor >= end
    || (var m := FirstAt(mappings, cursor);
        m.Some? && m.value.Suits(h) && Walked(mappings, Min(end, m.value.end), end, h))
  }

  /** The walk; its cursor grows with every step. */
  method RangeCovered(mappings: seq<Mapping>, begin: nat, end: nat, h: ProgramHeader) returns (covered: bool)
    ensures covered == Walked(mappings, begin, end, h)
  {
    var cursor := begin;
    while cursor < end
      invariant Walked(mappings, begin, end, h) == Walked(mappings, cursor, end, h)
      decreases end - cursor
    {
      var m := FirstAt(mappings, cursor);
      if m == None || !m.value.Suits(h) {
        return false;
      }
      cursor := Min(end, m.value.end);
    }
    return true;
  }

  predicate LoadCovered(mappings: seq<Mapping>, h: ProgramHeader, bias: U64) {
    h.kind != PT_LOAD || h.fileSize == 0
    || (bias + h.virtualAddress + h.fileSize <= U64_MAX
        && Walked(mappings, bias + h.virtualAddress, bias + h.virtualAddress + h.fileSize, h))
  }

  predicate AllCovered(mappings: seq<Mapping>, headers: seq<ProgramHeader>, bias: U64) {
    forall k :: 0 <= k < |headers| ==> LoadCovered(mappings, headers[k], bias)
  }

  /** A load that holds the ELF header. */
  predicate Anchor(h: ProgramHeader, headerAddress: U64) {
    h.kind == PT_LOAD && h.fileOffset == 0 && h.fileSize >= HEADER_BYTES && headerAddress >= h.virtualAddress
  }

  /** Anchor `k` suggests `bias`, and all loads are mapped there. */
  predicate Suggests(mappings: seq<Mapping>, headers: seq<ProgramHeader>, headerAddress: U64, k: nat, bias: U64)
    requires k < |headers|
  {
    Anchor(headers[k], headerAddress) && bias == headerAddress - headers[k].virtualAddress && AllCovered(mappings, headers, bias)
  }

  /** `bias` is suggested by one of the first `n` anchors, and no other bias is. */
  ghost predicate OnlyBias(mappings: seq<Mapping>, headers: seq<ProgramHeader>, headerAddress: U64, n: nat, bias: U64)
    requires n <= |headers|
  {
    (exists k :: 0 <= k < n && Suggests(mappings, headers, headerAddress, k, bias))
    && forall k, other :: 0 <= k < n && Suggests(mappings, headers, headerAddress, k, other) ==> other == bias
  }

  method CoversAll(mappings: seq<Mapping>, headers: seq<ProgramHeader>, bias: U64) returns (covered: bool)
    ensures covered == AllCovered(mappings, headers, bias)
  {
    hide Walked;
    var k := 0;
    while k < |headers|
      invariant 0 <= k <= |headers| && forall i :: 0 <= i < k ==> LoadCovered(mappings, headers[i], bias)
    {
      var h := headers[k];
      if h.kind == PT_LOAD && h.fileSize != 0 {
        if h.virtualAddress > U64_MAX - bias || h.fileSize > U64_MAX - bias - h.virtualAddress {
          return false;
        }
        var begin := bias + h.virtualAddress;
        var walked := RangeCovered(mappings, begin, begin + h.fileSize, h);
        if !walked {
          return false;
        }
      }
      k := k + 1;
    }
    return true;
  }

  /** The one bias that places every load on suitable mappings, if there is exactly one. */
  method Resolve(headers: seq<ProgramHeader>, headerAddress: U64, mappings: seq<Mapping>) returns (resolved: Option<U64>)
    ensures forall bias: U64 :: resolved == Some(bias) <==> OnlyBias(mappings, headers, headerAddress, |headers|, bias)
  {
    hide AllCovered;
    resolved := None;
    var k := 0;
    while k < |headers|
      invariant 0 <= k <= |headers|
      invariant resolved == None ==> forall i, b :: 0 <= i < k ==> !Suggests(mappings, headers, headerAddress, i, b)
      invariant resolved.Some? ==> OnlyBias(mappings, headers, headerAddress, k, resolved.value)
    {
      var h := headers[k];
      if Anchor(h, headerAddress) {
        var candidate: U64 := headerAddress - h.virtualAddress;
        var covered := CoversAll(mappings, headers, candidate);
        if covered {
          assert Suggests(mappings, headers, headerAddress, k, candidate);
          if resolved.Some? && resolved.value != candidate {
            return None;
          }
          resolved := Some(candidate);
        }
      }
      k := k + 1;
    }
  }

  // ---- what being covered means ----

  ghost predicate Disjoint(mappings: seq<Mapping>) {
    forall i, j :: 0 <= i < j < |mappings| ==> mappings[i].end <= mappings[j].begin || mappings[j].end <= mappings[i].begin
  }

  /** The address lies in a mapping of suitable permissions. */
  ghost predicate Held(mappings: seq<Mapping>, a: int, h: ProgramHeader) {
    exists k :: 0 <= k < |mappings| && mappings[k].Holds(a) && mappings[k].Suits(h)
  }

  ghost predicate AllHeld(mappings: seq<Mapping>, begin: nat, end: nat, h: ProgramHeader) {
    forall a :: begin <= a < end ==> Held(mappings, a, h)
  }

  /** Wherever some mapping suits, the first mapping in the list does. */
  ghost predicate FirstSuits(mappings: seq<Mapping>, h: ProgramHeader) {
    forall a :: Held(mappings, a, h) ==> FirstAt(mappings, a).Some? && FirstAt(mappings, a).value.Suits(h)
  }

  /** Whatever the mappings, a range that the walk accepts is suitably mapped. */
  lemma {:induction false} WalkedIsHeld(mappings: seq<Mapping>, begin: nat, end: nat, h: ProgramHeader)
    requires Walked(mappings, begin, end, h)
    ensures AllHeld(mappings, begin, end, h)
    decreases end - begin
  {
    if begin < end {
      var m := FirstAt(mappings, begin).value;
      var k :| 0 <= k < |mappings| && mappings[k] == m;
      WalkedIsHeld(mappings, Min(end, m.end), end, h);
      forall a | begin <= a < end ensures Held(mappings, a, h) {
        assert a < m.end ==> mappings[k].Holds(a);
      }
    }
  }

  lemma {:induction false} HeldIsWalked(mappings: seq<Mapping>, begin: nat, end: nat, h: ProgramHeader)
    requires FirstSuits(mappings, h) && AllHeld(mappings, begin, end, h)
    ensures Walked(mappings, begin, end, h)
    decreases end - begin
  {
    hide Held;
    if begin < end {
      assert Held(mappings, begin, h);
      HeldIsWalked(mappings, Min(end, FirstAt(mappings, begin).value.end), end, h);
    }
  }

  /** The walk decides suitable mapping for every range exactly when no
      unsuitable mapping hides a suitable one behind it in the list. */
  lemma WalkIsExactIff(mappings: seq<Mapping>, h: ProgramHeader)
    ensures (forall begin: nat, end: nat :: Walked(mappings, begin, end, h) <==> AllHeld(mappings, begin, end, h))
            <==> FirstSuits(mappings, h)
  {
    hide Held;
    if FirstSuits(mappings, h) {
      forall begin: nat, end: nat
        ensures Walked(mappings, begin, end, h) <==> AllHeld(mappings, begin, end, h)
      {
        if Walked(mappings, begin, end, h) {
          WalkedIsHeld(mappings, begin, end, h);
        }
        if AllHeld(mappings, begin, end, h) {
          HeldIsWalked(mappings, begin, end, h);
        }
      }
    } else {
      var a :| Held(mappings, a, h) && (FirstAt(mappings, a).None? || !FirstAt(mappings, a).value.Suits(h));
      HeldIsAddress(mappings, a, h);
      var begin: nat := a;
      var end: nat := a + 1;
      assert !Walked(mappings, begin, end, h) && AllHeld(mappings, begin, end, h);
    }
  }

  lemma HeldIsAddress(mappings: seq<Mapping>, a: int, h: ProgramHeader)
    requires Held(mappings, a, h)
    ensures a >= 0
  {
  }

  /** Disjoint mappings hide nothing. */
  lemma DisjointFirstSuits(mappings: seq<Mapping>, h: ProgramHeader)
    requires Disjoint(mappings)
    ensures FirstSuits(mappings, h)
  {
    hide Disjoint;
    forall a | Held(mappings, a, h) ensures FirstAt(mappings, a).Some? && FirstAt(mappings, a).value.Suits(h) {
      if FirstAt(mappings, a).None? {
        NothingAt(mappings, a, h);
      } else {
        var k :| 0 <= k < |mappings| && mappings[k] == FirstAt(mappings, a).value;
        HeldThrough(mappings, k, h);
      }
    }
  }

  /** Over disjoint mappings the walk succeeds exactly when every address of the
      range lies in a mapping of suitable permissions. */
  lemma CoveredExactly(mappings: seq<Mapping>, begin: nat, end: nat, h: ProgramHeader)
    requires Disjoint(mappings)
    ensures Walked(mappings, begin, end, h) <==> AllHeld(mappings, begin, end, h)
  {
    hide Disjoint, Held, FirstSuits;
    DisjointFirstSuits(mappings, h);
    WalkIsExactIff(mappings, h);
  }

  /** Inside one of the disjoint mappings only that mapping's permissions count. */
  lemma HeldThrough(mappings: seq<Mapping>, k: nat, h: ProgramHeader)
    requires Disjoint(mappings) && k < |mappings|
    ensures forall a :: mappings[k].Holds(a) ==> (Held(mappings, a, h) <==> mappings[k].Suits(h))
  {
  }

  lemma NothingAt(mappings: seq<Mapping>, a: int, h: ProgramHeader)
    requires FirstAt(mappings, a).None?
    ensures !Held(mappings, a, h)
  {
    if mappings != [] {
      NothingAt(mappings[1..], a, h);
      assert forall k :: 1 <= k < |mappings| ==> mappings[k] == mappings[1..][k - 1];
    }
  }

  /** Every file byte of the load lies on a suitable mapping, without wrapping. */
  ghost predicate LoadPlaced(mappings: seq<Mapping>, h: ProgramHeader, bias: U64) {
    bias + h.virtualAddress + h.fileSize <= U64_MAX
    && AllHeld(mappings, bias + h.virtualAddress, bias + h.virtualAddress + h.fileSize, h)
  }

  ghost predicate Placed(mappings: seq<Mapping>, headers: seq<ProgramHeader>, bias: U64) {
    forall k :: 0 <= k < |headers| && Filed(headers[k]) ==> LoadPlaced(mappings, headers[k], bias)
  }

  ghost predicate Filed(h: ProgramHeader) {
    h.kind == PT_LOAD && h.fileSize != 0
  }

  /** A covered bias places all loads; where no suitable mapping is hidden, the
      covering test and placement are the same, so `Resolve` returns the only
      bias that an anchor suggests and that places all loads. */
  lemma CoveredIsPlaced(mappings: seq<Mapping>, headers: seq<ProgramHeader>, bias: U64)
    ensures AllCovered(mappings, headers, bias) ==> Placed(mappings, headers, bias)
    ensures (forall k :: 0 <= k < |headers| && Filed(headers[k]) ==> FirstSuits(mappings, headers[k])) ==>
      (AllCovered(mappings, headers, bias) <==> Placed(mappings, headers, bias))
  {
    hide Walked, Held, FirstSuits;
    forall k | 0 <= k < |headers| && Filed(headers[k])
      ensures LoadCovered(mappings, headers[k], bias) ==> LoadPlaced(mappings, headers[k], bias)
      ensures FirstSuits(mappings, headers[k]) && LoadPlaced(mappings, headers[k], bias) ==> LoadCovered(mappings, headers[k], bias)
    {
      var begin := bias + headers[k].virtualAddress;
      var end := begin + headers[k].fileSize;
      if LoadCovered(mappings, headers[k], bias) {
        WalkedIsHeld(mappings, begin, end, headers[k]);
      } else if FirstSuits(mappings, headers[k]) && LoadPlaced(mappings, headers[k], bias) {
        HeldIsWalked(mappings, begin, end, headers[k]);
      }
    }
  }

  /** With overlapping mappings the walk can refuse a range whose every address
      lies in a suitable mapping: an unsuitable one earlier in the list hides it. */
  lemma OverlapHidesPermissions()
    ensures var code := ProgramHeader(PT_LOAD, 5, 0, 0, 0, 2, 2, 1);
            var mappings := [Mapping(0, 1, true, false, true), Mapping(1, 2, true, false, false), Mapping(0, 2, true, false, true)];
            Held(mappings, 1, code) && Held(mappings, 0, code) && !Walked(mappings, 0, 2, code)
  {
    var code := ProgramHeader(PT_LOAD, 5, 0, 0, 0, 2, 2, 1);
    var mappings := [Mapping(0, 1, true, false, true), Mapping(1, 2, true, false, false), Mapping(0, 2, true, false, true)];
    assert mappings[2].Holds(1) && mappings[2].Suits(code);
    assert mappings[0].Holds(0) && mappings[0].Suits(code);
    assert mappings[1..][0] == mappings[1];
    assert FirstAt(mappings, 1) == FirstAt(mappings[1..], 1) == Some(mappings[1]);
    assert !Walked(mappings, 1, 2, code);
    assert FirstAt(mappings, 0) == Some(mappings[0]);
  }
}
