/** Software breakpoints in a debuggee: a trap byte stands over each original
    byte, and restoring gives the original back. */
module SoftwareBreakpointSet {
  import opened Bytes

  const TRAP: Byte := 0xcc

  /** The debuggee's memory. Reads of unmapped addresses and writes to
      addresses that cannot be written fail. */
  class Memory {
    var cells: map<U64, Byte>
    var writable: set<U64>

    constructor (cells: map<U64, Byte>, writable: set<U64>)
      ensures this.cells == cells && this.writable == writable
    {
      this.cells, this.writable := cells, writable;
    }

    method Read(address: U64) returns (value: Option<Byte>)
      ensures value == if address in cells then Some(cells[address]) else None
    {
      value := if address in cells then Some(cells[address]) else None;
    }

    method Write(address: U64, value: Byte) returns (written: bool)
      modifies this`cells
      ensures written <==> address in old(cells) && address in writable
      ensures cells == if written then old(cells)[address := value] else old(cells)
    {
      written := address in cells && address in writable;
      if written {
        cells := cells[address := value];
      }
    }
  }

  datatype Breakpoint = Breakpoint(address: U64, id: U32, original: Byte)

  /** The breakpoint recorded at `address`. */
  function EntryAt(breakpoints: seq<Breakpoint>, address: U64): Option<Breakpoint> {
    if breakpoints == [] then None
    else if breakpoints[0].address == address then Some(breakpoints[0])
    else EntryAt(breakpoints[1..], address)
  }

  predicate Installed(breakpoints: seq<Breakpoint>, address: U64) {
    EntryAt(breakpoints, address).Some?
  }

  /** A trap stands at every recorded address; the debuggee may overwrite one at any time. */
  ghost predicate TrapsStand(cells: map<U64, Byte>, breakpoints: seq<Breakpoint>) {
    forall k :: 0 <= k < |breakpoints| ==> breakpoints[k].address in cells && cells[breakpoints[k].address] == TRAP
  }

  /** Each address is recorded once. */
  ghost predicate Distinct(breakpoints: seq<Breakpoint>) {
    forall i, j :: 0 <= i < j < |breakpoints| ==> breakpoints[i].address != breakpoints[j].address
  }

  /** What the debuggee's memory would hold at `a` without any breakpoint. */
  ghost function Underneath(cells: map<U64, Byte>, breakpoints: seq<Breakpoint>, a: U64): Option<Byte> {
    var entry := EntryAt(breakpoints, a);
    if entry.Some? then Some(entry.value.original) else if a in cells then Some(cells[a]) else None
  }

  // ---- looking up ----

  lemma {:induction false} EntryOfAppend(breakpoints: seq<Breakpoint>, b: Breakpoint, a: U64)
    ensures EntryAt(breakpoints + [b], a)
            == if EntryAt(breakpoints, a).Some? then EntryAt(breakpoints, a) else if b.address == a then Some(b) else None
  {
    if breakpoints == [] {
      assert breakpoints + [b] == [b] && [b][1..] == [];
    } else {
      assert (breakpoints + [b])[1..] == breakpoints[1..] + [b];
      EntryOfAppend(breakpoints[1..], b, a);
    }
  }

  lemma {:induction false} EntryIsListed(breakpoints: seq<Breakpoint>, a: U64)
    ensures EntryAt(breakpoints, a).Some? ==> EntryAt(breakpoints, a).value in breakpoints
                                              && EntryAt(breakpoints, a).value.address == a
    ensures EntryAt(breakpoints, a).None? ==> forall k :: 0 <= k < |breakpoints| ==> breakpoints[k].address != a
  {
    if breakpoints != [] && breakpoints[0].address != a {
      EntryIsListed(breakpoints[1..], a);
      if EntryAt(breakpoints, a).None? {
        forall k | 0 <= k < |breakpoints| ensures breakpoints[k].address != a {
          assert k > 0 ==> breakpoints[k] == breakpoints[1..][k - 1];
        }
      }
    }
  }

  function Without(breakpoints: seq<Breakpoint>, k: nat): seq<Breakpoint>
    requires k < |breakpoints|
  {
    breakpoints[..k] + breakpoints[k + 1..]
  }

  lemma {:induction false} EntryOfRest(breakpoints: seq<Breakpoint>, k: nat, a: U64)
    requires Distinct(breakpoints) && k < |breakpoints|
    ensures EntryAt(breakpoints, breakpoints[k].address) == Some(breakpoints[k])
    ensures EntryAt(Without(breakpoints, k), a) == if a == breakpoints[k].address then None else EntryAt(breakpoints, a)
    decreases k
  {
    var rest := Without(breakpoints, k);
    if k == 0 {
      assert rest == breakpoints[1..];
      EntryIsListed(rest, a);
      assert forall i :: 0 <= i < |rest| ==> rest[i] == breakpoints[i + 1];
    } else {
      assert Distinct(breakpoints[1..]);
      assert rest[1..] == Without(breakpoints[1..], k - 1) && rest[0] == breakpoints[0];
      EntryOfRest(breakpoints[1..], k - 1, a);
    }
  }

  // ---- conservation ----

  /** Setting a trap over the byte it records hides nothing. */
  lemma InstallConserves(cells: map<U64, Byte>, breakpoints: seq<Breakpoint>, address: U64, id: U32)
    requires Distinct(breakpoints) && address in cells && !Installed(breakpoints, address)
    ensures var c, b := cells[address := TRAP], breakpoints + [Breakpoint(address, id, cells[address])];
            Distinct(b) && Installed(b, address) && (TrapsStand(cells, breakpoints) ==> TrapsStand(c, b))
            && forall a :: Underneath(c, b, a) == Underneath(cells, breakpoints, a)
  {
    hide EntryAt;
    var b := breakpoints + [Breakpoint(address, id, cells[address])];
    EntryIsListed(breakpoints, address);
    forall a: U64 ensures Underneath(cells[address := TRAP], b, a) == Underneath(cells, breakpoints, a) {
      EntryOfAppend(breakpoints, Breakpoint(address, id, cells[address]), a);
    }
    EntryOfAppend(breakpoints, Breakpoint(address, id, cells[address]), address);
  }

  /** Writing the recorded byte back and forgetting the breakpoint hides nothing. */
  lemma RestoreConserves(cells: map<U64, Byte>, breakpoints: seq<Breakpoint>, k: nat)
    requires Distinct(breakpoints) && k < |breakpoints|
    ensures var c, b := cells[breakpoints[k].address := breakpoints[k].original], Without(breakpoints, k);
            Distinct(b) && Installed(breakpoints, breakpoints[k].address)
            && (TrapsStand(cells, breakpoints) ==> TrapsStand(c, b))
            && (forall a :: Underneath(c, b, a) == Underneath(cells, breakpoints, a))
            && forall a :: EntryAt(b, a) == if a == breakpoints[k].address then None else EntryAt(breakpoints, a)
  {
    hide EntryAt;
    var b := Without(breakpoints, k);
    assert forall i :: 0 <= i < |b| ==> b[i] == breakpoints[if i < k then i else i + 1];
    forall a: U64
      ensures EntryAt(b, a) == if a == breakpoints[k].address then None else EntryAt(breakpoints, a)
    {
      EntryOfRest(breakpoints, k, a);
    }
    EntryOfRest(breakpoints, k, 0);
  }

  /** Forgetting a breakpoint without writing leaves the others recorded. */
  lemma DropKeeps(breakpoints: seq<Breakpoint>)
    requires Distinct(breakpoints) && breakpoints != []
    ensures var n := |breakpoints| - 1;
            Distinct(breakpoints[..n])
            && forall a :: EntryAt(breakpoints[..n], a) == if a == breakpoints[n].address then None else EntryAt(breakpoints, a)
  {
    hide EntryAt;
    var n := |breakpoints| - 1;
    assert Without(breakpoints, n) == breakpoints[..n];
    forall a: U64
      ensures EntryAt(breakpoints[..n], a) == if a == breakpoints[n].address then None else EntryAt(breakpoints, a)
    {
      EntryOfRest(breakpoints, n, a);
    }
  }

  // ---- the set ----

  class BreakpointSet {
    const process: Memory
    var breakpoints: seq<Breakpoint>

    ghost predicate Valid()
      reads this
    {
      Distinct(breakpoints)
    }

    /** The byte the debuggee would see at `a` without breakpoints. */
    ghost function Original(a: U64): Option<Byte>
      reads this, process
    {
      Underneath(process.cells, breakpoints, a)
    }

    constructor (process: Memory)
      ensures Valid() && this.process == process && breakpoints == []
    {
      this.process, breakpoints := process, [];
    }

    /** Sets a trap unless one is already there. */
    method Install(address: U64, id: U32) returns (success: bool)
      requires Valid()
      modifies this, process`cells
      ensures Valid() && forall a :: Original(a) == old(Original(a))
      ensures success <==> old(Installed(breakpoints, address)) || (address in old(process.cells) && address in process.writable)
      ensures breakpoints == if success && !old(Installed(breakpoints, address))
                             then old(breakpoints) + [Breakpoint(address, id, old(process.cells)[address])]
                             else old(breakpoints)
      ensures process.cells == if success && !old(Installed(breakpoints, address))
                               then old(process.cells)[address := TRAP] else old(process.cells)
      ensures old(TrapsStand(process.cells, breakpoints)) ==> TrapsStand(process.cells, breakpoints)
    {
      hide EntryAt, Distinct, TrapsStand, Underneath;
      var found := Find(address);
      if found.Some? {
        return true;
      }
      var original := process.Read(address);
      if original.None? {
        return false;
      }
      InstallConserves(process.cells, breakpoints, address, id);
      success := process.Write(address, TRAP);
      if success {
        breakpoints := breakpoints + [Breakpoint(address, id, original.value)];
      }
    }

    method Find(address: U64) returns (id: Option<U32>)
      ensures var entry := EntryAt(breakpoints, address); id == if entry.Some? then Some(entry.value.id) else None
    {
      var k := 0;
      assert breakpoints[0..] == breakpoints;
      while k < |breakpoints|
        invariant 0 <= k <= |breakpoints|
        invariant EntryAt(breakpoints, address) == EntryAt(breakpoints[k..], address)
      {
        if breakpoints[k].address == address {
          return Some(breakpoints[k].id);
        }
        assert breakpoints[k..][1..] == breakpoints[k + 1..];
        k := k + 1;
      }
      return None;
    }

    /** Gives the original byte back and forgets the breakpoint. */
    method Restore(address: U64) returns (success: bool)
      requires Valid()
      modifies this, process`cells
      ensures Valid() && forall a :: Original(a) == old(Original(a))
      ensures success <==> !old(Installed(breakpoints, address)) || (address in old(process.cells) && address in process.writable)
      ensures !success ==> breakpoints == old(breakpoints) && process.cells == old(process.cells)
      ensures success ==>
        forall a :: EntryAt(breakpoints, a) == if a == address then None else old(EntryAt(breakpoints, a))
      ensures |breakpoints| == |old(breakpoints)| - if success && old(Installed(breakpoints, address)) then 1 else 0
      ensures process.cells == if success && old(Installed(breakpoints, address))
                               then old(process.cells)[address := old(EntryAt(breakpoints, address)).value.original]
                               else old(process.cells)
      ensures old(TrapsStand(process.cells, breakpoints)) ==> TrapsStand(process.cells, breakpoints)
    {
      hide EntryAt, Underneath;
      var k := 0;
      while k < |breakpoints| && breakpoints[k].address != address
        invariant 0 <= k <= |breakpoints|
        invariant forall i :: 0 <= i < k ==> breakpoints[i].address != address
      {
        k := k + 1;
      }
      EntryIsListed(breakpoints, address);
      if k == |breakpoints| {
        return true;
      }
      RestoreConserves(process.cells, breakpoints, k);
      success := process.Write(address, breakpoints[k].original);
      if success {
        breakpoints := Without(breakpoints, k);
      }
    }

    /** How many addresses have a breakpoint. */
    method Count() returns (n: nat)
      requires Valid()
      ensures n == |Addresses(breakpoints)| && forall a :: a in Addresses(breakpoints) <==> Installed(breakpoints, a)
      ensures n == 0 <==> forall a :: !Installed(breakpoints, a)
    {
      hide EntryAt, Distinct;
      AddressesCounted(breakpoints);
      n := |breakpoints|;
      if n > 0 {
        LastInstalled(breakpoints);
      }
    }

    /** The destructor's loop: every breakpoint is given back, or dropped where
        the address can no longer be written. Traps that the debuggee
        overwrote are given back like the others. */
    method RestoreAll()
      requires Valid()
      modifies this, process`cells
      ensures breakpoints == []
      ensures process.cells.Keys == old(process.cells).Keys
      ensures forall a :: (a in process.cells && a in process.writable) || !old(Installed(breakpoints, a)) ==>
        Original(a) == old(Original(a))
      ensures forall a :: a in process.cells ==> Original(a) == Some(process.cells[a])
    {
      hide EntryAt, Underneath, Distinct, TrapsStand;
      while breakpoints != []
        invariant Valid()
        invariant forall a :: Installed(breakpoints, a) ==> old(Installed(breakpoints, a))
        invariant process.cells.Keys == old(process.cells).Keys
        invariant forall a :: (a in process.cells && a in process.writable) || !old(Installed(breakpoints, a)) ==>
          Original(a) == old(Original(a))
        decreases |breakpoints|
      {
        var address := breakpoints[|breakpoints| - 1].address;
        LastInstalled(breakpoints);
        var restored := Restore(address);
        if !restored {
          DropKeeps(breakpoints);
          DropUnderneath(process.cells, breakpoints);
          breakpoints := breakpoints[..|breakpoints| - 1];
        }
      }
      NothingInstalled(process.cells);
    }
  }

  function Addresses(breakpoints: seq<Breakpoint>): set<U64> {
    set b | b in breakpoints :: b.address
  }

  lemma {:induction false} AddressesCounted(breakpoints: seq<Breakpoint>)
    requires Distinct(breakpoints)
    ensures |Addresses(breakpoints)| == |breakpoints|
    ensures forall a :: a in Addresses(breakpoints) <==> Installed(breakpoints, a)
  {
    hide EntryAt;
    if breakpoints != [] {
      var rest, last := breakpoints[..|breakpoints| - 1], breakpoints[|breakpoints| - 1];
      assert breakpoints == rest + [last];
      AddressesCounted(rest);
      assert Addresses(breakpoints) == Addresses(rest) + {last.address};
      forall b | b in rest ensures b.address != last.address {
        var i :| 0 <= i < |rest| && rest[i] == b;
        assert breakpoints[i] == b;
      }
    }
    forall a ensures a in Addresses(breakpoints) <==> Installed(breakpoints, a) {
      EntryIsListed(breakpoints, a);
    }
  }

  lemma LastInstalled(breakpoints: seq<Breakpoint>)
    requires breakpoints != []
    ensures Installed(breakpoints, breakpoints[|breakpoints| - 1].address)
  {
    EntryIsListed(breakpoints, breakpoints[|breakpoints| - 1].address);
  }

  lemma DropUnderneath(cells: map<U64, Byte>, breakpoints: seq<Breakpoint>)
    requires Distinct(breakpoints) && breakpoints != []
    ensures forall a :: a != breakpoints[|breakpoints| - 1].address ==>
      Underneath(cells, breakpoints[..|breakpoints| - 1], a) == Underneath(cells, breakpoints, a)
  {
    hide EntryAt, Distinct;
    DropKeeps(breakpoints);
  }

  lemma NothingInstalled(cells: map<U64, Byte>)
    ensures forall a :: a in cells ==> Underneath(cells, [], a) == Some(cells[a])
  {
  }
}
