/** Which bytes a discovery session compares, one by one, from the events alone. */
module DebugWindowLaws {
  import opened Bytes
  import opened SoftwareBreakpointSet
  import opened WindowsDebugSession
  import opened DebugSessionLaws
  import opened DebugSessionMemoryLaws
  import opened DebugSessionExactLaws
  import opened DebugDiscoveryExactLaws

  /** The byte of the program at an address when its entry point `i` was hit: under the
      trap of the entry itself, the byte from when the image was located at `l`. */
  ghost predicate Held(l: Event, i: Event, a: int, v: Byte)
    requires (l.CreateProcess? || l.LoadDll?) && i.Exception?
  {
    if a == i.address then a in l.env.cells && l.env.cells[a] == v else a in i.env.cells && i.env.cells[a] == v
  }

  // ---- bytes under traps ----

  ghost predicate Origin(request: Request, events: seq<Event>, n: nat, b: Breakpoint)
    requires Proper(request)
  {
    b.id == 1 ==> exists l: nat :: l < n && LocatedAt(request, events, l) && Under(events[l], b)
  }

  /** The byte under a trap is the one the memory held at the event. */
  ghost predicate Under(e: Event, b: Breakpoint) {
    (e.CreateProcess? || e.LoadDll?) && b.address in e.env.cells && e.env.cells[b.address] == b.original
  }

  lemma LocatedOrigin(env: Env, address: U64)
    requires InstallIn(Armed([], env), address, 1).Some?
    ensures address in env.cells
    ensures InstallIn(Armed([], env), address, 1).value.breakpoints == [Breakpoint(address, 1, env.cells[address])]
  {
  }

  lemma {:induction false} RunOrigin(request: Request, events: seq<Event>, n: nat)
    requires Proper(request) && request.target.Discovery? && LocatedOnce(request, events) && RunsTo(request, events, n)
    ensures forall b :: b in Before(request, events, n).breakpoints ==> Origin(request, events, n, b)
  {
    hide Step, Run, Prepare, InstallIn, EntryAt, IdsKnown, Forget, Known, At, AtTransfer, Distinct, Under, EntryAddress, LocatedOnce;
    if n == 0 {
      RunsBegin(request, events);
    } else {
      RunsStep(request, events, n);
      RunOrigin(request, events, n - 1);
      RunDistinct(request, events, n - 1);
      var s, e, s' := Before(request, events, n - 1), events[n - 1], Before(request, events, n);
      StepMoves(request, s, e);
      forall b | b in s.breakpoints ensures Origin(request, events, n, b) {
        assert Origin(request, events, n - 1, b);
      }
      if MovedByLocating(request, s, e, s') {
        assert LocatedAt(request, events, n - 1);
        NothingBefore(request, events, n - 1);
        LocatedOrigin(e.env, EntryAddress(request, e.base));
        assert Under(e, s'.breakpoints[0]) by {
          UnderLocated(e, s'.breakpoints[0]);
        }
      } else if MovedByEntry(request, s, e, s') {
        RunShape(request, events, n - 1);
        EntryLeavesNothing(request, s.imageBase, s, e);
        EntryUntraps(s, e);
        PreparedAtTransfers(request, s.imageBase, Untrapped(s, e).value, Candidates(request));
        TransfersHaveOthers(request, s.imageBase, s'.breakpoints);
      } else if MovedByCandidate(s, e, s') {
        ForgetIs(s.breakpoints, e.address);
      }
    }
  }

  lemma UnderLocated(e: Event, b: Breakpoint)
    requires (e.CreateProcess? || e.LoadDll?) && b.address in e.env.cells && b.original == e.env.cells[b.address]
    ensures Under(e, b)
  {
  }

  lemma TransfersHaveOthers(request: Request, base: U64, breakpoints: seq<Breakpoint>)
    requires request.target.Discovery? && AtTransfers(request, base, breakpoints)
    ensures forall b :: b in breakpoints ==> b.id != 1
  {
    hide At, Reachable;
    forall b | b in breakpoints ensures b.id != 1 {
      assert AtTransfer(request, base, b);
    }
  }

  /** The byte under a trap is that of the memory. */
  ghost predicate Recalls(cells: map<U64, Byte>, b: Breakpoint) {
    b.address in cells && b.original == cells[b.address]
  }

  lemma InstallRecalls(a: Armed, address: U64, id: U32, b: Breakpoint)
    requires InstallIn(a, address, id).Some? && b in InstallIn(a, address, id).value.breakpoints
    ensures b in a.breakpoints || (!Installed(a.breakpoints, address) && b.address == address && Recalls(a.env.cells, b))
  {
    hide EntryAt;
  }

  lemma {:induction false} PreparedRecall(request: Request, base: U64, start: Armed, n: nat)
    requires request.target.Discovery? && n <= Candidates(request) && Proper(request) && start.breakpoints == []
    requires Prepare(request, base, start, n).Some?
    ensures forall b :: b in Prepare(request, base, start, n).value.armed.breakpoints ==> Recalls(start.env.cells, b)
  {
    hide InstallIn, Peek, At, EntryAt, TrapSet;
    if n > 0 {
      PreparedRecall(request, base, start, n - 1);
      PrepareTraps(request, base, start, n - 1);
      var before, address := Prepare(request, base, start, n - 1).value.armed, At(base, request.target.candidates[n - 1].transfer);
      forall b | b in Prepare(request, base, start, n).value.armed.breakpoints ensures Recalls(start.env.cells, b) {
        InstallRecalls(before, address, 2 + (n - 1), b);
      }
    }
  }

  /** After the entry hit, every trap recalls the memory at that hit without the entry's trap. */
  lemma {:induction false} CandidatesRecall(request: Request, events: seq<Event>, i: nat, n: nat)
    requires Proper(request) && request.target.Discovery? && LocatedOnce(request, events)
    requires RunsTo(request, events, n) && LastEntry(request, events, i, n)
    ensures Untrapped(Before(request, events, i), events[i]).Some?
    ensures var cells := Untrapped(Before(request, events, i), events[i]).value.env.cells;
            forall b :: b in Before(request, events, n).breakpoints ==> Recalls(cells, b)
    decreases n
  {
    hide Step, Run, Known, Prepare, EntryAt, Untrapped, Locates, LocatedOnce, Distinct, OnlyEntry, AtTransfer, Forget, Recalls;
    RunsStep(request, events, n);
    var s, e := Before(request, events, n - 1), events[n - 1];
    NoneAfter(request, events, i, n - 1);
    TrapStep(request, s, e);
    if i == n - 1 {
      RunShape(request, events, i);
      EntryLeavesNothing(request, s.imageBase, s, e);
      EntryUntraps(s, e);
      PreparedRecall(request, s.imageBase, Untrapped(s, e).value, Candidates(request));
    } else {
      CandidatesRecall(request, events, i, n - 1);
      RunDistinct(request, events, n - 1);
      assert !EntryHit(request, events, n - 1);
      if e.Exception? {
        ForgetIs(s.breakpoints, e.address);
      }
    }
  }

  /** The memory at a hit with the trap taken out. */
  lemma UntrappedBytes(s: State, e: Event)
    requires e.Exception? && Installed(s.breakpoints, e.address) && Untrapped(s, e).Some?
    ensures Untrapped(s, e).value.env.cells == e.env.cells[e.address := EntryAt(s.breakpoints, e.address).value.original]
    ensures e.address in e.env.cells
  {
    hide EntryAt, Forget;
  }

  /** At the entry hit, the memory without the entry's trap is what the program held. */
  lemma EntryHeld(request: Request, events: seq<Event>, i: nat) returns (l: nat)
    requires Proper(request) && request.target.Discovery? && LocatedOnce(request, events) && EntryHit(request, events, i)
    requires Untrapped(Before(request, events, i), events[i]).Some?
    ensures l < i && LocatedAt(request, events, l) && (events[l].CreateProcess? || events[l].LoadDll?)
    ensures events[l].base == Before(request, events, i).imageBase
    ensures forall a: int, v: Byte ::
              Held(events[l], events[i], a, v)
              <==> var cells := Untrapped(Before(request, events, i), events[i]).value.env.cells; a in cells && cells[a] == v
  {
    hide Run, Known, EntryAt, Untrapped, Distinct;
    var s, e := Before(request, events, i), events[i];
    RunOrigin(request, events, i);
    EntryIsListed(s.breakpoints, e.address);
    var b := EntryAt(s.breakpoints, e.address).value;
    assert Origin(request, events, i, b);
    var m: nat :| m < i && LocatedAt(request, events, m) && Under(events[m], b);
    l := m;
    RunImage(request, events, i);
    TrapsMean(s.breakpoints, e.address);
    LastIs(request, events, i, l, s.imageBase);
    UntrappedBytes(s, e);
  }

  lemma LastIs(request: Request, events: seq<Event>, n: nat, l: nat, base: U64)
    requires Proper(request) && LocatedOnce(request, events) && ImageAt(request, events, n, base) && LocatedAt(request, events, l)
    ensures events[l].base == base
  {
    hide Run;
    var m: nat :| LastLocated(request, events, n, m) && events[m].base == base;
    assert LocatedAt(request, events, m);
  }

  // ---- windows ----

  ghost predicate MetBefore(request: Request, base: U64, k: nat, a: int)
    requires request.target.Discovery? && k <= Candidates(request)
  {
    exists q: nat :: q < k && TransferAt(request, base, q) == a
  }

  /** Sixteen bytes as held, but 0xcc at the transfer of a candidate before `k`. */
  ghost predicate BaselineIs(request: Request, l: Event, i: Event, k: nat, before: Bytes)
    requires request.target.Discovery? && k < Candidates(request) && (l.CreateProcess? || l.LoadDll?) && i.Exception?
  {
    |before| == 16
    && forall x :: 0 <= x < 16 ==>
         var a := AddressOf(l.base, request.target.candidates[k].validationTarget) + x;
         if MetBefore(request, l.base, k, a) then before[x] == 0xcc else Held(l, i, a, before[x])
  }

  /** The memory at the hit `j`, but at the address of the hit the byte held at the entry. */
  ghost predicate WindowByte(l: Event, i: Event, j: Event, a: int, v: Byte)
    requires (l.CreateProcess? || l.LoadDll?) && i.Exception? && j.Exception?
  {
    if a == j.address then Held(l, i, a, v) else a in j.env.cells && j.env.cells[a] == v
  }

  /** Sixteen such bytes at the candidate's window. */
  ghost predicate WindowIs(request: Request, l: Event, i: Event, j: Event, k: nat, after: Bytes)
    requires request.target.Discovery? && k < Candidates(request) && (l.CreateProcess? || l.LoadDll?) && i.Exception? && j.Exception?
  {
    |after| == 16
    && forall x :: 0 <= x < 16 ==>
         WindowByte(l, i, j, AddressOf(l.base, request.target.candidates[k].validationTarget) + x, after[x])
  }

  lemma BaselineExact(request: Request, events: seq<Event>, i: nat, l: nat, k: nat)
    requires Proper(request) && request.target.Discovery? && EntryHit(request, events, i) && k < Candidates(request)
    requires l < |events| && (events[l].CreateProcess? || events[l].LoadDll?) && events[l].base == Before(request, events, i).imageBase
    requires var s, e := Before(request, events, i), events[i];
             Untrapped(s, e).Some? && Untrapped(s, e).value.breakpoints == []
             && Prepare(request, s.imageBase, Untrapped(s, e).value, Candidates(request)).Some?
             && forall a: int, v: Byte ::
                  Held(events[l], events[i], a, v)
                  <==> a in Untrapped(s, e).value.env.cells && Untrapped(s, e).value.env.cells[a] == v
    ensures var s, e := Before(request, events, i), events[i];
            BaselineIs(request, events[l], e, k,
                       Prepare(request, s.imageBase, Untrapped(s, e).value, Candidates(request)).value.baselines[k])
  {
    hide Run, Known, Prepare, Untrapped, Held, EntryAt;
    var s, e := Before(request, events, i), events[i];
    var start, base := Untrapped(s, e).value, s.imageBase;
    PrepareSees(request, base, start, Candidates(request), k);
    var before := Prepare(request, base, start, Candidates(request)).value.baselines[k];
    NoneInstalled();
    forall x | 0 <= x < 16
      ensures var a := AddressOf(base, request.target.candidates[k].validationTarget) + x;
              if MetBefore(request, base, k, a) then before[x] == 0xcc else Held(events[l], e, a, before[x])
    {
      var a: int := AddressOf(base, request.target.candidates[k].validationTarget) + x;
      MetIsTrapped(request, base, start, k, a);
    }
  }

  lemma MetIsTrapped(request: Request, base: U64, start: Armed, k: nat, a: int)
    requires request.target.Discovery? && k <= Candidates(request) && start.breakpoints == []
    ensures MetBefore(request, base, k, a) <==> TrapSet(request, base, start, k, a)
  {
    NoneInstalled();
    forall q: nat | q < Candidates(request)
      ensures TransferAt(request, base, q) == At(base, request.target.candidates[q].transfer)
    {
      TransferIs(request, base, q);
    }
    if MetBefore(request, base, k, a) {
      var q: nat :| q < k && TransferAt(request, base, q) == a;
      assert !Installed(start.breakpoints, At(base, request.target.candidates[q].transfer));
    }
  }

  /** The two windows of a capture, byte by byte. */
  lemma WindowsAreExact(request: Request, events: seq<Event>, i: nat, j: nat, k: nat) returns (l: nat)
    requires Proper(request) && request.target.Discovery? && LocatedOnce(request, events)
    requires CandidateReached(request, events, i, j, k)
    ensures l < i && LocatedAt(request, events, l) && (events[l].CreateProcess? || events[l].LoadDll?) && events[i].Exception?
    ensures var c := CandidateCapture(request, events, i, j, k);
            c.base == events[l].base && c.before.Some? && c.after.Some?
            && BaselineIs(request, events[l], events[i], k, c.before.value)
            && WindowIs(request, events[l], events[i], events[j], k, c.after.value)
  {
    hide Run, Known, Prepare, EntryAt, Untrapped, Held, Changed, Standing, BaselineIs, WindowIs, Handled, Distinct, OnlyEntry, AtTransfer;
    var s, e := Before(request, events, i), events[i];
    l := EntryHeld(request, events, i);
    RunShape(request, events, i);
    EntryLeavesNothing(request, s.imageBase, s, e);
    EntryUntraps(s, e);
    BaselineExact(request, events, i, l, k);
    CandidatesRecall(request, events, i, j);
    HitMeansStanding(request, events, i, j, k);
    WindowExact(request, s.imageBase, Before(request, events, j), events[l], e, events[j], k, Untrapped(s, e).value.env.cells);
  }

  lemma WindowExact(request: Request, base: U64, t: State, l: Event, i: Event, j: Event, k: nat, cells: map<U64, Byte>)
    requires request.target.Discovery? && k < Candidates(request) && (l.CreateProcess? || l.LoadDll?) && i.Exception? && j.Exception?
    requires l.base == base && Installed(t.breakpoints, j.address) && WindowAt(request, base, t.breakpoints, j, k).Some?
    requires forall b :: b in t.breakpoints ==> Recalls(cells, b)
    requires forall a: int, v: Byte :: Held(l, i, a, v) <==> a in cells && cells[a] == v
    ensures WindowIs(request, l, i, j, k, WindowAt(request, base, t.breakpoints, j, k).value)
  {
    hide EntryAt, Held, Forget;
    EntryIsListed(t.breakpoints, j.address);
    var b := EntryAt(t.breakpoints, j.address).value;
    assert Recalls(cells, b);
    UntrappedBytes(t, j);
    var env, after := Untrapped(t, j).value.env, WindowAt(request, base, t.breakpoints, j, k).value;
    var address: int := AddressOf(base, request.target.candidates[k].validationTarget);
    forall x | 0 <= x < 16
      ensures WindowByte(l, i, j, address + x, after[x])
    {
      assert HasCell(env, address, x);
    }
  }
}
