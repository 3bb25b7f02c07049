/** What a discovery session's captured bytes are: the debuggee's own memory,
    where no other trap of the session lies in the window. */
module DebugSessionMemoryLaws {
  import opened Bytes
  import opened SoftwareBreakpointSet
  import opened WindowsDebugSession
  import opened DebugSessionLaws

  // ---- what the captured bytes are ----

  /** Preparing candidates before `m` put a trap at `a`. */
  ghost predicate TrapSet(request: Request, base: U64, start: Armed, m: nat, a: int)
    requires request.target.Discovery? && m <= Candidates(request)
  {
    exists q :: 0 <= q < m && !Installed(start.breakpoints, At(base, request.target.candidates[q].transfer))
      && At(base, request.target.candidates[q].transfer) == a
  }

  /** `later` is `start` with the traps of the candidates before `m`. */
  ghost predicate Trapped(request: Request, base: U64, start: Armed, m: nat, later: Armed)
    requires request.target.Discovery? && m <= Candidates(request)
  {
    later.env.cells.Keys == start.env.cells.Keys
    && (forall a: U64 :: a in start.env.cells ==>
          later.env.cells[a] == if TrapSet(request, base, start, m, a) then TRAP else start.env.cells[a])
    && forall a: U64 :: Installed(later.breakpoints, a) <==> Installed(start.breakpoints, a) || TrapSet(request, base, start, m, a)
  }

  lemma TrapSetStep(request: Request, base: U64, start: Armed, m: nat, a: int)
    requires request.target.Discovery? && 0 < m <= Candidates(request)
    ensures var address := At(base, request.target.candidates[m - 1].transfer);
            TrapSet(request, base, start, m, a)
            <==> TrapSet(request, base, start, m - 1, a) || (!Installed(start.breakpoints, address) && address == a)
  {
    hide EntryAt, At;
  }

  lemma InstallTraps(a: Armed, address: U64, id: U32)
    requires InstallIn(a, address, id).Some?
    ensures var r := InstallIn(a, address, id).value;
            r.env.cells.Keys == a.env.cells.Keys
            && (forall x: U64 :: x in a.env.cells ==>
                  r.env.cells[x] == if x == address && !Installed(a.breakpoints, address) then TRAP else a.env.cells[x])
            && forall x: U64 :: Installed(r.breakpoints, x) <==> Installed(a.breakpoints, x) || x == address
  {
    hide EntryAt;
    if !Installed(a.breakpoints, address) {
      forall x: U64 ensures Installed(InstallIn(a, address, id).value.breakpoints, x) <==> Installed(a.breakpoints, x)
                                                                                           || x == address {
        EntryOfAppend(a.breakpoints, Breakpoint(address, id, a.env.cells[address]), x);
      }
    }
  }

  lemma {:induction false} PrepareTraps(request: Request, base: U64, start: Armed, n: nat)
    requires request.target.Discovery? && n <= Candidates(request) && Proper(request)
    requires Prepare(request, base, start, n).Some?
    ensures Trapped(request, base, start, n, Prepare(request, base, start, n).value.armed)
  {
    hide InstallIn, Peek, At, Installed, TrapSet;
    if n == 0 {
      forall a: int ensures !TrapSet(request, base, start, 0, a) {
        NoTrapSet(request, base, start, a);
      }
    } else {
      PrepareTraps(request, base, start, n - 1);
      var address := At(base, request.target.candidates[n - 1].transfer);
      InstallTraps(Prepare(request, base, start, n - 1).value.armed, address, CANDIDATE_BASE + (n - 1));
      forall a: int
        ensures TrapSet(request, base, start, n, a)
                <==> TrapSet(request, base, start, n - 1, a) || (!Installed(start.breakpoints, address) && address == a)
      {
        TrapSetStep(request, base, start, n, a);
      }
    }
  }

  lemma NoTrapSet(request: Request, base: U64, start: Armed, a: int)
    requires request.target.Discovery?
    ensures !TrapSet(request, base, start, 0, a)
  {
  }

  /** Baseline `k` was peeked after the traps of the candidates before `k` were set. */
  lemma {:induction false} BaselineIsPeeked(request: Request, base: U64, start: Armed, n: nat, k: nat)
    requires request.target.Discovery? && k < n <= Candidates(request) && Proper(request)
    requires Prepare(request, base, start, n).Some?
    ensures Prepare(request, base, start, k).Some?
    ensures Peek(Prepare(request, base, start, k).value.armed.env, At(base, request.target.candidates[k].validationTarget))
            == Some(Prepare(request, base, start, n).value.baselines[k])
  {
    hide InstallIn, Peek, At;
    if k < n - 1 {
      BaselineIsPeeked(request, base, start, n - 1, k);
    }
  }

  /** Exactly what a baseline holds: the memory at the packed entry, but a trap
      at the transfer of every earlier candidate. */
  lemma PrepareSees(request: Request, base: U64, start: Armed, n: nat, k: nat)
    requires request.target.Discovery? && k < n <= Candidates(request) && Proper(request)
    requires Prepare(request, base, start, n).Some?
    ensures var address, b := At(base, request.target.candidates[k].validationTarget), Prepare(request, base, start,
                                                                                               n).value.baselines[k];
            |b| == VALIDATION_BYTES && Mapped(start.env, address, VALIDATION_BYTES)
            && forall x :: 0 <= x < |b| ==>
                 HasCell(start.env, address, x)
                 && b[x] == if TrapSet(request, base, start, k, address + x) then TRAP else start.env.cells[address + x]
  {
    hide Prepare, At, TrapSet, Installed;
    BaselineIsPeeked(request, base, start, n, k);
    PrepareTraps(request, base, start, k);
    var address, later := At(base, request.target.candidates[k].validationTarget), Prepare(request, base, start, k).value.armed.env;
    forall x | 0 <= x < VALIDATION_BYTES
      ensures HasCell(start.env, address, x)
      ensures Peek(later, address).value[x] == if TrapSet(request, base, start, k,
                                                          address + x) then TRAP else start.env.cells[address + x]
    {
      assert HasCell(later, address, x);
    }
  }

  predicate InWindow(candidate: Candidate, transfer: U32) {
    candidate.validationTarget <= transfer < candidate.validationTarget + VALIDATION_BYTES
  }

  /** Addresses of one image meet as their offsets do. */
  lemma SameOffset(base: U64, v: U32, t: U32, x: nat)
    requires x < VALIDATION_BYTES && At(base, v) + x <= U64_MAX
    ensures At(base, t) == At(base, v) + x <==> t == v + x
  {
  }

  /** With no breakpoint set before, baseline `k` is the untouched memory for
      every image base and memory exactly when no earlier candidate's transfer
      lies in its window. */
  lemma BaselineIsUntouchedIff(request: Request, k: nat)
    requires request.target.Discovery? && k < Candidates(request) && Proper(request)
    ensures (forall base, env :: BaselineUntouched(request, base, env, k))
            <==> forall m :: 0 <= m < k ==> !InWindow(request.target.candidates[k], request.target.candidates[m].transfer)
  {
    hide Prepare, At, InWindow;
    if forall m :: 0 <= m < k ==> !InWindow(request.target.candidates[k], request.target.candidates[m].transfer) {
      assert ClearBefore(request, k);
      forall base, env ensures BaselineUntouched(request, base, env, k) {
        if Prepare(request, base, Armed([], env), k + 1).Some? {
          UntouchedWhenClear(request, base, env, k);
        }
      }
    } else {
      var m :| 0 <= m < k && InWindow(request.target.candidates[k], request.target.candidates[m].transfer);
      TouchedWhenMet(request, k, m);
    }
  }

  ghost predicate BaselineUntouched(request: Request, base: U64, env: Env, k: nat)
    requires request.target.Discovery? && k < Candidates(request) && Proper(request)
  {
    var p := Prepare(request, base, Armed([], env), k + 1);
    p.Some? ==> Peek(env, At(base, request.target.candidates[k].validationTarget)) == Some(p.value.baselines[k])
  }

  /** Candidate `k`'s window holds no transfer of a candidate before `k`. */
  ghost predicate ClearBefore(request: Request, k: nat)
    requires request.target.Discovery? && k < Candidates(request)
  {
    forall q :: 0 <= q < k ==> !InWindow(request.target.candidates[k], request.target.candidates[q].transfer)
  }

  /** Candidate `k`'s window holds no candidate's transfer but its own. */
  ghost predicate ClearWindow(request: Request, k: nat)
    requires request.target.Discovery? && k < Candidates(request)
  {
    forall q :: 0 <= q < Candidates(request) && InWindow(request.target.candidates[k], request.target.candidates[q].transfer) ==>
      request.target.candidates[q].transfer == request.target.candidates[k].transfer
  }

  lemma ClearIsUntrapped(request: Request, base: U64, start: Armed, k: nat, x: nat)
    requires request.target.Discovery? && k < Candidates(request) && ClearBefore(request, k) && x < VALIDATION_BYTES
    requires At(base, request.target.candidates[k].validationTarget) + x <= U64_MAX
    ensures !TrapSet(request, base, start, k, At(base, request.target.candidates[k].validationTarget) + x)
  {
    hide At, Installed;
    var c := request.target.candidates[k];
    forall q | 0 <= q < k ensures At(base, request.target.candidates[q].transfer) != At(base, c.validationTarget) + x {
      SameOffset(base, c.validationTarget, request.target.candidates[q].transfer, x);
    }
  }

  lemma UntouchedWhenClear(request: Request, base: U64, env: Env, k: nat)
    requires request.target.Discovery? && k < Candidates(request) && Proper(request) && ClearBefore(request, k)
    requires Prepare(request, base, Armed([], env), k + 1).Some?
    ensures BaselineUntouched(request, base, env, k)
  {
    hide Prepare, At, TrapSet, ClearBefore;
    var address, b := At(base, request.target.candidates[k].validationTarget),
                      Prepare(request, base, Armed([], env), k + 1).value.baselines[k];
    PrepareSees(request, base, Armed([], env), k + 1, k);
    forall x | 0 <= x < VALIDATION_BYTES ensures HasCell(env, address, x) && b[x] == env.cells[address + x] {
      assert HasCell(env, address, x);
      ClearIsUntrapped(request, base, Armed([], env), k, x);
    }
    assert Peek(env, address).value == b;
  }

  /** Memory in which every address is mapped, writable and holds 0x90. */
  ghost function Blank(): Env {
    Env(map a: U64 | 0 <= a <= U64_MAX && Address(a) :: 0x90, set a: U64 | 0 <= a <= U64_MAX && Address(a))
  }

  predicate Address(a: int) {
    0 <= a <= U64_MAX
  }

  /** No window runs past the last address in the image at `base`. */
  ghost predicate Addressable(request: Request, base: U64)
    requires request.target.Discovery?
  {
    forall k :: 0 <= k < Candidates(request) ==> WindowFits(request, base, k)
  }

  predicate WindowFits(request: Request, base: U64, k: nat)
    requires request.target.Discovery? && k < Candidates(request)
  {
    At(base, request.target.candidates[k].validationTarget) + VALIDATION_BYTES <= U64_MAX + 1
  }

  lemma BlankCells()
    ensures forall a: U64 :: a in Blank().cells && Blank().cells[a] == 0x90 && a in Blank().writable
  {
    assert forall a: U64 :: Address(a);
  }

  lemma {:induction false} BlankPrepares(request: Request, base: U64, n: nat)
    requires request.target.Discovery? && n <= Candidates(request) && Proper(request) && Addressable(request, base)
    ensures Prepare(request, base, Armed([], Blank()), n).Some?
    ensures var armed := Prepare(request, base, Armed([], Blank()), n).value.armed;
            armed.env.writable == Blank().writable
            && forall a: U64 :: Installed(armed.breakpoints, a) ==> EntryAt(armed.breakpoints, a).value.original == 0x90
  {
    hide Blank, EntryAt, At, TrapSet, InstallIn, Peek;
    NothingInstalled();
    BlankCells();
    if n > 0 {
      BlankPrepares(request, base, n - 1);
      var c := request.target.candidates[n - 1];
      var armed := Prepare(request, base, Armed([], Blank()), n - 1).value.armed;
      PrepareTraps(request, base, Armed([], Blank()), n - 1);
      assert WindowFits(request, base, n - 1);
      forall x | 0 <= x < VALIDATION_BYTES ensures HasCell(armed.env, At(base, c.validationTarget), x) {
        assert At(base, c.validationTarget) + x in Blank().cells;
      }
      PeekMapped(armed.env, At(base, c.validationTarget));
      InstallBlank(armed, At(base, c.transfer), CANDIDATE_BASE + (n - 1));
    }
  }

  lemma NothingInstalled()
    ensures forall a: U64 :: EntryAt([], a) == None
  {
  }

  lemma PeekMapped(env: Env, address: U64)
    requires forall x :: 0 <= x < VALIDATION_BYTES ==> HasCell(env, address, x)
    ensures Peek(env, address).Some?
  {
  }

  lemma InstallBlank(armed: Armed, address: U64, id: U32)
    requires address in armed.env.cells && address in armed.env.writable
    requires !Installed(armed.breakpoints, address) ==> armed.env.cells[address] == 0x90
    ensures InstallIn(armed, address, id).Some?
    ensures InstallIn(armed, address, id).value.env.writable == armed.env.writable
    ensures forall a: U64 ::
      EntryAt(InstallIn(armed, address, id).value.breakpoints, a)
      == if a == address && !Installed(armed.breakpoints, a) then Some(Breakpoint(address, id,
                                                                                  0x90)) else EntryAt(armed.breakpoints, a)
  {
    hide EntryAt;
    forall a: U64
      ensures EntryAt(InstallIn(armed, address, id).value.breakpoints, a)
        == if a == address && !Installed(armed.breakpoints, a) then Some(Breakpoint(address, id,
                                                                                    0x90)) else EntryAt(armed.breakpoints, a)
    {
      if !Installed(armed.breakpoints, address) {
        EntryOfAppend(armed.breakpoints, Breakpoint(address, id, 0x90), a);
      }
    }
  }

  lemma TouchedWhenMet(request: Request, k: nat, m: nat)
    requires request.target.Discovery? && k < Candidates(request) && Proper(request) && m < k
    requires InWindow(request.target.candidates[k], request.target.candidates[m].transfer)
    ensures !BaselineUntouched(request, 0, Blank(), k)
  {
    hide Prepare, TrapSet;
    var start, v, t := Armed([], Blank()), request.target.candidates[k].validationTarget, request.target.candidates[m].transfer;
    BlankPrepares(request, 0, k + 1);
    PrepareSees(request, 0, start, k + 1, k);
    var x := t - v;
    assert TrapSet(request, 0, start, k, At(0, v) + x) by {
      assert At(0, t) == At(0, v) + x && !Installed(start.breakpoints, At(0, t));
      TrapIsSet(request, 0, start, k, m);
    }
    assert HasCell(start.env, At(0, v), x) && start.env.cells[At(0, v) + x] == 0x90;
    assert Peek(Blank(), At(0, v)).Some? ==> Peek(Blank(), At(0, v)).value[x] == 0x90;
  }

  lemma TrapIsSet(request: Request, base: U64, start: Armed, k: nat, m: nat)
    requires request.target.Discovery? && m < k <= Candidates(request)
    requires !Installed(start.breakpoints, At(base, request.target.candidates[m].transfer))
    ensures TrapSet(request, base, start, k, At(base, request.target.candidates[m].transfer))
  {
  }

  // -- the traps that can stand at the two hits

  ghost predicate OnlyEntry(breakpoints: seq<Breakpoint>) {
    |breakpoints| == 1 && breakpoints[0].id == PACKED_ENTRY_ID
  }

  /** Breakpoints of candidates, at their transfers in the image at `base`. */
  ghost predicate AtTransfers(request: Request, base: U64, breakpoints: seq<Breakpoint>)
    requires request.target.Discovery?
  {
    forall b :: b in breakpoints ==> AtTransfer(request, base, b)
  }

  ghost predicate AtTransfer(request: Request, base: U64, b: Breakpoint)
    requires request.target.Discovery?
  {
    CANDIDATE_BASE <= b.id < CANDIDATE_BASE + Candidates(request)
    && b.address == At(base, request.target.candidates[b.id - CANDIDATE_BASE].transfer)
    && Reachable(request, b.id - CANDIDATE_BASE)
  }

  /** No candidate before `k` has its transfer, whose trap would hide `k`. */
  ghost predicate Reachable(request: Request, k: nat)
    requires request.target.Discovery? && k < Candidates(request)
  {
    forall m :: 0 <= m < k ==> request.target.candidates[m].transfer != request.target.candidates[k].transfer
  }

  lemma {:induction false} PreparedAtTransfers(request: Request, base: U64, start: Armed, n: nat)
    requires request.target.Discovery? && n <= Candidates(request) && Proper(request)
    requires Prepare(request, base, start, n).Some?
    requires start.breakpoints == []
    ensures AtTransfers(request, base, Prepare(request, base, start, n).value.armed.breakpoints)
  {
    hide EntryAt, Peek, At, TrapSet, Reachable;
    if n > 0 {
      PreparedAtTransfers(request, base, start, n - 1);
      PrepareTraps(request, base, start, n - 1);
      if !Installed(Prepare(request, base, start, n - 1).value.armed.breakpoints,
                    At(base, request.target.candidates[n - 1].transfer)) {
        NewIsReachable(request, base, start, n);
      }
    }
  }

  lemma NewIsReachable(request: Request, base: U64, start: Armed, n: nat)
    requires request.target.Discovery? && 0 < n <= Candidates(request) && start.breakpoints == []
    requires !TrapSet(request, base, start, n - 1, At(base, request.target.candidates[n - 1].transfer))
    ensures Reachable(request, n - 1)
  {
    hide At;
    forall m | 0 <= m < n - 1 ensures request.target.candidates[m].transfer != request.target.candidates[n - 1].transfer {
      assert !Installed(start.breakpoints, At(base, request.target.candidates[m].transfer));
    }
  }

  lemma EntryLeavesNothing(request: Request, base: U64, s: State, e: Event)
    requires request.target.Discovery? && Hits(s, e, PACKED_ENTRY_ID)
    requires OnlyEntry(s.breakpoints) || AtTransfers(request, base, s.breakpoints)
    ensures OnlyEntry(s.breakpoints) && Forget(s.breakpoints, e.address) == []
  {
    EntryIsListed(s.breakpoints, e.address);
  }

  lemma ForgetShape(request: Request, base: U64, breakpoints: seq<Breakpoint>, address: U64)
    requires request.target.Discovery? && Distinct(breakpoints)
    requires OnlyEntry(breakpoints) || AtTransfers(request, base, breakpoints)
    ensures OnlyEntry(Forget(breakpoints, address)) || AtTransfers(request, base, Forget(breakpoints, address))
  {
    hide AtTransfer;
    ForgetIs(breakpoints, address);
  }

  lemma LocatedShape(a: Armed, address: U64)
    requires a.breakpoints == [] && InstallIn(a, address, PACKED_ENTRY_ID).Some?
    ensures OnlyEntry(InstallIn(a, address, PACKED_ENTRY_ID).value.breakpoints)
  {
  }

  lemma NothingBefore(request: Request, events: seq<Event>, n: nat)
    requires request.target.Discovery? && Proper(request) && LocatedOnce(request, events)
    requires LocatedAt(request, events, n)
    ensures Before(request, events, n).breakpoints == []
  {
    hide Run, Locates;
    RunImage(request, events, n);
  }

  /** Where the image is located once, the entry's trap stands alone, and after
      its hit only the traps of candidates stand. */
  lemma {:induction false} RunShape(request: Request, events: seq<Event>, n: nat)
    requires request.target.Discovery? && Proper(request) && RunsTo(request, events, n) && LocatedOnce(request, events)
    ensures var s := Before(request, events, n);
            OnlyEntry(s.breakpoints) || AtTransfers(request, s.imageBase, s.breakpoints)
  {
    hide Step, Run, Prepare, InstallIn, EntryAt, IdsKnown, Forget, Known, At, AtTransfer, OnlyEntry, Distinct;
    if n == 0 {
      RunsBegin(request, events);
    } else {
      RunsStep(request, events, n);
      RunShape(request, events, n - 1);
      RunDistinct(request, events, n - 1);
      var s, e, s' := Before(request, events, n - 1), events[n - 1], Before(request, events, n);
      StepMoves(request, s, e);
      if MovedByLocating(request, s, e, s') {
        assert LocatedAt(request, events, n - 1);
        NothingBefore(request, events, n - 1);
        LocatedShape(Armed(s.breakpoints, e.env), EntryAddress(request, e.base));
      } else if MovedByEntry(request, s, e, s') {
        EntryLeavesNothing(request, s.imageBase, s, e);
        PreparedAtTransfers(request, s.imageBase, Untrapped(s, e).value, Candidates(request));
      } else if MovedByCandidate(s, e, s') {
        ForgetShape(request, s.imageBase, s.breakpoints, e.address);
      }
    }
  }

  /** The bytes are the debuggee's own: what its memory holds at a hit without
      the session's breakpoints. */
  ghost predicate Own(s: State, e: Event, address: U64, b: Bytes)
    requires e.Exception?
  {
    |b| == VALIDATION_BYTES
    && forall x :: 0 <= x < |b| ==>
         HasCell(e.env, address, x)
         && Underneath(e.env.cells, s.breakpoints, address + x) == Some(b[x])
  }

  lemma UntrappedIsOwn(s: State, e: Event, a: U64)
    requires e.Exception? && Distinct(s.breakpoints) && Untrapped(s, e).Some? && a in e.env.cells
    requires forall b :: b in s.breakpoints && b.address != e.address ==> b.address != a
    ensures a in Untrapped(s, e).value.env.cells
    ensures Underneath(e.env.cells, s.breakpoints, a) == Some(Untrapped(s, e).value.env.cells[a])
  {
    hide EntryAt, Forget;
    EntryIsListed(s.breakpoints, a);
  }

  lemma UntrappedKeys(s: State, e: Event)
    requires e.Exception? && Untrapped(s, e).Some?
    ensures Untrapped(s, e).value.env.cells.Keys == e.env.cells.Keys
  {
    hide EntryAt, Forget;
  }

  lemma OneImage(request: Request, events: seq<Event>, i: nat, j: nat, a: U64, b: U64)
    requires Proper(request) && LocatedOnce(request, events) && ImageAt(request, events, i, a)
    requires ImageAt(request, events, j, b)
    ensures a == b
  {
  }

  /** The baseline of a window clear of other transfers is the debuggee's own. */
  lemma BaselineIsOwn(request: Request, s: State, e: Event, k: nat)
    requires request.target.Discovery? && Proper(request) && k < Candidates(request) && e.Exception?
    requires Distinct(s.breakpoints) && OnlyEntry(s.breakpoints) && Hits(s, e, PACKED_ENTRY_ID) && Untrapped(s, e).Some?
    requires Prepare(request, s.imageBase, Untrapped(s, e).value, Candidates(request)).Some?
    requires ClearBefore(request, k)
    ensures Own(s, e, At(s.imageBase, request.target.candidates[k].validationTarget),
                Prepare(request, s.imageBase, Untrapped(s, e).value, Candidates(request)).value.baselines[k])
  {
    hide Prepare, At, TrapSet, EntryAt, Untrapped, InWindow, Underneath;
    var start, address := Untrapped(s, e).value, At(s.imageBase, request.target.candidates[k].validationTarget);
    PrepareSees(request, s.imageBase, start, Candidates(request), k);
    UntrappedKeys(s, e);
    OnlyEntryHit(s, e);
    forall x | 0 <= x < VALIDATION_BYTES
      ensures HasCell(e.env, address, x)
      ensures Underneath(e.env.cells, s.breakpoints, address + x)
              == Some(Prepare(request, s.imageBase, start, Candidates(request)).value.baselines[k][x])
    {
      assert HasCell(start.env, address, x);
      ClearIsUntrapped(request, s.imageBase, start, k, x);
      UntrappedIsOwn(s, e, address + x);
    }
  }

  lemma OnlyEntryHit(s: State, e: Event)
    requires OnlyEntry(s.breakpoints) && Hits(s, e, PACKED_ENTRY_ID)
    ensures forall b :: b in s.breakpoints ==> b.address == e.address
  {
    EntryIsListed(s.breakpoints, e.address);
  }

  lemma HitIsAtTransfer(request: Request, s: State, e: Event, k: nat)
    requires request.target.Discovery? && k < Candidates(request) && AtTransfers(request, s.imageBase, s.breakpoints)
    requires Hits(s, e, CANDIDATE_BASE + k)
    ensures e.address == At(s.imageBase, request.target.candidates[k].transfer) && Reachable(request, k)
  {
    hide EntryAt, At, Reachable;
    EntryIsListed(s.breakpoints, e.address);
    assert AtTransfer(request, s.imageBase, EntryAt(s.breakpoints, e.address).value);
  }

  /** Before a reachable candidate's clear window stands no other transfer. */
  lemma ClearWindowBefore(request: Request, k: nat)
    requires request.target.Discovery? && k < Candidates(request) && Reachable(request, k) && ClearWindow(request, k)
    ensures ClearBefore(request, k)
  {
    hide InWindow;
  }

  /** So are the bytes at the hit of the candidate itself. */
  lemma HitSeesOwn(request: Request, s: State, e: Event, k: nat)
    requires request.target.Discovery? && k < Candidates(request) && Distinct(s.breakpoints)
    requires AtTransfers(request, s.imageBase, s.breakpoints)
    requires Hits(s, e, CANDIDATE_BASE + k) && Untrapped(s, e).Some? && ClearWindow(request, k)
    requires Peek(Untrapped(s, e).value.env, At(s.imageBase, request.target.candidates[k].validationTarget)).Some?
    ensures var address := At(s.imageBase, request.target.candidates[k].validationTarget);
            Own(s, e, address, Peek(Untrapped(s, e).value.env, address).value)
  {
    hide At, EntryAt, Untrapped, InWindow, Underneath;
    var env, v := Untrapped(s, e).value.env, request.target.candidates[k].validationTarget;
    var address := At(s.imageBase, v);
    UntrappedKeys(s, e);
    HitIsAtTransfer(request, s, e, k);
    forall x | 0 <= x < VALIDATION_BYTES
      ensures HasCell(e.env, address, x)
      ensures Underneath(e.env.cells, s.breakpoints, address + x) == Some(Peek(env, address).value[x])
    {
      assert HasCell(env, address, x);
      forall b | b in s.breakpoints && b.address != e.address ensures b.address != address + x {
        assert AtTransfer(request, s.imageBase, b);
        var transfer := request.target.candidates[b.id - CANDIDATE_BASE].transfer;
        SameOffset(s.imageBase, v, transfer, x);
        WindowIs(request.target.candidates[k], transfer, x);
      }
      UntrappedIsOwn(s, e, address + x);
    }
  }

  lemma WindowIs(candidate: Candidate, transfer: U32, x: nat)
    requires x < VALIDATION_BYTES
    ensures transfer == candidate.validationTarget + x ==> InWindow(candidate, transfer)
  {
  }

  /** Both halves of a justified capture are the debuggee's own bytes, and so the
      debuggee changed them, where the image is located once and no other
      candidate's transfer lies in the candidate's window. */
  lemma CapturedBytesAreOwn(request: Request, events: seq<Event>, i: nat, j: nat, k: nat, c: Capture)
    requires request.target.Discovery? && Proper(request) && Justified(request, events, i, j, k, c)
    requires LocatedOnce(request, events) && ClearWindow(request, k)
    ensures RealChange(request, events, i, j, k, c)
  {
    hide Prepare, At, EntryAt, Untrapped, InWindow, Underneath, Run, Known, IdsKnown, Peek, Distinct, OnlyEntry, AtTransfer, ImageAt,
         LocatedOnce, ClearWindow, ClearBefore, Reachable;
    var s, t := Before(request, events, i), Before(request, events, j);
    RunShape(request, events, j);
    CandidateShape(request, t, events[j], k);
    HitIsAtTransfer(request, t, events[j], k);
    ClearWindowBefore(request, k);
    RunShape(request, events, i);
    RunDistinct(request, events, i);
    EntryLeavesNothing(request, s.imageBase, s, events[i]);
    BaselineIsOwn(request, s, events[i], k);
    RunDistinct(request, events, j);
    HitSeesOwn(request, t, events[j], k);
    OneImage(request, events, i, j, s.imageBase, t.imageBase);
  }

  lemma CandidateShape(request: Request, s: State, e: Event, k: nat)
    requires request.target.Discovery? && Hits(s, e, CANDIDATE_BASE + k)
    requires OnlyEntry(s.breakpoints) || AtTransfers(request, s.imageBase, s.breakpoints)
    ensures AtTransfers(request, s.imageBase, s.breakpoints)
  {
    EntryIsListed(s.breakpoints, e.address);
  }

  /** The debuggee's own bytes in candidate `k`'s window, in the one image, are
      the captured ones at the two hits. */
  ghost predicate RealChange(request: Request, events: seq<Event>, i: nat, j: nat, k: nat, c: Capture)
    requires request.target.Discovery? && Proper(request) && Justified(request, events, i, j, k, c)
  {
    var s, t, v := Before(request, events, i), Before(request, events, j), request.target.candidates[k].validationTarget;
    s.imageBase == t.imageBase && Own(s, events[i], At(s.imageBase, v), c.before.value)
    && Own(t, events[j], At(t.imageBase, v), c.after.value) && c.before != c.after
  }

  lemma JustifiedIsReachable(request: Request, events: seq<Event>, i: nat, j: nat, k: nat, c: Capture)
    requires request.target.Discovery? && Proper(request) && LocatedOnce(request, events)
    requires Justified(request, events, i, j, k, c)
    ensures k < Candidates(request) && Reachable(request, k)
  {
    hide Run, Prepare, Peek, At, EntryAt, ImageAt, LocatedOnce, Reachable, AtTransfer, OnlyEntry;
    RunShape(request, events, j);
    CandidateShape(request, Before(request, events, j), events[j], k);
    HitIsAtTransfer(request, Before(request, events, j), events[j], k);
  }

  /** No window of a candidate that can be hit holds another transfer. */
  ghost predicate ClearWindows(request: Request)
    requires request.target.Discovery?
  {
    forall k :: 0 <= k < Candidates(request) && Reachable(request, k) ==> ClearWindow(request, k)
  }

  ghost predicate RestsOnRealChange(request: Request, events: seq<Event>, c: Capture)
    requires request.target.Discovery? && Proper(request)
  {
    exists i: nat, j: nat, k: nat :: Justified(request, events, i, j, k, c) && RealChange(request, events, i, j, k, c)
  }

  /** Every capture rests on a real change where the windows are clear. */
  lemma DiscoverySeesRealChange(request: Request, events: seq<Event>)
    requires request.target.Discovery? && Proper(request) && LocatedOnce(request, events) && ClearWindows(request)
    ensures forall c :: c in Run(request, events).Captures() ==> RestsOnRealChange(request, events, c)
  {
    hide Run, Justified, RealChange, LocatedOnce, ClearWindow, Reachable;
    DiscoveryIsSafe(request, events);
    forall c | c in Run(request, events).Captures() ensures RestsOnRealChange(request, events, c) {
      var i: nat, j: nat, k: nat :| Justified(request, events, i, j, k, c);
      JustifiedIsReachable(request, events, i, j, k, c);
      CapturedBytesAreOwn(request, events, i, j, k, c);
    }
  }

  // ---- where a window is not clear ----

  const WILLING := Answers(true, 0x7000, true, true, Some(PROCESS_ATTACH), true, true)

  ghost function TrapAt(env: Env, a: U64): Env {
    env.(cells := env.cells[a := TRAP])
  }

  ghost function HitAt(env: Env, address: U64): Event {
    Exception(env, true, address, 7, 0, true, true, WILLING, true)
  }

  /** An image base that the request admits. */
  function SomeBase(request: Request): U64 {
    if request.requiredBase.Some? then request.requiredBase.value else 0
  }

  ghost function EntryPoint(request: Request): U64
    requires request.target.Discovery?
  {
    At(SomeBase(request), request.target.packedEntry)
  }

  ghost function TransferOf(request: Request, k: nat): U64
    requires request.target.Discovery? && k < Candidates(request)
  {
    At(SomeBase(request), request.target.candidates[k].transfer)
  }

  /** The memory at the hit of candidate `k`, apart from the trap that was hit:
      the trap of a later candidate `q` stands; an earlier one was overwritten
      with the byte that it hides. */
  ghost function Beneath(request: Request, k: nat, q: nat): Env
    requires request.target.Discovery? && k < Candidates(request) && q < Candidates(request)
  {
    if q < k then Blank() else TrapAt(Blank(), TransferOf(request, q))
  }

  /** The image is located; the packed entry and then candidate `k` are hit; the
      debuggee's own memory holds 0x90 everywhere and never changes. */
  ghost function IdleEvents(request: Request, k: nat, q: nat): (events: seq<Event>)
    requires request.target.Discovery? && k < Candidates(request) && q < Candidates(request)
    ensures |events| == 3 && events[1].Exception? && events[2].Exception?
  {
    var base := SomeBase(request);
    [if request.imageKind.Executable? then CreateProcess(Blank(), base, None, true) else LoadDll(Blank(), base, true, true),
     HitAt(TrapAt(Blank(), EntryPoint(request)), EntryPoint(request)),
     HitAt(TrapAt(Beneath(request, k, q), TransferOf(request, k)), TransferOf(request, k))]
  }

  lemma OneInstalled(b: Breakpoint, a: U64)
    ensures EntryAt([b], a) == if b.address == a then Some(b) else None
  {
    assert [b][1..] == [];
  }

  lemma {:induction false} EntryOfCandidate(request: Request, base: U64, n: nat, k: nat)
    requires request.target.Discovery? && k < n <= Candidates(request) && Proper(request)
    requires Addressable(request, base) && Reachable(request, k)
    requires Prepare(request, base, Armed([], Blank()), n).Some?
    ensures EntryAt(Prepare(request, base, Armed([], Blank()), n).value.armed.breakpoints,
                    At(base, request.target.candidates[k].transfer))
            == Some(Breakpoint(At(base, request.target.candidates[k].transfer), CANDIDATE_BASE + k, 0x90))
  {
    hide Blank, EntryAt, At, TrapSet, Reachable, Peek, InstallIn;
    NothingInstalled();
    BlankCells();
    var before := Prepare(request, base, Armed([], Blank()), n - 1).value.armed;
    BlankPrepares(request, base, n - 1);
    PrepareTraps(request, base, Armed([], Blank()), n - 1);
    InstallBlank(before, At(base, request.target.candidates[n - 1].transfer), CANDIDATE_BASE + (n - 1));
    if k < n - 1 {
      EntryOfCandidate(request, base, n - 1, k);
    } else {
      ReachableIsNew(request, base, k);
    }
  }

  lemma ReachableIsNew(request: Request, base: U64, k: nat)
    requires request.target.Discovery? && k < Candidates(request) && Reachable(request, k)
    ensures !TrapSet(request, base, Armed([], Blank()), k, At(base, request.target.candidates[k].transfer))
  {
    hide Blank;
  }

  /** Candidate `q`'s transfer is a trap in the window of candidate `k`, which can be hit. */
  ghost predicate Meets(request: Request, k: nat, q: nat)
    requires request.target.Discovery? && k < Candidates(request) && q < Candidates(request)
  {
    Reachable(request, k) && InWindow(request.target.candidates[k], request.target.candidates[q].transfer)
    && request.target.candidates[q].transfer != request.target.candidates[k].transfer
    && (q < k || ClearBefore(request, k))
  }

  /** The session can start, and its windows can be read. */
  ghost predicate Startable(request: Request)
    requires request.target.Discovery?
  {
    Proper(request) && request.sizeOfImage != 0 && Addressable(request, SomeBase(request))
  }

  ghost function BlankPrepared(request: Request): (p: Prepared)
    requires request.target.Discovery? && Startable(request)
    ensures |p.baselines| == Candidates(request)
  {
    BlankPrepares(request, SomeBase(request), Candidates(request));
    Prepare(request, SomeBase(request), Armed([], Blank()), Candidates(request)).value
  }

  ghost function LocatedState(request: Request): State
    requires request.target.Discovery?
  {
    Initial(request).(imageBase := SomeBase(request), breakpoints := [Breakpoint(EntryPoint(request), PACKED_ENTRY_ID, 0x90)])
  }

  ghost function EnteredState(request: Request): State
    requires request.target.Discovery? && Startable(request)
  {
    LocatedState(request).(entryThread := 7, entryStack := 0x7000, attached := true,
                           baselines := BlankPrepared(request).baselines, breakpoints := BlankPrepared(request).armed.breakpoints)
  }

  lemma IdleLocated(request: Request, k: nat, q: nat)
    requires request.target.Discovery? && Startable(request) && k < Candidates(request) && q < Candidates(request)
    ensures Run(request, []) == Running(Initial(request))
    ensures Step(request, Initial(request), IdleEvents(request, k, q)[0]) == Running(LocatedState(request))
  {
    hide Blank;
    BlankCells();
    NothingInstalled();
  }

  lemma IdleEntered(request: Request, k: nat, q: nat)
    requires request.target.Discovery? && Startable(request) && k < Candidates(request) && q < Candidates(request)
    ensures Known(request, LocatedState(request))
    ensures Step(request, LocatedState(request), IdleEvents(request, k, q)[1]) == Running(EnteredState(request))
    ensures Untrapped(LocatedState(request), IdleEvents(request, k, q)[1]) == Some(Armed([], Blank()))
  {
    hide Blank, Prepare, At, Addressable;
    BlankCells();
    var s, e := LocatedState(request), IdleEvents(request, k, q)[1];
    assert TrapAt(Blank(), e.address).cells[e.address := 0x90] == Blank().cells;
    OneInstalled(s.breakpoints[0], e.address);
    assert s.breakpoints[1..] == [];
    assert RestoreIn(Armed(s.breakpoints, e.env), e.address) == Some(Armed([], Blank()));
    BlankPrepares(request, SomeBase(request), Candidates(request));
  }

  /** At the hit of candidate `k` only the trap of `q` tells the window from its baseline. */
  lemma IdleWindow(request: Request, k: nat, q: nat)
    requires request.target.Discovery? && Startable(request) && k < Candidates(request) && q < Candidates(request)
    requires Meets(request, k, q)
    ensures var seen := Peek(Beneath(request, k, q), At(SomeBase(request), request.target.candidates[k].validationTarget));
            seen.Some? && MeaningfulChange(BlankPrepared(request).baselines[k], seen.value)
  {
    hide Blank, Prepare, TrapSet, At, Reachable, ClearBefore, EntryAt;
    BlankCells();
    var base, v := SomeBase(request), request.target.candidates[k].validationTarget;
    var address, env, b := At(base, v), Beneath(request, k, q), BlankPrepared(request).baselines[k];
    BlankPrepares(request, base, Candidates(request));
    PrepareSees(request, base, Armed([], Blank()), Candidates(request), k);
    assert WindowFits(request, base, k);
    forall x | 0 <= x < VALIDATION_BYTES ensures HasCell(env, address, x) {
      assert address + x in Blank().cells;
    }
    PeekMapped(env, address);
    var seen := Peek(env, address).value;
    var x: nat := request.target.candidates[q].transfer - v;
    SameOffset(base, v, request.target.candidates[q].transfer, x);
    var other: nat := if x == 0 then 1 else 0;
    assert HasCell(env, address, x) && HasCell(env, address, other);
    if q < k {
      NothingInstalled();
      TrapIsSet(request, base, Armed([], Blank()), k, q);
      assert b[x] == TRAP && seen[x] == 0x90;
    } else {
      ClearIsUntrapped(request, base, Armed([], Blank()), k, x);
      assert b[x] == 0x90 && seen[x] == TRAP && seen[other] == 0x90;
    }
  }

  /** The debuggee's own memory holds 0x90 everywhere at both hits. */
  ghost predicate Idle(s: State, e: Event)
    requires e.Exception?
  {
    forall a: U64 :: Underneath(e.env.cells, s.breakpoints, a) == Some(0x90)
  }

  lemma IdleAtEntry(request: Request, k: nat, q: nat)
    requires request.target.Discovery? && k < Candidates(request) && q < Candidates(request)
    ensures Idle(LocatedState(request), IdleEvents(request, k, q)[1])
  {
    hide Blank, At;
    BlankCells();
    forall a: U64 ensures Underneath(IdleEvents(request, k, q)[1].env.cells, LocatedState(request).breakpoints, a) == Some(0x90) {
      OneInstalled(LocatedState(request).breakpoints[0], a);
    }
  }

  lemma TransferInstalled(request: Request, q: nat)
    requires request.target.Discovery? && Startable(request) && q < Candidates(request)
    ensures Installed(BlankPrepared(request).armed.breakpoints, TransferOf(request, q))
  {
    hide Blank, Prepare, TrapSet, At, EntryAt;
    BlankPrepares(request, SomeBase(request), Candidates(request));
    PrepareTraps(request, SomeBase(request), Armed([], Blank()), Candidates(request));
    NothingInstalled();
    TrapIsSet(request, SomeBase(request), Armed([], Blank()), Candidates(request), q);
  }

  lemma IdleAtCandidate(request: Request, k: nat, q: nat)
    requires request.target.Discovery? && Startable(request) && k < Candidates(request) && q < Candidates(request)
    ensures Idle(EnteredState(request), IdleEvents(request, k, q)[2])
  {
    hide Blank, Prepare, At, EntryAt, Addressable;
    BlankCells();
    BlankPrepares(request, SomeBase(request), Candidates(request));
    TransferInstalled(request, k);
    TransferInstalled(request, q);
  }

  lemma IdleCaptured(request: Request, k: nat, q: nat)
    requires request.target.Discovery? && Startable(request) && k < Candidates(request) && q < Candidates(request)
    requires Meets(request, k, q)
    requires Known(request, EnteredState(request))
    ensures var m := Step(request, EnteredState(request), IdleEvents(request, k, q)[2]);
            m.Ended? && m.error == NoError && |m.captures| == 1
  {
    hide Blank, Prepare, Peek, At, EntryAt, Forget, Addressable, MeaningfulChange, Reachable, InWindow, ClearBefore, IdsKnown;
    BlankCells();
    var s, e := EnteredState(request), IdleEvents(request, k, q)[2];
    BlankPrepares(request, SomeBase(request), Candidates(request));
    EntryOfCandidate(request, SomeBase(request), Candidates(request), k);
    IdleWindow(request, k, q);
    TransfersApart(request, k, q);
    assert TrapAt(Beneath(request, k, q), e.address).cells[e.address := 0x90] == Beneath(request, k, q).cells;
    assert Untrapped(s, e).value.env == Beneath(request, k, q);
  }

  lemma TransfersApart(request: Request, k: nat, q: nat)
    requires request.target.Discovery? && k < Candidates(request) && q < Candidates(request)
    requires request.target.candidates[q].transfer != request.target.candidates[k].transfer
    ensures TransferOf(request, q) != TransferOf(request, k)
  {
  }

  lemma IdleRun(request: Request, k: nat, q: nat)
    requires request.target.Discovery? && Startable(request) && k < Candidates(request) && q < Candidates(request)
    requires Meets(request, k, q)
    ensures var events := IdleEvents(request, k, q);
            RunsTo(request, events, 1) && Before(request, events, 1) == LocatedState(request)
            && RunsTo(request, events, 2) && Before(request, events, 2) == EnteredState(request)
            && Run(request, events).Ended? && Run(request, events).error == NoError && |Run(request, events).captures| == 1
  {
    hide Step, Meets, LocatedState, EnteredState, Addressable, IdleEvents, Known;
    var events := IdleEvents(request, k, q);
    assert events[..1][..0] == [] && events[..2][..1] == events[..1] && events[..3][..2] == events[..2];
    IdleLocated(request, k, q);
    RunLast(request, events[..1], Initial(request));
    IdleEntered(request, k, q);
    RunLast(request, events[..2], LocatedState(request));
    assert events[..3] == events;
    RunLast(request, events, EnteredState(request));
    IdleCaptured(request, k, q);
  }

  lemma RunLast(request: Request, events: seq<Event>, s: State)
    requires Proper(request) && events != [] && Run(request, events[..|events| - 1]) == Running(s)
    ensures Known(request, s) && Run(request, events) == Step(request, s, events[|events| - 1])
  {
    hide Step;
  }

  /** What the debuggee's memory holds `x` bytes behind `address` without the session's breakpoints. */
  ghost function OwnByte(s: State, e: Event, address: U64, x: nat): Option<Byte>
    requires e.Exception?
  {
    if address + x <= U64_MAX then Underneath(e.env.cells, s.breakpoints, address + x) else None
  }

  /** The debuggee changed a byte of candidate `k`'s window between the two hits. */
  ghost predicate WindowChanged(request: Request, events: seq<Event>, i: nat, j: nat, k: nat, c: Capture)
    requires request.target.Discovery? && Proper(request) && Justified(request, events, i, j, k, c)
  {
    var s, t, v := Before(request, events, i), Before(request, events, j), request.target.candidates[k].validationTarget;
    exists x :: 0 <= x < VALIDATION_BYTES
      && OwnByte(s, events[i], At(s.imageBase, v), x) != OwnByte(t, events[j], At(t.imageBase, v), x)
  }

  ghost predicate RestsOnChange(request: Request, events: seq<Event>, c: Capture)
    requires request.target.Discovery? && Proper(request)
  {
    exists i: nat, j: nat, k: nat :: Justified(request, events, i, j, k, c) && WindowChanged(request, events, i, j, k, c)
  }

  lemma RealIsChanged(request: Request, events: seq<Event>, i: nat, j: nat, k: nat, c: Capture)
    requires request.target.Discovery? && Proper(request) && Justified(request, events, i, j, k, c)
    requires RealChange(request, events, i, j, k, c)
    ensures WindowChanged(request, events, i, j, k, c)
  {
    hide Run, Prepare, At, EntryAt, ImageAt, Peek, Underneath;
    var before, after := c.before.value, c.after.value;
    var s, t, v := Before(request, events, i), Before(request, events, j), request.target.candidates[k].validationTarget;
    var x :| 0 <= x < VALIDATION_BYTES && before[x] != after[x];
    assert HasCell(events[i].env, At(s.imageBase, v), x) && HasCell(events[j].env, At(t.imageBase, v), x);
    assert OwnByte(s, events[i], At(s.imageBase, v), x) != OwnByte(t, events[j], At(t.imageBase, v), x);
  }

  /** Every run that locates the image once captures only after a change of the debuggee's. */
  ghost predicate OnlyChangesAreCaptured(request: Request)
    requires request.target.Discovery? && Proper(request)
  {
    forall events: seq<Event>, c: Capture :: LocatedOnce(request, events) && c in Run(request, events).Captures() ==>
      RestsOnChange(request, events, c)
  }

  /** A window that is not clear meets a transfer. */
  lemma NotClearMeets(request: Request) returns (k: nat, q: nat)
    requires request.target.Discovery? && !ClearWindows(request)
    ensures k < Candidates(request) && q < Candidates(request) && Meets(request, k, q)
  {
    hide InWindow;
    k :| 0 <= k < Candidates(request) && Reachable(request, k) && !ClearWindow(request, k);
    if ClearBefore(request, k) {
      q :| 0 <= q < Candidates(request) && InWindow(request.target.candidates[k], request.target.candidates[q].transfer)
           && request.target.candidates[q].transfer != request.target.candidates[k].transfer;
    } else {
      q :| 0 <= q < k && InWindow(request.target.candidates[k], request.target.candidates[q].transfer);
    }
  }

  /** A capture with no change at all: the debuggee's memory holds 0x90
      everywhere at both hits, and what the session saw change is its own trap. */
  lemma TrapCountsAsChange(request: Request, k: nat, q: nat)
    requires request.target.Discovery? && Startable(request) && k < Candidates(request) && q < Candidates(request)
    requires Meets(request, k, q)
    ensures var events := IdleEvents(request, k, q);
            LocatedOnce(request, events) && Run(request, events).Ended? && Run(request, events).error == NoError
              && |Run(request, events).captures| == 1
            && RunsTo(request, events, 1) && Idle(Before(request, events, 1), events[1])
            && RunsTo(request, events, 2) && Idle(Before(request, events, 2), events[2])
            && !RestsOnChange(request, events, Run(request, events).captures[0])
  {
    hide Run, Meets, Addressable, Idle, Justified, WindowChanged, Prepare, At;
    var events := IdleEvents(request, k, q);
    IdleRun(request, k, q);
    IdleAtEntry(request, k, q);
    IdleAtCandidate(request, k, q);
    var c := Run(request, events).captures[0];
    forall i: nat, j: nat, k': nat | Justified(request, events, i, j, k', c) ensures !WindowChanged(request, events, i, j, k', c) {
      HitsAreExceptions(request, events, i, j, k', c);
      assert i == 1 && j == 2;
      IdleIsUnchanged(request, events, k', c);
    }
  }

  lemma HitsAreExceptions(request: Request, events: seq<Event>, i: nat, j: nat, k: nat, c: Capture)
    requires request.target.Discovery? && Proper(request) && Justified(request, events, i, j, k, c)
    ensures i < j < |events| && events[i].Exception?
  {
    hide Run, Prepare, Peek, At, EntryAt, ImageAt;
  }

  lemma IdleIsUnchanged(request: Request, events: seq<Event>, k: nat, c: Capture)
    requires request.target.Discovery? && Proper(request) && Justified(request, events, 1, 2, k, c)
    requires RunsTo(request, events, 1) && RunsTo(request, events, 2) && |events| == 3
    requires events[1].Exception? && Idle(Before(request, events, 1), events[1])
    requires events[2].Exception? && Idle(Before(request, events, 2), events[2])
    requires Before(request, events, 1).imageBase == Before(request, events, 2).imageBase
    ensures !WindowChanged(request, events, 1, 2, k, c)
  {
    hide Run, Prepare, Peek, At, EntryAt, ImageAt, Underneath;
  }

  /** Discovery captures only after the debuggee changed the bytes it validates,
      whatever it does, exactly when no window holds another transfer. */
  lemma DiscoveryIsExactIff(request: Request)
    requires request.target.Discovery? && Startable(request)
    ensures OnlyChangesAreCaptured(request) <==> ClearWindows(request)
  {
    hide Run, Meets, ClearWindows, Addressable, LocatedOnce, Justified, RealChange, WindowChanged, IdleEvents, Idle;
    if ClearWindows(request) {
      forall events: seq<Event>, c: Capture | LocatedOnce(request, events) && c in Run(request, events).Captures()
        ensures RestsOnChange(request, events, c)
      {
        DiscoverySeesRealChange(request, events);
        var i: nat, j: nat, k: nat :| Justified(request, events, i, j, k, c) && RealChange(request, events, i, j, k, c);
        RealIsChanged(request, events, i, j, k, c);
      }
    } else {
      var k, q := NotClearMeets(request);
      TrapCountsAsChange(request, k, q);
      assert Run(request, IdleEvents(request, k, q)).captures[0] in Run(request, IdleEvents(request, k, q)).Captures();
    }
  }
}
