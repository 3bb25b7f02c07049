/** When a debug session captures and how it ends, from the events alone. */
module DebugSessionExactLaws {
  import opened Bytes
  import opened SoftwareBreakpointSet
  import opened WindowsDebugSession
  import opened DebugSessionLaws

  // ---- runs ----

  lemma RunNext(request: Request, events: seq<Event>, n: nat)
    requires Proper(request) && n < |events| && RunsTo(request, events, n)
    ensures Run(request, events[..n + 1]) == Step(request, Before(request, events, n), events[n])
  {
    hide Step, Start;
    assert events[..n + 1][..n] == events[..n];
  }

  /** The event at which a session that started ends. */
  lemma {:induction false} EndsAt(request: Request, events: seq<Event>) returns (n: nat)
    requires Proper(request) && Start(request).Running? && Run(request, events).Ended?
    ensures n < |events| && RunsTo(request, events, n) && Step(request, Before(request, events, n), events[n]) == Run(request, events)
    decreases |events|
  {
    hide Step;
    if events != [] {
      var m := |events| - 1;
      if Run(request, events[..m]).Running? {
        n := m;
        assert events[..m + 1] == events;
        RunNext(request, events, m);
      } else {
        n := EndsAt(request, events[..m]);
        assert events[..m][..n] == events[..n];
        EndedStays(request, events, m);
      }
    }
  }

  // ---- explicit entry points ----

  /** The address of an image's offset, modulo 2^64. */
  function AddressOf(base: U64, rva: U32): U64 {
    (base + rva) % 0x1_0000_0000_0000_0000
  }

  /** Before event `n` an image was located whose entry point is at `a`. */
  ghost predicate Trapped(request: Request, events: seq<Event>, n: nat, a: U64)
    requires Proper(request) && request.target.Explicit?
  {
    exists l: nat :: l < n && LocatedAt(request, events, l) && AddressOf(events[l].base, request.target.entry) == a
  }

  lemma ExplicitStep(request: Request, s: State, e: Event)
    requires Proper(request) && request.target.Explicit? && Known(request, s) && Step(request, s, e).Running?
    ensures var s' := Step(request, s, e).state;
            s'.captures == s.captures && s'.attached == s.attached
            && if Locates(request, s, e) then
                 s'.imageBase == e.base
                 && var r := InstallIn(Armed(s.breakpoints, e.env), AddressOf(e.base, request.target.entry), 0);
                    r.Some? && s'.breakpoints == r.value.breakpoints
               else s'.imageBase == s.imageBase && s'.breakpoints == s.breakpoints
  {
    hide EntryAt, InstallIn, RestoreIn, IdsKnown;
    match e
    case Exception(_, isBreakpoint, address, _, _, _, _, _, _) =>
      if isBreakpoint && Installed(s.breakpoints, address) {
        HitIsKnown(request, s.breakpoints, address);
      }
    case _ =>
  }

  lemma InstallOne(a: Armed, address: U64, id: U32, x: U64)
    requires InstallIn(a, address, id).Some?
    ensures Installed(InstallIn(a, address, id).value.breakpoints, x) <==> Installed(a.breakpoints, x) || x == address
  {
    hide EntryAt;
    if !Installed(a.breakpoints, address) {
      EntryOfAppend(a.breakpoints, Breakpoint(address, id, a.env.cells[address]), x);
    }
  }

  /** The traps of a running explicit session are those of the located images. */
  lemma {:induction false} ExplicitState(request: Request, events: seq<Event>, n: nat)
    requires Proper(request) && request.target.Explicit? && RunsTo(request, events, n)
    ensures var s := Before(request, events, n);
            s.captures == [] && (s.attached <==> request.imageKind.Executable?)
            && (forall a: U64 :: Installed(s.breakpoints, a) <==> Trapped(request, events, n, a))
            && (s.breakpoints != [] ==> ImageAt(request, events, n, s.imageBase))
  {
    hide Step, Run, InstallIn, Installed, IdsKnown, Known, AddressOf;
    if n == 0 {
      RunsBegin(request, events);
      NoneInstalled();
    } else {
      RunsStep(request, events, n);
      ExplicitState(request, events, n - 1);
      var s, e, s' := Before(request, events, n - 1), events[n - 1], Before(request, events, n);
      ExplicitStep(request, s, e);
      forall a: U64 ensures Installed(s'.breakpoints, a) <==> Trapped(request, events, n, a) {
        TrappedStep(request, events, n, a);
        if Locates(request, s, e) {
          InstallOne(Armed(s.breakpoints, e.env), AddressOf(e.base, request.target.entry), 0, a);
        }
      }
      ImageStep(request, events, n);
    }
  }

  lemma NoneInstalled()
    ensures forall a: U64 :: !Installed([], a)
  {
  }

  lemma TrappedStep(request: Request, events: seq<Event>, n: nat, a: U64)
    requires Proper(request) && request.target.Explicit? && 0 < n && RunsTo(request, events, n) && RunsTo(request, events, n - 1)
    ensures Trapped(request, events, n, a)
            <==> Trapped(request, events, n - 1, a)
                 || (Locates(request, Before(request, events, n - 1), events[n - 1])
                     && AddressOf(events[n - 1].base, request.target.entry) == a)
  {
    hide Run, AddressOf;
    if Locates(request, Before(request, events, n - 1), events[n - 1]) {
      assert LocatedAt(request, events, n - 1);
    }
  }

  lemma ImageStep(request: Request, events: seq<Event>, n: nat)
    requires Proper(request) && 0 < n && RunsTo(request, events, n) && RunsTo(request, events, n - 1)
    ensures Locates(request, Before(request, events, n - 1), events[n - 1]) ==> ImageAt(request, events, n, events[n - 1].base)
    ensures forall b: U64 :: !Locates(request, Before(request, events, n - 1), events[n - 1]) && ImageAt(request, events, n - 1, b)
              ==> ImageAt(request, events, n, b)
  {
    hide Run;
    if Locates(request, Before(request, events, n - 1), events[n - 1]) {
      assert LocatedAt(request, events, n - 1) && LastLocated(request, events, n, n - 1);
    } else {
      forall b: U64 | ImageAt(request, events, n - 1, b) ensures ImageAt(request, events, n, b) {
        var l: nat :| LastLocated(request, events, n - 1, l) && events[l].base == b;
        assert !LocatedAt(request, events, n - 1);
        assert LastLocated(request, events, n, l);
      }
    }
  }

  /** The hit's thread was opened, its trap taken out and its instruction pointer set back. */
  ghost predicate Handled(e: Event)
    requires e.Exception?
  {
    e.answers.opens && e.answers.setsPointer && e.address in e.env.cells && e.address in e.env.writable
  }

  ghost predicate ImportsGiven(request: Request, e: Event)
    requires e.Exception?
  {
    request.collectImports ==> e.answers.importsRead
  }

  /** Event `j` is a handled hit of a located image's entry point, of an
      executable or of a library at process attach, with all that a capture needs. */
  ghost predicate EntryReached(request: Request, events: seq<Event>, j: nat)
    requires Proper(request) && request.target.Explicit?
  {
    j < |events| && RunsTo(request, events, j) && events[j].Exception? && events[j].isBreakpoint
    && Trapped(request, events, j, events[j].address) && Handled(events[j]) && events[j].answers.commits
    && (request.imageKind.Executable? || events[j].answers.entryReason == Some(1)) && ImportsGiven(request, events[j])
  }

  ghost function EntryCapture(request: Request, base: U64, e: Event): Capture
    requires request.target.Explicit? && e.Exception?
  {
    Capture(request.target.entry, base, e.thread, e.answers.stackPointer, None, None, e.answers.accepted)
  }

  /** How the hit of an explicit entry point ends the session. */
  ghost function EntryVerdict(request: Request, e: Event): SessionError
    requires e.Exception?
  {
    if !Handled(e) || !e.answers.commits then ProtocolFailure
    else if !ImportsGiven(request, e) then ImportSnapshotFailed
    else if request.imageKind.DynamicLibrary? && e.answers.entryReason != Some(1) then TargetLibraryAttachInvalid
    else if e.answers.accepted then NoError
    else CaptureRejected
  }

  lemma HitSteps(request: Request, s: State, e: Event)
    requires Proper(request) && request.target.Explicit? && Known(request, s) && s.captures == []
    requires s.attached <==> request.imageKind.Executable?
    requires e.Exception? && e.isBreakpoint && Installed(s.breakpoints, e.address)
    ensures var m := Step(request, s, e);
            m.Ended? && m.error == EntryVerdict(request, e)
            && m.captures == if m.error == NoError || m.error == CaptureRejected then [EntryCapture(request, s.imageBase, e)] else []
  {
    hide EntryAt, IdsKnown, Forget;
    HitIsKnown(request, s.breakpoints, e.address);
  }

  lemma OtherSteps(request: Request, s: State, e: Event)
    requires Proper(request) && Known(request, s)
    requires !(e.Exception? && e.isBreakpoint && Installed(s.breakpoints, e.address))
    ensures Step(request, s, e).Captures() == s.captures
    ensures Step(request, s, e).Ended? ==> Step(request, s, e).error != NoError && Step(request, s, e).error != CaptureRejected
  {
    hide EntryAt, IdsKnown, InstallIn;
  }

  lemma ExplicitAt(request: Request, events: seq<Event>, j: nat, base: U64)
    requires Proper(request) && request.target.Explicit? && EntryReached(request, events, j) && ImageAt(request, events, j, base)
    ensures Run(request, events)
            == Ended(if events[j].answers.accepted then NoError else CaptureRejected, [EntryCapture(request, base, events[j])])
  {
    hide Step, Run, Trapped, IdsKnown, Known, Installed, ImageAt;
    ExplicitState(request, events, j);
    RunNext(request, events, j);
    HitSteps(request, Before(request, events, j), events[j]);
    TrapsMean(Before(request, events, j).breakpoints, events[j].address);
    SameImage(request, events, j, base, Before(request, events, j).imageBase);
    EndedStays(request, events, j + 1);
  }

  lemma TrapsMean(breakpoints: seq<Breakpoint>, a: U64)
    ensures Installed(breakpoints, a) ==> breakpoints != []
  {
  }

  lemma SameImage(request: Request, events: seq<Event>, n: nat, a: U64, b: U64)
    requires Proper(request) && ImageAt(request, events, n, a) && ImageAt(request, events, n, b)
    ensures a == b
  {
    var i: nat :| LastLocated(request, events, n, i) && events[i].base == a;
    var j: nat :| LastLocated(request, events, n, j) && events[j].base == b;
    assert i == j;
  }

  /** Some image was located before event `j`, and the last one is at `base`. */
  lemma ImageOf(request: Request, events: seq<Event>, j: nat) returns (base: U64)
    requires Proper(request) && request.target.Explicit? && EntryReached(request, events, j)
    ensures ImageAt(request, events, j, base)
  {
    hide Run, ImageAt, Installed, Known;
    ExplicitState(request, events, j);
    TrapsMean(Before(request, events, j).breakpoints, events[j].address);
    base := Before(request, events, j).imageBase;
  }

  /** An explicit session captures exactly when some event reaches the entry
      point so, and captures what that hit shows in the image located last. */
  lemma ExplicitIsExact(request: Request, events: seq<Event>, c: Capture)
    requires Proper(request) && request.target.Explicit?
    ensures c in Run(request, events).Captures()
            <==> exists j: nat, base: U64 ::
                   EntryReached(request, events, j) && ImageAt(request, events, j, base) && c == EntryCapture(request, base, events[j])
    ensures forall j: nat :: EntryReached(request, events, j) ==>
      Run(request, events).Ended? && Run(request, events).error == if events[j].answers.accepted then NoError else CaptureRejected
  {
    hide Step, Run, Trapped, Handled, ImageAt, EntryCapture, IdsKnown, Known;
    if c in Run(request, events).Captures() {
      var j := CapturedWhere(request, events);
      var base := ImageOf(request, events, j);
      ExplicitAt(request, events, j, base);
    }
    forall j: nat, base: U64 | EntryReached(request, events, j) && ImageAt(request, events, j, base)
      ensures EntryCapture(request, base, events[j]) in Run(request, events).Captures()
    {
      ExplicitAt(request, events, j, base);
    }
    forall j: nat | EntryReached(request, events, j)
      ensures Run(request, events).Ended? && Run(request, events).error == if events[j].answers.accepted then NoError else CaptureRejected
    {
      var base := ImageOf(request, events, j);
      ExplicitAt(request, events, j, base);
    }
  }

  lemma {:induction false} CapturedWhere(request: Request, events: seq<Event>) returns (j: nat)
    requires Proper(request) && request.target.Explicit? && Run(request, events).Captures() != []
    ensures EntryReached(request, events, j)
  {
    hide Step, Run, Trapped, IdsKnown, Known, Installed, EntryCapture;
    if Run(request, events).Running? {
      assert events[..|events|] == events;
      ExplicitState(request, events, |events|);
      assert false;
    } else {
      StartsEmpty(request, events);
      j := EndsAt(request, events);
      var s, e := Before(request, events, j), events[j];
      ExplicitState(request, events, j);
      if e.Exception? && e.isBreakpoint && Installed(s.breakpoints, e.address) {
        HitSteps(request, s, e);
      } else {
        OtherSteps(request, s, e);
        assert false;
      }
    }
  }

  lemma {:induction false} StartsEmpty(request: Request, events: seq<Event>)
    requires Proper(request)
    ensures Start(request).Ended? ==> Run(request, events) == Start(request) && Start(request).captures == []
  {
    hide Step;
    if events != [] {
      StartsEmpty(request, events[..|events| - 1]);
    }
  }

  // ---- how a session ends ----

  /** The breakpoint of the entry point can be set in the image that the event shows. */
  ghost predicate EntrySettable(request: Request, s: State, e: Event)
    requires e.CreateProcess? || e.LoadDll?
  {
    var rva := if request.target.Explicit? then request.target.entry else request.target.packedEntry;
    var a := AddressOf(e.base, rva);
    Installed(s.breakpoints, a) || (a in e.env.cells && a in e.env.writable)
  }

  /** The debuggee had an unhandled exception of its own before event `n`. */
  ghost predicate Crashed(events: seq<Event>, n: nat) {
    exists i :: 0 <= i < n && i < |events| && OwnFault(events[i])
  }

  ghost predicate OwnFault(e: Event) {
    e.Exception? && !e.isBreakpoint && e.ofTarget && !e.firstChance
  }

  /** Two byte strings differ, and the second is neither all zeros nor all 0xCC. */
  ghost predicate Changed(before: Bytes, after: Bytes) {
    before != after && (exists i :: 0 <= i < |after| && after[i] != 0) && exists i :: 0 <= i < |after| && after[i] != 0xcc
  }

  /** The hit of candidate `k` meets the four conditions. */
  ghost predicate MeetsAll(request: Request, s: State, e: Event, k: nat)
    requires request.target.Discovery? && e.Exception? && k < Candidates(request) && k < |s.baselines| && Untrapped(s, e).Some?
  {
    var window := Peek(Untrapped(s, e).value.env, AddressOf(s.imageBase, request.target.candidates[k].validationTarget));
    e.thread == s.entryThread && e.answers.stackPointer == s.entryStack && s.attached
    && window.Some? && Changed(s.baselines[k], window.value)
  }

  /** How a breakpoint hit ends the session, if it does. */
  ghost function HitVerdict(request: Request, s: State, e: Event): Option<SessionError>
    requires Proper(request) && Known(request, s) && e.Exception? && Installed(s.breakpoints, e.address)
  {
    var id := EntryAt(s.breakpoints, e.address).value.id;
    if request.target.Explicit? then Some(EntryVerdict(request, e))
    else if !Handled(e) || !e.answers.commits then Some(ProtocolFailure)
    else if id == 1 then
      if Prepare(request, s.imageBase, Untrapped(s, e).value, Candidates(request)).None? then Some(ProtocolFailure) else None
    else
      HitIsKnown(request, s.breakpoints, e.address);
      if MeetsAll(request, s, e, id - 2) then
        if !ImportsGiven(request, e) then Some(ImportSnapshotFailed)
        else Some(if e.answers.accepted then NoError else CaptureRejected)
      else if Forget(s.breakpoints, e.address) == [] then Some(EntryPointNotFound)
      else None
  }

  /** The error with which event `n` ends the session, if it does. */
  ghost function Verdict(request: Request, events: seq<Event>, n: nat): Option<SessionError>
    requires Proper(request) && n < |events| && RunsTo(request, events, n)
  {
    var s, e := Before(request, events, n), events[n];
    match e
    case Stop(StopRequested) => Some(Cancelled)
    case Stop(TimeExpired) => Some(TimedOut)
    case Stop(WaitFailed) => Some(ProtocolFailure)
    case CreateProcess(_, base, mismatch, continues) =>
      if mismatch == Some(WrongMachine) then Some(MachineMismatch)
      else if mismatch == Some(NoWow64) then Some(Wow64Unavailable)
      else if mismatch == Some(PlatformCallFailed) then Some(ProtocolFailure)
      else if request.imageKind.Executable? && request.requiredBase.Some? && request.requiredBase.value != base
        then Some(ControlledBaseUnavailable)
      else if (request.imageKind.Executable? && !EntrySettable(request, s, e)) || !continues then Some(ProtocolFailure)
      else None
    case LoadDll(_, base, isTarget, continues) =>
      var target := request.imageKind.DynamicLibrary? && isTarget && s.imageBase == 0;
      if target && request.requiredBase.Some? && request.requiredBase.value != base then Some(ControlledBaseUnavailable)
      else if (target && !EntrySettable(request, s, e)) || !continues then Some(ProtocolFailure)
      else None
    case Exception(_, isBreakpoint, address, _, _, _, _, _, continues) =>
      var hit := if isBreakpoint && Installed(s.breakpoints, address) then HitVerdict(request, s, e) else None;
      if hit.Some? then hit else if continues then None else Some(ProtocolFailure)
    case ExitProcess(_) =>
      Some(if request.target.Discovery? && !Crashed(events, n) then EntryPointNotFound else TargetExited)
    case Other(continues) => if continues then None else Some(ProtocolFailure)
  }

  lemma ChangedIs(before: Bytes, after: Bytes)
    ensures MeaningfulChange(before, after) <==> Changed(before, after)
  {
  }

  lemma HitVerdictIs(request: Request, s: State, e: Event)
    requires Proper(request) && Known(request, s) && s.captures == [] && e.Exception? && e.isBreakpoint
             && Installed(s.breakpoints, e.address)
    requires request.target.Explicit? ==> (s.attached <==> request.imageKind.Executable?)
    ensures var m, v := Step(request, s, e), HitVerdict(request, s, e);
            if v.Some? then m.Ended? && m.error == v.value
            else if e.continues then m.Running? else m.Ended? && m.error == ProtocolFailure
  {
    if request.target.Explicit? {
      HitSteps(request, s, e);
    } else {
      hide EntryAt, IdsKnown, Forget, Prepare, Peek, MeaningfulChange, Changed;
      HitIsKnown(request, s.breakpoints, e.address);
      forall before, after ensures MeaningfulChange(before, after) <==> Changed(before, after) {
        ChangedIs(before, after);
      }
    }
  }

  lemma UnhandledStep(request: Request, s: State, e: Event)
    requires Proper(request) && Known(request, s) && Step(request, s, e).Running?
    ensures Step(request, s, e).state.unhandled.Some? <==> s.unhandled.Some? || OwnFault(e)
  {
    hide EntryAt, IdsKnown, InstallIn, RestoreIn, Prepare, Peek, MeaningfulChange;
    if e.Exception? && e.isBreakpoint && Installed(s.breakpoints, e.address) {
      HitIsKnown(request, s.breakpoints, e.address);
    }
  }

  lemma {:induction false} CrashedIs(request: Request, events: seq<Event>, n: nat)
    requires Proper(request) && RunsTo(request, events, n)
    ensures Before(request, events, n).unhandled.Some? <==> Crashed(events, n)
  {
    hide Step, Run, Known, OwnFault;
    if n == 0 {
      RunsBegin(request, events);
    } else {
      RunsStep(request, events, n);
      CrashedIs(request, events, n - 1);
      UnhandledStep(request, Before(request, events, n - 1), events[n - 1]);
      if OwnFault(events[n - 1]) {
        assert Crashed(events, n);
      }
    }
  }

  lemma {:induction false} NoCaptureYet(request: Request, events: seq<Event>, n: nat)
    requires Proper(request) && RunsTo(request, events, n)
    ensures Before(request, events, n).captures == []
  {
    hide Run;
    SessionIsHonest(request, events[..n]);
  }

  lemma OtherVerdict(request: Request, events: seq<Event>, n: nat)
    requires Proper(request) && n < |events| && RunsTo(request, events, n)
    requires !(events[n].Exception? && events[n].isBreakpoint && Installed(Before(request, events, n).breakpoints, events[n].address))
    requires Before(request, events, n).unhandled.Some? <==> Crashed(events, n)
    ensures var m, v := Step(request, Before(request, events, n), events[n]), Verdict(request, events, n);
            if v.Some? then m.Ended? && m.error == v.value else m.Running?
  {
    hide Run, Known, EntryAt, Crashed, HitVerdict;
  }

  /** Every event ends the session with its verdict, or leaves it running. */
  lemma VerdictIs(request: Request, events: seq<Event>, n: nat)
    requires Proper(request) && n < |events| && RunsTo(request, events, n)
    ensures var m, v := Run(request, events[..n + 1]), Verdict(request, events, n);
            if v.Some? then m.Ended? && m.error == v.value else m.Running?
  {
    hide Step, Run, Known, Crashed, HitVerdict, Installed;
    CrashedIs(request, events, n);
    NoCaptureYet(request, events, n);
    RunNext(request, events, n);
    var s, e := Before(request, events, n), events[n];
    if e.Exception? && e.isBreakpoint && Installed(s.breakpoints, e.address) {
      if request.target.Explicit? {
        ExplicitState(request, events, n);
      }
      HitVerdictIs(request, s, e);
    } else {
      OtherVerdict(request, events, n);
    }
  }

  /** A session that started ends with an error exactly when the first event
      with a verdict has that verdict. */
  lemma EndingIsExact(request: Request, events: seq<Event>, error: SessionError)
    requires Proper(request) && Start(request).Running?
    ensures Run(request, events).Ended? && Run(request, events).error == error
            <==> exists n: nat :: n < |events| && RunsTo(request, events, n) && Verdict(request, events, n) == Some(error)
  {
    hide Step, Run, Verdict, Start;
    if Run(request, events).Ended? && Run(request, events).error == error {
      var n := EndsAt(request, events);
      VerdictIs(request, events, n);
      RunNext(request, events, n);
    }
    if n: nat :| n < |events| && RunsTo(request, events, n) && Verdict(request, events, n) == Some(error) {
      VerdictIs(request, events, n);
      EndedStays(request, events, n + 1);
    }
  }

  /** Which requests start, and how the others end at once. */
  lemma StartIsExact(request: Request)
    ensures var t := request.target;
            var refused := request.sizeOfImage == 0
                           || (t.Explicit? && (t.entry >= request.sizeOfImage || (request.imageKind.DynamicLibrary? && t.entry == 0)));
            if refused then Start(request) == Ended(InvalidRequest, [])
            else if t.Discovery? && t.candidates == [] then Start(request) == Ended(EntryPointNotFound, [])
            else Start(request).Running?
  {
  }
}
