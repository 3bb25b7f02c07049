/** The debug-event loop that runs a packed target to its original entry point
    and captures its image there. The operating system's answers are part of
    each event. */
module WindowsDebugSession {
  import opened Bytes
  import opened SoftwareBreakpointSet

  const EXPLICIT_ID: U32 := 0
  const PACKED_ENTRY_ID: U32 := 1
  const CANDIDATE_BASE := 2
  const VALIDATION_BYTES := 16
  const MAXIMUM_CANDIDATES := 32
  const PROCESS_ATTACH: U32 := 1

  datatype ImageKind = Executable | DynamicLibrary

  /** Where a packed program may leave its stub, and which bytes must have changed by then. */
  datatype Candidate = Candidate(transfer: U32, target: U32, validationTarget: U32)

  datatype Target =
    | Explicit(entry: U32)
    | Discovery(packedEntry: U32, candidates: seq<Candidate>)

  datatype Request = Request(
    imageKind: ImageKind, target: Target, sizeOfImage: U32, requiredBase: Option<U64>, collectImports: bool)

  /** The locator never proposes more candidates. */
  predicate Proper(request: Request) {
    request.target.Discovery? ==> |request.target.candidates| <= MAXIMUM_CANDIDATES
  }

  datatype SessionError =
    | NoError | InvalidRequest | EntryPointNotFound | ControlledBaseUnavailable | Cancelled | TimedOut | ProtocolFailure
    | MachineMismatch | Wow64Unavailable | TargetLibraryAttachInvalid | ImportSnapshotFailed | TargetExited | CaptureRejected

  /** Why the loop stops by itself. */
  datatype StopReason = StopRequested | TimeExpired | WaitFailed

  /** Why the process does not suit the image format. */
  datatype Mismatch = WrongMachine | NoWow64 | PlatformCallFailed

  function StopError(reason: StopReason): SessionError {
    match reason
    case StopRequested => Cancelled
    case TimeExpired => TimedOut
    case WaitFailed => ProtocolFailure
  }

  function MismatchError(mismatch: Mismatch): SessionError {
    match mismatch
    case WrongMachine => MachineMismatch
    case NoWow64 => Wow64Unavailable
    case PlatformCallFailed => ProtocolFailure
  }

  /** The debuggee's memory when an event arrives. */
  datatype Env = Env(cells: map<U64, Byte>, writable: set<U64>)

  /** What the thread context and the callback answer while one exception is handled. */
  datatype Answers = Answers(
    opens: bool, stackPointer: U64, setsPointer: bool, commits: bool, entryReason: Option<U32>, importsRead: bool, accepted: bool)

  datatype Event =
    | Stop(reason: StopReason)
    | CreateProcess(env: Env, base: U64, mismatch: Option<Mismatch>, continues: bool)
    | LoadDll(env: Env, base: U64, isTarget: bool, continues: bool)
    | Exception(env: Env, isBreakpoint: bool, address: U64, thread: U32, code: U32, firstChance: bool, ofTarget: bool,
                answers: Answers, continues: bool)
    | ExitProcess(continues: bool)
    | Other(continues: bool)

  /** One run of the capture callback. */
  datatype Capture = Capture(
    target: U32, base: U64, thread: U32, stackPointer: U64, before: Option<Bytes>, after: Option<Bytes>, accepted: bool)

  datatype State = State(
    imageBase: U64, entryThread: U32, entryStack: U64, attached: bool, unhandled: Option<U32>, baselines: seq<Bytes>,
    breakpoints: seq<Breakpoint>, captures: seq<Capture>)

  datatype Machine = Running(state: State) | Ended(error: SessionError, captures: seq<Capture>) {
    function Captures(): seq<Capture> {
      if Running? then state.captures else captures
    }
  }

  function Start(request: Request): Machine {
    if request.sizeOfImage == 0 then Ended(InvalidRequest, [])
    else
      match request.target
      case Explicit(entry) =>
        if entry >= request.sizeOfImage || (request.imageKind.DynamicLibrary? && entry == 0) then Ended(InvalidRequest, [])
        else Running(Initial(request))
      case Discovery(_, candidates) =>
        if candidates == [] then Ended(EntryPointNotFound, []) else Running(Initial(request))
  }

  function Initial(request: Request): State {
    var count := if request.target.Discovery? then |request.target.candidates| else 0;
    State(0, 0, 0, request.imageKind.Executable?, None, seq(count, _ => Zeros(VALIDATION_BYTES)), [], [])
  }

  // ---- memory and breakpoints ----

  function At(base: U64, rva: U32): U64 {
    (base + rva) % 0x1_0000_0000_0000_0000
  }

  predicate HasCell(env: Env, address: U64, i: nat) {
    address + i in env.cells
  }

  predicate Mapped(env: Env, address: U64, size: nat) {
    forall i :: 0 <= i < size ==> HasCell(env, address, i)
  }

  /** The validation bytes at an address. */
  function Peek(env: Env, address: U64): Option<Bytes> {
    if !Mapped(env, address, VALIDATION_BYTES) then None
    else Some(seq(VALIDATION_BYTES, i requires 0 <= i < VALIDATION_BYTES => assert HasCell(env, address, i); env.cells[address + i]))
  }

  datatype Armed = Armed(breakpoints: seq<Breakpoint>, env: Env)

  function InstallIn(a: Armed, address: U64, id: U32): Option<Armed> {
    if Installed(a.breakpoints, address) then Some(a)
    else if address !in a.env.cells || address !in a.env.writable then None
    else
      Some(Armed(a.breakpoints + [Breakpoint(address, id, a.env.cells[address])],
                 a.env.(cells := a.env.cells[address := TRAP])))
  }

  function Forget(breakpoints: seq<Breakpoint>, address: U64): seq<Breakpoint> {
    if breakpoints == [] then []
    else if breakpoints[0].address == address then breakpoints[1..]
    else [breakpoints[0]] + Forget(breakpoints[1..], address)
  }

  function RestoreIn(a: Armed, address: U64): Option<Armed> {
    var entry := EntryAt(a.breakpoints, address);
    if entry.None? then Some(a)
    else if address !in a.env.cells || address !in a.env.writable then None
    else
      Some(Armed(Forget(a.breakpoints, address), a.env.(cells := a.env.cells[address := entry.value.original])))
  }

  predicate AllAre(s: Bytes, v: Byte) {
    forall i :: 0 <= i < |s| ==> s[i] == v
  }

  /** The bytes changed, and not just to zeros or traps. */
  predicate MeaningfulChange(before: Bytes, after: Bytes) {
    before != after && !AllAre(after, 0) && !AllAre(after, TRAP)
  }

  // ---- one event ----

  function EntryAddress(request: Request, base: U64): U64 {
    At(base, if request.target.Explicit? then request.target.entry else request.target.packedEntry)
  }

  function EntryId(request: Request): U32 {
    if request.target.Explicit? then EXPLICIT_ID else PACKED_ENTRY_ID
  }

  /** The target's image appeared at `base`. */
  function Located(request: Request, s: State, env: Env, base: U64): Machine {
    if request.requiredBase.Some? && base != request.requiredBase.value then Ended(ControlledBaseUnavailable, s.captures)
    else
      var armed := InstallIn(Armed(s.breakpoints, env), EntryAddress(request, base), EntryId(request));
      if armed.None? then Ended(ProtocolFailure, s.captures)
      else Running(s.(imageBase := base, breakpoints := armed.value.breakpoints))
  }

  /** Whether process attachment is established after a hit at an entry point. */
  function AttachedAfter(request: Request, s: State, x: Answers): bool {
    if request.imageKind.DynamicLibrary? then x.entryReason == Some(PROCESS_ATTACH) else s.attached
  }

  /** The callback runs unless the import snapshot fails. */
  function Captured(request: Request, s: State, x: Answers, capture: Capture): Machine {
    if request.collectImports && !x.importsRead then Ended(ImportSnapshotFailed, s.captures)
    else Ended(if capture.accepted then NoError else CaptureRejected, s.captures + [capture])
  }

  function ExplicitHit(request: Request, s: State, thread: U32, x: Answers): Machine
    requires request.target.Explicit?
  {
    var attached := AttachedAfter(request, s, x);
    if !x.commits then Ended(ProtocolFailure, s.captures)
    else if !attached then
      Ended(if request.collectImports && !x.importsRead then ImportSnapshotFailed else TargetLibraryAttachInvalid, s.captures)
    else
      Captured(request, s, x,
               Capture(request.target.entry, s.imageBase, thread, x.stackPointer, None, None, x.accepted))
  }

  datatype Prepared = Prepared(baselines: seq<Bytes>, armed: Armed)

  /** Baselines and breakpoints of the first `n` candidates. */
  function Prepare(request: Request, base: U64, start: Armed, n: nat): (p: Option<Prepared>)
    requires request.target.Discovery? && n <= |request.target.candidates| && Proper(request)
    ensures p.Some? ==> |p.value.baselines| == n
  {
    if n == 0 then Some(Prepared([], start))
    else
      var before, c := Prepare(request, base, start, n - 1), request.target.candidates[n - 1];
      if before.None? then None
      else
        var baseline := Peek(before.value.armed.env, At(base, c.validationTarget));
        var armed := InstallIn(before.value.armed, At(base, c.transfer), CANDIDATE_BASE + (n - 1));
        if baseline.None? || armed.None? then None
        else Some(Prepared(before.value.baselines + [baseline.value], armed.value))
  }

  function PackedEntryHit(request: Request, s: State, armed: Armed, thread: U32, x: Answers): Machine
    requires request.target.Discovery? && Proper(request)
  {
    if !x.commits then Ended(ProtocolFailure, s.captures)
    else
      var prepared := Prepare(request, s.imageBase, armed, |request.target.candidates|);
      if prepared.None? then Ended(ProtocolFailure, s.captures)
      else
        Running(s.(entryThread := thread, entryStack := x.stackPointer, attached := AttachedAfter(request, s, x),
                   baselines := prepared.value.baselines, breakpoints := prepared.value.armed.breakpoints))
  }

  /** A candidate is the way out when the entry thread reaches it with the
      entry stack after attaching, and its window no longer reads as the
      baseline, nor as all zeros or traps. */
  predicate ValidHit(s: State, index: nat, thread: U32, x: Answers, current: Option<Bytes>)
    requires index < |s.baselines|
  {
    thread == s.entryThread && x.stackPointer == s.entryStack && s.attached && current.Some?
    && MeaningfulChange(s.baselines[index], current.value)
  }

  function CandidateHit(request: Request, s: State, armed: Armed, index: nat, thread: U32, x: Answers): Machine
    requires request.target.Discovery? && index < |request.target.candidates| == |s.baselines|
  {
    var c := request.target.candidates[index];
    var current := Peek(armed.env, At(s.imageBase, c.validationTarget));
    if !x.commits then Ended(ProtocolFailure, s.captures)
    else if ValidHit(s, index, thread, x, current) then
      Captured(request, s, x,
               Capture(c.target, s.imageBase, thread, x.stackPointer, Some(s.baselines[index]), current, x.accepted))
    else if armed.breakpoints == [] then Ended(EntryPointNotFound, s.captures)
    else Running(s.(breakpoints := armed.breakpoints))
  }

  /** The breakpoint identifiers that the session installs. */
  ghost predicate IdsKnown(request: Request, breakpoints: seq<Breakpoint>) {
    forall k :: 0 <= k < |breakpoints| ==> IdKnown(request, breakpoints[k].id)
  }

  predicate IdKnown(request: Request, id: U32) {
    if request.target.Explicit? then id == EXPLICIT_ID
    else id == PACKED_ENTRY_ID || CANDIDATE_BASE <= id < CANDIDATE_BASE + |request.target.candidates|
  }

  ghost predicate Known(request: Request, s: State) {
    IdsKnown(request, s.breakpoints) && (request.target.Discovery? ==> |s.baselines| == |request.target.candidates|)
  }

  lemma HitIsKnown(request: Request, breakpoints: seq<Breakpoint>, address: U64)
    requires IdsKnown(request, breakpoints) && EntryAt(breakpoints, address).Some?
    ensures IdKnown(request, EntryAt(breakpoints, address).value.id)
  {
    hide EntryAt;
    EntryIsListed(breakpoints, address);
  }

  /** A breakpoint of the session was hit. */
  function Hit(request: Request, s: State, env: Env, address: U64, thread: U32, x: Answers): Machine
    requires Known(request, s) && Proper(request) && EntryAt(s.breakpoints, address).Some?
  {
    HitIsKnown(request, s.breakpoints, address);
    var id := EntryAt(s.breakpoints, address).value.id;
    if !x.opens then Ended(ProtocolFailure, s.captures)
    else
      var armed := RestoreIn(Armed(s.breakpoints, env), address);
      if armed.None? || !x.setsPointer then Ended(ProtocolFailure, s.captures)
      else if id == EXPLICIT_ID then ExplicitHit(request, s, thread, x)
      else if id == PACKED_ENTRY_ID then PackedEntryHit(request, s, armed.value, thread, x)
      else CandidateHit(request, s, armed.value, id - CANDIDATE_BASE, thread, x)
  }

  /** An event that ends nothing ends the session where the debuggee cannot be continued. */
  function Continued(m: Machine, continues: bool): Machine {
    if m.Running? && !continues then Ended(ProtocolFailure, m.state.captures) else m
  }

  function Step(request: Request, s: State, e: Event): Machine
    requires Known(request, s) && Proper(request)
  {
    match e
    case Stop(reason) => Ended(StopError(reason), s.captures)
    case CreateProcess(env, base, mismatch, continues) =>
      if mismatch.Some? then Ended(MismatchError(mismatch.value), s.captures)
      else if request.imageKind.DynamicLibrary? then Continued(Running(s), continues)
      else Continued(Located(request, s, env, base), continues)
    case LoadDll(env, base, isTarget, continues) =>
      if request.imageKind.DynamicLibrary? && s.imageBase == 0 && isTarget
        then Continued(Located(request, s, env, base), continues)
      else Continued(Running(s), continues)
    case Exception(env, isBreakpoint, address, thread, code, firstChance, ofTarget, x, continues) =>
      if isBreakpoint && Installed(s.breakpoints, address) then Continued(Hit(request, s, env, address, thread, x), continues)
      else if isBreakpoint then Continued(Running(s), continues)
      else Continued(Running(if ofTarget && !firstChance then s.(unhandled := Some(code)) else s), continues)
    case ExitProcess(_) =>
      Ended(if request.target.Discovery? && s.unhandled.None? then EntryPointNotFound else TargetExited, s.captures)
    case Other(continues) => Continued(Running(s), continues)
  }

  // ---- whole runs ----

  lemma ForgetKeepsIds(request: Request, breakpoints: seq<Breakpoint>, address: U64)
    requires IdsKnown(request, breakpoints)
    ensures IdsKnown(request, Forget(breakpoints, address))
  {
    hide IdKnown;
    if breakpoints != [] && breakpoints[0].address != address {
      assert forall k :: 0 <= k < |breakpoints[1..]| ==> breakpoints[1..][k] == breakpoints[k + 1];
      ForgetKeepsIds(request, breakpoints[1..], address);
    } else if breakpoints != [] {
      assert forall k :: 0 <= k < |breakpoints[1..]| ==> breakpoints[1..][k] == breakpoints[k + 1];
    }
  }

  lemma InstallKeepsIds(request: Request, a: Armed, address: U64, id: U32)
    requires IdsKnown(request, a.breakpoints) && IdKnown(request, id)
    ensures InstallIn(a, address, id).Some? ==> IdsKnown(request, InstallIn(a, address, id).value.breakpoints)
  {
    hide IdKnown, EntryAt;
  }

  lemma {:induction false} PrepareKeepsIds(request: Request, base: U64, start: Armed, n: nat)
    requires request.target.Discovery? && n <= |request.target.candidates| && Proper(request)
    requires IdsKnown(request, start.breakpoints)
    ensures var p := Prepare(request, base, start, n); p.Some? ==> IdsKnown(request, p.value.armed.breakpoints)
  {
    hide InstallIn, Peek, IdsKnown;
    if n > 0 {
      PrepareKeepsIds(request, base, start, n - 1);
      var before := Prepare(request, base, start, n - 1);
      if before.Some? {
        InstallKeepsIds(request, before.value.armed, At(base, request.target.candidates[n - 1].transfer), CANDIDATE_BASE + (n - 1));
      }
    }
  }

  lemma LocatedKeepsKnown(request: Request, s: State, env: Env, base: U64)
    requires Known(request, s) && Proper(request)
    ensures Located(request, s, env, base).Running? ==> Known(request, Located(request, s, env, base).state)
  {
    hide InstallIn, IdsKnown;
    InstallKeepsIds(request, Armed(s.breakpoints, env), EntryAddress(request, base), EntryId(request));
  }

  lemma HitKeepsKnown(request: Request, s: State, env: Env, address: U64, thread: U32, x: Answers)
    requires Known(request, s) && Proper(request) && EntryAt(s.breakpoints, address).Some?
    ensures var m := Hit(request, s, env, address, thread, x); m.Running? ==> Known(request, m.state)
  {
    hide Peek, IdsKnown, Prepare, EntryAt, Forget;
    ForgetKeepsIds(request, s.breakpoints, address);
    HitIsKnown(request, s.breakpoints, address);
    var armed := RestoreIn(Armed(s.breakpoints, env), address);
    if armed.Some? && request.target.Discovery? {
      PrepareKeepsIds(request, s.imageBase, armed.value, |request.target.candidates|);
    }
  }

  lemma StepKeepsKnown(request: Request, s: State, e: Event)
    requires Known(request, s) && Proper(request)
    ensures Step(request, s, e).Running? ==> Known(request, Step(request, s, e).state)
  {
    hide Located, Hit, EntryAt, IdsKnown;
    match e
    case CreateProcess(env, base, _, _) => LocatedKeepsKnown(request, s, env, base);
    case LoadDll(env, base, _, _) => LocatedKeepsKnown(request, s, env, base);
    case Exception(env, isBreakpoint, address, thread, _, _, _, x, _) =>
      if isBreakpoint && Installed(s.breakpoints, address) {
        HitKeepsKnown(request, s, env, address, thread, x);
      }
    case _ =>
  }

  /** The session after a sequence of events. */
  function Run(request: Request, events: seq<Event>): (m: Machine)
    requires Proper(request)
    ensures m.Running? ==> Known(request, m.state)
  {
    if events == [] then Start(request)
    else
      var before, n := Run(request, events[..|events| - 1]), |events| - 1;
      if before.Ended? then before
      else
        StepKeepsKnown(request, before.state, events[n]);
        Step(request, before.state, events[n])
  }

  // ---- the loop ----

  class DebugSession {
    const request: Request
    var imageBase: U64
    var entryThread: U32
    var entryStack: U64
    var attached: bool
    var unhandled: Option<U32>
    var baselines: seq<Bytes>
    var breakpoints: seq<Breakpoint>
    var captures: seq<Capture>

    ghost function Snapshot(): State
      reads this
    {
      State(imageBase, entryThread, entryStack, attached, unhandled, baselines, breakpoints, captures)
    }

    constructor (request: Request)
      ensures this.request == request && Snapshot() == Initial(request)
    {
      this.request := request;
      imageBase, entryThread, entryStack, attached := 0, 0, 0, request.imageKind.Executable?;
      unhandled, breakpoints, captures := None, [], [];
      baselines := seq(if request.target.Discovery? then |request.target.candidates| else 0, _ => Zeros(VALIDATION_BYTES));
    }

    /** The session continues in the given state, or ends as given. */
    ghost predicate Follows(m: Machine, end: Option<SessionError>)
      reads this
    {
      match m
      case Running(s) => end == None && Snapshot() == s
      case Ended(error, made) => end == Some(error) && captures == made
    }

    /** Sets the entry breakpoint where the image appeared. */
    method Locate(env: Env, base: U64) returns (end: Option<SessionError>)
      modifies this
      ensures Follows(Located(request, old(Snapshot()), env, base), end)
    {
      hide InstallIn;
      if request.requiredBase.Some? && base != request.requiredBase.value {
        return Some(ControlledBaseUnavailable);
      }
      var armed := InstallIn(Armed(breakpoints, env), EntryAddress(request, base), EntryId(request));
      if armed == None {
        return Some(ProtocolFailure);
      }
      imageBase, breakpoints := base, armed.value.breakpoints;
      end := None;
    }

    /** Runs the callback, if the imports can be read where they are wanted. */
    method RunCapture(x: Answers, capture: Capture) returns (end: Option<SessionError>)
      modifies this
      ensures Follows(Captured(request, old(Snapshot()), x, capture), end)
    {
      if request.collectImports && !x.importsRead {
        return Some(ImportSnapshotFailed);
      }
      captures := captures + [capture];
      end := Some(if capture.accepted then NoError else CaptureRejected);
    }

    /** Takes the baselines and sets the candidates' breakpoints. */
    method PrepareCandidates(start: Armed) returns (ok: bool)
      requires request.target.Discovery? && Proper(request) && |baselines| == |request.target.candidates|
      modifies this`baselines, this`breakpoints
      ensures var p := Prepare(request, imageBase, start, |request.target.candidates|);
              ok == p.Some? && (ok ==> baselines == p.value.baselines && breakpoints == p.value.armed.breakpoints)
    {
      hide InstallIn, Peek;
      var candidates := request.target.candidates;
      breakpoints := start.breakpoints;
      var env := start.env;
      var index := 0;
      while index < |candidates|
        invariant 0 <= index <= |candidates| == |baselines|
        invariant var p := Prepare(request, imageBase, start, index);
                  p.Some? && p.value.baselines == baselines[..index] && p.value.armed == Armed(breakpoints, env)
      {
        var c := candidates[index];
        var baseline := Peek(env, At(imageBase, c.validationTarget));
        var armed := InstallIn(Armed(breakpoints, env), At(imageBase, c.transfer), CANDIDATE_BASE + index);
        if baseline == None || armed == None {
          PrepareStops(request, imageBase, start, index + 1);
          return false;
        }
        ghost var before := baselines;
        baselines := baselines[index := baseline.value];
        assert baselines[..index + 1] == before[..index] + [baseline.value];
        breakpoints, env := armed.value.breakpoints, armed.value.env;
        index := index + 1;
      }
      assert baselines[..index] == baselines;
      ok := true;
    }

    /** One breakpoint of the session was hit. */
    method HandleHit(env: Env, address: U64, thread: U32, x: Answers) returns (end: Option<SessionError>)
      requires Known(request, Snapshot()) && Proper(request) && EntryAt(breakpoints, address).Some?
      modifies this
      ensures Follows(Hit(request, old(Snapshot()), env, address, thread, x), end)
    {
      hide Peek, EntryAt, Prepare, RestoreIn, IdsKnown, MeaningfulChange;
      HitIsKnown(request, breakpoints, address);
      var id := EntryAt(breakpoints, address).value.id;
      if !x.opens {
        return Some(ProtocolFailure);
      }
      var armed := RestoreIn(Armed(breakpoints, env), address);
      if armed == None || !x.setsPointer {
        return Some(ProtocolFailure);
      }
      if id == EXPLICIT_ID {
        if request.imageKind.DynamicLibrary? {
          attached := x.entryReason == Some(PROCESS_ATTACH);
        }
        if !x.commits {
          return Some(ProtocolFailure);
        }
        if !attached {
          return Some(if request.collectImports && !x.importsRead then ImportSnapshotFailed else TargetLibraryAttachInvalid);
        }
        end := RunCapture(x, Capture(request.target.entry, imageBase, thread, x.stackPointer, None, None, x.accepted));
      } else if id == PACKED_ENTRY_ID {
        entryThread, entryStack := thread, x.stackPointer;
        if request.imageKind.DynamicLibrary? {
          attached := x.entryReason == Some(PROCESS_ATTACH);
        }
        if !x.commits {
          return Some(ProtocolFailure);
        }
        var ok := PrepareCandidates(armed.value);
        end := if ok then None else Some(ProtocolFailure);
      } else {
        var index := id - CANDIDATE_BASE;
        var c := request.target.candidates[index];
        var current := Peek(armed.value.env, At(imageBase, c.validationTarget));
        var valid := thread == entryThread && x.stackPointer == entryStack && attached && current.Some?
                     && MeaningfulChange(baselines[index], current.value);
        breakpoints := armed.value.breakpoints;
        if !x.commits {
          return Some(ProtocolFailure);
        }
        if valid {
          end := RunCapture(x, Capture(c.target, imageBase, thread, x.stackPointer, Some(baselines[index]), current, x.accepted));
        } else {
          end := if breakpoints == [] then Some(EntryPointNotFound) else None;
        }
      }
    }

    method Handle(e: Event) returns (end: Option<SessionError>)
      requires Known(request, Snapshot()) && Proper(request)
      modifies this
      ensures Follows(Step(request, old(Snapshot()), e), end)
    {
      hide Located, Hit, EntryAt, IdsKnown;
      match e {
        case Stop(reason) =>
          return Some(StopError(reason));
        case CreateProcess(env, base, mismatch, continues) =>
          if mismatch.Some? {
            return Some(MismatchError(mismatch.value));
          }
          end := None;
          if request.imageKind.Executable? {
            end := Locate(env, base);
          }
          if end == None && !continues {
            return Some(ProtocolFailure);
          }
        case LoadDll(env, base, isTarget, continues) =>
          end := None;
          if request.imageKind.DynamicLibrary? && imageBase == 0 && isTarget {
            end := Locate(env, base);
          }
          if end == None && !continues {
            return Some(ProtocolFailure);
          }
        case Exception(env, isBreakpoint, address, thread, code, firstChance, ofTarget, x, continues) =>
          end := None;
          if isBreakpoint {
            if Installed(breakpoints, address) {
              end := HandleHit(env, address, thread, x);
            }
          } else if ofTarget && !firstChance {
            unhandled := Some(code);
          }
          if end == None && !continues {
            return Some(ProtocolFailure);
          }
        case ExitProcess(_) =>
          return Some(if request.target.Discovery? && unhandled.None? then EntryPointNotFound else TargetExited);
        case Other(continues) =>
          end := if continues then None else Some(ProtocolFailure);
      }
    }
  }

  lemma {:induction false} PrepareStops(request: Request, base: U64, start: Armed, n: nat)
    requires request.target.Discovery? && n <= |request.target.candidates| && Proper(request)
    requires Prepare(request, base, start, n).None?
    ensures Prepare(request, base, start, |request.target.candidates|).None?
    decreases |request.target.candidates| - n
  {
    hide InstallIn, Peek;
    if n < |request.target.candidates| {
      PrepareStops(request, base, start, n + 1);
    }
  }

  /** The event loop; it returns nothing while the events do not end the session. */
  method Capturing(request: Request, events: seq<Event>) returns (end: Option<SessionError>, captures: seq<Capture>)
    requires Proper(request)
    ensures var m := Run(request, events);
            captures == m.Captures() && end == if m.Ended? then Some(m.error) else None
  {
    hide Step, IdsKnown;
    var start := Start(request);
    if start.Ended? {
      EndedStays(request, events, 0);
      return Some(start.error), [];
    }
    var session := new DebugSession(request);
    var index := 0;
    assert events[..0] == [];
    while index < |events|
      invariant 0 <= index <= |events| && session.request == request
      invariant Run(request, events[..index]) == Running(session.Snapshot())
    {
      assert events[..index + 1][..index] == events[..index];
      StepKeepsKnown(request, session.Snapshot(), events[index]);
      end := session.Handle(events[index]);
      index := index + 1;
      if end.Some? {
        EndedStays(request, events, index);
        return end, session.captures;
      }
    }
    assert events[..index] == events;
    return None, session.captures;
  }

  lemma {:induction false} EndedStays(request: Request, events: seq<Event>, n: nat)
    requires Proper(request) && n <= |events| && Run(request, events[..n]).Ended?
    ensures Run(request, events) == Run(request, events[..n])
    decreases |events| - n
  {
    hide Step;
    if n < |events| {
      assert events[..n + 1][..n] == events[..n];
      EndedStays(request, events, n + 1);
    } else {
      assert events[..n] == events;
    }
  }
}
