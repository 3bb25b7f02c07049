/** Safety of the debug session over every sequence of events. */
module DebugSessionLaws {
  import opened Bytes
  import opened SoftwareBreakpointSet
  import opened WindowsDebugSession

  // ---- one capture, and success ----

  /** The callback has run at most once; it has run and returned true exactly
      when the session reports success. */
  ghost predicate Honest(m: Machine) {
    if m.Running? then m.state.captures == []
    else |m.captures| <= 1 && (m.error == NoError <==> |m.captures| == 1 && m.captures[0].accepted)
  }

  lemma StepIsHonest(request: Request, s: State, e: Event)
    requires Known(request, s) && Proper(request) && s.captures == []
    ensures Honest(Step(request, s, e))
  {
    hide EntryAt, InstallIn, RestoreIn, Peek, Prepare, IdsKnown, MeaningfulChange;
    match e
    case Exception(_, isBreakpoint, address, _, _, _, _, _, _) =>
      if isBreakpoint && Installed(s.breakpoints, address) {
        HitIsKnown(request, s.breakpoints, address);
      }
    case _ =>
  }

  /** Over every event sequence the callback runs at most once, and success is
      reported exactly when it ran and returned true. */
  lemma {:induction false} SessionIsHonest(request: Request, events: seq<Event>)
    requires Proper(request)
    ensures Honest(Run(request, events))
  {
    hide Step, IdsKnown;
    if events != [] {
      SessionIsHonest(request, events[..|events| - 1]);
      var before := Run(request, events[..|events| - 1]);
      if before.Running? {
        StepIsHonest(request, before.state, events[|events| - 1]);
      }
    }
  }

  // ---- how a step moves a discovery session ----

  /** The event shows where the target's image is. */
  ghost predicate Locates(request: Request, s: State, e: Event) {
    (e.CreateProcess? && request.imageKind.Executable?)
    || (e.LoadDll? && request.imageKind.DynamicLibrary? && e.isTarget && s.imageBase == 0)
  }

  /** The event is a hit of the session's breakpoint `id`. */
  ghost predicate Hits(s: State, e: Event, id: int) {
    e.Exception? && e.isBreakpoint && Installed(s.breakpoints, e.address) && EntryAt(s.breakpoints, e.address).value.id == id
  }

  /** Breakpoints and memory after the trap at the address of a hit was taken out. */
  function Untrapped(s: State, e: Event): Option<Armed>
    requires e.Exception?
  {
    RestoreIn(Armed(s.breakpoints, e.env), e.address)
  }

  function Candidates(request: Request): nat
    requires request.target.Discovery?
  {
    |request.target.candidates|
  }

  ghost predicate SameRecord(s: State, s': State) {
    s'.entryThread == s.entryThread && s'.entryStack == s.entryStack && s'.attached == s.attached && s'.baselines == s.baselines
  }

  ghost predicate MovedByLocating(request: Request, s: State, e: Event, s': State) {
    Locates(request, s, e) && s'.imageBase == e.base && SameRecord(s, s')
    && var armed := InstallIn(Armed(s.breakpoints, e.env), EntryAddress(request, e.base), PACKED_ENTRY_ID);
       armed.Some? && s'.breakpoints == armed.value.breakpoints
  }

  /** What the hit of the packed entry point recorded. */
  ghost predicate Recorded(request: Request, s: State, e: Event, s': State)
    requires request.target.Discovery? && Proper(request)
  {
    Hits(s, e, PACKED_ENTRY_ID) && Untrapped(s, e).Some?
    && s'.entryThread == e.thread && s'.entryStack == e.answers.stackPointer
    && (s'.attached && request.imageKind.DynamicLibrary? ==> e.answers.entryReason == Some(PROCESS_ATTACH))
    && var p := Prepare(request, s.imageBase, Untrapped(s, e).value, Candidates(request));
       p.Some? && s'.baselines == p.value.baselines
  }

  ghost predicate MovedByEntry(request: Request, s: State, e: Event, s': State)
    requires request.target.Discovery? && Proper(request)
  {
    Recorded(request, s, e, s') && s'.imageBase == s.imageBase
    && s'.breakpoints == Prepare(request, s.imageBase, Untrapped(s, e).value, Candidates(request)).value.armed.breakpoints
  }

  ghost predicate MovedByCandidate(s: State, e: Event, s': State) {
    e.Exception? && s'.imageBase == s.imageBase && SameRecord(s, s') && s'.breakpoints == Forget(s.breakpoints, e.address)
  }

  ghost predicate Unmoved(s: State, s': State) {
    s'.imageBase == s.imageBase && SameRecord(s, s') && s'.breakpoints == s.breakpoints
  }

  lemma StepMoves(request: Request, s: State, e: Event)
    requires request.target.Discovery? && Known(request, s) && Proper(request) && Step(request, s, e).Running?
    ensures var s' := Step(request, s, e).state;
            MovedByLocating(request, s, e, s')
            || (!Locates(request, s, e)
                && (MovedByEntry(request, s, e, s') || MovedByCandidate(s, e, s') || Unmoved(s, s')))
  {
    hide EntryAt, Peek, IdsKnown, Prepare, InstallIn, Forget, At, MeaningfulChange;
    if e.Exception? && e.isBreakpoint && Installed(s.breakpoints, e.address) {
      HitIsKnown(request, s.breakpoints, e.address);
    }
  }

  // ---- runs ----

  ghost predicate RunsTo(request: Request, events: seq<Event>, n: nat)
    requires Proper(request)
  {
    n <= |events| && Run(request, events[..n]).Running?
  }

  /** The session before event `n`. */
  ghost function Before(request: Request, events: seq<Event>, n: nat): (s: State)
    requires Proper(request) && RunsTo(request, events, n)
    ensures Known(request, s)
  {
    Run(request, events[..n]).state
  }

  lemma RunsStep(request: Request, events: seq<Event>, n: nat)
    requires Proper(request) && 0 < n && RunsTo(request, events, n)
    ensures RunsTo(request, events, n - 1)
    ensures Step(request, Before(request, events, n - 1), events[n - 1]) == Running(Before(request, events, n))
  {
    hide Step, IdsKnown;
    assert events[..n][..n - 1] == events[..n - 1];
  }

  lemma RunsBegin(request: Request, events: seq<Event>)
    requires Proper(request) && RunsTo(request, events, 0)
    ensures Before(request, events, 0) == Initial(request)
  {
    assert events[..0] == [];
  }

  ghost predicate LocatedAt(request: Request, events: seq<Event>, l: nat)
    requires Proper(request)
  {
    l < |events| && RunsTo(request, events, l) && Locates(request, Before(request, events, l), events[l])
  }

  /** Before event `n` the image was last seen at `base`. */
  ghost predicate ImageAt(request: Request, events: seq<Event>, n: nat, base: U64)
    requires Proper(request)
  {
    exists l: nat :: LastLocated(request, events, n, l) && events[l].base == base
  }

  ghost predicate LastLocated(request: Request, events: seq<Event>, n: nat, l: nat)
    requires Proper(request)
  {
    l < n && LocatedAt(request, events, l) && forall other :: l < other < n ==> !LocatedAt(request, events, other)
  }

  /** The debugger reports the target's image once. */
  ghost predicate LocatedOnce(request: Request, events: seq<Event>)
    requires Proper(request)
  {
    forall a: nat, b: nat :: LocatedAt(request, events, a) && LocatedAt(request, events, b) ==> a == b
  }

  // -- breakpoints stand only where an image was located

  lemma ForgetNothing(breakpoints: seq<Breakpoint>, address: U64)
    ensures breakpoints == [] ==> Forget(breakpoints, address) == []
  {
  }

  lemma {:induction false} RunImage(request: Request, events: seq<Event>, n: nat)
    requires request.target.Discovery? && Proper(request) && RunsTo(request, events, n)
    ensures var s := Before(request, events, n); s.breakpoints != [] ==> ImageAt(request, events, n, s.imageBase)
  {
    hide Step, Run, Prepare, InstallIn, EntryAt, IdsKnown, RestoreIn, Forget, Known, At;
    if n == 0 {
      RunsBegin(request, events);
    } else {
      RunsStep(request, events, n);
      RunImage(request, events, n - 1);
      var s, e, s' := Before(request, events, n - 1), events[n - 1], Before(request, events, n);
      StepMoves(request, s, e);
      if MovedByLocating(request, s, e, s') {
        assert LocatedAt(request, events, n - 1);
        assert LastLocated(request, events, n, n - 1);
      } else if s'.breakpoints != [] {
        assert !LocatedAt(request, events, n - 1);
        if s.breakpoints == [] {
          ForgetNothing(s.breakpoints, if e.Exception? then e.address else 0);
          NothingHit(s, e);
          assert false;
        } else {
          var l: nat :| LastLocated(request, events, n - 1, l) && events[l].base == s.imageBase;
          assert LastLocated(request, events, n, l);
        }
      }
    }
  }

  lemma NothingHit(s: State, e: Event)
    requires s.breakpoints == []
    ensures forall id :: !Hits(s, e, id)
  {
  }

  // -- each address is trapped once

  lemma InstallDistinct(a: Armed, address: U64, id: U32)
    requires Distinct(a.breakpoints) && InstallIn(a, address, id).Some?
    ensures Distinct(InstallIn(a, address, id).value.breakpoints)
  {
    hide EntryAt;
    EntryIsListed(a.breakpoints, address);
  }

  lemma {:induction false} PrepareDistinct(request: Request, base: U64, start: Armed, n: nat)
    requires request.target.Discovery? && n <= Candidates(request) && Proper(request)
    requires Prepare(request, base, start, n).Some?
    requires Distinct(start.breakpoints)
    ensures Distinct(Prepare(request, base, start, n).value.armed.breakpoints)
  {
    hide InstallIn, Peek, At, Distinct;
    if n > 0 {
      PrepareDistinct(request, base, start, n - 1);
      InstallDistinct(Prepare(request, base, start, n - 1).value.armed, At(base, request.target.candidates[n - 1].transfer),
                      CANDIDATE_BASE + (n - 1));
    }
  }

  /** Forgetting takes the address out and keeps every other entry. */
  lemma {:induction false} ForgetIs(breakpoints: seq<Breakpoint>, address: U64)
    requires Distinct(breakpoints)
    ensures var f := Forget(breakpoints, address);
            Distinct(f) && (forall b :: b in f <==> b in breakpoints && b.address != address)
    ensures forall a: U64 :: EntryAt(Forget(breakpoints, address), a) == if a == address then None else EntryAt(breakpoints, a)
  {
    if breakpoints != [] {
      var first, rest := breakpoints[0], breakpoints[1..];
      assert forall i :: 0 <= i < |rest| ==> rest[i] == breakpoints[i + 1];
      assert forall b :: b in breakpoints <==> b == first || b in rest;
      if first.address == address {
        forall b | b in rest ensures b.address != address {
          var i :| 0 <= i < |rest| && rest[i] == b;
        }
        EntryIsListed(rest, address);
      } else {
        ForgetIs(rest, address);
        var f := Forget(rest, address);
        assert ([first] + f)[1..] == f;
        forall b | b in f ensures b.address != first.address {
          var i :| 0 <= i < |rest| && rest[i] == b;
        }
        assert forall b :: b in [first] + f <==> b == first || b in f;
      }
    }
  }

  lemma {:induction false} RunDistinct(request: Request, events: seq<Event>, n: nat)
    requires request.target.Discovery? && Proper(request) && RunsTo(request, events, n)
    ensures Distinct(Before(request, events, n).breakpoints)
  {
    hide Step, Run, Prepare, InstallIn, EntryAt, IdsKnown, Forget, Known, At, Distinct;
    if n == 0 {
      RunsBegin(request, events);
      NothingDistinct();
    } else {
      RunsStep(request, events, n);
      RunDistinct(request, events, n - 1);
      var s, e, s' := Before(request, events, n - 1), events[n - 1], Before(request, events, n);
      StepMoves(request, s, e);
      if MovedByLocating(request, s, e, s') {
        InstallDistinct(Armed(s.breakpoints, e.env), EntryAddress(request, e.base), PACKED_ENTRY_ID);
      } else if e.Exception? {
        ForgetIs(s.breakpoints, e.address);
        if MovedByEntry(request, s, e, s') {
          PrepareDistinct(request, s.imageBase, Untrapped(s, e).value, Candidates(request));
        }
      }
    }
  }

  lemma NothingDistinct()
    ensures Distinct([])
  {
  }

  // -- the recorded entry

  ghost predicate HasCandidate(breakpoints: seq<Breakpoint>) {
    exists k :: 0 <= k < |breakpoints| && breakpoints[k].id >= CANDIDATE_BASE
  }

  /** Event `i` is the hit of the packed entry point whose record `s` holds. */
  ghost predicate EntryOf(request: Request, events: seq<Event>, i: nat, s: State)
    requires request.target.Discovery? && Proper(request)
  {
    i < |events| && RunsTo(request, events, i) && Recorded(request, Before(request, events, i), events[i], s)
  }

  lemma ForgetHasNoNew(breakpoints: seq<Breakpoint>, address: U64)
    ensures HasCandidate(Forget(breakpoints, address)) ==> HasCandidate(breakpoints)
  {
    if breakpoints != [] {
      assert forall k :: 0 <= k < |breakpoints[1..]| ==> breakpoints[1..][k] == breakpoints[k + 1];
      if breakpoints[0].address != address {
        ForgetHasNoNew(breakpoints[1..], address);
        assert forall k :: 1 <= k < |Forget(breakpoints, address)| ==>
          Forget(breakpoints, address)[k] == Forget(breakpoints[1..], address)[k - 1];
      }
    }
  }

  lemma InstallHasNoNew(a: Armed, address: U64)
    requires InstallIn(a, address, PACKED_ENTRY_ID).Some?
    ensures HasCandidate(InstallIn(a, address, PACKED_ENTRY_ID).value.breakpoints) ==> HasCandidate(a.breakpoints)
  {
    hide EntryAt;
  }

  /** Candidate breakpoints stand only after a packed entry was hit, and the
      session holds that hit's record. */
  lemma {:induction false} RunEntry(request: Request, events: seq<Event>, n: nat)
    requires request.target.Discovery? && Proper(request) && RunsTo(request, events, n)
    ensures var s := Before(request, events, n);
            HasCandidate(s.breakpoints) ==> exists i :: 0 <= i < n && EntryOf(request, events, i, s)
  {
    hide Step, Run, Prepare, InstallIn, EntryAt, IdsKnown, RestoreIn, Forget, Known, At, HasCandidate;
    if n == 0 {
      RunsBegin(request, events);
      assert !HasCandidate([]) by { NoCandidate(); }
    } else {
      RunsStep(request, events, n);
      RunEntry(request, events, n - 1);
      var s, e, s' := Before(request, events, n - 1), events[n - 1], Before(request, events, n);
      StepMoves(request, s, e);
      if MovedByEntry(request, s, e, s') {
        assert EntryOf(request, events, n - 1, s');
      } else if HasCandidate(s'.breakpoints) {
        if MovedByLocating(request, s, e, s') {
          InstallHasNoNew(Armed(s.breakpoints, e.env), EntryAddress(request, e.base));
        } else if e.Exception? {
          ForgetHasNoNew(s.breakpoints, e.address);
        }
        var i :| 0 <= i < n - 1 && EntryOf(request, events, i, s);
        assert EntryOf(request, events, i, s');
      }
    }
  }

  lemma NoCandidate()
    ensures !HasCandidate([])
  {
  }

  // ---- every capture is justified ----

  /** The capture is the one that discovery allows. Event `i` was the hit of the
      packed entry point and event `j` the hit of candidate `k`, by the same
      thread with the same stack pointer and after attaching. The bytes before
      are candidate `k`'s baseline, taken at the entry hit in the image where it
      was then located; the bytes after are those at the hit; they differ, and
      the new ones are not all zeros or traps. */
  ghost predicate Justified(request: Request, events: seq<Event>, i: nat, j: nat, k: nat, c: Capture)
    requires request.target.Discovery? && Proper(request)
  {
    i < j < |events| && k < Candidates(request) && RunsTo(request, events, i) && RunsTo(request, events, j)
    && var s, entry, t, hit := Before(request, events, i), events[i], Before(request, events, j), events[j];
       var candidate := request.target.candidates[k];
       Hits(s, entry, PACKED_ENTRY_ID) && Hits(t, hit, CANDIDATE_BASE + k)
       && ImageAt(request, events, i, s.imageBase) && ImageAt(request, events, j, t.imageBase)
       && c.thread == hit.thread == entry.thread
       && c.stackPointer == hit.answers.stackPointer == entry.answers.stackPointer
       && (request.imageKind.DynamicLibrary? ==> entry.answers.entryReason == Some(PROCESS_ATTACH))
       && c.base == t.imageBase && c.target == candidate.target
       && Untrapped(s, entry).Some? && Untrapped(t, hit).Some?
       && Prepare(request, s.imageBase, Untrapped(s, entry).value, Candidates(request)).Some?
       && c.before == Some(Prepare(request, s.imageBase, Untrapped(s, entry).value, Candidates(request)).value.baselines[k])
       && c.after == Peek(Untrapped(t, hit).value.env, At(t.imageBase, candidate.validationTarget))
       && c.after.Some? && MeaningfulChange(c.before.value, c.after.value)
  }

  /** A step that runs the callback in a discovery session. */
  lemma CaptureStep(request: Request, s: State, e: Event)
    requires request.target.Discovery? && Known(request, s) && Proper(request)
    requires s.captures == [] && Step(request, s, e).Captures() != []
    ensures e.Exception? && Untrapped(s, e).Some?
    ensures exists k :: 0 <= k < Candidates(request) && Hits(s, e, CANDIDATE_BASE + k)
              && Step(request, s, e).Captures() == [CaptureAt(request, s, e, k)]
              && e.thread == s.entryThread && e.answers.stackPointer == s.entryStack && s.attached
              && CaptureAt(request, s, e, k).after.Some?
              && MeaningfulChange(s.baselines[k], CaptureAt(request, s, e, k).after.value)
  {
    hide EntryAt, IdsKnown, Prepare, RestoreIn, Peek, MeaningfulChange, At;
    HitIsKnown(request, s.breakpoints, e.address);
    var k := EntryAt(s.breakpoints, e.address).value.id - CANDIDATE_BASE;
    assert Hits(s, e, CANDIDATE_BASE + k);
  }

  function CaptureAt(request: Request, s: State, e: Event, k: nat): Capture
    requires request.target.Discovery? && k < Candidates(request) == |s.baselines| && e.Exception?
    requires Untrapped(s, e).Some?
  {
    var c := request.target.candidates[k];
    Capture(c.target, s.imageBase, e.thread, e.answers.stackPointer, Some(s.baselines[k]),
            Peek(Untrapped(s, e).value.env, At(s.imageBase, c.validationTarget)), e.answers.accepted)
  }

  lemma CandidateStands(breakpoints: seq<Breakpoint>, address: U64)
    requires EntryAt(breakpoints, address).Some? && EntryAt(breakpoints, address).value.id >= CANDIDATE_BASE
    ensures HasCandidate(breakpoints)
  {
    hide EntryAt;
    EntryIsListed(breakpoints, address);
  }

  lemma CaptureIsJustified(request: Request, events: seq<Event>, j: nat)
    requires request.target.Discovery? && Proper(request) && j < |events| && RunsTo(request, events, j)
    requires Before(request, events, j).captures == []
    requires Step(request, Before(request, events, j), events[j]).Captures() != []
    ensures forall c :: c in Step(request, Before(request, events, j), events[j]).Captures() ==>
      exists i: nat, k: nat :: Justified(request, events, i, j, k, c)
  {
    hide EntryAt, IdsKnown, Prepare, RestoreIn, Peek, MeaningfulChange, At, Step, Run, HasCandidate, ImageAt;
    var s, e := Before(request, events, j), events[j];
    CaptureStep(request, s, e);
    var k :| 0 <= k < Candidates(request) && Hits(s, e, CANDIDATE_BASE + k)
             && Step(request, s, e).Captures() == [CaptureAt(request, s, e, k)]
             && CaptureAt(request, s, e, k).after.Some?
             && MeaningfulChange(s.baselines[k], CaptureAt(request, s, e, k).after.value);
    CandidateStands(s.breakpoints, e.address);
    RunEntry(request, events, j);
    RunImage(request, events, j);
    TrapsRecorded(s.breakpoints, e.address);
    var i :| 0 <= i < j && EntryOf(request, events, i, s);
    RunImage(request, events, i);
    TrapsRecorded(Before(request, events, i).breakpoints, events[i].address);
    assert Justified(request, events, i, j, k, CaptureAt(request, s, e, k));
  }

  lemma TrapsRecorded(breakpoints: seq<Breakpoint>, address: U64)
    requires Installed(breakpoints, address)
    ensures breakpoints != []
  {
  }

  /** In discovery mode every capture is justified by two events of the run. */
  lemma {:induction false} DiscoveryIsSafe(request: Request, events: seq<Event>)
    requires request.target.Discovery? && Proper(request)
    ensures forall c :: c in Run(request, events).Captures() ==> exists i: nat, j: nat, k: nat :: Justified(request,
                                                                                                            events, i, j, k, c)
  {
    hide Step, IdsKnown, Justified, Run;
    CapturedAt(request, events, |events|);
    assert events[..|events|] == events;
  }

  lemma {:induction false} CapturedAt(request: Request, events: seq<Event>, n: nat)
    requires request.target.Discovery? && Proper(request) && n <= |events|
    ensures forall c :: c in Run(request, events[..n]).Captures() ==> exists i: nat, j: nat, k: nat :: Justified(request, events, i, j, k, c)
  {
    hide Step, IdsKnown, Justified;
    if n > 0 {
      assert events[..n][..n - 1] == events[..n - 1];
      CapturedAt(request, events, n - 1);
      var m := Run(request, events[..n - 1]);
      if m.Running? {
        SessionIsHonest(request, events[..n - 1]);
        if Step(request, m.state, events[n - 1]).Captures() != [] {
          CaptureIsJustified(request, events, n - 1);
        }
      }
    }
  }
}
