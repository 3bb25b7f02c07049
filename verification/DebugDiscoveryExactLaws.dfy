/** When a discovery session captures, from the events alone. */
module DebugDiscoveryExactLaws {
  import opened Bytes
  import opened SoftwareBreakpointSet
  import opened WindowsDebugSession
  import opened DebugSessionLaws
  import opened DebugSessionMemoryLaws
  import opened DebugSessionExactLaws

  /** Event `i` hits the packed entry point, and the session goes on. */
  ghost predicate EntryHit(request: Request, events: seq<Event>, i: nat)
    requires Proper(request)
  {
    i < |events| && RunsTo(request, events, i) && RunsTo(request, events, i + 1) && Hits(Before(request, events, i), events[i], 1)
  }

  /** The last such event before event `n`. */
  ghost predicate LastEntry(request: Request, events: seq<Event>, i: nat, n: nat)
    requires Proper(request)
  {
    i < n && EntryHit(request, events, i) && forall m :: i < m < n ==> !EntryHit(request, events, m)
  }

  lemma {:induction false} RunsBefore(request: Request, events: seq<Event>, m: nat, n: nat)
    requires Proper(request) && m <= n && RunsTo(request, events, n)
    ensures RunsTo(request, events, m)
    decreases n - m
  {
    hide Run;
    if m < n {
      RunsStep(request, events, n);
      RunsBefore(request, events, m, n - 1);
    }
  }

  lemma {:induction false} LastEntryExists(request: Request, events: seq<Event>, j: nat, n: nat) returns (i: nat)
    requires Proper(request) && j < n && EntryHit(request, events, j)
    ensures LastEntry(request, events, i, n)
    decreases n
  {
    hide EntryHit;
    if EntryHit(request, events, n - 1) {
      i := n - 1;
    } else {
      i := LastEntryExists(request, events, j, n - 1);
    }
  }

  // ---- what the entry hit records ----

  /** What the session knows of the entry hit `i`. */
  ghost predicate Remembers(request: Request, events: seq<Event>, i: nat, s: State)
    requires Proper(request) && request.target.Discovery? && EntryHit(request, events, i)
  {
    var entry, e := Before(request, events, i), events[i];
    s.entryThread == e.thread && s.entryStack == e.answers.stackPointer && Untrapped(entry, e).Some?
    && (s.attached <==> request.imageKind.Executable? || e.answers.entryReason == Some(1))
    && var p := Prepare(request, entry.imageBase, Untrapped(entry, e).value, Candidates(request)); p.Some?
                                                                                                   && s.baselines == p.value.baselines
  }

  lemma RecordStep(request: Request, s: State, e: Event)
    requires Proper(request) && request.target.Discovery? && Known(request, s) && Step(request, s, e).Running?
    requires request.imageKind.Executable? ==> s.attached
    ensures var s' := Step(request, s, e).state;
            (request.imageKind.Executable? ==> s'.attached)
            && if Hits(s, e, 1) then
                 s'.entryThread == e.thread && s'.entryStack == e.answers.stackPointer && Untrapped(s, e).Some?
                 && (s'.attached <==> request.imageKind.Executable? || e.answers.entryReason == Some(1))
                 && var p := Prepare(request, s.imageBase, Untrapped(s, e).value, Candidates(request));
                    p.Some? && s'.baselines == p.value.baselines
               else SameRecord(s, s')
  {
    hide EntryAt, IdsKnown, InstallIn, RestoreIn, Prepare, Peek, MeaningfulChange, Forget;
    if e.Exception? && e.isBreakpoint && Installed(s.breakpoints, e.address) {
      HitIsKnown(request, s.breakpoints, e.address);
    }
  }

  lemma {:induction false} ExecutableAttached(request: Request, events: seq<Event>, n: nat)
    requires Proper(request) && request.target.Discovery? && RunsTo(request, events, n)
    ensures request.imageKind.Executable? ==> Before(request, events, n).attached
  {
    hide Step, Run, Known, Prepare, EntryAt, Untrapped;
    if n == 0 {
      RunsBegin(request, events);
    } else {
      RunsStep(request, events, n);
      ExecutableAttached(request, events, n - 1);
      RecordStep(request, Before(request, events, n - 1), events[n - 1]);
    }
  }

  lemma {:induction false} Remembered(request: Request, events: seq<Event>, i: nat, n: nat)
    requires Proper(request) && request.target.Discovery? && RunsTo(request, events, n) && LastEntry(request, events, i, n)
    ensures Remembers(request, events, i, Before(request, events, n))
    decreases n
  {
    hide Step, Run, Known, Prepare, EntryAt, Untrapped;
    RunsStep(request, events, n);
    ExecutableAttached(request, events, n - 1);
    RecordStep(request, Before(request, events, n - 1), events[n - 1]);
    if i < n - 1 {
      Remembered(request, events, i, n - 1);
      assert !EntryHit(request, events, n - 1);
    }
  }

  // ---- which candidates' traps stand ----

  ghost function TransferAt(request: Request, base: U64, k: nat): U64
    requires request.target.Discovery? && k < Candidates(request)
  {
    AddressOf(base, request.target.candidates[k].transfer)
  }

  /** Candidate `k`, the first with its transfer, was not hit between events `i` and `n`. */
  ghost predicate Standing(request: Request, events: seq<Event>, i: nat, n: nat, base: U64, k: nat)
    requires request.target.Discovery?
  {
    k < Candidates(request) && Reachable(request, k)
    && forall m :: i < m < n && m < |events| ==> !BreaksAt(events[m], TransferAt(request, base, k))
  }

  ghost predicate BreaksAt(e: Event, a: U64) {
    e.Exception? && e.isBreakpoint && e.address == a
  }

  /** The traps are those of the standing candidates. */
  ghost predicate TrapsAre(request: Request, events: seq<Event>, i: nat, n: nat, base: U64, breakpoints: seq<Breakpoint>)
    requires request.target.Discovery?
  {
    forall a: U64 :: Installed(breakpoints, a) <==> exists k: nat :: Standing(request, events, i, n, base, k)
                                                                     && TransferAt(request, base, k) == a
  }

  lemma {:induction false} FirstWith(request: Request, q: nat) returns (k: nat)
    requires request.target.Discovery? && q < Candidates(request)
    ensures k <= q && Reachable(request, k) && request.target.candidates[k].transfer == request.target.candidates[q].transfer
    decreases q
  {
    if m :| 0 <= m < q && request.target.candidates[m].transfer == request.target.candidates[q].transfer {
      k := FirstWith(request, m);
    } else {
      k := q;
    }
  }

  lemma PreparedStand(request: Request, events: seq<Event>, i: nat, base: U64, start: Armed)
    requires request.target.Discovery? && Proper(request) && start.breakpoints == []
    requires Prepare(request, base, start, Candidates(request)).Some?
    ensures TrapsAre(request, events, i, i + 1, base, Prepare(request, base, start, Candidates(request)).value.armed.breakpoints)
  {
    hide Prepare, EntryAt, At, Reachable;
    var n := Candidates(request);
    PrepareTraps(request, base, start, n);
    NoneInstalled();
    forall a: U64
      ensures TrapSet(request, base, start, n, a) <==> exists k: nat :: Standing(request, events, i, i + 1, base, k)
                                                                        && TransferAt(request, base, k) == a
    {
      if q :| 0 <= q < n && !Installed(start.breakpoints, At(base, request.target.candidates[q].transfer))
              && At(base, request.target.candidates[q].transfer) == a {
        var k := FirstWith(request, q);
        TransferIs(request, base, k);
        assert Standing(request, events, i, i + 1, base, k) && TransferAt(request, base, k) == a;
      }
      if k: nat :| Standing(request, events, i, i + 1, base, k) && TransferAt(request, base, k) == a {
        TransferIs(request, base, k);
        assert !Installed(start.breakpoints, At(base, request.target.candidates[k].transfer));
      }
    }
  }

  lemma TransferIs(request: Request, base: U64, k: nat)
    requires request.target.Discovery? && k < Candidates(request)
    ensures TransferAt(request, base, k) == At(base, request.target.candidates[k].transfer)
  {
  }

  /** Moving on over an event that does not hit the packed entry point. */
  lemma StandingStep(request: Request, events: seq<Event>, i: nat, n: nat, base: U64, s: State, s': State)
    requires request.target.Discovery? && i < n < |events| && Distinct(s.breakpoints)
    requires TrapsAre(request, events, i, n, base, s.breakpoints)
    requires var e := events[n];
             if e.Exception? && e.isBreakpoint && Installed(s.breakpoints, e.address)
             then s'.breakpoints == Forget(s.breakpoints, e.address) else s'.breakpoints == s.breakpoints
    ensures TrapsAre(request, events, i, n + 1, base, s'.breakpoints)
  {
    hide EntryAt, Forget, TransferAt, Reachable, Distinct;
    var e := events[n];
    if e.Exception? && e.isBreakpoint && Installed(s.breakpoints, e.address) {
      ForgetIs(s.breakpoints, e.address);
    }
    forall a: U64
      ensures Installed(s'.breakpoints, a) <==> exists k: nat :: Standing(request, events, i, n + 1, base, k)
                                                                 && TransferAt(request, base, k) == a
    {
      forall k: nat | k < Candidates(request) && TransferAt(request, base, k) == a
        ensures Standing(request, events, i, n + 1, base, k) <==> Standing(request, events, i, n, base, k) && !BreaksAt(e, a)
      {
        StandsOn(request, events, i, n, base, k);
      }
      assert Installed(s'.breakpoints, a) <==> Installed(s.breakpoints, a) && !BreaksAt(e, a);
      if Installed(s.breakpoints, a) && !BreaksAt(e, a) {
        var k: nat :| Standing(request, events, i, n, base, k) && TransferAt(request, base, k) == a;
        assert Standing(request, events, i, n + 1, base, k);
      }
    }
  }

  lemma StandsOn(request: Request, events: seq<Event>, i: nat, n: nat, base: U64, k: nat)
    requires request.target.Discovery? && i < n < |events| && k < Candidates(request)
    ensures Standing(request, events, i, n + 1, base, k)
            <==> Standing(request, events, i, n, base, k) && !BreaksAt(events[n], TransferAt(request, base, k))
  {
    hide TransferAt, Reachable, BreaksAt;
  }

  /** How the breakpoints of a running discovery session move. */
  lemma TrapStep(request: Request, s: State, e: Event)
    requires Proper(request) && request.target.Discovery? && Known(request, s) && Step(request, s, e).Running?
    requires !Locates(request, s, e)
    ensures var s' := Step(request, s, e).state;
            s'.imageBase == s.imageBase
            && if Hits(s, e, 1) then
                 Untrapped(s, e).Some?
                 && var p := Prepare(request, s.imageBase, Untrapped(s, e).value, Candidates(request));
                    p.Some? && s'.breakpoints == p.value.armed.breakpoints
               else if e.Exception? && e.isBreakpoint && Installed(s.breakpoints, e.address) then
                 s'.breakpoints == Forget(s.breakpoints, e.address)
               else s'.breakpoints == s.breakpoints
  {
    hide EntryAt, IdsKnown, InstallIn, Prepare, Peek, MeaningfulChange, Forget;
    if e.Exception? && e.isBreakpoint && Installed(s.breakpoints, e.address) {
      HitIsKnown(request, s.breakpoints, e.address);
    }
  }

  lemma NoneAfter(request: Request, events: seq<Event>, i: nat, n: nat)
    requires Proper(request) && LocatedOnce(request, events) && request.target.Discovery? && i <= n < |events|
    requires RunsTo(request, events, n) && RunsTo(request, events, i) && Hits(Before(request, events, i), events[i], 1)
    ensures !Locates(request, Before(request, events, n), events[n])
  {
    hide Run, Known;
    RunImage(request, events, i);
    TrapsMean(Before(request, events, i).breakpoints, events[i].address);
    var l: nat :| LastLocated(request, events, i, l) && events[l].base == Before(request, events, i).imageBase;
    assert LocatedAt(request, events, l) && !LocatedAt(request, events, n);
  }

  /** After the entry hit the traps are those of the candidates that still stand. */
  lemma {:induction false} TrapsStanding(request: Request, events: seq<Event>, i: nat, n: nat)
    requires Proper(request) && request.target.Discovery? && LocatedOnce(request, events)
    requires RunsTo(request, events, n) && LastEntry(request, events, i, n)
    ensures Before(request, events, n).imageBase == Before(request, events, i).imageBase
    ensures TrapsAre(request, events, i, n, Before(request, events, i).imageBase, Before(request, events, n).breakpoints)
    decreases n
  {
    hide Step, Run, Known, Prepare, EntryAt, Untrapped, Locates, LocatedOnce, TrapsAre, Distinct, OnlyEntry, AtTransfer, Forget;
    RunsStep(request, events, n);
    var s, e, base := Before(request, events, n - 1), events[n - 1], Before(request, events, i).imageBase;
    NoneAfter(request, events, i, n - 1);
    TrapStep(request, s, e);
    if i == n - 1 {
      RunShape(request, events, i);
      EntryLeavesNothing(request, base, s, e);
      EntryUntraps(s, e);
      PreparedStand(request, events, i, base, Untrapped(s, e).value);
    } else {
      TrapsStanding(request, events, i, n - 1);
      RunDistinct(request, events, n - 1);
      assert !EntryHit(request, events, n - 1);
      StandingStep(request, events, i, n - 1, base, s, Before(request, events, n));
    }
  }

  lemma EntryUntraps(s: State, e: Event)
    requires Hits(s, e, 1) && Untrapped(s, e).Some?
    ensures Untrapped(s, e).value.breakpoints == Forget(s.breakpoints, e.address)
  {
    hide EntryAt, Forget;
  }

  // ---- captures ----

  /** The bytes of candidate `k`'s window at event `e`, with the hit trap taken out. */
  ghost function WindowAt(request: Request, base: U64, breakpoints: seq<Breakpoint>, e: Event, k: nat): Option<Bytes>
    requires request.target.Discovery? && k < Candidates(request) && e.Exception?
  {
    var armed := RestoreIn(Armed(breakpoints, e.env), e.address);
    if armed.None? then None else Peek(armed.value.env, AddressOf(base, request.target.candidates[k].validationTarget))
  }

  /** Event `j` is a handled hit of the standing candidate `k` that meets the
      four conditions: the thread and the stack of the last entry hit `i`, which
      was at process attach if the image is a library, and a window that changed. */
  ghost predicate CandidateReached(request: Request, events: seq<Event>, i: nat, j: nat, k: nat)
    requires Proper(request) && request.target.Discovery?
  {
    j < |events| && RunsTo(request, events, j) && LastEntry(request, events, i, j) && k < Candidates(request)
    && var base, e, s := Before(request, events, i).imageBase, events[j], Before(request, events, j);
       BreaksAt(e, TransferAt(request, base, k)) && Standing(request, events, i, j, base, k)
       && Handled(e) && e.answers.commits && ImportsGiven(request, e)
       && e.thread == events[i].thread && e.answers.stackPointer == events[i].answers.stackPointer
       && (request.imageKind.Executable? || events[i].answers.entryReason == Some(1))
       && Remembers(request, events, i, s) && WindowAt(request, base, s.breakpoints, e, k).Some?
       && Changed(s.baselines[k], WindowAt(request, base, s.breakpoints, e, k).value)
  }

  ghost function CandidateCapture(request: Request, events: seq<Event>, i: nat, j: nat, k: nat): Capture
    requires Proper(request) && request.target.Discovery? && CandidateReached(request, events, i, j, k)
  {
    var base, e, s := Before(request, events, i).imageBase, events[j], Before(request, events, j);
    Capture(request.target.candidates[k].target, base, e.thread, e.answers.stackPointer, Some(s.baselines[k]),
            WindowAt(request, base, s.breakpoints, e, k), e.answers.accepted)
  }

  /** Before event `j`, the breakpoint of candidate `k` stands at the event's address. */
  lemma HitMeansStanding(request: Request, events: seq<Event>, i: nat, j: nat, k: nat)
    requires Proper(request) && request.target.Discovery? && LocatedOnce(request, events)
    requires j < |events| && RunsTo(request, events, j) && LastEntry(request, events, i, j) && k < Candidates(request)
    ensures var base := Before(request, events, i).imageBase;
            Hits(Before(request, events, j), events[j], 2 + k)
            <==> BreaksAt(events[j], TransferAt(request, base, k)) && Standing(request, events, i, j, base, k)
  {
    hide Run, Known, EntryAt, Prepare, Untrapped, TransferAt, OnlyEntry, AtTransfer, Reachable;
    var s, e, base := Before(request, events, j), events[j], Before(request, events, i).imageBase;
    TrapsStanding(request, events, i, j);
    RunShape(request, events, j);
    CandidatesStand(request, events, i, j);
    if e.Exception? && e.isBreakpoint && Installed(s.breakpoints, e.address) {
      EntryTransfer(request, base, s.breakpoints, e.address);
      var m: nat := EntryAt(s.breakpoints, e.address).value.id - 2;
      var q: nat :| Standing(request, events, i, j, base, q) && TransferAt(request, base, q) == e.address;
      StandingMeans(request, events, i, j, base, q);
      ReachableOnce(request, base, m, q);
      if TransferAt(request, base, k) == e.address && Standing(request, events, i, j, base, k) {
        StandingMeans(request, events, i, j, base, k);
        ReachableOnce(request, base, m, k);
      }
    }
  }

  lemma StandingMeans(request: Request, events: seq<Event>, i: nat, n: nat, base: U64, k: nat)
    requires request.target.Discovery? && Standing(request, events, i, n, base, k)
    ensures k < Candidates(request) && Reachable(request, k)
  {
  }

  /** Of the candidates with one transfer only the first can be hit. */
  lemma ReachableOnce(request: Request, base: U64, m: nat, q: nat)
    requires request.target.Discovery? && m < Candidates(request) && q < Candidates(request)
    requires Reachable(request, m) && Reachable(request, q) && TransferAt(request, base, m) == TransferAt(request, base, q)
    ensures m == q
  {
  }

  lemma EntryTransfer(request: Request, base: U64, breakpoints: seq<Breakpoint>, a: U64)
    requires request.target.Discovery? && AtTransfers(request, base, breakpoints) && Installed(breakpoints, a)
    ensures var id := EntryAt(breakpoints, a).value.id;
            2 <= id && id - 2 < Candidates(request) && TransferAt(request, base, id - 2) == a && Reachable(request, id - 2)
  {
    hide EntryAt, Reachable;
    EntryIsListed(breakpoints, a);
    assert AtTransfer(request, base, EntryAt(breakpoints, a).value);
  }

  /** After the entry hit only candidates' traps stand. */
  lemma {:induction false} CandidatesStand(request: Request, events: seq<Event>, i: nat, n: nat)
    requires Proper(request) && request.target.Discovery? && LocatedOnce(request, events)
    requires RunsTo(request, events, n) && LastEntry(request, events, i, n)
    ensures AtTransfers(request, Before(request, events, i).imageBase, Before(request, events, n).breakpoints)
    decreases n
  {
    hide Step, Run, Known, Prepare, EntryAt, Untrapped, Locates, LocatedOnce, Distinct, OnlyEntry, AtTransfer, Forget;
    RunsStep(request, events, n);
    var s, e, base := Before(request, events, n - 1), events[n - 1], Before(request, events, i).imageBase;
    NoneAfter(request, events, i, n - 1);
    TrapStep(request, s, e);
    if i == n - 1 {
      RunShape(request, events, i);
      EntryLeavesNothing(request, base, s, e);
      EntryUntraps(s, e);
      PreparedAtTransfers(request, base, Untrapped(s, e).value, Candidates(request));
    } else {
      CandidatesStand(request, events, i, n - 1);
      RunDistinct(request, events, n - 1);
      assert !EntryHit(request, events, n - 1);
      if e.Exception? {
        ForgetIs(s.breakpoints, e.address);
      }
    }
  }

  /** What the session does at the hit of a candidate. */
  lemma CandidateSteps(request: Request, s: State, e: Event, k: nat)
    requires Proper(request) && request.target.Discovery? && Known(request, s) && s.captures == [] && k < Candidates(request)
    requires Hits(s, e, 2 + k)
    ensures k < |s.baselines|
    ensures var m, window := Step(request, s, e), WindowAt(request, s.imageBase, s.breakpoints, e, k);
            var valid := Handled(e) && e.answers.commits && e.thread == s.entryThread && e.answers.stackPointer == s.entryStack
                         && s.attached && window.Some? && Changed(s.baselines[k], window.value) && ImportsGiven(request, e);
            if valid then
              m == Ended(if e.answers.accepted then NoError else CaptureRejected,
                         [Capture(request.target.candidates[k].target, s.imageBase, e.thread, e.answers.stackPointer,
                                  Some(s.baselines[k]), window, e.answers.accepted)])
            else m.Captures() == [] && (m.Ended? ==> m.error != NoError && m.error != CaptureRejected)
  {
    hide EntryAt, IdsKnown, Prepare, Forget, Peek, MeaningfulChange, Changed;
    forall before, after ensures MeaningfulChange(before, after) <==> Changed(before, after) {
      ChangedIs(before, after);
    }
  }

  lemma EntrySteps(request: Request, s: State, e: Event)
    requires Proper(request) && request.target.Discovery? && Known(request, s) && s.captures == [] && Hits(s, e, 1)
    ensures Step(request, s, e).Captures() == []
  {
    hide EntryAt, IdsKnown, Prepare, Forget, Peek, MeaningfulChange;
  }

  /** A reached candidate is captured. */
  lemma ReachedIsCaptured(request: Request, events: seq<Event>, i: nat, j: nat, k: nat)
    requires Proper(request) && request.target.Discovery? && LocatedOnce(request, events) && CandidateReached(request, events, i, j, k)
    ensures Run(request, events)
            == Ended(if events[j].answers.accepted then NoError else CaptureRejected, [CandidateCapture(request, events, i, j, k)])
  {
    hide Step, Run, Known, WindowAt, Changed, Standing, TransferAt, Prepare, EntryAt, Untrapped, LocatedOnce, Handled;
    HitMeansStanding(request, events, i, j, k);
    TrapsStanding(request, events, i, j);
    NoCaptureYet(request, events, j);
    RunNext(request, events, j);
    CandidateSteps(request, Before(request, events, j), events[j], k);
    EndedStays(request, events, j + 1);
  }

  /** Nothing but a reached candidate is captured. */
  lemma CapturedIsReached(request: Request, events: seq<Event>) returns (i: nat, j: nat, k: nat)
    requires Proper(request) && request.target.Discovery? && LocatedOnce(request, events) && Run(request, events).Captures() != []
    ensures CandidateReached(request, events, i, j, k)
  {
    hide Step, Run, Known, WindowAt, Changed, Standing, TransferAt, Prepare, EntryAt, Untrapped, LocatedOnce, Handled, Start, Recorded,
      EntryHit;
    CaptureEnds(request, events);
    StartsEmpty(request, events);
    j := EndsAt(request, events);
    var s, e := Before(request, events, j), events[j];
    NoCaptureYet(request, events, j);
    k := CaptureHit(request, s, e);
    i := EntryBefore(request, events, j, k);
    HitMeansStanding(request, events, i, j, k);
    TrapsStanding(request, events, i, j);
    Remembered(request, events, i, j);
    CandidateSteps(request, s, e, k);
  }

  lemma CaptureEnds(request: Request, events: seq<Event>)
    requires Proper(request) && Run(request, events).Captures() != []
    ensures Run(request, events).Ended?
  {
    hide Run;
    SessionIsHonest(request, events);
  }

  lemma CaptureHit(request: Request, s: State, e: Event) returns (k: nat)
    requires Proper(request) && request.target.Discovery? && Known(request, s) && s.captures == []
             && Step(request, s, e).Captures() != []
    ensures k < Candidates(request) && Hits(s, e, 2 + k)
  {
    hide Step, EntryAt, IdsKnown;
    if e.Exception? && e.isBreakpoint && Installed(s.breakpoints, e.address) {
      HitIsKnown(request, s.breakpoints, e.address);
      var id := EntryAt(s.breakpoints, e.address).value.id;
      if id == 1 {
        EntrySteps(request, s, e);
        assert false;
      }
      k := id - 2;
    } else {
      OtherSteps(request, s, e);
      assert false;
    }
  }

  lemma EntryBefore(request: Request, events: seq<Event>, j: nat, k: nat) returns (i: nat)
    requires Proper(request) && request.target.Discovery? && j < |events| && RunsTo(request, events, j)
    requires Hits(Before(request, events, j), events[j], 2 + k)
    ensures LastEntry(request, events, i, j)
  {
    hide Run, Known, EntryAt, Prepare, Untrapped;
    CandidateStands(Before(request, events, j).breakpoints, events[j].address);
    RunEntry(request, events, j);
    var m :| 0 <= m < j && EntryOf(request, events, m, Before(request, events, j));
    RunsBefore(request, events, m + 1, j);
    i := LastEntryExists(request, events, m, j);
  }

  /** A discovery session that locates the image once captures exactly when some
      candidate is reached so, and captures what that hit shows. */
  lemma DiscoveryIsExact(request: Request, events: seq<Event>, c: Capture)
    requires Proper(request) && request.target.Discovery? && LocatedOnce(request, events)
    ensures c in Run(request, events).Captures()
            <==> exists i: nat, j: nat, k: nat ::
                   CandidateReached(request, events, i, j, k) && c == CandidateCapture(request, events, i, j, k)
  {
    hide Run, CandidateReached, CandidateCapture, LocatedOnce;
    if c in Run(request, events).Captures() {
      var i, j, k := CapturedIsReached(request, events);
      ReachedIsCaptured(request, events, i, j, k);
    }
    if i: nat, j: nat, k: nat :| CandidateReached(request, events, i, j, k) && c == CandidateCapture(request, events, i, j, k) {
      ReachedIsCaptured(request, events, i, j, k);
    }
  }
}
