/** What the interleavings of Lifecycle add up to: limits, shutdown guarantees and their exact edges. */
module Guarantees {
  import opened Options
  import opened HandleConn
  import opened Lifecycle

  // ---- Limits that hold at every moment ----

  lemma {:induction false} TotalSplits(links: seq<Link>)
    ensures Total(SocketOpen, links) == Total(OpenWithSlot, links) + Total(SlotlessOpen, links)
    ensures Total(OpenWithSlot, links) <= Total(SlotHeld, links)
  {
    if links != [] {
      TotalSplits(links[1..]);
    }
  }

  lemma {:induction false} TotalOfOne(weight: Link -> nat, links: seq<Link>, only: nat)
    requires forall c :: 0 <= c < |links| && c != only ==> weight(links[c]) == 0
    requires only < |links| ==> weight(links[only]) <= 1
    ensures Total(weight, links) <= 1
    ensures |links| <= only ==> Total(weight, links) == 0
  {
    if links != [] {
      assert forall c :: 0 <= c < |links| - 1 ==> links[1..][c] == links[c + 1];
      if only == 0 {
        TotalOfOne(weight, links[1..], |links|);
      } else {
        TotalOfOne(weight, links[1..], only - 1);
      }
    }
  }

  /**
   In every interleaving: the semaphore counts the connections between taking and returning a slot,
   the map holds those between track and untrack, the WaitGroup counts those between Add and Done;
   at most maxConns sockets are open behind a slot, and at most one more is open at all; no connection
   in the map is without a slot, and at most one is not yet counted in the WaitGroup.
   */
  lemma ConnectionLimits(maxConns: nat, actions: seq<Action>)
    requires IsRun(Init(maxConns), actions)
    ensures var s := After(Init(maxConns), actions);
      && s.sem == Total(SlotHeld, s.links) <= maxConns
      && s.wg == Total(WaitedFor, s.links)
      && s.conns == (set c | 0 <= c < |s.links| && s.links[c].phase.Mapped())
      && Total(OpenWithSlot, s.links) <= maxConns
      && Total(SocketOpen, s.links) <= maxConns + 1
      && |s.conns| <= s.sem && |s.conns| <= s.wg + 1
  {
    InvInit(maxConns);
    InvAlways(Init(maxConns), actions);
    MaxConnsConstant(Init(maxConns), actions);
    var s := After(Init(maxConns), actions);
    TotalSplits(s.links);
    hide Total;
    TotalOfOne(SlotlessOpen, s.links, if s.serve.Serving? then s.serve.c else |s.links|);
    MapSize(s);
  }

  function InMap(l: Link): nat {
    if l.phase.Mapped() then 1 else 0
  }

  function NotYetCounted(l: Link): nat {
    if l.phase.Tracked? then 1 else 0
  }

  lemma {:induction false} MapTotals(links: seq<Link>)
    ensures Total(InMap, links) <= Total(SlotHeld, links)
    ensures Total(InMap, links) <= Total(WaitedFor, links) + Total(NotYetCounted, links)
  {
    if links != [] {
      MapTotals(links[1..]);
    }
  }

  function MappedIn(links: seq<Link>): set<nat> {
    set c: nat | c < |links| && links[c].phase.Mapped()
  }

  lemma MappedGrows(links: seq<Link>, l: Link)
    ensures MappedIn(links + [l]) == MappedIn(links) + if l.phase.Mapped() then {|links|} else {}
    ensures |links| !in MappedIn(links)
  {
  }

  lemma {:induction false} MapCardinality(links: seq<Link>)
    ensures |MappedIn(links)| == Total(InMap, links)
    decreases |links|
  {
    if links != [] {
      var n := |links| - 1;
      assert links == links[..n] + [links[n]];
      MapCardinality(links[..n]);
      MappedGrows(links[..n], links[n]);
      TotalAppend(InMap, links[..n], links[n]);
      hide Total, MappedIn;
    }
  }

  lemma MapSize(s: State)
    requires Inv(s)
    ensures |s.conns| <= s.sem && |s.conns| <= s.wg + 1
  {
    assert s.conns == MappedIn(s.links);
    MapCardinality(s.links);
    MapTotals(s.links);
    TotalOfOne(NotYetCounted, s.links, if s.serve.Serving? then s.serve.c else |s.links|);
  }

  lemma {:induction false} MaxConnsConstant(s: State, actions: seq<Action>)
    requires Inv(s) && IsRun(s, actions)
    ensures After(s, actions).maxConns == s.maxConns
    decreases |actions|
  {
    if actions != [] {
      StepKeepsLimit(s, actions[0]);
      InvKept(s, actions[0]);
      hide Next, Enabled, Inv;
      MaxConnsConstant(Next(s, actions[0]), actions[1..]);
    }
  }

  lemma StepKeepsLimit(s: State, a: Action)
    requires Enabled(s, a)
    ensures Next(s, a).maxConns == s.maxConns
  {
  }

  /** Serve reports an error only if Accept failed while the listener was still open. */
  lemma ServeErrorIsSpurious(maxConns: nat, actions: seq<Action>)
    requires IsRun(Init(maxConns), actions)
    ensures var s := After(Init(maxConns), actions);
      s.serve.Returned? && s.serve.err ==> s.serve.spurious
  {
    InvInit(maxConns);
    InvAlways(Init(maxConns), actions);
  }

  // ---- Serve goes on ----

  predicate InAcceptLoop(s: State) {
    s.serve.Accepting? || s.serve.Serving?
  }

  lemma LoopLeftBy(s: State, a: Action)
    requires Enabled(s, a)
    ensures InAcceptLoop(Next(s, a)) <==> InAcceptLoop(s) && a != FailAccept
  {
  }

  lemma {:induction false} StaysInLoop(s: State, actions: seq<Action>)
    requires IsRun(s, actions)
    ensures InAcceptLoop(After(s, actions)) <==> InAcceptLoop(s) && FailAccept !in actions
    decreases |actions|
  {
    hide Next, Enabled, InAcceptLoop;
    if actions != [] {
      LoopLeftBy(s, actions[0]);
      StaysInLoop(Next(s, actions[0]), actions[1..]);
      assert actions == [actions[0]] + actions[1..];
    }
  }

  /** Serve is in its loop exactly as long as no Accept has failed; refusing a connection does not end it. */
  lemma ServeGoesOn(maxConns: nat, actions: seq<Action>)
    requires IsRun(Init(maxConns), actions)
    ensures InAcceptLoop(After(Init(maxConns), actions)) <==> FailAccept !in actions
  {
    StaysInLoop(Init(maxConns), actions);
  }

  // The steps Serve takes with a connection once it has been accepted.
  function Carriage(taken: bool): seq<Action> {
    if taken then [TakeSlot, Track, Count, Spawn] else [TakeSlot, Refuse]
  }

  /**
   One turn of the loop, nobody else acting: a connection is accepted; if a slot is free it ends up
   handled, in the map, with a slot and counted, and otherwise closed with no counter changed; either
   way Serve is back to accepting.
   */
  lemma AcceptTurn(s: State)
    requires s.serve.Accepting? && s.listening && s.MutexFree()
    ensures var taken := s.sem < s.maxConns; var actions := [Accept] + Carriage(taken); var c := |s.links|;
      && IsRun(s, actions)
      && After(s, actions) ==
        if taken then s.(links := s.links + [Link(Handling, true, 0)], sem := s.sem + 1, wg := s.wg + 1, conns := s.conns + {c})
        else s.(links := s.links + [Link(Dropped, false, 0)])
  {
    var t := Next(s, Accept);
    assert t.ServeAt(Accepted);
    if s.sem < s.maxConns {
      TakenTurn(t, |s.links|);
    } else {
      RefusedTurn(t, |s.links|);
    }
    hide Next, Enabled, Carriage;
    var more := Carriage(s.sem < s.maxConns);
    assert ([Accept] + more)[1..] == more;
  }

  lemma TakenTurn(s: State, c: nat)
    requires s.serve == Serving(c) && s.ServeAt(Accepted) && s.MutexFree() && s.sem < s.maxConns
    ensures IsRun(s, Carriage(true))
    ensures After(s, Carriage(true)) ==
      s.To(c, Handling).(sem := s.sem + 1, wg := s.wg + 1, conns := s.conns + {c}, serve := Accepting)
  {
    var s1 := Next(s, TakeSlot);
    assert s1 == s.To(c, Slotted).(sem := s.sem + 1);
    TrackedTurn(s1, c);
    assert s1.To(c, Handling) == s.To(c, Handling).(sem := s.sem + 1);
    hide Next, Enabled;
    assert Carriage(true)[1..] == [Track, Count, Spawn];
  }

  lemma TrackedTurn(s: State, c: nat)
    requires s.serve == Serving(c) && s.ServeAt(Slotted) && s.MutexFree()
    ensures IsRun(s, [Track, Count, Spawn])
    ensures After(s, [Track, Count, Spawn]) == s.To(c, Handling).(wg := s.wg + 1, conns := s.conns + {c}, serve := Accepting)
  {
    var actions, t := [Track, Count, Spawn], Next(s, Track);
    CountedTurn(t, c);
    assert t.To(c, Handling).links == s.To(c, Handling).links;
    hide Next, Enabled;
    assert actions[1..] == [Count, Spawn];
  }

  lemma CountedTurn(s: State, c: nat)
    requires s.serve == Serving(c) && s.ServeAt(Tracked)
    ensures IsRun(s, [Count, Spawn])
    ensures After(s, [Count, Spawn]) == s.To(c, Handling).(wg := s.wg + 1, serve := Accepting)
  {
    var actions, t := [Count, Spawn], Next(s, Count);
    assert Next(t, Spawn).links == s.To(c, Handling).links;
    OneStep(t, Spawn);
    hide Next, Enabled;
    assert actions[1..] == [Spawn];
  }

  lemma RefusedTurn(s: State, c: nat)
    requires s.serve == Serving(c) && s.ServeAt(Accepted) && s.sem >= s.maxConns
    ensures IsRun(s, Carriage(false))
    ensures After(s, Carriage(false)) == s.To(c, Dropped).CloseSocket(c).(serve := Accepting)
  {
    var s1 := Next(s, TakeSlot);
    OneStep(s1, Refuse);
    assert Next(s1, Refuse) == s.To(c, Dropped).CloseSocket(c).(serve := Accepting);
    assert Carriage(false)[1..] == [Refuse];
  }

  /** In every state with a refused connection and an open listener the next one can be accepted. */
  lemma RefusedThenNext(s: State)
    requires s.ServeAt(Refused) && s.listening
    ensures Enabled(s, Refuse) && Enabled(Next(s, Refuse), Accept)
    ensures var t := Next(Next(s, Refuse), Accept);
      && t.serve == Serving(|s.links|) && t.ServeAt(Accepted)
      && t.links[s.serve.c] == Link(Dropped, false, s.links[s.serve.c].pending)
      && t.sem == s.sem && t.wg == s.wg && t.conns == s.conns
  {
  }

  // ---- When Shutdown returns ----

  predicate Gone(s: State, c: nat)
    requires c < |s.links|
  {
    s.links[c].phase.Over() && !s.links[c].open && c !in s.conns
  }

  /**
   Once Shutdown has returned, every connection is gone except possibly the one Serve was carrying
   from Accept to wg.Add at the moment the WaitGroup reached zero; if there was none, the server is
   empty; and a connection can still be served exactly if that one is live.
   */
  lemma ReturnedMeansGone(maxConns: nat, actions: seq<Action>)
    requires IsRun(Init(maxConns), actions)
    ensures var s := After(Init(maxConns), actions);
      && (s.shutdown.Complete? ==> forall c :: 0 <= c < |s.links| && s.window != Some(c) ==> Gone(s, c))
      && (s.shutdown.Complete? && s.window == None ==> s.sem == s.wg == 0 && s.conns == {})
      && (s.shutdown.Complete? && 0 < maxConns ==> (MayBeServed(s) <==> WindowLive(s)))
  {
    InvInit(maxConns);
    InvAlways(Init(maxConns), actions);
    MaxConnsConstant(Init(maxConns), actions);
    var s := After(Init(maxConns), actions);
    if s.shutdown.Complete? && 0 < maxConns {
      ServedAfterReturnIff(s);
    }
    hide IsRun, After, MayBeServed, WindowLive;
    if s.shutdown.Complete? && s.window == None {
      TotalOfNone(SlotHeld, s.links);
      TotalOfNone(WaitedFor, s.links);
    }
  }

  lemma TotalOfNone(weight: Link -> nat, links: seq<Link>)
    requires forall c :: 0 <= c < |links| ==> weight(links[c]) == 0
    ensures Total(weight, links) == 0
  {
  }

  // The connection carried when the WaitGroup reached zero is being handled, or has not been refused yet.
  predicate WindowLive(s: State) {
    s.window.Some? && s.window.value < |s.links| && Live(s.links[s.window.value].phase)
  }

  predicate Live(phase: Phase) {
    phase.Accepted? || phase.Slotted? || phase.Tracked? || phase.Counted? || phase.Handling?
  }

  ghost predicate MayBeServed(s: State) {
    exists actions, c :: IsRun(s, actions) && After(s, actions).At(c, Handling)
  }

  // No connection is being handled or can come to be.
  predicate NothingLive(s: State) {
    s.shutdown.Complete? && forall c :: 0 <= c < |s.links| ==> !Live(s.links[c].phase)
  }

  /** After Shutdown has returned a connection can still be served exactly if the one it overlooked is live. */
  lemma ServedAfterReturnIff(s: State)
    requires Inv(s) && s.shutdown.Complete? && 0 < s.maxConns
    ensures MayBeServed(s) <==> WindowLive(s)
  {
    if WindowLive(s) {
      var actions := TowardsHandling(s);
    } else {
      assert NothingLive(s) by { hide Counters, Ownership, Swept, IsRun, After; }
      forall actions, c | IsRun(s, actions)
        ensures !After(s, actions).At(c, Handling)
      {
        StaysUnserved(s, actions);
      }
    }
  }

  lemma UnservedStep(s: State, a: Action)
    requires Inv(s) && NothingLive(s) && Enabled(s, a)
    ensures NothingLive(Next(s, a))
  {
    hide Counters, Waits, Swept, LinkOk;
    assert !s.listening;
  }

  lemma {:induction false} StaysUnserved(s: State, actions: seq<Action>)
    requires Inv(s) && NothingLive(s) && IsRun(s, actions)
    ensures NothingLive(After(s, actions))
    decreases |actions|
  {
    hide Next, Enabled, Inv, NothingLive;
    if actions != [] {
      UnservedStep(s, actions[0]);
      InvKept(s, actions[0]);
      StaysUnserved(Next(s, actions[0]), actions[1..]);
    }
  }

  // The step Serve takes next with the connection it carries.
  function Carry(phase: Phase): Action {
    match phase
    case Accepted => TakeSlot
    case Slotted => Track
    case Tracked => Count
    case _ => Spawn
  }

  lemma CarriedOn(s: State)
    requires Inv(s) && s.shutdown.Complete? && 0 < s.maxConns && WindowLive(s)
    requires !s.links[s.window.value].phase.Handling?
    ensures var c := s.window.value;
      && Enabled(s, Carry(s.links[c].phase))
      && var t := Next(s, Carry(s.links[c].phase));
        && t.shutdown.Complete? && t.maxConns == s.maxConns && t.window == s.window && WindowLive(t)
        && Carried(t.links[c].phase) < Carried(s.links[c].phase)
  {
    var c := s.window.value;
    assert LinkOk(s.links[c], s.serve == Serving(c));
    if s.links[c].phase.Accepted? {
      NoSlotHeld(s);
    }
    hide Counters, Swept, Waits;
  }

  // If the only connection left holds no slot, all slots are free.
  lemma NoSlotHeld(s: State)
    requires Inv(s) && s.shutdown.Complete? && WindowLive(s) && s.links[s.window.value].phase.Accepted?
    ensures s.sem == 0
  {
    TotalOfNone(SlotHeld, s.links);
  }

  // How far Serve still has to carry a connection.
  function Carried(phase: Phase): nat {
    match phase
    case Accepted => 4
    case Slotted => 3
    case Tracked => 2
    case Counted => 1
    case _ => 0
  }

  lemma {:induction false} TowardsHandling(s: State) returns (actions: seq<Action>)
    requires Inv(s) && s.shutdown.Complete? && 0 < s.maxConns && WindowLive(s)
    ensures IsRun(s, actions) && After(s, actions).At(s.window.value, Handling)
    decreases Carried(s.links[s.window.value].phase)
  {
    var phase := s.links[s.window.value].phase;
    if phase.Handling? {
      return [];
    }
    CarriedOn(s);
    InvKept(s, Carry(phase));
    hide Next, Enabled, Inv;
    var more := TowardsHandling(Next(s, Carry(phase)));
    actions := [Carry(phase)] + more;
  }

  /** After closeAll the only socket that can be open is the one that was on its way to track. */
  lemma CloseAllSpares(maxConns: nat, actions: seq<Action>)
    requires IsRun(Init(maxConns), actions)
    ensures var s := After(Init(maxConns), actions);
      Forced(s) ==> forall c :: 0 <= c < |s.links| && s.links[c].open ==> s.late == Some(c)
  {
    InvInit(maxConns);
    InvAlways(Init(maxConns), actions);
  }

  // ---- Forced shutdown terminates ----

  function FramesIn(pending: nat): nat {
    pending / SHORTEST_FRAME
  }

  function Weight(l: Link): nat {
    match l.phase
    case Accepted => FRAMES_AFTER_CLOSE + 9
    case Slotted => FRAMES_AFTER_CLOSE + 8
    case Tracked => FRAMES_AFTER_CLOSE + 7
    case Counted => FRAMES_AFTER_CLOSE + 6
    case Handling => FramesIn(l.pending) + 5
    case Closed => 4
    case Untracked => 3
    case SlotReturned => 2
    case Refused => 1
    case Finished => 0
    case Dropped => 0
  }

  function Ranks(s: State): nat {
    (match s.serve case Serving(_) => 3 case Accepting => 2 case AcceptFailed(_) => 1 case Returned(_, _) => 0)
    + (if s.shutdown.Complete? then 0 else 1)
    + (match s.waiter case Unborn => 4 case Starting => 3 case Waiting => 2 case Woken => 1 case DoneClosed => 0)
  }

  // The steps the whole server still has in it once closeAll is over.
  function Measure(s: State): nat {
    Total(Weight, s.links) + Ranks(s)
  }

  // Only reading off a socket that closeAll missed can keep the server busy.
  predicate Straggles(s: State, a: Action) {
    a.Receive? && a.c < |s.links| && s.links[a.c].open
  }

  // No open socket is going to be served: the only one there can be is about to be refused.
  predicate NoStraggler(s: State) {
    forall c :: 0 <= c < |s.links| && s.links[c].open ==> s.links[c].phase.Refused?
  }

  // The action moves one connection on, or else its own thread.
  predicate Progress(s: State, a: Action, t: State) {
    match Moved(s, a)
    case Some(c) => c < |s.links| == |t.links| && Weight(t.links[c]) < Weight(s.links[c]) && Ranks(t) <= Ranks(s)
    case None => t.links == s.links && Ranks(t) < Ranks(s)
  }

  lemma ServeProgress(s: State, a: Action)
    requires Ownership(s) && Closing(s) && Forced(s) && Enabled(s, a) && OfServe(a)
    ensures Progress(s, a, Next(s, a))
  {
    assert !s.listening;
  }

  lemma FrameProgress(s: State, c: nat, used: nat)
    requires Enabled(s, Frame(c, used))
    ensures Progress(s, Frame(c, used), Next(s, Frame(c, used)))
  {
  }

  lemma LeavingProgress(s: State, a: Action)
    requires Enabled(s, a) && OfHandler(a) && !a.Receive? && !a.Frame?
    ensures Progress(s, a, Next(s, a))
  {
    hide FramesIn;
  }

  lemma HandlerProgress(s: State, a: Action)
    requires Enabled(s, a) && OfHandler(a) && !Straggles(s, a)
    ensures Progress(s, a, Next(s, a))
  {
    hide Next, Progress;
    if a.Frame? {
      FrameProgress(s, a.c, a.used);
    } else {
      LeavingProgress(s, a);
    }
  }

  lemma ShutdownProgress(s: State, a: Action)
    requires Closing(s) && Forced(s) && Enabled(s, a) && !OfServe(a) && !OfHandler(a)
    ensures Progress(s, a, Next(s, a))
  {
  }

  lemma StaysForced(s: State, a: Action)
    requires Forced(s) && Enabled(s, a)
    ensures Forced(Next(s, a))
  {
  }

  lemma StaysQuiet(s: State, a: Action)
    requires Inv(s) && Forced(s) && NoStraggler(s) && Enabled(s, a)
    ensures NoStraggler(Next(s, a)) && !Straggles(s, a)
  {
    hide Total, Waits, Swept, Counters;
    assert !s.listening;
  }

  /** Every step, of whichever thread, uses some of the measure up. */
  lemma MeasureDrops(s: State, a: Action)
    requires Inv(s) && Forced(s) && Enabled(s, a) && !Straggles(s, a)
    ensures Measure(Next(s, a)) < Measure(s)
  {
    if OfServe(a) {
      ServeProgress(s, a);
    } else if OfHandler(a) {
      HandlerProgress(s, a);
    } else {
      ShutdownProgress(s, a);
    }
    StepShape(s, a);
    hide Next, Enabled, Inv, Weight, Ranks, Total;
    if Moved(s, a).Some? {
      var c := Moved(s, a).value;
      TotalUpdate(Weight, s.links, c, Next(s, a).links[c]);
    }
  }

  lemma {:induction false} QuietRunsEnd(s: State, actions: seq<Action>)
    requires Inv(s) && Forced(s) && NoStraggler(s) && IsRun(s, actions)
    ensures |actions| <= Measure(s)
    decreases |actions|
  {
    if actions != [] {
      var a := actions[0];
      StaysQuiet(s, a);
      MeasureDrops(s, a);
      StaysForced(s, a);
      InvKept(s, a);
      hide Next, Enabled, Measure, Inv, Forced, NoStraggler;
      QuietRunsEnd(Next(s, a), actions[1..]);
    }
  }

  lemma {:induction false} SomeoneWeighs(weight: Link -> nat, links: seq<Link>) returns (c: nat)
    requires 0 < Total(weight, links)
    ensures c < |links| && 0 < weight(links[c])
  {
    if 0 < weight(links[0]) {
      c := 0;
    } else {
      c := SomeoneWeighs(weight, links[1..]);
      c := c + 1;
    }
  }

  /**
   The expired Shutdown is never stuck: until it returns some step can be taken, and if there is no
   straggler that step does not depend on a peer.
   */
  lemma ForcedNeverStuck(s: State) returns (a: Action)
    requires Inv(s) && (s.shutdown.Expired? || s.shutdown.ClosingAll? || s.shutdown.Draining?)
    ensures Enabled(s, a)
    ensures s.shutdown.Draining? && NoStraggler(s) && a.Leave? ==> !s.links[a.c].open
  {
    match s.shutdown {
      case Expired => a := LockAll;
      case ClosingAll(todo) =>
        if todo == {} {
          a := UnlockAll;
        } else {
          var c :| c in todo;
          a := CloseOne(c);
        }
      case Draining =>
        match s.waiter {
          case DoneClosed => a := ReturnForced;
          case Woken => a := CloseDone;
          case Starting => a := EnterWait;
          case Waiting =>
            var c := SomeoneWeighs(WaitedFor, s.links);
            a := Onward(s, c);
        }
    }
  }

  // The step connection c's own thread takes next.
  lemma Onward(s: State, c: nat) returns (a: Action)
    requires Inv(s) && Forced(s) && c < |s.links| && s.links[c].phase.Awaited()
    ensures Enabled(s, a) && !Straggles(s, a) && (!s.links[c].phase.Counted? ==> Moved(s, a) == Some(c))
    ensures NoStraggler(s) && a.Leave? ==> !s.links[a.c].open
  {
    AtMostTotal(SlotHeld, s.links, c);
    AtMostTotal(WaitedFor, s.links, c);
    hide Total;
    match s.links[c].phase {
      case Counted =>
        assert LinkOk(s.links[c], s.serve == Serving(c));
        a := Spawn;
      case Handling => a := Leave(c);
      case Closed => a := Untrack(c);
      case Untracked => a := ReturnSlot(c);
      case SlotReturned => a := Done(c);
    }
  }

  /**
   Forced shutdown completes: without a straggler no run from the end of closeAll on is longer than
   the measure, and one that cannot be extended ends with Shutdown returned. There is no straggler if
   closeAll found nothing on its way to track.
   */
  lemma ForcedShutdownCompletes(s: State, actions: seq<Action>)
    requires Inv(s) && s.shutdown.Draining? && IsRun(s, actions)
    requires NoStraggler(s) || s.late == None
    ensures |actions| <= Measure(s) <= (FRAMES_AFTER_CLOSE + 9) * |s.links| + 7
    ensures (forall a :: !Enabled(After(s, actions), a)) ==> After(s, actions).shutdown == Complete(true)
  {
    QuietRunsEnd(s, actions);
    InvAlways(s, actions);
    StaysForcedThroughout(s, actions);
    var t := After(s, actions);
    if t.shutdown.Draining? {
      var a := ForcedNeverStuck(t);
    }
    WeightAtMost(s.links);
  }

  function FramesOf(actions: seq<Action>, c: nat): nat {
    if actions == [] then 0
    else (if actions[0].Frame? && actions[0].c == c then 1 else 0) + FramesOf(actions[1..], c)
  }

  // What the step a leaves of a closed connection that was l: no more bytes than it held, less a frame's.
  predicate Shrinks(l: Link, a: Action, c: nat, l': Link) {
    !l'.open && l'.pending + (if a.Frame? && a.c == c then SHORTEST_FRAME else 0) <= l.pending
  }

  lemma ClosedHandlerStep(s: State, c: nat, a: Action)
    requires Enabled(s, a) && OfHandler(a) && c < |s.links| && !s.links[c].open
    ensures c < |Next(s, a).links| && Shrinks(s.links[c], a, c, Next(s, a).links[c])
  {
  }

  lemma ClosedOtherStep(s: State, c: nat, a: Action)
    requires Enabled(s, a) && !OfHandler(a) && c < |s.links| && !s.links[c].open
    ensures c < |Next(s, a).links| && Shrinks(s.links[c], a, c, Next(s, a).links[c])
  {
  }

  lemma ClosedStep(s: State, c: nat, a: Action)
    requires Enabled(s, a) && c < |s.links| && !s.links[c].open
    ensures c < |Next(s, a).links| && Shrinks(s.links[c], a, c, Next(s, a).links[c])
  {
    hide Next, Enabled, Shrinks;
    if OfHandler(a) {
      ClosedHandlerStep(s, c, a);
    } else {
      ClosedOtherStep(s, c, a);
    }
  }

  lemma {:induction false} FramesTakeBytes(s: State, c: nat, actions: seq<Action>)
    requires c < |s.links| && !s.links[c].open && IsRun(s, actions)
    ensures SHORTEST_FRAME * FramesOf(actions, c) <= s.links[c].pending
    decreases |actions|
  {
    if actions != [] {
      var a := actions[0];
      ClosedStep(s, c, a);
      hide Next, Enabled;
      FramesTakeBytes(Next(s, a), c, actions[1..]);
    }
  }

  /** Once its socket is closed, a handler finishes no more frames than the bytes it holds allow. */
  lemma FramesAfterClose(s: State, c: nat, actions: seq<Action>)
    requires Inv(s) && c < |s.links| && !s.links[c].open && IsRun(s, actions)
    ensures SHORTEST_FRAME * FramesOf(actions, c) <= s.links[c].pending
    ensures FramesOf(actions, c) <= FRAMES_AFTER_CLOSE
  {
    FramesTakeBytes(s, c, actions);
    assert LinkOk(s.links[c], s.serve == Serving(c));
    hide Inv, IsRun, FramesOf;
  }

  ghost predicate RunsBounded(s: State, bound: nat) {
    forall actions :: IsRun(s, actions) ==> |actions| <= bound
  }

  /** The runs that follow closeAll are bounded exactly when it has left no straggler. */
  lemma BoundedIffNoStraggler(s: State)
    requires Inv(s) && Forced(s) && 0 < s.maxConns
    ensures (exists bound :: RunsBounded(s, bound)) <==> NoStraggler(s)
  {
    if NoStraggler(s) {
      forall actions | IsRun(s, actions)
        ensures |actions| <= Measure(s)
      {
        QuietRunsEnd(s, actions);
      }
      assert RunsBounded(s, Measure(s));
    } else {
      var c :| 0 <= c < |s.links| && s.links[c].open && !s.links[c].phase.Refused?;
      forall bound: nat | RunsBounded(s, bound)
        ensures false
      {
        var actions := Straggle(s, c, bound + 1);
      }
    }
  }

  // Shutdown waits in <-done for a WaitGroup that is not down to zero.
  predicate KeptWaiting(s: State) {
    s.shutdown.Draining? && !Released(s)
  }

  ghost predicate CanBeKeptWaiting(s: State, n: nat) {
    exists actions :: IsRun(s, actions) && n <= |actions| && KeptWaiting(After(s, actions))
  }

  /** Shutdown can be kept waiting for any length of time exactly if it is waiting and there is a straggler. */
  lemma WaitsForeverIffStraggler(s: State)
    requires Inv(s) && s.shutdown.Draining? && 0 < s.maxConns
    ensures (forall n :: CanBeKeptWaiting(s, n)) <==> !Released(s) && !NoStraggler(s)
  {
    if NoStraggler(s) {
      forall actions | IsRun(s, actions)
        ensures |actions| <= Measure(s)
      {
        QuietRunsEnd(s, actions);
      }
      assert !CanBeKeptWaiting(s, Measure(s) + 1);
    } else if Released(s) {
      forall actions | IsRun(s, actions)
        ensures !KeptWaiting(After(s, actions))
      {
        StaysReleased(s, actions);
      }
      assert !CanBeKeptWaiting(s, 0);
    } else {
      var c :| 0 <= c < |s.links| && s.links[c].open && !s.links[c].phase.Refused?;
      forall n: nat
        ensures CanBeKeptWaiting(s, n)
      {
        var actions := Straggle(s, c, n);
      }
    }
  }

  lemma ReleasedStep(s: State, a: Action)
    requires Released(s) && Enabled(s, a)
    ensures Forced(s) ==> Forced(Next(s, a)) && Released(Next(s, a))
  {
  }

  lemma {:induction false} StaysReleased(s: State, actions: seq<Action>)
    requires Released(s) && Forced(s) && IsRun(s, actions)
    ensures Released(After(s, actions))
    decreases |actions|
  {
    hide Next, Enabled, Forced, Released;
    if actions != [] {
      ReleasedStep(s, actions[0]);
      StaysReleased(Next(s, actions[0]), actions[1..]);
    }
  }

  // A step that brings the open connection c closer to being served for as long as its peer likes.
  lemma TowardsService(s: State, c: nat) returns (a: Action)
    requires Inv(s) && Forced(s) && 0 < s.maxConns
    requires c < |s.links| && s.links[c].open && !s.links[c].phase.Refused? && !s.links[c].phase.Handling?
    ensures Enabled(s, a) && !Straggles(s, a)
    ensures var t := Next(s, a); c < |t.links| && t.links[c].open && !t.links[c].phase.Refused?
    ensures Next(s, a).shutdown == s.shutdown && Next(s, a).waiter == s.waiter
  {
    assert LinkOk(s.links[c], s.serve == Serving(c));
    match s.links[c].phase {
      case Accepted =>
        if s.sem < s.maxConns {
          a := TakeSlot;
        } else {
          var h := SomeoneWeighs(SlotHeld, s.links);
          assert LinkOk(s.links[h], s.serve == Serving(h));
          a := Onward(s, h);
        }
      case Slotted => a := Track;
      case Tracked => a := Count;
      case Counted => a := Spawn;
    }
  }

  lemma {:induction false} Straggle(s: State, c: nat, n: nat) returns (actions: seq<Action>)
    requires Inv(s) && Forced(s) && 0 < s.maxConns
    requires c < |s.links| && s.links[c].open && !s.links[c].phase.Refused?
    ensures IsRun(s, actions) && n <= |actions|
    ensures After(s, actions).shutdown == s.shutdown && After(s, actions).waiter == s.waiter
    decreases Measure(s)
  {
    if s.links[c].phase.Handling? {
      assert LinkOk(s.links[c], s.serve == Serving(c));
      Busy(s, c, n);
      actions := Frames(c, n);
    } else {
      var a := TowardsService(s, c);
      MeasureDrops(s, a);
      StaysForced(s, a);
      InvKept(s, a);
      StepKeepsLimit(s, a);
      hide Next, Enabled, Inv, Forced, Measure;
      var more := Straggle(Next(s, a), c, n);
      actions := [a] + more;
    }
  }

  // n frames, each received and then dealt with.
  function Frames(c: nat, n: nat): (actions: seq<Action>)
    ensures |actions| == 2 * n
  {
    if n == 0 then [] else [Receive(c, SHORTEST_FRAME), Frame(c, SHORTEST_FRAME)] + Frames(c, n - 1)
  }

  lemma {:induction false} Busy(s: State, c: nat, n: nat)
    requires s.At(c, Handling) && s.links[c].open
    ensures IsRun(s, Frames(c, n)) && After(s, Frames(c, n)) == if n == 0 then s else s.Hold(c, 0)
    decreases n
  {
    if 0 < n {
      var actions := Frames(c, n);
      var t := Next(s, actions[0]);
      assert actions[1..][1..] == Frames(c, n - 1) && actions[1..][0] == Frame(c, SHORTEST_FRAME);
      assert Next(t, actions[1..][0]) == s.Hold(c, 0);
      Busy(s.Hold(c, 0), c, n - 1);
      assert s.Hold(c, 0).Hold(c, 0) == s.Hold(c, 0);
    }
  }

  lemma {:induction false} StaysForcedThroughout(s: State, actions: seq<Action>)
    requires Forced(s) && IsRun(s, actions)
    ensures Forced(After(s, actions))
    decreases |actions|
  {
    hide Next, Enabled, Forced;
    if actions != [] {
      StaysForced(s, actions[0]);
      StaysForcedThroughout(Next(s, actions[0]), actions[1..]);
    }
  }

  lemma OneWeightAtMost(l: Link)
    requires l.pending <= MAX_PENDING
    ensures Weight(l) <= FRAMES_AFTER_CLOSE + 9
  {
  }

  lemma {:induction false} WeightAtMost(links: seq<Link>)
    requires forall c :: 0 <= c < |links| ==> links[c].pending <= MAX_PENDING
    ensures Total(Weight, links) <= (FRAMES_AFTER_CLOSE + 9) * |links|
  {
    if links != [] {
      OneWeightAtMost(links[0]);
      hide Weight;
      WeightAtMost(links[1..]);
    }
  }

  // ---- The edges are real: runs that reach them ----

  ghost predicate Reaches(maxConns: nat, s: State) {
    exists actions :: IsRun(Init(maxConns), actions) && After(Init(maxConns), actions) == s
  }

  lemma Step(maxConns: nat, s: State, a: Action) returns (t: State)
    requires Reaches(maxConns, s) && Enabled(s, a)
    ensures t == Next(s, a) && Reaches(maxConns, t)
  {
    var actions :| IsRun(Init(maxConns), actions) && After(Init(maxConns), actions) == s;
    RunExtends(Init(maxConns), actions, a);
    t := Next(s, a);
  }

  lemma AtStart(maxConns: nat)
    ensures Reaches(maxConns, Init(maxConns))
  {
    assert IsRun(Init(maxConns), []) && After(Init(maxConns), []) == Init(maxConns);
  }

  // Between taking a slot and wg.Add.
  function SlotOnly(l: Link): nat {
    if l.phase.Slotted? || l.phase.Tracked? then 1 else 0
  }

  // Between giving the slot back and wg.Done.
  function CountOnly(l: Link): nat {
    if l.phase.SlotReturned? then 1 else 0
  }

  lemma {:induction false} SlotsAgainstCount(links: seq<Link>)
    ensures Total(WaitedFor, links) + Total(SlotOnly, links) == Total(SlotHeld, links) + Total(CountOnly, links)
  {
    if links != [] {
      SlotsAgainstCount(links[1..]);
    }
  }

  /**
   The exact account: the WaitGroup exceeds the semaphore by the connections that have given their slot
   back and are not done, less those that have a slot and are not counted yet; and so it exceeds
   maxConns exactly if these differ by more than the free slots.
   */
  lemma WaitGroupAccount(maxConns: nat, actions: seq<Action>)
    requires IsRun(Init(maxConns), actions)
    ensures var s := After(Init(maxConns), actions);
      && s.wg == s.sem + Total(CountOnly, s.links) - Total(SlotOnly, s.links)
      && (s.wg <= maxConns <==> Total(CountOnly, s.links) <= (maxConns - s.sem) + Total(SlotOnly, s.links))
  {
    ConnectionLimits(maxConns, actions);
    SlotsAgainstCount(After(Init(maxConns), actions).links);
  }

  // n connections have come and gone but for their wg.Done.
  function Lingering(maxConns: nat, n: nat): State {
    Init(maxConns).(links := seq(n, _ => Link(SlotReturned, false, 0)), wg := n)
  }

  /** Slots are returned before wg.Done, so no bound at all holds for the WaitGroup. */
  lemma {:induction false} WaitGroupUnbounded(maxConns: nat, n: nat)
    requires 0 < maxConns
    ensures Reaches(maxConns, Lingering(maxConns, n)) && Lingering(maxConns, n).wg == n
  {
    if n == 0 {
      AtStart(maxConns);
      assert Lingering(maxConns, 0) == Init(maxConns);
    } else {
      WaitGroupUnbounded(maxConns, n - 1);
      var s := Lingering(maxConns, n - 1);
      var t := Served(maxConns, s);
      hide IsRun, After, Reaches;
      t := Step(maxConns, t, Leave(n - 1));
      t := Step(maxConns, t, Untrack(n - 1));
      t := Step(maxConns, t, ReturnSlot(n - 1));
      assert t.links == Lingering(maxConns, n).links && t.conns == {};
    }
  }

  lemma Served(maxConns: nat, s: State) returns (t: State)
    requires Reaches(maxConns, s) && s.serve.Accepting? && s.listening && s.MutexFree()
    requires s.sem < s.maxConns && s.conns == {}
    ensures Reaches(maxConns, t)
    ensures t == s.(links := s.links + [Link(Handling, true, 0)], sem := s.sem + 1, wg := s.wg + 1, conns := {|s.links|})
  {
    hide IsRun, After, Reaches;
    t := Step(maxConns, s, Accept);
    t := Step(maxConns, t, TakeSlot);
    t := Step(maxConns, t, Track);
    t := Step(maxConns, t, Count);
    t := Step(maxConns, t, Spawn);
    assert t.links == s.links + [Link(Handling, true, 0)];
  }

  /** Shutdown can return nil and a connection accepted before it still start being served. */
  lemma GracefulMayLeaveOne(maxConns: nat) returns (s: State)
    requires 0 < maxConns
    ensures Reaches(maxConns, s) && s.shutdown == Complete(false)
    ensures s.window == Some(0) && s.At(0, Handling) && s.links[0].open
  {
    s := Overlooking(maxConns);
    hide IsRun, After, Reaches;
    s := Step(maxConns, s, TakeSlot);
    s := Step(maxConns, s, Track);
    s := Step(maxConns, s, Count);
    s := Step(maxConns, s, Spawn);
  }

  // Shutdown has returned and Serve still carries the connection accepted before.
  lemma Overlooking(maxConns: nat) returns (s: State)
    ensures Reaches(maxConns, s)
    ensures s == Init(maxConns).(links := [Link(Accepted, true, 0)], serve := Serving(0), closing := true,
      listening := false, shutdown := Complete(false), waiter := DoneClosed, window := Some(0))
  {
    AtStart(maxConns);
    hide IsRun, After, Reaches;
    s := Step(maxConns, Init(maxConns), Accept);
    s := Step(maxConns, s, SetClosing);
    s := Step(maxConns, s, CloseListener);
    s := Step(maxConns, s, StartWait);
    s := Step(maxConns, s, EnterWait);
    s := Step(maxConns, s, CloseDone);
    s := Step(maxConns, s, SelectDone);
  }

  /**
   Without the condition forced shutdown need not terminate: a connection on its way to track during
   closeAll is missed by it, is then counted, and can have any number of frames served while Shutdown
   waits.
   */
  lemma StragglerBlocksForced(maxConns: nat, n: nat) returns (s: State)
    requires 0 < maxConns
    ensures Reaches(maxConns, s) && KeptWaiting(s) && s.late == Some(0)
    ensures IsRun(s, Frames(0, n)) && After(s, Frames(0, n)) == s
  {
    s := Missed(maxConns);
    s := MissedServed(maxConns, s);
    assert s.Hold(0, 0) == s;
    Busy(s, 0, n);
  }

  // closeAll is over; the one connection there is had a slot then, but was not in the map.
  function JustMissed(maxConns: nat): State {
    Init(maxConns).(
      links := [Link(Slotted, true, 0)], sem := 1, serve := Serving(0), closing := true, listening := false,
      shutdown := Draining, waiter := Starting, late := Some(0))
  }

  lemma Missed(maxConns: nat) returns (s: State)
    requires 0 < maxConns
    ensures Reaches(maxConns, s) && s == JustMissed(maxConns)
  {
    AtStart(maxConns);
    hide IsRun, After, Reaches;
    s := Step(maxConns, Init(maxConns), Accept);
    s := Step(maxConns, s, TakeSlot);
    s := Step(maxConns, s, SetClosing);
    s := Step(maxConns, s, CloseListener);
    s := Step(maxConns, s, StartWait);
    s := Step(maxConns, s, SelectExpired);
    s := Step(maxConns, s, LockAll);
    s := Step(maxConns, s, UnlockAll);
  }

  lemma MissedServed(maxConns: nat, s0: State) returns (s: State)
    requires Reaches(maxConns, s0) && s0 == JustMissed(maxConns)
    ensures Reaches(maxConns, s) && KeptWaiting(s) && s.late == Some(0) && s.links == [Link(Handling, true, 0)]
  {
    hide IsRun, After, Reaches;
    s := Step(maxConns, s0, Track);
    s := Step(maxConns, s, Count);
    s := Step(maxConns, s, EnterWait);
    s := Step(maxConns, s, Spawn);
  }
}
