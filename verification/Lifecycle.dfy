/**
 internal/server/server.go as an interleaving of atomic steps: the accept loop, one goroutine per
 connection, Shutdown, and the goroutine Shutdown leaves waiting on the WaitGroup.
 */
module Lifecycle {
  import opened Options
  import opened HandleConn

  // How far an accepted connection has got.
  datatype Phase =
    | Accepted       // returned by Accept
    | Refused        // no slot was free; about to be closed
    | Slotted        // a slot of the semaphore taken
    | Tracked        // entered in the conns map
    | Counted        // wg.Add(1) done, goroutine not yet started
    | Handling       // inside handleConn
    | Closed         // handleConn has returned, its deferred Close done
    | Untracked      // removed from the conns map
    | SlotReturned   // slot given back
    | Finished       // wg.Done() done
    | Dropped        // refused and closed
  {
    // Between Accept and track.
    predicate Unmapped() {
      Accepted? || Refused? || Slotted?
    }

    // Still in the hands of Serve.
    predicate InServe() {
      Unmapped() || Tracked? || Counted?
    }

    // In the conns map.
    predicate Mapped() {
      Tracked? || Counted? || Handling? || Closed?
    }

    predicate HasSlot() {
      Slotted? || Mapped() || Untracked?
    }

    // Between wg.Add and wg.Done.
    predicate Awaited() {
      Counted? || Handling? || Closed? || Untracked? || SlotReturned?
    }

    predicate Over() {
      Finished? || Dropped?
    }
  }

  // `pending` counts the bytes the handler has received and not used up in finished frames, those of the
  // frame under way no further than its header.
  datatype Link = Link(phase: Phase, open: bool, pending: nat)

  datatype ServePc = Accepting | Serving(c: nat) | AcceptFailed(spurious: bool) | Returned(err: bool, spurious: bool)

  datatype ShutdownPc =
    | Idle | ClosingSet | ListenerClosed | Selecting | Expired
    | ClosingAll(todo: set<nat>)   // closeAll, holding the mutex
    | Draining                     // <-done after closeAll
    | Complete(forced: bool)

  datatype WaiterPc = Unborn | Starting | Waiting | Woken | DoneClosed

  // Connections are numbered in the order they are accepted. The last two fields are history:
  // the connection Serve held on its way to track when closeAll took the mutex, and the one it held
  // when the WaitGroup released its waiter.
  datatype State = State(
    maxConns: nat, links: seq<Link>,
    sem: nat, wg: nat, conns: set<nat>, closing: bool, listening: bool,
    serve: ServePc, shutdown: ShutdownPc, waiter: WaiterPc,
    late: Option<nat>, window: Option<nat>)
  {
    predicate At(c: nat, phase: Phase) {
      c < |links| && links[c].phase == phase
    }

    predicate ServeAt(phase: Phase) {
      serve.Serving? && At(serve.c, phase)
    }

    predicate MutexFree() {
      !shutdown.ClosingAll?
    }

    function To(c: nat, phase: Phase): State
      requires c < |links|
    {
      this.(links := links[c := links[c].(phase := phase)])
    }

    function Hold(c: nat, pending: nat): State
      requires c < |links|
    {
      this.(links := links[c := links[c].(pending := pending)])
    }

    function CloseSocket(c: nat): State
      requires c < |links|
    {
      this.(links := links[c := links[c].(open := false)])
    }
  }

  function Init(maxConns: nat): State {
    State(maxConns, [], 0, 0, {}, false, true, Accepting, Idle, Unborn, None, None)
  }

  datatype Action =
    // Serve
    | Accept | FailAccept | LeaveServe | TakeSlot | Refuse | Track | Count | Spawn
    // a connection's goroutine
    | Receive(c: nat, pending: nat) | Frame(c: nat, used: nat) | Leave(c: nat) | Untrack(c: nat) | ReturnSlot(c: nat) | Done(c: nat)
    // Shutdown
    | SetClosing | CloseListener | StartWait | SelectDone | SelectExpired
    | LockAll | CloseOne(c: nat) | UnlockAll | ReturnForced
    // the goroutine waiting on the WaitGroup
    | EnterWait | CloseDone

  predicate Enabled(s: State, a: Action) {
    match a
    case Accept => s.serve.Accepting? && s.listening
    case FailAccept => s.serve.Accepting?
    case LeaveServe => s.serve.AcceptFailed?
    case TakeSlot => s.ServeAt(Accepted)
    case Refuse => s.ServeAt(Refused)
    case Track => s.ServeAt(Slotted) && s.MutexFree()
    case Count => s.ServeAt(Tracked)
    case Spawn => s.ServeAt(Counted)
    case Receive(c, pending) => s.At(c, Handling) && s.links[c].open && pending <= MAX_PENDING
    case Frame(c, used) => s.At(c, Handling) && SHORTEST_FRAME <= used <= s.links[c].pending
    case Leave(c) => s.At(c, Handling)
    case Untrack(c) => s.At(c, Closed) && s.MutexFree()
    case ReturnSlot(c) => s.At(c, Untracked) && 0 < s.sem
    case Done(c) => s.At(c, SlotReturned) && 0 < s.wg
    case SetClosing => s.shutdown.Idle?
    case CloseListener => s.shutdown.ClosingSet?
    case StartWait => s.shutdown.ListenerClosed?
    case SelectDone => s.shutdown.Selecting? && s.waiter.DoneClosed?
    case SelectExpired => s.shutdown.Selecting?
    case LockAll => s.shutdown.Expired?
    case CloseOne(c) => s.shutdown.ClosingAll? && c in s.shutdown.todo && c < |s.links|
    case UnlockAll => s.shutdown.ClosingAll? && s.shutdown.todo == {}
    case ReturnForced => s.shutdown.Draining? && s.waiter.DoneClosed?
    case EnterWait => s.waiter.Starting?
    case CloseDone => s.waiter.Woken?
  }

  // The connection Serve has accepted but not yet started a goroutine for.
  function Held(s: State): Option<nat> {
    if s.serve.Serving? then Some(s.serve.c) else None
  }

  // The part of that interval before the connection is in the conns map.
  function BeforeTrack(s: State): Option<nat> {
    if s.serve.Serving? && s.serve.c < |s.links| && s.links[s.serve.c].phase.Unmapped() then Held(s) else None
  }

  function Next(s: State, a: Action): State
    requires Enabled(s, a)
  {
    match a
    case Accept =>
      s.(links := s.links + [Link(Accepted, true, 0)], serve := Serving(|s.links|))
    case FailAccept => s.(serve := AcceptFailed(s.listening))
    case LeaveServe => s.(serve := Returned(!s.closing, s.serve.spurious))
    case TakeSlot =>
      if s.sem < s.maxConns then s.To(s.serve.c, Slotted).(sem := s.sem + 1) else s.To(s.serve.c, Refused)
    case Refuse => s.To(s.serve.c, Dropped).CloseSocket(s.serve.c).(serve := Accepting)
    case Track => s.To(s.serve.c, Tracked).(conns := s.conns + {s.serve.c})
    case Count => s.To(s.serve.c, Counted).(wg := s.wg + 1)
    case Spawn => s.To(s.serve.c, Handling).(serve := Accepting)
    case Receive(c, pending) => s.Hold(c, pending)
    case Frame(c, used) => s.Hold(c, s.links[c].pending - used)
    case Leave(c) => s.To(c, Closed).CloseSocket(c)
    case Untrack(c) => s.To(c, Untracked).(conns := s.conns - {c})
    case ReturnSlot(c) => s.To(c, SlotReturned).(sem := s.sem - 1)
    case Done(c) =>
      var t := s.To(c, Finished).(wg := s.wg - 1);
      if t.wg == 0 && t.waiter.Waiting? then t.(waiter := Woken, window := Held(t)) else t
    case SetClosing => s.(shutdown := ClosingSet, closing := true)
    case CloseListener => s.(shutdown := ListenerClosed, listening := false)
    case StartWait => s.(shutdown := Selecting, waiter := Starting)
    case SelectDone => s.(shutdown := Complete(false))
    case SelectExpired => s.(shutdown := Expired)
    case LockAll => s.(shutdown := ClosingAll(s.conns), late := BeforeTrack(s))
    case CloseOne(c) => s.CloseSocket(c).(shutdown := ClosingAll(s.shutdown.todo - {c}))
    case UnlockAll => s.(shutdown := Draining)
    case ReturnForced => s.(shutdown := Complete(true))
    case EnterWait => if s.wg == 0 then s.(waiter := Woken, window := Held(s)) else s.(waiter := Waiting)
    case CloseDone => s.(waiter := DoneClosed)
  }

  predicate IsRun(s: State, actions: seq<Action>)
    decreases |actions|
  {
    actions == [] || (Enabled(s, actions[0]) && IsRun(Next(s, actions[0]), actions[1..]))
  }

  function After(s: State, actions: seq<Action>): State
    requires IsRun(s, actions)
    decreases |actions|
  {
    if actions == [] then s else After(Next(s, actions[0]), actions[1..])
  }

  lemma OneStep(s: State, a: Action)
    requires Enabled(s, a)
    ensures IsRun(s, [a]) && After(s, [a]) == Next(s, a)
  {
    hide Next, Enabled;
    assert [a][1..] == [];
  }

  lemma {:induction false} RunsJoin(s: State, first: seq<Action>, more: seq<Action>)
    requires IsRun(s, first) && IsRun(After(s, first), more)
    ensures IsRun(s, first + more) && After(s, first + more) == After(After(s, first), more)
    decreases |first|
  {
    hide Next, Enabled;
    if first == [] {
      assert first + more == more;
    } else {
      assert (first + more)[1..] == first[1..] + more;
      RunsJoin(Next(s, first[0]), first[1..], more);
    }
  }

  lemma RunExtends(s: State, actions: seq<Action>, a: Action)
    requires IsRun(s, actions) && Enabled(After(s, actions), a)
    ensures IsRun(s, actions + [a]) && After(s, actions + [a]) == Next(After(s, actions), a)
  {
    hide Next, Enabled;
    OneStep(After(s, actions), a);
    hide IsRun, After;
    RunsJoin(s, actions, [a]);
  }

  /** A turn of the request loop, as it is proved of ServeFrame, is a step or two of this machine. */
  lemma TurnIsSteps(s: State, c: nat, after: nat) returns (actions: seq<Action>)
    requires s.At(c, Handling) && Turn(s.links[c].open, s.links[c].pending, after)
    ensures IsRun(s, actions) && After(s, actions) == s.Hold(c, after)
  {
    if s.links[c].open {
      var frame := Frame(c, SHORTEST_FRAME);
      actions := [Receive(c, after + SHORTEST_FRAME), frame];
      assert actions[1..] == [frame];
      OneStep(Next(s, actions[0]), frame);
      assert Next(Next(s, actions[0]), frame) == s.Hold(c, after);
    } else {
      actions := [Frame(c, s.links[c].pending - after)];
      OneStep(s, actions[0]);
    }
  }

  /** A turn halfway through which closeAll closes the socket, the bytes having been received before. */
  lemma CutTurnIsSteps(s: State, c: nat, after: nat) returns (actions: seq<Action>)
    requires s.At(c, Handling) && s.links[c].open && Enabled(s, CloseOne(c)) && Turn(true, s.links[c].pending, after)
    ensures actions == [Receive(c, after + SHORTEST_FRAME), CloseOne(c), Frame(c, SHORTEST_FRAME)]
    ensures IsRun(s, actions) && After(s, actions) == Next(s, CloseOne(c)).Hold(c, after)
  {
    var first, last := Receive(c, after + SHORTEST_FRAME), Frame(c, SHORTEST_FRAME);
    actions := [first, CloseOne(c), last];
    var t := Next(Next(s, first), CloseOne(c));
    OneStep(t, last);
    assert Next(t, last) == Next(s, CloseOne(c)).Hold(c, after);
    hide Next, Enabled;
    assert actions[1..] == [CloseOne(c), last] && actions[1..][1..] == [last];
  }

  // Sums over the connections.

  function Total(weight: Link -> nat, links: seq<Link>): nat {
    if links == [] then 0 else weight(links[0]) + Total(weight, links[1..])
  }

  lemma {:induction false} TotalUpdate(weight: Link -> nat, links: seq<Link>, i: nat, link: Link)
    requires i < |links|
    ensures Total(weight, links[i := link]) + weight(links[i]) == Total(weight, links) + weight(link)
  {
    if i == 0 {
      assert links[i := link][1..] == links[1..];
    } else {
      assert links[i := link][1..] == links[1..][i - 1 := link];
      TotalUpdate(weight, links[1..], i - 1, link);
    }
  }

  lemma {:induction false} TotalAppend(weight: Link -> nat, links: seq<Link>, link: Link)
    ensures Total(weight, links + [link]) == Total(weight, links) + weight(link)
  {
    if links == [] {
      assert links + [link] == [link];
    } else {
      assert (links + [link])[1..] == links[1..] + [link];
      TotalAppend(weight, links[1..], link);
    }
  }

  function SlotHeld(l: Link): nat {
    if l.phase.HasSlot() then 1 else 0
  }

  function WaitedFor(l: Link): nat {
    if l.phase.Awaited() then 1 else 0
  }

  function SocketOpen(l: Link): nat {
    if l.open then 1 else 0
  }

  function SlotlessOpen(l: Link): nat {
    if l.open && SlotHeld(l) == 0 then 1 else 0
  }

  function OpenWithSlot(l: Link): nat {
    if l.open && SlotHeld(l) == 1 then 1 else 0
  }

  // The three counters mean what they are meant to.
  predicate Counters(s: State) {
    && s.sem == Total(SlotHeld, s.links) <= s.maxConns
    && s.wg == Total(WaitedFor, s.links)
    && (forall c :: c in s.conns ==> c < |s.links|)
    && (forall c :: 0 <= c < |s.links| ==> (c in s.conns <==> s.links[c].phase.Mapped()))
  }

  predicate LinkOk(l: Link, held: bool) {
    && (l.phase.InServe() <==> held)
    && l.pending <= MAX_PENDING
    && (l.open ==> l.phase.InServe() || l.phase.Handling?)
    && (l.phase.Unmapped() ==> l.open)
  }

  // Who owns which connection, and when its socket can be open.
  predicate Ownership(s: State) {
    && (s.serve.Serving? ==> s.serve.c == |s.links| - 1)
    && forall c :: 0 <= c < |s.links| ==> LinkOk(s.links[c], s.serve == Serving(c))
  }

  // What Shutdown's progress says about the rest.
  predicate Closing(s: State) {
    && (s.closing <==> !s.shutdown.Idle?)
    && (s.listening <==> s.shutdown.Idle? || s.shutdown.ClosingSet?)
    && (s.waiter.Unborn? <==> s.shutdown.Idle? || s.shutdown.ClosingSet? || s.shutdown.ListenerClosed?)
    && (s.serve.AcceptFailed? && !s.serve.spurious ==> s.closing)
    && (s.serve.Returned? && !s.serve.spurious ==> !s.serve.err)
    && (s.shutdown.Complete? ==> s.waiter.DoneClosed?)
  }

  predicate Released(s: State) {
    s.waiter.Woken? || s.waiter.DoneClosed?
  }

  predicate Waits(s: State) {
    && (s.waiter.Waiting? ==> 0 < s.wg)
    && (Released(s) ==> forall c :: 0 <= c < |s.links| ==> s.links[c].phase.Over() || s.window == Some(c))
  }

  // closeAll has run to its end.
  predicate Forced(s: State) {
    s.shutdown.Draining? || s.shutdown == Complete(true)
  }

  predicate Swept(s: State) {
    && (s.shutdown.ClosingAll? ==> s.shutdown.todo <= s.conns)
    && (s.shutdown.ClosingAll? ==>
        forall c :: 0 <= c < |s.links| && s.links[c].open ==> c in s.shutdown.todo || s.late == Some(c))
    && (Forced(s) ==> forall c :: 0 <= c < |s.links| && s.links[c].open ==> s.late == Some(c))
  }

  predicate Inv(s: State) {
    Counters(s) && Ownership(s) && Closing(s) && Waits(s) && Swept(s)
  }

  lemma Rephased(s: State, c: nat, link: Link)
    requires c < |s.links|
    ensures Total(SlotHeld, s.links[c := link]) + SlotHeld(s.links[c]) == Total(SlotHeld, s.links) + SlotHeld(link)
    ensures Total(WaitedFor, s.links[c := link]) + WaitedFor(s.links[c]) == Total(WaitedFor, s.links) + WaitedFor(link)
  {
    TotalUpdate(SlotHeld, s.links, c, link);
    TotalUpdate(WaitedFor, s.links, c, link);
  }

  // The connection an action moves along, if any.
  function Moved(s: State, a: Action): Option<nat> {
    match a
    case TakeSlot | Refuse | Track | Count | Spawn => Held(s)
    case Receive(c, _) => Some(c)
    case Frame(c, _) => Some(c)
    case Leave(c) => Some(c)
    case Untrack(c) => Some(c)
    case ReturnSlot(c) => Some(c)
    case Done(c) => Some(c)
    case CloseOne(c) => Some(c)
    case _ => None
  }

  // What an action does to the connections and the three counters.
  predicate Shape(s: State, a: Action, t: State) {
    match Moved(s, a)
    case None =>
      && t.links == (if a.Accept? then s.links + [Link(Accepted, true, 0)] else s.links)
      && t.sem == s.sem && t.wg == s.wg && t.conns == s.conns
    case Some(c) =>
      && c < |s.links| == |t.links| && t.links == s.links[c := t.links[c]]
      && t.sem + SlotHeld(s.links[c]) == s.sem + SlotHeld(t.links[c])
      && t.wg + WaitedFor(s.links[c]) == s.wg + WaitedFor(t.links[c])
      && t.conns == if t.links[c].phase.Mapped() then s.conns + {c} else s.conns - {c}
  }

  predicate OfServe(a: Action) {
    a.Accept? || a.FailAccept? || a.LeaveServe? || a.TakeSlot? || a.Refuse? || a.Track? || a.Count? || a.Spawn?
  }

  predicate OfHandler(a: Action) {
    a.Receive? || a.Frame? || a.Leave? || a.Untrack? || a.ReturnSlot? || a.Done?
  }

  lemma ServeShape(s: State, a: Action)
    requires Counters(s) && Ownership(s) && Enabled(s, a) && OfServe(a)
    ensures Shape(s, a, Next(s, a)) && Next(s, a).sem <= Next(s, a).maxConns
  {
    hide Total;
  }

  lemma HandlerShape(s: State, a: Action)
    requires Counters(s) && Ownership(s) && Enabled(s, a) && OfHandler(a)
    ensures Shape(s, a, Next(s, a)) && Next(s, a).sem <= Next(s, a).maxConns
  {
    hide Total;
  }

  lemma ShutdownShape(s: State, a: Action)
    requires Counters(s) && Ownership(s) && Enabled(s, a) && !OfServe(a) && !OfHandler(a)
    ensures Shape(s, a, Next(s, a)) && Next(s, a).sem <= Next(s, a).maxConns
  {
    hide Total;
  }

  lemma StepShape(s: State, a: Action)
    requires Counters(s) && Ownership(s) && Enabled(s, a)
    ensures Shape(s, a, Next(s, a)) && Next(s, a).sem <= Next(s, a).maxConns
  {
    hide Next, Enabled, Counters, Ownership, Shape;
    if OfServe(a) {
      ServeShape(s, a);
    } else if OfHandler(a) {
      HandlerShape(s, a);
    } else {
      ShutdownShape(s, a);
    }
  }

  lemma SumsFollowShape(s: State, a: Action, t: State)
    requires Counters(s) && Shape(s, a, t)
    ensures t.sem == Total(SlotHeld, t.links) && t.wg == Total(WaitedFor, t.links)
  {
    hide Moved, Total, SlotHeld, WaitedFor;
    if Moved(s, a).Some? {
      var c := Moved(s, a).value;
      Rephased(s, c, t.links[c]);
    } else if a.Accept? {
      TotalAppend(SlotHeld, s.links, Link(Accepted, true, 0));
      TotalAppend(WaitedFor, s.links, Link(Accepted, true, 0));
      NewLinkWeighsNothing();
    }
  }

  lemma ConnsFollowShape(s: State, a: Action, t: State)
    requires Counters(s) && Shape(s, a, t)
    ensures forall c :: c in t.conns ==> c < |t.links|
    ensures forall c :: 0 <= c < |t.links| ==> (c in t.conns <==> t.links[c].phase.Mapped())
  {
  }

  lemma CountersKept(s: State, a: Action)
    requires Counters(s) && Ownership(s) && Enabled(s, a)
    ensures Counters(Next(s, a))
  {
    StepShape(s, a);
    hide Next, Enabled, Total, Ownership, Shape;
    SumsFollowShape(s, a, Next(s, a));
    ConnsFollowShape(s, a, Next(s, a));
  }

  lemma NewLinkWeighsNothing()
    ensures SlotHeld(Link(Accepted, true, 0)) == WaitedFor(Link(Accepted, true, 0)) == 0
  {
  }

  lemma ServeKeepsOwnership(s: State, a: Action)
    requires Ownership(s) && Enabled(s, a) && OfServe(a)
    ensures Ownership(Next(s, a))
  {
  }

  lemma HandlerMoves(s: State, a: Action)
    requires Enabled(s, a) && OfHandler(a)
    ensures var t, c := Next(s, a), Moved(s, a).value;
      && t.serve == s.serve && c < |s.links| == |t.links| && t.links == s.links[c := t.links[c]]
  {
  }

  lemma HandlerKeepsLink(s: State, a: Action)
    requires Enabled(s, a) && OfHandler(a) && LinkOk(s.links[Moved(s, a).value], s.serve == Serving(Moved(s, a).value))
    ensures var t, c := Next(s, a), Moved(s, a).value;
      c < |t.links| && LinkOk(t.links[c], s.serve == Serving(c))
  {
  }

  lemma HandlerKeepsOwnership(s: State, a: Action)
    requires Ownership(s) && Enabled(s, a) && OfHandler(a)
    ensures Ownership(Next(s, a))
  {
    HandlerMoves(s, a);
    HandlerKeepsLink(s, a);
    hide Next, Enabled, LinkOk, Moved;
  }

  lemma ShutdownKeepsOwnership(s: State, a: Action)
    requires Inv(s) && Enabled(s, a) && !OfServe(a) && !OfHandler(a)
    ensures Ownership(Next(s, a))
  {
    hide Total;
  }

  lemma OwnershipKept(s: State, a: Action)
    requires Inv(s) && Enabled(s, a)
    ensures Ownership(Next(s, a))
  {
    hide Next, Enabled, Ownership;
    if OfServe(a) {
      ServeKeepsOwnership(s, a);
    } else if OfHandler(a) {
      HandlerKeepsOwnership(s, a);
    } else {
      ShutdownKeepsOwnership(s, a);
    }
  }

  lemma ServeKeepsClosing(s: State, a: Action)
    requires Closing(s) && Enabled(s, a) && OfServe(a)
    ensures Closing(Next(s, a))
  {
  }

  lemma OthersKeepClosing(s: State, a: Action)
    requires Closing(s) && Enabled(s, a) && !OfServe(a)
    ensures Closing(Next(s, a))
  {
  }

  lemma ClosingKept(s: State, a: Action)
    requires Closing(s) && Enabled(s, a)
    ensures Closing(Next(s, a))
  {
    hide Next, Enabled, Closing;
    if OfServe(a) {
      ServeKeepsClosing(s, a);
    } else {
      OthersKeepClosing(s, a);
    }
  }

  lemma WaitsKept(s: State, a: Action)
    requires Inv(s) && Enabled(s, a)
    ensures Waits(Next(s, a))
  {
    hide Total;
    var t := Next(s, a);
    if Released(s) {
      StayOver(s, a);
    } else if Released(t) {
      CountersKept(s, a);
      OwnershipKept(s, a);
      NobodyWaitedFor(t);
    }
  }

  lemma StayOver(s: State, a: Action)
    requires Inv(s) && Enabled(s, a) && Released(s)
    ensures Waits(Next(s, a))
  {
    hide Total;
  }

  lemma NobodyWaitedFor(s: State)
    requires Counters(s) && Ownership(s) && s.wg == 0
    ensures forall c :: 0 <= c < |s.links| ==> s.links[c].phase.Over() || Held(s) == Some(c)
  {
    forall c | 0 <= c < |s.links|
      ensures s.links[c].phase.Over() || Held(s) == Some(c)
    {
      AtMostTotal(WaitedFor, s.links, c);
      assert WaitedFor(s.links[c]) == 0;
    }
  }

  lemma {:induction false} AtMostTotal(weight: Link -> nat, links: seq<Link>, c: nat)
    requires c < |links|
    ensures weight(links[c]) <= Total(weight, links)
  {
    if 0 < c {
      AtMostTotal(weight, links[1..], c - 1);
    }
  }

  lemma NothingOpened(s: State, a: Action)
    requires Inv(s) && Enabled(s, a) && (OfServe(a) || OfHandler(a)) && !s.listening
    ensures Moved(s, a).Some? ==> Next(s, a).links[Moved(s, a).value].open ==> s.links[Moved(s, a).value].open
    ensures !a.Accept? && Next(s, a).shutdown == s.shutdown && Next(s, a).late == s.late
    ensures s.shutdown.ClosingAll? ==> Next(s, a).conns == s.conns
  {
    hide Total, Counters, Waits, Swept;
  }

  // Serve opens no socket once the listener is closed, and handlers open none at all.
  lemma GoroutinesKeepSwept(s: State, a: Action)
    requires Inv(s) && Enabled(s, a) && (OfServe(a) || OfHandler(a))
    ensures Swept(Next(s, a))
  {
    if !s.listening {
      StepShape(s, a);
      NothingOpened(s, a);
      hide Next, Enabled, Moved, Counters, Ownership, Waits, LinkOk;
    } else {
      ShutdownUntouched(s, a);
      hide Next, Enabled, Moved, Counters, Ownership, Waits, LinkOk;
    }
  }

  lemma ShutdownUntouched(s: State, a: Action)
    requires Enabled(s, a) && (OfServe(a) || OfHandler(a))
    ensures Next(s, a).shutdown == s.shutdown
  {
  }

  lemma ShutdownKeepsSwept(s: State, a: Action)
    requires Inv(s) && Enabled(s, a) && !OfServe(a) && !OfHandler(a)
    ensures Swept(Next(s, a))
  {
    hide Total;
  }

  lemma SweptKept(s: State, a: Action)
    requires Inv(s) && Enabled(s, a)
    ensures Swept(Next(s, a))
  {
    hide Next, Enabled, Swept, Inv;
    if OfServe(a) || OfHandler(a) {
      GoroutinesKeepSwept(s, a);
    } else {
      ShutdownKeepsSwept(s, a);
    }
  }

  lemma InvKept(s: State, a: Action)
    requires Inv(s) && Enabled(s, a)
    ensures Inv(Next(s, a))
  {
    CountersKept(s, a);
    OwnershipKept(s, a);
    ClosingKept(s, a);
    WaitsKept(s, a);
    SweptKept(s, a);
    hide Next, Enabled, Counters, Ownership, Closing, Waits, Swept;
  }

  /** The invariant holds after every run, in every interleaving. */
  lemma {:induction false} InvAlways(s: State, actions: seq<Action>)
    requires Inv(s) && IsRun(s, actions)
    ensures Inv(After(s, actions))
    decreases |actions|
  {
    hide Next, Enabled, Inv;
    if actions != [] {
      InvKept(s, actions[0]);
      InvAlways(Next(s, actions[0]), actions[1..]);
    }
  }

  lemma InvInit(maxConns: nat)
    ensures Inv(Init(maxConns))
  {
  }
}
