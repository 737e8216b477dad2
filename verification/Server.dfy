/**
 The Server of internal/server/server.go with its own fields. Each method is one atomic step of one of
 its goroutines. Where the goroutines are and which sockets are open is ghost state; Valid says that
 everything together has come about by a run of Lifecycle, so all that is proved of runs holds of the
 object.
 */
module Server {
  import opened Options
  import opened HandleConn
  import opened Lifecycle
  import opened Guarantees

  class Server {
    const maxConns: nat
    // The fields the goroutines share.
    var sem: nat
    var wg: nat
    var closing: bool
    var conns: set<nat>
    var listening: bool
    // Connections are known by the order in which they were accepted: this many have been.
    var accepted: nat
    // Each connection's goroutine and socket, the other goroutines, and the history of Lifecycle.
    ghost var links: seq<Link>
    ghost var serve: ServePc
    ghost var shutdown: ShutdownPc
    ghost var waiter: WaiterPc
    ghost var late: Option<nat>
    ghost var window: Option<nat>
    // Every step taken so far.
    ghost var trace: seq<Action>

    ghost function View(): State
      reads this
    {
      State(maxConns, links, sem, wg, conns, closing, listening, serve, shutdown, waiter, late, window)
    }

    ghost predicate Valid()
      reads this
    {
      && accepted == |links|
      && IsRun(Init(maxConns), trace) && After(Init(maxConns), trace) == View()
    }

    // Exactly the step a has been taken.
    twostate predicate Stepped(a: Action)
      reads this
    {
      Enabled(old(View()), a) && View() == Next(old(View()), a) && trace == old(trace) + [a]
    }

    lemma Reached()
      requires Valid()
      ensures Inv(View())
    {
      InvInit(maxConns);
      InvAlways(Init(maxConns), trace);
    }

    lemma SlotTaken(c: nat)
      requires Valid() && View().At(c, Untracked)
      ensures 0 < sem
    {
      Reached();
      AtMostTotal(SlotHeld, links, c);
    }

    lemma StillCounted(c: nat)
      requires Valid() && View().At(c, SlotReturned)
      ensures 0 < wg
    {
      Reached();
      AtMostTotal(WaitedFor, links, c);
    }

    constructor (maxConns: nat)
      ensures Valid() && View() == Init(maxConns) && trace == []
    {
      this.maxConns := maxConns;
      sem, wg, closing, conns, listening, accepted := 0, 0, false, {}, true, 0;
      links, serve, shutdown, waiter := [], Accepting, Idle, Unborn;
      late, window, trace := None, None, [];
    }

    // ---- Serve ----

    /** ln.Accept: a connection, or an error, which it must be once the listener is closed. */
    method AcceptOne() returns (c: Option<nat>)
      requires Valid() && serve.Accepting?
      modifies this`serve, this`links, this`accepted, this`trace
      ensures Valid() && Stepped(if c.Some? then Accept else FailAccept)
      ensures c.Some? ==> old(listening) && c.value == old(accepted)
      ensures c.Some? ==> serve == Serving(c.value) && View().At(c.value, Accepted) && links[c.value].open && accepted == old(accepted) + 1
      ensures c.None? ==> serve.AcceptFailed? && accepted == old(accepted)
    {
      hide IsRun, After;
      var fails: bool := *;
      if fails || !listening {
        RunExtends(Init(maxConns), trace, FailAccept);
        trace := trace + [FailAccept];
        serve := AcceptFailed(listening);
        return None;
      }
      RunExtends(Init(maxConns), trace, Accept);
      trace := trace + [Accept];
      links, serve := links + [Link(Accepted, true, 0)], Serving(|links|);
      c, accepted := Some(accepted), accepted + 1;
    }

    method LeaveAcceptLoop() returns (err: bool)
      requires Valid() && serve.AcceptFailed?
      modifies this`serve, this`trace
      ensures Valid() && Stepped(LeaveServe)
      ensures (err <==> !closing) && serve == Returned(err, old(serve).spurious)
      ensures err ==> serve.spurious
    {
      Reached();
      hide IsRun, After, Total, Counters, Ownership, Waits, Swept;
      RunExtends(Init(maxConns), trace, LeaveServe);
      trace := trace + [LeaveServe];
      err := !closing;
      serve := Returned(err, serve.spurious);
    }

    /** The select on s.sem. */
    method TrySlot(c: nat) returns (ok: bool)
      requires Valid() && serve == Serving(c) && View().At(c, Accepted)
      modifies this`sem, this`links, this`trace
      ensures Valid() && Stepped(TakeSlot)
      ensures ok <==> old(sem) < maxConns
      ensures links == old(View().To(c, if sem < maxConns then Slotted else Refused).links) && sem == old(sem) + if ok then 1 else 0
    {
      hide IsRun, After;
      RunExtends(Init(maxConns), trace, TakeSlot);
      trace := trace + [TakeSlot];
      ok := sem < maxConns;
      if ok {
        sem := sem + 1;
      }
      links := links[c := links[c].(phase := if ok then Slotted else Refused)];
    }

    method CloseRefused(c: nat)
      requires Valid() && serve == Serving(c) && View().At(c, Refused)
      modifies this`links, this`serve, this`trace
      ensures Valid() && Stepped(Refuse)
      ensures serve.Accepting? && links == old(View().To(c, Dropped).CloseSocket(c).links)
    {
      hide IsRun, After;
      RunExtends(Init(maxConns), trace, Refuse);
      trace := trace + [Refuse];
      links := links[c := links[c].(phase := Dropped, open := false)];
      serve := Accepting;
    }

    /** track, with the mutex held. */
    method TrackConn(c: nat)
      requires Valid() && serve == Serving(c) && View().At(c, Slotted) && View().MutexFree()
      modifies this`conns, this`links, this`trace
      ensures Valid() && Stepped(Track)
      ensures old(conns) !! {c}
      ensures links == old(View().To(c, Tracked).links) && conns == old(conns) + {c}
    {
      Reached();
      hide IsRun, After, Total, Ownership, Closing, Waits, Swept;
      RunExtends(Init(maxConns), trace, Track);
      trace := trace + [Track];
      conns := conns + {c};
      links := links[c := links[c].(phase := Tracked)];
    }

    method AddToGroup(c: nat)
      requires Valid() && serve == Serving(c) && View().At(c, Tracked)
      modifies this`wg, this`links, this`trace
      ensures Valid() && Stepped(Count)
      ensures links == old(View().To(c, Counted).links) && wg == old(wg) + 1
    {
      hide IsRun, After;
      RunExtends(Init(maxConns), trace, Count);
      trace := trace + [Count];
      wg := wg + 1;
      links := links[c := links[c].(phase := Counted)];
    }

    method StartHandler(c: nat)
      requires Valid() && serve == Serving(c) && View().At(c, Counted)
      modifies this`links, this`serve, this`trace
      ensures Valid() && Stepped(Spawn)
      ensures serve.Accepting? && links == old(View().To(c, Handling).links)
    {
      hide IsRun, After;
      RunExtends(Init(maxConns), trace, Spawn);
      trace := trace + [Spawn];
      links := links[c := links[c].(phase := Handling)];
      serve := Accepting;
    }

    /**
     One turn of the accept loop, when nothing else happens meanwhile. It ends the loop only if Accept
     fails; a connection for which there is no slot is closed and nothing else changes.
     */
    method ServeOnce() returns (going: bool, err: bool)
      requires Valid() && serve.Accepting? && View().MutexFree()
      modifies this`serve, this`links, this`accepted, this`sem, this`wg, this`conns, this`trace
      ensures Valid() && accepted == old(accepted) + if going then 1 else 0
      ensures if going then serve.Accepting? else serve.Returned? && err == !closing
      ensures if going && old(sem) < maxConns
        then sem == old(sem) + 1 && wg == old(wg) + 1 && conns == old(conns) + {old(accepted)}
        else sem == old(sem) && wg == old(wg) && conns == old(conns)
      ensures going ==> View().At(old(accepted), if old(sem) < maxConns then Handling else Dropped)
      ensures going ==> links[old(accepted)].open == (old(sem) < maxConns)
    {
      hide Valid, Stepped;
      err := false;
      var c := AcceptOne();
      going := c.Some?;
      if !going {
        err := LeaveAcceptLoop();
        return;
      }
      var ok := TrySlot(c.value);
      if !ok {
        CloseRefused(c.value);
        return;
      }
      TrackConn(c.value);
      AddToGroup(c.value);
      StartHandler(c.value);
    }

    // ---- A connection's goroutine: handleConn and then the three deferred calls ----

    /** One turn of the request loop: what ServeFrame may make of the bytes buffered, and nothing else. */
    ghost method TurnTaken(c: nat, after: nat)
      requires Valid() && View().At(c, Handling) && Turn(links[c].open, links[c].pending, after)
      modifies this`links, this`trace
      ensures Valid() && View() == old(View()).Hold(c, after)
    {
      var actions := TurnIsSteps(View(), c, after);
      hide IsRun, After;
      RunsJoin(Init(maxConns), trace, actions);
      links, trace := links[c := links[c].(pending := after)], trace + actions;
    }

    /** A turn during which closeAll closes the socket. */
    ghost method TurnCutShort(c: nat, after: nat)
      requires Valid() && View().At(c, Handling) && links[c].open && Turn(true, links[c].pending, after)
      requires shutdown.ClosingAll? && c in shutdown.todo
      modifies this`links, this`shutdown, this`trace
      ensures Valid() && Enabled(old(View()), CloseOne(c)) && View() == Next(old(View()), CloseOne(c)).Hold(c, after)
    {
      var actions := CutTurnIsSteps(View(), c, after);
      hide IsRun, After;
      RunsJoin(Init(maxConns), trace, actions);
      ghost var t := Next(View(), CloseOne(c)).Hold(c, after);
      links, shutdown, trace := t.links, t.shutdown, trace + actions;
    }

    /** handleConn returns, and its deferred Close has been done. */
    method LeaveHandler(c: nat)
      requires Valid() && View().At(c, Handling)
      modifies this`links, this`trace
      ensures Valid() && Stepped(Leave(c))
      ensures links == old(View().To(c, Closed).CloseSocket(c).links)
    {
      hide IsRun, After;
      RunExtends(Init(maxConns), trace, Leave(c));
      trace := trace + [Leave(c)];
      links := links[c := links[c].(phase := Closed, open := false)];
    }

    /** untrack, with the mutex held. */
    method UntrackConn(c: nat)
      requires Valid() && View().At(c, Closed) && View().MutexFree()
      modifies this`conns, this`links, this`trace
      ensures Valid() && Stepped(Untrack(c))
      ensures c in old(conns)
      ensures links == old(View().To(c, Untracked).links) && conns == old(conns) - {c}
    {
      Reached();
      hide IsRun, After, Total, Ownership, Closing, Waits, Swept;
      RunExtends(Init(maxConns), trace, Untrack(c));
      trace := trace + [Untrack(c)];
      conns := conns - {c};
      links := links[c := links[c].(phase := Untracked)];
    }

    /** <-s.sem; it never has to wait. */
    method GiveSlotBack(c: nat)
      requires Valid() && View().At(c, Untracked)
      modifies this`sem, this`links, this`trace
      ensures Valid() && Stepped(ReturnSlot(c))
      ensures 0 < old(sem)
      ensures links == old(View().To(c, SlotReturned).links) && sem == old(sem) - 1
    {
      SlotTaken(c);
      hide IsRun, After;
      RunExtends(Init(maxConns), trace, ReturnSlot(c));
      trace := trace + [ReturnSlot(c)];
      sem := sem - 1;
      links := links[c := links[c].(phase := SlotReturned)];
    }

    /** wg.Done, which never goes below zero; at zero the waiting goroutine is released. */
    method FinishInGroup(c: nat)
      requires Valid() && View().At(c, SlotReturned)
      modifies this`wg, this`links, this`waiter, this`window, this`trace
      ensures Valid() && Stepped(Done(c))
      ensures 0 < old(wg)
      ensures links == old(View().To(c, Finished).links) && wg == old(wg) - 1
    {
      StillCounted(c);
      hide Total;
      hide IsRun, After;
      RunExtends(Init(maxConns), trace, Done(c));
      trace := trace + [Done(c)];
      wg := wg - 1;
      links := links[c := links[c].(phase := Finished)];
      if wg == 0 && waiter.Waiting? {
        waiter, window := Woken, if serve.Serving? then Some(serve.c) else None;
      }
    }

    /** The end of a connection's goroutine, when nothing else happens meanwhile: the three deferred calls. */
    method EndHandler(c: nat)
      requires Valid() && View().At(c, Handling) && View().MutexFree()
      modifies this`sem, this`wg, this`conns, this`links, this`waiter, this`window, this`trace
      ensures Valid() && View().At(c, Finished) && !links[c].open
      ensures sem == old(sem) - 1 && wg == old(wg) - 1 && conns == old(conns) - {c}
    {
      hide Valid, Stepped;
      LeaveHandler(c);
      UntrackConn(c);
      GiveSlotBack(c);
      FinishInGroup(c);
    }

    // ---- Shutdown ----

    method SetClosingFlag()
      requires Valid() && shutdown.Idle?
      modifies this`closing, this`shutdown, this`trace
      ensures Valid() && Stepped(SetClosing)
      ensures !old(closing)
    {
      Reached();
      hide IsRun, After, Total, Counters, Ownership, Waits, Swept;
      RunExtends(Init(maxConns), trace, SetClosing);
      trace := trace + [SetClosing];
      closing, shutdown := true, ClosingSet;
    }

    method CloseTheListener()
      requires Valid() && shutdown.ClosingSet?
      modifies this`listening, this`shutdown, this`trace
      ensures Valid() && Stepped(CloseListener)
      ensures old(listening)
    {
      Reached();
      hide IsRun, After, Total, Counters, Ownership, Waits, Swept;
      RunExtends(Init(maxConns), trace, CloseListener);
      trace := trace + [CloseListener];
      listening, shutdown := false, ListenerClosed;
    }

    method StartWaiter()
      requires Valid() && shutdown.ListenerClosed?
      modifies this`waiter, this`shutdown, this`trace
      ensures Valid() && Stepped(StartWait)
    {
      hide IsRun, After;
      RunExtends(Init(maxConns), trace, StartWait);
      trace := trace + [StartWait];
      waiter, shutdown := Starting, Selecting;
    }

    /** The select takes the ctx.Done case. */
    method ContextExpires()
      requires Valid() && shutdown.Selecting?
      modifies this`shutdown, this`trace
      ensures Valid() && Stepped(SelectExpired)
    {
      hide IsRun, After;
      RunExtends(Init(maxConns), trace, SelectExpired);
      trace := trace + [SelectExpired];
      shutdown := Expired;
    }

    method LockMutex()
      requires Valid() && shutdown.Expired?
      modifies this`late, this`shutdown, this`trace
      ensures Valid() && Stepped(LockAll)
      ensures View() == old(View()).(shutdown := ClosingAll(conns), late := late)
    {
      hide IsRun, After;
      RunExtends(Init(maxConns), trace, LockAll);
      trace := trace + [LockAll];
      late := BeforeTrack(View());
      shutdown := ClosingAll(conns);
    }

    /** Closes one socket that is still to be closed: one in the map, since the mutex is held. */
    method CloseTracked(c: nat)
      requires Valid() && shutdown.ClosingAll? && c in shutdown.todo
      modifies this`links, this`shutdown, this`trace
      ensures Valid() && Stepped(CloseOne(c))
      ensures c in conns && c < accepted == old(accepted) == |old(links)|
      ensures View() == old(View()).(links := links, shutdown := ClosingAll(old(shutdown).todo - {c}))
      ensures links == old(links)[c := old(links)[c].(open := false)]
    {
      Reached();
      hide IsRun, After, Total, Ownership, Closing, Waits;
      RunExtends(Init(maxConns), trace, CloseOne(c));
      trace := trace + [CloseOne(c)];
      links := links[c := links[c].(open := false)];
      shutdown := ClosingAll(shutdown.todo - {c});
    }

    method UnlockMutex()
      requires Valid() && shutdown == ClosingAll({})
      modifies this`shutdown, this`trace
      ensures Valid() && Stepped(UnlockAll)
      ensures View() == old(View()).(shutdown := Draining)
    {
      hide IsRun, After;
      RunExtends(Init(maxConns), trace, UnlockAll);
      trace := trace + [UnlockAll];
      shutdown := Draining;
    }

    /** closeAll, when nothing else happens meanwhile: closes exactly the sockets of the conns map. */
    method CloseAll()
      requires Valid() && shutdown.Expired?
      modifies this`links, this`shutdown, this`late, this`trace
      ensures Valid() && View() == old(View()).(links := links, shutdown := Draining, late := late)
      ensures |links| == |old(links)| && forall c :: 0 <= c < |links| ==>
        links[c] == if c in conns then old(links)[c].(open := false) else old(links)[c]
    {
      hide Valid, Stepped;
      LockMutex();
      ghost var s := View();
      var todo := conns;
      while todo != {}
        invariant Valid() && shutdown == ClosingAll(todo) && todo <= conns
        invariant |links| == |s.links| && View() == s.(links := links, shutdown := shutdown)
        invariant forall c :: 0 <= c < |links| ==>
          links[c] == if c in conns && c !in todo then s.links[c].(open := false) else s.links[c]
        decreases todo
      {
        var c :| c in todo;
        CloseTracked(c);
        todo := todo - {c};
      }
      UnlockMutex();
    }

    /** The select takes the done case: Shutdown returns nil. */
    method ReturnNil()
      requires Valid() && shutdown.Selecting? && waiter.DoneClosed?
      modifies this`shutdown, this`trace
      ensures Valid() && Stepped(SelectDone)
    {
      hide IsRun, After;
      RunExtends(Init(maxConns), trace, SelectDone);
      trace := trace + [SelectDone];
      shutdown := Complete(false);
    }

    /** After closeAll, <-done: Shutdown returns the error of the context. */
    method ReturnExpired()
      requires Valid() && shutdown.Draining? && waiter.DoneClosed?
      modifies this`shutdown, this`trace
      ensures Valid() && Stepped(ReturnForced)
    {
      hide IsRun, After;
      RunExtends(Init(maxConns), trace, ReturnForced);
      trace := trace + [ReturnForced];
      shutdown := Complete(true);
    }

    // ---- The goroutine Shutdown starts ----

    method BeginWait()
      requires Valid() && waiter.Starting?
      modifies this`waiter, this`window, this`trace
      ensures Valid() && Stepped(EnterWait)
      ensures waiter.Woken? <==> wg == 0
    {
      hide IsRun, After;
      RunExtends(Init(maxConns), trace, EnterWait);
      trace := trace + [EnterWait];
      if wg == 0 {
        waiter, window := Woken, if serve.Serving? then Some(serve.c) else None;
      } else {
        waiter := Waiting;
      }
    }

    method CloseDoneChannel()
      requires Valid() && waiter.Woken?
      modifies this`waiter, this`trace
      ensures Valid() && Stepped(CloseDone)
    {
      hide IsRun, After;
      RunExtends(Init(maxConns), trace, CloseDone);
      trace := trace + [CloseDone];
      waiter := DoneClosed;
    }

    /**
     What holds of the fields themselves, whatever the goroutines have done: never more slots than
     maxConns, no connection in the map without a slot, at most one not counted in the WaitGroup yet,
     and all of them empty once Shutdown has returned, if no connection was on its way then.
     */
    lemma FieldLimits()
      requires Valid()
      ensures |conns| <= sem <= maxConns && |conns| <= wg + 1
      ensures forall c :: c in conns ==> c < accepted
      ensures !listening ==> closing
      ensures shutdown.Complete? && window == None ==> sem == wg == 0 && conns == {}
    {
      Reached();
      ConnectionLimits(maxConns, trace);
      ReturnedMeansGone(maxConns, trace);
    }
  }
}
