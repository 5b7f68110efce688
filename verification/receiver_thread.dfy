/** The receiver thread of version 3 as a state machine. The thread loops:
    test `running`; if set, make one blocking receive call and, for a valid
    result, register the sender and store the sample. The main thread clears
    `running` on the escape key and then joins the thread. Every event below
    is one atomic step of one of the two threads; the players lock makes the
    handling of a result atomic with respect to the renderer. A result is
    handled by `Accept`, which adds the guard for an empty peer list that the
    thread lacks (see `ZeroPeersReachModuloByZero`). */
module ReceiverThread {
  import opened Wire
  import opened PeerRegistry
  import opened PositionStore

  /** Where the receiver thread is: about to test `running`, blocked in a
      receive call, or returned from its function. */
  datatype Phase = AtCheck | InReceive | Exited

  datatype Receiver = Receiver(session: Session, running: bool, phase: Phase)

  /** The thread as created: `running` set, about to test it. */
  function Start(s: Session): Receiver
  {
    Receiver(s, true, AtCheck)
  }

  datatype Event =
    | Check                       // the thread tests `running`
    | Deliver(result: Received)   // the pending receive call returns
    | Stop                        // the main thread clears `running`

  /** Once the thread has exited, `running` is clear: it only leaves the loop
      after reading it clear, and nothing sets it again. */
  predicate Inv(st: Receiver)
  {
    st.phase == Exited ==> !st.running
  }

  function Next(st: Receiver, e: Event, capacity: nat): (st': Receiver)
    requires Valid(st.session.peers, capacity)
    ensures Valid(st'.session.peers, capacity)
    ensures Inv(st) ==> Inv(st')
    ensures !st.running ==> !st'.running
    ensures st'.session != st.session ==> e.Deliver? && e.result.valid && st.phase == InReceive
    ensures e.Deliver? && st.phase == InReceive ==>
              st'.session == Accept(st.session, e.result, capacity) && st'.phase == AtCheck
    ensures e.Check? && st.phase == AtCheck ==> (st'.phase == Exited <==> !st.running)
    ensures st.phase == Exited ==> st'.phase == Exited
    ensures st'.phase == InReceive ==> st.phase == InReceive || st.running
  {
    match e
    case Stop => st.(running := false)
    case Check =>
      if st.phase != AtCheck then st
      else if st.running then st.(phase := InReceive)
      else st.(phase := Exited)
    case Deliver(r) =>
      if st.phase != InReceive then st
      else st.(session := Accept(st.session, r, capacity), phase := AtCheck)
  }

  function Run(st: Receiver, evs: seq<Event>, capacity: nat): (st': Receiver)
    requires Valid(st.session.peers, capacity)
    ensures Valid(st'.session.peers, capacity)
    ensures Inv(st) ==> Inv(st')
    decreases |evs|
  {
    if evs == [] then st else Run(Next(st, evs[0], capacity), evs[1..], capacity)
  }

  /** Once stopped, a thread that is not blocked in a receive call never
      changes the positions again and never makes another receive call. */
  lemma {:induction false} StoppedIdleThreadChangesNothing(st: Receiver, evs: seq<Event>, capacity: nat)
    requires Valid(st.session.peers, capacity)
    requires !st.running && st.phase != InReceive
    ensures Run(st, evs, capacity).session == st.session
    ensures Run(st, evs, capacity).phase != InReceive
    decreases |evs|
  {
    if evs != [] {
      StoppedIdleThreadChangesNothing(Next(st, evs[0], capacity), evs[1..], capacity);
    }
  }

  /** A receive call in flight when `running` is cleared still completes:
      after the stop, the positions change at most once, by the result of
      that call, and then never again. */
  lemma {:induction false} StoppedThreadAppliesAtMostTheCallInFlight(
    st: Receiver, evs: seq<Event>, k: nat, capacity: nat)
    requires Valid(st.session.peers, capacity)
    requires !st.running && st.phase == InReceive
    requires k < |evs| && evs[k].Deliver?
    requires forall j | 0 <= j < k :: !evs[j].Deliver?
    ensures Run(st, evs, capacity).session == Accept(st.session, evs[k].result, capacity)
    decreases |evs|
  {
    var st1 := Next(st, evs[0], capacity);
    if k == 0 {
      StoppedIdleThreadChangesNothing(st1, evs[1..], capacity);
    } else {
      assert st1 == st;
      assert forall j | 0 <= j < k - 1 :: evs[1..][j] == evs[j + 1];
      StoppedThreadAppliesAtMostTheCallInFlight(st1, evs[1..], k - 1, capacity);
    }
  }

  /** While no receive call returns, the positions stay as they are: a thread
      blocked on an idle socket after the stop stays parked. */
  lemma {:induction false} NoDeliveryNoChange(st: Receiver, evs: seq<Event>, capacity: nat)
    requires Valid(st.session.peers, capacity)
    requires forall j | 0 <= j < |evs| :: !evs[j].Deliver?
    ensures Run(st, evs, capacity).session == st.session
    ensures st.phase == InReceive ==> Run(st, evs, capacity).phase == InReceive
    decreases |evs|
  {
    if evs != [] {
      NoDeliveryNoChange(Next(st, evs[0], capacity), evs[1..], capacity);
    }
  }

  /** After the join returns (the thread has exited) nothing changes. */
  lemma {:induction false} JoinedThreadIsInert(st: Receiver, evs: seq<Event>, capacity: nat)
    requires Valid(st.session.peers, capacity)
    requires Inv(st) && st.phase == Exited
    ensures Run(st, evs, capacity) == st
    decreases |evs|
  {
    if evs != [] {
      assert Next(st, evs[0], capacity) == st;
      JoinedThreadIsInert(st, evs[1..], capacity);
    }
  }

  /** The thread only receives while running: from the start, a receive call
      can be pending only if `running` was set when the thread last tested it,
      so a stop before the first test means no receive call at all. */
  lemma StopBeforeFirstCheckMeansNoReceive(s: Session, capacity: nat)
    requires Valid(s.peers, capacity)
    ensures Run(Start(s), [Stop, Check], capacity).phase == Exited
    ensures Run(Start(s), [Stop, Check], capacity).session == s
  {
    var st1 := Next(Start(s), Stop, capacity);
    assert [Stop, Check][1..] == [Check];
    assert Run(st1, [Check], capacity) == Next(st1, Check, capacity);
  }

  /** The thread as written has no guard for an empty peer list: with no peers
      configured, it still makes a receive call, and a valid datagram from any
      sender then reaches `nextPlayerIndex %= nbPlayers` with a zero divisor,
      which is exactly the requirement `Receive` does not meet. The guarded
      `Accept` leaves the session unchanged instead. */
  lemma ZeroPeersReachModuloByZero(s: Session, r: Received)
    requires Valid(s.peers, 0) && r.valid
    ensures Next(Start(s), Check, 0).phase == InReceive
    ensures r.sender !in s.peers.indexes && !CanApply(s, r, 0)
    ensures Run(Start(s), [Check, Deliver(r)], 0).session == s
  {
    var st1 := Next(Start(s), Check, 0);
    assert [Check, Deliver(r)][1..] == [Deliver(r)];
    assert Run(st1, [Deliver(r)], 0) == Next(st1, Deliver(r), 0);
  }
}
