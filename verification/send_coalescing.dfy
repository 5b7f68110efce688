/** The sender thread of version 4 as a state machine. The frame loop moves
    the player and then, under the send lock, sets `positionChanged` and
    notifies. The sender thread waits for `positionChanged || !running`;
    on waking it leaves if `running` is clear, otherwise it sends the current
    position to every peer and clears the flag.
    The escape key clears `running` under the send lock and notifies. The
    sender holds the send lock from its wake-up until it waits again, so its
    send and the clearing of the flag form one step. Each event below is one
    such atomic step. */
module SendCoalescing {
  import opened Wire

  /** Waiting on the condition variable, or returned from the thread function. */
  datatype Phase = Waiting | Exited

  /** `sent` lists, for each round of sends to all peers, the position that
      round carried. */
  datatype Sender = Sender(position: Position, changed: bool, running: bool, phase: Phase, sent: seq<Position>)

  function Start(p: Position): Sender
  {
    Sender(p, false, true, Waiting, [])
  }

  datatype Event =
    | InputChanged(moved: Position) // a movement or turn key: new position, flag set, notify
    | Wake                          // the sender evaluates its wait predicate
    | Stop                          // the escape key: `running` cleared, notify

  /** One step. A wake whose predicate is false (a spurious wake-up, or a
      notification already consumed) leaves everything as it was. */
  function Next(st: Sender, e: Event): (st': Sender)
    ensures st'.sent == st.sent || st'.sent == st.sent + [st.position]
    ensures st'.sent != st.sent ==> e.Wake? && st.phase == Waiting && st.running && st.changed
    ensures e.Wake? && st.phase == Waiting && st.running && st.changed ==>
              st'.sent == st.sent + [st.position] && !st'.changed && st'.phase == Waiting
    ensures e.Wake? && st.phase == Waiting && !st.running ==> st'.phase == Exited
    ensures e.Wake? && st.running && !st.changed ==> st' == st
    ensures e.InputChanged? ==> st'.changed && st'.position == e.moved
    ensures !e.InputChanged? ==> st'.position == st.position
    ensures !st.running ==> !st'.running
    ensures st.phase == Exited ==> st'.phase == Exited
    ensures st'.phase == Exited && st.phase != Exited ==> !st.running
  {
    match e
    case InputChanged(p) => st.(position := p, changed := true)
    case Stop => st.(running := false)
    case Wake =>
      if st.phase == Exited || !(st.changed || !st.running) then st
      else if !st.running then st.(phase := Exited)
      else
        assert st.phase == Waiting && st.running && st.changed;
        st.(sent := st.sent + [st.position], changed := false)
  }

  function Run(st: Sender, evs: seq<Event>): Sender
    decreases |evs|
  {
    if evs == [] then st else Run(Next(st, evs[0]), evs[1..])
  }

  lemma {:induction false} RunAppend(st: Sender, a: seq<Event>, b: seq<Event>)
    ensures Run(st, a + b) == Run(Run(st, a), b)
    decreases |a|
  {
    if a == [] {
      assert a + b == b;
    } else {
      assert (a + b)[0] == a[0];
      assert (a + b)[1..] == a[1..] + b;
      RunAppend(Next(st, a[0]), a[1..], b);
    }
  }

  /** No send after stop: once `running` is clear, no event sends anything. */
  lemma {:induction false} NoSendAfterStop(st: Sender, evs: seq<Event>)
    requires !st.running
    ensures Run(st, evs).sent == st.sent
    ensures !Run(st, evs).running
    decreases |evs|
  {
    if evs != [] {
      NoSendAfterStop(Next(st, evs[0]), evs[1..]);
    }
  }

  /** The input events for a list of successive positions. */
  function Inputs(moves: seq<Position>): (evs: seq<Event>)
    ensures |evs| == |moves|
    ensures forall i | 0 <= i < |moves| :: evs[i] == InputChanged(moves[i])
  {
    seq(|moves|, i requires 0 <= i < |moves| => InputChanged(moves[i]))
  }

  /** Input events only record the latest position and set the flag. */
  lemma {:induction false} InputsOnlySetFlag(st: Sender, moves: seq<Position>)
    requires moves != []
    ensures Run(st, Inputs(moves)) == st.(position := moves[|moves| - 1], changed := true)
    decreases |moves|
  {
    var st1 := Next(st, InputChanged(moves[0]));
    if |moves| == 1 {
      assert Inputs(moves)[1..] == [];
    } else {
      assert Inputs(moves)[1..] == Inputs(moves[1..]);
      InputsOnlySetFlag(st1, moves[1..]);
    }
  }

  /** Coalescing: any number of position changes before the sender wakes give
      exactly one send, carrying the latest position, and leave the flag clear;
      a further wake without new input sends nothing. */
  lemma Coalescing(st: Sender, moves: seq<Position>)
    requires st.running && st.phase == Waiting && moves != []
    ensures Run(st, Inputs(moves) + [Wake]).sent == st.sent + [moves[|moves| - 1]]
    ensures !Run(st, Inputs(moves) + [Wake]).changed
    ensures Run(st, Inputs(moves) + [Wake, Wake]).sent == st.sent + [moves[|moves| - 1]]
  {
    InputsOnlySetFlag(st, moves);
    RunAppend(st, Inputs(moves), [Wake]);
    RunAppend(st, Inputs(moves), [Wake, Wake]);
    var st1 := Run(st, Inputs(moves));
    assert Run(st1, [Wake]) == Next(st1, Wake);
    var st2 := Next(st1, Wake);
    assert [Wake, Wake][1..] == [Wake];
    assert Run(st1, [Wake, Wake]) == Run(st2, [Wake]);
    assert Run(st2, [Wake]) == Next(st2, Wake);
  }

  /** The number of input events of a sequence. */
  function CountInputs(evs: seq<Event>): nat
    decreases |evs|
  {
    if evs == [] then 0
    else (if evs[0].InputChanged? then 1 else 0) + CountInputs(evs[1..])
  }

  /** Traffic bound: a run sends at most once per input event, plus once for a
      flag that was already set when it began. */
  lemma {:induction false} SendsBoundedByInputs(st: Sender, evs: seq<Event>)
    ensures |Run(st, evs).sent| <= |st.sent| + CountInputs(evs) + (if st.changed then 1 else 0)
    decreases |evs|
  {
    if evs != [] {
      var st1 := Next(st, evs[0]);
      SendsBoundedByInputs(st1, evs[1..]);
    }
  }

  /** No lost update: whenever the flag is clear, the last position sent is the
      current one (or nothing has moved since the start). A key press is one
      event here, so this holds between key-press handlers; inside a handler,
      after the move and before the flag is set, it does not. */
  predicate UpToDate(st: Sender, initial: Position)
  {
    st.changed
    || (st.sent == [] && st.position == initial)
    || (st.sent != [] && st.sent[|st.sent| - 1] == st.position)
  }

  lemma {:induction false} AlwaysUpToDate(initial: Position, evs: seq<Event>)
    ensures UpToDate(Run(Start(initial), evs), initial)
  {
    UpToDateIsPreserved(Start(initial), initial, evs);
  }

  lemma {:induction false} UpToDateIsPreserved(st: Sender, initial: Position, evs: seq<Event>)
    requires UpToDate(st, initial)
    ensures UpToDate(Run(st, evs), initial)
    decreases |evs|
  {
    if evs != [] {
      var st1 := Next(st, evs[0]);
      assert UpToDate(st1, initial);
      UpToDateIsPreserved(st1, initial, evs[1..]);
    }
  }

  /** Shutdown: a stop followed by the wake its notification causes ends the
      thread, and the stop alone already rules out any further send. */
  lemma StopThenWakeExits(st: Sender)
    requires st.phase == Waiting
    ensures Run(st, [Stop, Wake]).phase == Exited
    ensures Run(st, [Stop, Wake]).sent == st.sent
  {
    var st1 := Next(st, Stop);
    assert [Stop, Wake][1..] == [Wake];
    assert Run(st1, [Wake]) == Next(st1, Wake);
  }
}
