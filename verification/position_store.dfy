/** The receive path shared by both frame loops: a receive result is looked
    up in (or added to) the peer registry and its position overwrites that
    peer's slot of the position table (`Map::movePlayer`). Version 4 runs it
    in a bounded drain inside the frame loop; version 3 runs it on a
    receiver thread (module ReceiverThread). */
module PositionStore {
  import opened Wire
  import opened PeerRegistry

  /** The registry and the table of peer positions by slot. */
  datatype Session = Session(peers: Peers, positions: map<int, Position>)

  /** What one receive result needs: a valid sample from a new sender reduces
      the counter modulo `capacity`, which must then be positive. */
  predicate CanApply(s: Session, r: Received, capacity: nat)
  {
    r.valid && r.sender !in s.peers.indexes ==> capacity > 0
  }

  /** Handling one receive result: an invalid result changes nothing; a valid
      one registers its sender (if new) and overwrites its slot. */
  function Receive(s: Session, r: Received, capacity: nat): (s': Session)
    requires CanApply(s, r, capacity)
    ensures !r.valid ==> s' == s
    ensures Valid(s.peers, capacity) ==> Valid(s'.peers, capacity)
  {
    if !r.valid then s
    else
      var (peers, slot) := Register(s.peers, r.sender, capacity);
      Session(peers, s.positions[slot := r.position])
  }

  /** Receive handling with a guard for an empty peer list: when no peers are
      configured there is no slot to give a new sender, so its result is
      dropped. With at least one peer this is exactly `Receive`. */
  function Accept(s: Session, r: Received, capacity: nat): (s': Session)
    ensures capacity > 0 ==> s' == Receive(s, r, capacity)
    ensures capacity == 0 && r.sender !in s.peers.indexes ==> s' == s
    ensures Valid(s.peers, capacity) ==> Valid(s'.peers, capacity)
  {
    if CanApply(s, r, capacity) then Receive(s, r, capacity) else s
  }

  /** A valid result registers its sender as `Register` does and overwrites
      exactly that sender's slot with the sample; every other slot keeps its
      position and no slot disappears. */
  lemma ValidResultWritesOnlyItsSlot(s: Session, r: Received, capacity: nat)
    requires CanApply(s, r, capacity) && r.valid
    ensures var s' := Receive(s, r, capacity);
            && s'.peers == Register(s.peers, r.sender, capacity).0
            && r.sender in s'.peers.indexes
            && var slot := s'.peers.indexes[r.sender];
               && s'.positions.Keys == s.positions.Keys + {slot}
               && s'.positions[slot] == r.position
               && forall i | i in s.positions && i != slot :: s'.positions[i] == s.positions[i]
  {
  }

  /** The first n results of a sequence can be handled when, with no peers
      configured, none of them is valid (a valid one would reduce modulo zero). */
  predicate CanApplyFirst(s: Session, rs: seq<Received>, n: nat, capacity: nat)
  {
    && n <= |rs| && Valid(s.peers, capacity)
    && (capacity > 0 || forall k | 0 <= k < n :: !rs[k].valid)
  }

  /** Handling the first n results of a sequence, in order. */
  function ReceiveFirst(s: Session, rs: seq<Received>, n: nat, capacity: nat): (s': Session)
    requires CanApplyFirst(s, rs, n, capacity)
    ensures Valid(s'.peers, capacity)
    decreases n
  {
    if n == 0 then s
    else Receive(ReceiveFirst(s, rs, n - 1, capacity), rs[n - 1], capacity)
  }

  /** Handling results never moves a registered sender to another slot and
      never removes a slot from the position table. */
  lemma {:induction false} ReceiveFirstKeepsRegistrations(s: Session, rs: seq<Received>, n: nat, capacity: nat)
    requires CanApplyFirst(s, rs, n, capacity)
    ensures var s' := ReceiveFirst(s, rs, n, capacity);
            && (forall t | t in s.peers.indexes ::
                  t in s'.peers.indexes && s'.peers.indexes[t] == s.peers.indexes[t])
            && s.positions.Keys <= s'.positions.Keys
    decreases n
  {
    if n > 0 {
      ReceiveFirstKeepsRegistrations(s, rs, n - 1, capacity);
      if rs[n - 1].valid {
        ValidResultWritesOnlyItsSlot(ReceiveFirst(s, rs, n - 1, capacity), rs[n - 1], capacity);
      }
    }
  }

  /** Once handled, the sender of a valid result is registered. */
  lemma {:induction false} SenderRegistered(s: Session, rs: seq<Received>, n: nat, k: nat, capacity: nat)
    requires CanApplyFirst(s, rs, n, capacity) && k < n && rs[k].valid
    ensures rs[k].sender in ReceiveFirst(s, rs, n, capacity).peers.indexes
    decreases n
  {
    var mid := ReceiveFirst(s, rs, n - 1, capacity);
    if k < n - 1 {
      SenderRegistered(s, rs, n - 1, k, capacity);
    }
    if rs[n - 1].valid {
      ValidResultWritesOnlyItsSlot(mid, rs[n - 1], capacity);
    }
  }

  /** One result leaves every registered sender on its slot, and leaves the
      position of a slot it does not write. */
  lemma ReceiveKeepsOtherSlots(mid: Session, last: Received, a: SenderKey, capacity: nat)
    requires CanApply(mid, last, capacity) && a in mid.peers.indexes
    ensures var fin := Receive(mid, last, capacity);
            && (forall t | t in mid.peers.indexes ::
                  t in fin.peers.indexes && fin.peers.indexes[t] == mid.peers.indexes[t])
            && (last.valid ==> last.sender in fin.peers.indexes)
            && (mid.peers.indexes[a] in mid.positions
                && (last.valid ==> fin.peers.indexes[last.sender] != mid.peers.indexes[a])
                ==> fin.positions[mid.peers.indexes[a]] == mid.positions[mid.peers.indexes[a]])
  {
    if last.valid {
      ValidResultWritesOnlyItsSlot(mid, last, capacity);
    }
  }

  /** Last write wins: after the first n results, the slot of the sender of a
      valid result k holds that result's position, unless a later valid result
      came from a sender that ends up on the same slot (the same sender, or
      one aliased onto it). */
  lemma {:induction false} LastSampleWins(s: Session, rs: seq<Received>, n: nat, k: nat, capacity: nat)
    requires CanApplyFirst(s, rs, n, capacity)
    requires k < n && rs[k].valid
    requires var fin := ReceiveFirst(s, rs, n, capacity).peers.indexes;
             forall j | k < j < n && rs[j].valid ::
               rs[j].sender in fin && rs[k].sender in fin && fin[rs[j].sender] != fin[rs[k].sender]
    ensures var fin := ReceiveFirst(s, rs, n, capacity);
            && rs[k].sender in fin.peers.indexes
            && fin.peers.indexes[rs[k].sender] in fin.positions
            && fin.positions[fin.peers.indexes[rs[k].sender]] == rs[k].position
    decreases n
  {
    var mid := ReceiveFirst(s, rs, n - 1, capacity);
    var last := rs[n - 1];
    assert ReceiveFirst(s, rs, n, capacity) == Receive(mid, last, capacity);
    if k == n - 1 {
      ValidResultWritesOnlyItsSlot(mid, last, capacity);
    } else {
      var a := rs[k].sender;
      SenderRegistered(s, rs, n - 1, k, capacity);
      ReceiveKeepsOtherSlots(mid, last, a, capacity);
      forall j | k < j < n - 1 && rs[j].valid
        ensures rs[j].sender in mid.peers.indexes
        ensures mid.peers.indexes[rs[j].sender] != mid.peers.indexes[a]
      {
        SenderRegistered(s, rs, n - 1, j, capacity);
      }
      LastSampleWins(s, rs, n - 1, k, capacity);
    }
  }

  /** The two-packet scenario: peer A's samples p1 then p2, applied in this
      order, leave p2 in A's slot. */
  lemma LaterSampleOfOnePeerWins(s: Session, a: SenderKey, p1: Position, p2: Position, capacity: nat)
    requires Valid(s.peers, capacity) && capacity > 0
    ensures var rs := [Received(true, a, p1), Received(true, a, p2)];
            var fin := ReceiveFirst(s, rs, 2, capacity);
            a in fin.peers.indexes && fin.positions[fin.peers.indexes[a]] == p2
  {
  }

  /** The version-4 drain run once per frame: at most `capacity` receive calls,
      stopping at the first invalid result. `inbox[i]` is what the i-th
      receive call of the frame returns. Returns the new session and the
      number of receive calls made. Every call but the last returned a valid
      result; the drain stops early only on an invalid one, which changes
      nothing. */
  method Drain(s: Session, inbox: seq<Received>, capacity: nat) returns (s': Session, calls: nat)
    requires Valid(s.peers, capacity) && capacity <= |inbox|
    ensures calls <= capacity
    ensures forall j | 0 <= j < calls - 1 :: inbox[j].valid
    ensures calls < capacity ==> calls > 0 && !inbox[calls - 1].valid
    ensures CanApplyFirst(s, inbox, calls, capacity) && s' == ReceiveFirst(s, inbox, calls, capacity)
    ensures calls > 0 && !inbox[calls - 1].valid ==> s' == ReceiveFirst(s, inbox, calls - 1, capacity)
  {
    s' := s;
    calls := 0;
    while calls < capacity
      invariant calls <= capacity
      invariant forall j | 0 <= j < calls :: inbox[j].valid
      invariant CanApplyFirst(s, inbox, calls, capacity)
      invariant s' == ReceiveFirst(s, inbox, calls, capacity)
    {
      var r := inbox[calls];
      calls := calls + 1;
      if !r.valid {
        return;
      }
      s' := Receive(s', r, capacity);
    }
  }
}
