/** The table that gives each remote sender a player slot: the first time a
    sender ("ip:port") is heard from, it takes the current round-robin
    counter, and the counter moves on modulo the number of configured peers.
    Both frame loops inline this logic on their receive path. */
module PeerRegistry {
  import opened Arith
  import opened Wire

  /** `indexes` maps a sender to its slot; `next` is the slot the next new
      sender takes (the program keeps it in an `int` that never goes below 0). */
  datatype Peers = Peers(indexes: map<SenderKey, int>, next: nat)

  /** The registry before anything was received. */
  const Empty: Peers := Peers(map[], 0)

  /** Every slot handed out, and the counter, lie in [0, capacity); with no
      peers configured the counter stays at 0 and nothing was handed out. */
  predicate Valid(p: Peers, capacity: nat)
  {
    && (p.next < capacity || p.next == 0)
    && forall s | s in p.indexes :: 0 <= p.indexes[s] < capacity
  }

  /** The slot of a sender, registering it if it is new. The counter is
      reduced modulo `capacity` only for a new sender, so that is the only
      case where `capacity` must be positive. Returns the new registry and
      the sender's slot. */
  function Register(p: Peers, sender: SenderKey, capacity: nat): (r: (Peers, int))
    requires sender !in p.indexes ==> capacity > 0
    ensures sender in r.0.indexes && r.0.indexes[sender] == r.1
    ensures sender in p.indexes ==> r.0 == p && r.1 == p.indexes[sender]
    ensures sender !in p.indexes ==>
              && r.1 == p.next
              && r.0.next == (p.next + 1) % capacity
              && r.0.indexes.Keys == p.indexes.Keys + {sender}
    ensures forall s | s in p.indexes :: s in r.0.indexes && r.0.indexes[s] == p.indexes[s]
    ensures Valid(p, capacity) ==> Valid(r.0, capacity) && 0 <= r.1 < capacity
  {
    if sender in p.indexes then (p, p.indexes[sender])
    else (Peers(p.indexes[sender := p.next], (p.next + 1) % capacity), p.next)
  }

  /** The registry after registering each sender of a list, in order. */
  function RegisterAll(p: Peers, senders: seq<SenderKey>, capacity: nat): (r: Peers)
    requires capacity > 0
    ensures r.indexes.Keys == p.indexes.Keys + set s | s in senders
    ensures forall s | s in p.indexes :: r.indexes[s] == p.indexes[s]
    ensures Valid(p, capacity) ==> Valid(r, capacity)
    decreases |senders|
  {
    if senders == [] then p
    else Register(RegisterAll(p, senders[..|senders| - 1], capacity), senders[|senders| - 1], capacity).0
  }

  /** Reference definition: the distinct senders of a list, in the order each
      first appears. */
  function FirstSeen(senders: seq<SenderKey>): (d: seq<SenderKey>)
    ensures Distinct(d)
    ensures forall s :: s in d <==> s in senders
    decreases |senders|
  {
    if senders == [] then []
    else
      var d := FirstSeen(senders[..|senders| - 1]);
      var s := senders[|senders| - 1];
      if s in d then d else d + [s]
  }

  predicate Distinct(d: seq<SenderKey>)
  {
    forall i, j | 0 <= i < j < |d| :: d[i] != d[j]
  }

  /** The registry assigns the senders of `d` slots 0, 1, 2, ... modulo
      `capacity`, in the order of `d`, and holds no other sender. */
  predicate Follows(p: Peers, d: seq<SenderKey>, capacity: nat)
    requires capacity > 0
  {
    && p.indexes.Keys == (set s | s in d)
    && p.next == |d| % capacity
    && forall k | 0 <= k < |d| :: d[k] in p.indexes && p.indexes[d[k]] == k % capacity
  }

  /** One registration keeps the registry in step with the first-seen list. */
  lemma RegisterFollows(p: Peers, d: seq<SenderKey>, s: SenderKey, capacity: nat)
    requires capacity > 0 && Follows(p, d, capacity)
    ensures Follows(Register(p, s, capacity).0, if s in d then d else d + [s], capacity)
  {
    if s !in d {
      var r := Register(p, s, capacity).0;
      var d' := d + [s];
      assert s !in p.indexes;
      ModSucc(|d|, capacity);
      assert r.indexes.Keys == (set t | t in d') by {
        assert forall t :: t in d' <==> t in d || t == s;
      }
      forall k | 0 <= k < |d'|
        ensures d'[k] in r.indexes && r.indexes[d'[k]] == k % capacity
      {
        if k < |d| { assert d'[k] == d[k]; }
      }
    }
  }

  /** Registry determinism, stated through `Follows`. */
  lemma {:induction false} RegisterAllFollows(senders: seq<SenderKey>, capacity: nat)
    requires capacity > 0
    ensures Follows(RegisterAll(Empty, senders, capacity), FirstSeen(senders), capacity)
    decreases |senders|
  {
    if senders == [] {
      assert Empty.indexes.Keys == {};
    } else {
      var init := senders[..|senders| - 1];
      var s := senders[|senders| - 1];
      RegisterAllFollows(init, capacity);
      RegisterFollows(RegisterAll(Empty, init, capacity), FirstSeen(init), s, capacity);
    }
  }

  /** Registry determinism: starting from the empty registry, the k-th
      distinct sender (counting from 0, in first-seen order) holds slot
      k mod capacity, only senders of the list are registered, and the counter
      is the number of distinct senders mod capacity. */
  lemma RegistryFollowsFirstSeen(senders: seq<SenderKey>, capacity: nat)
    requires capacity > 0
    ensures RegisterAll(Empty, senders, capacity).indexes.Keys == set s | s in senders
    ensures RegisterAll(Empty, senders, capacity).next == |FirstSeen(senders)| % capacity
    ensures forall k | 0 <= k < |FirstSeen(senders)| ::
              RegisterAll(Empty, senders, capacity).indexes[FirstSeen(senders)[k]] == k % capacity
  {
    RegisterAllFollows(senders, capacity);
  }

  /** The first `capacity` distinct senders get slots 0, 1, ..., capacity-1 in
      the order they are first heard from. */
  lemma FirstSlotsInOrder(senders: seq<SenderKey>, capacity: nat, k: nat)
    requires capacity > 0 && k < capacity && k < |FirstSeen(senders)|
    ensures RegisterAll(Empty, senders, capacity).indexes[FirstSeen(senders)[k]] == k
  {
    RegistryFollowsFirstSeen(senders, capacity);
    ModSmall(k, capacity);
  }

  /** With more distinct senders than slots the assignment wraps: the first and
      the (capacity+1)-th distinct senders are different peers that share slot 0. */
  lemma WrapAliases(senders: seq<SenderKey>, capacity: nat)
    requires capacity > 0 && |FirstSeen(senders)| > capacity
    ensures FirstSeen(senders)[0] != FirstSeen(senders)[capacity]
    ensures RegisterAll(Empty, senders, capacity).indexes[FirstSeen(senders)[0]] == 0
    ensures RegisterAll(Empty, senders, capacity).indexes[FirstSeen(senders)[capacity]] == 0
  {
    RegistryFollowsFirstSeen(senders, capacity);
    ModSmall(0, capacity);
    DivModUnique(capacity, capacity, 1, 0);
  }

  /** Re-registering a sender that is already known returns its slot and
      leaves the registry as it was. */
  lemma ReRegisterIsStable(senders: seq<SenderKey>, capacity: nat, k: nat)
    requires capacity > 0 && k < |senders|
    ensures var p := RegisterAll(Empty, senders, capacity);
            Register(p, senders[k], capacity) == (p, p.indexes[senders[k]])
  {
    RegistryFollowsFirstSeen(senders, capacity);
    assert senders[k] in senders;
  }
}
