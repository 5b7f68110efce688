/** Values that travel between peers: positions, receive results and outbound datagrams. */
module Wire {

  /** One coordinate of a position. The program sends native doubles; the model
      keeps their 64-bit pattern and never interprets it, so positions are
      opaque values that are only stored, copied and compared. */
  type Coord = bv64

  datatype Position = Position(x: Coord, y: Coord)

  /** A sender's identity: its address and port concatenated ("ip:port"). */
  type SenderKey = string

  /** The result of one receive call. When `valid` is false the other fields
      carry nothing meaningful. */
  datatype Received = Received(valid: bool, sender: SenderKey, position: Position)

  /** A configured remote peer, one per line of the peer list. */
  datatype Endpoint = Endpoint(address: string, port: int)

  /** One outbound packet: its destination and the position it carries. */
  datatype Datagram = Datagram(destination: Endpoint, payload: Position)

  /** The datagrams of one round of sending the local position: one send per
      configured peer, in the order of the peer list. */
  function Broadcast(peers: seq<Endpoint>, position: Position): (out: seq<Datagram>)
    ensures |out| == |peers|
    ensures forall i | 0 <= i < |out| :: out[i] == Datagram(peers[i], position)
  {
    if peers == [] then []
    else [Datagram(peers[0], position)] + Broadcast(peers[1..], position)
  }

  /** Every configured peer is the destination of exactly one datagram of a round. */
  lemma BroadcastReachesEachPeerOnce(peers: seq<Endpoint>, position: Position, k: nat)
    requires k < |peers|
    requires forall i, j | 0 <= i < j < |peers| :: peers[i] != peers[j]
    ensures |set i | 0 <= i < |peers| && Broadcast(peers, position)[i].destination == peers[k]| == 1
  {
    var out := Broadcast(peers, position);
    var hits := set i | 0 <= i < |peers| && out[i].destination == peers[k];
    assert hits == {k} by {
      forall i | 0 <= i < |peers| && i != k
        ensures out[i].destination != peers[k]
      {
        if i < k { assert peers[i] != peers[k]; } else { assert peers[k] != peers[i]; }
      }
      assert out[k].destination == peers[k];
    }
  }
}
