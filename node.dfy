/** A Chord node: its identifier, its predecessor and its finger table. A
    reference to another node is represented by that node's identifier, which
    names it uniquely within a ring (nodes are equal iff their identifiers are,
    and the ring maps each identifier to one node). */
module Nodes {
  import opened Identifiers
  import opened Ring

  /** The routing state of one node, as a value. */
  datatype NodeState = NodeState(id: nat, predecessor: nat, fingers: seq<nat>)

  /** The state initialisation gives the node with identifier id: it depends on
      the bit length and the identifiers of the ring snapshot, never on the
      node's previous state nor on the state of any other node. */
  function InitialState(bits: nat, ids: seq<nat>, id: nat): (s: NodeState)
    requires |ids| > 0 && StrictlyIncreasing(ids)
    ensures s.id == id && s.predecessor in ids && |s.fingers| == bits
  {
    NodeState(id, PredecessorOf(ids, id), FingerTableOf(bits, ids, id))
  }

  /** The highest finger slot below n whose node lies in (s.id, target]. */
  function HighestFinger(bits: nat, s: NodeState, target: nat, n: nat): (r: Option<nat>)
    requires n <= |s.fingers|
    ensures r.Some? ==> r.value < n && IsBetween(bits, s.fingers[r.value], s.id, target)
    ensures r.Some? ==> forall i :: r.value < i < n ==> !IsBetween(bits, s.fingers[i], s.id, target)
    ensures r.None? ==> forall i :: 0 <= i < n ==> !IsBetween(bits, s.fingers[i], s.id, target)
  {
    if n == 0 then None
    else if IsBetween(bits, s.fingers[n - 1], s.id, target) then Some(n - 1)
    else HighestFinger(bits, s, target, n - 1)
  }

  /** closestPrecedingNode: the finger with the highest slot whose node lies in
      (id, target], or the node itself when no finger does. */
  function ClosestPreceding(bits: nat, s: NodeState, target: nat): (r: nat)
    requires |s.fingers| == bits
    ensures r == s.id <==> forall i :: 0 <= i < bits ==> !IsBetween(bits, s.fingers[i], s.id, target)
    ensures r != s.id ==> IsBetween(bits, r, s.id, target)
    ensures r != s.id ==> exists i :: 0 <= i < bits && r == s.fingers[i] &&
                                     forall j :: i < j < bits ==> !IsBetween(bits, s.fingers[j], s.id, target)
  {
    match HighestFinger(bits, s, target, bits)
    case None => s.id
    case Some(i) =>
      assert Subtract(bits, s.id, s.id) == 0;
      s.fingers[i]
  }

  class Node {
    const id: nat
    var predecessor: nat
    var fingerTable: array<nat>

    /** A node with identifier id and a finger table of bits entries, not yet
        initialised. */
    constructor (bits: nat, id: nat)
      ensures this.id == id && fingerTable.Length == bits && fresh(fingerTable)
    {
      this.id := id;
      fingerTable := new nat[bits];
    }

    function State(): NodeState
      reads this, fingerTable
    {
      NodeState(id, predecessor, fingerTable[..])
    }

    /** initializeFingerTable: the predecessor from lowerEntry (wrapping to
        lastEntry) and finger i from ceilingEntry(id + 2^i) (wrapping to
        firstEntry), the gap doubling on every step. */
    method InitializeFingerTable(bits: nat, ids: seq<nat>)
      requires ValidRing(bits, ids) && fingerTable.Length == bits
      modifies this`predecessor, fingerTable
      ensures State() == InitialState(bits, ids, id)
    {
      var gap := 1;
      var entry := LowerKey(ids, id);
      predecessor := if entry.None? then ids[|ids| - 1] else entry.value;
      for i := 0 to bits
        invariant predecessor == PredecessorOf(ids, id)
        invariant gap == Pow2(i)
        invariant forall j :: 0 <= j < i ==> fingerTable[j] == SuccessorOf(ids, FingerStart(bits, id, j))
      {
        entry := CeilingKey(ids, Add(bits, id, gap));
        fingerTable[i] := if entry.None? then ids[0] else entry.value;
        gap := gap * 2;
      }
      assert fingerTable[..] == FingerTableOf(bits, ids, id);
    }

    /** closestPrecedingNode, as the downward scan with early return. */
    method ClosestPrecedingNode(bits: nat, target: nat) returns (next: nat)
      requires fingerTable.Length == bits
      ensures next == ClosestPreceding(bits, State(), target)
    {
      var i: int := bits - 1;
      while i >= 0
        invariant -1 <= i < bits
        invariant HighestFinger(bits, State(), target, bits) == HighestFinger(bits, State(), target, i + 1)
      {
        if IsBetween(bits, fingerTable[i], id, target) {
          return fingerTable[i];
        }
        i := i - 1;
      }
      return id;
    }
  }

  /** The initialisation loop of buildNetwork, over the nodes in whatever order
      they are given (a node given twice is initialised twice). Each node ends
      in the state its own identifier and the snapshot determine. */
  method InitializeAll(bits: nat, ids: seq<nat>, nodes: seq<Node>)
    requires ValidRing(bits, ids)
    requires forall k :: 0 <= k < |nodes| ==> nodes[k].fingerTable.Length == bits
    requires forall j, k :: 0 <= j < |nodes| && 0 <= k < |nodes| && nodes[j] != nodes[k] ==>
               nodes[j].fingerTable != nodes[k].fingerTable
    modifies set k | 0 <= k < |nodes| :: nodes[k]
    modifies set k | 0 <= k < |nodes| :: nodes[k].fingerTable
    ensures forall k :: 0 <= k < |nodes| ==> nodes[k].fingerTable == old(nodes[k].fingerTable)
    ensures forall k :: 0 <= k < |nodes| ==> nodes[k].State() == InitialState(bits, ids, nodes[k].id)
  {
    for n := 0 to |nodes|
      invariant forall k :: 0 <= k < |nodes| ==> nodes[k].fingerTable == old(nodes[k].fingerTable)
      invariant forall k :: 0 <= k < n ==> nodes[k].State() == InitialState(bits, ids, nodes[k].id)
    {
      nodes[n].InitializeFingerTable(bits, ids);
    }
  }
}
