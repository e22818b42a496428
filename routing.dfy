/** Greedy Chord lookup (getPathTo) over the ring once every node has been
    initialised. The ring is read-only during lookups, so it is modelled as a
    value: each identifier mapped to the state of its node. */
module Routing {
  import opened Identifiers
  import opened Ring
  import opened Nodes

  type Network = map<nat, NodeState>

  /** Every node is keyed by its own identifier, and its predecessor and all
      bits of its fingers are nodes of the same ring. */
  predicate WellFormed(bits: nat, net: Network) {
    && bits >= 1
    && (forall x :: x in net ==>
          net[x].id == x && InRange(bits, x) && net[x].predecessor in net && |net[x].fingers| == bits)
    && (forall x, i :: x in net && 0 <= i < |net[x].fingers| ==> net[x].fingers[i] in net)
  }

  /** The ring after buildNetwork's initialisation loop: every node of the
      snapshot in its initial state. */
  function BuiltNetwork(bits: nat, ids: seq<nat>): (net: Network)
    requires ValidRing(bits, ids)
    ensures forall x :: x in net <==> x in ids
    ensures bits >= 1 ==> WellFormed(bits, net)
  {
    var net := map x | x in ids :: InitialState(bits, ids, x);
    assert IsBuilt(bits, ids, net);
    if bits >= 1 then BuiltIsWellFormed(bits, ids, net); net else net
  }

  /** getPathTo: the nodes a lookup of target visits, starting at cur. It stops
      at cur when cur owns the target, at cur's successor when that one owns
      it, and at cur when no finger lies in (cur, target]; otherwise it hops
      to the closest preceding finger, which is strictly closer to target. */
  function GetPathTo(bits: nat, net: Network, cur: nat, target: nat): (path: seq<nat>)
    requires WellFormed(bits, net) && cur in net && InRange(bits, target)
    ensures |path| >= 1 && path[0] == cur
    ensures forall i :: 0 <= i < |path| ==> path[i] in net
    decreases Subtract(bits, target, cur)
  {
    var node := net[cur];
    if IsBetween(bits, target, node.predecessor, cur) then [cur]
    else if IsBetween(bits, target, cur, node.fingers[0]) then [cur, node.fingers[0]]
    else
      var next := ClosestPreceding(bits, node, target);
      if next == cur then [cur]
      else
        IsBetweenCloser(bits, next, cur, target);
        [cur] + GetPathTo(bits, net, next, target)
  }

  /** The two early returns of getPathTo. */
  lemma PathStops(bits: nat, net: Network, cur: nat, target: nat)
    requires WellFormed(bits, net) && cur in net && InRange(bits, target)
    ensures IsBetween(bits, target, net[cur].predecessor, cur) ==>
              GetPathTo(bits, net, cur, target) == [cur]
    ensures !IsBetween(bits, target, net[cur].predecessor, cur) &&
            IsBetween(bits, target, cur, net[cur].fingers[0]) ==>
              GetPathTo(bits, net, cur, target) == [cur, net[cur].fingers[0]]
  {
  }

  /** The last node of a lookup path. */
  function Last(path: seq<nat>): nat
    requires |path| > 0
  {
    path[|path| - 1]
  }

  lemma LastCons(x: nat, rest: seq<nat>)
    requires |rest| > 0
    ensures Last([x] + rest) == Last(rest)
  {
  }

  /** When neither cur nor its successor owns the target, the lookup ends
      where the lookup from the closest preceding node ends, or at cur when
      that node is cur itself. */
  lemma PathForward(bits: nat, net: Network, cur: nat, target: nat)
    requires WellFormed(bits, net) && cur in net && InRange(bits, target)
    requires !IsBetween(bits, target, net[cur].predecessor, cur)
    requires !IsBetween(bits, target, cur, net[cur].fingers[0])
    ensures var next := ClosestPreceding(bits, net[cur], target);
            var path := GetPathTo(bits, net, cur, target);
            next in net &&
            (next == cur ==> path == [cur]) &&
            (next != cur ==> InRange(bits, next) &&
                             Subtract(bits, target, next) < Subtract(bits, target, cur) &&
                             Last(path) == Last(GetPathTo(bits, net, next, target)))
  {
    var next := ClosestPreceding(bits, net[cur], target);
    var path := GetPathTo(bits, net, cur, target);
    if next == cur {
      assert path == [cur];
    } else {
      IsBetweenCloser(bits, next, cur, target);
      var rest := GetPathTo(bits, net, next, target);
      assert path == [cur] + rest;
      LastCons(cur, rest);
    }
  }

  /** Every hop of path goes to a node in (current, target], so the clockwise
      distance to target strictly decreases; the only exception is a final
      hop to the successor of the current node, taken because target lies in
      (current, successor]. */
  predicate Progresses(bits: nat, path: seq<nat>, target: nat) {
    forall i :: 0 <= i && i + 1 < |path| ==>
      (IsBetween(bits, path[i + 1], path[i], target) &&
       Subtract(bits, target, path[i + 1]) < Subtract(bits, target, path[i])) ||
      (i + 2 == |path| && IsBetween(bits, target, path[i], path[i + 1]))
  }

  lemma ProgressesCons(bits: nat, cur: nat, rest: seq<nat>, target: nat)
    requires |rest| >= 1 && Progresses(bits, rest, target)
    requires IsBetween(bits, rest[0], cur, target)
    requires Subtract(bits, target, rest[0]) < Subtract(bits, target, cur)
    ensures Progresses(bits, [cur] + rest, target)
  {
    var path := [cur] + rest;
    forall i | 0 < i && i + 1 < |path|
      ensures (IsBetween(bits, path[i + 1], path[i], target) &&
               Subtract(bits, target, path[i + 1]) < Subtract(bits, target, path[i])) ||
              (i + 2 == |path| && IsBetween(bits, target, path[i], path[i + 1]))
    {
      assert path[i] == rest[i - 1] && path[i + 1] == rest[i];
    }
  }

  lemma {:induction false} PathProgress(bits: nat, net: Network, cur: nat, target: nat)
    requires WellFormed(bits, net) && cur in net && InRange(bits, target)
    ensures Progresses(bits, GetPathTo(bits, net, cur, target), target)
    decreases Subtract(bits, target, cur)
  {
    var node := net[cur];
    PathStops(bits, net, cur, target);
    if !IsBetween(bits, target, node.predecessor, cur) && !IsBetween(bits, target, cur, node.fingers[0]) {
      var next := ClosestPreceding(bits, node, target);
      if next != cur {
        IsBetweenCloser(bits, next, cur, target);
        PathProgress(bits, net, next, target);
        ProgressesCons(bits, cur, GetPathTo(bits, net, next, target), target);
      }
    }
  }

  /** The k-th node of snapshot ids is in net, in its initial state. */
  predicate HoldsInitial(bits: nat, ids: seq<nat>, net: Network, k: nat)
    requires |ids| > 0 && StrictlyIncreasing(ids) && k < |ids|
  {
    ids[k] in net && net[ids[k]] == InitialState(bits, ids, ids[k])
  }

  /** net holds exactly the nodes of the snapshot ids, each in its initial state. */
  ghost predicate IsBuilt(bits: nat, ids: seq<nat>, net: Network)
    requires ValidRing(bits, ids)
  {
    && (forall x :: x in net <==> x in ids)
    && (forall k :: 0 <= k < |ids| ==> HoldsInitial(bits, ids, net, k))
  }

  lemma BuiltNetworkIsBuilt(bits: nat, ids: seq<nat>)
    requires ValidRing(bits, ids)
    ensures IsBuilt(bits, ids, BuiltNetwork(bits, ids))
  {
    var net := BuiltNetwork(bits, ids);
    forall k | 0 <= k < |ids|
      ensures HoldsInitial(bits, ids, net, k)
    {
      assert ids[k] in ids;
    }
  }

  /** The state a built ring holds for one of its nodes. */
  lemma BuiltNode(bits: nat, ids: seq<nat>, net: Network, x: nat)
    requires ValidRing(bits, ids) && IsBuilt(bits, ids, net) && x in net
    ensures x in ids && net[x] == InitialState(bits, ids, x)
  {
    var k :| 0 <= k < |ids| && ids[k] == x;
    assert HoldsInitial(bits, ids, net, k);
  }

  /** After initializeAll, the node objects hold exactly the states of the
      network snapshot the routing lemmas work on: every node whose id is in
      the ring is the built network's entry for that id. */
  lemma InitializedNodesMatchBuilt(bits: nat, ids: seq<nat>, nodes: seq<Node>)
    requires ValidRing(bits, ids)
    requires forall k :: 0 <= k < |nodes| ==> nodes[k].State() == InitialState(bits, ids, nodes[k].id)
    ensures forall k :: 0 <= k < |nodes| && nodes[k].id in ids ==>
              nodes[k].id in BuiltNetwork(bits, ids) &&
              BuiltNetwork(bits, ids)[nodes[k].id] == nodes[k].State()
  {
    var net := BuiltNetwork(bits, ids);
    BuiltNetworkIsBuilt(bits, ids);
    forall k | 0 <= k < |nodes| && nodes[k].id in ids
      ensures nodes[k].id in net && net[nodes[k].id] == nodes[k].State()
    {
      BuiltNode(bits, ids, net, nodes[k].id);
    }
  }

  lemma BuiltIsWellFormed(bits: nat, ids: seq<nat>, net: Network)
    requires bits >= 1 && ValidRing(bits, ids) && IsBuilt(bits, ids, net)
    ensures WellFormed(bits, net)
  {
    forall x | x in net
      ensures net[x].id == x && InRange(bits, x) && net[x].predecessor in net && |net[x].fingers| == bits
    {
      BuiltNode(bits, ids, net, x);
      var j :| 0 <= j < |ids| && ids[j] == x;
      var p := net[x].predecessor;
      assert p in ids;
      var jp :| 0 <= jp < |ids| && ids[jp] == p;
      assert HoldsInitial(bits, ids, net, jp);
    }
    forall x, i | x in net && 0 <= i < |net[x].fingers|
      ensures net[x].fingers[i] in net
    {
      BuiltNode(bits, ids, net, x);
      var f := net[x].fingers[i];
      assert f in ids;
      var jf :| 0 <= jf < |ids| && ids[jf] == f;
      assert HoldsInitial(bits, ids, net, jf);
    }
  }

  /** A lookup that starts at the owner of the target stops there. */
  lemma OwnerCase(bits: nat, ids: seq<nat>, net: Network, k: nat, target: nat)
    requires ValidRing(bits, ids) && WellFormed(bits, net) && k < |ids| && HoldsInitial(bits, ids, net, k)
    requires InRange(bits, target)
    requires IsBetween(bits, target, PredecessorOf(ids, ids[k]), ids[k])
    ensures Last(GetPathTo(bits, net, ids[k], target)) == SuccessorOf(ids, target)
  {
    PathStops(bits, net, ids[k], target);
    assert GetPathTo(bits, net, ids[k], target) == [ids[k]];
    Ownership(bits, ids, k, target);
    assert SuccessorOf(ids, target) == ids[k];
  }

  /** A lookup whose target lies in (cur, finger 0] ends at finger 0, which is
      the successor of the target. */
  lemma SuccessorHopCase(bits: nat, ids: seq<nat>, net: Network, k: nat, target: nat)
    requires ValidRing(bits, ids) && WellFormed(bits, net) && k < |ids| && HoldsInitial(bits, ids, net, k)
    requires InRange(bits, target)
    requires !IsBetween(bits, target, PredecessorOf(ids, ids[k]), ids[k])
    requires IsBetween(bits, target, ids[k], FingerTableOf(bits, ids, ids[k])[0])
    ensures Last(GetPathTo(bits, net, ids[k], target)) == SuccessorOf(ids, target)
  {
    var succ := ids[Next(ids, k)];
    FirstFingerIsNext(bits, ids, k);
    assert net[ids[k]].fingers[0] == succ;
    PathStops(bits, net, ids[k], target);
    assert GetPathTo(bits, net, ids[k], target) == [ids[k], succ];
    PredecessorOfNext(ids, k);
    Ownership(bits, ids, Next(ids, k), target);
    assert SuccessorOf(ids, target) == succ;
  }

  /** On a ring of one node, no finger lies in (node, target], so the lookup
      stops at the node, which is the successor of everything. */
  lemma SingleNodeCase(bits: nat, ids: seq<nat>, net: Network, target: nat)
    requires ValidRing(bits, ids) && WellFormed(bits, net) && |ids| == 1 && HoldsInitial(bits, ids, net, 0)
    requires InRange(bits, target)
    ensures GetPathTo(bits, net, ids[0], target) == [ids[0]]
    ensures SuccessorOf(ids, target) == ids[0]
  {
    var x := ids[0];
    var s := net[x];
    assert s.predecessor == x by {
      assert s.predecessor in ids;
    }
    forall i | 0 <= i < bits
      ensures s.fingers[i] == x
    {
      assert s.fingers[i] in ids;
    }
    assert Subtract(bits, x, x) == 0 by {
      FromIntIdentity(bits, 0);
    }
    forall i | 0 <= i < bits
      ensures !IsBetween(bits, s.fingers[i], x, target)
    {
    }
    assert ClosestPreceding(bits, s, target) == x;
    IsBetweenEmpty(bits, target, x);
    PathForward(bits, net, x, target);
    assert GetPathTo(bits, net, x, target) == [x];
    assert SuccessorOf(ids, target) in ids;
  }

  /** On a ring of two or more nodes, when the target is owned neither by cur
      nor by its successor, finger 0 lies in (cur, target], so the scan finds a
      finger and the lookup moves on to it. */
  lemma ForwardCase(bits: nat, ids: seq<nat>, net: Network, k: nat, target: nat)
    requires ValidRing(bits, ids) && WellFormed(bits, net) && k < |ids| && HoldsInitial(bits, ids, net, k)
    requires |ids| >= 2 && InRange(bits, target)
    requires !IsBetween(bits, target, PredecessorOf(ids, ids[k]), ids[k])
    requires !IsBetween(bits, target, ids[k], FingerTableOf(bits, ids, ids[k])[0])
    ensures var next := ClosestPreceding(bits, InitialState(bits, ids, ids[k]), target);
            && next in ids && next in net
            && Subtract(bits, target, next) < Subtract(bits, target, ids[k])
            && Last(GetPathTo(bits, net, ids[k], target)) == Last(GetPathTo(bits, net, next, target))
  {
    var cur, f0 := ids[k], FingerTableOf(bits, ids, ids[k])[0];
    var node := net[cur];
    assert node.fingers[0] == f0;
    FirstFingerIsNext(bits, ids, k);
    PredecessorAt(ids, k);
    IsBetweenBounds(bits, PredecessorOf(ids, cur), cur);
    assert target != cur;
    assert f0 != cur;
    IsBetweenOrder(bits, f0, target, cur);
    assert IsBetween(bits, node.fingers[0], cur, target);
    var next := ClosestPreceding(bits, node, target);
    assert next != cur;
    assert next in ids;
    PathForward(bits, net, cur, target);
  }

  /** One step of a lookup from the k-th node of a built ring: either the
      lookup ends there at the successor of the target (and the step returns
      the node itself), or it continues from a strictly closer node of the
      ring and ends where that lookup ends. */
  lemma LookupStep(bits: nat, ids: seq<nat>, net: Network, k: nat, target: nat) returns (next: nat)
    requires ValidRing(bits, ids) && WellFormed(bits, net) && k < |ids| && HoldsInitial(bits, ids, net, k)
    requires InRange(bits, target)
    ensures next == ids[k] ==> Last(GetPathTo(bits, net, ids[k], target)) == SuccessorOf(ids, target)
    ensures next != ids[k] ==>
              && next in ids && next in net
              && Subtract(bits, target, next) < Subtract(bits, target, ids[k])
              && Last(GetPathTo(bits, net, ids[k], target)) == Last(GetPathTo(bits, net, next, target))
  {
    var cur := ids[k];
    var node := net[cur];
    assert node.predecessor == PredecessorOf(ids, ids[k]);
    assert node.fingers[0] == FingerTableOf(bits, ids, ids[k])[0];
    if IsBetween(bits, target, node.predecessor, cur) {
      OwnerCase(bits, ids, net, k, target);
      next := cur;
    } else if IsBetween(bits, target, cur, node.fingers[0]) {
      SuccessorHopCase(bits, ids, net, k, target);
      next := cur;
    } else if |ids| == 1 {
      assert k == 0;
      SingleNodeCase(bits, ids, net, target);
      next := cur;
    } else {
      ForwardCase(bits, ids, net, k, target);
      next := ClosestPreceding(bits, InitialState(bits, ids, ids[k]), target);
    }
  }

  /** On a ring built by initialisation, every lookup ends at the successor of
      the target: the node whose interval (predecessor, node] holds it. */
  lemma {:induction false} LookupEndsAtSuccessorIn(bits: nat, ids: seq<nat>, net: Network, cur: nat, target: nat)
    requires bits >= 1 && ValidRing(bits, ids) && IsBuilt(bits, ids, net)
    requires cur in ids && InRange(bits, target)
    ensures WellFormed(bits, net)
    ensures Last(GetPathTo(bits, net, cur, target)) == SuccessorOf(ids, target)
    decreases Subtract(bits, target, cur)
  {
    BuiltIsWellFormed(bits, ids, net);
    var k :| 0 <= k < |ids| && ids[k] == cur;
    assert HoldsInitial(bits, ids, net, k);
    var next := LookupStep(bits, ids, net, k, target);
    if next != cur {
      LookupEndsAtSuccessorIn(bits, ids, net, next, target);
    }
  }

  /** The same, for the ring buildNetwork produces. */
  lemma LookupEndsAtSuccessor(bits: nat, ids: seq<nat>, cur: nat, target: nat)
    requires bits >= 1 && ValidRing(bits, ids) && cur in ids && InRange(bits, target)
    ensures WellFormed(bits, BuiltNetwork(bits, ids))
    ensures Last(GetPathTo(bits, BuiltNetwork(bits, ids), cur, target)) == SuccessorOf(ids, target)
  {
    BuiltNetworkIsBuilt(bits, ids);
    LookupEndsAtSuccessorIn(bits, ids, BuiltNetwork(bits, ids), cur, target);
  }

  /** A sequence whose every element is x is the constant sequence. */
  lemma ConstantSeq(s: seq<nat>, x: nat)
    requires forall i :: 0 <= i < |s| ==> s[i] == x
    ensures s == seq(|s|, _ => x)
  {
  }

  /** A ring of one node: the node is its own predecessor and every one of its
      fingers. */
  lemma SingleMemberState(bits: nat, x: nat)
    ensures InitialState(bits, [x], x) == NodeState(x, x, seq(bits, _ => x))
  {
    var ids := [x];
    var s := InitialState(bits, ids, x);
    assert s.predecessor == x by {
      assert s.predecessor in ids;
    }
    forall i | 0 <= i < |s.fingers|
      ensures s.fingers[i] == x
    {
      assert s.fingers[i] in ids;
    }
    ConstantSeq(s.fingers, x);
  }

  /** Every lookup on a ring of one node is the one-element path. */
  lemma SingleMemberRing(bits: nat, x: nat, target: nat)
    requires bits >= 1 && InRange(bits, x) && InRange(bits, target)
    ensures WellFormed(bits, BuiltNetwork(bits, [x]))
    ensures GetPathTo(bits, BuiltNetwork(bits, [x]), x, target) == [x]
  {
    var ids := [x];
    assert ValidRing(bits, ids);
    var net := BuiltNetwork(bits, ids);
    BuiltNetworkIsBuilt(bits, ids);
    assert HoldsInitial(bits, ids, net, 0);
    SingleNodeCase(bits, ids, net, target);
  }

  /** The first powers of two and the 3-bit identifiers they produce. */
  lemma SmallPowers()
    ensures Pow2(0) == 1 && Pow2(1) == 2 && Pow2(2) == 4 && Pow2(3) == 8
  {
    assert Pow2(1) == 2 * Pow2(0);
    assert Pow2(2) == 2 * Pow2(1);
    assert Pow2(3) == 2 * Pow2(2);
  }

  /** Finger i of node id, when id + 2^i does not wrap around, is the k-th
      node exactly when id + 2^i lies above the node before it and at or
      below the k-th node. */
  lemma FingerAt(bits: nat, ids: seq<nat>, id: nat, i: nat, k: nat)
    requires |ids| > 0 && StrictlyIncreasing(ids) && i < bits && k < |ids|
    requires id + Pow2(i) < Pow2(bits)
    requires id + Pow2(i) <= ids[k] && (k == 0 || ids[k - 1] < id + Pow2(i))
    ensures FingerTableOf(bits, ids, id)[i] == ids[k]
  {
    var t := id + Pow2(i);
    FromIntIdentity(bits, t);
    assert FingerStart(bits, id, i) == t;
    assert FingerTableOf(bits, ids, id)[i] == SuccessorOf(ids, t);
    SuccessorAt(ids, t, k);
  }

  /** A sequence of three elements is determined by them. */
  lemma Seq3(t: seq<nat>, a: nat, b: nat, c: nat)
    requires |t| == 3 && t[0] == a && t[1] == b && t[2] == c
    ensures t == [a, b, c]
  {
  }

  /** {0, 2, 5, 6} is a ring of 3-bit identifiers. */
  lemma ExampleRingIsValid(ids: seq<nat>)
    requires ids == [0, 2, 5, 6]
    ensures ValidRing(3, ids)
  {
    SmallPowers();
  }

  /** In the ring {0, 2, 5, 6} with 3-bit identifiers, node 0 has predecessor 6
      and its fingers for 1, 2 and 4 resolve to 2, 2 and 5. */
  lemma ExampleNodeZero(ids: seq<nat>)
    requires ids == [0, 2, 5, 6]
    ensures InitialState(3, ids, 0) == NodeState(0, 6, [2, 2, 5])
  {
    SmallPowers();
    PredecessorAt(ids, 0);
    FingerAt(3, ids, 0, 0, 1);
    FingerAt(3, ids, 0, 1, 1);
    FingerAt(3, ids, 0, 2, 2);
    Seq3(FingerTableOf(3, ids, 0), 2, 2, 5);
  }

  /** In the same ring node 2 has predecessor 0 and its fingers for 3, 4 and 6
      resolve to 5, 5 and 6. */
  lemma ExampleNodeTwo(ids: seq<nat>)
    requires ids == [0, 2, 5, 6]
    ensures InitialState(3, ids, 2) == NodeState(2, 0, [5, 5, 6])
  {
    SmallPowers();
    PredecessorAt(ids, 1);
    FingerAt(3, ids, 2, 0, 2);
    FingerAt(3, ids, 2, 1, 2);
    FingerAt(3, ids, 2, 2, 3);
    Seq3(FingerTableOf(3, ids, 2), 5, 5, 6);
  }

  /** Node 2 of that ring owns neither 4 nor its interval, but its successor
      5 does, so a lookup of 4 from 2 stops at 5. */
  lemma ExampleHopFromTwo(net: Network)
    requires WellFormed(3, net) && 2 in net && net[2] == NodeState(2, 0, [5, 5, 6])
    ensures GetPathTo(3, net, 2, 4) == [2, 5]
  {
    SmallPowers();
    IsBetweenSplit(3, 4, 0, 2);
    IsBetweenSplit(3, 4, 2, 5);
    PathStops(3, net, 2, 4);
  }

  /** Node 0 of that ring owns neither 4 nor hands it to its successor 2; its
      closest preceding finger for 4 is 2 (finger 2, node 5, lies past 4). */
  lemma ExampleHopFromZero(net: Network)
    requires WellFormed(3, net) && 0 in net && net[0] == NodeState(0, 6, [2, 2, 5])
    ensures !IsBetween(3, 4, net[0].predecessor, 0) && !IsBetween(3, 4, 0, net[0].fingers[0])
    ensures ClosestPreceding(3, net[0], 4) == 2
  {
    SmallPowers();
    IsBetweenSplit(3, 4, 6, 0);
    IsBetweenSplit(3, 4, 0, 2);
    IsBetweenSplit(3, 2, 0, 4);
    IsBetweenSplit(3, 5, 0, 4);
    assert IsBetween(3, net[0].fingers[1], 0, 4);
    assert !IsBetween(3, net[0].fingers[2], 0, 4);
  }

  /** A ring built from {0, 2, 5, 6} holds nodes 0 and 2 in the states above. */
  lemma ExampleStates(ids: seq<nat>, net: Network)
    requires ids == [0, 2, 5, 6]
    requires ValidRing(3, ids) && IsBuilt(3, ids, net)
    ensures 0 in net && 2 in net
    ensures net[0] == NodeState(0, 6, [2, 2, 5]) && net[2] == NodeState(2, 0, [5, 5, 6])
  {
    assert HoldsInitial(3, ids, net, 0) && HoldsInitial(3, ids, net, 1);
    ExampleNodeZero(ids);
    ExampleNodeTwo(ids);
  }

  /** With nodes 0 and 2 in those states, a lookup of 4 from 0 goes through 2
      and ends at 5. */
  lemma ExamplePath(net: Network)
    requires WellFormed(3, net) && 0 in net && 2 in net
    requires net[0] == NodeState(0, 6, [2, 2, 5]) && net[2] == NodeState(2, 0, [5, 5, 6])
    ensures GetPathTo(3, net, 0, 4) == [0, 2, 5]
  {
    ExampleHopFromZero(net);
    ExampleHopFromTwo(net);
    PathForward(3, net, 0, 4);
    assert GetPathTo(3, net, 0, 4) == [0] + [2, 5];
  }

  /** A lookup of 4 from node 0 of the ring buildNetwork produces from
      {0, 2, 5, 6} is the path 0, 2, 5. */
  lemma ExampleLookup(ids: seq<nat>)
    requires ids == [0, 2, 5, 6]
    ensures ValidRing(3, ids) && WellFormed(3, BuiltNetwork(3, ids))
    ensures GetPathTo(3, BuiltNetwork(3, ids), 0, 4) == [0, 2, 5]
  {
    ExampleRingIsValid(ids);
    var net := BuiltNetwork(3, ids);
    BuiltNetworkIsBuilt(3, ids);
    BuiltIsWellFormed(3, ids, net);
    ExampleStates(ids, net);
    ExamplePath(net);
  }
}
