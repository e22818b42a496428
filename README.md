# Chord ring: identifiers, finger tables and greedy lookup

This project models the Chord core of the P2PBC simulator in Dafny.

The simulator places nodes on a ring of `m`-bit identifiers. Each node takes the
ring's ordered membership (a `TreeMap` of all identifiers) and computes two
things from it:

- its predecessor;
- its finger table, where finger `i` is the first node at or after `id + 2^i`.

A lookup (`getPathTo`) then routes greedily from node to node and returns the
path of nodes it visits.

The model has four modules, one file each:

- `identifier.dfy` (`Identifiers`) models `Identifier.java`:
  - reduction modulo `2^bits`, the modular `add` and `subtract`;
  - the circular interval test `isBetween`, the half-open interval `(left, right]`;
  - `compareTo` and `equals`;
  - the truncation step of the hash constructor.

  The bit length, a process-wide static in the source, is an explicit `bits`
  parameter. Identifiers are unbounded `nat`s, as `BigInteger` is.
- `ring.dfy` (`Ring`) models the ordered snapshot as a strictly increasing
  sequence of identifiers. `TreeMap.lowerEntry` and `ceilingEntry` become
  `LowerKey` and `CeilingKey`. On top of them sit:
  - the predecessor, successor and finger-table values;
  - their characterisation by position in the ring.
- `node.dfy` (`Nodes`) models the `Node` class:
  - `initializeFingerTable`, as a method that assigns the `predecessor` field
    and fills the `fingerTable` array in a `for` loop, with `gap` doubling;
  - `closestPrecedingNode`, as a downward loop with early return. It is proved
    equal to the function `ClosestPreceding`, which the lookup uses;
  - the initialisation loop of `buildNetwork`.

  A reference to another node is represented by that node's identifier. Nodes
  are equal exactly when their identifiers are, and the ring maps each
  identifier to one node.
- `routing.dfy` (`Routing`) models `getPathTo` as a recursive function over a
  value snapshot of the ring: each identifier maps to its node's state. The
  recursion terminates on the clockwise distance `(target - current) mod 2^bits`.
  The main result is `LookupEndsAtSuccessor`: on a ring built by initialisation, every
  lookup ends at the successor of the target.

Where the documentation and the code disagree, the model follows the code:
`isBetween`'s doc comment writes the gaps as `left - this`, while the code
computes `this - left` and `right - left`, which is what `IsBetween` states.

The hash constructor shifts the digest right by `8 * digestLength - bits`, so it
keeps the high-order `bits` bits of the digest (`FromDigest`,
`FromDigestLeadingBytes`). When `bits` exceeds `8 * digestLength` the shift
distance is negative, and `BigInteger.shiftRight` then shifts left; the model
does the same.

## Model

| member | source | states |
|---|---|---|
| Identifiers.FromInt | src/P2PBC/Chord/Identifier.java:50-52 | the identifier built from any integer lies in [0, 2^bits) and differs from it by a multiple of 2^bits |
| Identifiers.FromIntIdentity | src/P2PBC/Chord/Identifier.java:50-52 | a value already in [0, 2^bits) is left unchanged by the reduction |
| Identifiers.Add | src/P2PBC/Chord/Identifier.java:71-84 | add lies in range and is congruent to a + b modulo 2^bits |
| Identifiers.Subtract | src/P2PBC/Chord/Identifier.java:93-106 | subtract lies in range and is congruent to a - b modulo 2^bits |
| Identifiers.AddDistance | src/P2PBC/Chord/Identifier.java:71-106 | for a and b both identifiers, subtract(add(a, b), a) is b: the clockwise distance from a to a + b is b |
| Identifiers.SubtractInRange | src/P2PBC/Chord/Identifier.java:93-106 | for two identifiers, subtract is a - b, plus 2^bits when a < b |
| Identifiers.AddSubtractRoundTrip | src/P2PBC/Chord/Identifier.java:71-106 | adding back what was subtracted restores any identifier |
| Identifiers.SubtractAddRoundTrip | src/P2PBC/Chord/Identifier.java:71-106 | subtracting what was added restores any identifier |
| Identifiers.IsBetween | src/P2PBC/Chord/Identifier.java:130-135 | x.isBetween(left, right): 0 < (x - left) mod 2^bits <= (right - left) mod 2^bits, the gaps taken as the code computes them |
| Identifiers.IsBetweenSplit | src/P2PBC/Chord/Identifier.java:130-135 | the gap test holds exactly when x is in the linear interval (left, right] for left < right, or in (left, 2^bits) or [0, right] for left > right; it never holds for left = right |
| Identifiers.IsBetweenEmpty | src/P2PBC/Chord/Identifier.java:130-135 | with equal bounds the test is false for every x |
| Identifiers.IsBetweenBounds | src/P2PBC/Chord/Identifier.java:130-135 | for distinct bounds the interval contains right and excludes left |
| Identifiers.IsBetweenCircular | src/P2PBC/Chord/Identifier.java:130-135 | for distinct bounds, every x other than the bounds lies in exactly one of (left, right] and (right, left] |
| Identifiers.IsBetweenOrder | src/P2PBC/Chord/Identifier.java:130-135 | of two points other than left, one lies in the interval from left to the other |
| Identifiers.IsBetweenCloser | src/P2PBC/Chord/Identifier.java:130-135 | a point in (left, target] is strictly closer to target, clockwise, than left |
| Identifiers.CompareTo | src/P2PBC/Chord/Identifier.java:170-173 | the result is negative, zero or positive exactly as a is less than, equal to or greater than b |
| Identifiers.Equals | src/P2PBC/Chord/Identifier.java:154-160 | two identifiers are equal exactly when compareTo gives zero |
| Identifiers.CompareToIsTotalOrder | src/P2PBC/Chord/Identifier.java:154-173 | compareTo is antisymmetric and transitive and agrees with equality of values |
| Identifiers.Unsigned | src/P2PBC/Chord/Identifier.java:61 | new BigInteger(1, bytes): the bytes read as an unsigned big-endian number, the last byte least significant |
| Identifiers.UnsignedBound | src/P2PBC/Chord/Identifier.java:61 | the unsigned big-endian value of an n-byte digest is below 2^(8n) |
| Identifiers.UnsignedAppend | src/P2PBC/Chord/Identifier.java:61 | the value of two byte strings concatenated is the first one's value shifted by the second's width, plus the second's value |
| Identifiers.FromDigest | src/P2PBC/Chord/Identifier.java:60-62 | the digest shifted right by 8 * length - bits (left when negative) is an identifier in [0, 2^bits) |
| Identifiers.FromDigestLeadingBytes | src/P2PBC/Chord/Identifier.java:60-62 | for a whole number of bytes, the identifier is the value of the leading bits / 8 bytes of the digest |
| Ring.LowerKey | src/P2PBC/Chord/Node.java:94 | lowerEntry: the greatest key strictly below x, or none exactly when every key is at least x |
| Ring.CeilingKey | src/P2PBC/Chord/Node.java:98 | ceilingEntry: the least key at or above x, or none exactly when every key is below x |
| Ring.PredecessorOf | src/P2PBC/Chord/Node.java:94-95 | the predecessor is a member; it is the greatest member below id when there is one, and the greatest member otherwise |
| Ring.SuccessorOf | src/P2PBC/Chord/Node.java:98-99 | the successor is a member; it is the least member at or above t when there is one, and the least member otherwise |
| Ring.FingerStart | src/P2PBC/Chord/Node.java:93-100 | id.add(gap), with gap doubled once per slot so that it is 2^i at slot i: an identifier of the ring |
| Ring.FingerDistance | src/P2PBC/Chord/Node.java:93-100 | for a slot i below bits, finger i starts exactly 2^i positions clockwise from the node |
| Ring.FingerTableOf | src/P2PBC/Chord/Node.java:97-101 | the finger table has bits entries, each a member of the ring |
| Ring.PredecessorAt | src/P2PBC/Chord/Node.java:94-95 | the predecessor of the k-th member is the one before it, and the first member's is the last |
| Ring.SuccessorAt | src/P2PBC/Chord/Node.java:98-99 | t's successor is the k-th member exactly when t lies above the member before it and at or below the k-th, or, for the first member, above every member |
| Ring.SuccessorOfMember | src/P2PBC/Chord/Node.java:98-99 | every member is its own successor |
| Ring.FirstFingerIsNext | src/P2PBC/Chord/Node.java:97-99 | finger 0, for id + 1, is the next member clockwise |
| Ring.Ownership | src/P2PBC/Chord/Node.java:92-102 | t lies in (predecessor, node] exactly when the ring has two or more members and the node is t's successor |
| Ring.PredecessorIsAdjacent | src/P2PBC/Chord/Node.java:94-95 | no other member lies in (predecessor, node] |
| Ring.PredecessorOfNext | src/P2PBC/Chord/Node.java:94-99 | the predecessor of a member's next member is that member |
| Nodes.InitialState | src/P2PBC/Chord/Node.java:92-102 | the state after initialisation keeps the id, has a member as predecessor and has bits fingers; it depends only on the snapshot's identifiers |
| Nodes.HighestFinger | src/P2PBC/Chord/Node.java:174-176 | returns the highest slot below n whose finger is in (id, target], and none when no slot is |
| Nodes.ClosestPreceding | src/P2PBC/Chord/Node.java:173-179 | returns the node itself exactly when no finger is in (id, target]; otherwise a finger in (id, target], with no higher slot in that interval |
| Nodes.Node.constructor | src/P2PBC/Chord/Node.java:67-74 | a new node has the given identifier and a fresh finger table of bits entries |
| Nodes.Node.InitializeFingerTable | src/P2PBC/Chord/Node.java:92-102 | after the loop the predecessor and every finger are those the snapshot determines, whatever the node held before |
| Nodes.Node.ClosestPrecedingNode | src/P2PBC/Chord/Node.java:173-179 | the downward scan with early return returns the closest preceding node |
| Nodes.InitializeAll | src/P2PBC/Chord/Node.java:33-34 | initialising the nodes in any order, a node possibly more than once, leaves every node in the state its identifier and the snapshot determine |
| Routing.BuiltNetwork | src/P2PBC/Chord/Node.java:33-36 | the built ring holds exactly the snapshot's members, and for bits >= 1 every predecessor and finger is one of them |
| Routing.InitializedNodesMatchBuilt | src/P2PBC/Chord/Node.java:33-36 | once every node object holds its initial state, each node whose identifier is in the snapshot is exactly the built ring's entry for that identifier, so the routing results apply to the initialised objects |
| Routing.GetPathTo | src/P2PBC/Chord/Node.java:150-171 | the path is non-empty, starts at the current node and visits only nodes of the ring |
| Routing.PathStops | src/P2PBC/Chord/Node.java:150-161 | the path is [cur] when cur owns the target, and [cur, finger 0] when finger 0 does |
| Routing.PathForward | src/P2PBC/Chord/Node.java:163-170 | otherwise the path is [cur] when the scan returns cur, and else it ends where the path from the next hop ends, which is strictly closer to the target |
| Routing.PathProgress | src/P2PBC/Chord/Node.java:163-168 | every hop of a lookup path goes to a node in (current, target] and strictly decreases the clockwise distance to the target, except that the last hop may be the step to the successor, taken when the target lies in (current, successor] |
| Routing.BuiltIsWellFormed | src/P2PBC/Chord/Node.java:92-102 | on a built ring every node is keyed by its identifier, and its predecessor and bits fingers are nodes of the ring |
| Routing.FingerAt | src/P2PBC/Chord/Node.java:97-101 | finger i is the k-th member when id + 2^i does not wrap and lies between the (k-1)-th and k-th members |
| Routing.LookupStep | src/P2PBC/Chord/Node.java:150-179 | on a built ring, one step either ends at the target's successor or moves to a strictly closer member where the rest of the lookup ends |
| Routing.LookupEndsAtSuccessorIn | src/P2PBC/Chord/Node.java:150-179 | on any built ring, every lookup from any member ends at the successor of the target |
| Routing.LookupEndsAtSuccessor | src/P2PBC/Chord/Node.java:150-179 | the same for the ring buildNetwork constructs |
| Routing.SingleMemberState | src/P2PBC/Chord/Node.java:94-99 | on a one-node ring the node is its own predecessor and every one of its fingers |
| Routing.SingleMemberRing | src/P2PBC/Chord/Node.java:154-166 | on a one-node ring every lookup returns the one-element path |
| Routing.ExampleNodeZero | src/P2PBC/Chord/Node.java:92-102 | in the 3-bit ring {0, 2, 5, 6}, node 0 has predecessor 6 and fingers 2, 2, 5 |
| Routing.ExampleNodeTwo | src/P2PBC/Chord/Node.java:92-102 | in the same ring, node 2 has predecessor 0 and fingers 5, 5, 6 |
| Routing.ExampleLookup | src/P2PBC/Chord/Node.java:150-171 | in that ring, a lookup of 4 from node 0 is the path 0, 2, 5 |

## Left out

- The SHA digest itself and the packing of address and port into the hashed bytes (`Identifier.java:15-22`, `Node.java:67-72`) are foreign calls. The digest is an input of `FromDigest`, and a node's identifier is a constructor parameter.
- The random generation of node addresses and the collision retry in `buildNetwork` (`Node.java:20-31`) use randomness and networking types. The model starts from the resulting set of identifiers.
- `setBitLength` and the static bit length: `bits` is a parameter. Negative bit lengths are excluded by the `nat` type; the source would fail with them.
- `Routing.WellFormed` demands `bits >= 1`. With zero bits the source would index `fingerTable[0]` of an empty array in `getPathTo`.
- The node's socket address, `getAddress` and the getters, `getValue`'s 32-bit truncation, `hashCode`, `toString`, and the DOT and SIF writers (`toDOTString`, `toSIFString`, `writeDOTFile`, `writeSIFFile`) are display and I/O.
- `Nodes.Node.constructor`: the predecessor is `null` until initialisation. The model holds an unspecified identifier there, and nothing reads it before `InitializeFingerTable` assigns it.
- `Routing.GetPathTo` reads the ring as a value snapshot, one `NodeState` per identifier, not through the cyclic object references of the heap. The ring does not change during lookups, so the visited path is the same; `InitializedNodesMatchBuilt` ties the initialised objects to that snapshot. The `ArrayList` accumulation becomes sequence concatenation.
- The two driver classes (`Coordinator.java` in both packages) and the analysis notebook are not part of this model. They hold command-line parsing, graph libraries, JSON logs and plotting.
