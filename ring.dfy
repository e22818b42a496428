/** The ordered snapshot of the ring that node initialisation reads: the keys
    of the TreeMap of all node identifiers, in ascending order, together with
    the two ordered queries it uses (lowerEntry and ceilingEntry) and the
    predecessor, successor and finger-table values derived from them. */
module Ring {
  import opened Identifiers

  datatype Option<T> = None | Some(value: T)

  predicate StrictlyIncreasing(ids: seq<nat>) {
    forall i, j :: 0 <= i < j < |ids| ==> ids[i] < ids[j]
  }

  /** A snapshot of a ring: at least one node, keys ascending and distinct,
      every key an identifier. */
  predicate ValidRing(bits: nat, ids: seq<nat>) {
    && |ids| > 0
    && StrictlyIncreasing(ids)
    && forall i :: 0 <= i < |ids| ==> InRange(bits, ids[i])
  }

  /** TreeMap.lowerEntry: the greatest key strictly below x, if any. */
  function LowerKey(ids: seq<nat>, x: int): (r: Option<nat>)
    requires StrictlyIncreasing(ids)
    ensures r.Some? ==> r.value in ids && r.value < x
    ensures r.Some? ==> forall j :: 0 <= j < |ids| && ids[j] < x ==> ids[j] <= r.value
    ensures r.None? ==> forall j :: 0 <= j < |ids| ==> x <= ids[j]
  {
    if |ids| == 0 then None
    else if ids[|ids| - 1] < x then Some(ids[|ids| - 1])
    else LowerKey(ids[..|ids| - 1], x)
  }

  /** TreeMap.ceilingEntry: the least key at or above x, if any. */
  function CeilingKey(ids: seq<nat>, x: int): (r: Option<nat>)
    requires StrictlyIncreasing(ids)
    ensures r.Some? ==> r.value in ids && x <= r.value
    ensures r.Some? ==> forall j :: 0 <= j < |ids| && x <= ids[j] ==> r.value <= ids[j]
    ensures r.None? ==> forall j :: 0 <= j < |ids| ==> ids[j] < x
  {
    if |ids| == 0 then None
    else if x <= ids[0] then Some(ids[0])
    else CeilingKey(ids[1..], x)
  }

  /** The predecessor of a node: the greatest key below its identifier,
      wrapping to the greatest key of all (lastEntry) when there is none. */
  function PredecessorOf(ids: seq<nat>, id: nat): (r: nat)
    requires |ids| > 0 && StrictlyIncreasing(ids)
    ensures r in ids
    ensures (exists j :: 0 <= j < |ids| && ids[j] < id) ==>
              r < id && forall j :: 0 <= j < |ids| && ids[j] < id ==> ids[j] <= r
    ensures (forall j :: 0 <= j < |ids| ==> id <= ids[j]) ==> r == ids[|ids| - 1]
  {
    match LowerKey(ids, id)
    case None => ids[|ids| - 1]
    case Some(k) => k
  }

  /** The successor of a position: the least key at or above it, wrapping to
      the least key of all (firstEntry) when there is none. */
  function SuccessorOf(ids: seq<nat>, t: int): (r: nat)
    requires |ids| > 0 && StrictlyIncreasing(ids)
    ensures r in ids
    ensures (exists j :: 0 <= j < |ids| && t <= ids[j]) ==>
              t <= r && forall j :: 0 <= j < |ids| && t <= ids[j] ==> r <= ids[j]
    ensures (forall j :: 0 <= j < |ids| ==> ids[j] < t) ==> r == ids[0]
  {
    match CeilingKey(ids, t)
    case None => ids[0]
    case Some(k) => k
  }

  /** The ring position finger i of node id is responsible for: id + 2^i. */
  function FingerStart(bits: nat, id: nat, i: nat): (r: nat)
    ensures InRange(bits, r)
  {
    Add(bits, id, Pow2(i))
  }

  /** Finger i of a node starts 2^i positions clockwise from the node. */
  lemma FingerDistance(bits: nat, id: nat, i: nat)
    requires InRange(bits, id) && i < bits
    ensures Subtract(bits, FingerStart(bits, id, i), id) == Pow2(i)
  {
    Pow2Below(i, bits);
    AddDistance(bits, id, Pow2(i));
  }

  /** The finger table of node id: one entry per bit, entry i being the
      successor of FingerStart(bits, id, i). */
  function FingerTableOf(bits: nat, ids: seq<nat>, id: nat): (r: seq<nat>)
    requires |ids| > 0 && StrictlyIncreasing(ids)
    ensures |r| == bits
    ensures forall i :: 0 <= i < bits ==> r[i] in ids
  {
    seq(bits, i requires 0 <= i => SuccessorOf(ids, FingerStart(bits, id, i)))
  }

  // ---------------------------------------------------------------------
  // The same values, in terms of positions in the snapshot.

  /** The position of the node after the k-th one, clockwise. */
  function Next(ids: seq<nat>, k: nat): (r: nat)
    requires k < |ids|
    ensures r < |ids|
  {
    if k + 1 < |ids| then k + 1 else 0
  }

  lemma IndexOrder(ids: seq<nat>, i: nat, j: nat)
    requires StrictlyIncreasing(ids) && i < |ids| && j < |ids|
    ensures ids[i] < ids[j] <==> i < j
  {
  }

  /** The predecessor of the k-th node is the node just before it, and the
      predecessor of the first node is the last one. */
  lemma PredecessorAt(ids: seq<nat>, k: nat)
    requires |ids| > 0 && StrictlyIncreasing(ids) && k < |ids|
    ensures PredecessorOf(ids, ids[k]) == ids[if k > 0 then k - 1 else |ids| - 1]
  {
    var r := PredecessorOf(ids, ids[k]);
    if k > 0 {
      assert ids[k - 1] < ids[k];
      var j :| 0 <= j < |ids| && ids[j] == r;
      IndexOrder(ids, j, k);
      IndexOrder(ids, j, k - 1);
    }
  }

  /** The successor of t is the k-th node exactly when t lies above the node
      before it and at or below the k-th node, or, for the first node, when
      t lies above every node. */
  lemma SuccessorAt(ids: seq<nat>, t: int, k: nat)
    requires |ids| > 0 && StrictlyIncreasing(ids) && k < |ids|
    ensures SuccessorOf(ids, t) == ids[k] <==>
              (t <= ids[k] && (k == 0 || ids[k - 1] < t)) || (k == 0 && ids[|ids| - 1] < t)
  {
    var r := SuccessorOf(ids, t);
    var j :| 0 <= j < |ids| && ids[j] == r;
    if t <= ids[|ids| - 1] {
      assert t <= r;
      if k > 0 && ids[k - 1] >= t {
        IndexOrder(ids, j, k - 1);
      }
      if t <= ids[k] {
        IndexOrder(ids, j, k);
      }
      if j > 0 {
        assert ids[j - 1] < t;
        if r == ids[k] {
          IndexOrder(ids, j, k);
        }
      }
    }
  }

  /** A node is its own successor. */
  lemma SuccessorOfMember(ids: seq<nat>, k: nat)
    requires |ids| > 0 && StrictlyIncreasing(ids) && k < |ids|
    ensures SuccessorOf(ids, ids[k]) == ids[k]
  {
    SuccessorAt(ids, ids[k], k);
  }

  /** Finger 0 of the k-th node is the next node clockwise. */
  lemma FirstFingerIsNext(bits: nat, ids: seq<nat>, k: nat)
    requires ValidRing(bits, ids) && bits >= 1 && k < |ids|
    ensures FingerTableOf(bits, ids, ids[k])[0] == ids[Next(ids, k)]
  {
    var t := FingerStart(bits, ids[k], 0);
    assert FingerTableOf(bits, ids, ids[k])[0] == SuccessorOf(ids, t);
    assert Pow2(0) == 1;
    if ids[k] + 1 < Pow2(bits) {
      FromIntIdentity(bits, ids[k] + 1);
      assert t == ids[k] + 1;
    } else {
      ModUnique(ids[k] + 1, Pow2(bits), 1, 0);
      assert t == 0;
    }
    if k + 1 < |ids| {
      SuccessorAt(ids, t, k + 1);
    } else {
      SuccessorAt(ids, t, 0);
    }
  }

  /** Ownership: a position t lies in the interval (predecessor, node] of the
      k-th node exactly when that node is the successor of t; on a ring of
      one node that interval is empty. */
  lemma Ownership(bits: nat, ids: seq<nat>, k: nat, t: nat)
    requires ValidRing(bits, ids) && k < |ids| && InRange(bits, t)
    ensures IsBetween(bits, t, PredecessorOf(ids, ids[k]), ids[k]) <==>
              |ids| >= 2 && SuccessorOf(ids, t) == ids[k]
  {
    PredecessorAt(ids, k);
    var p := PredecessorOf(ids, ids[k]);
    IsBetweenSplit(bits, t, p, ids[k]);
    SuccessorAt(ids, t, k);
    if |ids| == 1 {
      IsBetweenEmpty(bits, t, ids[k]);
    }
  }

  /** No other node lies in the interval (predecessor, node]: the predecessor
      is the node immediately before it in circular order. */
  lemma PredecessorIsAdjacent(bits: nat, ids: seq<nat>, k: nat, j: nat)
    requires ValidRing(bits, ids) && k < |ids| && j < |ids|
    requires IsBetween(bits, ids[j], PredecessorOf(ids, ids[k]), ids[k])
    ensures j == k
  {
    Ownership(bits, ids, k, ids[j]);
    SuccessorOfMember(ids, j);
  }

  /** The successor of the position just after the k-th node has the k-th
      node as its predecessor. */
  lemma PredecessorOfNext(ids: seq<nat>, k: nat)
    requires |ids| > 0 && StrictlyIncreasing(ids) && k < |ids|
    ensures PredecessorOf(ids, ids[Next(ids, k)]) == ids[k]
  {
    if k + 1 < |ids| {
      PredecessorAt(ids, k + 1);
    } else {
      PredecessorAt(ids, 0);
    }
  }
}
