/** Identifiers of an m-bit Chord ring: integers reduced modulo 2^bits, with
    modular addition and subtraction and the circular half-open interval test.
    The bit length is an explicit parameter of every operation. */
module Identifiers {

  /** 2^n. */
  function Pow2(n: nat): (r: nat)
    ensures r >= 1
  {
    if n == 0 then 1 else 2 * Pow2(n - 1)
  }

  lemma {:induction false} Pow2Add(a: nat, b: nat)
    ensures Pow2(a + b) == Pow2(a) * Pow2(b)
  {
    if a > 0 {
      Pow2Add(a - 1, b);
      assert Pow2(a + b) == 2 * Pow2(a - 1 + b);
    }
  }

  /** A value of the identifier space for bit length `bits`. */
  predicate InRange(bits: nat, x: int) {
    0 <= x < Pow2(bits)
  }

  lemma MulAtLeast(d: int, m: int)
    requires d >= 1 && m > 0
    ensures d * m >= m
  {
    assert d * m == (d - 1) * m + m;
  }

  /** Euclidean division is determined by its defining equation. */
  lemma ModUnique(v: int, m: int, q: int, r: int)
    requires m > 0 && 0 <= r < m && v == q * m + r
    ensures v % m == r && v / m == q
  {
    var q', r' := v / m, v % m;
    assert (q - q') * m == r' - r;
    if q > q' {
      MulAtLeast(q - q', m);
      assert false;
    } else if q < q' {
      MulAtLeast(q' - q, m);
      assert false;
    }
  }

  /** new Identifier(BigInteger): the value reduced modulo 2^bits. Like
      BigInteger.mod, the result is never negative. */
  function FromInt(bits: nat, v: int): (r: nat)
    ensures InRange(bits, r)
    ensures (v - r) % Pow2(bits) == 0
  {
    var m := Pow2(bits);
    ModUnique(v - v % m, m, v / m, 0);
    v % m
  }

  /** add(BigInteger) and add(Identifier): modular addition. */
  function Add(bits: nat, a: nat, b: int): (r: nat)
    ensures InRange(bits, r)
    ensures (a + b - r) % Pow2(bits) == 0
  {
    FromInt(bits, a + b)
  }

  /** subtract(BigInteger) and subtract(Identifier): modular subtraction. */
  function Subtract(bits: nat, a: nat, b: int): (r: nat)
    ensures InRange(bits, r)
    ensures (a - b - r) % Pow2(bits) == 0
  {
    FromInt(bits, a - b)
  }

  /** Reducing a value that is already an identifier leaves it unchanged. */
  lemma FromIntIdentity(bits: nat, v: int)
    requires InRange(bits, v)
    ensures FromInt(bits, v) == v
  {
    ModUnique(v, Pow2(bits), 0, v);
  }

  /** Adding back what was subtracted restores the identifier. */
  lemma AddSubtractRoundTrip(bits: nat, a: nat, b: int)
    requires InRange(bits, a)
    ensures Add(bits, Subtract(bits, a, b), b) == a
  {
    var m := Pow2(bits);
    var s := Subtract(bits, a, b);
    ModUnique(a - b, m, (a - b) / m, s);
    ModUnique(s + b, m, -((a - b) / m), a);
  }

  /** Subtracting what was added restores the identifier. */
  lemma SubtractAddRoundTrip(bits: nat, a: nat, b: int)
    requires InRange(bits, a)
    ensures Subtract(bits, Add(bits, a, b), b) == a
  {
    var m := Pow2(bits);
    var s := Add(bits, a, b);
    ModUnique(a + b, m, (a + b) / m, s);
    ModUnique(s - b, m, (a + b) / m * -1, a);
  }

  /** The clockwise distance from a to a + b is b, for b inside the ring. */
  lemma AddDistance(bits: nat, a: nat, b: nat)
    requires InRange(bits, a) && InRange(bits, b)
    ensures Subtract(bits, Add(bits, a, b), a) == b
  {
    var m := Pow2(bits);
    var s := Add(bits, a, b);
    ModUnique(a + b, m, (a + b) / m, s);
    ModUnique(s - a, m, -((a + b) / m), b);
  }

  /** 2^n grows strictly with n. */
  lemma Pow2Below(i: nat, n: nat)
    requires i < n
    ensures Pow2(i) < Pow2(n)
  {
    Pow2Add(i, n - i);
    assert Pow2(n - i) == 2 * Pow2(n - i - 1);
  }

  /** The difference of two identifiers, wrapped once through 2^bits when negative. */
  lemma SubtractInRange(bits: nat, a: nat, b: nat)
    requires InRange(bits, a) && InRange(bits, b)
    ensures Subtract(bits, a, b) == if a >= b then a - b else a - b + Pow2(bits)
  {
    var m := Pow2(bits);
    if a >= b {
      ModUnique(a - b, m, 0, a - b);
    } else {
      ModUnique(a - b, m, -1, a - b + m);
    }
  }

  /** x.isBetween(left, right): x lies in the circular interval (left, right],
      tested as 0 < (x - left) mod 2^bits <= (right - left) mod 2^bits. */
  predicate IsBetween(bits: nat, x: nat, left: nat, right: nat) {
    var idGap := Subtract(bits, x, left);
    var rightGap := Subtract(bits, right, left);
    0 < idGap && idGap <= rightGap
  }

  /** The same interval, split at the wrap-around point: for left < right it is
      the linear interval (left, right]; for left > right it runs from left up
      through 2^bits - 1 and on from 0 to right; for left == right it is empty. */
  lemma {:induction false} IsBetweenSplit(bits: nat, x: nat, left: nat, right: nat)
    requires InRange(bits, x) && InRange(bits, left) && InRange(bits, right)
    ensures IsBetween(bits, x, left, right) <==>
              (left < right && left < x <= right) || (right < left && (left < x || x <= right))
  {
    SubtractInRange(bits, x, left);
    SubtractInRange(bits, right, left);
  }

  /** When both bounds coincide the interval is empty, whatever the bounds. */
  lemma IsBetweenEmpty(bits: nat, x: nat, bound: nat)
    ensures !IsBetween(bits, x, bound, bound)
  {
  }

  /** The interval is closed on the right and open on the left. */
  lemma IsBetweenBounds(bits: nat, left: nat, right: nat)
    requires InRange(bits, left) && InRange(bits, right) && left != right
    ensures IsBetween(bits, right, left, right)
    ensures !IsBetween(bits, left, left, right)
  {
    IsBetweenSplit(bits, right, left, right);
    IsBetweenSplit(bits, left, left, right);
  }

  /** The two arcs (left, right] and (right, left] split the rest of the ring:
      every other identifier lies in exactly one of them. */
  lemma IsBetweenCircular(bits: nat, x: nat, left: nat, right: nat)
    requires InRange(bits, x) && InRange(bits, left) && InRange(bits, right)
    requires left != right && x != left && x != right
    ensures IsBetween(bits, x, left, right) != IsBetween(bits, x, right, left)
  {
    IsBetweenSplit(bits, x, left, right);
    IsBetweenSplit(bits, x, right, left);
  }

  /** Of two points other than left, the one reached first walking clockwise
      from left lies in the interval from left to the other. */
  lemma IsBetweenOrder(bits: nat, x: nat, y: nat, left: nat)
    requires InRange(bits, x) && InRange(bits, y) && InRange(bits, left)
    requires x != left && y != left
    ensures IsBetween(bits, x, left, y) || IsBetween(bits, y, left, x)
  {
    IsBetweenSplit(bits, x, left, y);
    IsBetweenSplit(bits, y, left, x);
  }

  /** A point strictly inside (left, target] is strictly closer to target,
      measured clockwise, than left is. */
  lemma IsBetweenCloser(bits: nat, x: nat, left: nat, target: nat)
    requires InRange(bits, x) && InRange(bits, left) && InRange(bits, target)
    requires IsBetween(bits, x, left, target)
    ensures Subtract(bits, target, x) < Subtract(bits, target, left)
  {
    IsBetweenSplit(bits, x, left, target);
    SubtractInRange(bits, target, x);
    SubtractInRange(bits, target, left);
  }

  /** compareTo: the sign of the comparison of the two integer values. */
  function CompareTo(a: nat, b: nat): (r: int)
    ensures -1 <= r <= 1
    ensures r < 0 <==> a < b
    ensures r == 0 <==> a == b
  {
    if a < b then -1 else if a == b then 0 else 1
  }

  /** equals: two identifiers are equal iff their integer values are. */
  function Equals(a: nat, b: nat): (r: bool)
    ensures r <==> CompareTo(a, b) == 0
  {
    a == b
  }

  /** compareTo is a total order consistent with equals, as the TreeMap of the
      ring requires. */
  lemma CompareToIsTotalOrder(a: nat, b: nat, c: nat)
    ensures CompareTo(a, b) == -CompareTo(b, a)
    ensures CompareTo(a, b) <= 0 && CompareTo(b, c) <= 0 ==> CompareTo(a, c) <= 0
    ensures Equals(a, b) <==> a == b
  {
  }

  newtype byte = x: int | 0 <= x < 256

  /** new BigInteger(1, bytes): the bytes read as an unsigned big-endian number. */
  function Unsigned(bytes: seq<byte>): (r: nat)
    decreases |bytes|
  {
    if |bytes| == 0 then 0
    else Unsigned(bytes[..|bytes| - 1]) * 256 + bytes[|bytes| - 1] as nat
  }

  lemma {:induction false} UnsignedBound(bytes: seq<byte>)
    ensures Unsigned(bytes) < Pow2(8 * |bytes|)
    decreases |bytes|
  {
    if |bytes| > 0 {
      var n := |bytes|;
      UnsignedBound(bytes[..n - 1]);
      Pow2Add(8 * (n - 1), 8);
      assert Pow2(8) == 256;
      var u := Unsigned(bytes[..n - 1]);
      assert u * 256 <= (Pow2(8 * (n - 1)) - 1) * 256;
    }
  }

  lemma MulMonotone(x: int, y: int, p: int)
    requires x <= y && p >= 0
    ensures x * p <= y * p
  {
    assert y * p == x * p + (y - x) * p;
  }

  /** A value below b * p, divided by p, is below b. */
  lemma DivBelow(v: nat, p: nat, b: nat)
    requires p > 0 && v < b * p
    ensures 0 <= v / p < b
  {
    ModUnique(v, p, v / p, v % p);
    if v / p >= b {
      MulMonotone(b, v / p, p);
      assert false;
    }
  }

  lemma ShiftStep(u: int, p: int, c: int, d: int)
    ensures (u * p + c) * 256 + d == u * (p * 256) + (c * 256 + d)
  {
  }

  /** Appending bytes shifts the value of the prefix left by eight bits per byte. */
  lemma {:induction false} UnsignedAppend(a: seq<byte>, b: seq<byte>)
    ensures Unsigned(a + b) == Unsigned(a) * Pow2(8 * |b|) + Unsigned(b)
    decreases |b|
  {
    if |b| == 0 {
      assert a + b == a;
    } else {
      var n := |b|;
      assert (a + b)[..|a + b| - 1] == a + b[..n - 1];
      assert (a + b)[|a + b| - 1] == b[n - 1];
      assert Unsigned(a + b) == Unsigned(a + b[..n - 1]) * 256 + b[n - 1] as nat;
      UnsignedAppend(a, b[..n - 1]);
      Pow2Add(8 * (n - 1), 8);
      assert Pow2(8) == 256;
      assert 8 * n == 8 * (n - 1) + 8;
      ShiftStep(Unsigned(a), Pow2(8 * (n - 1)), Unsigned(b[..n - 1]), b[n - 1] as nat);
    }
  }

  /** A value below w, multiplied by p > 0, is below w * p. */
  lemma MulBelow(v: nat, w: nat, p: nat)
    requires v < w && p > 0
    ensures v * p < w * p
  {
    MulMonotone(v + 1, w, p);
    assert (v + 1) * p == v * p + p;
  }

  /** The hash constructor, given the digest: digest >> (8 * digestLength - bits).
      A negative shift distance, when bits exceeds the digest width, shifts left. */
  function FromDigest(bits: nat, digest: seq<byte>): (r: nat)
    ensures InRange(bits, r)
  {
    FromDigestBound(bits, digest);
    var width := 8 * |digest|;
    if bits <= width then Unsigned(digest) / Pow2(width - bits)
    else Unsigned(digest) * Pow2(bits - width)
  }

  lemma FromDigestBound(bits: nat, digest: seq<byte>)
    ensures var width := 8 * |digest|;
            if bits <= width then 0 <= Unsigned(digest) / Pow2(width - bits) < Pow2(bits)
            else 0 <= Unsigned(digest) * Pow2(bits - width) < Pow2(bits)
  {
    var width := 8 * |digest|;
    UnsignedBound(digest);
    if bits <= width {
      ShiftRightBound(Unsigned(digest), bits, width - bits);
    } else {
      ShiftLeftBound(Unsigned(digest), width, bits - width);
    }
  }

  lemma ShiftRightBound(value: nat, bits: nat, shift: nat)
    requires value < Pow2(bits + shift)
    ensures 0 <= value / Pow2(shift) < Pow2(bits)
  {
    Pow2Add(bits, shift);
    DivBelow(value, Pow2(shift), Pow2(bits));
  }

  lemma ShiftLeftBound(value: nat, width: nat, shift: nat)
    requires value < Pow2(width)
    ensures 0 <= value * Pow2(shift) < Pow2(width + shift)
  {
    Pow2Add(width, shift);
    MulBelow(value, Pow2(width), Pow2(shift));
    MulMonotone(0, value, Pow2(shift));
  }

  /** When bits is a whole number of bytes, the hash-derived identifier is the
      value of the leading bits / 8 bytes of the digest: its high-order bits. */
  lemma FromDigestLeadingBytes(bits: nat, digest: seq<byte>)
    requires bits % 8 == 0 && bits <= 8 * |digest|
    ensures FromDigest(bits, digest) == Unsigned(digest[..bits / 8])
  {
    var k := bits / 8;
    var head, tail := digest[..k], digest[k..];
    assert digest == head + tail;
    UnsignedAppend(head, tail);
    UnsignedBound(tail);
    assert 8 * |tail| == 8 * |digest| - bits;
    ModUnique(Unsigned(digest), Pow2(8 * |tail|), Unsigned(head), Unsigned(tail));
  }
}
