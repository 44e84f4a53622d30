/** Octets and 16-bit words, and the bits they are sent as. */
module Octets {
  import opened Gf2

  type octet = bv8

  const JUNK: octet := 0xFF

  function Repeat(o: octet, n: nat): (s: seq<octet>)
    ensures |s| == n
    ensures forall i {:trigger s[i]} :: 0 <= i < n ==> s[i] == o
  {
    seq(n, _ => o)
  }

  /** The bits of an octet in the order they are sent, most significant first. */
  function OctetBits(o: octet): (p: Poly)
    ensures |p| == 8
  {
    [o & 0x80 != 0, o & 0x40 != 0, o & 0x20 != 0, o & 0x10 != 0,
     o & 0x08 != 0, o & 0x04 != 0, o & 0x02 != 0, o & 0x01 != 0]
  }

  function MessageBits(m: seq<octet>): (p: Poly)
    ensures |p| == 8 * |m|
  {
    if m == [] then [] else MessageBits(m[..|m| - 1]) + OctetBits(m[|m| - 1])
  }

  function High(w: bv16): octet {
    (w >> 8) as octet
  }

  function Low(w: bv16): octet {
    (w & 0xFF) as octet
  }

  /** The 16-bit word with the given high and low octets. */
  function Join(hi: octet, lo: octet): (w: bv16)
    ensures High(w) == hi && Low(w) == lo
  {
    ((hi as bv16) << 8) | lo as bv16
  }

  /** The bits of a 16-bit word, most significant first. */
  function WordBits(w: bv16): (p: Poly)
    ensures |p| == 16
  {
    OctetBits(High(w)) + OctetBits(Low(w))
  }

  /** The octet has the given bits. */
  predicate HasOctetBits(o: octet, p: Poly)
    requires |p| == 8
  {
    && (o & 0x80 != 0) == p[0] && (o & 0x40 != 0) == p[1] && (o & 0x20 != 0) == p[2] && (o & 0x10 != 0) == p[3]
    && (o & 0x08 != 0) == p[4] && (o & 0x04 != 0) == p[5] && (o & 0x02 != 0) == p[6] && (o & 0x01 != 0) == p[7]
  }

  lemma BitsOfOctet(o: octet, p: Poly)
    requires |p| == 8 && HasOctetBits(o, p)
    ensures OctetBits(o) == p
  {
  }

  lemma OctetBitsInjective(a: octet, b: octet)
    requires OctetBits(a) == OctetBits(b)
    ensures a == b
  {
    var p, q := OctetBits(a), OctetBits(b);
    assert p[0] == q[0] && p[1] == q[1] && p[2] == q[2] && p[3] == q[3];
    assert p[4] == q[4] && p[5] == q[5] && p[6] == q[6] && p[7] == q[7];
  }

  lemma JoinSplit(w: bv16)
    ensures Join(High(w), Low(w)) == w
  {
  }

  lemma WordBitsInjective(a: bv16, b: bv16)
    requires WordBits(a) == WordBits(b)
    ensures a == b
  {
    SplitBits(OctetBits(High(a)), OctetBits(Low(a)), OctetBits(High(b)), OctetBits(Low(b)));
    OctetBitsInjective(High(a), High(b));
    OctetBitsInjective(Low(a), Low(b));
    JoinSplit(a);
    JoinSplit(b);
  }

  lemma SplitBits(a: Poly, b: Poly, c: Poly, d: Poly)
    requires a + b == c + d && |a| == |c|
    ensures a == c && b == d
  {
    assert (a + b)[..|a|] == a && (a + b)[|a|..] == b;
    assert (c + d)[..|c|] == c && (c + d)[|c|..] == d;
  }

  lemma {:induction false} MessageBitsConcat(a: seq<octet>, b: seq<octet>)
    ensures MessageBits(a + b) == MessageBits(a) + MessageBits(b)
  {
    if b == [] {
      assert a + b == a;
    } else {
      assert (a + b)[..|a + b| - 1] == a + b[..|b| - 1];
      MessageBitsConcat(a, b[..|b| - 1]);
    }
  }

  lemma {:induction false} MessageBit(m: seq<octet>, k: nat, i: nat)
    requires k < |m| && i < 8
    ensures MessageBits(m)[8 * k + i] == OctetBits(m[k])[i]
  {
    if k < |m| - 1 {
      MessageBit(m[..|m| - 1], k, i);
    }
  }

  lemma {:induction false} MessageBitsInjective(a: seq<octet>, b: seq<octet>)
    requires MessageBits(a) == MessageBits(b)
    ensures a == b
  {
    if a != [] {
      var n := |a| - 1;
      SplitBits(MessageBits(a[..n]), OctetBits(a[n]), MessageBits(b[..n]), OctetBits(b[n]));
      MessageBitsInjective(a[..n], b[..n]);
      OctetBitsInjective(a[n], b[n]);
      assert a == a[..n] + [a[n]] && b == b[..n] + [b[n]];
    }
  }

  // ---------------------------------------------------------------- numbers in binary

  function Pow2(k: nat): (p: nat)
    ensures p > 0
  {
    if k == 0 then 1 else 2 * Pow2(k - 1)
  }

  /** The low `width` bits of a number, most significant first. */
  function Binary(n: nat, width: nat): (p: Poly)
    ensures |p| == width
    decreases width
  {
    if width == 0 then [] else Binary(n / 2, width - 1) + [n % 2 == 1]
  }

  /** A number in binary is its high part followed by its low part. */
  lemma {:induction false} BinaryJoin(n: nat, u: nat, k: nat, a: nat, b: nat)
    requires n == Pow2(b) * u + k && k < Pow2(b)
    ensures Binary(n, a + b) == Binary(u, a) + Binary(k, b)
    decreases b
  {
    if b > 0 {
      Halve(n, u, k, Pow2(b - 1));
      BinaryJoin(n / 2, u, k / 2, a, b - 1);
      assert Binary(n, a + b) == Binary(n / 2, a + (b - 1)) + [n % 2 == 1];
    }
  }

  /** What lies above the low bits does not show in them. */
  lemma {:induction false} BinaryLow(n: nat, u: nat, k: nat, b: nat)
    requires n == Pow2(b) * u + k
    ensures Binary(n, b) == Binary(k, b)
    decreases b
  {
    if b > 0 {
      Halve(n, u, k, Pow2(b - 1));
      BinaryLow(n / 2, u, k / 2, b - 1);
    }
  }

  /** Cutting a number in binary in two. */
  lemma BinaryCut(n: nat, q: nat, r: nat, a: nat, b: nat)
    requires n == Pow2(b) * q + r && r < Pow2(b)
    ensures Binary(n, a + b) == Binary(q, a) + Binary(n, b)
  {
    BinaryJoin(n, q, r, a, b);
    BinaryLow(n, q, r, b);
  }

  lemma Halve(n: nat, u: nat, k: nat, e: nat)
    requires n == 2 * e * u + k
    ensures n / 2 == e * u + k / 2 && n % 2 == k % 2
  {
    assert 2 * e * u == 2 * (e * u);
  }
}
