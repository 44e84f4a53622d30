/**
 Polynomials over GF(2) and the shift register that divides by one of them.

 The cyclic redundancy checks of section 4.5 of the SD Physical Layer Simplified
 Specification are remainders of polynomial division. This module defines products and
 remainders without mentioning a shift register, and proves that the register computes
 them and which errors it detects.
 */
module Gf2 {

  /** The coefficients of a polynomial, highest power first. */
  type Poly = seq<bool>

  function Zeros(n: nat): Poly {
    seq(n, _ => false)
  }

  function Xor(a: Poly, b: Poly): (r: Poly)
    requires |a| == |b|
    ensures |r| == |a|
    ensures forall i {:trigger r[i]} :: 0 <= i < |a| ==> r[i] == (a[i] != b[i])
  {
    seq(|a|, i requires 0 <= i < |a| => a[i] != b[i])
  }

  predicate IsZero(a: Poly) {
    forall i :: 0 <= i < |a| ==> !a[i]
  }

  predicate At(q: Poly, i: int) {
    0 <= i < |q| && q[i]
  }

  /** The sum of g[j'] * q[k - j'] over j' >= j: at j == 0, coefficient k of the product. */
  predicate Convolve(q: Poly, g: Poly, k: int, j: nat)
    requires j <= |g|
    decreases |g| - j
  {
    j < |g| && ((g[j] && At(q, k - j)) != Convolve(q, g, k, j + 1))
  }

  /** The product of two polynomials. */
  function Mul(q: Poly, g: Poly): (p: Poly)
    requires g != []
    ensures |p| == |q| + |g| - 1
    ensures forall k {:trigger p[k]} :: 0 <= k < |p| ==> p[k] == Convolve(q, g, k, 0)
  {
    seq(|q| + |g| - 1, k requires 0 <= k < |q| + |g| - 1 => Convolve(q, g, k, 0))
  }

  /** A generator: both its leading and its constant coefficient are one. */
  predicate IsGenerator(g: Poly) {
    |g| >= 2 && g[0] && g[|g| - 1]
  }

  /** `m` followed by as many zeros as the generator's degree: m(x) * x^degree. */
  function Shifted(g: Poly, m: Poly): Poly
    requires IsGenerator(g)
  {
    m + Zeros(|g| - 1)
  }

  /** m(x) * x^degree == q(x) * g(x) + r(x), and r has a lower degree than g. */
  predicate Divides(g: Poly, m: Poly, q: Poly, r: Poly)
    requires IsGenerator(g)
  {
    |q| == |m| && |r| == |g| - 1 && Shifted(g, m) == Xor(Mul(q, g), Zeros(|m|) + r)
  }

  // ---------------------------------------------------------------- the shift register

  /** One clock of the register: the bit leaving it, plus the input, is fed back into the taps. */
  function Clock(g: Poly, r: Poly, b: bool): (r': Poly)
    requires IsGenerator(g) && |r| == |g| - 1
    ensures |r'| == |r|
    ensures forall i {:trigger r'[i]} :: 0 <= i < |r| ==> r'[i] == (At(r, i + 1) != ((r[0] != b) && g[i + 1]))
  {
    seq(|r|, i requires 0 <= i < |r| => At(r, i + 1) != ((r[0] != b) && g[i + 1]))
  }

  /** The register after `m` went through it, starting from zero. */
  function Register(g: Poly, m: Poly): (r: Poly)
    requires IsGenerator(g)
    ensures |r| == |g| - 1
  {
    if m == [] then Zeros(|g| - 1)
    else Clock(g, Register(g, m[..|m| - 1]), m[|m| - 1])
  }

  /** The bits fed back while `m` went through the register. */
  function Quotient(g: Poly, m: Poly): (q: Poly)
    requires IsGenerator(g)
    ensures |q| == |m|
  {
    if m == [] then []
    else Quotient(g, m[..|m| - 1]) + [Register(g, m[..|m| - 1])[0] != m[|m| - 1]]
  }

  // ---------------------------------------------------------------- products

  /** Appending a bit to a factor adds one shifted copy of the generator. */
  lemma {:induction false} ConvolveSnoc(q: Poly, v: bool, g: Poly, k: int, j: nat)
    requires j <= |g|
    ensures Convolve(q + [v], g, k, j) == (Convolve(q, g, k, j) != (v && j <= k - |q| < |g| && g[k - |q|]))
    decreases |g| - j
  {
    if j < |g| {
      ConvolveSnoc(q, v, g, k, j + 1);
    }
  }

  lemma {:induction false} ConvolveXor(a: Poly, b: Poly, g: Poly, k: int, j: nat)
    requires |a| == |b| && j <= |g|
    ensures Convolve(Xor(a, b), g, k, j) == (Convolve(a, g, k, j) != Convolve(b, g, k, j))
    decreases |g| - j
  {
    if j < |g| {
      ConvolveXor(a, b, g, k, j + 1);
    }
  }

  lemma MulXor(a: Poly, b: Poly, g: Poly)
    requires |a| == |b| && g != []
    ensures Mul(Xor(a, b), g) == Xor(Mul(a, g), Mul(b, g))
  {
    forall k | 0 <= k < |a| + |g| - 1
      ensures Mul(Xor(a, b), g)[k] == Xor(Mul(a, g), Mul(b, g))[k]
    {
      ConvolveXor(a, b, g, k, 0);
    }
  }

  /** Where `q` is zero over the whole span of the generator, so is the product. */
  lemma {:induction false} ConvolveZero(q: Poly, g: Poly, k: int, j: nat)
    requires j <= |g|
    requires forall p :: k - |g| < p <= k - j ==> !At(q, p)
    ensures !Convolve(q, g, k, j)
    decreases |g| - j
  {
    if j < |g| {
      ConvolveZero(q, g, k, j + 1);
    }
  }

  /** Only the term j == last survives when every earlier one multiplies a zero of `q`. */
  lemma {:induction false} ConvolveLast(q: Poly, g: Poly, k: int, j: nat)
    requires j < |g|
    requires forall p :: k - |g| + 1 < p <= k - j ==> !At(q, p)
    ensures Convolve(q, g, k, j) == (g[|g| - 1] && At(q, k - (|g| - 1)))
    decreases |g| - j
  {
    if j < |g| - 1 {
      ConvolveLast(q, g, k, j + 1);
    }
  }

  // ---------------------------------------------------------------- the register divides

  /** The register holds the remainder: for every message, m * x^degree == quotient * g + register. */
  lemma {:induction false} RegisterDivides(g: Poly, m: Poly)
    requires IsGenerator(g)
    ensures Divides(g, m, Quotient(g, m), Register(g, m))
  {
    var q, r, d := Quotient(g, m), Register(g, m), |g| - 1;
    if m == [] {
      forall k | 0 <= k < d
        ensures Shifted(g, m)[k] == Xor(Mul(q, g), Zeros(|m|) + r)[k]
      {
        ConvolveZero(q, g, k, 0);
      }
    } else {
      var n := |m| - 1;
      RegisterDivides(g, m[..n]);
      forall k | 0 <= k < |m| + d
        ensures Shifted(g, m)[k] == (Mul(q, g)[k] != (Zeros(|m|) + r)[k])
      {
        NextCoefficient(g, m[..n], m[n], Quotient(g, m[..n]), Register(g, m[..n]), k);
        assert m[..n] + [m[n]] == m;
      }
      assert Shifted(g, m) == Xor(Mul(q, g), Zeros(|m|) + r);
    }
  }

  /** Division by one more bit: coefficient k of the new dividend. */
  lemma NextCoefficient(g: Poly, m: Poly, b: bool, q: Poly, r: Poly, k: nat)
    requires IsGenerator(g) && Divides(g, m, q, r) && k < |m| + |g|
    ensures Shifted(g, m + [b])[k] == (Mul(q + [r[0] != b], g)[k] != (Zeros(|m| + 1) + Clock(g, r, b))[k])
  {
    var n, v, p := |m|, r[0] != b, Mul(q, g);
    assert Shifted(g, m) == Xor(p, Zeros(n) + r);
    ConvolveSnoc(q, v, g, k, 0);
    if k < n {
      assert m[k] == Shifted(g, m)[k] == p[k];
    } else if k < n + |g| - 1 {
      assert false == Shifted(g, m)[k] == (p[k] != r[k - n]);
    } else {
      ConvolveZero(q, g, k, 0);
    }
  }

  /** Division leaves one quotient and one remainder. */
  lemma {:induction false} DivisionIsUnique(g: Poly, m: Poly, q: Poly, r: Poly, q': Poly, r': Poly)
    requires IsGenerator(g)
    requires Divides(g, m, q, r) && Divides(g, m, q', r')
    ensures q == q' && r == r'
  {
    var e := Xor(q, q');
    MulXor(q, q', g);
    forall k | 0 <= k < |m| + |g| - 1
      ensures Mul(e, g)[k] == (k >= |m| && r[k - |m|] != r'[k - |m|])
    {
      assert Shifted(g, m)[k] == (Mul(q, g)[k] != (Zeros(|m|) + r)[k]);
      assert Shifted(g, m)[k] == (Mul(q', g)[k] != (Zeros(|m|) + r')[k]);
    }
    LeadingZeros(e, g, |m|);
    assert q == q' by {
      forall k | 0 <= k < |q|
        ensures q[k] == q'[k]
      {
        assert !e[k];
      }
    }
    forall k | 0 <= k < |g| - 1
      ensures r[k] == r'[k]
    {
      assert !Mul(e, g)[|m| + k] by { ConvolveZero(e, g, |m| + k, 0); }
    }
  }

  /** A product whose first n coefficients vanish has a factor whose first n coefficients vanish. */
  lemma {:induction false} LeadingZeros(q: Poly, g: Poly, n: nat)
    requires IsGenerator(g) && n <= |q|
    requires forall k :: 0 <= k < n ==> !Mul(q, g)[k]
    ensures forall k :: 0 <= k < n ==> !q[k]
  {
    if n > 0 {
      LeadingZeros(q, g, n - 1);
      assert !Mul(q, g)[n - 1];
      ConvolveZero(q, g, n - 1, 1);
    }
  }

  /** A product whose last n coefficients vanish has a factor whose last n coefficients vanish. */
  lemma {:induction false} TrailingZeros(q: Poly, g: Poly, n: nat)
    requires IsGenerator(g) && n <= |q|
    requires forall k :: |q| + |g| - 1 - n <= k < |q| + |g| - 1 ==> !Mul(q, g)[k]
    ensures forall k :: |q| - n <= k < |q| ==> !q[k]
  {
    if n > 0 {
      TrailingZeros(q, g, n - 1);
      var top := |q| + |g| - 1 - n;
      assert !Mul(q, g)[top];
      ConvolveLast(q, g, top, 0);
    }
  }

  // ---------------------------------------------------------------- error detection

  /** Set bits only at positions from..from + width - 1. */
  predicate Burst(e: Poly, from: int, width: nat) {
    forall i :: 0 <= i < |e| && e[i] ==> from <= i < from + width
  }

  /** A non-zero multiple of the generator spans more bits than the generator's degree. */
  lemma MultiplesAreWide(q: Poly, g: Poly, from: int)
    requires IsGenerator(g)
    requires Burst(Mul(q, g), from, |g| - 1)
    ensures IsZero(Mul(q, g))
  {
    var d := |g| - 1;
    var lead := if from < 0 then 0 else if from > |q| then |q| else from;
    LeadingZeros(q, g, lead);
    TrailingZeros(q, g, |q| - lead);
    assert IsZero(q);
    forall k | 0 <= k < |q| + d
      ensures !Mul(q, g)[k]
    {
      ConvolveZero(q, g, k, 0);
    }
  }

  /** The receiver's check still passes after the error `em` in the message and `ec` in the check bits. */
  predicate Undetected(g: Poly, m: Poly, em: Poly, ec: Poly)
    requires IsGenerator(g) && |em| == |m| && |ec| == |g| - 1
  {
    Register(g, Xor(m, em)) == Xor(Register(g, m), ec)
  }

  /** An error is missed exactly when it is a multiple of the generator. */
  lemma UndetectedIffMultiple(g: Poly, m: Poly, em: Poly, ec: Poly)
    requires IsGenerator(g) && |em| == |m| && |ec| == |g| - 1
    ensures Undetected(g, m, em, ec) <==> exists q: Poly :: |q| == |m| && Mul(q, g) == em + ec
  {
    var m' := Xor(m, em);
    RegisterDivides(g, m);
    RegisterDivides(g, m');
    var q, r, q', r' := Quotient(g, m), Register(g, m), Quotient(g, m'), Register(g, m');
    if Undetected(g, m, em, ec) {
      DifferenceIsMultiple(g, m, q, r, em, q', ec);
    }
    if w: Poly :| |w| == |m| && Mul(w, g) == em + ec {
      MultipleShifts(g, m, q, r, em, w, ec);
      DivisionIsUnique(g, m', q', r', Xor(q, w), Xor(r, ec));
    }
  }

  /** Two dividends whose remainders differ as their check bits do differ by a multiple of the generator. */
  lemma DifferenceIsMultiple(g: Poly, m: Poly, q: Poly, r: Poly, em: Poly, q': Poly, ec: Poly)
    requires IsGenerator(g) && |em| == |m| && |ec| == |r|
    requires Divides(g, m, q, r) && Divides(g, Xor(m, em), q', Xor(r, ec))
    ensures Mul(Xor(q, q'), g) == em + ec
  {
    MulXor(q, q', g);
    hide Mul;
    forall k | 0 <= k < |m| + |g| - 1
      ensures Mul(Xor(q, q'), g)[k] == (em + ec)[k]
    {
      assert Shifted(g, m)[k] == (Mul(q, g)[k] != (Zeros(|m|) + r)[k]);
      assert Shifted(g, Xor(m, em))[k] == (Mul(q', g)[k] != (Zeros(|m|) + Xor(r, ec))[k]);
    }
  }

  /** Adding a multiple of the generator to a dividend and its remainder keeps the division. */
  lemma MultipleShifts(g: Poly, m: Poly, q: Poly, r: Poly, em: Poly, w: Poly, ec: Poly)
    requires IsGenerator(g) && |em| == |m| && |ec| == |r| && |w| == |q|
    requires Divides(g, m, q, r) && Mul(w, g) == em + ec
    ensures Divides(g, Xor(m, em), Xor(q, w), Xor(r, ec))
  {
    MulXor(q, w, g);
    hide Mul;
    forall k | 0 <= k < |m| + |g| - 1
      ensures Shifted(g, Xor(m, em))[k] == Xor(Mul(Xor(q, w), g), Zeros(|m|) + Xor(r, ec))[k]
    {
      assert Shifted(g, m)[k] == (Mul(q, g)[k] != (Zeros(|m|) + r)[k]);
    }
  }

  /** Every non-empty error burst no wider than the generator's degree is detected, wherever it falls. */
  lemma BurstDetected(g: Poly, m: Poly, em: Poly, ec: Poly, from: int)
    requires IsGenerator(g) && |em| == |m| && |ec| == |g| - 1
    requires Burst(em + ec, from, |g| - 1) && !IsZero(em + ec)
    ensures !Undetected(g, m, em, ec)
  {
    UndetectedIffMultiple(g, m, em, ec);
    if q: Poly :| |q| == |m| && Mul(q, g) == em + ec {
      MultiplesAreWide(q, g, from);
    }
  }

  /** Appending the check bits makes the register end at zero. */
  lemma CodewordIsZero(g: Poly, m: Poly)
    requires IsGenerator(g)
    ensures IsZero(Register(g, m + Register(g, m)))
  {
    var c := m + Register(g, m);
    var d := |g| - 1;
    RegisterDivides(g, m);
    RegisterDivides(g, c);
    var q := Quotient(g, m) + Zeros(d);
    forall k | 0 <= k < |c| + d
      ensures Shifted(g, c)[k] == Xor(Mul(q, g), Zeros(|c|) + Zeros(d))[k]
    {
      ConvolvePad(Quotient(g, m), d, g, k, 0);
      if k < |m| + d {
        assert Shifted(g, m)[k] == Xor(Mul(Quotient(g, m), g), Zeros(|m|) + Register(g, m))[k];
      } else {
        ConvolveZero(Quotient(g, m), g, k, 0);
      }
    }
    assert Divides(g, c, q, Zeros(d));
    DivisionIsUnique(g, c, Quotient(g, c), Register(g, c), q, Zeros(d));
  }

  lemma {:induction false} ConvolvePad(q: Poly, n: nat, g: Poly, k: int, j: nat)
    requires j <= |g|
    ensures Convolve(q + Zeros(n), g, k, j) == Convolve(q, g, k, j)
    decreases |g| - j
  {
    if j < |g| {
      ConvolvePad(q, n, g, k, j + 1);
    }
  }

  // ---------------------------------------------------------------- parity

  /** Whether an odd number of bits is set. */
  predicate Odd(a: Poly) {
    a != [] && (a[|a| - 1] != Odd(a[..|a| - 1]))
  }

  lemma {:induction false} OddXor(a: Poly, b: Poly)
    requires |a| == |b|
    ensures Odd(Xor(a, b)) == (Odd(a) != Odd(b))
  {
    if a != [] {
      var n := |a| - 1;
      assert Xor(a, b)[..n] == Xor(a[..n], b[..n]);
      OddXor(a[..n], b[..n]);
    }
  }

  lemma {:induction false} OddConcat(a: Poly, b: Poly)
    ensures Odd(a + b) == (Odd(a) != Odd(b))
  {
    if b == [] {
      assert a + b == a;
    } else {
      assert (a + b)[..|a + b| - 1] == a + b[..|b| - 1];
      OddConcat(a, b[..|b| - 1]);
    }
  }

  lemma {:induction false} OddZeros(n: nat)
    ensures !Odd(Zeros(n))
  {
    if n > 0 {
      assert Zeros(n)[..n - 1] == Zeros(n - 1);
      OddZeros(n - 1);
    }
  }

  /** One clock changes the parity by the parity of its input when the generator has an even number of terms. */
  lemma ClockParity(g: Poly, r: Poly, b: bool)
    requires IsGenerator(g) && !Odd(g) && |r| == |g| - 1
    ensures Odd(Clock(g, r, b)) == (Odd(r) != b)
  {
    var v := r[0] != b;
    var shifted := r[1..] + [false];
    var taps := if v then g[1..] else Zeros(|r|);
    assert Clock(g, r, b) == Xor(shifted, taps);
    OddXor(shifted, taps);
    OddConcat(r[1..], [false]);
    OddConcat([r[0]], r[1..]);
    assert [r[0]] + r[1..] == r;
    OddConcat([g[0]], g[1..]);
    assert [g[0]] + g[1..] == g;
    OddZeros(|r|);
  }

  /** The register's parity is the parity of everything that went through it. */
  lemma {:induction false} RegisterParity(g: Poly, m: Poly)
    requires IsGenerator(g) && !Odd(g)
    ensures Odd(Register(g, m)) == Odd(m)
  {
    if m == [] {
      OddZeros(|g| - 1);
    } else {
      RegisterParity(g, m[..|m| - 1]);
      ClockParity(g, Register(g, m[..|m| - 1]), m[|m| - 1]);
    }
  }

  /** Every error with an odd number of flipped bits is detected. */
  lemma OddErrorDetected(g: Poly, m: Poly, em: Poly, ec: Poly)
    requires IsGenerator(g) && !Odd(g) && |em| == |m| && |ec| == |g| - 1
    requires Odd(em + ec)
    ensures !Undetected(g, m, em, ec)
  {
    RegisterParity(g, m);
    RegisterParity(g, Xor(m, em));
    OddXor(m, em);
    OddXor(Register(g, m), ec);
    OddConcat(em, ec);
  }
}
