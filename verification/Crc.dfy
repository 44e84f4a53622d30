/**
 The cyclic redundancy checks of `utilities.c`.

 `Crc16` and `Crc7` are the remainders of section 4.5 of the SD Physical Layer Simplified
 Specification; the two methods compute them with the program's registers, one of them
 never masked and the other masked once per octet.
 */
module Crc {
  import opened Gf2
  import opened Octets

  /** x^16 + x^12 + x^5 + 1 */
  const G16: Poly :=
    [true, false, false, false, true, false, false, false,
     false, false, false, true, false, false, false, false, true]

  /** x^7 + x^3 + 1 */
  const G7: Poly := [true, false, false, false, true, false, false, true]

  // ---------------------------------------------------------------- CRC16

  function Low16(c: bv32): bv16 {
    (c & 0xFFFF) as bv16
  }

  /** One round of the program's 32-bit register. */
  function Round(c: bv32, v: bv32): bv32 {
    ((c ^ ((v << 4) | (v << 11))) << 1) | v
  }

  /** A round of a 16-bit register. */
  function Next16(r: bv16, fb: bool): bv16 {
    (r << 1) ^ (if fb then 0x1021 else 0)
  }

  /** The register's low 16 bits after a round do not depend on the bits above them. */
  lemma RoundLow(c: bv32, v: bv32)
    requires v == 0 || v == 1
    ensures Low16(Round(c, v)) == Next16(Low16(c), v == 1)
  {
  }

  /** The word has the given bits, most significant first. */
  predicate HasBits(w: bv16, p: Poly) {
    && |p| == 16
    && (w & 0x8000 != 0) == p[0] && (w & 0x4000 != 0) == p[1] && (w & 0x2000 != 0) == p[2] && (w & 0x1000 != 0) == p[3]
    && (w & 0x0800 != 0) == p[4] && (w & 0x0400 != 0) == p[5] && (w & 0x0200 != 0) == p[6] && (w & 0x0100 != 0) == p[7]
    && (w & 0x0080 != 0) == p[8] && (w & 0x0040 != 0) == p[9] && (w & 0x0020 != 0) == p[10] && (w & 0x0010 != 0) == p[11]
    && (w & 0x0008 != 0) == p[12] && (w & 0x0004 != 0) == p[13] && (w & 0x0002 != 0) == p[14] && (w & 0x0001 != 0) == p[15]
  }

  lemma BitsOfHalves(w: bv16, p: Poly)
    requires HasBits(w, p)
    ensures HasOctetBits(High(w), p[..8]) && HasOctetBits(Low(w), p[8..])
  {
  }

  lemma BitsOfWord(w: bv16, p: Poly)
    requires |p| == 16 && HasBits(w, p)
    ensures WordBits(w) == p
  {
    BitsOfHalves(w, p);
    hide HasBits, HasOctetBits, OctetBits, High, Low;
    BitsOfOctet(High(w), p[..8]);
    BitsOfOctet(Low(w), p[8..]);
    assert p == p[..8] + p[8..];
  }

  /** `c` is `s` after a clock of the x^16 + x^12 + x^5 + 1 register that feeds `fb` back. */
  predicate AfterClock(s: Poly, fb: bool, c: Poly)
    requires |s| == 16 && |c| == 16
  {
    && c[0] == s[1] && c[1] == s[2] && c[2] == s[3] && c[3] == (s[4] != fb)
    && c[4] == s[5] && c[5] == s[6] && c[6] == s[7] && c[7] == s[8]
    && c[8] == s[9] && c[9] == s[10] && c[10] == (s[11] != fb) && c[11] == s[12]
    && c[12] == s[13] && c[13] == s[14] && c[14] == s[15] && c[15] == fb
  }

  lemma ClockOfG16(s: Poly, b: bool)
    requires |s| == 16
    ensures IsGenerator(G16) && |G16| == 17
    ensures |Clock(G16, s, b)| == 16 && AfterClock(s, s[0] != b, Clock(G16, s, b))
  {
  }

  lemma NextBits(r: bv16, s: Poly, fb: bool, c: Poly)
    requires |s| == 16 && |c| == 16
    requires HasBits(r, s) && AfterClock(s, fb, c)
    ensures HasBits(Next16(r, fb), c)
  {
  }

  lemma FeedbackBit(c: bv32, s: Poly, b: bool, v: bv32)
    requires |s| == 16 && HasBits(Low16(c), s)
    requires v == (Bit32(b) ^ (c >> 15)) & 1
    ensures v == 0 || v == 1
    ensures (v == 1) == (s[0] != b)
  {
    assert ((c >> 15) & 1 == 1) == (Low16(c) & 0x8000 != 0);
  }

  lemma WordClock(r: bv16, s: Poly, b: bool)
    requires |s| == 16 && HasBits(r, s)
    ensures IsGenerator(G16) && |G16| == 17
    ensures HasBits(Next16(r, s[0] != b), Clock(G16, s, b))
  {
    hide *;
    ClockOfG16(s, b);
    NextBits(r, s, s[0] != b, Clock(G16, s, b));
  }

  /** A round is one clock of the dividing register, whatever the bits above the low 16 hold. */
  lemma RoundIsClock(c: bv32, s: Poly, b: bool, v: bv32)
    requires |s| == 16 && HasBits(Low16(c), s)
    requires v == (Bit32(b) ^ (c >> 15)) & 1
    ensures IsGenerator(G16) && |G16| == 17
    ensures HasBits(Low16(Round(c, v)), Clock(G16, s, b))
  {
    hide *;
    FeedbackBit(c, s, b, v);
    RoundLow(c, v);
    WordClock(Low16(c), s, b);
  }

  function Bit32(b: bool): bv32 {
    if b then 1 else 0
  }

  /** The program's 32-bit register after one more bit, nothing masked. */
  function Absorb(crc: bv32, b: bool): bv32 {
    Round(crc, (Bit32(b) ^ (crc >> 15)) & 1)
  }

  function RawRegister(bits: Poly): bv32 {
    if bits == [] then 0 else Absorb(RawRegister(bits[..|bits| - 1]), bits[|bits| - 1])
  }

  /** The check word of a block of octets. */
  function Crc16(m: seq<octet>): bv16 {
    Low16(RawRegister(MessageBits(m)))
  }

  /** The low half of the unmasked register is the dividing register. */
  lemma {:induction false} RawRegisterDivides(bits: Poly)
    ensures HasBits(Low16(RawRegister(bits)), Register(G16, bits))
  {
    if bits != [] {
      var n := |bits| - 1;
      var crc := RawRegister(bits[..n]);
      RawRegisterDivides(bits[..n]);
      RoundIsClock(crc, Register(G16, bits[..n]), bits[n], (Bit32(bits[n]) ^ (crc >> 15)) & 1);
    }
  }

  /** The check word holds the remainder of m(x) * x^16 by x^16 + x^12 + x^5 + 1. */
  lemma Crc16IsRemainder(m: seq<octet>)
    ensures WordBits(Crc16(m)) == Register(G16, MessageBits(m))
    ensures exists q :: Divides(G16, MessageBits(m), q, WordBits(Crc16(m)))
  {
    RawRegisterDivides(MessageBits(m));
    BitsOfWord(Crc16(m), Register(G16, MessageBits(m)));
    RegisterDivides(G16, MessageBits(m));
  }

  lemma AbsorbNext(bits: Poly, n: nat, crc: bv32)
    requires n < |bits| && crc == RawRegister(bits[..n])
    ensures Absorb(crc, bits[n]) == RawRegister(bits[..n + 1])
  {
    assert bits[..n + 1][..n] == bits[..n];
  }

  lemma AbsorbOctetBit(o: octet, jj: nat, crc: bv32)
    requires jj < 8
    ensures Round(crc, (((o >> jj) as bv32) ^ (crc >> 15)) & 1) == Absorb(crc, OctetBits(o)[7 - jj])
  {
  }

  lemma AbsorbMessageBit(m: seq<octet>, ii: nat, jj: nat, n: nat, crc: bv32)
    requires ii < |m| && jj < 8 && n == 8 * ii + (7 - jj)
    ensures Round(crc, (((m[ii] >> jj) as bv32) ^ (crc >> 15)) & 1) == Absorb(crc, MessageBits(m)[n])
  {
    hide *;
    MessageBit(m, ii, 7 - jj);
    AbsorbOctetBit(m[ii], jj, crc);
  }

  /** crc16_gen: the register is 32 bits wide and only its low half is returned. */
  method Crc16Gen(buff: seq<octet>) returns (crc16: bv16)
    ensures crc16 == Crc16(buff)
  {
    hide OctetBits, MessageBits, Absorb, Low16;
    var crc: bv32 := 0;
    var bitCount := |buff| * 8;
    ghost var bits, n := MessageBits(buff), 0;
    var ii := 0;
    while ii < |buff|
      invariant 0 <= ii <= |buff|
      invariant n == 8 * ii && n + bitCount == 8 * |buff|
      invariant crc == RawRegister(bits[..n])
    {
      // Most significant bit first.
      var jj := 7;
      while jj >= 0
        invariant -1 <= jj <= 7
        invariant n == 8 * ii + (7 - jj) && n + bitCount == 8 * |buff|
        invariant crc == RawRegister(bits[..n])
      {
        AbsorbMessageBit(buff, ii, jj, n, crc);
        AbsorbNext(bits, n, crc);
        var val := (((buff[ii] >> jj) as bv32) ^ (crc >> 15)) & 0x1;
        crc := crc ^ ((val << 4) | (val << 11));
        crc := (crc << 1) | val;
        bitCount, n := bitCount - 1, n + 1;
        if bitCount == 0 {
          break;
        }
        jj := jj - 1;
      }
      if bitCount == 0 {
        break;
      }
      ii := ii + 1;
    }
    assert bits[..n] == bits;
    crc16 := Low16(crc);
  }

  /** crc16_check: whether the received check word is the one computed from the block. */
  method Crc16Check(buff: seq<octet>, crc16: bv16) returns (ok: bool)
    ensures ok <==> crc16 == Crc16(buff)
  {
    var buffCrc16 := Crc16Gen(buff);
    ok := crc16 == buffCrc16;
  }

  // ---------------------------------------------------------------- CRC7

  /** The 7-bit register after one more bit. */
  function Step7(r: bv32, b: bool): bv32 {
    ((r << 1) ^ (if (r & 0x40 != 0) != b then 9 else 0)) & 0x7F
  }

  function Register7(bits: Poly): bv32 {
    if bits == [] then 0 else Step7(Register7(bits[..|bits| - 1]), bits[|bits| - 1])
  }

  /** The seven check bits of a block of octets, in the low bits of an octet. */
  function Crc7(m: seq<octet>): octet {
    Low7(Register7(MessageBits(m)))
  }

  function SevenBits(o: octet): (p: Poly)
    ensures |p| == 7
  {
    [o & 0x40 != 0, o & 0x20 != 0, o & 0x10 != 0, o & 0x08 != 0, o & 0x04 != 0, o & 0x02 != 0, o & 0x01 != 0]
  }

  predicate HasSevenBits(o: octet, p: Poly) {
    && |p| == 7
    && (o & 0x40 != 0) == p[0] && (o & 0x20 != 0) == p[1] && (o & 0x10 != 0) == p[2] && (o & 0x08 != 0) == p[3]
    && (o & 0x04 != 0) == p[4] && (o & 0x02 != 0) == p[5] && (o & 0x01 != 0) == p[6]
  }

  function Low7(r: bv32): octet {
    (r & 0x7F) as octet
  }

  lemma {:induction false} Register7Divides(bits: Poly)
    ensures HasSevenBits(Low7(Register7(bits)), Register(G7, bits))
  {
    if bits != [] {
      var n := |bits| - 1;
      Register7Divides(bits[..n]);
    }
  }

  lemma BitsOfSeven(m: seq<octet>)
    requires HasSevenBits(Low7(Register7(MessageBits(m))), Register(G7, MessageBits(m)))
    ensures SevenBits(Crc7(m)) == Register(G7, MessageBits(m))
  {
    HasSeven(Crc7(m), Register(G7, MessageBits(m)));
  }

  lemma HasSeven(o: octet, p: Poly)
    requires HasSevenBits(o, p)
    ensures SevenBits(o) == p
  {
  }

  /** The seven check bits are the remainder of m(x) * x^7 by x^7 + x^3 + 1. */
  lemma Crc7IsRemainder(m: seq<octet>)
    ensures SevenBits(Crc7(m)) == Register(G7, MessageBits(m))
    ensures exists q :: Divides(G7, MessageBits(m), q, SevenBits(Crc7(m)))
  {
    Register7Divides(MessageBits(m));
    BitsOfSeven(m);
    hide SevenBits, HasSevenBits, Crc7;
    RegisterDivides(G7, MessageBits(m));
  }

  /** Octet k of the low n octets of a number, most significant first. */
  function NumberOctet(number: bv64, shift: nat): octet
    requires shift < 64
  {
    ((number >> shift) & 0xFF) as octet
  }

  function NumberOctets(number: bv64, n: nat): (m: seq<octet>)
    requires n <= 8
    ensures |m| == n
  {
    seq(n, k requires 0 <= k < n => NumberOctet(number, 8 * (n - 1 - k)))
  }

  /** The first `left` bits of the octet are the ones of `bits` from n on. */
  predicate Leads(o: octet, bits: Poly, n: nat, left: nat)
    requires left <= 8 && n + left <= |bits|
  {
    OctetBits(o)[..left] == bits[n..n + left]
  }

  lemma ShiftOctet(o: octet)
    ensures OctetBits(o << 1) == OctetBits(o)[1..] + [false]
    ensures OctetBits(o)[0] == (o & 0x80 != 0)
  {
  }

  lemma LeadsNext(o: octet, bits: Poly, n: nat, left: nat)
    requires 0 < left <= 8 && n + left <= |bits| && Leads(o, bits, n, left)
    ensures bits[n] == (o & 0x80 != 0)
    ensures Leads(o << 1, bits, n + 1, left - 1)
  {
    ShiftOctet(o);
    hide OctetBits;
    assert OctetBits(o)[..left][0] == bits[n..n + left][0];
    assert OctetBits(o << 1)[..left - 1] == OctetBits(o)[..left][1..];
    assert bits[n + 1..n + left] == bits[n..n + left][1..];
  }

  lemma {:induction false} LeadsFirst(m: seq<octet>, k: nat)
    requires k < |m|
    ensures Leads(m[k], MessageBits(m), 8 * k, 8)
  {
    hide OctetBits;
    if k < |m| - 1 {
      LeadsFirst(m[..|m| - 1], k);
      assert MessageBits(m)[8 * k..8 * k + 8] == MessageBits(m[..|m| - 1])[8 * k..8 * k + 8];
    } else {
      assert MessageBits(m)[8 * k..8 * k + 8] == OctetBits(m[k]);
    }
  }

  function Mask7(r: bv32): bv32 {
    r & 0x7F
  }

  /** One round of crc7_gen. */
  function Round7(reg: bv32, o: octet): bv32 {
    var shifted := reg << 1;
    if (o as bv32 ^ shifted) & 0x80 > 0 then shifted ^ 9 else shifted
  }

  /** A round keeps the low seven bits in step, whatever the bits above them hold. */
  lemma Round7Low(reg: bv32, o: octet)
    ensures Mask7(Round7(reg, o)) == Step7(Mask7(reg), o & 0x80 != 0)
  {
  }

  lemma MaskedRegister7(bits: Poly)
    ensures Mask7(Register7(bits)) == Register7(bits)
  {
  }

  lemma Register7Next(bits: Poly, n: nat, r: bv32)
    requires n < |bits| && r == Register7(bits[..n])
    ensures Step7(r, bits[n]) == Register7(bits[..n + 1])
  {
    assert bits[..n + 1][..n] == bits[..n];
  }

  lemma Round7Next(reg: bv32, o: octet, bits: Poly, n: nat, left: nat)
    requires 0 < left <= 8 && n + left <= |bits| && Leads(o, bits, n, left)
    requires Mask7(reg) == Register7(bits[..n])
    ensures Mask7(Round7(reg, o)) == Register7(bits[..n + 1])
    ensures Leads(o << 1, bits, n + 1, left - 1)
  {
    hide *;
    LeadsNext(o, bits, n, left);
    Round7Low(reg, o);
    Register7Next(bits, n, Mask7(reg));
  }

  lemma NumberLeads(number: bv64, n: nat, k: nat)
    requires k < n <= 8
    ensures Leads(NumberOctet(number, 8 * (n - 1 - k)), MessageBits(NumberOctets(number, n)), 8 * k, 8)
  {
    hide Leads, NumberOctet, MessageBits;
    LeadsFirst(NumberOctets(number, n), k);
  }

  lemma Register7Zero()
    ensures Register7([]) == 0
  {
  }

  method ShiftIn(reg: bv32, octetVal: octet) returns (regVal: bv32)
    ensures regVal == Round7(reg, octetVal)
  {
    regVal := reg << 1;
    if (octetVal as bv32 ^ regVal) & 0x80 > 0 {
      regVal := regVal ^ 9;
    }
  }

  /** crc7_gen's inner loop: the eight bits of an octet go through the unmasked register. */
  method ShiftInOctet(reg: bv32, octet0: octet, ghost bits: Poly, ghost n: nat) returns (regVal: bv32)
    requires n + 8 <= |bits| && Leads(octet0, bits, n, 8)
    requires Mask7(reg) == Register7(bits[..n])
    ensures Mask7(regVal) == Register7(bits[..n + 8])
  {
    hide *;
    regVal := reg;
    var octetVal := octet0;
    for bitIdx := 0 to 8
      invariant Leads(octetVal, bits, n + bitIdx, 8 - bitIdx)
      invariant Mask7(regVal) == Register7(bits[..n + bitIdx])
    {
      Round7Next(regVal, octetVal, bits, n + bitIdx, 8 - bitIdx);
      regVal := ShiftIn(regVal, octetVal);
      octetVal := octetVal << 1;
    }
  }

  /** crc7_gen: the register is masked only once per octet. */
  method Crc7Gen(number: bv64, bitCount: nat) returns (crc7: octet)
    requires bitCount % 8 == 0 && bitCount <= 64
    ensures crc7 == Crc7(NumberOctets(number, bitCount / 8))
  {
    ghost var octets := bitCount / 8;
    ghost var bits, k := MessageBits(NumberOctets(number, octets)), 0;
    hide MessageBits, NumberOctets, NumberOctet, Leads, Register7;
    Register7Zero();
    var regVal: bv32 := 0;
    var ii := bitCount;
    while ii > 0
      invariant k <= octets && ii == 8 * (octets - k)
      invariant regVal == Register7(bits[..8 * k])
    {
      var shiftVal := ii - 8;
      var octetVal := NumberOctet(number, shiftVal);
      NumberLeads(number, octets, k);
      MaskedRegister7(bits[..8 * k]);
      regVal := ShiftInOctet(regVal, octetVal, bits, 8 * k);
      regVal := Mask7(regVal);
      ii, k := ii - 8, k + 1;
    }
    assert bits[..8 * k] == bits;
    crc7 := Low7(regVal);
  }

  // ---------------------------------------------------------------- what the checks detect

  /** The bits in which a received block and check word differ from the ones sent. */
  function Damage16(m: seq<octet>, m': seq<octet>, crc': bv16): (e: Poly)
    requires |m'| == |m|
    ensures |e| == 8 * |m| + 16
  {
    Xor(MessageBits(m), MessageBits(m')) + Xor(WordBits(Crc16(m)), WordBits(crc'))
  }

  lemma DamageIsSeen(m: seq<octet>, m': seq<octet>, crc': bv16)
    requires |m'| == |m|
    requires IsZero(Damage16(m, m', crc'))
    ensures m' == m && crc' == Crc16(m)
  {
    hide MessageBits, WordBits, Crc16;
    var e := Damage16(m, m', crc');
    var n := 8 * |m|;
    forall i | 0 <= i < n
      ensures MessageBits(m)[i] == MessageBits(m')[i]
    {
      assert !e[i];
    }
    forall i | 0 <= i < 16
      ensures WordBits(Crc16(m))[i] == WordBits(crc')[i]
    {
      assert !e[n + i];
    }
    MessageBitsInjective(m, m');
    WordBitsInjective(Crc16(m), crc');
  }

  lemma XorBack(a: Poly, b: Poly)
    requires |a| == |b|
    ensures Xor(a, Xor(a, b)) == b
  {
  }

  /** A receiver that finds the damaged check word right has missed the damage. */
  lemma PassingIsUndetected(m: seq<octet>, m': seq<octet>, crc': bv16)
    requires |m'| == |m| && Crc16(m') == crc'
    ensures Undetected(G16, MessageBits(m), Xor(MessageBits(m), MessageBits(m')), Xor(WordBits(Crc16(m)), WordBits(crc')))
  {
    Crc16IsRemainder(m);
    Crc16IsRemainder(m');
    hide MessageBits, WordBits, Crc16, Register;
    XorBack(MessageBits(m), MessageBits(m'));
    XorBack(WordBits(Crc16(m)), WordBits(crc'));
  }

  /** Damage confined to 16 consecutive bits of a block and its check word never passes crc16_check. */
  lemma Crc16DetectsBursts(m: seq<octet>, m': seq<octet>, crc': bv16, from: int)
    requires |m'| == |m| && (m' != m || crc' != Crc16(m))
    requires Burst(Damage16(m, m', crc'), from, 16)
    ensures Crc16(m') != crc'
  {
    if Crc16(m') == crc' {
      PassingIsUndetected(m, m', crc');
      hide MessageBits, WordBits, Crc16, Register, IsZero;
      if IsZero(Damage16(m, m', crc')) {
        DamageIsSeen(m, m', crc');
      }
      BurstDetected(G16, MessageBits(m), Xor(MessageBits(m), MessageBits(m')), Xor(WordBits(Crc16(m)), WordBits(crc')), from);
    }
  }

  /** An odd number of damaged bits never passes crc16_check. */
  lemma Crc16DetectsOddDamage(m: seq<octet>, m': seq<octet>, crc': bv16)
    requires |m'| == |m| && Odd(Damage16(m, m', crc'))
    ensures Crc16(m') != crc'
  {
    if Crc16(m') == crc' {
      PassingIsUndetected(m, m', crc');
      G16IsEven();
      hide MessageBits, WordBits, Crc16, Register, Odd;
      OddErrorDetected(G16, MessageBits(m), Xor(MessageBits(m), MessageBits(m')), Xor(WordBits(Crc16(m)), WordBits(crc')));
    }
  }

  lemma G16IsEven()
    ensures !Odd(G16)
  {
    var one: Poly := [true];
    var a, b, c := one + Zeros(3), one + Zeros(6), one + Zeros(4);
    assert G16 == a + b + c + one;
    assert Odd(one) by { assert one[..0] == []; }
    OddZeros(3);
    OddZeros(6);
    OddZeros(4);
    OddConcat(one, Zeros(3));
    OddConcat(one, Zeros(6));
    OddConcat(one, Zeros(4));
    OddConcat(a, b);
    OddConcat(a + b, c);
    OddConcat(a + b + c, one);
  }

  /** A block followed by its check word, high octet first, has check word zero. */
  lemma Crc16OfCodeword(m: seq<octet>)
    ensures Crc16(m + [High(Crc16(m)), Low(Crc16(m))]) == 0
  {
    var c := Crc16(m);
    var w := m + [High(c), Low(c)];
    Crc16IsRemainder(m);
    Crc16IsRemainder(w);
    MessageBitsConcat(m, [High(c), Low(c)]);
    TwoOctets(High(c), Low(c));
    CodewordIsZero(G16, MessageBits(m));
    ZeroWord(Crc16(w));
  }

  lemma TwoOctets(a: octet, b: octet)
    ensures MessageBits([a, b]) == OctetBits(a) + OctetBits(b)
  {
    hide OctetBits;
    assert [a, b][..1] == [a];
    assert [a][..0] == [];
    assert MessageBits([a]) == OctetBits(a);
  }

  lemma ZeroWord(w: bv16)
    requires IsZero(WordBits(w))
    ensures w == 0
  {
    assert WordBits(w) == WordBits(0);
    WordBitsInjective(w, 0);
  }

  /** Damage confined to 7 consecutive bits of a block and its seven check bits is always seen. */
  lemma Crc7DetectsBursts(m: seq<octet>, m': seq<octet>, crc': octet, from: int)
    requires |m'| == |m| && crc' & 0x80 == 0 && (m' != m || crc' != Crc7(m))
    requires Burst(Xor(MessageBits(m), MessageBits(m')) + Xor(SevenBits(Crc7(m)), SevenBits(crc')), from, 7)
    ensures Crc7(m') != crc'
  {
    if Crc7(m') == crc' {
      Crc7IsRemainder(m);
      Crc7IsRemainder(m');
      var em, ec := Xor(MessageBits(m), MessageBits(m')), Xor(SevenBits(Crc7(m)), SevenBits(crc'));
      hide MessageBits, SevenBits, Crc7, Register;
      XorBack(MessageBits(m), MessageBits(m'));
      XorBack(SevenBits(Crc7(m)), SevenBits(crc'));
      if IsZero(em + ec) {
        forall i | 0 <= i < 8 * |m|
          ensures MessageBits(m)[i] == MessageBits(m')[i]
        {
          assert !(em + ec)[i];
        }
        MessageBitsInjective(m, m');
      }
      BurstDetected(G7, MessageBits(m), em, ec, from);
    }
  }
}
