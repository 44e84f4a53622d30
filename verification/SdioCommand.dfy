/**
 The six-octet commands of `transport/sdio_over_spi.c`, preceded by one junk octet, and
 their reading by a card: CMD52 and CMD53 of sections 5.1 and 5.3 of the SDIO Simplified
 Specification.
 */
module SdioCommand {
  import opened Crc
  import opened Gf2
  import opened Octets

  const CMD_HDR_LEN: nat := 7
  const CMD_HDR_EXTRA_LEN: nat := 13

  function If(b: bool, n: nat): (r: nat)
    ensures r <= n
  {
    if b then n else 0
  }

  function Mask(b: bool, o: octet): octet {
    if b then o else 0
  }

  predicate Bit(n: nat, weight: nat)
    requires weight > 0
  {
    n / weight % 2 == 1
  }

  /** An unsigned value truncated to an octet. */
  function Truncate(n: nat): octet {
    Mask(Bit(n, 128), 0x80) | Mask(Bit(n, 64), 0x40) | Mask(Bit(n, 32), 0x20) | Mask(Bit(n, 16), 0x10) |
    Mask(Bit(n, 8), 0x08) | Mask(Bit(n, 4), 0x04) | Mask(Bit(n, 2), 0x02) | Mask(Bit(n, 1), 0x01)
  }

  function Nibble(b3: bool, b2: bool, b1: bool, b0: bool): (n: nat)
    ensures n < 16
  {
    If(b3, 8) + If(b2, 4) + If(b1, 2) + If(b0, 1)
  }

  /** The unsigned value of an octet. */
  function Value(o: octet): (n: nat)
    ensures n < 256
  {
    16 * Nibble(o & 0x80 != 0, o & 0x40 != 0, o & 0x20 != 0, o & 0x10 != 0) +
    Nibble(o & 0x08 != 0, o & 0x04 != 0, o & 0x02 != 0, o & 0x01 != 0)
  }

  lemma BitsOfTruncate(n: nat)
    ensures var o := Truncate(n);
            && (o & 0x80 != 0) == Bit(n, 128) && (o & 0x40 != 0) == Bit(n, 64)
            && (o & 0x20 != 0) == Bit(n, 32) && (o & 0x10 != 0) == Bit(n, 16)
            && (o & 0x08 != 0) == Bit(n, 8) && (o & 0x04 != 0) == Bit(n, 4)
            && (o & 0x02 != 0) == Bit(n, 2) && (o & 0x01 != 0) == Bit(n, 1)
  {
    hide Bit;
  }

  /** The low eight bits of a number add up to its remainder by 256. */
  lemma SumOfBits(n: nat)
    ensures n % 256 == 16 * Nibble(Bit(n, 128), Bit(n, 64), Bit(n, 32), Bit(n, 16)) +
                       Nibble(Bit(n, 8), Bit(n, 4), Bit(n, 2), Bit(n, 1))
  {
    hide Bit;
    BitStep(n, 128);
    BitStep(n, 64);
    BitStep(n, 32);
    BitStep(n, 16);
    BitStep(n, 8);
    BitStep(n, 4);
    BitStep(n, 2);
    BitStep(n, 1);
  }

  lemma BitStep(n: nat, weight: nat)
    requires weight > 0
    ensures n % (2 * weight) == If(Bit(n, weight), weight) + n % weight
  {
    var q, r := n / weight, n % weight;
    assert n == weight * q + r;
    assert q == 2 * (q / 2) + q % 2;
    assert n == (2 * weight) * (q / 2) + (weight * (q % 2) + r);
    assert weight * (q % 2) + r < 2 * weight;
    UniqueRemainder(n, 2 * weight, q / 2, weight * (q % 2) + r);
  }

  lemma UniqueRemainder(n: nat, d: nat, q: nat, r: nat)
    requires r < d && n == d * q + r
    ensures n % d == r
  {
    var k := n / d - q;
    assert d * k == r - n % d;
  }

  lemma ValueOfTruncate(n: nat)
    ensures Value(Truncate(n)) == n % 256
  {
    BitsOfTruncate(n);
    SumOfBits(n);
    hide Truncate, Bit, If, Nibble;
  }

  lemma NibbleIsInjective(a3: bool, a2: bool, a1: bool, a0: bool, b3: bool, b2: bool, b1: bool, b0: bool)
    requires Nibble(a3, a2, a1, a0) == Nibble(b3, b2, b1, b0)
    ensures a3 == b3 && a2 == b2 && a1 == b1 && a0 == b0
  {
  }

  lemma ValueIsInjective(a: octet, b: octet)
    requires Value(a) == Value(b)
    ensures a == b
  {
    hide Nibble;
    NibbleIsInjective(a & 0x80 != 0, a & 0x40 != 0, a & 0x20 != 0, a & 0x10 != 0,
                      b & 0x80 != 0, b & 0x40 != 0, b & 0x20 != 0, b & 0x10 != 0);
    NibbleIsInjective(a & 0x08 != 0, a & 0x04 != 0, a & 0x02 != 0, a & 0x01 != 0,
                      b & 0x08 != 0, b & 0x04 != 0, b & 0x02 != 0, b & 0x01 != 0);
  }

  lemma TruncateOfValue(o: octet)
    ensures Truncate(Value(o)) == o
  {
    hide *;
    ValueOfTruncate(Value(o));
    ValueIsInjective(Truncate(Value(o)), o);
  }

  // ---------------------------------------------------------------- building commands

  /** The last octet of a command: its CRC7 and the stop bit. */
  function CrcOctet(command: seq<octet>): octet {
    (Crc7(command) << 1) | 1
  }

  /** A junk octet, then start and direction bits, command, four argument octets, CRC7 and stop bit. */
  function Header(cmd: nat, a: seq<octet>): (h: seq<octet>)
    requires |a| == 4
    ensures |h| == CMD_HDR_LEN
  {
    var command := [Truncate(64 + cmd % 64)] + a;
    [JUNK] + command + [CrcOctet(command)]
  }

  /** CMD52: direction, function, 17-bit register address and data. */
  function Cmd52Args(write: bool, func: nat, addr: nat, data: octet): (a: seq<octet>)
    ensures |a| == 4
  {
    [Truncate(func * 16 + addr / 32768 + If(write, 128)), Truncate(addr / 128), Truncate(addr * 2), data]
  }

  /** CMD53: direction, function, block mode, incrementing address, 16-bit address and 9-bit count. */
  function Cmd53Args(write: bool, func: nat, blockMode: bool, addr: nat, count: nat): (a: seq<octet>)
    ensures |a| == 4
  {
    var low := addr % 65536;
    [Truncate(func * 16 + If(write, 128) + If(blockMode, 8) + 4 + low / 32768),
     Truncate(low / 128),
     Truncate(low * 2 % 256 + count / 256 % 2),
     Truncate(count)]
  }

  // ---------------------------------------------------------------- reading commands

  datatype Command =
    | Direct(write: bool, func: nat, addr: nat, data: octet)
    | Extended(write: bool, func: nat, blockMode: bool, increment: bool, addr: nat, count: nat)
    | Unreadable

  /** The fields of a command, from the values of its first five octets. */
  function Fields(v1: nat, v2: nat, v3: nat, v4: nat, v5: nat, data: octet): Command {
    var write, func, addr := v2 / 128 == 1, v2 / 16 % 8, v2 % 4 * 32768 + v3 * 128 + v4 / 2;
    if v1 == 64 + 52 then Direct(write, func, addr, data)
    else if v1 == 64 + 53 then
      Extended(write, func, v2 / 8 % 2 == 1, v2 / 4 % 2 == 1, addr, v4 % 2 * 256 + v5)
    else Unreadable
  }

  /** A command with its CRC7, as a polynomial remainder, and its stop bit. */
  predicate Checked(h: seq<octet>) {
    |h| >= CMD_HDR_LEN && OctetBits(h[6]) == Register(G7, MessageBits(h[1..6])) + [true]
  }

  /** What a card makes of the octets after the chip select: it insists on the CRC7 and the stop bit. */
  function Decode(h: seq<octet>): (c: Command)
    ensures !c.Unreadable? ==> Checked(h)
  {
    if !Checked(h) then Unreadable
    else Fields(Value(h[1]), Value(h[2]), Value(h[3]), Value(h[4]), Value(h[5]), h[5])
  }

  /** The last octet of a command: the remainder of its first 40 bits by x^7 + x^3 + 1, and a set bit. */
  lemma CrcOctetBits(command: seq<octet>)
    ensures OctetBits(CrcOctet(command)) == Register(G7, MessageBits(command)) + [true]
  {
    Crc7IsRemainder(command);
    var o := Crc7(command);
    hide Crc7, Register, MessageBits;
    assert OctetBits((o << 1) | 1) == SevenBits(o) + [true];
  }

  /** A header with anything after it reads as the command it was built from. */
  lemma HeaderReads(cmd: nat, a: seq<octet>, rest: seq<octet>)
    requires |a| == 4
    ensures var h := Header(cmd, a) + rest;
            && Checked(h)
            && h[1] == Truncate(64 + cmd % 64)
            && h[2] == a[0] && h[3] == a[1] && h[4] == a[2] && h[5] == a[3]
  {
    hide CrcOctet, Truncate, OctetBits, Register, MessageBits;
    var h := Header(cmd, a) + rest;
    assert h[1..6] == [Truncate(64 + cmd % 64)] + a;
    CrcOctetBits(h[1..6]);
  }

  /** A buffer that starts with a header ends the command in the check octet of what is in it. */
  lemma HeaderInBuffer(cmd: nat, a: seq<octet>, buff: seq<octet>)
    requires |a| == 4 && |buff| >= CMD_HDR_LEN && buff[..CMD_HDR_LEN] == Header(cmd, a)
    ensures buff[0] == 0xFF && buff[1..6] == Header(cmd, a)[1..6]
    ensures OctetBits(buff[6]) == Register(G7, MessageBits(buff[1..6])) + [true]
  {
    HeaderReads(cmd, a, []);
    hide *;
    assert Header(cmd, a) + [] == Header(cmd, a);
    assert buff[1..6] == buff[..7][1..6];
  }

  /** The 48 bits of a command. */
  function CommandBits(h: seq<octet>): (p: Poly)
    requires |h| >= CMD_HDR_LEN
    ensures |p| == 48
  {
    MessageBits(h[1..7])
  }

  lemma CommandBitsAre(h: seq<octet>)
    requires |h| >= CMD_HDR_LEN
    ensures CommandBits(h) == MessageBits(h[1..6]) + OctetBits(h[6])
  {
    hide OctetBits;
    assert h[1..7][..5] == h[1..6];
  }

  /** A command that is damaged, but within 7 consecutive of its bits, is never read. */
  lemma DamagedCommandIsUnreadable(h: seq<octet>, h': seq<octet>, from: int)
    requires Checked(h) && |h'| >= CMD_HDR_LEN
    requires !IsZero(Xor(CommandBits(h), CommandBits(h'))) && Burst(Xor(CommandBits(h), CommandBits(h')), from, 7)
    ensures Decode(h') == Unreadable
  {
    hide Register, MessageBits, OctetBits, CommandBits, Fields, Value, IsZero;
    if Checked(h') {
      CommandBitsAre(h);
      CommandBitsAre(h');
      DamageIsDetected(MessageBits(h[1..6]), MessageBits(h'[1..6]), CommandBits(h), CommandBits(h'), from);
    }
  }

  /** Of two different bit strings that both end in their remainder and a set bit, none is the other after one burst. */
  lemma DamageIsDetected(m: Poly, m': Poly, c: Poly, c': Poly, from: int)
    requires IsGenerator(G7) && |G7| == 8 && |m| == |m'|
    requires c == m + (Register(G7, m) + [true]) && c' == m' + (Register(G7, m') + [true])
    requires Burst(Xor(c, c'), from, 7)
    ensures IsZero(Xor(c, c'))
  {
    hide Register;
    var em, ec := Xor(m, m'), Xor(Register(G7, m), Register(G7, m'));
    var e := Xor(c, c');
    assert e == em + ec + [false];
    assert forall i {:trigger (em + ec)[i]} :: 0 <= i < |em + ec| ==> (em + ec)[i] == e[i];
    if !IsZero(em + ec) {
      XorBack(m, m');
      XorBack(Register(G7, m), Register(G7, m'));
      BurstDetected(G7, m, em, ec, from);
    }
    assert forall i {:trigger e[i]} :: 0 <= i < |em + ec| ==> e[i] == (em + ec)[i];
  }

  // ---------------------------------------------------------------- the bits of a command

  lemma TruncateBits(n: nat)
    ensures OctetBits(Truncate(n)) == Binary(n, 8)
  {
    BitsOfTruncate(n);
    hide Truncate;
    EightBits(n);
    hide Bit, Binary;
  }

  lemma EightBits(n: nat)
    ensures Binary(n, 8) == [Bit(n, 128), Bit(n, 64), Bit(n, 32), Bit(n, 16), Bit(n, 8), Bit(n, 4), Bit(n, 2), Bit(n, 1)]
  {
    hide *;
    TwoNibbles(n);
    FourBits(n);
    FourBits(n / 16);
    BitsAbove(n);
  }

  lemma TwoNibbles(n: nat)
    ensures Binary(n, 8) == Binary(n / 16, 4) + Binary(n, 4)
  {
    assert Pow2(4) == 16;
    BinaryCut(n, n / 16, n % 16, 4, 4);
  }

  lemma BitsAbove(n: nat)
    ensures Bit(n / 16, 8) == Bit(n, 128) && Bit(n / 16, 4) == Bit(n, 64)
    ensures Bit(n / 16, 2) == Bit(n, 32) && Bit(n / 16, 1) == Bit(n, 16)
  {
    Halves(n / 16);
    assert n / 16 / 2 == n / 32 && n / 16 / 2 / 2 == n / 64;
    assert n / 64 / 2 == n / 128;
  }

  lemma FourBits(n: nat)
    ensures Binary(n, 4) == [Bit(n, 8), Bit(n, 4), Bit(n, 2), Bit(n, 1)]
  {
    Halves(n);
    assert Binary(n / 8, 1) == [Bit(n, 8)];
    assert Binary(n / 4, 2) == [Bit(n, 8), Bit(n, 4)];
    assert Binary(n / 2, 3) == [Bit(n, 8), Bit(n, 4), Bit(n, 2)];
  }

  lemma Halves(n: nat)
    ensures n / 2 / 2 == n / 4 && n / 4 / 2 == n / 8
  {
  }

  /** An octet in binary is its unsigned value in binary. */
  lemma ValueBits(o: octet)
    ensures OctetBits(o) == Binary(Value(o), 8)
  {
    hide *;
    TruncateOfValue(o);
    TruncateBits(Value(o));
  }

  lemma HeaderBits(cmd: nat, a: seq<octet>)
    requires |a| == 4
    ensures MessageBits(Header(cmd, a)[1..6]) ==
            OctetBits(Truncate(64 + cmd % 64)) + OctetBits(a[0]) + OctetBits(a[1]) + OctetBits(a[2]) + OctetBits(a[3])
  {
    hide Truncate, OctetBits, CrcOctet;
    var o := Truncate(64 + cmd % 64);
    assert Header(cmd, a)[1..6] == [o] + a;
    FiveOctets([o] + a);
  }

  lemma FiveOctets(m: seq<octet>)
    requires |m| == 5
    ensures MessageBits(m) == OctetBits(m[0]) + OctetBits(m[1]) + OctetBits(m[2]) + OctetBits(m[3]) + OctetBits(m[4])
  {
    hide OctetBits;
    assert m[..4][..3] == m[..3] && m[..3][..2] == m[..2] && m[..2][..1] == m[..1] && m[..1][..0] == [];
    assert MessageBits(m[..1]) == OctetBits(m[0]);
    assert MessageBits(m[..2]) == OctetBits(m[0]) + OctetBits(m[1]);
    assert MessageBits(m[..3]) == OctetBits(m[0]) + OctetBits(m[1]) + OctetBits(m[2]);
  }

  /** The start bit, the direction bit and the command. */
  lemma FirstOctet(cmd: nat)
    requires cmd < 64
    ensures Binary(64 + cmd, 8) == [false, true] + Binary(cmd, 6)
  {
    assert Pow2(6) == 64;
    BinaryJoin(64 + cmd, 1, cmd, 2, 6);
    assert Binary(1, 2) == [false, true];
  }

  lemma SecondOctet(write: bool, func: nat, low: nat)
    requires func < 8 && low < 16
    ensures Binary(If(write, 128) + 16 * func + low, 8) == [write] + Binary(func, 3) + Binary(low, 4)
  {
    hide *;
    Flag(write);
    CutAt7(If(write, 128) + 16 * func + low, If(write, 1), 16 * func + low);
    CutAt4(16 * func + low, func, low);
  }

  lemma CutAt7(n: nat, u: nat, k: nat)
    requires n == 128 * u + k && k < 128
    ensures Binary(n, 8) == Binary(u, 1) + Binary(k, 7)
  {
    assert Pow2(7) == 128;
    BinaryJoin(n, u, k, 1, 7);
  }

  lemma CutAt4(n: nat, u: nat, k: nat)
    requires n == 16 * u + k && k < 16
    ensures Binary(n, 7) == Binary(u, 3) + Binary(k, 4)
  {
    assert Pow2(4) == 16;
    BinaryJoin(n, u, k, 3, 4);
  }

  lemma Flag(b: bool)
    ensures If(b, 128) == 128 * If(b, 1) && Binary(If(b, 1), 1) == [b]
  {
  }

  /** A 17-bit address ends up in three octets. */
  lemma AddressBits(addr: nat)
    requires addr < 0x2_0000
    ensures Binary(addr, 17) == Binary(addr / 32768, 2) + Binary(addr / 128, 8) + Binary(addr, 7)
  {
    assert Pow2(7) == 128 && Pow2(8) == 256;
    hide Pow2, Binary;
    HighPart(addr);
    BinaryCut(addr, addr / 128, addr % 128, 10, 7);
    BinaryCut(addr / 128, addr / 128 / 256, addr / 128 % 256, 2, 8);
  }

  lemma FourthOctet(addr: nat, bit: nat)
    requires bit < 2
    ensures Binary(addr * 2 % 256 + bit, 8) == Binary(addr, 7) + [bit == 1]
    ensures bit == 0 ==> Binary(addr * 2, 8) == Binary(addr, 7) + [false]
  {
    var n := addr * 2 % 256 + bit;
    LastAddressOctet(addr, bit);
    HalfOfDouble(addr);
    assert Pow2(7) == 128;
    BinaryLow(addr, addr / 128, addr % 128, 7);
  }

  /**
   The bits of a CMD52 in section 5.1 of the SDIO specification: start and direction, 52, R/W flag,
   function, RAW flag, stuff, address, stuff, data.
   */
  lemma DirectBits(write: bool, func: nat, addr: nat, data: octet)
    requires func < 8 && addr < 0x2_0000
    ensures MessageBits(Header(52, Cmd52Args(write, func, addr, data))[1..6]) ==
            [false, true] + Binary(52, 6) + [write] + Binary(func, 3) + [false, false] + Binary(addr, 17) + [false] + OctetBits(data)
  {
    hide *;
    HeaderBits(52, Cmd52Args(write, func, addr, data));
    TruncateBits(116);
    FirstOctet(52);
    DirectArguments(write, func, addr, data);
    AddressBits(addr);
    RegroupDirect([false, true] + Binary(52, 6), [write] + Binary(func, 3), [false, false], Binary(addr / 32768, 2),
                  Binary(addr / 128, 8), Binary(addr, 7), [false], OctetBits(data));
  }

  lemma DirectArguments(write: bool, func: nat, addr: nat, data: octet)
    requires func < 8 && addr < 0x2_0000
    ensures var a := Cmd52Args(write, func, addr, data);
            && OctetBits(a[0]) == [write] + Binary(func, 3) + ([false, false] + Binary(addr / 32768, 2))
            && OctetBits(a[1]) == Binary(addr / 128, 8)
            && OctetBits(a[2]) == Binary(addr, 7) + [false]
            && a[3] == data
  {
    hide Truncate, OctetBits, Binary, If;
    TruncateBits(func * 16 + addr / 32768 + If(write, 128));
    TruncateBits(addr / 128);
    TruncateBits(addr * 2);
    SecondOctet(write, func, addr / 32768);
    StuffBits(addr / 32768);
    FourthOctet(addr, 0);
  }

  /**
   The bits of a CMD53 in section 5.3 of the SDIO specification: start and direction, 53, R/W flag,
   function, block mode, incrementing address, address, count.
   */
  lemma ExtendedBits(write: bool, func: nat, blockMode: bool, addr: nat, count: nat)
    requires func < 8
    ensures MessageBits(Header(53, Cmd53Args(write, func, blockMode, addr, count))[1..6]) ==
            [false, true] + Binary(53, 6) + [write] + Binary(func, 3) + [blockMode] + [true] +
            Binary(addr % 65536, 17) + Binary(count, 9)
  {
    hide *;
    var low, bit := addr % 65536, count / 256 % 2;
    HeaderBits(53, Cmd53Args(write, func, blockMode, addr, count));
    TruncateBits(117);
    FirstOctet(53);
    ExtendedArguments(write, func, blockMode, addr, count);
    AddressBits(low);
    CountBits(count);
    RegroupExtended([false, true] + Binary(53, 6), [write] + Binary(func, 3), [blockMode, true], Binary(low / 32768, 2),
                    Binary(low / 128, 8), Binary(low, 7), [bit == 1], Binary(count, 8));
  }

  lemma ExtendedArguments(write: bool, func: nat, blockMode: bool, addr: nat, count: nat)
    requires func < 8
    ensures var a, low := Cmd53Args(write, func, blockMode, addr, count), addr % 65536;
            && OctetBits(a[0]) == [write] + Binary(func, 3) + ([blockMode, true] + Binary(low / 32768, 2))
            && OctetBits(a[1]) == Binary(low / 128, 8)
            && OctetBits(a[2]) == Binary(low, 7) + [count / 256 % 2 == 1]
            && OctetBits(a[3]) == Binary(count, 8)
  {
    hide Truncate, OctetBits, Binary, If;
    var low, bit := addr % 65536, count / 256 % 2;
    TruncateBits(func * 16 + If(write, 128) + If(blockMode, 8) + 4 + low / 32768);
    TruncateBits(low / 128);
    TruncateBits(low * 2 % 256 + bit);
    TruncateBits(count);
    Flags(blockMode, low / 32768);
    SecondOctet(write, func, If(blockMode, 8) + 4 + low / 32768);
    FlagBits(blockMode, low / 32768);
    FourthOctet(low, bit);
  }

  lemma FlagBits(blockMode: bool, hi: nat)
    requires hi < 2
    ensures Binary(If(blockMode, 8) + 4 + hi, 4) == [blockMode, true] + Binary(hi, 2)
  {
    var n := If(blockMode, 8) + 4 + hi;
    FourBits(n);
    hide If;
    Flags(blockMode, hi);
    assert n % 4 == hi;
    assert Binary(hi, 2) == [false, hi == 1];
  }

  lemma CountBits(count: nat)
    ensures Binary(count, 9) == [count / 256 % 2 == 1] + Binary(count, 8)
  {
    assert Pow2(8) == 256;
    hide Pow2;
    BinaryCut(count, count / 256, count % 256, 1, 8);
    assert Binary(count / 256, 1) == [count / 256 % 2 == 1];
  }

  lemma RegroupExtended(a: Poly, b: Poly, c: Poly, d: Poly, e: Poly, f: Poly, g: Poly, h: Poly)
    requires |c| == 2
    ensures a + (b + (c + d)) + e + (f + g) + h == a + b + [c[0]] + [c[1]] + (d + e + f) + (g + h)
  {
  }

  lemma StuffBits(hi: nat)
    requires hi < 4
    ensures Binary(hi, 4) == [false, false] + Binary(hi, 2)
  {
    assert hi / 2 / 2 == 0;
  }

  lemma RegroupDirect(a: Poly, b: Poly, c: Poly, d: Poly, e: Poly, f: Poly, g: Poly, h: Poly)
    ensures a + (b + (c + d)) + e + (f + g) + h == a + b + c + (d + e + f) + g + h
  {
  }

  lemma FirstArgument(write: bool, func: nat, flags: nat)
    requires func < 8 && flags < 16
    ensures var v := func * 16 + flags + If(write, 128);
            && v < 256 && (v / 128 == 1 <==> write) && v / 16 % 8 == func
            && v / 8 % 2 == flags / 8 && v / 4 % 2 == flags / 4 % 2 && v % 4 == flags % 4
  {
    var u := If(write, 8) + func;
    assert func * 16 + flags + If(write, 128) == 16 * u + flags;
    Shifts(u, flags);
    assert (u / 8 == 1 <==> write) && u % 8 == func;
  }

  lemma Shifts(u: nat, flags: nat)
    requires u < 16 && flags < 16
    ensures var v := 16 * u + flags;
            v < 256 && v / 16 == u && v / 128 == u / 8 &&
            v / 8 % 2 == flags / 8 && v / 4 % 2 == flags / 4 % 2 && v % 4 == flags % 4
  {
    var v := 16 * u + flags;
    assert v / 8 == 2 * u + flags / 8;
    assert v / 4 == 4 * u + flags / 4;
    assert v / 128 == u / 8;
  }

  lemma Flags(blockMode: bool, hi: nat)
    requires hi < 2
    ensures var flags := If(blockMode, 8) + 4 + hi;
            flags < 16 && (flags / 8 == 1 <==> blockMode) && flags / 4 % 2 == 1 && flags % 4 == hi
  {
  }

  lemma CountOctets(count: nat)
    ensures count % 512 == count / 256 % 2 * 256 + count % 256
  {
  }

  lemma AddressOctets(addr: nat)
    ensures addr == addr / 32768 * 32768 + addr / 128 % 256 * 128 + addr * 2 % 256 / 2
  {
    var q, r := addr / 128, addr % 128;
    assert addr == q * 128 + r;
    HalfOfDouble(addr);
    HighPart(addr);
    assert q == q / 256 * 256 + q % 256;
  }

  lemma HalfOfDouble(addr: nat)
    ensures addr * 2 % 256 / 2 == addr % 128
  {
  }

  lemma HighPart(addr: nat)
    ensures addr / 32768 == addr / 128 / 256
  {
  }

  lemma LastAddressOctet(addr: nat, bit: nat)
    requires bit < 2
    ensures var v := addr * 2 % 256 + bit; v < 256 && v / 2 == addr * 2 % 256 / 2 && v % 2 == bit
  {
    assert addr * 2 % 256 == addr % 128 * 2;
  }

  lemma DirectFields(write: bool, func: nat, addr: nat, v5: nat, data: octet)
    requires func < 8 && addr < 0x20000
    ensures Fields((64 + 52) % 256, (func * 16 + addr / 32768 + If(write, 128)) % 256, addr / 128 % 256, addr * 2 % 256, v5, data)
            == Direct(write, func, addr, data)
  {
    hide Fields, If;
    FirstArgument(write, func, addr / 32768);
    AddressOctets(addr);
    CombineDirect(func * 16 + addr / 32768 + If(write, 128), addr / 128 % 256, addr * 2 % 256, v5, data);
  }

  lemma CombineDirect(v2: nat, v3: nat, v4: nat, v5: nat, data: octet)
    requires v2 < 256
    ensures Fields((64 + 52) % 256, v2 % 256, v3, v4, v5, data) ==
            Direct(v2 / 128 == 1, v2 / 16 % 8, v2 % 4 * 32768 + v3 * 128 + v4 / 2, data)
  {
  }

  lemma ExtendedFields(write: bool, func: nat, blockMode: bool, low: nat, count: nat, data: octet)
    requires func < 8 && low < 65536
    ensures Fields((64 + 53) % 256, (func * 16 + If(write, 128) + If(blockMode, 8) + 4 + low / 32768) % 256,
                   low / 128 % 256, (low * 2 % 256 + count / 256 % 2) % 256, count % 256, data)
            == Extended(write, func, blockMode, true, low, count % 512)
  {
    hide Fields, If;
    var hi := low / 32768;
    var flags := If(blockMode, 8) + 4 + hi;
    Flags(blockMode, hi);
    FirstArgument(write, func, flags);
    AddressOctets(low);
    LastAddressOctet(low, count / 256 % 2);
    CountOctets(count);
    Combine(func * 16 + If(write, 128) + If(blockMode, 8) + 4 + hi, low / 128 % 256,
            low * 2 % 256 + count / 256 % 2, count % 256, data);
  }

  lemma Combine(v2: nat, v3: nat, v4: nat, v5: nat, data: octet)
    requires v2 < 256 && v4 < 256
    ensures Fields((64 + 53) % 256, v2 % 256, v3, v4 % 256, v5, data) ==
            Extended(v2 / 128 == 1, v2 / 16 % 8, v2 / 8 % 2 == 1, v2 / 4 % 2 == 1,
                     v2 % 4 * 32768 + v3 * 128 + v4 / 2, v4 % 2 * 256 + v5)
  {
  }

  /** Reading a CMD52 gives back its direction, function, register address and data. */
  lemma DirectRoundTrip(write: bool, func: nat, addr: nat, data: octet, rest: seq<octet>)
    requires func < 8 && addr < 0x20000
    ensures Decode(Header(52, Cmd52Args(write, func, addr, data)) + rest) == Direct(write, func, addr, data)
  {
    hide CrcOctet, Truncate, Value, Header, Fields;
    HeaderReads(52, Cmd52Args(write, func, addr, data), rest);
    ValueOfTruncate(64 + 52);
    ValueOfTruncate(func * 16 + addr / 32768 + If(write, 128));
    ValueOfTruncate(addr / 128);
    ValueOfTruncate(addr * 2);
    DirectFields(write, func, addr, Value(data), data);
  }

  /** Reading a CMD53 gives back every field; a count of 512 is sent as 0. */
  lemma ExtendedRoundTrip(write: bool, func: nat, blockMode: bool, addr: nat, count: nat, rest: seq<octet>)
    requires func < 8
    ensures Decode(Header(53, Cmd53Args(write, func, blockMode, addr, count)) + rest) ==
            Extended(write, func, blockMode, true, addr % 65536, count % 512)
  {
    hide CrcOctet, Truncate, Value, Header, Fields;
    var low := addr % 65536;
    HeaderReads(53, Cmd53Args(write, func, blockMode, addr, count), rest);
    ValueOfTruncate(64 + 53);
    ValueOfTruncate(func * 16 + If(write, 128) + If(blockMode, 8) + 4 + low / 32768);
    ValueOfTruncate(low / 128);
    ValueOfTruncate(low * 2 % 256 + count / 256 % 2);
    ValueOfTruncate(count);
    ExtendedFields(write, func, blockMode, low, count, Truncate(count));
  }

  // ---------------------------------------------------------------- the program's own code

  lemma PackedOctets(data: seq<octet>)
    requires |data| == 5
    ensures NumberOctets(Packed(data), 5) == data
  {
    PackedOctet(data);
    hide NumberOctet, Packed;
  }

  function Packed(data: seq<octet>): bv64
    requires |data| == 5
  {
    ((data[0] as bv64) << 32) | ((data[1] as bv64) << 24) | ((data[2] as bv64) << 16) |
    ((data[3] as bv64) << 8) | (data[4] as bv64)
  }

  lemma PackedOctet(data: seq<octet>)
    requires |data| == 5
    ensures var n := Packed(data);
            NumberOctet(n, 32) == data[0] && NumberOctet(n, 24) == data[1] && NumberOctet(n, 16) == data[2] &&
            NumberOctet(n, 8) == data[3] && NumberOctet(n, 0) == data[4]
  {
  }

  /** sdio_over_spi_calc_cmd_crc_octet: the five octets are packed into a number first. */
  method CalcCmdCrcOctet(data: seq<octet>) returns (o: octet)
    requires |data| == 5
    ensures o == CrcOctet(data) && OctetBits(o) == Register(G7, MessageBits(data)) + [true]
  {
    CrcOctetBits(data);
    hide OctetBits, Register, MessageBits;
    PackedOctets(data);
    var crc7 := Crc7Gen(Packed(data), 8 * 5);
    o := (crc7 << 1) | 1;
  }
}
