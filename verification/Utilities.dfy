/**
 Numbers in text: printf's %u and %02x, and the conversions of `utilities.c` that read them
 back with strtoul in base 0 and sscanf's %hhx.
 */
module Utilities {
  import opened Options

  const ULONG_MAX: nat := 0xFFFF_FFFF_FFFF_FFFF

  function DigitChar(d: nat): (c: char)
    requires d < 16
    ensures DigitOf(c) == d && !IsSpace(c) && c !in ['=', '#', ':', '-', '+', 'x', 'X']
  {
    if d < 10 then '0' + d as char else 'a' + (d - 10) as char
  }

  /** %u */
  function Decimal(n: nat): (s: string)
    ensures |s| > 0
    ensures forall i {:trigger s[i]} :: 0 <= i < |s| ==> DigitOf(s[i]) < 10
  {
    if n < 10 then [DigitChar(n)] else Decimal(n / 10) + [DigitChar(n % 10)]
  }

  /** %02x */
  function HexOctet(o: nat): (s: string)
    requires o < 256
    ensures |s| == 2 && DigitOf(s[0]) < 16 && DigitOf(s[1]) < 16
  {
    [DigitChar(o / 16), DigitChar(o % 16)]
  }

  predicate IsSpace(c: char) {
    c == ' ' || '\t' <= c <= '\r'
  }

  /** The value of a hexadecimal digit; 16 for any other character. */
  function DigitOf(c: char): (d: nat)
    ensures d <= 16
  {
    if '0' <= c <= '9' then (c - '0') as nat
    else if 'a' <= c <= 'f' then (c - 'a') as nat + 10
    else if 'A' <= c <= 'F' then (c - 'A') as nat + 10
    else 16
  }

  function DropSpaces(s: string): (t: string)
    ensures |t| <= |s| && t == s[|s| - |t|..]
  {
    if s != [] && IsSpace(s[0]) then DropSpaces(s[1..]) else s
  }

  function TrimEnd(s: string): (t: string)
    ensures t <= s
  {
    if s != [] && IsSpace(s[|s| - 1]) then TrimEnd(s[..|s| - 1]) else s
  }

  /** The number that the leading digits spell after `acc`, and what follows them. */
  function Digits(s: string, base: nat, acc: nat): (r: (nat, string))
    requires base <= 16
    ensures |r.1| <= |s|
  {
    if s == [] || DigitOf(s[0]) >= base then (acc, s) else Digits(s[1..], base, acc * base + DigitOf(s[0]))
  }

  /** A sign is skipped; the number wraps when it is negative and saturates when it is too large. */
  function Signed(s: string): (bool, string) {
    if s != [] && s[0] == '-' then (true, s[1..]) else if s != [] && s[0] == '+' then (false, s[1..]) else (false, s)
  }

  function Clip(negative: bool, n: nat): nat {
    if n > ULONG_MAX then ULONG_MAX else if negative && n > 0 then ULONG_MAX + 1 - n else n
  }

  predicate HexPrefix(s: string) {
    |s| >= 3 && s[0] == '0' && s[1] in ['x', 'X'] && DigitOf(s[2]) < 16
  }

  /** str_to_uint64: strtoul in base 0, which must use the whole string. */
  function StrToUint64(s: string): Option<nat> {
    var (negative, t) := Signed(DropSpaces(s));
    var (n, rest) :=
      if HexPrefix(t) then Digits(t[2..], 16, 0)
      else if t != [] && t[0] == '0' then Digits(t, 8, 0)
      else Digits(t, 10, 0);
    // Without a digit nothing is used, spaces and sign included.
    if rest == [] && (t != [] || s == []) then Some(Clip(negative, n)) else None
  }

  /** str_to_uint32: the same, cut to 32 bits. */
  function StrToUint32(s: string): Option<nat> {
    match StrToUint64(s)
    case None => None
    case Some(n) => Some(n % 0x1_0000_0000)
  }

  /** %hhx: an octet and what follows it. */
  function ScanOctet(s: string): (r: Option<(nat, string)>)
    ensures r.Some? ==> r.value.0 < 256
  {
    var (negative, t) := Signed(DropSpaces(s));
    var u := if HexPrefix(t) then t[2..] else t;
    if u == [] || DigitOf(u[0]) >= 16 then None
    else
      var (n, rest) := Digits(u, 16, 0);
      Some((Clip(negative, n) % 256, rest))
  }

  predicate AllDigits(s: string, base: nat) {
    forall i {:trigger s[i]} :: 0 <= i < |s| ==> DigitOf(s[i]) < base
  }

  lemma {:induction false} UsedUpIff(s: string, base: nat, acc: nat)
    requires base <= 16
    ensures Digits(s, base, acc).1 == [] <==> AllDigits(s, base)
    decreases |s|
  {
    hide DigitOf;
    if s != [] && DigitOf(s[0]) < base {
      UsedUpIff(s[1..], base, acc * base + DigitOf(s[0]));
      assert s == [s[0]] + s[1..];
    }
  }

  /** A text without spaces and sign is a number exactly when nothing but digits of its base is in it. */
  lemma AcceptedIff(s: string)
    requires s != [] && !IsSpace(s[0]) && s[0] != '-' && s[0] != '+'
    ensures StrToUint64(s).Some? <==>
            if HexPrefix(s) then AllDigits(s[2..], 16) else AllDigits(s, if s[0] == '0' then 8 else 10)
  {
    hide Digits, IsSpace, DigitOf, HexPrefix, AllDigits;
    assert DropSpaces(s) == s && Signed(s) == (false, s);
    if HexPrefix(s) {
      HexPrefixIsLong(s);
      UsedUpIff(s[2..], 16, 0);
    } else if s[0] == '0' {
      UsedUpIff(s, 8, 0);
    } else {
      UsedUpIff(s, 10, 0);
    }
  }

  lemma HexPrefixIsLong(s: string)
    ensures HexPrefix(s) ==> |s| >= 3
  {
  }

  /** A number with anything after its digits is refused. */
  lemma TrailingTextIsRefused(n: nat, c: char, tail: string)
    requires n > 0 && DigitOf(c) >= 10
    ensures StrToUint64(Decimal(n) + [c] + tail) == None
  {
    DecimalStart(n);
    var s := Decimal(n) + [c] + tail;
    assert s[0] == Decimal(n)[0] && s[|Decimal(n)|] == c;
    hide Decimal, DigitOf, IsSpace;
    AcceptedIff(s);
    hide StrToUint64;
  }

  /** One more digit multiplies by the base and adds. */
  lemma {:induction false} DigitsOn(s: string, c: char, base: nat, acc: nat)
    requires base <= 16 && AllDigits(s, base) && DigitOf(c) < base
    ensures Digits(s + [c], base, acc) == (Digits(s, base, acc).0 * base + DigitOf(c), "")
    decreases |s|
  {
    hide DigitOf;
    var t := s + [c];
    if s == [] {
      assert t[1..] == "";
      assert Digits(t[1..], base, acc * base + DigitOf(c)) == (acc * base + DigitOf(c), "");
    } else {
      assert t[1..] == s[1..] + [c];
      assert AllDigits(s[1..], base) by { assert s == [s[0]] + s[1..]; }
      DigitsOn(s[1..], c, base, acc * base + DigitOf(s[0]));
    }
  }

  lemma {:induction false} DigitsOfDecimal(n: nat, tail: string)
    ensures Digits(Decimal(n) + tail, 10, 0) == Digits(tail, 10, n)
    decreases n
  {
    if n < 10 {
      assert ([DigitChar(n)] + tail)[1..] == tail;
    } else {
      var d := DigitChar(n % 10);
      assert Decimal(n) + tail == Decimal(n / 10) + ([d] + tail);
      DigitsOfDecimal(n / 10, [d] + tail);
      assert ([d] + tail)[1..] == tail;
    }
  }

  lemma {:induction false} DecimalStart(n: nat)
    ensures n > 0 ==> Decimal(n)[0] != '0'
    ensures var s := Decimal(n); !IsSpace(s[0]) && s[0] != '-' && s[0] != '+' && (|s| >= 2 ==> s[1] != 'x' && s[1] != 'X')
    decreases n
  {
    if n >= 10 {
      DecimalStart(n / 10);
    }
  }

  /** A text of digits that neither starts with a space or sign nor looks hexadecimal is read as one number. */
  lemma PlainNumber(s: string, n: nat)
    requires s != [] && !IsSpace(s[0]) && s[0] != '-' && s[0] != '+' && (|s| >= 2 ==> s[1] != 'x' && s[1] != 'X')
    requires Digits(s, if s[0] == '0' then 8 else 10, 0) == (n, []) && n < 0x1_0000_0000
    ensures StrToUint64(s) == Some(n) && StrToUint32(s) == Some(n)
  {
    hide Digits, IsSpace, DigitOf;
    assert DropSpaces(s) == s && Signed(s) == (false, s) && !HexPrefix(s);
  }

  /** Decimal printing is undone by strtoul in base 0, and 0 is not mistaken for an octal prefix. */
  lemma NumberRoundTrip(n: nat)
    requires n < 0x1_0000_0000
    ensures StrToUint32(Decimal(n)) == Some(n)
  {
    DecimalStart(n);
    ReadBack(n);
    hide Decimal, StrToUint32, Digits;
    PlainNumber(Decimal(n), n);
  }

  /** A minus sign wraps the number below 2^64 instead of making it negative. */
  lemma NegativeNumbersWrap(n: nat)
    requires 0 < n < 0x1_0000_0000
    ensures StrToUint64("-" + Decimal(n)) == Some(0x1_0000_0000_0000_0000 - n)
  {
    DecimalStart(n);
    ReadBack(n);
    var d, s := Decimal(n), "-" + Decimal(n);
    assert s[1..] == d;
    hide Decimal, Digits, DigitOf;
    assert DropSpaces(s) == s && Signed(s) == (true, d) && !HexPrefix(d);
  }

  lemma ReadBack(n: nat)
    ensures var s := Decimal(n); s != [] && Digits(s, if s[0] == '0' then 8 else 10, 0) == (n, [])
  {
    DecimalStart(n);
    DigitsOfDecimal(n, []);
    assert Decimal(n) + [] == Decimal(n);
    if n == 0 {
      assert Decimal(0) == ['0'];
    } else {
      hide Decimal;
    }
  }

  lemma OctetRoundTrip(o: nat, tail: string)
    requires o < 256 && (tail == [] || DigitOf(tail[0]) >= 16)
    ensures ScanOctet(HexOctet(o) + tail) == Some((o, tail))
  {
    var s := HexOctet(o) + tail;
    assert s[1..] == [s[1]] + tail;
    assert s[1..][1..] == tail;
    assert Digits(s, 16, 0) == Digits(s[1..], 16, o / 16);
    assert Digits(s[1..], 16, o / 16) == Digits(tail, 16, o);
  }
}
