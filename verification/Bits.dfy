/**
 `popcount` and `ctz` of `utilities.c`: sums and tests on a whole 32-bit word at once, against
 a look at each of its bits.
 */
module Bits {
  type word = bv32

  /** BIT(i) */
  function Bit(i: nat): (b: word)
    requires i < 32
  {
    if i == 0 then 0x00000001
    else if i == 1 then 0x00000002
    else if i == 2 then 0x00000004
    else if i == 3 then 0x00000008
    else if i == 4 then 0x00000010
    else if i == 5 then 0x00000020
    else if i == 6 then 0x00000040
    else if i == 7 then 0x00000080
    else if i == 8 then 0x00000100
    else if i == 9 then 0x00000200
    else if i == 10 then 0x00000400
    else if i == 11 then 0x00000800
    else if i == 12 then 0x00001000
    else if i == 13 then 0x00002000
    else if i == 14 then 0x00004000
    else if i == 15 then 0x00008000
    else if i == 16 then 0x00010000
    else if i == 17 then 0x00020000
    else if i == 18 then 0x00040000
    else if i == 19 then 0x00080000
    else if i == 20 then 0x00100000
    else if i == 21 then 0x00200000
    else if i == 22 then 0x00400000
    else if i == 23 then 0x00800000
    else if i == 24 then 0x01000000
    else if i == 25 then 0x02000000
    else if i == 26 then 0x04000000
    else if i == 27 then 0x08000000
    else if i == 28 then 0x10000000
    else if i == 29 then 0x20000000
    else if i == 30 then 0x40000000
    else 0x80000000
  }

  /** MORSE_IS_BIT_SET */
  predicate Has(x: word, i: nat)
    requires i < 32
  {
    x & Bit(i) != 0
  }

  function If(b: bool): nat { if b then 1 else 0 }

  /** How many of the first n bits are set, counted one by one. */
  function Count(x: word, n: nat): (c: nat)
    requires n <= 32
    ensures c <= n
  {
    if n == 0 then 0 else Count(x, n - 1) + If(Has(x, n - 1))
  }

  // ---------------------------------------------------------------- popcount

  function Pairs(x: word): word { x - ((x >> 1) & 0x55555555) }

  function Nibbles(x: word): word { (x & 0x33333333) + ((x >> 2) & 0x33333333) }

  function Octets(x: word): word { (x + (x >> 4)) & 0x0F0F0F0F }

  /** In each octet, how many of its bits are set. */
  function Fold(x: word): word {
    Octets(Nibbles(Pairs(x)))
  }

  /** The sum of the four octets. */
  function Gather(y: word): word {
    (y * 0x01010101) >> 24
  }

  function Swar(x: word): word {
    Gather(Fold(x))
  }

  // ---------------------------------------------------------------- popcount is the number of set bits

  function Low(w: word): bv8 { (w & 0xFF) as bv8 }

  function One(x: word, b: word): bv8 { if x & b != 0 then 1 else 0 }

  function Plus(a: bv8, b: bv8): bv8 { a + b }

  function PlusWord(a: word, b: word): word { a + b }

  /** The n bits from bit k on, added up. */
  function Sum(x: word, k: nat, n: nat): bv8
    requires k + n <= 32
    decreases n
  {
    if n == 0 then 0 else Plus(Sum(x, k, n - 1), One(x, Bit(k + n - 1)))
  }

  lemma PlusOne(s: bv8, b: bool, n: nat)
    requires s as nat == n && n < 40
    ensures Plus(s, if b then 1 else 0) as nat == n + If(b)
  {
  }

  lemma Addition(a: bv8, b: bv8)
    requires a as nat < 32 && b as nat < 16
    ensures Plus(a, b) as nat == a as nat + b as nat
  {
  }

  lemma SumStep(x: word, k: nat, n: nat)
    requires 0 < n && k + n <= 32
    ensures Sum(x, k, n) == Plus(Sum(x, k, n - 1), if Has(x, k + n - 1) then 1 else 0)
    ensures Count(x, k + n) == Count(x, k + n - 1) + If(Has(x, k + n - 1))
  {
    hide Bit, Plus;
  }

  lemma {:induction false} SumCounts(x: word, k: nat, n: nat)
    requires k + n <= 32
    ensures Sum(x, k, n) as nat == Count(x, k + n) - Count(x, k) <= n
    decreases n
  {
    hide *;
    if n == 0 {
      SumOfNone(x, k);
    } else {
      SumCounts(x, k, n - 1);
      SumStep(x, k, n);
      PlusOne(Sum(x, k, n - 1), Has(x, k + n - 1), Count(x, k + n - 1) - Count(x, k));
      IfIsSmall(Has(x, k + n - 1));
    }
  }

  lemma IfIsSmall(b: bool)
    ensures If(b) <= 1
  {
  }

  lemma SumOfNone(x: word, k: nat)
    requires k <= 32
    ensures Sum(x, k, 0) as nat == 0
  {
  }

  function Eight(x: word, b: word): bv8 {
    Plus(Plus(Plus(Plus(Plus(Plus(Plus(Plus(0, One(x, b)), One(x, b << 1)), One(x, b << 2)), One(x, b << 3)),
                        One(x, b << 4)), One(x, b << 5)), One(x, b << 6)), One(x, b << 7))
  }

  lemma FoldByte0(x: word)
    ensures Low(Fold(x)) == Eight(x, 0x00000001)
  {
  }

  lemma FoldByte1(x: word)
    ensures Low(Fold(x) >> 8) == Eight(x, 0x00000100)
  {
  }

  lemma FoldByte2(x: word)
    ensures Low(Fold(x) >> 16) == Eight(x, 0x00010000)
  {
  }

  lemma FoldByte3(x: word)
    ensures Low(Fold(x) >> 24) == Eight(x, 0x01000000)
  {
  }

  lemma FoldBytes(y: word)
    requires y & 0xF0F0F0F0 == 0
    ensures Gather(y) == PlusWord(PlusWord(PlusWord(y & 0xFF, (y >> 8) & 0xFF), (y >> 16) & 0xFF), y >> 24)
  {
  }

  lemma LowPlus(a: word, b: word)
    ensures Low(PlusWord(a, b)) == Plus(Low(a), Low(b))
  {
  }

  lemma LowAgain(a: word)
    ensures Low(a & 0xFF) == Low(a)
  {
  }

  lemma LowOfSum(a: word, b: word, c: word, d: word)
    ensures Low(PlusWord(PlusWord(PlusWord(a, b), c), d)) == Plus(Plus(Plus(Low(a), Low(b)), Low(c)), Low(d))
  {
    hide Low, Plus, PlusWord;
    LowPlus(a, b);
    LowPlus(PlusWord(a, b), c);
    LowPlus(PlusWord(PlusWord(a, b), c), d);
  }

  lemma FoldIsSmall(x: word)
    ensures Fold(x) & 0xF0F0F0F0 == 0
  {
  }

  lemma SumIsEight(x: word, k: nat, b: word)
    requires k + 8 <= 32
    requires Bit(k) == b && Bit(k + 1) == b << 1 && Bit(k + 2) == b << 2 && Bit(k + 3) == b << 3
    requires Bit(k + 4) == b << 4 && Bit(k + 5) == b << 5 && Bit(k + 6) == b << 6 && Bit(k + 7) == b << 7
    ensures Sum(x, k, 8) == Eight(x, b)
  {
    hide Bit, One, Plus;
    assert Sum(x, k, 0) == 0;
    assert Sum(x, k, 3) == Plus(Sum(x, k, 2), One(x, b << 2));
    assert Sum(x, k, 6) == Plus(Sum(x, k, 5), One(x, b << 5));
  }

  lemma EightCounts(x: word, k: nat, b: word)
    requires k + 8 <= 32
    requires Bit(k) == b && Bit(k + 1) == b << 1 && Bit(k + 2) == b << 2 && Bit(k + 3) == b << 3
    requires Bit(k + 4) == b << 4 && Bit(k + 5) == b << 5 && Bit(k + 6) == b << 6 && Bit(k + 7) == b << 7
    ensures Eight(x, b) as nat == Count(x, k + 8) - Count(x, k) <= 8
  {
    hide Bit, One, Plus, Sum, Eight, Count;
    SumIsEight(x, k, b);
    SumCounts(x, k, 8);
  }

  /** The low octet of the folded word's product adds up its octets. */
  lemma SwarSums(x: word)
    ensures Low(Swar(x)) == Plus(Plus(Plus(Eight(x, 0x00000001), Eight(x, 0x00000100)), Eight(x, 0x00010000)), Eight(x, 0x01000000))
  {
    hide Fold, Gather, Eight, Plus, PlusWord, Low;
    var y := Fold(x);
    FoldIsSmall(x);
    FoldBytes(y);
    LowOfSum(y & 0xFF, (y >> 8) & 0xFF, (y >> 16) & 0xFF, y >> 24);
    LowAgain(y);
    LowAgain(y >> 8);
    LowAgain(y >> 16);
    FoldByte0(x);
    FoldByte1(x);
    FoldByte2(x);
    FoldByte3(x);
  }

  /** The word-parallel count is the number of set bits. */
  lemma SwarCounts(x: word)
    ensures Low(Swar(x)) as nat == Count(x, 32)
  {
    hide Swar, Eight, Count, Plus, Has, Low;
    var a, b, c, d := Eight(x, 0x00000001), Eight(x, 0x00000100), Eight(x, 0x00010000), Eight(x, 0x01000000);
    SwarSums(x);
    EightCounts(x, 0, 0x00000001);
    EightCounts(x, 8, 0x00000100);
    EightCounts(x, 16, 0x00010000);
    EightCounts(x, 24, 0x01000000);
    hide Bit;
    Addition(a, b);
    Addition(Plus(a, b), c);
    Addition(Plus(Plus(a, b), c), d);
  }

  /** popcount, kept in an octet as its caller does. */
  method Popcount(x: word) returns (pins: nat)
    ensures pins == Count(x, 32)
  {
    var r := Pairs(x);
    r := Nibbles(r);
    r := Octets(r);
    r := Gather(r);
    pins := Low(r) as nat;
    hide *;
    SwarCounts(x);
  }

  // ---------------------------------------------------------------- single bits

  lemma BitNext(i: nat)
    requires i < 31
    ensures Bit(i + 1) == Twice(Bit(i)) && NotTop(Bit(i))
  {
    if i < 4 {
    } else if i < 8 {
    } else if i < 12 {
    } else if i < 16 {
    } else if i < 20 {
    } else if i < 24 {
    } else if i < 28 {
    } else {
    }
  }

  function Twice(b: word): word { b << 1 }

  predicate Single(b: word) { b != 0 && b & (b - 1) == 0 }

  /** `a` has no bits but ones below the single bit b. */
  predicate Below(a: word, b: word) { a & (b - 1) == a }

  predicate NotTop(b: word) { b & 0x80000000 == 0 }

  lemma SingleTwice(b: word)
    requires Single(b) && NotTop(b)
    ensures Single(Twice(b)) && Below(b, Twice(b))
  {
  }

  lemma BelowTwice(a: word, b: word)
    requires Single(b) && NotTop(b) && Below(a, b)
    ensures Below(a, Twice(b))
  {
  }

  lemma BitZero()
    ensures Single(Bit(0))
  {
  }

  lemma {:induction false} OneBit(i: nat)
    requires i < 32
    ensures Single(Bit(i))
    decreases i
  {
    hide *;
    if i == 0 {
      BitZero();
    } else {
      OneBit(i - 1);
      BitNext(i - 1);
      SingleTwice(Bit(i - 1));
    }
  }

  /** A bit lies among the ones below any later bit. */
  lemma {:induction false} BitBelow(i: nat, j: nat)
    requires i < j < 32
    ensures Below(Bit(i), Bit(j))
    decreases j
  {
    hide *;
    OneBit(j - 1);
    BitNext(j - 1);
    SingleTwice(Bit(j - 1));
    if i < j - 1 {
      BitBelow(i, j - 1);
      BelowTwice(Bit(i), Bit(j - 1));
    }
  }

  predicate Meets(a: word, b: word) { a & b != 0 }

  lemma Apart(a: word, b: word)
    requires Below(a, b) && Single(b)
    ensures !Meets(a, b) && !Meets(b, a)
  {
  }

  lemma Itself(a: word)
    requires Single(a)
    ensures Meets(a, a)
  {
  }

  lemma BitsApart(i: nat, j: nat)
    requires i < 32 && j < 32
    ensures Meets(Bit(i), Bit(j)) <==> i == j
  {
    hide *;
    OneBit(i);
    OneBit(j);
    if i < j {
      BitBelow(i, j);
      Apart(Bit(i), Bit(j));
    } else if j < i {
      BitBelow(j, i);
      Apart(Bit(j), Bit(i));
    } else {
      Itself(Bit(i));
    }
  }

  lemma Distributes(x: word, y: word, b: word)
    ensures (x | y) & b != 0 <==> x & b != 0 || y & b != 0
  {
  }

  lemma Join(x: word, y: word, b: word)
    ensures Meets(x | y, b) <==> Meets(x, b) || Meets(y, b)
  {
    Distributes(x, y, b);
  }

  lemma HasIs(x: word, i: nat)
    requires i < 32
    ensures Has(x, i) == Meets(x, Bit(i))
  {
    hide Bit;
  }

  /** Setting a bit sets that bit and no other. */
  lemma SetBit(x: word, i: nat, j: nat)
    requires i < 32 && j < 32
    ensures Has(x | Bit(i), j) <==> Has(x, j) || i == j
  {
    hide *;
    HasIs(x | Bit(i), j);
    HasIs(x, j);
    Join(x, Bit(i), Bit(j));
    BitsApart(i, j);
  }

  lemma NoBit(i: nat)
    requires i < 32
    ensures !Has(0, i)
  {
    hide Bit;
  }

  // ---------------------------------------------------------------- ctz

  /** The lowest set bit alone. */
  function Lowest(x: word): word { x & (!x + 1) }

  lemma LowestOf(x: word)
    requires x != 0
    ensures x & (!x + 1) != 0 && (x & (!x + 1)) & ((x & (!x + 1)) - 1) == 0
    ensures x & (x & (!x + 1)) != 0 && x & ((x & (!x + 1)) - 1) == 0
  {
  }

  lemma LowestIs(x: word)
    requires x != 0
    ensures Single(Lowest(x)) && Meets(x, Lowest(x)) && !Meets(x, Lowest(x) - 1)
  {
    LowestOf(x);
  }

  /** The index of a single bit, found by five tests. */
  function Index(y: word): (c: nat)
    ensures c < 32
  {
    31 - (if y & 0x0000FFFF != 0 then 16 else 0) - (if y & 0x00FF00FF != 0 then 8 else 0) - (if y & 0x0F0F0F0F != 0 then 4 else 0)
       - (if y & 0x33333333 != 0 then 2 else 0) - (if y & 0x55555555 != 0 then 1 else 0)
  }

  lemma IndexIs(y: word)
    requires Single(y)
    ensures Bit(Index(y)) == y
  {
  }

  lemma MissesBelow(x: word, a: word, b: word)
    requires Below(a, b) && !Meets(x, b - 1)
    ensures !Meets(x, a)
  {
  }

  /** ctz */
  method Ctz(x: word) returns (c: int)
    ensures x == 0 <==> c == -1
    ensures x != 0 ==> 0 <= c < 32 && Has(x, c) && forall j :: 0 <= j < c ==> !Has(x, j)
  {
    if x == 0 {
      return -1;
    }
    var y := x & (!x + 1);
    c := 32;
    if y != 0 { c := c - 1; }
    if y & 0x0000FFFF != 0 { c := c - 16; }
    if y & 0x00FF00FF != 0 { c := c - 8; }
    if y & 0x0F0F0F0F != 0 { c := c - 4; }
    if y & 0x33333333 != 0 { c := c - 2; }
    if y & 0x55555555 != 0 { c := c - 1; }
    LowestBit(x);
  }

  lemma LowestBit(x: word)
    requires x != 0
    ensures Lowest(x) != 0
    ensures var c := Index(Lowest(x)); Has(x, c) && forall j :: 0 <= j < c ==> !Has(x, j)
  {
    LowestIs(x);
    IndexIs(Lowest(x));
    hide *;
    var c := Index(Lowest(x));
    HasIs(x, c);
    forall j | 0 <= j < c ensures !Has(x, j) {
      BitBelow(j, c);
      HasIs(x, j);
      MissesBelow(x, Bit(j), Bit(c));
    }
  }
}
