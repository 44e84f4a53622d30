/**
 The octet streams of a CMD53 transaction: the frame the host sends, the tokens both sides
 look for, and what each side recovers from the other's stream (section 7.3.3 of the SD
 Physical Layer Simplified Specification for the tokens).
 */
module SdioFrames {
  import opened Octets
  import opened Options
  import opened Crc
  import Gf2

  const MULTI_BLOCK_START_TOKEN: octet := 0xFC
  const SINGLE_START_TOKEN: octet := 0xFE
  const TOKEN_LEN: nat := 1
  const CRC_OCTETS: nat := 2
  const CRC_READ_OCTETS: nat := 4

  // ---------------------------------------------------------------- blocks

  predicate Uniform(blocks: seq<seq<octet>>, bs: nat) {
    forall i :: 0 <= i < |blocks| ==> |blocks[i]| == bs
  }

  function Concat(blocks: seq<seq<octet>>): seq<octet> {
    if blocks == [] then [] else blocks[0] + Concat(blocks[1..])
  }

  /** The n blocks of bs octets of a payload. */
  function Split(data: seq<octet>, bs: nat, n: nat): (blocks: seq<seq<octet>>)
    requires |data| == n * bs
    ensures |blocks| == n && Uniform(blocks, bs)
    ensures Concat(blocks) == data
  {
    if n == 0 then []
    else
      Product(n, bs);
      [data[..bs]] + Split(data[bs..], bs, n - 1)
  }

  lemma Product(n: nat, bs: nat)
    requires n > 0
    ensures n * bs == bs + (n - 1) * bs
  {
  }

  lemma SplitHead(data: seq<octet>, bs: nat, n: nat)
    requires |data| == n * bs && n > 0
    ensures bs <= |data| && |data[bs..]| == (n - 1) * bs
    ensures Split(data, bs, n) == [data[..bs]] + Split(data[bs..], bs, n - 1)
  {
    Product(n, bs);
  }

  lemma {:induction false} SplitAt(data: seq<octet>, bs: nat, n: nat, i: nat)
    requires |data| == n * bs && i < n
    ensures 0 <= i * bs && i * bs + bs <= |data|
    ensures Split(data, bs, n)[i] == data[i * bs..i * bs + bs]
  {
    SplitHead(data, bs, n);
    hide Split;
    if i > 0 {
      SplitAt(data[bs..], bs, n - 1, i - 1);
      Product(i, bs);
    }
  }

  /** The first k blocks are the first k * bs octets. */
  lemma {:induction false} ConcatTake(blocks: seq<seq<octet>>, bs: nat, k: nat)
    requires Uniform(blocks, bs) && k <= |blocks|
    ensures k * bs <= |Concat(blocks)| && Concat(blocks[..k]) == Concat(blocks)[..k * bs]
    decreases k
  {
    if k == 0 {
      assert blocks[..0] == [];
    } else {
      ConcatTake(blocks[1..], bs, k - 1);
      Product(k, bs);
      assert blocks[..k][0] == blocks[0] && blocks[..k][1..] == blocks[1..][..k - 1];
      assert |blocks[0]| == bs;
    }
  }

  /** The two check octets that follow a block, high octet first. */
  function CheckOctets(b: seq<octet>): (c: seq<octet>)
    ensures |c| == 2
  {
    [High(Crc16(b)), Low(Crc16(b))]
  }

  /** The octets hold the remainder of the block by x^16 + x^12 + x^5 + 1, most significant bit first. */
  predicate HoldsRemainder(c: seq<octet>, b: seq<octet>)
    requires |c| == 2
  {
    OctetBits(c[0]) + OctetBits(c[1]) == Gf2.Register(G16, MessageBits(b))
  }

  lemma CheckOctetsHold(b: seq<octet>)
    ensures HoldsRemainder(CheckOctets(b), b)
  {
    Crc16IsRemainder(b);
    hide OctetBits, MessageBits, Crc16, Gf2.Register;
  }

  /** A start token, a block and its check octets. */
  function Framed(token: octet, b: seq<octet>): (s: seq<octet>)
    ensures |s| == TOKEN_LEN + |b| + CRC_OCTETS
    ensures s[0] == token && s[1..1 + |b|] == b && s[1 + |b|..] == CheckOctets(b)
  {
    var s := [token] + b + CheckOctets(b);
    assert s[1 + |b|..] == CheckOctets(b);
    s
  }

  // ---------------------------------------------------------------- what the host sends

  /** A framed block and the junk clocked out after it. */
  function Slot(token: octet, b: seq<octet>, delay: nat): (s: seq<octet>)
    ensures |s| == TOKEN_LEN + |b| + CRC_OCTETS + delay
  {
    Framed(token, b) + Repeat(JUNK, delay)
  }

  function Slots(token: octet, blocks: seq<seq<octet>>, delay: nat): seq<octet> {
    if blocks == [] then [] else Slot(token, blocks[0], delay) + Slots(token, blocks[1..], delay)
  }

  /** The parts of a slot: token, block, the block's remainder and nothing but junk after it. */
  predicate IsSlot(s: seq<octet>, token: octet, b: seq<octet>, delay: nat) {
    && |s| == 1 + |b| + 2 + delay
    && s[0] == token
    && s[1..1 + |b|] == b
    && HoldsRemainder(s[1 + |b|..3 + |b|], b)
    && forall i {:trigger s[i]} :: 3 + |b| <= i < |s| ==> s[i] == 0xFF
  }

  /** What the host clocks out of a block is its token, the block, its remainder and junk; its CRC16 comes to zero. */
  lemma SlotParts(token: octet, b: seq<octet>, delay: nat)
    ensures IsSlot(Slot(token, b, delay), token, b, delay)
    ensures Crc16(Slot(token, b, delay)[1..3 + |b|]) == 0
  {
    CheckOctetsHold(b);
    Crc16OfCodeword(b);
    var c, s := CheckOctets(b), Slot(token, b, delay);
    assert c == [High(Crc16(b)), Low(Crc16(b))];
    hide HoldsRemainder, CheckOctets, Framed, Crc16;
    var f := Framed(token, b);
    assert s[..|f|] == f;
    assert f[1 + |b|..] == c && f[1..] == b + c;
    assert s[1..3 + |b|] == f[1..] && s[1 + |b|..3 + |b|] == f[1 + |b|..] && s[1..1 + |b|] == f[1..1 + |b|];
  }

  /** Slot i of the host's slots is the one of block i. */
  lemma {:induction false} SlotAt(token: octet, blocks: seq<seq<octet>>, bs: nat, delay: nat, i: nat)
    requires Uniform(blocks, bs) && i < |blocks|
    ensures |Slots(token, blocks, delay)| == |blocks| * (3 + bs + delay)
    ensures 0 <= i * (3 + bs + delay) && (i + 1) * (3 + bs + delay) <= |Slots(token, blocks, delay)|
    ensures Slots(token, blocks, delay)[i * (3 + bs + delay)..(i + 1) * (3 + bs + delay)] == Slot(token, blocks[i], delay)
    decreases |blocks|
  {
    hide Slot;
    var size, rest := 3 + bs + delay, blocks[1..];
    assert |blocks[0]| == bs;
    Product(|blocks|, size);
    Product(i + 1, size);
    if i > 0 {
      SlotAt(token, rest, bs, delay, i - 1);
      Product(i, size);
    } else {
      SlotsLength(token, rest, bs, delay);
    }
  }

  lemma {:induction false} SlotsLength(token: octet, blocks: seq<seq<octet>>, bs: nat, delay: nat)
    requires Uniform(blocks, bs)
    ensures |Slots(token, blocks, delay)| == |blocks| * (3 + bs + delay)
    decreases |blocks|
  {
    hide Slot;
    if blocks != [] {
      assert |blocks[0]| == bs;
      SlotsLength(token, blocks[1..], bs, delay);
      Product(|blocks|, 3 + bs + delay);
    }
  }

  // ---------------------------------------------------------------- what the card recovers

  /** How many junk octets a stream starts with. */
  function JunkRun(s: seq<octet>): (k: nat)
    ensures k <= |s|
    ensures forall i {:trigger s[i]} :: 0 <= i < k ==> s[i] == JUNK
    ensures k < |s| ==> s[k] != JUNK
  {
    if s == [] || s[0] != JUNK then 0
    else
      var k := JunkRun(s[1..]);
      assert forall i {:trigger s[i]} :: 0 < i < 1 + k ==> s[i] == s[1..][i - 1] == JUNK;
      1 + k
  }

  lemma {:induction false} JunkRunAfter(k: nat, s: seq<octet>)
    ensures JunkRun(Repeat(JUNK, k) + s) == k + JunkRun(s)
  {
    var t := Repeat(JUNK, k) + s;
    if k == 0 {
      assert t == s;
    } else {
      assert t[1..] == Repeat(JUNK, k - 1) + s;
      JunkRunAfter(k - 1, s);
    }
  }

  function Prepend(b: seq<octet>, r: Option<seq<octet>>): Option<seq<octet>> {
    match r case None => None case Some(d) => Some(b + d)
  }

  /**
   The payload of n blocks in a stream: junk is skipped up to each start token, and every
   block must be followed by its remainder.
   */
  function TakeBlocks(token: octet, s: seq<octet>, bs: nat, n: nat): Option<seq<octet>>
    decreases n
  {
    if n == 0 then Some([])
    else
      var t := s[JunkRun(s)..];
      if |t| < TOKEN_LEN + bs + CRC_OCTETS || t[0] != token then None
      else
        var b := t[TOKEN_LEN..TOKEN_LEN + bs];
        if !HoldsRemainder(t[TOKEN_LEN + bs..TOKEN_LEN + bs + CRC_OCTETS], b) then None
        else Prepend(b, TakeBlocks(token, t[TOKEN_LEN + bs + CRC_OCTETS..], bs, n - 1))
  }

  /** One framed block after any junk is recovered whatever its contents are. */
  lemma TakeFramed(token: octet, k: nat, b: seq<octet>, rest: seq<octet>, n: nat)
    requires token != JUNK && n > 0
    ensures TakeBlocks(token, Repeat(JUNK, k) + (Framed(token, b) + rest), |b|, n) == Prepend(b, TakeBlocks(token, rest, |b|, n - 1))
  {
    CheckOctetsHold(b);
    hide Framed, CheckOctets, Prepend, HoldsRemainder;
    var t := Framed(token, b) + rest;
    var s := Repeat(JUNK, k) + t;
    JunkRunAfter(k, t);
    assert s[k..] == t;
    assert t[TOKEN_LEN..TOKEN_LEN + |b|] == b;
    assert t[TOKEN_LEN + |b|..TOKEN_LEN + |b| + CRC_OCTETS] == CheckOctets(b);
    assert t[TOKEN_LEN + |b| + CRC_OCTETS..] == rest;
  }

  lemma SlotsUnroll(token: octet, blocks: seq<seq<octet>>, delay: nat)
    requires blocks != []
    ensures Slots(token, blocks, delay) == Framed(token, blocks[0]) + (Repeat(JUNK, delay) + Slots(token, blocks[1..], delay))
  {
    hide Framed, Repeat;
  }

  lemma TakeMore(token: octet, k: nat, blocks: seq<seq<octet>>, bs: nat, delay: nat)
    requires token != JUNK && Uniform(blocks, bs) && blocks != []
    requires TakeBlocks(token, Repeat(JUNK, delay) + Slots(token, blocks[1..], delay), bs, |blocks| - 1) == Some(Concat(blocks[1..]))
    ensures TakeBlocks(token, Repeat(JUNK, k) + Slots(token, blocks, delay), bs, |blocks|) == Some(Concat(blocks))
  {
    hide Framed, TakeBlocks, Repeat;
    TakeFramed(token, k, blocks[0], Repeat(JUNK, delay) + Slots(token, blocks[1..], delay), |blocks|);
    SlotsUnroll(token, blocks, delay);
    hide Slots;
  }

  /** The card recovers the whole payload from the host's slots, for all contents. */
  lemma {:induction false} TakeSlots(token: octet, k: nat, blocks: seq<seq<octet>>, bs: nat, delay: nat)
    requires token != JUNK && Uniform(blocks, bs)
    ensures TakeBlocks(token, Repeat(JUNK, k) + Slots(token, blocks, delay), bs, |blocks|) == Some(Concat(blocks))
    decreases |blocks|
  {
    hide Framed, Repeat, Slots;
    if blocks != [] {
      TakeSlots(token, delay, blocks[1..], bs, delay);
      TakeMore(token, k, blocks, bs, delay);
    }
  }

  // ---------------------------------------------------------------- what the card sends back

  /** How a card paces and fills its half of a transaction. */
  datatype Pace = Pace(respLag: nat, status: octet, echo: octet, lags: seq<nat>, ack: octet, fill: octet, multi: bool)

  function Lag(p: Pace, i: nat): nat {
    if i < |p.lags| then p.lags[i] else 0
  }

  /** A block and its check word as they arrive. */
  datatype Received = Received(data: seq<octet>, crc: bv16)

  /** Blocks that arrive as they were sent. */
  function Intact(blocks: seq<seq<octet>>): (gs: seq<Received>)
    ensures |gs| == |blocks|
    ensures forall k {:trigger gs[k]} :: 0 <= k < |gs| ==> gs[k] == Received(blocks[k], Crc16(blocks[k]))
  {
    if blocks == [] then [] else [Received(blocks[0], Crc16(blocks[0]))] + Intact(blocks[1..])
  }

  /** A read block: some junk, a start token, the block, its check octets and two spare octets. */
  function ReadSlot(p: Pace, g: Received, i: nat): (s: seq<octet>)
    ensures |s| == Lag(p, i) + TOKEN_LEN + |g.data| + CRC_READ_OCTETS
  {
    Repeat(JUNK, Lag(p, i)) +
    ([if p.multi then 0xFC else 0xFE] + g.data + [High(g.crc), Low(g.crc)]) +
    [p.fill, p.fill]
  }

  /** The stream of blocks, the first of which is number i. */
  function ReadSlots(p: Pace, gs: seq<Received>, i: nat): seq<octet> {
    if gs == [] then [] else ReadSlot(p, gs[0], i) + ReadSlots(p, gs[1..], i + 1)
  }

  /** The stream as long as the transaction lasts: cut short, or followed by junk. */
  function Clocked(s: seq<octet>, n: nat): (c: seq<octet>)
    ensures |c| == n
  {
    if n <= |s| then s[..n] else s + Repeat(JUNK, n - |s|)
  }

  /** The card's answer to block i in the junk after it: a lag, the acknowledgement, then anything. */
  function Answer(p: Pace, i: nat, gap: nat): (s: seq<octet>)
    ensures |s| == gap
    ensures forall k {:trigger s[k]} :: 0 <= k < gap ==>
              s[k] == if k < Lag(p, i) then JUNK else if k == Lag(p, i) then p.ack else p.fill
  {
    seq(gap, k => if k < Lag(p, i) then JUNK else if k == Lag(p, i) then p.ack else p.fill)
  }

  function Reply(p: Pace, i: nat, end: nat, gap: nat): (s: seq<octet>)
    ensures |s| == end + gap
  {
    Repeat(JUNK, end) + Answer(p, i, gap)
  }

  /** Octet for octet what the card sends while n blocks arrive in the stream `s`, the first of them number i. */
  function Answers(p: Pace, s: seq<octet>, bs: nat, i: nat, n: nat): (r: seq<octet>)
    ensures |r| == |s|
    decreases n
  {
    var end := JunkRun(s) + TOKEN_LEN + bs + CRC_OCTETS;
    if n == 0 || |s| < end then Repeat(JUNK, |s|)
    else
      var gap := JunkRun(s[end..]);
      Reply(p, i, end, gap) + Answers(p, s[end + gap..], bs, i + 1, n - 1)
  }

  // ---------------------------------------------------------------- what the host looks for

  const CMD_RESP_EARLY_TRANS: octet := 0xFE

  /** Where a search ended: past the octet it looked for, nowhere, or beyond the stream. */
  datatype Scan = Found(next: nat) | Missing | Overrun

  /** SDIO_CMD_RESP_TOKEN_SUCC under its mask: a response with no error bit. */
  predicate Succeeds(o: octet) {
    o & 0xFE == 0x00
  }

  /** A data response that is valid and reports the block accepted. */
  predicate Accepted(o: octet) {
    o & 0x11 == 0x01 && o & 0x1F == 0x05
  }

  predicate StartsBlock(o: octet) {
    o == MULTI_BLOCK_START_TOKEN || o == SINGLE_START_TOKEN
  }

  predicate Idle(o: octet) {
    o == JUNK || o == CMD_RESP_EARLY_TRANS
  }

  /** How many idle octets a stream starts with. */
  function IdleRun(s: seq<octet>): (k: nat)
    ensures k <= |s|
    ensures forall i {:trigger s[i]} :: 0 <= i < k ==> Idle(s[i])
    ensures k < |s| ==> !Idle(s[k])
  {
    if s == [] || !Idle(s[0]) then 0
    else
      var k := IdleRun(s[1..]);
      assert forall i {:trigger s[i]} :: 0 < i < 1 + k ==> s[i] == s[1..][i - 1];
      1 + k
  }

  lemma IdleRunIs(w: seq<octet>, k: nat)
    requires k <= |w|
    requires forall j {:trigger w[j]} :: 0 <= j < k ==> Idle(w[j])
    requires k < |w| ==> !Idle(w[k])
    ensures IdleRun(w) == k
  {
    hide Idle;
  }

  /** The response search within `size` octets: the last of them is not looked at. */
  function Resp(s: seq<octet>, at: nat, size: nat): Scan
    requires size >= 1 && at + size <= |s|
  {
    var k := IdleRun(s[at..at + size - 1]);
    if k == size - 1 || !Succeeds(s[at + k]) then Missing
    // There can be an additional status octet.
    else if k < size - 2 && Succeeds(s[at + k + 1]) then Found(at + k + 2)
    else Found(at + k + 1)
  }

  lemma IdleIs(o: octet)
    ensures Idle(o) <==> o == 0xFF || o == 0xFE
  {
  }

  /** The response search looks at nothing but its window. */
  lemma RespInWindow(s: seq<octet>, at: nat, size: nat)
    requires size >= 1 && at + size <= |s|
    ensures Resp(s, at, size).Found? == Resp(s[at..at + size], 0, size).Found?
  {
    hide Succeeds, Idle;
    var w := s[at..at + size];
    assert w[0..size - 1] == s[at..at + size - 1];
  }

  /** The octet at `at` + k is the first one in the window at `at` that is not junk. */
  predicate FirstAt(s: seq<octet>, at: nat, k: nat) {
    at + k < |s| && s[at + k] != JUNK && forall j {:trigger s[j]} :: at <= j < at + k ==> s[j] == JUNK
  }

  predicate AllJunk(s: seq<octet>, at: nat, k: nat) {
    at + k <= |s| && forall j {:trigger s[j]} :: at <= j < at + k ==> s[j] == JUNK
  }

  /** The start token search within `size` octets: the last of them is not looked at. */
  function Token(s: seq<octet>, at: nat, size: nat): Scan
    requires at <= |s| && size >= 1
  {
    var w := s[at..if at + size - 1 <= |s| then at + size - 1 else |s|];
    var k := JunkRun(w);
    if k < |w| then (if StartsBlock(w[k]) then Found(at + k + 1) else Missing)
    else if |w| == size - 1 then Missing
    else Overrun
  }

  /** The acknowledgement search within `size` octets. */
  function Ack(s: seq<octet>, at: nat, size: nat): Scan
    requires size >= 1 && at + size <= |s|
  {
    var w := s[at..at + size - 1];
    var k := JunkRun(w);
    if k < |w| && Accepted(w[k]) then Found(at + k + 1) else Missing
  }

  lemma JunkRunIs(w: seq<octet>, k: nat)
    requires k <= |w|
    requires forall j {:trigger w[j]} :: 0 <= j < k ==> w[j] == JUNK
    requires k < |w| ==> w[k] != JUNK
    ensures JunkRun(w) == k
  {
  }

  lemma TokenAt(s: seq<octet>, at: nat, size: nat, k: nat)
    requires k + 1 < size && FirstAt(s, at, k)
    ensures Token(s, at, size) == if StartsBlock(s[at + k]) then Found(at + k + 1) else Missing
  {
    var w := s[at..if at + size - 1 <= |s| then at + size - 1 else |s|];
    JunkRunIs(w, k);
  }

  lemma TokenNowhere(s: seq<octet>, at: nat, size: nat, k: nat)
    requires size >= 1 && at + k <= |s| && AllJunk(s, at, k)
    requires k == size - 1 || (k < size && at + k == |s|)
    ensures Token(s, at, size) == if k == size - 1 then Missing else Overrun
  {
    var w := s[at..if at + size - 1 <= |s| then at + size - 1 else |s|];
    JunkRunIs(w, k);
  }

  lemma AckAt(s: seq<octet>, at: nat, size: nat, k: nat)
    requires k + 1 < size && at + size <= |s| && FirstAt(s, at, k)
    ensures Ack(s, at, size) == if Accepted(s[at + k]) then Found(at + k + 1) else Missing
  {
    JunkRunIs(s[at..at + size - 1], k);
  }

  lemma AckNowhere(s: seq<octet>, at: nat, size: nat)
    requires size >= 1 && at + size <= |s| && AllJunk(s, at, size - 1)
    ensures Ack(s, at, size) == Missing
  {
    JunkRunIs(s[at..at + size - 1], size - 1);
  }

  /** The outcome of reading n blocks back: the blocks before the first that failed are kept. */
  datatype Parse = Blocks(data: seq<octet>) | Broken(data: seq<octet>) | Overran(data: seq<octet>)

  function PrependBlock(b: seq<octet>, r: Parse): Parse {
    r.(data := b + r.data)
  }

  /** The outcome of reading one block back, and where the search for the next one starts. */
  datatype Piece = Piece(block: seq<octet>, next: nat) | BadPiece | PieceOverran

  function ParseBlock(s: seq<octet>, at: nat, bs: nat, limit: nat): Piece
    requires limit >= 1
  {
    if at > |s| then PieceOverran
    else
      match Token(s, at, limit)
      case Missing => BadPiece
      case Overrun => PieceOverran
      case Found(p) =>
        if p + bs + CRC_OCTETS > |s| then PieceOverran
        else if Join(s[p + bs], s[p + bs + 1]) != Crc16(s[p..p + bs]) then BadPiece
        else Piece(s[p..p + bs], p + bs + CRC_READ_OCTETS)
  }

  function ParseBlocks(s: seq<octet>, at: nat, bs: nat, n: nat, limit: nat): Parse
    requires limit >= 1
    decreases n
  {
    if n == 0 then Blocks([])
    else
      match ParseBlock(s, at, bs, limit)
      case BadPiece => Broken([])
      case PieceOverran => Overran([])
      case Piece(b, next) => PrependBlock(b, ParseBlocks(s, next, bs, n - 1, limit))
  }

  // ---------------------------------------------------------------- the host recovers what the card sent

  predicate Sized(gs: seq<Received>, bs: nat) {
    forall g :: g in gs ==> |g.data| == bs
  }

  function Payloads(gs: seq<Received>): (blocks: seq<seq<octet>>)
    ensures |blocks| == |gs| && forall k {:trigger blocks[k]} :: 0 <= k < |gs| ==> blocks[k] == gs[k].data
  {
    seq(|gs|, k requires 0 <= k < |gs| => gs[k].data)
  }

  /** How many blocks the host takes: up to the first that is late, cut short by the buffer or fails its check. */
  function Taken(p: Pace, gs: seq<Received>, bs: nat, i: nat, limit: nat, room: int): (k: nat)
    ensures k <= |gs|
    decreases |gs|
  {
    if gs == [] || Lag(p, i) + 1 >= limit || Lag(p, i) + TOKEN_LEN + bs + CRC_OCTETS > room || Crc16(gs[0].data) != gs[0].crc then 0
    else 1 + Taken(p, gs[1..], bs, i + 1, limit, room - (Lag(p, i) + TOKEN_LEN + bs + CRC_READ_OCTETS))
  }

  /** The parts of a read slot, seen in a buffer that holds as much of it as there is room for. */
  lemma SlotInBuffer(p: Pace, g: Received, rest: seq<octet>, i: nat, s: seq<octet>, at: nat)
    requires at <= |s| && s[at..] == Clocked(ReadSlot(p, g, i) + rest, |s| - at)
    ensures forall j {:trigger s[j]} :: at <= j < |s| && j < at + Lag(p, i) ==> s[j] == JUNK
    ensures at + Lag(p, i) + TOKEN_LEN + |g.data| + CRC_OCTETS <= |s| ==>
              var q := at + Lag(p, i) + 1;
              && FirstAt(s, at, Lag(p, i)) && StartsBlock(s[at + Lag(p, i)])
              && s[q..q + |g.data|] == g.data && s[q + |g.data|] == High(g.crc) && s[q + |g.data| + 1] == Low(g.crc)
    ensures at + |ReadSlot(p, g, i)| <= |s| ==>
              s[at + |ReadSlot(p, g, i)|..] == Clocked(rest, |s| - at - |ReadSlot(p, g, i)|)
  {
    var slot, lag, t, b := ReadSlot(p, g, i), Lag(p, i), s[at..], g.data;
    SlotIsPrefix(slot, rest, t);
    ReadSlotParts(p, g, i);
    BehindSlot(s, at, |slot|);
    hide *;
    assert forall j {:trigger s[j]} :: at <= j < |s| ==> s[j] == t[j - at];
    if at + lag + TOKEN_LEN + |b| + CRC_OCTETS <= |s| {
      FirstAtIs(s, at, lag);
      assert forall j {:trigger s[j]} :: at <= j < at + |slot| && j < |s| ==> s[j] == t[j - at] == slot[j - at];
      BlockInSlot(s, at, slot, lag + 1, b);
    }
  }

  lemma BehindSlot(s: seq<octet>, at: nat, len: nat)
    ensures at + len <= |s| ==> s[at + len..] == s[at..][len..]
  {
  }

  lemma BlockInSlot(s: seq<octet>, at: nat, slot: seq<octet>, from: nat, b: seq<octet>)
    requires at + from + |b| <= |s| && from + |b| <= |slot|
    requires forall j {:trigger s[j]} :: at <= j < at + |slot| && j < |s| ==> s[j] == slot[j - at]
    requires slot[from..from + |b|] == b
    ensures s[at + from..at + from + |b|] == b
  {
    forall k | 0 <= k < |b|
      ensures s[at + from + k] == b[k]
    {
      assert slot[from..from + |b|][k] == slot[from + k];
    }
  }

  lemma FirstAtIs(s: seq<octet>, at: nat, k: nat)
    requires at + k < |s| && s[at + k] != JUNK && forall j {:trigger s[j]} :: at <= j < at + k ==> s[j] == JUNK
    ensures FirstAt(s, at, k)
  {
  }

  lemma SlotIsPrefix(slot: seq<octet>, rest: seq<octet>, t: seq<octet>)
    requires t == Clocked(slot + rest, |t|)
    ensures forall k {:trigger t[k]} :: 0 <= k < |t| && k < |slot| ==> t[k] == slot[k]
    ensures |slot| <= |t| ==> t[|slot|..] == Clocked(rest, |t| - |slot|)
  {
  }

  lemma ReadSlotParts(p: Pace, g: Received, i: nat)
    ensures var slot, lag, b := ReadSlot(p, g, i), Lag(p, i), g.data;
            && (forall k {:trigger slot[k]} :: 0 <= k < lag ==> slot[k] == JUNK)
            && StartsBlock(slot[lag]) && slot[lag] != JUNK
            && slot[lag + 1..lag + 1 + |b|] == b
            && slot[lag + 1 + |b|] == High(g.crc) && slot[lag + |b| + 2] == Low(g.crc)
  {
    hide High, Low;
  }

  /** An intact block goes out between a start token and its remainder. */
  lemma IntactSlotParts(p: Pace, b: seq<octet>, i: nat)
    ensures var s, lag := ReadSlot(p, Received(b, Crc16(b)), i), Lag(p, i);
            && s[lag] == (if p.multi then 0xFC else 0xFE)
            && s[lag + 1..lag + 1 + |b|] == b
            && HoldsRemainder(s[lag + 1 + |b|..lag + 3 + |b|], b)
  {
    CheckOctetsHold(b);
    hide HoldsRemainder, Crc16, High, Low, Lag;
    var s, lag := ReadSlot(p, Received(b, Crc16(b)), i), Lag(p, i);
    assert s[lag + 1 + |b|..lag + 3 + |b|] == CheckOctets(b);
  }

  /** The host takes a block exactly when it finds a token and the two octets after the block hold its remainder. */
  lemma PieceIff(s: seq<octet>, at: nat, bs: nat, limit: nat)
    requires limit >= 1 && at <= |s|
    ensures ParseBlock(s, at, bs, limit).Piece? <==>
            var t := Token(s, at, limit);
            t.Found? && t.next + bs + 2 <= |s| && HoldsRemainder(s[t.next + bs..t.next + bs + 2], s[t.next..t.next + bs])
  {
    var t := Token(s, at, limit);
    hide Token, HoldsRemainder, Crc16, Join;
    if t.Found? && t.next + bs + 2 <= |s| {
      var q := t.next + bs;
      assert s[q..q + 2] == [s[q], s[q + 1]];
      CheckedIff(s[t.next..q], s[q], s[q + 1]);
    }
  }

  lemma CheckedIff(b: seq<octet>, x: octet, y: octet)
    ensures Join(x, y) == Crc16(b) <==> HoldsRemainder([x, y], b)
  {
    Crc16IsRemainder(b);
    hide Crc16, OctetBits, MessageBits, Gf2.Register, Join;
    assert WordBits(Join(x, y)) == OctetBits(x) + OctetBits(y);
    if HoldsRemainder([x, y], b) {
      WordBitsInjective(Join(x, y), Crc16(b));
    }
  }

  /** After so much junk a start token is not found before it. */
  lemma TokenAfterJunk(s: seq<octet>, at: nat, size: nat, lag: nat)
    requires at <= |s| && size >= 1
    requires forall j {:trigger s[j]} :: at <= j < |s| && j < at + lag ==> s[j] == JUNK
    ensures Token(s, at, size).Found? ==> at + lag < Token(s, at, size).next < at + size
  {
    hide StartsBlock;
    var w := s[at..if at + size - 1 <= |s| then at + size - 1 else |s|];
    var k := JunkRun(w);
    if k < |w| {
      assert w[k] == s[at + k];
    }
  }

  /** A whole slot, in time and in the buffer: the block is taken exactly when its check word is right. */
  lemma WholeSlotParsed(p: Pace, g: Received, rest: seq<octet>, i: nat, s: seq<octet>, at: nat, limit: nat)
    requires at <= |s| && s[at..] == Clocked(ReadSlot(p, g, i) + rest, |s| - at)
    requires Lag(p, i) + 1 < limit && at + Lag(p, i) + TOKEN_LEN + |g.data| + CRC_OCTETS <= |s|
    ensures ParseBlock(s, at, |g.data|, limit) ==
            if Crc16(g.data) == g.crc then Piece(g.data, at + |ReadSlot(p, g, i)|) else BadPiece
  {
    hide Token, Clocked, FirstAt, ReadSlot, StartsBlock, Crc16, Join, High, Low;
    SlotInBuffer(p, g, rest, i, s, at);
    TokenAt(s, at, limit, Lag(p, i));
    JoinSplit(g.crc);
  }

  /** A slot that is late or cut short yields no block. */
  lemma PartSlotRefused(p: Pace, g: Received, rest: seq<octet>, i: nat, s: seq<octet>, at: nat, limit: nat)
    requires at <= |s| && s[at..] == Clocked(ReadSlot(p, g, i) + rest, |s| - at) && limit >= 1
    requires Lag(p, i) + 1 >= limit || at + Lag(p, i) + TOKEN_LEN + |g.data| + CRC_OCTETS > |s|
    ensures !ParseBlock(s, at, |g.data|, limit).Piece?
  {
    hide Token, Clocked, FirstAt, ReadSlot, StartsBlock, Crc16, Join, High, Low;
    SlotInBuffer(p, g, rest, i, s, at);
    TokenAfterJunk(s, at, limit, Lag(p, i));
  }

  /** The stream `s` holds, from `at` on, what a card sends of the blocks, as far as the buffer goes. */
  predicate Streams(p: Pace, gs: seq<Received>, i: nat, s: seq<octet>, at: nat) {
    at <= |s| ==> s[at..] == Clocked(ReadSlots(p, gs, i), |s| - at)
  }

  lemma StreamsOn(p: Pace, gs: seq<Received>, bs: nat, i: nat, s: seq<octet>, at: nat, limit: nat)
    requires limit >= 1 && gs != [] && Sized(gs, bs) && Streams(p, gs, i, s, at)
    ensures var next, piece := at + Lag(p, i) + TOKEN_LEN + bs + CRC_READ_OCTETS, ParseBlock(s, at, bs, limit);
            && Streams(p, gs[1..], i + 1, s, next)
            && if Lag(p, i) + 1 < limit && at + Lag(p, i) + TOKEN_LEN + bs + CRC_OCTETS <= |s| && Crc16(gs[0].data) == gs[0].crc then
                 piece == Piece(gs[0].data, next)
               else !piece.Piece?
  {
    hide Token, Clocked, ReadSlot, Crc16, ParseBlock;
    var g, rest := gs[0], ReadSlots(p, gs[1..], i + 1);
    assert |g.data| == bs;
    if at > |s| {
      BeyondBuffer(s, at, bs, limit);
    } else {
      SlotInBuffer(p, g, rest, i, s, at);
      if Lag(p, i) + 1 < limit && at + Lag(p, i) + TOKEN_LEN + bs + CRC_OCTETS <= |s| {
        WholeSlotParsed(p, g, rest, i, s, at, limit);
      } else {
        PartSlotRefused(p, g, rest, i, s, at, limit);
      }
    }
  }

  lemma BeyondBuffer(s: seq<octet>, at: nat, bs: nat, limit: nat)
    requires at > |s| && limit >= 1
    ensures ParseBlock(s, at, bs, limit) == PieceOverran
  {
  }

  /**
   Whatever the card's pace, and however its blocks arrive: the host keeps exactly the blocks up
   to the first that is late, cut short or fails its check, and succeeds when that is all of them.
   */
  lemma {:induction false} ParseReadSlots(p: Pace, gs: seq<Received>, bs: nat, i: nat, s: seq<octet>, at: nat, limit: nat)
    requires limit >= 1 && Sized(gs, bs) && Streams(p, gs, i, s, at)
    ensures var r, k := ParseBlocks(s, at, bs, |gs|, limit), Taken(p, gs, bs, i, limit, |s| - at);
            r.data == Concat(Payloads(gs)[..k]) && (r.Blocks? <==> k == |gs|)
    decreases |gs|
  {
    hide ReadSlots, Streams, Token, Crc16, ParseBlock, Payloads;
    if gs == [] {
      assert Payloads(gs)[..0] == [];
    } else {
      StreamsOn(p, gs, bs, i, s, at, limit);
      var next, k := at + Lag(p, i) + TOKEN_LEN + bs + CRC_READ_OCTETS, Taken(p, gs, bs, i, limit, |s| - at);
      ParseReadSlots(p, gs[1..], bs, i + 1, s, next, limit);
      if k == 0 {
        assert Payloads(gs)[..0] == [];
      } else {
        PayloadsOn(gs, k);
      }
    }
  }

  lemma PayloadsOn(gs: seq<Received>, k: nat)
    requires 0 < k <= |gs|
    ensures Concat(Payloads(gs)[..k]) == gs[0].data + Concat(Payloads(gs[1..])[..k - 1])
  {
    var all := Payloads(gs)[..k];
    assert all[0] == gs[0].data;
    assert all[1..] == Payloads(gs[1..])[..k - 1];
  }

  // ---------------------------------------------------------------- how slow a card the host bears

  /** The octets n blocks of bs octets take, the first of them number i, spare octets included. */
  function ReadSpan(p: Pace, bs: nat, i: nat, n: nat): nat
    decreases n
  {
    if n == 0 then 0 else Lag(p, i) + TOKEN_LEN + bs + CRC_READ_OCTETS + ReadSpan(p, bs, i + 1, n - 1)
  }

  /** The last block's spare octets need not fit. */
  predicate Fits(p: Pace, bs: nat, i: nat, n: nat, room: int) {
    n > 0 ==> ReadSpan(p, bs, i, n) - (CRC_READ_OCTETS - CRC_OCTETS) <= room
  }

  predicate LagsBelow(p: Pace, i: nat, n: nat, limit: int) {
    forall j :: i <= j < i + n ==> Lag(p, j) < limit
  }

  /** How many blocks come before the first that is late or cut short by the buffer. */
  function OnTime(p: Pace, bs: nat, i: nat, n: nat, limit: nat, room: int): (k: nat)
    ensures k <= n
    decreases n
  {
    if n == 0 || Lag(p, i) + 1 >= limit || Lag(p, i) + TOKEN_LEN + bs + CRC_OCTETS > room then 0
    else 1 + OnTime(p, bs, i + 1, n - 1, limit, room - (Lag(p, i) + TOKEN_LEN + bs + CRC_READ_OCTETS))
  }

  /** All blocks are on time exactly when no lag outlasts the search and the whole stream fits the buffer. */
  lemma {:induction false} OnTimeIff(p: Pace, bs: nat, i: nat, n: nat, limit: nat, room: int)
    requires limit >= 1
    ensures OnTime(p, bs, i, n, limit, room) == n <==> LagsBelow(p, i, n, limit - 1) && Fits(p, bs, i, n, room)
    decreases n
  {
    hide Lag;
    if n > 0 {
      var more := room - (Lag(p, i) + TOKEN_LEN + bs + CRC_READ_OCTETS);
      OnTimeIff(p, bs, i + 1, n - 1, limit, more);
      assert LagsBelow(p, i, n, limit - 1) <==> Lag(p, i) < limit - 1 && LagsBelow(p, i + 1, n - 1, limit - 1);
      if n > 1 {
        assert ReadSpan(p, bs, i + 1, n - 1) >= TOKEN_LEN + bs + CRC_READ_OCTETS;
      }
    }
  }

  /** Intact blocks are taken as long as they are on time. */
  lemma {:induction false} TakenOnTime(p: Pace, blocks: seq<seq<octet>>, bs: nat, i: nat, limit: nat, room: int)
    ensures Taken(p, Intact(blocks), bs, i, limit, room) == OnTime(p, bs, i, |blocks|, limit, room)
    decreases |blocks|
  {
    hide Crc16, Lag;
    if blocks != [] {
      assert Intact(blocks)[1..] == Intact(blocks[1..]);
      TakenOnTime(p, blocks[1..], bs, i + 1, limit, room - (Lag(p, i) + TOKEN_LEN + bs + CRC_READ_OCTETS));
    }
  }

  lemma PayloadsOfIntact(blocks: seq<seq<octet>>)
    ensures Payloads(Intact(blocks)) == blocks
  {
    hide Crc16;
  }

  /** The blocks before the first late one are all the host keeps of a clean stream, and all it needs. */
  lemma ParseIntact(p: Pace, blocks: seq<seq<octet>>, bs: nat, s: seq<octet>, at: nat, limit: nat)
    requires limit >= 1 && Uniform(blocks, bs) && Streams(p, Intact(blocks), 0, s, at)
    ensures var r, k := ParseBlocks(s, at, bs, |blocks|, limit), OnTime(p, bs, 0, |blocks|, limit, |s| - at);
            r.data == Concat(blocks[..k]) && (r.Blocks? <==> k == |blocks|)
  {
    hide Streams, ParseBlocks, Taken, OnTime, Crc16, Concat;
    ParseReadSlots(p, Intact(blocks), bs, 0, s, at, limit);
    TakenOnTime(p, blocks, bs, 0, limit, |s| - at);
    PayloadsOfIntact(blocks);
  }

  // ---------------------------------------------------------------- acknowledgements

  /** What the host hears during one slot: junk while the block goes out, then the card's answer. */
  function AckSlot(p: Pace, bs: nat, i: nat, delay: nat): (s: seq<octet>)
    ensures |s| == TOKEN_LEN + bs + CRC_OCTETS + delay
  {
    Repeat(JUNK, TOKEN_LEN + bs + CRC_OCTETS) + Answer(p, i, delay)
  }

  function AckSlots(p: Pace, bs: nat, i: nat, n: nat, delay: nat): seq<octet>
    decreases n
  {
    if n == 0 then [] else AckSlot(p, bs, i, delay) + AckSlots(p, bs, i + 1, n - 1, delay)
  }

  lemma JunkRunOfSlots(token: octet, k: nat, blocks: seq<seq<octet>>, delay: nat)
    requires token != JUNK
    ensures JunkRun(Repeat(JUNK, k) + Slots(token, blocks, delay)) == k
  {
    JunkRunAfter(k, Slots(token, blocks, delay));
    if blocks != [] {
      assert Slots(token, blocks, delay)[0] == Slot(token, blocks[0], delay)[0] == Framed(token, blocks[0])[0] == token;
    }
  }

  lemma AnswersStep(p: Pace, token: octet, k: nat, b: seq<octet>, rest: seq<octet>, delay: nat, i: nat, n: nat)
    requires token != JUNK && n > 0 && JunkRun(Repeat(JUNK, delay) + rest) == delay
    ensures Answers(p, Repeat(JUNK, k) + (Slot(token, b, delay) + rest), |b|, i, n) ==
            Repeat(JUNK, k) + (AckSlot(p, |b|, i, delay) + Answers(p, rest, |b|, i + 1, n - 1))
  {
    hide Framed, Repeat, Answers, JunkRun, Answer;
    var t := Slot(token, b, delay) + rest;
    var s := Repeat(JUNK, k) + t;
    var end := k + TOKEN_LEN + |b| + CRC_OCTETS;
    JunkRunAfter(k, t);
    assert t[0] == Framed(token, b)[0];
    assert JunkRun(s) == k;
    assert s[end..] == Repeat(JUNK, delay) + rest;
    assert s[end + delay..] == rest;
    AnswersUnroll(p, s, |b|, i, n, end, delay);
    assert Reply(p, i, end, delay) == Repeat(JUNK, end) + Answer(p, i, delay);
    hide *;
  }

  lemma AnswersUnroll(p: Pace, s: seq<octet>, bs: nat, i: nat, n: nat, end: nat, gap: nat)
    requires n > 0 && end == JunkRun(s) + TOKEN_LEN + bs + CRC_OCTETS <= |s|
    requires gap == JunkRun(s[end..])
    ensures end + gap <= |s| &&
            Answers(p, s, bs, i, n) == Reply(p, i, end, gap) + Answers(p, s[end + gap..], bs, i + 1, n - 1)
  {
    hide Repeat, Reply, JunkRun, Answer;
    var rest := Answers(p, s[end + gap..], bs, i + 1, n - 1);
    assert Answers(p, s, bs, i, n) == Reply(p, i, end, gap) + rest;
  }

  lemma AnswersToNothing(p: Pace, s: seq<octet>, bs: nat, i: nat)
    ensures Answers(p, s, bs, i, 0) == Repeat(JUNK, |s|)
  {
    hide Repeat;
  }

  lemma NoJunk(s: seq<octet>)
    ensures Repeat(JUNK, 0) + s == s
  {
  }

  /** While the host sends its slots the card's answers fall one into each slot. */
  lemma {:induction false} AnswersToSlots(p: Pace, token: octet, k: nat, blocks: seq<seq<octet>>, bs: nat, delay: nat, i: nat)
    requires token != JUNK && Uniform(blocks, bs)
    ensures Answers(p, Repeat(JUNK, k) + Slots(token, blocks, delay), bs, i, |blocks|) ==
            Repeat(JUNK, k) + AckSlots(p, bs, i, |blocks|, delay)
    decreases |blocks|
  {
    hide Slot, AckSlot, Answers, JunkRun, Repeat;
    if blocks == [] {
      assert Repeat(JUNK, k) + Slots(token, blocks, delay) == Repeat(JUNK, k);
      assert Repeat(JUNK, k) + AckSlots(p, bs, i, 0, delay) == Repeat(JUNK, k);
      AnswersToNothing(p, Repeat(JUNK, k), bs, i);
    } else {
      var rest := Slots(token, blocks[1..], delay);
      JunkRunOfSlots(token, delay, blocks[1..], delay);
      AnswersToSlots(p, token, 0, blocks[1..], bs, delay, i + 1);
      NoJunk(rest);
      NoJunk(AckSlots(p, bs, i + 1, |blocks| - 1, delay));
      AnswersStep(p, token, k, blocks[0], rest, delay, i, |blocks|);
    }
  }

  /** Every slot of the n at `at` holds an acknowledgement. */
  predicate AllAcked(s: seq<octet>, at: nat, size: nat, n: nat)
    requires size >= 1
    decreases n
  {
    n == 0 || (at + size <= |s| && Ack(s, at, size).Found? && AllAcked(s, at + size, size, n - 1))
  }

  /** The acknowledgement searches look at nothing before the first slot. */
  lemma {:induction false} AllAckedFrom(s: seq<octet>, at: nat, size: nat, n: nat)
    requires size >= 1 && at <= |s|
    ensures AllAcked(s, at, size, n) == AllAcked(s[at..], 0, size, n)
    decreases n
  {
    hide Ack;
    var t := s[at..];
    if n > 0 && at + size <= |s| {
      AckFrom(s, at, size);
      AllAckedFrom(s, at + size, size, n - 1);
      AllAckedFrom(t, size, size, n - 1);
      assert t[size..] == s[at + size..];
    }
  }

  lemma AckFrom(s: seq<octet>, at: nat, size: nat)
    requires size >= 1 && at + size <= |s|
    ensures Ack(s, at, size).Found? == Ack(s[at..], 0, size).Found?
  {
    hide Accepted;
    assert s[at..][0..size - 1] == s[at..at + size - 1];
  }

  /** Whether an answer that lags so far is an acknowledgement the host finds; a junk octet is passed over. */
  predicate Acknowledges(p: Pace, lag: nat, delay: nat) {
    lag + 1 < delay && (Accepted(p.ack) || (p.ack == JUNK && lag + 2 < delay && Accepted(p.fill)))
  }

  lemma AckSlotSearched(p: Pace, bs: nat, delay: nat, i: nat)
    ensures Ack(AckSlot(p, bs, i, delay), 0, TOKEN_LEN + bs + CRC_OCTETS + delay).Found? <==> Acknowledges(p, Lag(p, i), delay)
  {
    var slot, size, lag := AckSlot(p, bs, i, delay), TOKEN_LEN + bs + CRC_OCTETS + delay, Lag(p, i);
    var w, front := slot[0..size - 1], TOKEN_LEN + bs + CRC_OCTETS;
    hide Accepted, AckSlot, Lag;
    assert forall j {:trigger w[j]} :: 0 <= j < |w| ==> w[j] == slot[j];
    if lag + 1 >= delay || (p.ack == JUNK && (p.fill == JUNK || lag + 2 >= delay)) {
      JunkRunIs(w, size - 1);
    } else if p.ack != JUNK {
      JunkRunIs(w, front + lag);
    } else {
      JunkRunIs(w, front + lag + 1);
    }
  }

  /** The host finds all acknowledgements exactly when each comes in time and accepts its block. */
  lemma {:induction false} AcksAreSeenIff(p: Pace, bs: nat, delay: nat, i: nat, n: nat)
    ensures AllAcked(AckSlots(p, bs, i, n, delay), 0, TOKEN_LEN + bs + CRC_OCTETS + delay, n) <==>
            forall j :: i <= j < i + n ==> Acknowledges(p, Lag(p, j), delay)
    decreases n
  {
    hide Acknowledges, Ack, AckSlot, Lag;
    if n > 0 {
      var slot, size := AckSlot(p, bs, i, delay), TOKEN_LEN + bs + CRC_OCTETS + delay;
      var s := AckSlots(p, bs, i, n, delay);
      AckSlotSearched(p, bs, delay, i);
      AckInWindow(s, slot, size);
      AcksAreSeenIff(p, bs, delay, i + 1, n - 1);
      AllAckedFrom(s, size, size, n - 1);
      assert s[size..] == AckSlots(p, bs, i + 1, n - 1, delay);
    }
  }

  lemma AckInWindow(s: seq<octet>, slot: seq<octet>, size: nat)
    requires |slot| == size >= 1 && size <= |s| && s[..size] == slot
    ensures Ack(s, 0, size).Found? == Ack(slot, 0, size).Found?
  {
    hide Accepted;
    assert s[0..size - 1] == slot[0..size - 1];
  }

  // ---------------------------------------------------------------- what the searches find

  /** A start token is found exactly when the first octet that is not 0xFF, if it is not the last of the window, is one. */
  lemma TokenFoundIff(s: seq<octet>, at: nat, size: nat)
    requires at <= |s| && size >= 1
    ensures Token(s, at, size).Found? <==>
            exists k {:trigger FirstAt(s, at, k)} :: 0 <= k < size - 1 && FirstAt(s, at, k) && (s[at + k] == 0xFC || s[at + k] == 0xFE)
  {
    var w := s[at..if at + size - 1 <= |s| then at + size - 1 else |s|];
    var k := JunkRun(w);
    if k < |w| {
      assert FirstAt(s, at, k) by { RunEnds(s, at, w, k); }
    }
    hide Token, FirstAt;
    if k: nat :| k < size - 1 && FirstAt(s, at, k) {
      TokenAt(s, at, size, k);
    }
  }

  lemma RunEnds(s: seq<octet>, at: nat, w: seq<octet>, k: nat)
    requires k < |w| && at + |w| <= |s| && w == s[at..at + |w|] && k == JunkRun(w)
    ensures FirstAt(s, at, k)
  {
    assert forall j {:trigger s[j]} :: at <= j < at + k ==> s[j] == w[j - at];
  }

  /** An acknowledgement is found exactly when the first octet that is not 0xFF, if it is not the last of the window, accepts. */
  lemma AckFoundIff(s: seq<octet>, at: nat, size: nat)
    requires at + size <= |s| && size >= 1
    ensures Ack(s, at, size).Found? <==>
            exists k {:trigger FirstAt(s, at, k)} :: 0 <= k < size - 1 && FirstAt(s, at, k) && Accepted(s[at + k])
  {
    hide Accepted;
    var w := s[at..at + size - 1];
    var k := JunkRun(w);
    if k < |w| {
      assert FirstAt(s, at, k) by { RunEnds(s, at, w, k); }
    }
    hide Ack, FirstAt;
    if k: nat :| k < size - 1 && FirstAt(s, at, k) {
      AckAt(s, at, size, k);
    }
  }

  // ---------------------------------------------------------------- what the octets mean

  /** A response succeeds when none of its seven error bits is set; its last bit says idle. */
  lemma SucceedsIff(o: octet)
    ensures Succeeds(o) <==> o == 0x00 || o == 0x01
  {
  }

  /** An octet is an acceptance when its last five bits are 00101: 0 and 1 around the status 010. */
  lemma AcceptedIff(o: octet)
    ensures Accepted(o) <==> OctetBits(o)[3..] == [false, false, true, false, true]
    ensures !Accepted(0x0B) && !Accepted(0x0D)
  {
    assert OctetBits(o)[3..] == [o & 0x10 != 0, o & 0x08 != 0, o & 0x04 != 0, o & 0x02 != 0, o & 0x01 != 0];
    hide OctetBits;
    var p: seq<bool> := [false, false, true, false, true];
    assert OctetBits(o)[3..] == p <==>
           (o & 0x10 != 0) == p[0] && (o & 0x08 != 0) == p[1] && (o & 0x04 != 0) == p[2] && (o & 0x02 != 0) == p[3] && (o & 0x01 != 0) == p[4];
  }

  // ---------------------------------------------------------------- damage on the wire

  /** `g` is what arrived of `b` and its check word: no bits changed but among the 16 from number `from` on. */
  predicate BurstAt(b: seq<octet>, g: Received, from: int) {
    |g.data| == |b| && Gf2.Burst(Damage16(b, g.data, g.crc), from, 16)
  }

  ghost predicate OneBurst(b: seq<octet>, g: Received) {
    exists from: int :: BurstAt(b, g, from)
  }

  /** A block with the right check word arrived as it was sent. */
  lemma AcceptedIsSent(b: seq<octet>, g: Received)
    requires OneBurst(b, g) && Crc16(g.data) == g.crc
    ensures g == Received(b, Crc16(b))
  {
    hide Crc16, Damage16, Gf2.Burst;
    var from: int :| BurstAt(b, g, from);
    if g.data != b || g.crc != Crc16(b) {
      Crc16DetectsBursts(b, g.data, g.crc, from);
    }
  }

  /** The blocks taken of a damaged stream are the ones that were sent. */
  lemma {:induction false} TakenIsSent(p: Pace, blocks: seq<seq<octet>>, gs: seq<Received>, bs: nat, i: nat, limit: nat, room: int)
    requires |gs| == |blocks| && forall k {:trigger gs[k]} :: 0 <= k < |gs| ==> OneBurst(blocks[k], gs[k])
    ensures var k := Taken(p, gs, bs, i, limit, room);
            forall j {:trigger gs[j]} :: 0 <= j < k ==> gs[j] == Received(blocks[j], Crc16(blocks[j]))
    decreases |gs|
  {
    hide Crc16, Lag, OneBurst;
    var k := Taken(p, gs, bs, i, limit, room);
    if k > 0 {
      AcceptedIsSent(blocks[0], gs[0]);
      var rest := gs[1..];
      assert forall j {:trigger rest[j]} :: 0 <= j < |rest| ==> rest[j] == gs[j + 1];
      TakenIsSent(p, blocks[1..], rest, bs, i + 1, limit, room - (Lag(p, i) + TOKEN_LEN + bs + CRC_READ_OCTETS));
      assert forall j {:trigger gs[j]} :: 1 <= j < k ==> gs[j] == rest[j - 1];
    }
  }

  lemma DamagedAreSized(blocks: seq<seq<octet>>, gs: seq<Received>, bs: nat)
    requires Uniform(blocks, bs) && |gs| == |blocks|
    requires forall k {:trigger gs[k]} :: 0 <= k < |gs| ==> OneBurst(blocks[k], gs[k])
    ensures Sized(gs, bs)
  {
    hide Damage16, Gf2.Burst;
    forall g | g in gs ensures |g.data| == bs {
      var k :| 0 <= k < |gs| && gs[k] == g;
      assert OneBurst(blocks[k], gs[k]) && |blocks[k]| == bs;
    }
  }

  /**
   A card's stream in which every block and its check word are damaged by at most one burst: the
   host keeps only blocks that were sent, in order from the first, and reports success exactly
   when nothing was damaged, late or cut short.
   */
  lemma DamageNeverDelivered(p: Pace, blocks: seq<seq<octet>>, gs: seq<Received>, bs: nat, s: seq<octet>, at: nat, limit: nat)
    requires limit >= 1 && Uniform(blocks, bs) && |gs| == |blocks| && Streams(p, gs, 0, s, at)
    requires forall k {:trigger gs[k]} :: 0 <= k < |gs| ==> OneBurst(blocks[k], gs[k])
    ensures var r, k, n := ParseBlocks(s, at, bs, |blocks|, limit), Taken(p, gs, bs, 0, limit, |s| - at), |blocks|;
            && r.data == Concat(blocks[..k])
            && (r.Blocks? ==> r.data == Concat(blocks))
            && (r.Blocks? <==> gs == Intact(blocks) && LagsBelow(p, 0, n, limit - 1) && Fits(p, bs, 0, n, |s| - at))
  {
    hide ParseBlocks, Taken, Crc16, Streams, Concat, LagsBelow, Fits, OnTime, OneBurst, Sized;
    DamagedAreSized(blocks, gs, bs);
    ParseReadSlots(p, gs, bs, 0, s, at, limit);
    TakenIsSent(p, blocks, gs, bs, 0, limit, |s| - at);
    var k := Taken(p, gs, bs, 0, limit, |s| - at);
    assert Payloads(gs)[..k] == blocks[..k];
    assert blocks[..|blocks|] == blocks;
    TakenOnTime(p, blocks, bs, 0, limit, |s| - at);
    OnTimeIff(p, bs, 0, |blocks|, limit, |s| - at);
    assert k == |gs| ==> gs == Intact(blocks);
  }
}
