/**
 The other end of the wire: a card with three keyhole registers in front of a 32-bit
 memory, as the host code of `transport/sdio_over_spi.c` expects it. It answers a
 transaction octet for octet and is as strict as the program's own comments allow: it
 serves word-aligned accesses that stay inside the selected 64 kB window and nothing else.
 */
module SdioChip {
  import opened Gf2
  import opened Octets
  import opened SdioCommand
  import opened SdioFrames

  const MEM_SIZE: nat := 0x1_0000_0000
  const WINDOW: nat := 0x1_0000

  const KEYHOLE_ADDR_WIN0: nat := 0x1_0000
  const KEYHOLE_ADDR_WIN1: nat := 0x1_0001
  const KEYHOLE_ADDR_CFG: nat := 0x1_0002

  const SDIO_FUNC_REG: nat := 2
  const SDIO_FUNC_MEM_BLOCK: nat := 2
  const BLOCK_SIZE: nat := 512

  /** CFG value of word accesses: the size argument 2 under the mask 3. */
  const CFG_WORD: nat := 2

  const RESP_SIZE: nat := 4

  datatype Chip = Chip(win0: nat, win1: nat, cfg: nat, mem: seq<octet>) {
    predicate Valid() {
      win0 < 256 && win1 < 256 && |mem| == MEM_SIZE
    }

    /** The 32-bit address behind a 16-bit one. */
    function Address(low: nat): nat {
      win1 * 0x100_0000 + win0 * 0x1_0000 + low
    }

    predicate Serves(low: nat, len: nat) {
      cfg == 2 && len > 0 && low % 4 == 0 && len % 4 == 0 && low + len <= 0x1_0000
    }
  }

  /** `data` written over `mem` at `at`, and nothing else changed. */
  function Store(mem: seq<octet>, at: nat, data: seq<octet>): (r: seq<octet>)
    requires at + |data| <= |mem|
    ensures |r| == |mem|
    ensures forall i {:trigger r[i]} :: 0 <= i < |mem| ==> r[i] == if at <= i < at + |data| then data[i - at] else mem[i]
  {
    mem[..at] + data + mem[at + |data|..]
  }

  /** The card's three keyhole registers. */
  function WriteReg(c: Chip, addr: nat, v: octet): Chip {
    if addr == 0x1_0000 then c.(win0 := Value(v))
    else if addr == 0x1_0001 then c.(win1 := Value(v))
    else if addr == 0x1_0002 then c.(cfg := Value(v))
    else c
  }

  /** The chip after a CMD52. */
  function AfterDirect(c: Chip, write: bool, func: nat, addr: nat, v: octet): Chip {
    if write && func == 2 then WriteReg(c, addr, v) else c
  }

  function BlockLen(blockMode: bool, count: nat): nat {
    if blockMode then BLOCK_SIZE else count
  }

  function BlockCount(blockMode: bool, count: nat): nat {
    if blockMode then count else 1
  }

  function StartToken(blockMode: bool): octet {
    if blockMode then MULTI_BLOCK_START_TOKEN else SINGLE_START_TOKEN
  }

  /** The start tokens a card insists on: one for the blocks of a multi-block write, another for a single one. */
  function CardToken(blockMode: bool): octet {
    if blockMode then 0xFC else 0xFE
  }

  /** How many octets a CMD53 moves. */
  function Bytes(blockMode: bool, count: nat): (len: nat)
    ensures len == BlockCount(blockMode, count) * BlockLen(blockMode, count)
  {
    if blockMode then count * BLOCK_SIZE else count
  }

  lemma AddressInMemory(c: Chip, low: nat, len: nat)
    requires c.Valid() && low + len <= WINDOW
    ensures c.Address(low) + len <= |c.mem|
  {
  }

  /** R5: after a lag of junk, a status octet and another octet. */
  function R5(p: Pace, n: nat): (s: seq<octet>)
    ensures |s| == n
  {
    Clocked(Repeat(JUNK, p.respLag) + [p.status, p.echo], n)
  }

  function Silence(n: nat): (s: seq<octet>)
    ensures |s| == n
  {
    Repeat(JUNK, n)
  }

  /** A CMD53 write: the blocks must all arrive intact, and are acknowledged as they do. */
  function TakeWrite(c: Chip, mosi: seq<octet>, p: Pace, blockMode: bool, low: nat, count: nat): (r: (Chip, seq<octet>))
    requires c.Valid() && |mosi| >= CMD_HDR_LEN + RESP_SIZE && low + Bytes(blockMode, count) <= WINDOW
    ensures |r.1| == |mosi| && r.0.Valid()
  {
    var bs, n := BlockLen(blockMode, count), BlockCount(blockMode, count);
    match TakeBlocks(CardToken(blockMode), mosi[CMD_HDR_LEN..], bs, n)
    case None => (c, Silence(|mosi|))
    case Some(data) =>
      TakenLength(CardToken(blockMode), mosi[CMD_HDR_LEN..], bs, n);
      AddressInMemory(c, low, |data|);
      (c.(mem := Store(c.mem, c.Address(low), data)),
       Silence(CMD_HDR_LEN) + R5(p, RESP_SIZE) + Answers(p, mosi[CMD_HDR_LEN + RESP_SIZE..], bs, 0, n))
  }

  lemma {:induction false} TakenLength(token: octet, s: seq<octet>, bs: nat, n: nat)
    ensures match TakeBlocks(token, s, bs, n) case None => true case Some(d) => |d| == n * bs
    decreases n
  {
    hide CheckOctets;
    if n > 0 {
      var t := s[JunkRun(s)..];
      if |t| >= TOKEN_LEN + bs + CRC_OCTETS {
        TakenLength(token, t[TOKEN_LEN + bs + CRC_OCTETS..], bs, n - 1);
        Product(n, bs);
      }
    }
  }

  /** The blocks of the memory a CMD53 read addresses. */
  function Addressed(c: Chip, blockMode: bool, low: nat, count: nat): seq<seq<octet>>
    requires c.Valid() && low + Bytes(blockMode, count) <= WINDOW
  {
    AddressInMemory(c, low, Bytes(blockMode, count));
    Split(c.mem[c.Address(low)..c.Address(low) + Bytes(blockMode, count)], BlockLen(blockMode, count), BlockCount(blockMode, count))
  }

  /** A CMD53 read: the addressed memory, streamed block by block. */
  function TakeRead(c: Chip, len: nat, p: Pace, blockMode: bool, low: nat, count: nat): (r: (Chip, seq<octet>))
    requires c.Valid() && low + Bytes(blockMode, count) <= WINDOW
    ensures |r.1| == len && r.0 == c
  {
    (c, Clocked(Silence(CMD_HDR_LEN) + R5(p, RESP_SIZE) + ReadSlots(p, Intact(Addressed(c, blockMode, low, count)), 0), len))
  }

  /** A CMD53 whose arguments have been read; what is not served is met with silence. */
  function Serve(c: Chip, mosi: seq<octet>, p: Pace, write: bool, blockMode: bool, low: nat, count: nat): (r: (Chip, seq<octet>))
    requires c.Valid()
    ensures |r.1| == |mosi| && r.0.Valid()
  {
    if !c.Serves(low, Bytes(blockMode, count)) || |mosi| < CMD_HDR_LEN + RESP_SIZE then (c, Silence(|mosi|))
    else if write then TakeWrite(c, mosi, p, blockMode, low, count)
    else TakeRead(c, |mosi|, p, blockMode, low, count)
  }

  /** One chip-select period: the octets sent and the ones heard are equally many. */
  function Exchange(c: Chip, mosi: seq<octet>, p: Pace): (r: (Chip, seq<octet>))
    requires c.Valid()
    ensures |r.1| == |mosi| && r.0.Valid()
  {
    hide Decode, Serve, R5, Register, OctetBits, MessageBits;
    match Decode(mosi)
    case Direct(write, func, addr, v) =>
      (AfterDirect(c, write, func, addr, v), Silence(CMD_HDR_LEN) + R5(p, |mosi| - CMD_HDR_LEN))
    case Extended(write, func, blockMode, increment, low, count) =>
      if func != 2 || !increment then (c, Silence(|mosi|))
      // In byte mode the count 0 stands for 512.
      else Serve(c, mosi, p, write, blockMode, low, if count == 0 && !blockMode then 512 else count)
    case Unreadable => (c, Silence(|mosi|))
  }

  // ---------------------------------------------------------------- what the host's transactions do

  /** Whether the host finds a response in the n octets in which it looks for one. */
  predicate Responds(p: Pace, n: nat)
    requires n >= 1
  {
    Resp(R5(p, n), 0, n).Found?
  }

  /** The response is found when it comes in time and reports no error; an idle status octet is passed over. */
  lemma RespondsIff(p: Pace, n: nat)
    requires n >= 1
    ensures Responds(p, n) <==>
            p.respLag + 1 < n &&
            (p.status in {0x00, 0x01} || (p.status in {0xFE, 0xFF} && p.respLag + 2 < n && p.echo in {0x00, 0x01}))
  {
    var s := R5(p, n);
    R5At(p, n);
    SucceedsIff(p.status);
    SucceedsIff(p.echo);
    IdleIs(p.status);
    IdleIs(p.echo);
    hide R5, Succeeds;
    var w := s[0..n - 1];
    assert forall j {:trigger w[j]} :: 0 <= j < n - 1 ==> w[j] == s[j];
    hide Idle;
    JunkIsIdle();
    if p.respLag + 1 >= n {
      IdleRunIs(w, n - 1);
    } else if !Idle(p.status) {
      IdleRunIs(w, p.respLag);
    } else if p.respLag + 2 >= n {
      IdleRunIs(w, n - 1);
    } else if !Idle(p.echo) {
      IdleRunIs(w, p.respLag + 1);
    } else {
      IdleRunIs(w, n - 1);
    }
  }

  lemma R5At(p: Pace, n: nat)
    ensures forall j {:trigger R5(p, n)[j]} :: 0 <= j < n ==>
              R5(p, n)[j] == if j == p.respLag then p.status else if j == p.respLag + 1 then p.echo else JUNK
  {
  }

  lemma JunkIsIdle()
    ensures Idle(JUNK)
  {
  }

  lemma ExchangeDirect(c: Chip, p: Pace, write: bool, func: nat, addr: nat, v: octet, rest: seq<octet>)
    requires c.Valid() && func < 8 && addr < 0x2_0000
    ensures Exchange(c, Header(52, Cmd52Args(write, func, addr, v)) + rest, p) ==
            (AfterDirect(c, write, func, addr, v), Silence(CMD_HDR_LEN) + R5(p, |rest|))
  {
    DirectRoundTrip(write, func, addr, v, rest);
    hide Decode, Header, Cmd52Args, AfterDirect, R5, Silence;
  }

  predicate CountOk(blockMode: bool, count: nat) {
    0 < count && (if blockMode then count < 512 else count <= 512)
  }

  /** The 9-bit count field, with 512 sent as 0 in byte mode. */
  function CountSent(blockMode: bool, count: nat): nat {
    var k := count % 512;
    if k == 0 && !blockMode then 512 else k
  }

  lemma CountBack(blockMode: bool, count: nat)
    requires CountOk(blockMode, count)
    ensures CountSent(blockMode, count) == count
  {
  }

  lemma ExchangeDecoded(c: Chip, mosi: seq<octet>, p: Pace, write: bool, blockMode: bool, low: nat, k: nat)
    requires c.Valid() && Decode(mosi) == Extended(write, SDIO_FUNC_MEM_BLOCK, blockMode, true, low, k)
    ensures Exchange(c, mosi, p) == Serve(c, mosi, p, write, blockMode, low, if k == 0 && !blockMode then 512 else k)
  {
    hide Decode, Serve, Silence;
  }

  lemma ExchangeExtended(c: Chip, p: Pace, write: bool, blockMode: bool, addr: nat, count: nat, rest: seq<octet>)
    requires c.Valid() && CountOk(blockMode, count)
    ensures var mosi := Header(53, Cmd53Args(write, SDIO_FUNC_MEM_BLOCK, blockMode, addr, count)) + rest;
            Exchange(c, mosi, p) == Serve(c, mosi, p, write, blockMode, addr % WINDOW, count)
  {
    var mosi := Header(53, Cmd53Args(write, SDIO_FUNC_MEM_BLOCK, blockMode, addr, count)) + rest;
    ExtendedRoundTrip(write, SDIO_FUNC_MEM_BLOCK, blockMode, addr, count, rest);
    CountBack(blockMode, count);
    hide Decode, Header, Cmd53Args, Serve, Silence, Exchange, CountOk;
    ExchangeDecoded(c, mosi, p, write, blockMode, addr % WINDOW, count % 512);
  }

  /** What the host sends in a CMD53 write. */
  function WriteFrame(blockMode: bool, addr: nat, count: nat, blocks: seq<seq<octet>>, delay: nat): (s: seq<octet>) {
    Header(53, Cmd53Args(true, SDIO_FUNC_MEM_BLOCK, blockMode, addr, count)) +
    (Repeat(JUNK, 8) + Slots(StartToken(blockMode), blocks, delay))
  }

  lemma WriteFrameParts(blockMode: bool, addr: nat, count: nat, blocks: seq<seq<octet>>, delay: nat)
    ensures var s := WriteFrame(blockMode, addr, count, blocks, delay);
            var slots := Slots(StartToken(blockMode), blocks, delay);
            && |s| >= CMD_HDR_LEN + RESP_SIZE
            && s[CMD_HDR_LEN..] == Repeat(JUNK, 8) + slots
            && s[CMD_HDR_LEN + RESP_SIZE..] == Repeat(JUNK, 4) + slots
  {
    hide Header, Cmd53Args, Slots;
  }

  /** What the host hears of a served write. */
  function WriteReply(p: Pace, bs: nat, n: nat, delay: nat): seq<octet> {
    Silence(CMD_HDR_LEN) + R5(p, RESP_SIZE) + (Repeat(JUNK, 4) + AckSlots(p, bs, 0, n, delay))
  }

  /** The card stores exactly the host's payload, and acknowledges each block in its own slot. */
  lemma ExchangeWrite(c: Chip, p: Pace, blockMode: bool, addr: nat, count: nat, data: seq<octet>, delay: nat)
    requires c.Valid() && CountOk(blockMode, count) && |data| == Bytes(blockMode, count)
    requires c.Serves(addr % WINDOW, |data|)
    ensures c.Address(addr % WINDOW) + |data| <= |c.mem|
    ensures var bs, n := BlockLen(blockMode, count), BlockCount(blockMode, count);
            Exchange(c, WriteFrame(blockMode, addr, count, Split(data, bs, n), delay), p) ==
            (c.(mem := Store(c.mem, c.Address(addr % WINDOW), data)),
             WriteReply(p, bs, n, delay))
  {
    var bs, n, token := BlockLen(blockMode, count), BlockCount(blockMode, count), StartToken(blockMode);
    var blocks := Split(data, bs, n);
    var rest := Repeat(JUNK, 8) + Slots(token, blocks, delay);
    AddressInMemory(c, addr % WINDOW, |data|);
    ExchangeExtended(c, p, true, blockMode, addr, count, rest);
    WriteFrameParts(blockMode, addr, count, blocks, delay);
    TakeSlots(token, 8, blocks, bs, delay);
    AnswersToSlots(p, token, 4, blocks, bs, delay, 0);
    hide Exchange, Header, Cmd53Args, R5, Slots, AckSlots, Answers, TakeBlocks, Store, Repeat, Bytes, Silence;
  }

  /** What a served read puts on the wire after the command. */
  predicate ReadReply(c: Chip, p: Pace, blockMode: bool, low: nat, count: nat, heard: seq<octet>)
    requires c.Valid() && low + Bytes(blockMode, count) <= WINDOW
  {
    && |heard| >= CMD_HDR_LEN + RESP_SIZE
    && heard[CMD_HDR_LEN..CMD_HDR_LEN + RESP_SIZE] == R5(p, RESP_SIZE)
    && heard[CMD_HDR_LEN + RESP_SIZE..] ==
       Clocked(ReadSlots(p, Intact(Addressed(c, blockMode, low, count)), 0), |heard| - CMD_HDR_LEN - RESP_SIZE)
  }

  /** What the host hears of a served CMD53 read. */
  lemma ExchangeRead(c: Chip, p: Pace, blockMode: bool, addr: nat, count: nat, rest: seq<octet>)
    requires c.Valid() && CountOk(blockMode, count) && |rest| >= RESP_SIZE
    requires c.Serves(addr % WINDOW, Bytes(blockMode, count))
    ensures var mosi := Header(53, Cmd53Args(false, SDIO_FUNC_MEM_BLOCK, blockMode, addr, count)) + rest;
            var r := Exchange(c, mosi, p);
            r.0 == c && ReadReply(c, p, blockMode, addr % WINDOW, count, r.1)
  {
    var mosi := Header(53, Cmd53Args(false, SDIO_FUNC_MEM_BLOCK, blockMode, addr, count)) + rest;
    ExchangeExtended(c, p, false, blockMode, addr, count, rest);
    assert Serve(c, mosi, p, false, blockMode, addr % WINDOW, count) == TakeRead(c, |mosi|, p, blockMode, addr % WINDOW, count);
    hide Exchange, Serve, Header, Cmd53Args, R5, Silence, ReadSlots, Addressed, Bytes;
    ClockedAfter(Silence(CMD_HDR_LEN) + R5(p, RESP_SIZE), ReadSlots(p, Intact(Addressed(c, blockMode, addr % WINDOW, count)), 0), |mosi|);
  }

  lemma ClockedAfter(head: seq<octet>, tail: seq<octet>, n: nat)
    requires |head| <= n
    ensures Clocked(head + tail, n) == head + Clocked(tail, n - |head|)
  {
  }

  /** What is not served is met with silence. */
  lemma ExchangeRefused(c: Chip, p: Pace, write: bool, blockMode: bool, addr: nat, count: nat, rest: seq<octet>)
    requires c.Valid() && CountOk(blockMode, count)
    requires !c.Serves(addr % WINDOW, Bytes(blockMode, count))
    ensures var mosi := Header(53, Cmd53Args(write, SDIO_FUNC_MEM_BLOCK, blockMode, addr, count)) + rest;
            Exchange(c, mosi, p) == (c, Silence(|mosi|))
  {
    ExchangeExtended(c, p, write, blockMode, addr, count, rest);
    hide Exchange, Header, Cmd53Args, Silence, CountOk, Bytes;
  }
}
