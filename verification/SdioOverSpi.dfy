/**
 The host side of `transport/sdio_over_spi.c` up to single commands: buffers, searches in
 responses, CMD52 and CMD53, over a link to the card of module SdioChip.
 */
module SdioOverSpi {
  import opened Gf2
  import opened Octets
  import opened Crc
  import opened SdioCommand
  import opened SdioFrames
  import opened SdioChip

  const ETRANSSUCC: int := 0
  const ETRANSERR: int := 2
  const ETRANSFTDISPIERR: int := 4

  // ---------------------------------------------------------------- memory

  method Memset(a: array<octet>, at: nat, v: octet, n: nat)
    requires at + n <= a.Length
    modifies a
    ensures a[..] == Store(old(a[..]), at, Repeat(v, n))
  {
    for i := 0 to n
      invariant a[..] == Store(old(a[..]), at, Repeat(v, i))
    {
      a[at + i] := v;
    }
  }

  method Memcpy(a: array<octet>, at: nat, src: seq<octet>)
    requires at + |src| <= a.Length
    modifies a
    ensures a[..] == Store(old(a[..]), at, src)
  {
    for i := 0 to |src|
      invariant a[..] == Store(old(a[..]), at, src[..i])
    {
      a[at + i] := src[i];
    }
    assert src[..|src|] == src;
  }

  function Align4(size: nat): (r: nat)
    ensures size <= r < size + 4 && r % 4 == 0
  {
    if size % 4 != 0 then size + (4 - size % 4) else size
  }

  /** morsectrl_transport_buff: `data` is an index into the memory block. */
  class TransportBuff {
    const memblock: array<octet>
    var data: nat
    var dataLen: nat

    /** ftdi_spi_alloc: the capacity is rounded up to a word and the padding is junk. */
    constructor Alloc(size: nat)
      requires size > 0
      ensures fresh(memblock) && memblock.Length == Align4(size)
      ensures data == 0 && dataLen == size
      ensures memblock[size..] == Repeat(JUNK, Align4(size) - size)
    {
      memblock := new octet[Align4(size)];
      data, dataLen := 0, size;
      new;
      Memset(memblock, size, JUNK, Align4(size) - size);
    }

    /** Everything a word-aligned transfer of the data touches lies inside the memory block. */
    predicate Valid()
      reads this
    {
      data + Align4(dataLen) <= memblock.Length
    }
  }

  // ---------------------------------------------------------------- searching responses

  method CmdFindResp(data: array<octet>, at: nat, size: nat) returns (r: Scan)
    requires size >= 1 && at + size <= data.Length
    ensures r == Resp(data[..], at, size)
  {
    hide Succeeds, Idle, IdleRun;
    var ii := 0;
    while ii < size - 1
      invariant 0 <= ii <= size - 1
      invariant forall j {:trigger data[j]} :: at <= j < at + ii ==> Idle(data[j])
    {
      if data[at + ii] == JUNK || data[at + ii] == CMD_RESP_EARLY_TRANS {
        IdleIs(data[at + ii]);
        ii := ii + 1;
        continue;
      }
      IdleIs(data[at + ii]);
      IdleRunIs(data[..][at..at + size - 1], ii);
      if Succeeds(data[at + ii]) {
        if ii + 2 < size && Succeeds(data[at + ii + 1]) {
          return Found(at + ii + 2);
        }
        return Found(at + ii + 1);
      }
      return Missing;
    }
    IdleRunIs(data[..][at..at + size - 1], size - 1);
    return Missing;
  }

  /** sdio_over_spi_cmd53_find_token. A read beyond the buffer is reported as an overrun. */
  method Cmd53FindToken(data: array<octet>, at: nat, size: nat) returns (r: Scan)
    requires size >= 1 && at <= data.Length
    ensures r == Token(data[..], at, size)
  {
    hide Token;
    var ii := 0;
    while ii < size - 1
      invariant 0 <= ii <= size - 1 && at + ii <= data.Length
      invariant forall j {:trigger data[j]} :: at <= j < at + ii ==> data[j] == JUNK
    {
      if at + ii == data.Length {
        TokenNowhere(data[..], at, size, ii);
        return Overrun;
      }
      if data[at + ii] == JUNK {
        ii := ii + 1;
        continue;
      }
      TokenAt(data[..], at, size, ii);
      if data[at + ii] == MULTI_BLOCK_START_TOKEN || data[at + ii] == SINGLE_START_TOKEN {
        return Found(at + ii + 1);
      }
      return Missing;
    }
    TokenNowhere(data[..], at, size, size - 1);
    return Missing;
  }

  /** sdio_over_spi_cmd53_find_ack */
  method Cmd53FindAck(data: array<octet>, at: nat, size: nat) returns (r: Scan)
    requires size >= 1 && at + size <= data.Length
    ensures r == Ack(data[..], at, size)
  {
    hide Ack, Accepted;
    var ii := 0;
    while ii < size - 1
      invariant 0 <= ii <= size - 1
      invariant forall j {:trigger data[j]} :: at <= j < at + ii ==> data[j] == JUNK
    {
      if data[at + ii] == JUNK {
        ii := ii + 1;
        continue;
      }
      AckAt(data[..], at, size, ii);
      if Accepted(data[at + ii]) {
        return Found(at + ii + 1);
      }
      return Missing;
    }
    AckNowhere(data[..], at, size);
    return Missing;
  }

  // ---------------------------------------------------------------- the link

  /** How a transaction goes: answered at some pace, not answered at all, or failed on the bus. */
  datatype Weather = Prompt(pace: Pace) | Silent | BusError

  /** sdio_over_spi_prep_cmd */
  method PrepCmd(cmd: nat, hdr: array<octet>)
    requires hdr.Length >= CMD_HDR_LEN + CMD_HDR_EXTRA_LEN
    modifies hdr
    ensures hdr[0] == JUNK && hdr[1] == Truncate(64 + cmd % 64) && hdr[6] == 1
    ensures forall i {:trigger hdr[i]} :: CMD_HDR_LEN <= i < CMD_HDR_LEN + CMD_HDR_EXTRA_LEN ==> hdr[i] == JUNK
  {
    hide Truncate;
    Memset(hdr, CMD_HDR_LEN, JUNK, CMD_HDR_EXTRA_LEN);
    ghost var was := hdr[..];
    assert forall i {:trigger was[i]} :: CMD_HDR_LEN <= i < CMD_HDR_LEN + CMD_HDR_EXTRA_LEN ==> was[i] == JUNK;
    hdr[0] := JUNK;
    hdr[1] := Truncate(64 + cmd % 64);
    hdr[6] := 1;
  }

  /** The arguments of a prepared command and the octet with its CRC7. */
  method SetArguments(a: array<octet>, cmd: nat, o2: octet, o3: octet, o4: octet, o5: octet)
    requires a.Length >= CMD_HDR_LEN && a[0] == JUNK && a[1] == Truncate(64 + cmd % 64)
    modifies a
    ensures a[..CMD_HDR_LEN] == Header(cmd, [o2, o3, o4, o5])
    ensures a[CMD_HDR_LEN..] == old(a[CMD_HDR_LEN..])
  {
    hide Truncate, CrcOctet, OctetBits, Register, MessageBits;
    a[2] := o2;
    a[3] := o3;
    a[4] := o4;
    a[5] := o5;
    assert a[1..6] == [Truncate(64 + cmd % 64)] + [o2, o3, o4, o5];
    var crc := CalcCmdCrcOctet(a[1..6]);
    a[6] := crc;
  }

  /** The command octets and the room for its response. */
  method BuildCmd52(write: bool, func: nat, addr: nat, data: octet) returns (cmdBuff: array<octet>)
    ensures fresh(cmdBuff) && cmdBuff.Length == CMD_HDR_LEN + CMD_HDR_EXTRA_LEN
    ensures cmdBuff[..] == Header(52, Cmd52Args(write, func, addr, data)) + Repeat(JUNK, CMD_HDR_EXTRA_LEN)
    ensures cmdBuff[0] == 0xFF && OctetBits(cmdBuff[6]) == Register(G7, MessageBits(cmdBuff[1..6])) + [true]
    ensures func < 8 && addr < 0x2_0000 ==>
              MessageBits(cmdBuff[1..6]) ==
              [false, true] + Binary(52, 6) + [write] + Binary(func, 3) + [false, false] + Binary(addr, 17) + [false] + OctetBits(data)
  {
    hide Truncate, Header, Repeat, OctetBits, Register, MessageBits, Binary;
    cmdBuff := new octet[CMD_HDR_LEN + CMD_HDR_EXTRA_LEN];
    PrepCmd(52, cmdBuff);
    var octet2 := func * 16 + addr / 32768;
    if write {
      octet2 := octet2 + 128;
    }
    assert cmdBuff[CMD_HDR_LEN..] == Repeat(JUNK, CMD_HDR_EXTRA_LEN);
    SetArguments(cmdBuff, 52, Truncate(octet2), Truncate(addr / 128), Truncate(addr * 2), data);
    assert cmdBuff[..] == cmdBuff[..CMD_HDR_LEN] + cmdBuff[CMD_HDR_LEN..];
    HeaderInBuffer(52, Cmd52Args(write, func, addr, data), cmdBuff[..]);
    assert cmdBuff[1..6] == cmdBuff[..][1..6];
    if func < 8 && addr < 0x2_0000 {
      DirectBits(write, func, addr, data);
    }
  }

  const INTERBLOCK_DELAY_OCTETS: nat := 250
  const POST_BYTE_DELAY_OCTETS: nat := 30
  const POST_CMD53_DELAY_OCTETS: nat := 4

  function WriteDelay(blockMode: bool): nat {
    if blockMode then INTERBLOCK_DELAY_OCTETS else POST_BYTE_DELAY_OCTETS
  }

  function ReadDelay(blockMode: bool): nat {
    if blockMode then POST_BYTE_DELAY_OCTETS else INTERBLOCK_DELAY_OCTETS
  }

  const TOKEN_BLOCK_READ_LEN: nat := 2
  const TOKEN_BYTE_READ_LEN: nat := 4

  /** The length of a whole CMD53 transaction. */
  function FullTransSize(write: bool, blockMode: bool, count: nat): nat {
    var bs := BlockLen(blockMode, count);
    if write then
      CMD_HDR_LEN + RESP_SIZE + POST_CMD53_DELAY_OCTETS +
      BlockCount(blockMode, count) * (TOKEN_LEN + bs + CRC_OCTETS + WriteDelay(blockMode))
    else if blockMode then
      CMD_HDR_LEN + RESP_SIZE + POST_CMD53_DELAY_OCTETS + (TOKEN_BLOCK_READ_LEN + bs + ReadDelay(true)) * count
    else
      CMD_HDR_LEN + POST_CMD53_DELAY_OCTETS + (TOKEN_BYTE_READ_LEN + bs + CRC_READ_OCTETS + ReadDelay(false))
  }

  // ---------------------------------------------------------------- the outcome of a command

  /** How many blocks of a served read the host keeps. */
  function BlocksKept(p: Pace, blockMode: bool, count: nat): (k: nat)
    ensures k <= BlockCount(blockMode, count)
  {
    OnTime(p, BlockLen(blockMode, count), 0, BlockCount(blockMode, count), ReadDelay(blockMode),
           FullTransSize(false, blockMode, count) - CMD_HDR_LEN - RESP_SIZE)
  }

  /** Whether the host finds all it looks for in what a card of this pace answers to a CMD53 it serves. */
  predicate Succeeds53(p: Pace, write: bool, blockMode: bool, count: nat) {
    var bs, n, delay := BlockLen(blockMode, count), BlockCount(blockMode, count), WriteDelay(blockMode);
    && Responds(p, RESP_SIZE)
    && if write then AllAcked(AckSlots(p, bs, 0, n, delay), 0, TOKEN_LEN + bs + CRC_OCTETS + delay, n)
       else BlocksKept(p, blockMode, count) == n
  }

  /**
   A served write succeeds exactly when the response comes in time without an error and each block's
   acceptance comes within its gap of 250 octets, or 30 in byte mode, the last of which is not looked at.
   */
  lemma WriteSucceedsIff(p: Pace, blockMode: bool, count: nat)
    ensures Succeeds53(p, true, blockMode, count) <==>
            Responds(p, 4) && forall j :: 0 <= j < (if blockMode then count else 1) ==> Acknowledges(p, Lag(p, j), if blockMode then 250 else 30)
  {
    AcksAreSeenIff(p, BlockLen(blockMode, count), WriteDelay(blockMode), 0, BlockCount(blockMode, count));
    hide Acknowledges, AckSlots, AllAcked, Responds;
  }

  /**
   A served read succeeds exactly when the response comes in time without an error, no block's token lags
   beyond its search of 30 octets, or 250 in byte mode, and the whole stream fits.
   */
  lemma ReadSucceedsIff(p: Pace, blockMode: bool, count: nat)
    ensures var n := if blockMode then count else 1;
            Succeeds53(p, false, blockMode, count) <==>
            && Responds(p, 4)
            && LagsBelow(p, 0, n, if blockMode then 29 else 249)
            && Fits(p, if blockMode then 512 else count, 0, n, if blockMode then 4 + 544 * count else 258 + count)
  {
    OnTimeIff(p, BlockLen(blockMode, count), 0, BlockCount(blockMode, count), ReadDelay(blockMode),
              FullTransSize(false, blockMode, count) - CMD_HDR_LEN - RESP_SIZE);
    TransactionSizes(count);
    hide LagsBelow, Fits, Responds, OnTime, FullTransSize;
  }

  /** How many octets of a served read end up in the buffer. */
  function BytesKept(p: Pace, blockMode: bool, count: nat): (len: nat)
    ensures len <= Bytes(blockMode, count)
  {
    if !Responds(p, RESP_SIZE) then 0
    else
      BlocksKept(p, blockMode, count) * BlockLen(blockMode, count)
  }

  /** A read that succeeds keeps everything. */
  lemma AllKept(p: Pace, blockMode: bool, count: nat)
    ensures Succeeds53(p, false, blockMode, count) ==> BytesKept(p, blockMode, count) == Bytes(blockMode, count)
  {
    hide Responds, BlocksKept;
  }

  /** Whether the program returns 0, and what the chip and the memory block are then. */
  datatype Outcome = Outcome(ok: bool, chip: Chip, block: seq<octet>)

  /**
   The outcome of a CMD53 on any link. A card that serves a write stores it even when its answer
   is late or bad, and a read that fails may have copied blocks.
   */
  function Outcome53(w: Weather, c: Chip, block: seq<octet>, off: nat, write: bool, blockMode: bool, addr: nat, count: nat): (r: Outcome)
    requires c.Valid() && CountOk(blockMode, count) && off + Bytes(blockMode, count) <= |block|
    ensures r.chip.Valid() && |r.block| == |block|
  {
    var low, len := addr % WINDOW, Bytes(blockMode, count);
    if !w.Prompt? || !c.Serves(low, len) then Outcome(false, c, block)
    else
      hide Succeeds53, BytesKept, Bytes, CountOk;
      AddressInMemory(c, low, len);
      var at, ok := c.Address(low), Succeeds53(w.pace, write, blockMode, count);
      if write then Outcome(ok, c.(mem := Store(c.mem, at, block[off..off + len])), block)
      else Outcome(ok, c, Store(block, off, c.mem[at..at + BytesKept(w.pace, blockMode, count)]))
  }

  /** Whether a CMD52 returns 0, and the chip afterwards. */
  function Outcome52(w: Weather, c: Chip, write: bool, func: nat, addr: nat, v: octet): (bool, Chip) {
    match w
    case Prompt(p) => (Responds(p, CMD_HDR_EXTRA_LEN), AfterDirect(c, write, func, addr, v))
    case _ => (false, c)
  }

  lemma FullTransSizeIsAtLeast(write: bool, blockMode: bool, count: nat)
    requires CountOk(blockMode, count)
    ensures FullTransSize(write, blockMode, count) >= CMD_HDR_LEN + CMD_HDR_EXTRA_LEN
  {
  }

  lemma WriteSize(blockMode: bool, count: nat)
    ensures FullTransSize(true, blockMode, count) ==
            15 + BlockCount(blockMode, count) * (TOKEN_LEN + BlockLen(blockMode, count) + CRC_OCTETS + WriteDelay(blockMode))
  {
  }

  /** How many octets a transaction takes. */
  lemma TransactionSizes(count: nat)
    ensures FullTransSize(true, true, count) == 15 + 765 * count
    ensures FullTransSize(true, false, count) == 48 + count
    ensures FullTransSize(false, true, count) == 15 + 544 * count
    ensures FullTransSize(false, false, count) == 269 + count
  {
  }

  /**
   Where everything is in a block-mode write: four octets for the response and four spare ones after
   the command, then one slot of 765 octets for each 512 octets of the payload, with 250 of junk.
   */
  lemma BlockWriteLayout(addr: nat, count: nat, data: seq<octet>, i: nat)
    requires i < count < 512 && |data| == Bytes(true, count)
    ensures var s := WriteFrame(true, addr, count, Split(data, BlockLen(true, count), BlockCount(true, count)), WriteDelay(true));
            && |s| == 15 + 765 * count
            && (forall j {:trigger s[j]} :: 7 <= j < 15 ==> s[j] == 0xFF)
            && 512 * i + 512 <= |data|
            && IsSlot(s[15 + 765 * i..15 + 765 * (i + 1)], 0xFC, data[512 * i..512 * i + 512], 250)
  {
    var blocks := Split(data, 512, count);
    WriteFrameParts(true, addr, count, blocks, 250);
    SplitAt(data, 512, count, i);
    hide IsSlot, Split, Slots, Header, Slot, WriteFrame, Uniform, Concat, Crc16;
    SlotInFrame(WriteFrame(true, addr, count, blocks, 250), 0xFC, blocks, i);
  }

  lemma SlotInFrame(s: seq<octet>, token: octet, blocks: seq<seq<octet>>, i: nat)
    requires Uniform(blocks, 512) && i < |blocks| && |s| >= 7 && s[7..] == Repeat(JUNK, 8) + Slots(token, blocks, 250)
    ensures |s| == 15 + 765 * |blocks| && forall j {:trigger s[j]} :: 7 <= j < 15 ==> s[j] == 0xFF
    ensures IsSlot(s[15 + 765 * i..15 + 765 * (i + 1)], token, blocks[i], 250)
  {
    SlotAt(token, blocks, 512, 250, i);
    SlotParts(token, blocks[i], 250);
    hide *;
    FrameSlot(s, Slots(token, blocks, 250), 765 * i, 765 * (i + 1));
  }

  /** A byte-mode write has one slot, as long as the payload, with the other token and 30 octets of junk. */
  lemma ByteWriteLayout(addr: nat, count: nat, data: seq<octet>)
    requires 0 < count <= 512 && |data| == Bytes(false, count)
    ensures var s := WriteFrame(false, addr, count, Split(data, BlockLen(false, count), BlockCount(false, count)), WriteDelay(false));
            && |s| == 15 + (33 + count)
            && (forall j {:trigger s[j]} :: 7 <= j < 15 ==> s[j] == 0xFF)
            && IsSlot(s[15..15 + (33 + count)], 0xFE, data, 30)
  {
    var blocks := Split(data, count, 1);
    var slots, s := Slots(0xFE, blocks, 30), WriteFrame(false, addr, count, blocks, 30);
    WriteFrameParts(false, addr, count, blocks, 30);
    SplitAt(data, count, 1, 0);
    SlotAt(0xFE, blocks, count, 30, 0);
    SlotParts(0xFE, blocks[0], 30);
    assert blocks[0] == data;
    hide IsSlot, Split, Slots, Header, Slot, WriteFrame;
    FrameSlot(s, slots, 0, 33 + count);
  }

  lemma FrameSlot(s: seq<octet>, slots: seq<octet>, from: nat, to: nat)
    requires from <= to <= |slots| && |s| >= 7 && s[7..] == Repeat(JUNK, 8) + slots
    ensures |s| == 15 + |slots| && s[15 + from..15 + to] == slots[from..to]
    ensures forall j {:trigger s[j]} :: 7 <= j < 15 ==> s[j] == 0xFF
  {
    var t := s[7..];
    assert forall j {:trigger s[j]} :: 7 <= j < |s| ==> s[j] == t[j - 7];
  }

  /** A buffer of the given length that starts with a CMD53. */
  method BuildCmd53(write: bool, blockMode: bool, addr: nat, count: nat, size: nat) returns (a: array<octet>)
    requires size >= CMD_HDR_LEN + CMD_HDR_EXTRA_LEN
    ensures fresh(a) && a.Length == size
    ensures a[..CMD_HDR_LEN] == Header(53, Cmd53Args(write, SDIO_FUNC_MEM_BLOCK, blockMode, addr, count))
    ensures a[0] == 0xFF && OctetBits(a[6]) == Register(G7, MessageBits(a[1..6])) + [true]
    ensures MessageBits(a[1..6]) ==
            [false, true] + Binary(53, 6) + [write] + [false, true, false] + [blockMode] + [true] +
            Binary(addr % 65536, 17) + Binary(count, 9)
  {
    hide Truncate, Header, OctetBits, Register, MessageBits;
    a := new octet[size];
    PrepCmd(53, a);
    var low := addr % 65536;
    var octet2 := SDIO_FUNC_MEM_BLOCK * 16;
    if write {
      octet2 := octet2 + 128;
    }
    if blockMode {
      octet2 := octet2 + 8;
    }
    octet2 := octet2 + 4 + low / 32768;
    SetArguments(a, 53, Truncate(octet2), Truncate(low / 128), Truncate(low * 2 % 256 + count / 256 % 2), Truncate(count));
    HeaderInBuffer(53, Cmd53Args(write, SDIO_FUNC_MEM_BLOCK, blockMode, addr, count), a[..]);
    assert a[1..6] == a[..][1..6] && a[..CMD_HDR_LEN] == a[..][..CMD_HDR_LEN];
    assert Binary(2, 3) == [false, true, false] by { assert Binary(2, 1) == [false]; }
    hide Binary;
    ExtendedBits(write, SDIO_FUNC_MEM_BLOCK, blockMode, addr, count);
  }

  /** One block of a write: start token, data, check octets and the delay after them. */
  method WriteSlot(a: array<octet>, at: nat, token: octet, block: seq<octet>, delay: nat)
    requires at + TOKEN_LEN + |block| + CRC_OCTETS + delay <= a.Length
    modifies a
    ensures a[..] == Store(old(a[..]), at, Slot(token, block, delay))
    ensures IsSlot(a[at..at + 3 + |block| + delay], token, block, delay)
    ensures Crc16(a[at + 1..at + 1 + |block| + 2]) == 0
  {
    hide Crc16, High, Low, IsSlot;
    ghost var was := a[..];
    var blockOffset := at + TOKEN_LEN;
    var crcOffset := blockOffset + |block|;
    var interblockOffset := crcOffset + CRC_OCTETS;
    a[at] := token;
    assert a[..] == Store(was, at, [token]);
    Memcpy(a, blockOffset, block);
    hide Store;
    StoreMore(was, at, [token], block);
    var crc16 := Crc16Gen(block);
    StoreTwo(a, crcOffset, High(crc16), Low(crc16));
    StoreMore(was, at, [token] + block, CheckOctets(block));
    Memset(a, interblockOffset, JUNK, delay);
    StoreMore(was, at, Framed(token, block), Repeat(JUNK, delay));
    SlotInPlace(was, at, token, block, delay);
  }

  lemma SlotInPlace(mem: seq<octet>, at: nat, token: octet, block: seq<octet>, delay: nat)
    requires at + TOKEN_LEN + |block| + CRC_OCTETS + delay <= |mem|
    ensures var s := Store(mem, at, Slot(token, block, delay));
            IsSlot(s[at..at + 3 + |block| + delay], token, block, delay) && Crc16(s[at + 1..at + 1 + |block| + 2]) == 0
  {
    SlotParts(token, block, delay);
    SlotStored(mem, at, Slot(token, block, delay), 1, 1 + |block| + 2);
    hide Crc16, IsSlot, Slot, Store;
  }

  /** A stored stretch is in place, and so is any part of it. */
  lemma SlotStored(mem: seq<octet>, at: nat, d: seq<octet>, from: nat, to: nat)
    requires at + |d| <= |mem| && from <= to <= |d|
    ensures Store(mem, at, d)[at..at + |d|] == d
    ensures Store(mem, at, d)[at + from..at + to] == d[from..to]
  {
  }

  method StoreTwo(a: array<octet>, at: nat, x: octet, y: octet)
    requires at + 2 <= a.Length
    modifies a
    ensures a[..] == Store(old(a[..]), at, [x, y])
  {
    a[at] := x;
    a[at + 1] := y;
  }

  lemma StoreMore(mem: seq<octet>, at: nat, a: seq<octet>, b: seq<octet>)
    requires at + |a| + |b| <= |mem|
    ensures Store(Store(mem, at, a), at + |a|, b) == Store(mem, at, a + b)
  {
  }

  lemma SlotsAt(token: octet, blocks: seq<seq<octet>>, delay: nat, i: nat)
    requires i < |blocks|
    ensures Slots(token, blocks[i..], delay) == Slot(token, blocks[i], delay) + Slots(token, blocks[i + 1..], delay)
  {
    assert blocks[i..][1..] == blocks[i + 1..];
  }

  /** The rest of a write frame: every octet up to the end of the transaction is set. */
  method FillWrite(a: array<octet>, data: seq<octet>, blockMode: bool, count: nat)
    requires count > 0 && |data| == Bytes(blockMode, count)
    requires a.Length == FullTransSize(true, blockMode, count)
    modifies a
    ensures a[..] == old(a[..CMD_HDR_LEN]) +
                     (Repeat(JUNK, 8) + Slots(StartToken(blockMode),
                                              Split(data, BlockLen(blockMode, count), BlockCount(blockMode, count)),
                                              WriteDelay(blockMode)))
  {
    hide Slot, Split, Store, Slots;
    var bs, n, token, delay := BlockLen(blockMode, count), BlockCount(blockMode, count), StartToken(blockMode), WriteDelay(blockMode);
    var offset := CMD_HDR_LEN + RESP_SIZE + POST_CMD53_DELAY_OCTETS;
    ghost var blocks := Split(data, bs, n);
    ghost var head := a[..CMD_HDR_LEN] + Repeat(JUNK, 8);
    Memset(a, CMD_HDR_LEN, JUNK, offset - CMD_HDR_LEN);
    FillSlots(a, data, bs, n, token, delay, offset);
    assert head + Slots(token, blocks, delay) == a[..CMD_HDR_LEN] + (Repeat(JUNK, 8) + Slots(token, blocks, delay));
  }

  /** The loop over the slots of a write frame. */
  method FillSlots(a: array<octet>, data: seq<octet>, bs: nat, n: nat, token: octet, delay: nat, offset: nat)
    requires |data| == n * bs && a.Length == offset + n * (TOKEN_LEN + bs + CRC_OCTETS + delay)
    modifies a
    ensures a[..] == old(a[..offset]) + Slots(token, Split(data, bs, n), delay)
  {
    hide Slot, Slots, Split, Store, IsSlot, Crc16, Uniform, Concat;
    var totalBlockSize := TOKEN_LEN + bs + CRC_OCTETS + delay;
    ghost var blocks := Split(data, bs, n);
    ghost var frame := a[..offset] + Slots(token, blocks, delay);
    assert blocks[0..] == blocks;
    var ii, pos := 0, offset;
    while ii < n
      invariant 0 <= ii <= n && pos == offset + ii * totalBlockSize <= a.Length
      invariant a[..pos] + Slots(token, blocks[ii..], delay) == frame
    {
      ghost var was := a[..];
      var tokenOffset := offset + ii * totalBlockSize;
      StepFits(ii, n, totalBlockSize);
      SplitAt(data, bs, n, ii);
      SlotsAt(token, blocks, delay, ii);
      WriteSlot(a, tokenOffset, token, data[ii * bs..ii * bs + bs], delay);
      ii, pos := ii + 1, pos + totalBlockSize;
    }
    assert a[..pos] == a[..];
    assert blocks[n..] == [];
    NoSlots(token, delay);
  }

  lemma NoSlots(token: octet, delay: nat)
    ensures Slots(token, [], delay) == []
  {
  }

  lemma StepFits(i: nat, n: nat, size: nat)
    requires i < n
    ensures (i + 1) * size == i * size + size <= n * size
  {
    assert n * size == (i + 1) * size + (n - i - 1) * size;
  }

  /** The acknowledgements of a write, one search per slot. */
  method CheckAcks(resp: array<octet>, offset: nat, n: nat, totalBlockSize: nat) returns (ok: bool)
    requires totalBlockSize >= 1 && offset + n * totalBlockSize <= resp.Length
    ensures ok == AllAcked(resp[..], offset, totalBlockSize, n)
  {
    hide Ack;
    var ii := 0;
    while ii < n
      invariant 0 <= ii <= n && 0 <= ii * totalBlockSize
      invariant AllAcked(resp[..], offset, totalBlockSize, n) ==
                AllAcked(resp[..], offset + ii * totalBlockSize, totalBlockSize, n - ii)
    {
      StepFits(ii, n, totalBlockSize);
      var ack := Cmd53FindAck(resp, offset + ii * totalBlockSize, totalBlockSize);
      if !ack.Found? {
        return false;
      }
      ii := ii + 1;
    }
    return true;
  }

  lemma PrependTwice(a: seq<octet>, b: seq<octet>, r: Parse)
    ensures PrependBlock(a, PrependBlock(b, r)) == PrependBlock(a + b, r)
  {
    assert a + (b + r.data) == a + b + r.data;
  }

  /** One block of a read: found, checked against its check octets, and copied. */
  method ReadBlock(resp: array<octet>, at: nat, data: array<octet>, off: nat, bs: nat, limit: nat) returns (ret: int, next: nat)
    requires limit >= 1 && resp != data && off + bs <= data.Length
    modifies data
    ensures match ParseBlock(resp[..], at, bs, limit)
            case Piece(b, q) => |b| == bs && ret == 0 && next == q && data[..] == Store(old(data[..]), off, b)
            case _ => ret != 0 && data[..] == old(data[..])
  {
    hide Token, Crc16, Join, Store;
    ret, next := -ETRANSERR, at;
    if at > resp.Length {
      return;
    }
    var t := Cmd53FindToken(resp, at, limit);
    if !t.Found? {
      return;
    }
    var ptr := t.next;
    if ptr + bs + CRC_OCTETS > resp.Length {
      return;
    }
    var ok := Crc16Check(resp[ptr..ptr + bs], Join(resp[ptr + bs], resp[ptr + bs + 1]));
    if !ok {
      return;
    }
    Memcpy(data, off, resp[ptr..ptr + bs]);
    ret, next := ETRANSSUCC, ptr + bs + CRC_READ_OCTETS;
  }

  /** The blocks of a read, in turn: those before the first that fails are copied. */
  method ReadBlocks(resp: array<octet>, start: nat, data: array<octet>, off: nat, bs: nat, n: nat, limit: nat) returns (ret: int)
    requires limit >= 1 && resp != data && off + n * bs <= data.Length
    modifies data
    ensures var r := ParseBlocks(resp[..], start, bs, n, limit);
            && off + |r.data| <= data.Length && data[..] == Store(old(data[..]), off, r.data)
            && (ret == 0 <==> r.Blocks?)
  {
    hide ParseBlock, Store;
    ghost var s, d := resp[..], [];
    var ptr: nat := start;
    ret := ETRANSSUCC;
    StoreNothing(data[..], off);
    var ii := 0;
    while ii < n
      invariant 0 <= ii <= n && resp[..] == s
      invariant |d| == ii * bs && off + |d| <= data.Length
      invariant ret == ETRANSSUCC
      invariant ParseBlocks(s, start, bs, n, limit) == PrependBlock(d, ParseBlocks(s, ptr, bs, n - ii, limit))
      invariant data[..] == Store(old(data[..]), off, d)
    {
      StepFits(ii, n, bs);
      ghost var piece := ParseBlock(s, ptr, bs, limit);
      var next;
      ret, next := ReadBlock(resp, ptr, data, off + ii * bs, bs, limit);
      if ret != 0 {
        assert d + [] == d;
        return;
      }
      StoreMore(old(data[..]), off, d, piece.block);
      PrependTwice(d, piece.block, ParseBlocks(s, next, bs, n - ii - 1, limit));
      ptr, d := next, d + piece.block;
      ii := ii + 1;
    }
    assert d + [] == d;
  }

  lemma StoreNothing(mem: seq<octet>, at: nat)
    requires at <= |mem|
    ensures Store(mem, at, []) == mem
  {
  }

  class Transport {
    var chip: Chip
    var clock: nat
    const weather: nat -> Weather

    constructor (chip: Chip, weather: nat -> Weather)
      ensures this.chip == chip && this.weather == weather && clock == 0
    {
      this.chip, this.weather, clock := chip, weather, 0;
    }

    /** One chip-select period over the bus. */
    method RawReadWrite(read: array<octet>, write: array<octet>) returns (ret: int)
      requires chip.Valid() && read.Length == write.Length && read != write
      modifies this, read
      ensures chip.Valid() && clock == old(clock) + 1
      ensures match weather(old(clock))
              case BusError => ret != 0 && chip == old(chip)
              case Silent => ret == 0 && chip == old(chip) && read[..] == Silence(read.Length)
              case Prompt(p) => ret == 0 && (chip, read[..]) == Exchange(old(chip), write[..], p)
    {
      var w := weather(clock);
      clock := clock + 1;
      match w
      case BusError =>
        ret := -ETRANSFTDISPIERR;
      case Silent =>
        Memcpy(read, 0, Silence(read.Length));
        assert read[..] == Silence(read.Length);
        ret := ETRANSSUCC;
      case Prompt(p) =>
        hide Exchange;
        var r := Exchange(chip, write[..], p);
        chip := r.0;
        Memcpy(read, 0, r.1);
        assert read[..] == r.1;
        ret := ETRANSSUCC;
    }

    /** sdio_over_spi_cmd52 */
    method Cmd52(write: bool, func: nat, addr: nat, data: octet) returns (ret: int)
      requires chip.Valid() && func < 8 && addr < 0x2_0000
      modifies this
      ensures chip.Valid() && clock == old(clock) + 1
      ensures (ret == 0, chip) == Outcome52(weather(old(clock)), old(chip), write, func, addr, data)
    {
      hide Truncate, CrcOctet, Exchange, AfterDirect, R5, Resp, Succeeds, Header, Cmd52Args;
      var cmdBuff := BuildCmd52(write, func, addr, data);
      var respBuff := new octet[CMD_HDR_LEN + CMD_HDR_EXTRA_LEN];
      ghost var w := weather(clock);
      if w.Prompt? {
        DirectOutcome(chip, w.pace, write, func, addr, data);
      }
      ret := RawReadWrite(respBuff, cmdBuff);
      if ret != 0 {
        return;
      }
      var r := CmdFindResp(respBuff, CMD_HDR_LEN, CMD_HDR_EXTRA_LEN);
      SilenceUnheard(respBuff[..], CMD_HDR_LEN, CMD_HDR_EXTRA_LEN);
      if !r.Found? {
        ret := -ETRANSERR;
      }
    }

    /** sdio_over_spi_cmd53, writing. */
    method Cmd53Write(buff: TransportBuff, blockMode: bool, addr: nat, count: nat) returns (ret: int)
      requires chip.Valid() && CountOk(blockMode, count) && buff.data + Bytes(blockMode, count) <= buff.memblock.Length
      modifies this
      ensures chip.Valid() && clock == old(clock) + 1
      ensures Outcome(ret == 0, chip, buff.memblock[..]) ==
              Outcome53(weather(old(clock)), old(chip), buff.memblock[..], buff.data, true, blockMode, addr, count)
    {
      WriteSize(blockMode, count);
      hide Exchange, Silence, AllAcked, Resp, FullTransSize, WriteFrame, Store, CountOk, Responds, AckSlots;
      var bs, n, delay := BlockLen(blockMode, count), BlockCount(blockMode, count), WriteDelay(blockMode);
      var totalBlockSize := TOKEN_LEN + bs + CRC_OCTETS + delay;
      var data := buff.memblock[buff.data..buff.data + Bytes(blockMode, count)];
      var fullTrans := BuildWrite(blockMode, addr, count, data);
      var resp := new octet[fullTrans.Length];
      ghost var w := weather(clock);
      if w.Prompt? {
        WriteOutcome(chip, w.pace, blockMode, addr, count, data);
      }
      ret := RawReadWrite(resp, fullTrans);
      if ret != 0 {
        return;
      }
      SilenceUnheard(resp[..], CMD_HDR_LEN, RESP_SIZE);
      ret := FinishWrite(resp, n, totalBlockSize);
    }

    /** sdio_over_spi_cmd53, reading. */
    method Cmd53Read(buff: TransportBuff, blockMode: bool, addr: nat, count: nat) returns (ret: int)
      requires chip.Valid() && CountOk(blockMode, count) && buff.data + Bytes(blockMode, count) <= buff.memblock.Length
      modifies this, buff.memblock
      ensures chip.Valid() && clock == old(clock) + 1
      ensures Outcome(ret == 0, chip, buff.memblock[..]) ==
              Outcome53(weather(old(clock)), old(chip), old(buff.memblock[..]), buff.data, false, blockMode, addr, count)
    {
      FullTransSizeIsAtLeast(false, blockMode, count);
      hide Exchange, Silence, ReadFinished, ReadHeard, FullTransSize, CountOk, ReadFrame, Outcome53;
      var bs, n := BlockLen(blockMode, count), BlockCount(blockMode, count);
      var size := FullTransSize(false, blockMode, count);
      var fullTrans := BuildRead(blockMode, addr, count, size);
      var resp := new octet[size];
      ghost var w := weather(clock);
      if w.Prompt? {
        ReadOutcome(chip, w.pace, blockMode, addr, count);
      }
      ghost var c, block := chip, buff.memblock[..];
      ret := RawReadWrite(resp, fullTrans);
      if ret == 0 {
        ret := FinishRead(resp, buff.memblock, buff.data, bs, n, ReadDelay(blockMode));
      }
      ReadDid(w, c, block, buff.data, blockMode, addr, count, resp[..], ret, buff.memblock[..]);
    }
  }

  /** What the host makes of what a card of any pace answers to a CMD52. */
  lemma DirectOutcome(c: Chip, p: Pace, write: bool, func: nat, addr: nat, v: octet)
    requires c.Valid() && func < 8 && addr < 0x2_0000
    ensures var r := Exchange(c, Header(52, Cmd52Args(write, func, addr, v)) + Repeat(JUNK, CMD_HDR_EXTRA_LEN), p);
            && r.0 == AfterDirect(c, write, func, addr, v) && |r.1| == CMD_HDR_LEN + CMD_HDR_EXTRA_LEN
            && Resp(r.1, CMD_HDR_LEN, CMD_HDR_EXTRA_LEN).Found? == Responds(p, CMD_HDR_EXTRA_LEN)
  {
    hide Exchange, Header, Cmd52Args, AfterDirect, Resp, R5, Silence;
    var rest := Repeat(JUNK, CMD_HDR_EXTRA_LEN);
    ExchangeDirect(c, p, write, func, addr, v, rest);
    var s := Silence(CMD_HDR_LEN) + R5(p, CMD_HDR_EXTRA_LEN);
    RespInWindow(s, CMD_HDR_LEN, CMD_HDR_EXTRA_LEN);
    assert s[CMD_HDR_LEN..CMD_HDR_LEN + CMD_HDR_EXTRA_LEN] == R5(p, CMD_HDR_EXTRA_LEN);
  }

  /** The response and the acknowledgements are found in what the host hears of a write when they are found in the card's answers. */
  lemma WriteReplyHeard(p: Pace, bs: nat, n: nat, delay: nat)
    ensures var s, size := WriteReply(p, bs, n, delay), TOKEN_LEN + bs + CRC_OCTETS + delay;
            && |s| >= 15
            && Resp(s, CMD_HDR_LEN, RESP_SIZE).Found? == Responds(p, RESP_SIZE)
            && AllAcked(s, 15, size, n) == AllAcked(AckSlots(p, bs, 0, n, delay), 0, size, n)
  {
    hide R5, AckSlots, Silence, AllAcked, Resp;
    var s := WriteReply(p, bs, n, delay);
    assert s[CMD_HDR_LEN..CMD_HDR_LEN + RESP_SIZE] == R5(p, RESP_SIZE);
    assert s[15..] == AckSlots(p, bs, 0, n, delay);
    RespInWindow(s, CMD_HDR_LEN, RESP_SIZE);
    AllAckedFrom(s, 15, TOKEN_LEN + bs + CRC_OCTETS + delay, n);
  }

  /** What a card of any pace does with the host's write frame, and what the host then finds. */
  lemma WriteOutcome(c: Chip, p: Pace, blockMode: bool, addr: nat, count: nat, data: seq<octet>)
    requires c.Valid() && CountOk(blockMode, count) && |data| == Bytes(blockMode, count)
    ensures var bs, n := BlockLen(blockMode, count), BlockCount(blockMode, count);
            var frame := WriteFrame(blockMode, addr, count, Split(data, bs, n), WriteDelay(blockMode));
            var r, size := Exchange(c, frame, p), TOKEN_LEN + bs + CRC_OCTETS + WriteDelay(blockMode);
            if !c.Serves(addr % WINDOW, |data|) then r == (c, Silence(|frame|))
            else
              && c.Address(addr % WINDOW) + |data| <= |c.mem|
              && r.0 == c.(mem := Store(c.mem, c.Address(addr % WINDOW), data))
              && |r.1| >= 15
              && Resp(r.1, CMD_HDR_LEN, RESP_SIZE).Found? == Responds(p, RESP_SIZE)
              && AllAcked(r.1, 15, size, n) == AllAcked(AckSlots(p, bs, 0, n, WriteDelay(blockMode)), 0, size, n)
  {
    hide Exchange, WriteReply, Resp, AllAcked, CountOk, Silence, Header, Cmd53Args, Split, Slots, AckSlots, Responds, Bytes, Store;
    var bs, n, delay := BlockLen(blockMode, count), BlockCount(blockMode, count), WriteDelay(blockMode);
    if !c.Serves(addr % WINDOW, |data|) {
      ExchangeRefused(c, p, true, blockMode, addr, count, Repeat(JUNK, 8) + Slots(StartToken(blockMode), Split(data, bs, n), delay));
    } else {
      ExchangeWrite(c, p, blockMode, addr, count, data, delay);
      WriteReplyHeard(p, bs, n, delay);
    }
  }

  /** What the host makes of what it hears of a read. */
  predicate ReadHeard(c: Chip, p: Pace, blockMode: bool, addr: nat, count: nat, heard: seq<octet>)
    requires c.Valid() && CountOk(blockMode, count)
  {
    var low, len := addr % WINDOW, Bytes(blockMode, count);
    if !c.Serves(low, len) then heard == Silence(|heard|)
    else ServedReadHeard(c, p, blockMode, low, count, heard)
  }

  /** The response is found when there is one, and exactly the blocks that are on time are read back, as they are in memory. */
  predicate ServedReadHeard(c: Chip, p: Pace, blockMode: bool, low: nat, count: nat, heard: seq<octet>)
    requires c.Valid()
  {
    var bs, n, k := BlockLen(blockMode, count), BlockCount(blockMode, count), BlocksKept(p, blockMode, count);
    && |heard| >= CMD_HDR_LEN + RESP_SIZE && 0 <= k * bs && c.Address(low) + k * bs <= |c.mem|
    && Resp(heard, CMD_HDR_LEN, RESP_SIZE).Found? == Responds(p, RESP_SIZE)
    && var r := ParseBlocks(heard, CMD_HDR_LEN + RESP_SIZE, bs, n, ReadDelay(blockMode));
       r.data == c.mem[c.Address(low)..c.Address(low) + k * bs] && (r.Blocks? <==> k == n)
  }

  /** What the host hears of a read from a card of any pace, and what it recovers from it. */
  lemma ReadOutcome(c: Chip, p: Pace, blockMode: bool, addr: nat, count: nat)
    requires c.Valid() && CountOk(blockMode, count)
    ensures var r := Exchange(c, ReadFrame(blockMode, addr, count), p);
            r.0 == c && ReadHeard(c, p, blockMode, addr, count, r.1)
  {
    hide Exchange, CountOk, Silence, Header, Cmd53Args, Bytes, FullTransSize, ServedReadHeard, ReadReply;
    FullTransSizeIsAtLeast(false, blockMode, count);
    var low, len := addr % WINDOW, Bytes(blockMode, count);
    var mosi := ReadFrame(blockMode, addr, count);
    var rest := Repeat(JUNK, |mosi| - CMD_HDR_LEN);
    if !c.Serves(low, len) {
      ExchangeRefused(c, p, false, blockMode, addr, count, rest);
    } else {
      ExchangeRead(c, p, blockMode, addr, count, rest);
      ReadReplyHeard(c, p, blockMode, low, count, Exchange(c, mosi, p).1);
    }
  }

  lemma ReadReplyHeard(c: Chip, p: Pace, blockMode: bool, low: nat, count: nat, heard: seq<octet>)
    requires c.Valid() && low + Bytes(blockMode, count) <= WINDOW && ReadReply(c, p, blockMode, low, count, heard)
    requires |heard| == FullTransSize(false, blockMode, count)
    ensures ServedReadHeard(c, p, blockMode, low, count, heard)
  {
    hide Resp, ParseBlocks, Split, Concat, ReadSlots, Intact, FullTransSize, Clocked, R5, OnTime;
    var bs, blocks, at := BlockLen(blockMode, count), Addressed(c, blockMode, low, count), c.Address(low);
    var k := BlocksKept(p, blockMode, count);
    AddressInMemory(c, low, Bytes(blockMode, count));
    RespInWindow(heard, CMD_HDR_LEN, RESP_SIZE);
    assert Streams(p, Intact(blocks), 0, heard, CMD_HDR_LEN + RESP_SIZE);
    ParseIntact(p, blocks, bs, heard, CMD_HDR_LEN + RESP_SIZE, ReadDelay(blockMode));
    ConcatTake(blocks, bs, k);
    assert c.mem[at..at + Bytes(blockMode, count)][..k * bs] == c.mem[at..at + k * bs];
  }

  /** What the host sends in a CMD53 read. */
  function ReadFrame(blockMode: bool, addr: nat, count: nat): (s: seq<octet>)
    ensures CountOk(blockMode, count) ==> |s| == FullTransSize(false, blockMode, count)
  {
    Header(53, Cmd53Args(false, SDIO_FUNC_MEM_BLOCK, blockMode, addr, count)) +
    Repeat(JUNK, FullTransSize(false, blockMode, count) - CMD_HDR_LEN)
  }

  method BuildWrite(blockMode: bool, addr: nat, count: nat, data: seq<octet>) returns (a: array<octet>)
    requires CountOk(blockMode, count) && |data| == Bytes(blockMode, count)
    ensures fresh(a) && a.Length == FullTransSize(true, blockMode, count)
    ensures a[..] == WriteFrame(blockMode, addr, count,
                                Split(data, BlockLen(blockMode, count), BlockCount(blockMode, count)),
                                WriteDelay(blockMode))
  {
    FullTransSizeIsAtLeast(true, blockMode, count);
    hide Header, Cmd53Args, Split, Slots, FullTransSize;
    a := BuildCmd53(true, blockMode, addr, count, FullTransSize(true, blockMode, count));
    FillWrite(a, data, blockMode, count);
  }

  method BuildRead(blockMode: bool, addr: nat, count: nat, size: nat) returns (a: array<octet>)
    requires CountOk(blockMode, count) && size == FullTransSize(false, blockMode, count)
    ensures fresh(a) && a.Length == size && a[..] == ReadFrame(blockMode, addr, count)
  {
    FullTransSizeIsAtLeast(false, blockMode, count);
    hide Header, Cmd53Args, FullTransSize, Store;
    a := BuildCmd53(false, blockMode, addr, count, size);
    ghost var was := a[..];
    Memset(a, CMD_HDR_LEN, JUNK, size - CMD_HDR_LEN);
    assert a[..size] == a[..] && was[..CMD_HDR_LEN] == Header(53, Cmd53Args(false, SDIO_FUNC_MEM_BLOCK, blockMode, addr, count));
  }

  /** The searches of a write: first the response, then one acknowledgement per block. */
  method FinishWrite(resp: array<octet>, n: nat, totalBlockSize: nat) returns (ret: int)
    requires totalBlockSize >= 1 && 15 + n * totalBlockSize <= resp.Length
    ensures ret == 0 <==> Resp(resp[..], CMD_HDR_LEN, RESP_SIZE).Found? && AllAcked(resp[..], 15, totalBlockSize, n)
  {
    hide Resp, AllAcked;
    var r := CmdFindResp(resp, CMD_HDR_LEN, RESP_SIZE);
    if !r.Found? {
      return -ETRANSERR;
    }
    var ok := CheckAcks(resp, 15, n, totalBlockSize);
    ret := if ok then ETRANSSUCC else -ETRANSERR;
  }

  predicate ReadFinished(heard: seq<octet>, was: seq<octet>, off: nat, bs: nat, n: nat, limit: nat, ret: int, now: seq<octet>)
    requires |heard| >= CMD_HDR_LEN + RESP_SIZE && limit >= 1
  {
    if !Resp(heard, CMD_HDR_LEN, RESP_SIZE).Found? then ret != 0 && now == was
    else
      var r := ParseBlocks(heard, CMD_HDR_LEN + RESP_SIZE, bs, n, limit);
      off + |r.data| <= |was| && now == Store(was, off, r.data) && (ret == 0 <==> r.Blocks?)
  }

  /** A read keeps what it promises, given what was heard and what was made of it. */
  lemma ReadDid(w: Weather, c: Chip, block: seq<octet>, off: nat, blockMode: bool, addr: nat, count: nat,
                heard: seq<octet>, ret: int, block': seq<octet>)
    requires c.Valid() && CountOk(blockMode, count) && off + Bytes(blockMode, count) <= |block|
    requires if w.BusError? then ret != 0 && block' == block
             else
               && |heard| >= CMD_HDR_LEN + RESP_SIZE
               && ReadFinished(heard, block, off, BlockLen(blockMode, count), BlockCount(blockMode, count),
                               ReadDelay(blockMode), ret, block')
               && if w.Silent? then heard == Silence(|heard|) else ReadHeard(c, w.pace, blockMode, addr, count, heard)
    ensures Outcome(ret == 0, c, block') == Outcome53(w, c, block, off, false, blockMode, addr, count)
  {
    hide Silence, ParseBlocks, Resp, Store, CountOk, Bytes, Responds, BlocksKept;
    if !w.BusError? {
      SilenceUnheard(heard, CMD_HDR_LEN, RESP_SIZE);
    }
    if w.Prompt? && c.Serves(addr % WINDOW, Bytes(blockMode, count)) {
      AddressInMemory(c, addr % WINDOW, Bytes(blockMode, count));
    }
  }

  /** The searches of a read: first the response, then every block. */
  method FinishRead(resp: array<octet>, data: array<octet>, off: nat, bs: nat, n: nat, limit: nat) returns (ret: int)
    requires limit >= 1 && resp != data && off + n * bs <= data.Length && CMD_HDR_LEN + RESP_SIZE <= resp.Length
    modifies data
    ensures ReadFinished(resp[..], old(data[..]), off, bs, n, limit, ret, data[..])
  {
    hide Resp, ParseBlocks, Store;
    var r := CmdFindResp(resp, CMD_HDR_LEN, RESP_SIZE);
    if !r.Found? {
      return -ETRANSERR;
    }
    ret := ReadBlocks(resp, CMD_HDR_LEN + RESP_SIZE, data, off, bs, n, limit);
  }

  /** Silence holds no response. */
  lemma SilenceUnheard(s: seq<octet>, at: nat, size: nat)
    requires size >= 1 && at + size <= |s|
    ensures s == Silence(|s|) ==> !Resp(s, at, size).Found?
  {
    if s == Silence(|s|) {
      JunkIsIdle();
      IdleRunIs(s[at..at + size - 1], size - 1);
    }
  }
}
