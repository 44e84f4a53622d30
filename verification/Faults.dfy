/**
 What a single lost transaction does to a transfer: exactly when a returned 0 can be believed,
 exactly when the buffer's data pointer survives, and how slow a card the response buffer bears.
 */
module Faults {
  import opened Octets
  import opened SdioCommand
  import opened SdioFrames
  import opened SdioChip
  import opened SdioOverSpi
  import opened Transfers
  import opened SdioHost
  import opened Refinement

  // ---------------------------------------------------------------- how much junk a read bears

  /** The junk before n blocks, the first of them number i. */
  function TotalLag(p: Pace, i: nat, n: nat): nat
    decreases n
  {
    if n == 0 then 0 else Lag(p, i) + TotalLag(p, i + 1, n - 1)
  }

  lemma {:induction false} SpanIs(p: Pace, bs: nat, i: nat, n: nat)
    ensures ReadSpan(p, bs, i, n) == TotalLag(p, i, n) + n * (bs + 5)
    decreases n
  {
    hide Lag;
    if n > 0 {
      SpanIs(p, bs, i + 1, n - 1);
      assert n * (bs + 5) == (n - 1) * (bs + 5) + (bs + 5);
    }
  }

  /** A block-mode read fits its response buffer exactly when its blocks are 27 octets late on average, or 6 more in all. */
  lemma FitsOnAverage(p: Pace, n: nat)
    requires n > 0
    ensures Fits(p, BLOCK_SIZE, 0, n, FullTransSize(false, true, n) - CMD_HDR_LEN - RESP_SIZE) <==> TotalLag(p, 0, n) <= 27 * n + 6
  {
    SpanIs(p, BLOCK_SIZE, 0, n);
  }

  lemma {:induction false} LagsAddUp(p: Pace, i: nat, n: nat, most: nat)
    requires LagsBelow(p, i, n, most + 1)
    ensures TotalLag(p, i, n) <= n * most
    decreases n
  {
    hide Lag;
    if n > 0 {
      assert Lag(p, i) <= most;
      LagsAddUp(p, i + 1, n - 1, most);
      assert n * most == (n - 1) * most + most;
    }
  }

  lemma {:induction false} SteadyLag(p: Pace, i: nat, n: nat, lag: nat)
    requires forall j :: i <= j < i + n ==> Lag(p, j) == lag
    ensures TotalLag(p, i, n) == n * lag
    decreases n
  {
    hide Lag;
    if n > 0 {
      assert Lag(p, i) == lag;
      SteadyLag(p, i + 1, n - 1, lag);
      assert n * lag == (n - 1) * lag + lag;
    }
  }

  /** No block keeps the token scanner waiting for longer than it does wait. */
  predicate Scannable(p: Pace, n: nat) {
    LagsBelow(p, 0, n, ReadDelay(true) - 1)
  }

  /** The scanner accepts 28 junk octets before every block; the buffer holds that much junk for 6 blocks and no more. */
  lemma ScannerOutrunsBuffer(n: nat)
    requires n > 0
    ensures (forall p: Pace :: Scannable(p, n) ==>
               Fits(p, BLOCK_SIZE, 0, n, FullTransSize(false, true, n) - CMD_HDR_LEN - RESP_SIZE)) <==> n <= 6
  {
    var room := FullTransSize(false, true, n) - CMD_HDR_LEN - RESP_SIZE;
    forall p: Pace | Scannable(p, n) && n <= 6
      ensures Fits(p, BLOCK_SIZE, 0, n, room)
    {
      LagsAddUp(p, 0, n, 28);
      FitsOnAverage(p, n);
    }
    if n > 6 {
      var p := Pace(0, 0, 0, seq(n, _ => 28), 0, 0, true);
      assert Scannable(p, n);
      SteadyLag(p, 0, n, 28);
      FitsOnAverage(p, n);
    }
  }

  // ---------------------------------------------------------------- a link on which all is well but one transaction

  /** A card that never keeps the host waiting. */
  const PUNCTUAL: Pace := Pace(0, 0x00, 0x00, [], 0x05, JUNK, true)

  /** Transaction n is not answered and every other one is, at once. */
  function Lost(n: nat): Forecast {
    i => if i == n then Silent else Prompt(PUNCTUAL)
  }

  lemma Punctuality()
    ensures Succeeds(PUNCTUAL.status) && Accepted(PUNCTUAL.ack) && PUNCTUAL.ack != JUNK
  {
  }

  /** Every search succeeds on what a punctual card answers. */
  lemma PunctualSucceeds(write: bool, blockMode: bool, count: nat)
    requires CountOk(blockMode, count)
    ensures Responds(PUNCTUAL, CMD_HDR_EXTRA_LEN) && Succeeds53(PUNCTUAL, write, blockMode, count)
  {
    Punctuality();
    hide Succeeds, Accepted, AllAcked, AckSlots;
    RespondsIff(PUNCTUAL, CMD_HDR_EXTRA_LEN);
    RespondsIff(PUNCTUAL, RESP_SIZE);
    hide Responds;
    var bs, n, delay := BlockLen(blockMode, count), BlockCount(blockMode, count), WriteDelay(blockMode);
    if write {
      AcksAreSeenIff(PUNCTUAL, bs, delay, 0, n);
    } else {
      SteadyLag(PUNCTUAL, 0, n, 0);
      SpanIs(PUNCTUAL, bs, 0, n);
      OnTimeIff(PUNCTUAL, bs, 0, n, ReadDelay(blockMode), FullTransSize(false, blockMode, count) - CMD_HDR_LEN - RESP_SIZE);
      if blockMode {
        FitsOnAverage(PUNCTUAL, n);
      }
    }
  }

  /** `r` comes `n` transactions after `s`, and nothing went wrong in between. */
  predicate Went(s: Link, r: Link, n: nat) {
    r.clock == s.clock + n && r.failures == s.failures && r.aborted == s.aborted
  }

  lemma RegWent(s: Link, lost: nat, addr: nat, v: octet)
    requires s.chip.Valid() && s.clock != lost
    ensures var r := Reg(s, Lost(lost), addr, v); r.ok && Went(s, r, 1)
  {
    PunctualSucceeds(true, false, 1);
    hide Responds, Succeeds53, AfterDirect;
  }

  lemma KeyholeWent(s: Link, lost: nat, addr: nat)
    requires s.chip.Valid() && !(s.clock <= lost < s.clock + 3) && addr < MEM_SIZE
    ensures var r := Keyhole(s, Lost(lost), addr);
            r.ok && Went(s, r, 3) && Selects(r.chip, Base(addr))
  {
    hide Reg, Lost, Truncate, Selects;
    var v, w := Truncate(addr / 0x1_0000), Truncate(addr / 0x100_0000);
    RegWent(s, lost, KEYHOLE_ADDR_WIN0, v);
    var s1 := Reg(s, Lost(lost), KEYHOLE_ADDR_WIN0, v);
    RegWent(s1, lost, KEYHOLE_ADDR_WIN1, w);
    var s2 := Reg(s1, Lost(lost), KEYHOLE_ADDR_WIN1, w);
    RegWent(s2, lost, KEYHOLE_ADDR_CFG, Truncate(CFG_WORD));
    KeyholeSelects(s, Lost(lost), addr);
  }

  lemma MoveWent(s: Link, lost: nat, write: bool, k: Chunk, base: nat)
    requires s.chip.Valid() && k.Ok(|s.block|) && InWindow(k, base) && base % WINDOW == 0 && Selects(s.chip, base)
    ensures var r := Move(s, Lost(lost), write, k);
            if s.clock == lost then r == s.(clock := s.clock + 1, ok := false, failures := s.failures + 1)
            else r.ok && Went(s, r, 1)
  {
    PunctualSucceeds(write, k.blockMode, k.count);
    LowPart(k.addr, base);
    LenPositive(k);
    hide Responds, Succeeds53, CountOk, Bytes, BytesKept;
  }

  lemma {:induction false} MovesWent(s: Link, lost: nat, write: bool, ks: seq<Chunk>, base: nat, addr: nat, off: nat, len: nat)
    requires s.chip.Valid() && Tiles(ks, base, addr, off, len) && off + len <= |s.block|
    requires forall k :: k in ks ==> k.Ok(|s.block|)
    requires base % WINDOW == 0 && Selects(s.chip, base) && addr + len <= base + WINDOW
    requires !(s.clock <= lost < s.clock + |ks|)
    ensures var r := Moves(s, Lost(lost), write, ks);
            Went(s, r, |ks|) && (ks != [] || s.ok ==> r.ok)
    decreases |ks|
  {
    hide Move, Lost, Selects, InWindow, CountOk, Bytes, Copied;
    if ks != [] {
      var k := ks[0];
      MoveWent(s, lost, write, k, base);
      MoveCopied(s, Lost(lost), write, k, base);
      var s1 := Move(s, Lost(lost), write, k);
      StillSelects(s, s1, write, base, addr, off, k.Len());
      MovesWent(s1, lost, write, ks[1..], base, addr + k.Len(), off + k.Len(), len - k.Len());
    }
  }

  lemma WindowWent(s: Link, lost: nat, write: bool, addr: nat, size: nat)
    requires s.chip.Valid() && !s.aborted && s.data + Align4(size) <= |s.block|
    requires 0 < size && addr % 4 == 0 && addr % WINDOW + size <= WINDOW && addr < MEM_SIZE
    requires !(s.clock <= lost < s.clock + 3 + |Chunks(addr, size, s.data)|)
    ensures var r := Window(s, Lost(lost), write, addr, size);
            r.ok && Went(s, r, 3 + |Chunks(addr, size, s.data)|)
  {
    hide *;
    WindowFits(addr, size);
    var base, ks := Base(addr), Chunks(addr, size, s.data);
    ChunksTile(addr, size, s.data, base);
    ChunksAre(addr, size, s.data, |s.block|);
    WindowTurn(s, Lost(lost), write, addr, size);
    KeyholeWent(s, lost, addr);
    var k := Keyhole(s, Lost(lost), addr);
    WentOn(s, k, 3);
    MovesWent(k, lost, write, ks, base, addr, s.data, Align4(size));
    WentOn(k, Moves(k, Lost(lost), write, ks), |ks|);
    Going(s, Window(s, Lost(lost), write, addr, size), 3 + |ks|);
  }

  lemma WentOn(s: Link, r: Link, n: nat)
    requires Went(s, r, n)
    ensures r.clock == s.clock + n && r.failures == s.failures && r.aborted == s.aborted
  {
  }

  lemma Going(s: Link, r: Link, n: nat)
    requires r.clock == s.clock + n && r.failures == s.failures && r.aborted == s.aborted
    ensures Went(s, r, n)
  {
  }

  /** The windows of a transfer that meets no loss. */
  lemma {:induction false} LoopWent(s: Link, lost: nat, write: bool, addr: nat, len: nat)
    requires s.chip.Valid() && !s.aborted && (len > 0 ==> addr % 4 == 0) && s.data + Align4(len) <= |s.block|
    requires addr + len <= MEM_SIZE && lost < s.clock
    ensures var r := Loop(s, Lost(lost), write, addr, len);
            r.failures == s.failures && !r.aborted && (len > 0 || s.ok ==> r.ok)
    decreases len
  {
    hide Loop, Window, WindowPart, Align4, Lost, Chunks;
    if len == 0 {
      LoopEnds(s, Lost(lost), write, addr);
    } else {
      var size := WindowPart(addr, len);
      WindowAligned(addr, len);
      LoopTurn(s, Lost(lost), write, addr, len, size);
      WindowWent(s, lost, write, addr, size);
      LoopWent(Window(s, Lost(lost), write, addr, size), lost, write, addr + size, len - size);
    }
  }

  /** The octets of the first CMD53 of a transfer. */
  function FirstChunk(addr: nat, len: nat): (n: nat)
    requires len > 0
  {
    var size := WindowPart(addr, len);
    if size >= BLOCK_SIZE then size - size % BLOCK_SIZE else Align4(size)
  }

  lemma FirstChunkIs(addr: nat, size: nat, off: nat)
    requires 0 < size && addr % WINDOW + size <= WINDOW
    ensures Chunks(addr, size, off)[0].Len() == FirstChunk(addr, size)
    ensures |Chunks(addr, size, off)| == 1 <==> size < BLOCK_SIZE || size % BLOCK_SIZE == 0
  {
    hide Align4;
  }

  /** A window whose first CMD53 is lost: the rest of it is copied all the same. */
  lemma WindowLost(s: Link, write: bool, addr: nat, size: nat)
    requires s.chip.Valid() && !s.aborted && s.data + Align4(size) <= |s.block|
    requires 0 < size && addr % 4 == 0 && addr % WINDOW + size <= WINDOW && addr < MEM_SIZE
    ensures FirstChunk(addr, size) <= Align4(size) && addr + Align4(size) <= MEM_SIZE
    ensures var r, skip := Window(s, Lost(s.clock + 3), write, addr, size), FirstChunk(addr, size);
            && r.clock == s.clock + 3 + |Chunks(addr, size, s.data)|
            && !r.aborted && r.failures == s.failures + 1
            && (r.ok <==> size >= BLOCK_SIZE && size % BLOCK_SIZE != 0)
            && (r.chip.mem, r.block) == Copy(s.chip.mem, s.block, write, addr + skip, s.data + skip, Align4(size) - skip)
  {
    hide *;
    var lost, base, ks := s.clock + 3, Base(addr), Chunks(addr, size, s.data);
    WindowFits(addr, size);
    ChunksTile(addr, size, s.data, base);
    ChunksAre(addr, size, s.data, |s.block|);
    FirstChunkIs(addr, size, s.data);
    WindowTurn(s, Lost(lost), write, addr, size);
    KeyholeWent(s, lost, addr);
    var k := Keyhole(s, Lost(lost), addr);
    WentOn(s, k, 3);
    FirstLost(k, write, ks, base, addr, s.data, Align4(size));
  }

  lemma FirstLost(s: Link, write: bool, ks: seq<Chunk>, base: nat, addr: nat, off: nat, len: nat)
    requires s.chip.Valid() && Tiles(ks, base, addr, off, len) && off + len <= |s.block|
    requires forall k :: k in ks ==> k.Ok(|s.block|)
    requires base % WINDOW == 0 && Selects(s.chip, base) && addr + len <= base + WINDOW
    requires ks != []
    ensures ks[0].Len() <= len && addr + len <= |s.chip.mem|
    ensures var r, skip := Moves(s, Lost(s.clock), write, ks), ks[0].Len();
            && r.clock == s.clock + |ks| && r.aborted == s.aborted && r.failures == s.failures + 1
            && (r.ok <==> |ks| > 1)
            && (r.chip.mem, r.block) == Copy(s.chip.mem, s.block, write, addr + skip, off + skip, len - skip)
  {
    hide Move, Lost, Selects, InWindow, CountOk, Bytes, Copied, Copy, Went;
    var k := ks[0];
    BaseInMemory(s.chip, base, addr + len);
    MoveWent(s, s.clock, write, k, base);
    var s1 := Move(s, Lost(s.clock), write, k);
    MovesWent(s1, s.clock, write, ks[1..], base, addr + k.Len(), off + k.Len(), len - k.Len());
    MovesCopied(s1, Lost(s.clock), write, ks[1..], base, addr + k.Len(), off + k.Len(), len - k.Len());
    var r := Moves(s1, Lost(s.clock), write, ks[1..]);
    WentOn(s1, r, |ks| - 1);
    CopiedIs(s1, r, write, base, addr + k.Len(), off + k.Len(), len - k.Len());
    assert |ks| == 1 ==> r == s1;
  }

  /** The transfers that need only one CMD53. */
  predicate SingleCommand(addr: nat, len: nat) {
    addr % WINDOW + len <= WINDOW && (len < BLOCK_SIZE || len % BLOCK_SIZE == 0)
  }

  lemma FirstWindow(addr: nat, len: nat)
    requires len > 0
    ensures var size := WindowPart(addr, len);
            && FirstChunk(addr, len) == FirstChunk(addr, size)
            && (SingleCommand(addr, len) <==> size == len && (size < BLOCK_SIZE || size % BLOCK_SIZE == 0))
  {
    hide Align4;
  }

  lemma LoopLost(s: Link, write: bool, addr: nat, len: nat)
    requires s.chip.Valid() && !s.aborted && addr % 4 == 0 && s.data + Align4(len) <= |s.block|
    requires 0 < len && addr + len <= MEM_SIZE
    ensures FirstChunk(addr, len) <= Align4(len) && addr + Align4(len) <= MEM_SIZE
    ensures var r, skip := Loop(s, Lost(s.clock + 3), write, addr, len), FirstChunk(addr, len);
            && !r.aborted && r.failures == s.failures + 1
            && (r.ok <==> !SingleCommand(addr, len))
            && (r.chip.mem, r.block) == Copy(s.chip.mem, s.block, write, addr + skip, s.data + skip, Align4(len) - skip)
  {
    hide Loop, Window, WindowPart, Align4, Copy, Lost, FirstChunk, SingleCommand, Chunks;
    AlignedEnd(addr, len);
    FirstWindow(addr, len);
    var lost, size, skip := s.clock + 3, WindowPart(addr, len), FirstChunk(addr, len);
    WindowAligned(addr, len);
    LoopTurn(s, Lost(lost), write, addr, len, size);
    WindowLost(s, write, addr, size);
    WholePart(size, len);
    var s1 := Window(s, Lost(lost), write, addr, size);
    SomeChunks(addr, size, s.data);
    if size == len {
      LoopEnds(s1, Lost(lost), write, addr + size);
    } else {
      LoopWent(s1, lost, write, addr + size, len - size);
      LoopCopied(s1.(ok := true), Lost(lost), write, addr + size, len - size);
      LoopIgnoresOk(s1, Lost(lost), write, addr + size, len - size);
      CopyTwice(s.chip.mem, s.block, write, addr + skip, s.data + skip, size - skip, Align4(len - size));
    }
  }

  lemma SomeChunks(addr: nat, size: nat, off: nat)
    requires 0 < size <= WINDOW
    ensures |Chunks(addr, size, off)| > 0
  {
    hide Align4;
  }

  /** What the last command before a transfer returned makes no difference to it. */
  lemma LoopIgnoresOk(s: Link, weather: Forecast, write: bool, addr: nat, len: nat)
    requires s.chip.Valid() && !s.aborted && addr % 4 == 0 && s.data + Align4(len) <= |s.block| && len > 0
    ensures Loop(s.(ok := true), weather, write, addr, len) == Loop(s, weather, write, addr, len)
  {
    hide Loop, Window, Moves, Keyhole, Chunks, WindowPart, Align4;
    var size, t := WindowPart(addr, len), s.(ok := true);
    WindowAligned(addr, len);
    KeyholeIgnoresOk(s, weather, addr);
    WindowTurn(s, weather, write, addr, size);
    WindowTurn(t, weather, write, addr, size);
    LoopTurn(s, weather, write, addr, len, size);
    LoopTurn(t, weather, write, addr, len, size);
  }

  lemma KeyholeIgnoresOk(s: Link, weather: Forecast, addr: nat)
    requires s.chip.Valid()
    ensures Keyhole(s.(ok := true), weather, addr) == Keyhole(s, weather, addr)
  {
    hide Truncate, AfterDirect, Responds;
  }

  /** A transfer whose first CMD53 is lost moves everything else. */
  lemma FirstChunkLost(s: Link, write: bool, addr: nat, len: nat)
    requires s.chip.Valid() && !s.aborted && addr % 4 == 0 && s.data + Align4(len) <= |s.block|
    requires 0 < len && addr + len <= MEM_SIZE
    ensures FirstChunk(addr, len) <= Align4(len) && addr + Align4(len) <= MEM_SIZE
    ensures var r, skip := Transfer(s, Lost(s.clock + 3), write, addr, len), FirstChunk(addr, len);
            && !r.aborted && r.failures == s.failures + 1
            && (r.ok <==> !SingleCommand(addr, len))
            && (r.chip.mem, r.block) == Copy(s.chip.mem, s.block, write, addr + skip, s.data + skip, Align4(len) - skip)
  {
    hide Loop, Align4, Copy, Lost, FirstChunk, SingleCommand;
    LoopLost(s.(ok := true), write, addr, len);
  }

  /** When a window needs only one CMD53 its return value is that command's. */
  lemma WindowHonest(s: Link, weather: Forecast, write: bool, addr: nat, size: nat)
    requires s.chip.Valid() && !s.aborted && s.data + Align4(size) <= |s.block|
    requires 0 < size && addr % WINDOW + size <= WINDOW && (size < BLOCK_SIZE || size % BLOCK_SIZE == 0)
    requires addr < MEM_SIZE
    ensures var r := Window(s, weather, write, addr, size);
            r.ok ==> r.failures == s.failures && !r.aborted
  {
    hide Window, Keyhole, Chunks, Moves, Reg, Align4;
    var ks := Chunks(addr, size, s.data);
    ChunksAre(addr, size, s.data, |s.block|);
    FirstChunkIs(addr, size, s.data);
    WindowTurn(s, weather, write, addr, size);
    KeyholeSelects(s, weather, addr);
    var k := Keyhole(s, weather, addr);
    if k.ok {
      MovesOk(k, weather, write, ks);
    }
  }

  /** A 0 from a transfer of one CMD53 means that every command succeeded. */
  lemma SingleIsHonest(s: Link, weather: Forecast, write: bool, addr: nat, len: nat)
    requires s.chip.Valid() && !s.aborted && addr % 4 == 0 && addr + len <= MEM_SIZE && s.data + Align4(len) <= |s.block|
    requires SingleCommand(addr, len)
    ensures var r := Transfer(s, weather, write, addr, len);
            r.ok ==> r.failures == s.failures
  {
    hide Loop, Window, WindowPart, Align4;
    var t := s.(ok := true);
    if len == 0 {
      LoopEnds(t, weather, write, addr);
    } else {
      var size := WindowPart(addr, len);
      WindowAligned(addr, len);
      FirstWindow(addr, len);
      WindowHonest(t, weather, write, addr, size);
      LoopTurn(t, weather, write, addr, len, size);
      LoopEnds(Window(t, weather, write, addr, size), weather, write, addr + size);
    }
  }

  /** What a caller that sees a 0 wants to be true: every command succeeded and the transfer is the plain copy. */
  predicate Done(s: Link, r: Link, write: bool, addr: nat, len: nat)
    requires addr + Align4(len) <= |s.chip.mem| && s.data + Align4(len) <= |s.block|
  {
    r.failures == s.failures && (r.chip.mem, r.block) == Copy(s.chip.mem, s.block, write, addr, s.data, Align4(len))
  }

  /** A 0 from a transfer of one CMD53 means that it was done. */
  lemma SingleIsDone(s: Link, weather: Forecast, write: bool, addr: nat, len: nat)
    requires s.chip.Valid() && !s.aborted && addr % 4 == 0 && addr + len <= MEM_SIZE && s.data + Align4(len) <= |s.block|
    requires SingleCommand(addr, len)
    ensures addr + Align4(len) <= MEM_SIZE
    ensures var r := Transfer(s, weather, write, addr, len);
            r.ok ==> Done(s, r, write, addr, len)
  {
    hide Transfer, SingleCommand, Align4, Copy;
    SingleIsHonest(s, weather, write, addr, len);
    TransferCopies(s, weather, write, addr, len);
  }

  /**
   The return value of a transfer is that of its last command only. A 0 means, on every link,
   that the transfer was done: exactly for the transfers that need a single CMD53.
   */
  lemma ReturnIsHonest(s: Link, write: bool, addr: nat, len: nat)
    requires s.chip.Valid() && !s.aborted && addr % 4 == 0 && addr + len <= MEM_SIZE && s.data + Align4(len) <= |s.block|
    ensures addr + Align4(len) <= MEM_SIZE
    ensures (forall weather: Forecast {:trigger Transfer(s, weather, write, addr, len)} ::
               Transfer(s, weather, write, addr, len).ok ==> Done(s, Transfer(s, weather, write, addr, len), write, addr, len))
            <==> SingleCommand(addr, len)
  {
    hide Transfer, SingleCommand, Align4, Lost, FirstChunk, Copy;
    AlignedEnd(addr, len);
    if SingleCommand(addr, len) {
      forall weather: Forecast
        ensures Transfer(s, weather, write, addr, len).ok ==> Done(s, Transfer(s, weather, write, addr, len), write, addr, len)
      {
        SingleIsDone(s, weather, write, addr, len);
      }
    } else {
      EmptyIsSingle(addr);
      FirstChunkLost(s, write, addr, len);
    }
  }

  /** Where a 0 cannot be believed it can hide lost data: with the first CMD53 lost, its octets are not written. */
  lemma ZeroDespiteLoss(s: Link, addr: nat, len: nat, i: nat)
    requires s.chip.Valid() && !s.aborted && addr % 4 == 0 && addr + len <= MEM_SIZE && s.data + Align4(len) <= |s.block|
    requires !SingleCommand(addr, len) && len > 0 && i < FirstChunk(addr, len)
    ensures FirstChunk(addr, len) <= Align4(len) && addr + Align4(len) <= MEM_SIZE
    ensures var r := Transfer(s, Lost(s.clock + 3), true, addr, len);
            r.ok && r.chip.mem[addr + i] == s.chip.mem[addr + i]
  {
    hide Transfer, SingleCommand, Align4, Lost, FirstChunk;
    FirstChunkLost(s, true, addr, len);
  }

  lemma EmptyIsSingle(addr: nat)
    ensures SingleCommand(addr, 0)
  {
  }

  // ---------------------------------------------------------------- the data pointer

  /** A transfer within one window gives the data pointer back, however it ends. */
  lemma OneWindowRestores(s: Link, weather: Forecast, write: bool, addr: nat, len: nat)
    requires s.chip.Valid() && !s.aborted && addr % 4 == 0 && addr + len <= MEM_SIZE && s.data + Align4(len) <= |s.block|
    requires addr % WINDOW + len <= WINDOW
    ensures Transfer(s, weather, write, addr, len).data == s.data
  {
    hide Loop, Window, Align4;
    var t := s.(ok := true);
    if len == 0 {
      LoopEnds(t, weather, write, addr);
    } else {
      WindowAligned(addr, len);
      LoopTurn(t, weather, write, addr, len, len);
      LoopEnds(Window(t, weather, write, addr, len), weather, write, addr + len);
    }
  }

  /** When the keyhole of the second window fails, the data pointer is left at the end of the first. */
  lemma SecondKeyholeLost(s: Link, write: bool, addr: nat, len: nat)
    requires s.chip.Valid() && !s.aborted && addr % 4 == 0 && addr + len <= MEM_SIZE && s.data + Align4(len) <= |s.block|
    requires addr % WINDOW + len > WINDOW
    ensures var size := WINDOW - addr % WINDOW;
            size <= WINDOW &&
            Transfer(s, Lost(s.clock + 3 + |Chunks(addr, size, s.data)|), write, addr, len).data == s.data + size
  {
    hide Loop, Window, Align4, Lost, Keyhole, Chunks;
    var t, size := s.(ok := true), WINDOW - addr % WINDOW;
    var lost := s.clock + 3 + |Chunks(addr, size, s.data)|;
    WindowAligned(addr, len);
    WindowWent(t, lost, write, addr, size);
    LoopTurn(t, Lost(lost), write, addr, len, size);
    var s1 := Window(t, Lost(lost), write, addr, size);
    KeyholeLost(s1, addr + size);
    WindowAligned(addr + size, len - size);
    var more := WindowPart(addr + size, len - size);
    WindowTurn(s1, Lost(lost), write, addr + size, more);
    LoopTurn(s1, Lost(lost), write, addr + size, len - size, more);
  }

  lemma KeyholeLost(s: Link, addr: nat)
    requires s.chip.Valid()
    ensures !Keyhole(s, Lost(s.clock), addr).ok
  {
    hide Truncate;
  }

  /** The caller's data pointer comes back on every link exactly when the transfer stays within one window. */
  lemma PointerComesBack(s: Link, write: bool, addr: nat, len: nat)
    requires s.chip.Valid() && !s.aborted && addr % 4 == 0 && addr + len <= MEM_SIZE && s.data + Align4(len) <= |s.block|
    ensures (forall weather: Forecast {:trigger Transfer(s, weather, write, addr, len)} ::
               Transfer(s, weather, write, addr, len).data == s.data)
            <==> addr % WINDOW + len <= WINDOW
  {
    hide Transfer, Align4, Lost, Chunks;
    if addr % WINDOW + len <= WINDOW {
      forall weather: Forecast
        ensures Transfer(s, weather, write, addr, len).data == s.data
      {
        OneWindowRestores(s, weather, write, addr, len);
      }
    } else {
      SecondKeyholeLost(s, write, addr, len);
    }
  }
}
