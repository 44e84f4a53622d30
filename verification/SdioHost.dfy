/**
 `sdio_over_spi_setup_keyhole` and `sdio_over_spi_memblock_common`: the loop that cuts a
 transfer at 64 kB windows and each window into blocks and a word-aligned tail.
 */
module SdioHost {
  import opened Octets
  import opened SdioCommand
  import opened SdioChip
  import opened SdioOverSpi
  import opened Transfers

  const SDIO_KEYHOLE_SIZE: nat := 2

  /** The link is where the transfer's meaning says it is. */
  ghost predicate At(s: Link, t: Transport)
    reads t
  {
    s.chip.Valid() && s.chip == t.chip && s.clock == t.clock
  }

  ghost predicate Holds(s: Link, buff: TransportBuff)
    reads buff, buff.memblock
  {
    s.block == buff.memblock[..] && s.data == buff.data
  }

  method SetReg(t: Transport, addr: nat, v: octet, ghost s: Link) returns (ret: int)
    requires At(s, t) && addr < 0x2_0000
    modifies t
    ensures At(Reg(s, t.weather, addr, v), t) && (ret == 0 <==> Reg(s, t.weather, addr, v).ok)
  {
    hide AfterDirect, Responds;
    ret := t.Cmd52(true, SDIO_FUNC_REG, addr, v);
  }

  method SetupKeyhole(t: Transport, addr: nat, size: nat, ghost s: Link) returns (ret: int)
    requires At(s, t) && size == SDIO_KEYHOLE_SIZE
    modifies t
    ensures At(Keyhole(s, t.weather, addr), t) && (ret == 0 <==> Keyhole(s, t.weather, addr).ok)
  {
    hide Reg, Truncate;
    var keyWin0 := Truncate(addr / 0x1_0000);
    var keyWin1 := Truncate(addr / 0x100_0000);
    var keyCfg := Truncate(size % 4);
    ghost var s1 := Reg(s, t.weather, KEYHOLE_ADDR_WIN0, keyWin0);
    ret := SetReg(t, KEYHOLE_ADDR_WIN0, keyWin0, s);
    if ret != 0 {
      return;
    }
    ghost var s2 := Reg(s1, t.weather, KEYHOLE_ADDR_WIN1, keyWin1);
    ret := SetReg(t, KEYHOLE_ADDR_WIN1, keyWin1, s1);
    if ret != 0 {
      return;
    }
    ret := SetReg(t, KEYHOLE_ADDR_CFG, keyCfg, s2);
  }

  /** sdio_over_spi_cmd53 at the buffer's data pointer. */
  method Cmd53(t: Transport, buff: TransportBuff, write: bool, ghost k: Chunk, blockMode: bool, addr: nat, count: nat, ghost s: Link)
    returns (ret: int)
    requires k == Chunk(blockMode, addr, count, buff.data)
    requires At(s, t) && k.Ok(buff.memblock.Length) && s.block == buff.memblock[..]
    modifies t, buff.memblock
    ensures var r := Move(s, t.weather, write, k);
            At(r, t) && r.block == buff.memblock[..] && (ret == 0 <==> r.ok)
  {
    hide Outcome53, Bytes, CountOk;
    if write {
      ret := t.Cmd53Write(buff, blockMode, addr, count);
    } else {
      ret := t.Cmd53Read(buff, blockMode, addr, count);
    }
  }

  /** The distance to the end of the 64 kB window, in the widths the program computes it in. */
  method SectionRoom(chipMemAddr: nat) returns (room: nat)
    requires chipMemAddr < MEM_SIZE
    ensures room >= WINDOW - chipMemAddr % WINDOW
    ensures chipMemAddr - chipMemAddr % WINDOW + WINDOW < MEM_SIZE ==> room == WINDOW - chipMemAddr % WINDOW
  {
    // The sum is a 32-bit one and is 0 in the last window; the difference is a 64-bit one.
    var sectionEnd := (chipMemAddr - chipMemAddr % WINDOW + WINDOW) % MEM_SIZE;
    room := if sectionEnd >= chipMemAddr then sectionEnd - chipMemAddr
            else 0x1_0000_0000_0000_0000 + sectionEnd - chipMemAddr;
  }

  /** The CMD53s of one window, from the buffer's data pointer on; the pointer moves past them. */
  method MoveWindow(t: Transport, buff: TransportBuff, write: bool, addr: nat, size: nat, ghost s: Link) returns (ret: int)
    requires 0 < size <= WINDOW && s.data == buff.data && buff.data + Align4(size) <= buff.memblock.Length
    requires At(s, t) && s.block == buff.memblock[..]
    modifies t, buff`data, buff.memblock
    ensures buff.data == old(buff.data) + size
    ensures var r := Moves(s, t.weather, write, Chunks(addr, size, s.data));
            At(r, t) && r.block == buff.memblock[..] && (ret == 0 <==> r.ok)
  {
    hide Move;
    ghost var ks := Chunks(addr, size, s.data);
    var byteModeCount := size % BLOCK_SIZE;
    ret := ETRANSSUCC;
    ghost var s1 := s;
    if size / BLOCK_SIZE > 0 {
      s1 := Move(s, t.weather, write, ks[0]);
      ret := Cmd53(t, buff, write, ks[0], true, addr, size / BLOCK_SIZE, s);
    }
    buff.data := buff.data + (size - byteModeCount);
    if byteModeCount > 0 {
      var alignedCount := Align4(byteModeCount);
      ghost var k := ks[|ks| - 1];
      ret := Cmd53(t, buff, write, k, false, addr + size - byteModeCount, alignedCount, s1);
    }
    buff.data := buff.data + byteModeCount;
    UnrollMoves(s, t.weather, write, ks);
  }

  lemma UnrollMoves(s: Link, weather: Forecast, write: bool, ks: seq<Chunk>)
    requires s.chip.Valid() && forall k :: k in ks ==> k.Ok(|s.block|)
    ensures |ks| == 1 ==> Moves(s, weather, write, ks) == Move(s, weather, write, ks[0])
    ensures |ks| == 2 ==> Moves(s, weather, write, ks) == Move(Move(s, weather, write, ks[0]), weather, write, ks[1])
  {
    hide Move;
    if |ks| == 1 {
      assert ks[1..] == [];
    } else if |ks| == 2 {
      var s1 := Move(s, weather, write, ks[0]);
      assert ks[1..] == [ks[1]];
      assert [ks[1]][1..] == [];
      assert Moves(s1, weather, write, [ks[1]]) == Move(s1, weather, write, ks[1]);
    }
  }

  /** The state a transfer starts in. */
  function Start(chip: Chip, block: seq<octet>, data: nat, clock: nat): Link {
    Link(chip, block, data, clock, true, false, 0)
  }

  /** Every command returned 0. */
  predicate Clean(l: Link) { l.failures == 0 }

  /** What is known between two windows of a transfer that ends in `end`. */
  ghost predicate Midway(s: Link, end: Link, t: Transport, buff: TransportBuff, write: bool, addr: nat, len: nat, ret: int)
    reads t, buff, buff.memblock
  {
    && At(s, t) && Holds(s, buff) && !s.aborted && (ret == 0 <==> s.ok)
    && (len > 0 ==> addr % 4 == 0) && s.data + Align4(len) <= |s.block|
    && end == Loop(s, t.weather, write, addr, len)
  }

  lemma WindowTurn(s: Link, weather: Forecast, write: bool, addr: nat, size: nat)
    requires s.chip.Valid() && !s.aborted && 0 < size <= WINDOW && s.data + Align4(size) <= |s.block|
    ensures var k, r := Keyhole(s, weather, addr), Window(s, weather, write, addr, size);
            if !k.ok then r == k.(aborted := true)
            else r == Moves(k, weather, write, Chunks(addr, size, s.data)).(data := s.data + size) && !r.aborted
  {
    hide Keyhole, Moves, Chunks;
  }

  lemma LoopTurn(s: Link, weather: Forecast, write: bool, addr: nat, len: nat, size: nat)
    requires Ready(s, addr, len) && len > 0 && size == WindowPart(addr, len)
    ensures size <= WINDOW && s.data + Align4(size) <= |s.block|
    ensures Onward(s, Window(s, weather, write, addr, size), weather, write, addr, len, size)
  {
    hide Window, WindowPart, Align4, Aligned;
    NextWindow(addr, len);
  }

  /** After a window that ends in `r` the loop either stops there or goes on from there. */
  predicate Onward(s: Link, r: Link, weather: Forecast, write: bool, addr: nat, len: nat, size: nat)
    requires Ready(s, addr, len) && size <= len
  {
    hide *;
    if r.aborted then Loop(s, weather, write, addr, len) == r
    else
      && Ready(r, addr + size, len - size)
      && Loop(s, weather, write, addr, len) == Loop(r, weather, write, addr + size, len - size)
  }

  /** A sum in 32 bits. */
  function Wrap32(n: nat): (r: nat)
    ensures n < MEM_SIZE ==> r == n
  {
    n % MEM_SIZE
  }

  lemma PartIs(addr: nat, len: nat, room: nat)
    requires len > 0 && addr + len <= MEM_SIZE
    requires room >= WINDOW - addr % WINDOW
    requires addr - addr % WINDOW + WINDOW < MEM_SIZE ==> room == WINDOW - addr % WINDOW
    ensures WindowPart(addr, len) == if room < len then room else len
  {
  }

  /** The keyhole and the CMD53s of one window. Only a keyhole failure stops before the data. */
  method TransferWindow(t: Transport, buff: TransportBuff, write: bool, addr: nat, size: nat, ghost s: Link)
    returns (ret: int, stopped: bool)
    requires 0 < size <= WINDOW && s.data == buff.data && buff.data + Align4(size) <= buff.memblock.Length
    requires At(s, t) && s.block == buff.memblock[..] && !s.aborted
    modifies t, buff`data, buff.memblock
    ensures stopped ==> ret != 0
    ensures var r := Window(s, t.weather, write, addr, size);
            At(r, t) && Holds(r, buff) && (ret == 0 <==> r.ok) && r.aborted == stopped
  {
    hide Moves, Keyhole, Window, Chunks;
    WindowTurn(s, t.weather, write, addr, size);
    ghost var s1 := Keyhole(s, t.weather, addr);
    stopped := false;
    ret := SetupKeyhole(t, addr, SDIO_KEYHOLE_SIZE, s);
    if ret != 0 {
      stopped := true;
      return;
    }
    ret := MoveWindow(t, buff, write, addr, size, s1);
  }

  /** sdio_over_spi_memblock_common */
  method MemblockCommon(t: Transport, buff: TransportBuff, write: bool, addr: nat) returns (ret: int)
    requires t.chip.Valid() && buff.Valid() && addr % 4 == 0 && addr + buff.dataLen <= MEM_SIZE
    modifies t, buff, buff.memblock
    ensures t.chip.Valid() && buff.dataLen == old(buff.dataLen)
    ensures var end := Transfer(old(Start(t.chip, buff.memblock[..], buff.data, t.clock)), t.weather, write, addr, old(buff.dataLen));
            t.chip == end.chip && t.clock == end.clock && buff.memblock[..] == end.block && buff.data == end.data &&
            (ret == 0 <==> end.ok)
  {
    hide Loop, Moves, Keyhole, Window, Chunks, WindowPart, Align4, Wrap32;
    ret := ETRANSSUCC;
    var origData := buff.data;
    var origDataLen := buff.dataLen;
    var remainingDataLen: nat := buff.dataLen;
    var chipMemAddr: nat := addr;
    ghost var s := Start(t.chip, buff.memblock[..], buff.data, t.clock);
    ghost var a, end := addr, Loop(s, t.weather, write, addr, remainingDataLen);
    while remainingDataLen > 0
      invariant remainingDataLen <= origDataLen && t.chip.Valid() && buff.dataLen == origDataLen
      invariant a + remainingDataLen == addr + origDataLen
      invariant buff.data + Align4(remainingDataLen) <= buff.memblock.Length
      invariant remainingDataLen > 0 ==> chipMemAddr == a && a % 4 == 0
      invariant Midway(s, end, t, buff, write, a, remainingDataLen, ret)
    {
      var room := SectionRoom(chipMemAddr);
      var currentSize := if room < remainingDataLen then room else remainingDataLen;
      PartIs(chipMemAddr, remainingDataLen, room);
      WindowAligned(chipMemAddr, remainingDataLen);
      LoopTurn(s, t.weather, write, chipMemAddr, remainingDataLen, currentSize);
      var stopped;
      ret, stopped := TransferWindow(t, buff, write, chipMemAddr, currentSize, s);
      if stopped {
        return;
      }
      s := Window(s, t.weather, write, chipMemAddr, currentSize);
      chipMemAddr := Wrap32(chipMemAddr + currentSize);
      a, remainingDataLen := a + currentSize, remainingDataLen - currentSize;
    }
    LoopEnds(s, t.weather, write, a);
    buff.data := origData;
    buff.dataLen := origDataLen;
  }

  lemma LoopEnds(s: Link, weather: Forecast, write: bool, addr: nat)
    requires s.chip.Valid()
    ensures s.data <= |s.block| && !s.aborted ==> Loop(s, weather, write, addr, 0) == s
  {
  }
}
