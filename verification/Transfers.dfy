/**
 Whole memory transfers, as a function of how each of their transactions goes: the meaning
 that `sdio_over_spi_memblock_common` is proved against in module SdioHost.
 */
module Transfers {
  import opened Octets
  import opened SdioCommand
  import opened SdioChip
  import opened SdioOverSpi

  /** The link between two commands. */
  datatype Link = Link(
    chip: Chip,
    block: seq<octet>,     // the buffer's memory block
    data: nat,             // where the buffer's data pointer points into it
    clock: nat,            // how many transactions there have been
    ok: bool,              // whether the last command returned 0
    aborted: bool,         // whether the keyhole could not be set
    failures: nat)         // how many commands did not return 0

  type Forecast = nat -> Weather

  /** The link after a command, given whether it returned 0 and what it left behind. */
  function After(s: Link, ok: bool, chip: Chip, block: seq<octet>): Link {
    s.(chip := chip, block := block, clock := s.clock + 1, ok := ok, failures := if ok then s.failures else s.failures + 1)
  }

  /** One CMD52 register write. */
  function Reg(s: Link, weather: Forecast, addr: nat, v: octet): (r: Link)
    requires s.chip.Valid()
    ensures r.chip.Valid() && r.chip.mem == s.chip.mem && r.block == s.block && r.data == s.data && r.clock == s.clock + 1
    ensures r.failures >= s.failures && r.aborted == s.aborted
  {
    var r := Outcome52(weather(s.clock), s.chip, true, SDIO_FUNC_REG, addr, v);
    After(s, r.0, r.1, s.block)
  }

  /** The three register writes that select a window; the first failure ends them. */
  function Keyhole(s: Link, weather: Forecast, addr: nat): (r: Link)
    requires s.chip.Valid()
    ensures r.chip.Valid() && r.chip.mem == s.chip.mem && r.block == s.block && r.data == s.data
    ensures r.failures >= s.failures && r.aborted == s.aborted
  {
    var s1 := Reg(s, weather, KEYHOLE_ADDR_WIN0, Truncate(addr / 0x1_0000));
    if !s1.ok then s1
    else
      var s2 := Reg(s1, weather, KEYHOLE_ADDR_WIN1, Truncate(addr / 0x100_0000));
      if !s2.ok then s2
      else Reg(s2, weather, KEYHOLE_ADDR_CFG, Truncate(CFG_WORD))
  }

  /** One CMD53: `count` blocks or octets between the chip at `addr` and the memory block at `off`. */
  datatype Chunk = Chunk(blockMode: bool, addr: nat, count: nat, off: nat) {
    function Len(): nat { Bytes(blockMode, count) }

    predicate Ok(size: nat) { CountOk(blockMode, count) && off + Len() <= size }
  }

  function Move(s: Link, weather: Forecast, write: bool, k: Chunk): (r: Link)
    requires s.chip.Valid() && k.Ok(|s.block|)
    ensures r.chip.Valid() && |r.block| == |s.block| && r.data == s.data && r.clock == s.clock + 1
    ensures r.failures >= s.failures && r.aborted == s.aborted
  {
    var o := Outcome53(weather(s.clock), s.chip, s.block, k.off, write, k.blockMode, k.addr, k.count);
    After(s, o.ok, o.chip, o.block)
  }

  function Moves(s: Link, weather: Forecast, write: bool, ks: seq<Chunk>): (r: Link)
    requires s.chip.Valid() && forall k :: k in ks ==> k.Ok(|s.block|)
    ensures r.chip.Valid() && |r.block| == |s.block| && r.data == s.data
    ensures r.failures >= s.failures && r.aborted == s.aborted
    decreases ks
  {
    if ks == [] then s else Moves(Move(s, weather, write, ks[0]), weather, write, ks[1..])
  }

  /** How much of a transfer lies in the 64 kB window of its first octet. */
  function WindowPart(addr: nat, len: nat): (size: nat)
    requires len > 0
    ensures 0 < size <= len && addr % WINDOW + size <= WINDOW
  {
    if WINDOW - addr % WINDOW < len then WINDOW - addr % WINDOW else len
  }

  /** Blocks first, then the octets that do not fill a block, rounded up to words. */
  function Chunks(addr: nat, size: nat, off: nat): (ks: seq<Chunk>)
    requires 0 < size <= WINDOW
    ensures forall k :: k in ks ==> CountOk(k.blockMode, k.count) && off <= k.off && k.off + k.Len() <= off + Align4(size)
  {
    var rest := size % BLOCK_SIZE;
    (if size / BLOCK_SIZE > 0 then [Chunk(true, addr, size / BLOCK_SIZE, off)] else []) +
    (if rest > 0 then [Chunk(false, addr + size - rest, Align4(rest), off + size - rest)] else [])
  }

  /** The part of a transfer inside one window; the data pointer moves past it unless the keyhole fails. */
  function Window(s: Link, weather: Forecast, write: bool, addr: nat, size: nat): (r: Link)
    requires s.chip.Valid() && 0 < size <= WINDOW && s.data + Align4(size) <= |s.block|
    ensures r.chip.Valid() && |r.block| == |s.block|
    ensures r.data == if r.aborted && !s.aborted then s.data else s.data + size
    ensures r.failures >= s.failures
  {
    var s1 := Keyhole(s, weather, addr);
    if !s1.ok && !s.aborted then s1.(aborted := true)
    else
      var s2 := Moves(s1, weather, write, Chunks(addr, size, s.data));
      s2.(data := s.data + size)
  }

  /** A transfer that moves anything starts on a word. */
  predicate Aligned(addr: nat, len: nat) { len > 0 ==> addr % 4 == 0 }

  /** A transfer that the link and its buffer are ready for. */
  predicate Ready(s: Link, addr: nat, len: nat) {
    s.chip.Valid() && Aligned(addr, len) && s.data + Align4(len) <= |s.block| && !s.aborted
  }

  function Loop(s: Link, weather: Forecast, write: bool, addr: nat, len: nat): (r: Link)
    requires Ready(s, addr, len)
    ensures r.chip.Valid() && |r.block| == |s.block|
    ensures r.failures >= s.failures
    decreases len
  {
    hide Window, WindowPart, Align4, Aligned;
    if len == 0 then s
    else
      var size := WindowPart(addr, len);
      NextWindow(addr, len);
      var s1 := Window(s, weather, write, addr, size);
      if s1.aborted then s1 else Loop(s1, weather, write, addr + size, len - size)
  }

  lemma NextWindow(addr: nat, len: nat)
    requires len > 0 && Aligned(addr, len)
    ensures var size := WindowPart(addr, len);
            && size <= WINDOW && Align4(size) <= Align4(len) && size + Align4(len - size) <= Align4(len)
            && Aligned(addr + size, len - size)
  {
    hide WindowPart, Align4;
    WindowAligned(addr, len);
  }

  /** A window that is not the last one ends on a word. */
  lemma WindowAligned(addr: nat, len: nat)
    requires len > 0 && addr % 4 == 0
    ensures var size := WindowPart(addr, len);
            && size <= WINDOW && Align4(size) <= Align4(len)
            && size + Align4(len - size) == (if size == len then len else Align4(len)) <= Align4(len)
            && (size < len ==> size % 4 == 0 && (addr + size) % WINDOW == 0 && (addr + size) % 4 == 0)
  {
    hide Align4;
    WindowEnd(addr);
    var size := WindowPart(addr, len);
    WholePart(size, len);
  }

  /** The end of a window is a multiple of words from a word. */
  lemma WindowEnd(addr: nat)
    requires addr % 4 == 0
    ensures var room := WINDOW - addr % WINDOW;
            0 < room <= WINDOW && room % 4 == 0 && (addr + room) % WINDOW == 0 && (addr + room) % 4 == 0
  {
    var q, room := addr / WINDOW, WINDOW - addr % WINDOW;
    assert addr == q * WINDOW + addr % WINDOW;
    assert addr + room == (q + 1) * WINDOW;
  }

  lemma WholePart(size: nat, len: nat)
    requires size <= len && (size < len ==> size % 4 == 0)
    ensures Align4(len) == Align4(size) + Align4(len - size)
    ensures size < len ==> Align4(size) == size
    ensures Align4(0) == 0 && len <= Align4(len)
  {
  }

  /** A whole transfer: a keyhole failure returns at once, anything else first restores the data pointer. */
  function Transfer(s: Link, weather: Forecast, write: bool, addr: nat, len: nat): (r: Link)
    requires s.chip.Valid() && addr % 4 == 0 && s.data + Align4(len) <= |s.block| && !s.aborted
    ensures r.chip.Valid() && |r.block| == |s.block|
  {
    var r := Loop(s.(ok := true), weather, write, addr, len);
    if r.aborted then r else r.(data := s.data)
  }
}
