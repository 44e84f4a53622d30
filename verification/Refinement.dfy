/**
 What whole transfers mean: a run in which every command succeeds is a plain read or write
 of memory, and exactly when a returned 0 can be believed.
 */
module Refinement {
  import opened Octets
  import opened SdioCommand
  import opened SdioChip
  import opened SdioOverSpi
  import opened Transfers
  import opened SdioHost

  /** A plain copy between memory at `addr` and a buffer's block at `off`. */
  function Copy(mem: seq<octet>, block: seq<octet>, write: bool, addr: nat, off: nat, len: nat): (r: (seq<octet>, seq<octet>))
    requires addr + len <= |mem| && off + len <= |block|
    ensures |r.0| == |mem| && |r.1| == |block|
  {
    if write then (Store(mem, addr, block[off..off + len]), block)
    else (mem, Store(block, off, mem[addr..addr + len]))
  }

  lemma CopyTwice(mem: seq<octet>, block: seq<octet>, write: bool, addr: nat, off: nat, a: nat, b: nat)
    requires addr + a + b <= |mem| && off + a + b <= |block|
    ensures var r := Copy(mem, block, write, addr, off, a);
            Copy(r.0, r.1, write, addr + a, off + a, b) == Copy(mem, block, write, addr, off, a + b)
  {
    hide Store;
    if write {
      StoreMore(mem, addr, block[off..off + a], block[off + a..off + a + b]);
      assert block[off..off + a] + block[off + a..off + a + b] == block[off..off + (a + b)];
    } else {
      StoreMore(block, off, mem[addr..addr + a], mem[addr + a..addr + a + b]);
      assert mem[addr..addr + a] + mem[addr + a..addr + a + b] == mem[addr..addr + (a + b)];
    }
  }

  /** Where the 64 kB window of an address starts. */
  function Base(addr: nat): (b: nat)
    ensures b % WINDOW == 0 && b <= addr < b + WINDOW
  {
    addr - addr % WINDOW
  }

  /** The keyhole registers select the 64 kB window at `base` for word accesses. */
  predicate Selects(c: Chip, base: nat) {
    c.Valid() && c.cfg == CFG_WORD && c.Address(0) == base
  }

  lemma RegWritten(s: Link, weather: Forecast, addr: nat, n: nat)
    requires s.chip.Valid() && addr in {KEYHOLE_ADDR_WIN0, KEYHOLE_ADDR_WIN1, KEYHOLE_ADDR_CFG}
    ensures var r := Reg(s, weather, addr, Truncate(n));
            && (r.ok <==> r.failures == s.failures)
            && (r.ok ==>
                 r.chip == if addr == KEYHOLE_ADDR_WIN0 then s.chip.(win0 := n % 256)
                           else if addr == KEYHOLE_ADDR_WIN1 then s.chip.(win1 := n % 256)
                           else s.chip.(cfg := n % 256))
  {
    ValueOfTruncate(n);
    hide Truncate, Value, Responds;
  }

  /** The three keyhole writes rebuild the upper half of the address, or fail visibly. */
  lemma KeyholeSelects(s: Link, weather: Forecast, addr: nat)
    requires s.chip.Valid() && addr < MEM_SIZE
    ensures var r := Keyhole(s, weather, addr);
            && (r.ok <==> r.failures == s.failures)
            && (r.ok ==> Selects(r.chip, Base(addr)))
  {
    hide Reg, Truncate;
    RegWritten(s, weather, KEYHOLE_ADDR_WIN0, addr / 0x1_0000);
    var s1 := Reg(s, weather, KEYHOLE_ADDR_WIN0, Truncate(addr / 0x1_0000));
    RegWritten(s1, weather, KEYHOLE_ADDR_WIN1, addr / 0x100_0000);
    var s2 := Reg(s1, weather, KEYHOLE_ADDR_WIN1, Truncate(addr / 0x100_0000));
    RegWritten(s2, weather, KEYHOLE_ADDR_CFG, CFG_WORD);
  }

  /** The card's registers after a write: it takes place whenever the card hears it, whatever the host makes of the answer. */
  lemma RegLeaves(s: Link, weather: Forecast, addr: nat, n: nat)
    requires s.chip.Valid()
    ensures var (c, heard) := (Reg(s, weather, addr, Truncate(n)).chip, weather(s.clock).Prompt?);
            && (!heard ==> c == s.chip && !Reg(s, weather, addr, Truncate(n)).ok)
            && (heard && addr == 0x1_0000 ==> c == s.chip.(win0 := n % 256))
            && (heard && addr == 0x1_0001 ==> c == s.chip.(win1 := n % 256))
            && (heard && addr == 0x1_0002 ==> c == s.chip.(cfg := n % 256))
  {
    ValueOfTruncate(n);
    hide Truncate, Value, Responds;
  }

  /** Three register writes, of which each but the last must return 0 for the next one to follow. */
  lemma KeyholeSteps(s: Link, weather: Forecast, addr: nat)
    requires s.chip.Valid()
    ensures var s1 := Reg(s, weather, 0x1_0000, Truncate(addr / 0x1_0000));
            var s2 := Reg(s1, weather, 0x1_0001, Truncate(addr / 0x100_0000));
            var s3 := Reg(s2, weather, 0x1_0002, Truncate(2));
            Keyhole(s, weather, addr) == if !s1.ok then s1 else if !s2.ok then s2 else s3
  {
    hide Reg, Truncate;
  }

  /**
   On every link: bits 16 to 23 of the address go into the first register, bits 24 to 31 into the
   second and 2 into the third, in this order, up to the first write that does not return 0; a
   write that the card does not hear changes nothing.
   */
  lemma KeyholeLeaves(s: Link, weather: Forecast, addr: nat)
    requires s.chip.Valid()
    ensures var r, lo, hi := Keyhole(s, weather, addr), addr / 0x1_0000 % 256, addr / 0x100_0000 % 256;
            var first := if weather(s.clock).Prompt? then s.chip.(win0 := lo) else s.chip;
            var second := if weather(s.clock + 1).Prompt? then first.(win1 := hi) else first;
            var third := if weather(s.clock + 2).Prompt? then second.(cfg := 2) else second;
            && s.clock < r.clock <= s.clock + 3
            && (r.clock == s.clock + 1 ==> !r.ok && r.chip == first)
            && (r.clock == s.clock + 2 ==> !r.ok && r.chip == second)
            && (r.clock == s.clock + 3 ==> r.chip == third)
  {
    hide *;
    var s1 := Reg(s, weather, 0x1_0000, Truncate(addr / 0x1_0000));
    var s2 := Reg(s1, weather, 0x1_0001, Truncate(addr / 0x100_0000));
    KeyholeSteps(s, weather, addr);
    RegLeaves(s, weather, 0x1_0000, addr / 0x1_0000);
    RegLeaves(s1, weather, 0x1_0001, addr / 0x100_0000);
    RegLeaves(s2, weather, 0x1_0002, 2);
  }

  /** A word-aligned access of at most 128 blocks or 512 octets inside the 64 kB window at `base`. */
  predicate InWindow(k: Chunk, base: nat) {
    && CountOk(k.blockMode, k.count)
    && base <= k.addr && k.addr + k.Len() <= base + WINDOW
    && k.addr % 4 == 0 && k.Len() % 4 == 0
    && (if k.blockMode then k.count <= 128 else 4 <= k.count)
  }

  /** Chunks that follow one another from `addr` and `off` on, `len` octets in all, inside the window at `base`. */
  predicate Tiles(ks: seq<Chunk>, base: nat, addr: nat, off: nat, len: nat) {
    if ks == [] then len == 0
    else
      && InWindow(ks[0], base) && ks[0].addr == addr && ks[0].off == off && ks[0].Len() <= len
      && Tiles(ks[1..], base, addr + ks[0].Len(), off + ks[0].Len(), len - ks[0].Len())
  }

  lemma TilesOne(k: Chunk, base: nat)
    requires InWindow(k, base)
    ensures Tiles([k], base, k.addr, k.off, k.Len())
  {
    hide InWindow;
    assert [k][1..] == [];
    assert Tiles([], base, k.addr + k.Len(), k.off + k.Len(), 0);
  }

  lemma TilesTwo(j: Chunk, k: Chunk, base: nat)
    requires InWindow(j, base) && InWindow(k, base) && k.addr == j.addr + j.Len() && k.off == j.off + j.Len()
    ensures Tiles([j, k], base, j.addr, j.off, j.Len() + k.Len())
  {
    hide InWindow;
    TilesOne(k, base);
    assert [j, k][1..] == [k];
  }

  lemma AlignTail(size: nat)
    ensures Align4(size) == size - size % BLOCK_SIZE + Align4(size % BLOCK_SIZE)
    ensures size % BLOCK_SIZE > 0 ==> 4 <= Align4(size % BLOCK_SIZE) <= BLOCK_SIZE
  {
    assert size % 4 == size % BLOCK_SIZE % 4;
  }

  /** The chunks of one window tile it, rounded up to words. */
  lemma ChunksTile(addr: nat, size: nat, off: nat, base: nat)
    requires 0 < size && addr % 4 == 0 && base % 4 == 0 && base <= addr && addr + size <= base + WINDOW
    ensures Tiles(Chunks(addr, size, off), base, addr, off, Align4(size))
  {
    AlignTail(size);
    var n, rest := size / BLOCK_SIZE, size % BLOCK_SIZE;
    var j := Chunk(true, addr, n, off);
    var k := Chunk(false, addr + size - rest, Align4(rest), off + size - rest);
    hide Align4, Tiles;
    assert size == n * BLOCK_SIZE + rest;
    if rest == 0 {
      TilesOne(j, base);
    } else if n == 0 {
      TilesOne(k, base);
    } else {
      TilesTwo(j, k, base);
    }
  }

  /** A CMD53 in the selected window that returns 0 copies. */
  lemma MoveCopies(s: Link, weather: Forecast, write: bool, k: Chunk, base: nat)
    requires s.chip.Valid() && k.Ok(|s.block|) && InWindow(k, base) && base % WINDOW == 0 && Selects(s.chip, base)
    ensures k.addr + k.Len() <= |s.chip.mem|
    ensures var r := Move(s, weather, write, k);
            && (r.ok <==> r.failures == s.failures)
            && Selects(r.chip, base)
            && (r.ok ==> (r.chip.mem, r.block) == Copy(s.chip.mem, s.block, write, k.addr, k.off, k.Len()))
  {
    hide Succeeds53, BytesKept, CountOk, Bytes, Store;
    ChunkServed(s.chip, k, base);
    var w := weather(s.clock);
    if w.Prompt? {
      AllKept(w.pace, k.blockMode, k.count);
    }
  }

  /** A chunk of the selected window is served, at its 32-bit address. */
  lemma ChunkServed(c: Chip, k: Chunk, base: nat)
    requires InWindow(k, base) && base % WINDOW == 0 && Selects(c, base)
    ensures c.Serves(k.addr % WINDOW, k.Len()) && c.Address(k.addr % WINDOW) == k.addr && k.addr + k.Len() <= |c.mem|
  {
    hide Bytes;
    LenPositive(k);
    LowPart(k.addr, base);
    AddressInMemory(c, k.addr % WINDOW, k.Len());
  }

  lemma LowPart(addr: nat, base: nat)
    requires base % WINDOW == 0 && base <= addr < base + WINDOW
    ensures addr % WINDOW == addr - base && (addr % 4 == 0 ==> (addr - base) % 4 == 0)
  {
  }

  lemma LenPositive(k: Chunk)
    requires CountOk(k.blockMode, k.count)
    ensures k.Len() > 0
  {
  }

  lemma TilesFit(ks: seq<Chunk>, base: nat, addr: nat, off: nat, len: nat, size: nat)
    requires Tiles(ks, base, addr, off, len) && off + len <= size
    ensures forall k :: k in ks ==> k.Ok(size)
  {
    hide InWindow, CountOk, Bytes;
    if ks != [] {
      InWindowOk(ks[0], base);
      TilesFit(ks[1..], base, addr + ks[0].Len(), off + ks[0].Len(), len - ks[0].Len(), size);
    }
  }

  lemma InWindowOk(k: Chunk, base: nat)
    requires InWindow(k, base)
    ensures CountOk(k.blockMode, k.count)
  {
  }

  /** What a run of commands that started in `s` must have done when none of them failed. */
  predicate Copied(s: Link, r: Link, write: bool, base: nat, addr: nat, off: nat, len: nat) {
    && addr + len <= |s.chip.mem| && off + len <= |s.block| && Selects(r.chip, base)
    && (r.failures == s.failures ==>
          (r.chip.mem, r.block) == Copy(s.chip.mem, s.block, write, addr, off, len))
  }

  lemma CopiedNothing(s: Link, write: bool, base: nat, addr: nat, off: nat)
    requires Selects(s.chip, base) && addr <= |s.chip.mem| && off <= |s.block|
    ensures Copied(s, s, write, base, addr, off, 0)
  {
    hide Selects, Copy;
    CopyNothing(s.chip.mem, s.block, write, addr, off);
  }

  lemma CopiedTwice(s: Link, s1: Link, r: Link, write: bool, base: nat, addr: nat, off: nat, a: nat, b: nat)
    requires Copied(s, s1, write, base, addr, off, a) && Copied(s1, r, write, base, addr + a, off + a, b)
    requires |s1.chip.mem| == |s.chip.mem| && |s1.block| == |s.block|
    requires s.failures <= s1.failures <= r.failures
    ensures Copied(s, r, write, base, addr, off, a + b)
  {
    hide Selects, Copy;
    CopyTwice(s.chip.mem, s.block, write, addr, off, a, b);
  }

  lemma BaseInMemory(c: Chip, base: nat, end: nat)
    requires Selects(c, base) && end <= base + WINDOW
    ensures end <= |c.mem|
  {
  }

  lemma MoveCopied(s: Link, weather: Forecast, write: bool, k: Chunk, base: nat)
    requires s.chip.Valid() && k.Ok(|s.block|) && InWindow(k, base) && base % WINDOW == 0 && Selects(s.chip, base)
    ensures var r := Move(s, weather, write, k);
            && (r.ok <==> r.failures == s.failures)
            && Copied(s, r, write, base, k.addr, k.off, k.Len())
  {
    MoveCopies(s, weather, write, k, base);
    hide Move, Copy, Selects, InWindow, CountOk, Bytes;
  }

  /** Only the last command of several decides what is returned. */
  lemma {:induction false} MovesOk(s: Link, weather: Forecast, write: bool, ks: seq<Chunk>)
    requires s.chip.Valid() && forall k :: k in ks ==> k.Ok(|s.block|)
    ensures var r := Moves(s, weather, write, ks);
            && (r.failures == s.failures ==> (ks != [] || s.ok) ==> r.ok)
            && (|ks| == 1 ==> (r.ok <==> r.failures == s.failures))
    decreases |ks|
  {
    if ks != [] {
      var s1 := Move(s, weather, write, ks[0]);
      hide Move;
      MovesOk(s1, weather, write, ks[1..]);
      assert |ks| == 1 ==> ks[1..] == [] && Moves(s1, weather, write, []) == s1;
    }
  }

  /** Chunks that tile a stretch of a selected window copy it when none of them fails. */
  lemma {:induction false} MovesCopied(s: Link, weather: Forecast, write: bool, ks: seq<Chunk>, base: nat, addr: nat, off: nat, len: nat)
    requires s.chip.Valid() && Tiles(ks, base, addr, off, len) && off + len <= |s.block|
    requires forall k :: k in ks ==> k.Ok(|s.block|)
    requires base % WINDOW == 0 && addr + len <= base + WINDOW && Selects(s.chip, base)
    ensures Copied(s, Moves(s, weather, write, ks), write, base, addr, off, len)
    decreases |ks|
  {
    hide Copied, Copy, Selects, InWindow, CountOk, Bytes, Move;
    if ks == [] {
      BaseInMemory(s.chip, base, addr);
      CopiedNothing(s, write, base, addr, off);
    } else {
      var k := ks[0];
      var s1 := Move(s, weather, write, k);
      MoveCopied(s, weather, write, k, base);
      StillSelects(s, s1, write, base, addr, off, k.Len());
      MovesCopied(s1, weather, write, ks[1..], base, addr + k.Len(), off + k.Len(), len - k.Len());
      CopiedTwice(s, s1, Moves(s1, weather, write, ks[1..]), write, base, addr, off, k.Len(), len - k.Len());
    }
  }

  lemma StillSelects(s: Link, r: Link, write: bool, base: nat, addr: nat, off: nat, len: nat)
    requires Copied(s, r, write, base, addr, off, len)
    ensures Selects(r.chip, base)
  {
    hide Selects, Copy;
  }

  /** The keyhole and the chunks of one window copy its part of the transfer. */
  lemma WindowCopied(s: Link, weather: Forecast, write: bool, addr: nat, size: nat)
    requires s.chip.Valid() && !s.aborted && s.data + Align4(size) <= |s.block|
    requires 0 < size && addr % 4 == 0 && addr % WINDOW + size <= WINDOW && addr < MEM_SIZE
    ensures addr + Align4(size) <= MEM_SIZE
    ensures var r := Window(s, weather, write, addr, size);
            && (r.failures == s.failures ==> r.ok && !r.aborted)
            && (r.aborted ==> !r.ok && r.failures > s.failures)
            && (r.failures == s.failures ==>
                  (r.chip.mem, r.block) == Copy(s.chip.mem, s.block, write, addr, s.data, Align4(size)))
  {
    hide *;
    WindowFits(addr, size);
    var base, ks := Base(addr), Chunks(addr, size, s.data);
    ChunksTile(addr, size, s.data, base);
    KeyholeSelects(s, weather, addr);
    ChunksAre(addr, size, s.data, |s.block|);
    WindowTurn(s, weather, write, addr, size);
    var k := Keyhole(s, weather, addr);
    if k.ok {
      MovesOk(k, weather, write, ks);
      var r := Moves(k, weather, write, ks);
      MovesCopied(k, weather, write, ks, base, addr, s.data, Align4(size));
      CopiedIs(k, r, write, base, addr, s.data, Align4(size));
    }
  }

  lemma CopiedIs(s: Link, r: Link, write: bool, base: nat, addr: nat, off: nat, len: nat)
    requires Copied(s, r, write, base, addr, off, len)
    ensures addr + len <= |s.chip.mem| && off + len <= |s.block|
    ensures r.failures == s.failures ==>
              (r.chip.mem, r.block) == Copy(s.chip.mem, s.block, write, addr, off, len)
  {
    hide Copy, Selects;
  }

  lemma ChunksAre(addr: nat, size: nat, off: nat, room: nat)
    requires 0 < size <= WINDOW && off + Align4(size) <= room
    ensures 1 <= |Chunks(addr, size, off)| <= 2
    ensures forall k :: k in Chunks(addr, size, off) ==> k.Ok(room)
  {
    hide Align4;
  }

  lemma WindowFits(addr: nat, size: nat)
    requires 0 < size && addr % 4 == 0 && addr % WINDOW + size <= WINDOW && addr < MEM_SIZE
    ensures addr + Align4(size) <= Base(addr) + WINDOW <= MEM_SIZE
    ensures Base(addr) % 4 == 0 && addr - Base(addr) == addr % WINDOW
  {
    hide Align4, Base;
    BaseIs(addr);
    WindowEnd(addr);
  }

  lemma BaseIs(addr: nat)
    ensures Base(addr) % 4 == 0 && addr - Base(addr) == addr % WINDOW
    ensures addr < MEM_SIZE ==> Base(addr) + WINDOW <= MEM_SIZE
  {
    assert addr == addr / WINDOW * WINDOW + addr % WINDOW;
  }

  lemma AlignedEnd(addr: nat, len: nat)
    requires (len > 0 ==> addr % 4 == 0) && addr + len <= MEM_SIZE
    ensures addr + Align4(len) <= MEM_SIZE
  {
  }

  /** A transfer that was given up says so. */
  lemma {:induction false} LoopAborts(s: Link, weather: Forecast, write: bool, addr: nat, len: nat)
    requires s.chip.Valid() && !s.aborted && (len > 0 ==> addr % 4 == 0) && s.data + Align4(len) <= |s.block|
    requires addr + len <= MEM_SIZE
    ensures var r := Loop(s, weather, write, addr, len);
            r.aborted ==> !r.ok && r.failures > s.failures
    decreases len
  {
    hide Window, WindowPart, Align4, Copy;
    if len > 0 {
      var size := WindowPart(addr, len);
      WindowAligned(addr, len);
      LoopTurn(s, weather, write, addr, len, size);
      WindowCopied(s, weather, write, addr, size);
      var s1 := Window(s, weather, write, addr, size);
      if !s1.aborted {
        LoopAborts(s1, weather, write, addr + size, len - size);
      }
    } else {
      LoopEnds(s, weather, write, addr);
    }
  }

  /** A run of windows in which nothing fails is one plain copy. */
  lemma {:induction false} LoopCopied(s: Link, weather: Forecast, write: bool, addr: nat, len: nat)
    requires s.chip.Valid() && !s.aborted && s.ok && (len > 0 ==> addr % 4 == 0) && s.data + Align4(len) <= |s.block|
    requires addr + len <= MEM_SIZE
    ensures addr + Align4(len) <= MEM_SIZE
    ensures var r := Loop(s, weather, write, addr, len);
            && (r.failures == s.failures ==> r.ok)
            && (r.failures == s.failures ==>
                  (r.chip.mem, r.block) == Copy(s.chip.mem, s.block, write, addr, s.data, Align4(len)))
    decreases len
  {
    hide Loop, Window, WindowPart, Align4, Copy;
    AlignedEnd(addr, len);
    var r := Loop(s, weather, write, addr, len);
    if len == 0 {
      LoopEnds(s, weather, write, addr);
      CopyNothing(s.chip.mem, s.block, write, addr, s.data);
    } else {
      var size := WindowPart(addr, len);
      WindowAligned(addr, len);
      LoopTurn(s, weather, write, addr, len, size);
      WindowCopied(s, weather, write, addr, size);
      var s1 := Window(s, weather, write, addr, size);
      WholePart(size, len);
      if size == len {
        LoopEnds(s1, weather, write, addr + size);
      } else if r.failures == s.failures {
        LoopCopied(s1, weather, write, addr + size, len - size);
        CopyTwice(s.chip.mem, s.block, write, addr, s.data, size, Align4(len - size));
      }
    }
  }

  lemma CopyNothing(mem: seq<octet>, block: seq<octet>, write: bool, addr: nat, off: nat)
    requires addr <= |mem| && off <= |block|
    ensures Align4(0) == 0 && Copy(mem, block, write, addr, off, 0) == (mem, block)
  {
    hide Store;
    StoreNothing(mem, addr);
    StoreNothing(block, off);
    assert block[off..off + 0] == [] && mem[addr..addr + 0] == [];
  }

  // ---------------------------------------------------------------- whole transfers

  /** A transfer in which nothing fails is one plain copy, returns 0 and gives the buffer back as it was. */
  lemma TransferCopies(s: Link, weather: Forecast, write: bool, addr: nat, len: nat)
    requires s.chip.Valid() && !s.aborted && addr % 4 == 0 && addr + len <= MEM_SIZE && s.data + Align4(len) <= |s.block|
    ensures addr + Align4(len) <= MEM_SIZE
    ensures var r := Transfer(s, weather, write, addr, len);
            && (r.aborted ==> !r.ok && r.failures > s.failures)
            && (r.failures == s.failures ==> r.ok && r.data == s.data)
            && (r.failures == s.failures ==>
                  (r.chip.mem, r.block) == Copy(s.chip.mem, s.block, write, addr, s.data, Align4(len)))
  {
    hide Loop, Align4, Copy;
    LoopCopied(s.(ok := true), weather, write, addr, len);
    LoopAborts(s.(ok := true), weather, write, addr, len);
  }

  /**
   A write in which every command succeeds stores the buffer at `addr`, and disturbs nothing
   else but the octets that fill the last word.
   */
  lemma WriteRefines(s: Link, weather: Forecast, addr: nat, len: nat)
    requires s.chip.Valid() && !s.aborted && addr % 4 == 0 && addr + len <= MEM_SIZE && s.data + Align4(len) <= |s.block|
    ensures var r := Transfer(s, weather, true, addr, len);
            r.failures == s.failures ==>
              && r.ok && r.data == s.data && r.block == s.block
              && (forall i {:trigger r.chip.mem[i]} :: addr <= i < addr + len ==> r.chip.mem[i] == s.block[s.data + (i - addr)])
              && (forall i {:trigger r.chip.mem[i]} ::
                    0 <= i < MEM_SIZE && (i < addr || addr + len + 3 <= i || (len % 4 == 0 && addr + len <= i)) ==>
                    r.chip.mem[i] == s.chip.mem[i])
  {
    hide Loop, Transfer;
    TransferCopies(s, weather, true, addr, len);
  }

  /** A read in which every command succeeds fetches the memory at `addr` and leaves the chip's memory alone. */
  lemma ReadRefines(s: Link, weather: Forecast, addr: nat, len: nat)
    requires s.chip.Valid() && !s.aborted && addr % 4 == 0 && addr + len <= MEM_SIZE && s.data + Align4(len) <= |s.block|
    ensures var r := Transfer(s, weather, false, addr, len);
            r.failures == s.failures ==>
              && r.ok && r.data == s.data && r.chip.mem == s.chip.mem
              && (forall i {:trigger r.block[i]} :: s.data <= i < s.data + len ==> r.block[i] == s.chip.mem[addr + (i - s.data)])
              && (forall i {:trigger r.block[i]} ::
                    0 <= i < |s.block| && (i < s.data || s.data + len + 3 <= i || (len % 4 == 0 && s.data + len <= i)) ==>
                    r.block[i] == s.block[i])
  {
    hide Loop, Transfer;
    TransferCopies(s, weather, false, addr, len);
  }

  /** Reading back what was written, into any buffer, yields the octets that were written. */
  lemma WriteThenRead(s: Link, weather: Forecast, addr: nat, len: nat, into: seq<octet>, data: nat)
    requires s.chip.Valid() && !s.aborted && addr % 4 == 0 && addr + len <= MEM_SIZE && s.data + Align4(len) <= |s.block|
    requires data + Align4(len) <= |into|
    ensures var w := Transfer(s, weather, true, addr, len);
            w.failures == s.failures ==>
              !w.aborted &&
              var r := Transfer(w.(block := into, data := data), weather, false, addr, len);
              r.failures == s.failures ==>
                r.ok && r.data == data && r.block[data..data + len] == s.block[s.data..s.data + len]
  {
    hide Loop, Transfer, Align4;
    TransferCopies(s, weather, true, addr, len);
    var w := Transfer(s, weather, true, addr, len);
    if w.failures == s.failures {
      WriteRefines(s, weather, addr, len);
      ReadRefines(w.(block := into, data := data), weather, addr, len);
    }
  }

  // ---------------------------------------------------------------- the commands of a transfer

  /** The CMD53s of a transfer, in order. */
  function Plan(addr: nat, len: nat, off: nat): seq<Chunk>
    requires Aligned(addr, len)
    decreases len
  {
    hide WindowPart, Align4, Aligned;
    if len == 0 then []
    else
      NextWindow(addr, len);
      var size := WindowPart(addr, len);
      Chunks(addr, size, off) + Plan(addr + size, len - size, off + size)
  }

  /** Chunks that follow one another without gap or overlap, each in the window of its own address. */
  predicate Sound(ks: seq<Chunk>, addr: nat, off: nat, len: nat) {
    if ks == [] then len == 0
    else
      && InWindow(ks[0], Base(ks[0].addr)) && ks[0].addr == addr && ks[0].off == off && ks[0].Len() <= len
      && Sound(ks[1..], addr + ks[0].Len(), off + ks[0].Len(), len - ks[0].Len())
  }

  lemma OwnBase(k: Chunk, base: nat)
    requires InWindow(k, base) && base % WINDOW == 0
    ensures Base(k.addr) == base
  {
    InWindowOk(k, base);
    LenPositive(k);
    LowPart(k.addr, base);
    hide CountOk, Bytes;
  }

  lemma {:induction false} SoundTogether(ks: seq<Chunk>, base: nat, addr: nat, off: nat, a: nat, more: seq<Chunk>, b: nat)
    requires Tiles(ks, base, addr, off, a) && base % WINDOW == 0 && Sound(more, addr + a, off + a, b)
    ensures Sound(ks + more, addr, off, a + b)
    decreases |ks|
  {
    hide InWindow, Base, Bytes;
    if ks == [] {
      assert ks + more == more;
    } else {
      var n := ks[0].Len();
      OwnBase(ks[0], base);
      SoundTogether(ks[1..], base, addr + n, off + n, a - n, more, b);
      assert (ks + more)[1..] == ks[1..] + more;
    }
  }

  /** The chunks of the next window, as tiles of their window. */
  lemma FirstTiles(addr: nat, len: nat, off: nat, size: nat)
    requires len > 0 && Aligned(addr, len) && addr + len <= MEM_SIZE && size == WindowPart(addr, len)
    ensures Base(addr) % WINDOW == 0 && size <= WINDOW && Aligned(addr + size, len - size)
    ensures Tiles(Chunks(addr, size, off), Base(addr), addr, off, Align4(size))
    ensures Align4(len) == Align4(size) + Align4(len - size) && (size < len ==> Align4(size) == size)
  {
    hide WindowPart, Align4, Chunks, Tiles, Base;
    WindowAligned(addr, len);
    WindowFits(addr, size);
    BaseInPlace(addr);
    ChunksTile(addr, size, off, Base(addr));
    WholePart(size, len);
  }

  /**
   Every CMD53 of a transfer is a word-aligned one inside one window, of 1 to 128 blocks or 4 to
   512 octets, and together they cover the transfer, rounded up to words, exactly once.
   */
  lemma {:induction false} PlanIsSound(addr: nat, len: nat, off: nat)
    requires Aligned(addr, len) && addr + len <= MEM_SIZE
    ensures Sound(Plan(addr, len, off), addr, off, Align4(len))
    decreases len
  {
    hide WindowPart, Align4, Chunks, Tiles, Base, Aligned, Sound;
    if len == 0 {
      SoundNothing(addr, off);
    } else {
      var size := WindowPart(addr, len);
      FirstTiles(addr, len, off, size);
      PlanIsSound(addr + size, len - size, off + size);
      if size == len {
        assert Plan(addr + size, 0, off + size) == [];
        SoundNothing(addr + Align4(size), off + Align4(size));
        SoundTogether(Chunks(addr, size, off), Base(addr), addr, off, Align4(size), [], 0);
      } else {
        SoundTogether(Chunks(addr, size, off), Base(addr), addr, off, size, Plan(addr + size, len - size, off + size), Align4(len - size));
      }
    }
  }

  lemma SoundNothing(addr: nat, off: nat)
    ensures Sound([], addr, off, 0)
  {
  }

  lemma BaseInPlace(addr: nat)
    ensures Base(addr) % WINDOW == 0 && Base(addr) <= addr
  {
  }

  function TotalLen(ks: seq<Chunk>): nat {
    if ks == [] then 0 else ks[0].Len() + TotalLen(ks[1..])
  }

  /** The chunk sizes add up to what they cover. */
  lemma {:induction false} SoundAddsUp(ks: seq<Chunk>, addr: nat, off: nat, len: nat)
    requires Sound(ks, addr, off, len)
    ensures TotalLen(ks) == len
    decreases |ks|
  {
    hide InWindow, Base, Bytes;
    if ks != [] {
      SoundAddsUp(ks[1..], addr + ks[0].Len(), off + ks[0].Len(), len - ks[0].Len());
    }
  }

  function Windows(addr: nat, len: nat): nat
    decreases len
  {
    if len == 0 then 0 else 1 + Windows(addr + WindowPart(addr, len), len - WindowPart(addr, len))
  }

  lemma {:induction false} MovesClock(s: Link, weather: Forecast, write: bool, ks: seq<Chunk>)
    requires s.chip.Valid() && forall k :: k in ks ==> k.Ok(|s.block|)
    ensures Moves(s, weather, write, ks).clock == s.clock + |ks|
    decreases |ks|
  {
    hide Move;
    if ks != [] {
      MovesClock(Move(s, weather, write, ks[0]), weather, write, ks[1..]);
    }
  }

  lemma KeyholeClock(s: Link, weather: Forecast, addr: nat)
    requires s.chip.Valid()
    ensures var r := Keyhole(s, weather, addr); r.ok ==> r.clock == s.clock + 3
  {
    hide Reg, Truncate;
  }

  lemma WindowClock(s: Link, weather: Forecast, write: bool, addr: nat, size: nat)
    requires s.chip.Valid() && !s.aborted && 0 < size <= WINDOW && s.data + Align4(size) <= |s.block|
    ensures var r := Window(s, weather, write, addr, size);
            !r.aborted ==> r.clock == s.clock + 3 + |Chunks(addr, size, s.data)|
  {
    hide Keyhole, Moves, Chunks, Align4, Window;
    WindowTurn(s, weather, write, addr, size);
    KeyholeClock(s, weather, addr);
    ChunksAre(addr, size, s.data, |s.block|);
    var k := Keyhole(s, weather, addr);
    if k.ok {
      MovesClock(k, weather, write, Chunks(addr, size, s.data));
    }
  }

  /** Unless it is given up, a transfer makes three register writes for every window and one CMD53 for every planned chunk. */
  lemma {:induction false} LoopClock(s: Link, weather: Forecast, write: bool, addr: nat, len: nat)
    requires s.chip.Valid() && !s.aborted && (len > 0 ==> addr % 4 == 0) && s.data + Align4(len) <= |s.block|
    ensures var r := Loop(s, weather, write, addr, len);
            !r.aborted ==> r.clock == s.clock + 3 * Windows(addr, len) + |Plan(addr, len, s.data)|
    decreases len
  {
    hide Loop, Window, WindowPart, Align4, Chunks;
    if len == 0 {
      LoopEnds(s, weather, write, addr);
    } else {
      var size := WindowPart(addr, len);
      WindowAligned(addr, len);
      LoopTurn(s, weather, write, addr, len, size);
      WindowClock(s, weather, write, addr, size);
      var s1 := Window(s, weather, write, addr, size);
      if !s1.aborted {
        LoopClock(s1, weather, write, addr + size, len - size);
      }
    }
  }
}
