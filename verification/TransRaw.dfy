/**
 `transraw_memtest` of `transraw.c`: a pattern is written to chip memory, read back into
 another buffer and compared.
 */
module TransRaw {
  import opened Octets
  import opened SdioCommand
  import opened SdioChip
  import opened SdioOverSpi
  import opened Transfers
  import opened SdioHost
  import opened Refinement

  /** Each whole word holds the low half of its offset and the high half of the base value. */
  predicate Pattern(s: seq<octet>, size: nat, baseValue: nat)
    requires size <= |s|
  {
    forall i {:trigger s[i]} :: 0 <= i < size - size % 4 ==>
      s[i] == if i % 4 == 0 then Truncate(i)
              else if i % 4 == 1 then Truncate((i - 1) / 256)
              else if i % 4 == 2 then Truncate(baseValue / 0x1_0000)
              else Truncate(baseValue / 0x100_0000)
  }

  method FillPattern(a: array<octet>, size: nat, baseValue: nat)
    requires size <= a.Length
    modifies a
    ensures Pattern(a[..], size, baseValue)
  {
    hide Truncate;
    var ii := 0;
    while ii + 3 < size
      invariant ii <= size && ii % 4 == 0
      invariant Pattern(a[..], ii, baseValue)
    {
      a[ii] := Truncate(ii);
      a[ii + 1] := Truncate(ii / 256);
      a[ii + 2] := Truncate(baseValue / 0x1_0000);
      a[ii + 3] := Truncate(baseValue / 0x100_0000);
      ii := ii + 4;
    }
  }

  /** What one transfer of the test comes to, from its buffer's first octet on. */
  function Whole(chip: Chip, clock: nat, weather: Forecast, block: seq<octet>, write: bool, addr: nat, size: nat): (r: Link)
    requires chip.Valid() && addr % 4 == 0 && |block| == Align4(size)
    ensures r.chip.Valid()
  {
    Transfer(Start(chip, block, 0, clock), weather, write, addr, size)
  }

  lemma ReadsBack(chip: Chip, clock: nat, weather: Forecast, wrote: seq<octet>, into: seq<octet>, addr: nat, size: nat)
    requires chip.Valid() && addr % 4 == 0 && |wrote| == |into| == Align4(size) && addr + size <= MEM_SIZE
    ensures var w := Whole(chip, clock, weather, wrote, true, addr, size);
            var r := Whole(w.chip, w.clock, weather, into, false, addr, size);
            && (Clean(w) ==> w.ok && w.block == wrote && w.chip.mem[addr..addr + size] == wrote[..size])
            && (Clean(w) && Clean(r) ==> r.chip.mem == w.chip.mem)
            && (Clean(w) && Clean(r) ==> r.ok && |r.block| == |wrote| && r.block[..size] == wrote[..size])
  {
    hide Transfer, Align4;
    var s := Start(chip, wrote, 0, clock);
    TransferCopies(s, weather, true, addr, size);
    WriteRefines(s, weather, addr, size);
    WriteThenRead(s, weather, addr, size, into, 0);
    var w := Transfer(s, weather, true, addr, size);
    if Clean(w) {
      assert w.(block := into, data := 0) == Start(w.chip, into, 0, w.clock);
      ReadRefines(Start(w.chip, into, 0, w.clock), weather, addr, size);
    }
  }

  /** transraw_memtest: the test passes when every command returned 0, and never on buffers that differ. */
  method MemTest(t: Transport, baseAddr: nat, size: nat, baseValue: nat)
    returns (ret: int, ghost wrote: seq<octet>, ghost into: seq<octet>)
    requires t.chip.Valid() && size > 0 && baseAddr % 4 == 0 && baseAddr + size <= MEM_SIZE
    modifies t
    ensures t.chip.Valid() && |wrote| == |into| == Align4(size) && Pattern(wrote, size, baseValue)
    ensures var w := Whole(old(t.chip), old(t.clock), t.weather, wrote, true, baseAddr, size);
            var r := Whole(w.chip, w.clock, t.weather, into, false, baseAddr, size);
            && (Clean(w) && Clean(r) ==>
                  && ret == 0
                  && t.chip.mem[baseAddr..baseAddr + size] == wrote[..size])
            && (ret == 0 <==> w.ok && r.ok && w.block[..size] == r.block[..size])
            && t.chip == (if w.ok then r.chip else w.chip) && t.clock == if w.ok then r.clock else w.clock
  {
    hide Transfer, Align4, Pattern;
    var writeBuff := new TransportBuff.Alloc(size);
    var readBuff := new TransportBuff.Alloc(size);
    FillPattern(writeBuff.memblock, size, baseValue);
    wrote, into := writeBuff.memblock[..], readBuff.memblock[..];
    ReadsBack(t.chip, t.clock, t.weather, wrote, into, baseAddr, size);
    ret := MemblockCommon(t, writeBuff, true, baseAddr);
    if ret != 0 {
      return;
    }
    ret := MemblockCommon(t, readBuff, false, baseAddr);
    if ret != 0 {
      return;
    }
    if writeBuff.memblock[..][..size] != readBuff.memblock[..][..size] {
      ret := -1;
    }
  }
}
