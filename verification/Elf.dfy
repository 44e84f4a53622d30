/**
 `elf_file.c`: collecting the off-chip statistics sections of a firmware file in two passes,
 and loading the two sections of a board configuration file next to each other.
 */
module Elf {
  import opened Octets
  import opened SdioChip
  import opened SdioOverSpi
  import opened Transfers
  import opened SdioHost
  import opened Refinement

  /** A section header, with its name looked up in the string table. */
  datatype Section = Section(name: string, addr: nat, offset: nat, size: nat) {
    predicate Within(file: seq<octet>) { offset + size <= |file| }

    function Of(file: seq<octet>): (s: seq<octet>)
      requires Within(file)
      ensures |s| == size
    {
      file[offset..offset + size]
    }
  }

  /** sizeof(struct statistics_offchip_data) */
  const RECORD_SIZE: nat := 206

  // ---------------------------------------------------------------- off-chip statistics

  /** strstr */
  predicate Contains(s: string, part: string)
    decreases |s|
  {
    part <= s || (s != "" && Contains(s[1..], part))
  }

  /** The name contains the part exactly when the part is a stretch of it. */
  lemma {:induction false} ContainsIff(s: string, part: string)
    ensures Contains(s, part) <==> exists k :: StandsAt(s, part, k)
    decreases |s|
  {
    if part <= s {
      assert StandsAt(s, part, 0);
    } else if s != "" {
      ContainsIff(s[1..], part);
      hide StandsAt;
      if k: nat :| StandsAt(s[1..], part, k) {
        StandsBehind(s, part, k);
      }
      if k: nat :| StandsAt(s, part, k) {
        StandsBehind(s, part, k - 1);
      }
    }
  }

  lemma StandsBehind(s: string, part: string, k: nat)
    requires s != ""
    ensures StandsAt(s[1..], part, k) <==> StandsAt(s, part, k + 1)
  {
    if k + 1 + |part| <= |s| {
      assert s[k + 1..k + 1 + |part|] == s[1..][k..k + |part|];
    }
  }

  predicate StandsAt(s: string, part: string, k: nat) {
    k + |part| <= |s| && s[k..k + |part|] == part
  }

  function OffChip(secs: seq<Section>): seq<Section> {
    if secs == [] then []
    else if Contains(secs[0].name, "_offchip_") then [secs[0]] + OffChip(secs[1..])
    else OffChip(secs[1..])
  }

  function Size(secs: seq<Section>): nat {
    if secs == [] then 0 else secs[0].size + Size(secs[1..])
  }

  /** How many whole records the sections hold, each on its own. */
  function RecordCount(secs: seq<Section>): nat {
    if secs == [] then 0 else secs[0].size / RECORD_SIZE + RecordCount(secs[1..])
  }

  function Contents(file: seq<octet>, secs: seq<Section>): (s: seq<octet>)
    requires forall x :: x in secs ==> x.Within(file)
    ensures |s| == Size(secs)
  {
    if secs == [] then [] else secs[0].Of(file) + Contents(file, secs[1..])
  }

  lemma {:induction false} OffChipOn(secs: seq<Section>, x: Section)
    ensures OffChip(secs + [x]) == OffChip(secs) + (if Contains(x.name, "_offchip_") then [x] else [])
    decreases |secs|
  {
    hide Contains;
    if secs == [] {
      assert [x][1..] == [];
    } else {
      assert (secs + [x])[1..] == secs[1..] + [x];
      OffChipOn(secs[1..], x);
    }
  }

  lemma {:induction false} TotalsOn(secs: seq<Section>, x: Section)
    ensures Size(secs + [x]) == Size(secs) + x.size
    ensures RecordCount(secs + [x]) == RecordCount(secs) + x.size / RECORD_SIZE
    decreases |secs|
  {
    if secs != [] {
      assert (secs + [x])[1..] == secs[1..] + [x];
      TotalsOn(secs[1..], x);
    } else {
      assert [x][1..] == [];
    }
  }

  lemma {:induction false} ContentsOn(file: seq<octet>, secs: seq<Section>, x: Section)
    requires (forall y :: y in secs ==> y.Within(file)) && x.Within(file)
    ensures Contents(file, secs + [x]) == Contents(file, secs) + x.Of(file)
    decreases |secs|
  {
    if secs != [] {
      assert (secs + [x])[1..] == secs[1..] + [x];
      ContentsOn(file, secs[1..], x);
      assert secs[0].Of(file) + (Contents(file, secs[1..]) + x.Of(file)) == secs[0].Of(file) + Contents(file, secs[1..]) + x.Of(file);
    } else {
      assert [x][1..] == [];
    }
  }

  lemma {:induction false} SizeRises(secs: seq<Section>, i: nat)
    requires i <= |secs|
    ensures Size(OffChip(secs[..i])) <= Size(OffChip(secs))
    decreases |secs| - i
  {
    hide Contains;
    if i == |secs| {
      assert secs[..i] == secs;
    } else {
      assert secs[..i + 1] == secs[..i] + [secs[i]];
      OffChipOn(secs[..i], secs[i]);
      TotalsOn(OffChip(secs[..i]), secs[i]);
      assert OffChip(secs[..i]) + [] == OffChip(secs[..i]);
      SizeRises(secs, i + 1);
    }
  }

  /** One more section, off-chip or not. */
  lemma NextSection(secs: seq<Section>, i: nat)
    requires i < |secs|
    ensures var (was, now) := (OffChip(secs[..i]), OffChip(secs[..i + 1]));
            if Contains(secs[i].name, "_offchip_") then
              now == was + [secs[i]] && Size(now) == Size(was) + secs[i].size &&
              RecordCount(now) == RecordCount(was) + secs[i].size / 206
            else now == was
  {
    hide Contains;
    assert secs[..i + 1] == secs[..i] + [secs[i]];
    OffChipOn(secs[..i], secs[i]);
    TotalsOn(OffChip(secs[..i]), secs[i]);
    assert OffChip(secs[..i]) + [] == OffChip(secs[..i]);
  }

  /** The stretch of the file that a section header points to is in `blob`, from `at` on. */
  predicate CopiedTo(blob: seq<octet>, at: nat, file: seq<octet>, x: Section) {
    && at + x.size <= |blob| && x.offset + x.size <= |file|
    && blob[at..at + x.size] == file[x.offset..x.offset + x.size]
  }

  /** Each off-chip section is copied from where it is in the file to behind those before it. */
  lemma {:induction false} SectionIsCopied(file: seq<octet>, secs: seq<Section>, k: nat)
    requires forall x :: x in OffChip(secs) ==> x.Within(file)
    requires k < |secs| && Contains(secs[k].name, "_offchip_")
    ensures CopiedTo(Contents(file, OffChip(secs)), Size(OffChip(secs[..k])), file, secs[k])
    decreases |secs|
  {
    hide Contains, Contents, Size, CopiedTo;
    var rest := secs[1..];
    if k == 0 {
      assert secs[..0] == [];
      FirstIsCopied(file, secs[0], OffChip(rest));
    } else {
      SectionIsCopied(file, rest, k - 1);
      assert secs[..k][1..] == rest[..k - 1];
      if Contains(secs[0].name, "_offchip_") {
        LaterIsCopied(file, secs[0], OffChip(rest), OffChip(rest[..k - 1]), secs[k]);
      }
    }
  }

  lemma FirstIsCopied(file: seq<octet>, x: Section, secs: seq<Section>)
    requires forall y :: y in [x] + secs ==> y.Within(file)
    ensures CopiedTo(Contents(file, [x] + secs), Size([]), file, x)
  {
    assert x in [x] + secs;
  }

  lemma LaterIsCopied(file: seq<octet>, x: Section, secs: seq<Section>, before: seq<Section>, y: Section)
    requires forall z :: z in [x] + secs ==> z.Within(file)
    requires CopiedTo(Contents(file, secs), Size(before), file, y)
    ensures CopiedTo(Contents(file, [x] + secs), Size([x] + before), file, y)
  {
    assert x in [x] + secs;
  }

  /** morse_stats_load: the first pass finds the size, the second one copies. */
  method StatsLoad(file: seq<octet>, secs: seq<Section>) returns (blob: array<octet>, nRec: nat)
    requires forall x :: x in secs ==> x.Within(file)
    ensures forall x :: x in OffChip(secs) ==> x.Within(file)
    ensures fresh(blob) && blob[..] == Contents(file, OffChip(secs)) && nRec == RecordCount(OffChip(secs))
    ensures forall k {:trigger secs[k]} :: 0 <= k < |secs| && Contains(secs[k].name, "_offchip_") ==>
              CopiedTo(blob[..], Size(OffChip(secs[..k])), file, secs[k])
  {
    hide OffChip, Size, RecordCount, Contains, Contents, Store;
    Empty(file);
    var totalStatsSize := 0;
    for ii := 0 to |secs|
      invariant totalStatsSize == Size(OffChip(secs[..ii]))
    {
      NextSection(secs, ii);
      if Contains(secs[ii].name, "_offchip_") {
        totalStatsSize := totalStatsSize + secs[ii].size;
      }
    }
    assert secs[..|secs|] == secs;
    blob := new octet[totalStatsSize];
    nRec := 0;
    var offset := 0;
    for ii := 0 to |secs|
      invariant blob.Length == Size(OffChip(secs))
      invariant offset == Size(OffChip(secs[..ii])) <= blob.Length
      invariant nRec == RecordCount(OffChip(secs[..ii]))
      invariant forall x :: x in OffChip(secs[..ii]) ==> x.Within(file)
      invariant blob[..offset] == Contents(file, OffChip(secs[..ii]))
    {
      NextSection(secs, ii);
      SizeRises(secs, ii + 1);
      if Contains(secs[ii].name, "_offchip_") {
        ghost var was := blob[..];
        ContentsOn(file, OffChip(secs[..ii]), secs[ii]);
        Memcpy(blob, offset, secs[ii].Of(file));
        offset := offset + secs[ii].size;
        nRec := nRec + secs[ii].size / RECORD_SIZE;
      }
    }
    assert blob[..offset] == blob[..];
    forall k {:trigger secs[k]} | 0 <= k < |secs| && Contains(secs[k].name, "_offchip_")
      ensures CopiedTo(blob[..], Size(OffChip(secs[..k])), file, secs[k])
    {
      SectionIsCopied(file, secs, k);
    }
  }

  lemma Empty(file: seq<octet>)
    ensures OffChip([]) == [] && Size([]) == 0 && RecordCount([]) == 0 && Contents(file, []) == []
  {
  }

  /** The records of a blob. */
  function RecordsOf(s: seq<octet>): seq<seq<octet>>
    decreases |s|
  {
    if |s| < RECORD_SIZE then [] else [s[..RECORD_SIZE]] + RecordsOf(s[RECORD_SIZE..])
  }

  function RecordsIn(file: seq<octet>, secs: seq<Section>): seq<seq<octet>>
    requires forall x :: x in secs ==> x.Within(file)
  {
    if secs == [] then [] else RecordsOf(secs[0].Of(file)) + RecordsIn(file, secs[1..])
  }

  lemma {:induction false} RecordsOfBoth(a: seq<octet>, b: seq<octet>)
    requires |a| % RECORD_SIZE == 0
    ensures RecordsOf(a + b) == RecordsOf(a) + RecordsOf(b)
    decreases |a|
  {
    if a == [] {
      assert a + b == b;
    } else {
      assert (a + b)[..RECORD_SIZE] == a[..RECORD_SIZE];
      assert (a + b)[RECORD_SIZE..] == a[RECORD_SIZE..] + b;
      RecordsOfBoth(a[RECORD_SIZE..], b);
    }
  }

  lemma {:induction false} RecordsOfLength(s: seq<octet>)
    ensures |RecordsOf(s)| == |s| / RECORD_SIZE
    decreases |s|
  {
    if |s| >= RECORD_SIZE {
      RecordsOfLength(s[RECORD_SIZE..]);
      assert |s| / RECORD_SIZE == (|s| - RECORD_SIZE) / RECORD_SIZE + 1;
    }
  }

  /** When the sections hold whole records, the blob's records are theirs, in order, and as many as were counted. */
  lemma {:induction false} BlobHoldsTheRecords(file: seq<octet>, secs: seq<Section>)
    requires forall x :: x in secs ==> x.Within(file) && x.size % 206 == 0
    ensures RecordsOf(Contents(file, secs)) == RecordsIn(file, secs)
    ensures |RecordsIn(file, secs)| == RecordCount(secs)
    decreases |secs|
  {
    if secs != [] {
      RecordsOfBoth(secs[0].Of(file), Contents(file, secs[1..]));
      RecordsOfLength(secs[0].Of(file));
      BlobHoldsTheRecords(file, secs[1..]);
    }
  }

  /** The table never has more records than there is room for, whatever the sections hold. */
  lemma {:induction false} RecordsFit(secs: seq<Section>)
    ensures RecordCount(secs) * 206 <= Size(secs)
    decreases |secs|
  {
    if secs != [] {
      RecordsFit(secs[1..]);
    }
  }

  // ---------------------------------------------------------------- board configuration

  const HOST_FLASH_BASE: nat := 0x1_0000
  const REGDOM: string := ".regdom_"

  /** What the search for the two sections has found so far; sizes and offsets start as 0. */
  datatype Choice = Choice(addr: nat, board: Section, regdom: Section)

  const NOWHERE := Section("", 0, 0, 0)

  /** A later section of the same name replaces an earlier one. */
  function Look(secs: seq<Section>, country: string): Choice {
    if secs == [] then Choice(0, NOWHERE, NOWHERE)
    else
      var n := |secs| - 1;
      var f, x := Look(secs[..n], country), secs[n];
      if x.name == ".board_config" then f.(addr := x.addr, board := x)
      else if x.name == REGDOM + country then f.(regdom := x)
      else f
  }

  predicate Loadable(f: Choice) {
    && f.board.offset != 0 && f.board.size != 0
    && f.addr >= HOST_FLASH_BASE
    && f.regdom.offset != 0 && f.regdom.size != 0
  }

  /** The last index with a name, or |secs|. */
  function LastNamed(secs: seq<Section>, name: string): (k: nat)
    ensures k <= |secs| && (k < |secs| ==> secs[k].name == name)
    ensures forall i {:trigger secs[i]} :: 0 <= i < |secs| && (k < i || k == |secs|) ==> secs[i].name != name
  {
    if secs == [] then 0
    else
      var n := |secs| - 1;
      if secs[n].name == name then n
      else
        var k := LastNamed(secs[..n], name);
        assert forall i {:trigger secs[i]} :: 0 <= i < n ==> secs[i] == secs[..n][i];
        if k == n then n + 1 else k
  }

  /** The last section with a name, or none. */
  function SectionNamed(secs: seq<Section>, name: string): Section {
    var k := LastNamed(secs, name);
    if k < |secs| then secs[k] else NOWHERE
  }

  lemma SectionNamedOn(secs: seq<Section>, name: string)
    requires secs != []
    ensures var n := |secs| - 1;
            SectionNamed(secs, name) == if secs[n].name == name then secs[n] else SectionNamed(secs[..n], name)
  {
  }

  predicate LastAt(secs: seq<Section>, name: string, k: nat) {
    k < |secs| && secs[k].name == name && forall i :: k < i < |secs| ==> secs[i].name != name
  }

  /** It is the last section of the name, or, if there is none, the empty one. */
  lemma SectionNamedIs(secs: seq<Section>, name: string)
    ensures forall k: nat :: LastAt(secs, name, k) ==> SectionNamed(secs, name) == secs[k]
    ensures (forall i :: 0 <= i < |secs| ==> secs[i].name != name) ==> SectionNamed(secs, name) == Section("", 0, 0, 0)
  {
  }

  /**
   Both sections are loaded exactly when the last of each name has an offset and a size, and the
   first has an address above the low 64 kB.
   */
  lemma LoadableIff(secs: seq<Section>, country: string)
    ensures var b, r := SectionNamed(secs, ".board_config"), SectionNamed(secs, ".regdom_" + country);
            Loadable(Look(secs, country)) <==>
            b.offset > 0 && b.size > 0 && b.addr >= 0x1_0000 && r.offset > 0 && r.size > 0
  {
    LookFindsLast(secs, country);
    hide Look, SectionNamed;
  }

  /** The search finds the last section of each name. */
  lemma {:induction false} LookFindsLast(secs: seq<Section>, country: string)
    ensures var f := Look(secs, country);
            && f.board == SectionNamed(secs, ".board_config") && f.addr == f.board.addr
            && f.regdom == SectionNamed(secs, REGDOM + country)
    decreases |secs|
  {
    hide LastNamed;
    NamesDiffer(country);
    if secs != [] {
      SectionNamedOn(secs, ".board_config");
      SectionNamedOn(secs, REGDOM + country);
      hide SectionNamed;
      LookFindsLast(secs[..|secs| - 1], country);
    }
  }

  lemma NamesDiffer(country: string)
    ensures REGDOM + country != ".board_config"
  {
    assert (REGDOM + country)[1] == 'r';
  }

  /** A section in a transport buffer: padded to a word. */
  function Padded(s: seq<octet>): (r: seq<octet>)
    ensures |r| == Align4(|s|) && s <= r
  {
    s + Repeat(JUNK, Align4(|s|) - |s|)
  }

  /** The transfer of one section. */
  function Blob(chip: Chip, clock: nat, weather: Forecast, s: seq<octet>, addr: nat): (r: Link)
    requires chip.Valid() && addr % 4 == 0
    ensures r.chip.Valid()
  {
    Transfer(Start(chip, Padded(s), 0, clock), weather, true, addr, |s|)
  }

  /** load_elf_blob */
  method LoadElfBlob(t: Transport, file: seq<octet>, x: Section, addr: nat) returns (ret: int)
    requires t.chip.Valid() && x.Within(file) && x.size > 0 && addr % 4 == 0 && addr + x.size <= MEM_SIZE
    modifies t
    ensures t.chip.Valid()
    ensures var end := Blob(old(t.chip), old(t.clock), t.weather, x.Of(file), addr);
            && t.chip == end.chip && t.clock == end.clock && ret == (if end.ok then 0 else -1)
            && (Clean(end) ==> ret == 0 && CopiedTo(t.chip.mem, addr, file, x))
  {
    hide Transfer, Align4, Repeat, Store, CopiedTo;
    BlobCopied(t.chip, t.clock, t.weather, file, x, addr);
    var write := new TransportBuff.Alloc(x.size);
    ghost var was := write.memblock[..];
    ghost var pad := Repeat(JUNK, Align4(x.size) - x.size);
    Memcpy(write.memblock, 0, x.Of(file));
    assert write.memblock[..] == Padded(x.Of(file));
    ret := MemblockCommon(t, write, true, addr);
    if ret != 0 {
      ret := -1;
    }
  }

  /** After a clean transfer the stretch of the file is in memory. */
  lemma BlobCopied(chip: Chip, clock: nat, weather: Forecast, file: seq<octet>, x: Section, addr: nat)
    requires chip.Valid() && x.Within(file) && addr % 4 == 0 && addr + x.size <= MEM_SIZE
    ensures var end := Blob(chip, clock, weather, x.Of(file), addr);
            Clean(end) ==> end.ok && CopiedTo(end.chip.mem, addr, file, x)
  {
    BlobStored(chip, clock, weather, x.Of(file), addr);
    hide Blob, CopiedTo, Padded, SdioChip.Store;
    StoredIsCopied(chip.mem, file, x, addr);
  }

  lemma StoredIsCopied(mem: seq<octet>, file: seq<octet>, x: Section, addr: nat)
    requires x.Within(file) && addr + |Padded(x.Of(file))| <= |mem|
    ensures CopiedTo(SdioChip.Store(mem, addr, Padded(x.Of(file))), addr, file, x)
  {
    hide Align4;
    var s := x.Of(file);
    var image := Padded(s);
    SlotStored(mem, addr, image, 0, |s|);
    assert image[0..|s|] == s;
  }

  /** Two sections of which the second follows the first without a gap. */
  predicate Contiguous(a: seq<octet>, b: seq<octet>, addr: nat) {
    addr % 4 == 0 && |a| % 4 == 0 && addr + |a| + |b| <= MEM_SIZE
  }

  /** The transfer of the second section, after that of the first. */
  function Second(chip: Chip, clock: nat, weather: Forecast, a: seq<octet>, b: seq<octet>, addr: nat): (r: Link)
    requires chip.Valid() && Contiguous(a, b, addr)
    ensures r.chip.Valid()
  {
    hide Blob;
    SecondAligned(a, b, addr);
    hide Contiguous;
    var first := Blob(chip, clock, weather, a, addr);
    Blob(first.chip, first.clock, weather, b, addr + |a|)
  }

  lemma SecondAligned(a: seq<octet>, b: seq<octet>, addr: nat)
    requires Contiguous(a, b, addr)
    ensures addr % 4 == 0 && (addr + |a|) % 4 == 0
  {
  }

  /** `now` is `was` with both sections in place, the second one padded to a word, and nothing else changed. */
  predicate Placed(was: seq<octet>, now: seq<octet>, a: seq<octet>, b: seq<octet>, addr: nat) {
    var image := a + Padded(b);
    addr + |image| <= |was| && now == SdioChip.Store(was, addr, image)
  }

  lemma BlobStored(chip: Chip, clock: nat, weather: Forecast, s: seq<octet>, addr: nat)
    requires chip.Valid() && addr % 4 == 0 && addr + |s| <= MEM_SIZE
    ensures addr + |Padded(s)| <= MEM_SIZE
    ensures var r := Blob(chip, clock, weather, s, addr);
            && (r.failures == 0 ==> r.ok)
            && (Clean(r) ==> r.chip.mem == SdioChip.Store(chip.mem, addr, Padded(s)))
  {
    hide Transfer, SdioChip.Store, Align4;
    TransferCopies(Start(chip, Padded(s), 0, clock), weather, true, addr, |s|);
    assert Padded(s)[0..0 + Align4(|s|)] == Padded(s);
  }

  /** One section after the other: memory holds the two next to each other. */
  lemma TwoBlobs(chip: Chip, clock: nat, weather: Forecast, a: seq<octet>, b: seq<octet>, addr: nat)
    requires chip.Valid() && Contiguous(a, b, addr)
    ensures var first, second := Blob(chip, clock, weather, a, addr), Second(chip, clock, weather, a, b, addr);
            && (first.failures == 0 ==> first.ok) && (second.failures == 0 ==> second.ok)
            && (Clean(first) && Clean(second) ==> Placed(chip.mem, second.chip.mem, a, b, addr))
  {
    hide SdioChip.Store, Align4, Padded, Blob;
    var first := Blob(chip, clock, weather, a, addr);
    BlobStored(chip, clock, weather, a, addr);
    BlobStored(first.chip, first.clock, weather, b, addr + |a|);
    if Clean(first) && Clean(Second(chip, clock, weather, a, b, addr)) {
      StoreMore(chip.mem, addr, a, Padded(b));
    }
  }

  /** The search for the two sections. */
  method FindSections(secs: seq<Section>, country: string) returns (f: Choice)
    ensures f == Look(secs, country)
  {
    f := Choice(0, NOWHERE, NOWHERE);
    for ii := 0 to |secs|
      invariant f == Look(secs[..ii], country)
    {
      assert secs[..ii + 1][..ii] == secs[..ii];
      if secs[ii].name == ".board_config" {
        f := f.(addr := secs[ii].addr, board := secs[ii]);
      } else if secs[ii].name == REGDOM + country {
        f := f.(regdom := secs[ii]);
      }
    }
    assert secs[..|secs|] == secs;
  }

  /** load_bcf_sections: nothing is loaded unless both sections are there; then one follows the other. */
  method LoadBcf(t: Transport, file: seq<octet>, secs: seq<Section>, country: string) returns (ret: int)
    requires t.chip.Valid() && forall x :: x in secs ==> x.Within(file)
    requires var f := Look(secs, country);
             Loadable(f) ==> f.board.Within(file) && f.regdom.Within(file) ==> Contiguous(f.board.Of(file), f.regdom.Of(file), f.addr)
    modifies t
    ensures t.chip.Valid()
    ensures var f := Look(secs, country);
            if !Loadable(f) then ret == -1 && t.chip == old(t.chip) && t.clock == old(t.clock)
            else
              && f.board.Within(file) && f.regdom.Within(file)
              && var a, b := f.board.Of(file), f.regdom.Of(file);
                 var first := Blob(old(t.chip), old(t.clock), t.weather, a, f.addr);
                 var second := Second(old(t.chip), old(t.clock), t.weather, a, b, f.addr);
                 && (!first.ok ==> ret == -1 && t.chip == first.chip && t.clock == first.clock)
                 && (first.ok ==>
                       (ret == 0 <==> second.ok) && t.chip == second.chip && t.clock == second.clock)
                 && (Clean(first) && Clean(second) ==>
                       && ret == 0 && Placed(old(t.chip.mem), t.chip.mem, a, b, f.addr)
                       && CopiedTo(t.chip.mem, f.addr, file, f.board)
                       && CopiedTo(t.chip.mem, f.addr + f.board.size, file, f.regdom))
  {
    hide CopiedTo, Blob, Align4, Padded, Placed, Look;
    FoundWithin(file, secs, country);
    var f := FindSections(secs, country);
    if !Loadable(f) {
      return -1;
    }
    TwoBlobs(t.chip, t.clock, t.weather, f.board.Of(file), f.regdom.Of(file), f.addr);
    ghost var was := t.chip.mem;
    ret := LoadElfBlob(t, file, f.board, f.addr);
    if ret < 0 {
      return;
    }
    ret := LoadElfBlob(t, file, f.regdom, f.addr + f.board.size);
    PlacedIsCopied(was, t.chip.mem, file, f.board, f.regdom, f.addr);
  }

  /** What is in place is what the section headers point to. */
  lemma PlacedIsCopied(was: seq<octet>, now: seq<octet>, file: seq<octet>, x: Section, y: Section, addr: nat)
    requires x.Within(file) && y.Within(file)
    ensures Placed(was, now, x.Of(file), y.Of(file), addr) ==>
              CopiedTo(now, addr, file, x) && CopiedTo(now, addr + x.size, file, y)
  {
    hide Align4;
    var a, b := x.Of(file), y.Of(file);
    var image := a + Padded(b);
    if Placed(was, now, a, b, addr) {
      assert now[addr..addr + |image|] == image;
      assert image[..|a|] == a && image[|a|..|a| + |b|] == b;
      assert now[addr..addr + |a|] == image[..|a|];
      assert now[addr + |a|..addr + |a| + |b|] == image[|a|..|a| + |b|];
    }
  }

  lemma {:induction false} FoundWithin(file: seq<octet>, secs: seq<Section>, country: string)
    requires forall x :: x in secs ==> x.Within(file)
    ensures Look(secs, country).board.Within(file) && Look(secs, country).regdom.Within(file)
    decreases |secs|
  {
    if secs != [] {
      FoundWithin(file, secs[..|secs| - 1], country);
    }
  }
}
