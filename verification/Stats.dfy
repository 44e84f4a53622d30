/**
 The statistics response of `stats.c`: a stream of records, each a 16-bit tag, a 16-bit length
 and that many octets, looked up in metadata whose format field the loop corrects in place.
 */
module Stats {
  import opened Octets
  import opened Options
  import opened SdioCommand

  const STATS_TLV_OVERHEAD: nat := 4

  const MORSE_STATS_FMT_DEC: nat := 0
  const MORSE_STATS_FMT_U_DEC: nat := 1
  const MORSE_STATS_FMT_LAST: nat := 13

  datatype Record = Record(tag: nat, payload: seq<octet>) {
    predicate Ok() { tag < 0x1_0000 && 0 < |payload| < 0x1_0000 }
  }

  /** How the loop over a response ends. `Overrun` stands for a read beyond the response. */
  datatype End = Done | Malformed | Overrun

  function Short(lo: octet, hi: octet): (n: nat)
    ensures n < 0x1_0000
  {
    Value(lo) + 256 * Value(hi)
  }

  function Encode(r: Record): (s: seq<octet>)
    ensures |s| == STATS_TLV_OVERHEAD + |r.payload|
  {
    [Truncate(r.tag), Truncate(r.tag / 256), Truncate(|r.payload|), Truncate(|r.payload| / 256)] + r.payload
  }

  /** Tag and length go out low octet first. */
  lemma LowOctetFirst()
    ensures Encode(Record(0x0102, [0x09])) == [0x02, 0x01, 0x01, 0x00, 0x09]
  {
    assert Truncate(0x0102) == 0x02 && Truncate(0x01) == 0x01 && Truncate(0) == 0;
    hide Truncate;
  }

  function EncodeAll(rs: seq<Record>): seq<octet> {
    if rs == [] then [] else Encode(rs[0]) + EncodeAll(rs[1..])
  }

  // ---------------------------------------------------------------- reading the stream

  /** The next record of a stream of which `left` octets are believed to be left. */
  datatype Next = Got(record: Record) | Ended(end: End)

  function Read(buf: seq<octet>, left: int): (r: Next)
    ensures r.Got? ==> STATS_TLV_OVERHEAD + |r.record.payload| <= |buf| && r.record.Ok()
  {
    // The comparison is an unsigned one: a negative count is a large one.
    if 0 <= left <= STATS_TLV_OVERHEAD then Ended(Done)
    else if |buf| < STATS_TLV_OVERHEAD then Ended(Overrun)
    else
      var tag, len := Short(buf[0], buf[1]), Short(buf[2], buf[3]);
      // The length is compared with what was left before the tag and the length were read.
      if len > left || len == 0 then Ended(Malformed)
      else if |buf| < STATS_TLV_OVERHEAD + len then Ended(Overrun)
      else Got(Record(tag, buf[STATS_TLV_OVERHEAD..STATS_TLV_OVERHEAD + len]))
  }

  /** The records of a stream and how it ends. */
  function Records(buf: seq<octet>, left: int): (seq<Record>, End)
    decreases |buf|
  {
    match Read(buf, left)
    case Ended(end) => ([], end)
    case Got(r) =>
      var size := STATS_TLV_OVERHEAD + |r.payload|;
      var rest := Records(buf[size..], left - size);
      ([r] + rest.0, rest.1)
  }

  lemma ShortOf(n: nat)
    requires n < 0x1_0000
    ensures Short(Truncate(n), Truncate(n / 256)) == n
  {
    hide Truncate, Value;
    ValueOfTruncate(n);
    ValueOfTruncate(n / 256);
  }

  /** A record at the front of a stream is read back. */
  lemma ReadEncoded(r: Record, rest: seq<octet>, left: int)
    requires r.Ok() && left >= STATS_TLV_OVERHEAD + |r.payload|
    ensures Read(Encode(r) + rest, left) == Got(r)
  {
    hide Truncate, Short;
    ShortOf(r.tag);
    ShortOf(|r.payload|);
    var buf := Encode(r) + rest;
    assert buf[STATS_TLV_OVERHEAD..STATS_TLV_OVERHEAD + |r.payload|] == r.payload;
  }

  lemma RecordsOn(r: Record, rest: seq<octet>, left: int)
    requires r.Ok() && left >= |Encode(r)|
    ensures var more := Records(rest, left - |Encode(r)|);
            Records(Encode(r) + rest, left) == ([r] + more.0, more.1)
  {
    hide Encode, Read;
    ReadEncoded(r, rest, left);
    assert (Encode(r) + rest)[|Encode(r)|..] == rest;
  }

  /** Encoded records are read back whatever follows, as long as that is not another record. */
  lemma {:induction false} DecodeWithTail(rs: seq<Record>, tail: seq<octet>)
    requires (forall r :: r in rs ==> r.Ok()) && Read(tail, |tail|).Ended?
    ensures var buf := EncodeAll(rs) + tail;
            Records(buf, |buf|) == (rs, Read(tail, |tail|).end)
    decreases |rs|
  {
    hide Encode, Read, Records;
    if rs == [] {
      assert EncodeAll(rs) + tail == tail;
      RecordsOfTail(tail);
    } else {
      var head, rest := Encode(rs[0]), EncodeAll(rs[1..]) + tail;
      assert EncodeAll(rs) + tail == head + rest;
      DecodeWithTail(rs[1..], tail);
      RecordsOn(rs[0], rest, |head + rest|);
      assert [rs[0]] + rs[1..] == rs;
    }
  }

  lemma RecordsOfTail(tail: seq<octet>)
    requires Read(tail, |tail|).Ended?
    ensures Records(tail, |tail|) == ([], Read(tail, |tail|).end)
  {
    hide Read;
  }

  /** Decoding inverts encoding, whatever up to four octets follow. */
  lemma DecodeEncoded(rs: seq<Record>, tail: seq<octet>)
    requires (forall r :: r in rs ==> r.Ok()) && |tail| <= STATS_TLV_OVERHEAD
    ensures var buf := EncodeAll(rs) + tail;
            Records(buf, |buf|) == (rs, Done)
  {
    TailEnds(tail);
    hide Encode, Read, Records;
    DecodeWithTail(rs, tail);
  }

  lemma ShortBack(lo: octet, hi: octet)
    ensures Truncate(Short(lo, hi)) == lo && Truncate(Short(lo, hi) / 256) == hi
  {
    hide Truncate, Value;
    ValueOfTruncate(Short(lo, hi));
    ValueIsInjective(Truncate(Short(lo, hi)), lo);
    assert Short(lo, hi) / 256 == Value(hi);
    TruncateOfValue(hi);
  }

  /** What is read is an encoded record. */
  lemma ReadIsEncoded(buf: seq<octet>, left: int)
    requires Read(buf, left).Got?
    ensures var r := Read(buf, left).record;
            Encode(r) == buf[..STATS_TLV_OVERHEAD + |r.payload|]
  {
    hide Truncate, Short;
    ShortBack(buf[0], buf[1]);
    ShortBack(buf[2], buf[3]);
  }

  /**
   What is left over after the last record when the loop ends in a certain way. A length that
   fits what is left only when the record's own header is counted in passes the guard.
   */
  predicate Leftover(tail: seq<octet>, end: End) {
    if |tail| <= STATS_TLV_OVERHEAD then end == Done
    else
      var len := Short(tail[2], tail[3]);
      match end
      case Done => false
      case Malformed => len == 0 || |tail| < len
      case Overrun => 0 < len <= |tail| < STATS_TLV_OVERHEAD + len
  }

  lemma TailEnds(tail: seq<octet>)
    ensures forall end :: Read(tail, |tail|) == Ended(end) <==> Leftover(tail, end)
  {
    hide Short;
  }

  /** Every response is the encoding of the visited records and something left over that is not a record. */
  lemma {:induction false} ResponseSplits(buf: seq<octet>)
    ensures var r := Records(buf, |buf|);
            && (forall x :: x in r.0 ==> x.Ok())
            && EncodeAll(r.0) <= buf
            && Leftover(buf[|EncodeAll(r.0)|..], r.1)
    decreases |buf|
  {
    hide Read, Encode, Leftover;
    var n := Read(buf, |buf|);
    if n.Got? {
      ReadIsEncoded(buf, |buf|);
      var size := STATS_TLV_OVERHEAD + |n.record.payload|;
      ResponseSplits(buf[size..]);
      var rs, rest := Records(buf, |buf|).0, Records(buf[size..], |buf| - size).0;
      assert rs[1..] == rest;
      assert buf == buf[..size] + buf[size..];
      assert buf[|EncodeAll(rs)|..] == buf[size..][|EncodeAll(rest)|..];
    } else {
      TailEnds(buf);
      assert buf[0..] == buf;
    }
  }

  /** `buf` is the encoding of `rs` and a leftover on which the loop ends so. */
  predicate Splits(buf: seq<octet>, rs: seq<Record>, end: End) {
    (forall r :: r in rs ==> r.Ok()) && EncodeAll(rs) <= buf && Leftover(buf[|EncodeAll(rs)|..], end)
  }

  /** The loop visits exactly these records and ends in this way exactly when the response is made up so. */
  lemma VisitsIff(buf: seq<octet>, rs: seq<Record>, end: End)
    ensures Records(buf, |buf|) == (rs, end) <==> Splits(buf, rs, end)
  {
    hide Records, Read, Encode, Leftover;
    ResponseSplits(buf);
    if Splits(buf, rs, end) {
      var tail := buf[|EncodeAll(rs)|..];
      TailEnds(tail);
      DecodeWithTail(rs, tail);
      assert EncodeAll(rs) + tail == buf;
    }
  }

  /** The loop reads beyond the response exactly when a last record is up to four octets too long for it. */
  lemma OverrunIff(buf: seq<octet>)
    ensures Records(buf, |buf|).1 == Overrun <==> exists rs :: Splits(buf, rs, Overrun)
  {
    hide Splits, Records;
    var r := Records(buf, |buf|);
    VisitsIff(buf, r.0, r.1);
    if rs :| Splits(buf, rs, Overrun) {
      VisitsIff(buf, rs, Overrun);
    }
  }

  /** Five octets that announce five octets of payload: the guard lets them pass and four are read beyond the response. */
  lemma OverrunHappens()
    ensures Records([1, 0, 5, 0, 10], 5) == ([], Overrun)
  {
    assert Value(5) == 5 && Value(0) == 0;
    hide Value;
  }

  // ---------------------------------------------------------------- the metadata

  datatype Meta = Meta(typeStr: string, key: string, format: nat, tag: nat)

  /** The first metadata record with the tag: get_stats_offchip. */
  function First(stats: seq<Meta>, tag: nat): (r: Option<nat>)
    ensures r.Some? ==> r.value < |stats| && stats[r.value].tag == tag
    ensures forall i {:trigger stats[i]} :: 0 <= i < (if r.Some? then r.value else |stats|) ==> stats[i].tag != tag
  {
    if stats == [] then None
    else if stats[0].tag == tag then Some(0)
    else
      match First(stats[1..], tag)
      case None =>
        assert forall i {:trigger stats[i]} :: 0 < i < |stats| ==> stats[i] == stats[1..][i - 1];
        None
      case Some(k) =>
        assert forall i {:trigger stats[i]} :: 0 < i <= k ==> stats[i] == stats[1..][i - 1];
        Some(k + 1)
  }

  method GetStatsOffchip(stats: array<Meta>, tag: nat) returns (r: Option<nat>)
    ensures r == First(stats[..], tag)
  {
    for i := 0 to stats.Length
      invariant forall j {:trigger stats[j]} :: 0 <= j < i ==> stats[j].tag != tag
    {
      if stats[i].tag == tag {
        return Some(i);
      }
    }
    return None;
  }

  /** The format a value is shown in: types named uint are shown as unsigned, unknown formats in the last format. */
  function Shown(m: Meta): (f: nat)
    ensures f <= MORSE_STATS_FMT_LAST
  {
    if m.format == MORSE_STATS_FMT_DEC && "uint" <= m.typeStr then MORSE_STATS_FMT_U_DEC
    else if m.format > MORSE_STATS_FMT_LAST then MORSE_STATS_FMT_LAST
    else m.format
  }

  /** Decimal values of unsigned types become unsigned, formats beyond 13 become 13, and nothing else changes. */
  lemma ShownIs(m: Meta, rest: string)
    ensures m.format == 0 && m.typeStr == "uint" + rest ==> Shown(m) == 1
    ensures m.format == 0 && m.typeStr == "int" + rest ==> Shown(m) == 0
    ensures m.format > 13 ==> Shown(m) == 13
    ensures 0 < m.format <= 13 ==> Shown(m) == m.format
  {
    assert m.typeStr == "int" + rest ==> m.typeStr[0] == 'i';
    assert "uint"[0] == 'u';
  }

  /** The same metadata as far as showing goes. */
  predicate Alike(m: Meta, was: Meta) {
    m.typeStr == was.typeStr && m.key == was.key && m.tag == was.tag && Shown(m) == Shown(was)
  }

  datatype Row = Row(format: nat, key: string, payload: seq<octet>) | Unknown(tag: nat, payload: seq<octet>)

  predicate Wanted(filter: Option<string>, key: string) {
    filter.None? || filter.value == key
  }

  /** What one record makes the command print, judged by metadata that nobody has written to. */
  function RowOf(stats: seq<Meta>, filter: Option<string>, r: Record): (rows: seq<Row>)
    ensures |rows| <= 1
  {
    match First(stats, r.tag)
    case None => [Unknown(r.tag, r.payload)]
    case Some(i) => if Wanted(filter, stats[i].key) then [Row(Shown(stats[i]), stats[i].key, r.payload)] else []
  }

  function Rows(stats: seq<Meta>, filter: Option<string>, rs: seq<Record>): seq<Row> {
    if rs == [] then [] else RowOf(stats, filter, rs[0]) + Rows(stats, filter, rs[1..])
  }

  /** The rows that a filter lets through: those with its key, and the unknown records. */
  function Keep(rows: seq<Row>, key: string): seq<Row> {
    if rows == [] then []
    else (if rows[0].Unknown? || rows[0].key == key then [rows[0]] else []) + Keep(rows[1..], key)
  }

  /** Without a filter every record makes one row, in order, by the first metadata with its tag. */
  lemma {:induction false} EveryRecordIsShown(stats: seq<Meta>, rs: seq<Record>)
    ensures var rows := Rows(stats, None, rs);
            && |rows| == |rs|
            && forall k {:trigger rs[k]} :: 0 <= k < |rs| ==>
                 && rows[k].payload == rs[k].payload
                 && match First(stats, rs[k].tag)
                    case None => rows[k] == Unknown(rs[k].tag, rs[k].payload)
                    case Some(i) => rows[k] == Row(Shown(stats[i]), stats[i].key, rs[k].payload)
    decreases |rs|
  {
    hide Shown, First;
    if rs != [] {
      var rows, rest := Rows(stats, None, rs), Rows(stats, None, rs[1..]);
      EveryRecordIsShown(stats, rs[1..]);
      assert rows[0] == RowOf(stats, None, rs[0])[0] && rows[1..] == rest;
      assert forall k {:trigger rs[k]} :: 1 <= k < |rs| ==> rs[k] == rs[1..][k - 1] && rows[k] == rest[k - 1];
    }
  }

  /** A filter drops the rows of known records with another key and changes nothing else. */
  lemma {:induction false} FilterKeeps(stats: seq<Meta>, key: string, rs: seq<Record>)
    ensures Rows(stats, Some(key), rs) == Keep(Rows(stats, None, rs), key)
    decreases |rs|
  {
    hide Shown, First;
    if rs != [] {
      FilterKeeps(stats, key, rs[1..]);
      var row := RowOf(stats, None, rs[0])[0];
      assert Rows(stats, None, rs) == [row] + Rows(stats, None, rs[1..]);
    }
  }

  /** One record: its metadata may be corrected on the way. */
  method ShowRecord(stats: array<Meta>, filter: Option<string>, r: Record) returns (rows: seq<Row>)
    modifies stats
    ensures forall i :: 0 <= i < stats.Length ==> Alike(stats[i], old(stats[i]))
    ensures rows == RowOf(old(stats[..]), filter, r)
  {
    hide First;
    var offchip := GetStatsOffchip(stats, r.tag);
    match offchip
    case None => rows := [Unknown(r.tag, r.payload)];
    case Some(i) =>
      if stats[i].format == MORSE_STATS_FMT_DEC && "uint" <= stats[i].typeStr {
        stats[i] := stats[i].(format := MORSE_STATS_FMT_U_DEC);
      }
      rows := [];
      if Wanted(filter, stats[i].key) {
        if stats[i].format > MORSE_STATS_FMT_LAST {
          stats[i] := stats[i].(format := MORSE_STATS_FMT_LAST);
        }
        rows := [Row(stats[i].format, stats[i].key, r.payload)];
      }
  }

  lemma RowOfAlike(a: seq<Meta>, b: seq<Meta>, filter: Option<string>, r: Record)
    requires |a| == |b| && forall i :: 0 <= i < |a| ==> Alike(a[i], b[i])
    ensures RowOf(a, filter, r) == RowOf(b, filter, r)
  {
    hide Shown, First;
  }

  lemma RowsOn(stats: seq<Meta>, filter: Option<string>, rs: seq<Record>, r: Record)
    ensures Rows(stats, filter, rs + [r]) == Rows(stats, filter, rs) + RowOf(stats, filter, r)
    decreases |rs|
  {
    hide RowOf;
    if rs == [] {
      assert [r][1..] == [];
    } else {
      assert (rs + [r])[1..] == rs[1..] + [r];
      RowsOn(stats, filter, rs[1..], r);
    }
  }

  lemma AlikeIsTransitive(a: seq<Meta>, b: seq<Meta>, c: seq<Meta>)
    requires |a| == |b| == |c|
    requires forall i :: 0 <= i < |a| ==> Alike(a[i], b[i])
    requires forall i :: 0 <= i < |b| ==> Alike(b[i], c[i])
    ensures forall i :: 0 <= i < |a| ==> Alike(a[i], c[i])
  {
    hide Shown;
    forall i | 0 <= i < |a| ensures Alike(a[i], c[i]) {
      assert Alike(a[i], b[i]) && Alike(b[i], c[i]);
    }
  }

  /**
   The loop of morsectrl_stats_cmd: every record of the response is shown, in order, by the
   metadata as it was before the loop began to correct it.
   */
  method ShowStats(buf: seq<octet>, respSz: int, stats: array<Meta>, filter: Option<string>) returns (rows: seq<Row>, end: End)
    modifies stats
    ensures var r := Records(buf, respSz);
            rows == Rows(old(stats[..]), filter, r.0) && end == r.1
    ensures forall i :: 0 <= i < stats.Length ==> Alike(stats[i], old(stats[i]))
  {
    hide Read, RowOf, Alike;
    ghost var was := stats[..];
    ghost var seen: seq<Record>, all := [], Records(buf, respSz);
    var pos: nat, left := 0, respSz;
    rows := [];
    assert buf[0..] == buf;
    AllAlike(was);
    assert [] + all.0 == all.0;
    while true
      invariant pos <= |buf| && rows == Rows(was, filter, seen)
      invariant forall i :: 0 <= i < stats.Length ==> Alike(stats[i], was[i])
      invariant var rest := Records(buf[pos..], left); all == (seen + rest.0, rest.1)
      decreases |buf| - pos
    {
      match Read(buf[pos..], left)
      case Ended(e) =>
        assert seen + [] == seen;
        return rows, e;
      case Got(r) =>
        ghost var rest := Records(buf[pos..][STATS_TLV_OVERHEAD + |r.payload|..], left - (STATS_TLV_OVERHEAD + |r.payload|));
        assert seen + ([r] + rest.0) == seen + [r] + rest.0;
        RowOfAlike(stats[..], was, filter, r);
        ghost var now := stats[..];
        var row := ShowRecord(stats, filter, r);
        AlikeIsTransitive(stats[..], now, was);
        RowsOn(was, filter, seen, r);
        rows, seen := rows + row, seen + [r];
        var size := STATS_TLV_OVERHEAD + |r.payload|;
        assert buf[pos..][size..] == buf[pos + size..];
        pos, left := pos + size, left - size;
    }
  }

  lemma AllAlike(a: seq<Meta>)
    ensures forall i :: 0 <= i < |a| ==> Alike(a[i], a[i])
  {
  }
}
