/**
 The standby session file of `standby.c`: what `standby_session_store` prints, and what
 `config_parse` with `parse_standby_session_keyval` makes of any text.
 */
module Session {
  import opened Options
  import opened Utilities

  const MAX_LINE_LENGTH: nat := 255
  const MAC_ADDR_LEN: nat := 6

  datatype Session = Session(bssid: seq<nat>, freq: nat, bw: nat, primaryBw: nat, primary1mhz: nat) {
    predicate Ok() {
      && |bssid| == MAC_ADDR_LEN && (forall i :: 0 <= i < MAC_ADDR_LEN ==> bssid[i] < 256)
      && freq < 0x1_0000_0000 && bw < 256 && primaryBw < 256 && primary1mhz < 256
    }
  }

  // ---------------------------------------------------------------- printing

  function MacText(m: seq<nat>): string
    requires forall i :: 0 <= i < |m| ==> m[i] < 256
  {
    if m == [] then "" else if |m| == 1 then HexOctet(m[0]) else HexOctet(m[0]) + [':'] + MacText(m[1..])
  }

  function Printed(key: string, val: string): string {
    key + ['='] + val + ['\n']
  }

  /** The file standby_session_store writes. */
  function Store(s: Session): string
    requires s.Ok()
  {
    Printed("bssid", MacText(s.bssid)) +
    (Printed("op_chan_freq", Decimal(s.freq)) +
     (Printed("op_chan_bw", Decimal(s.bw)) +
      (Printed("pri_chan_bw", Decimal(s.primaryBw)) + Printed("pri_1mhz_chan", Decimal(s.primary1mhz)))))
  }

  /** str_to_mac_addr: the octets that could be converted, at most k of them. */
  function ScanMac(s: string, k: nat): (m: seq<nat>)
    ensures |m| <= k && forall i :: 0 <= i < |m| ==> m[i] < 256
    decreases k
  {
    if k == 0 then []
    else
      match ScanOctet(s)
      case None => []
      case Some((o, rest)) => if k > 1 && rest != [] && rest[0] == ':' then [o] + ScanMac(rest[1..], k - 1) else [o]
  }

  lemma {:induction false} MacRoundTrip(m: seq<nat>)
    requires m != [] && forall i :: 0 <= i < |m| ==> m[i] < 256
    ensures ScanMac(MacText(m), |m|) == m
    decreases |m|
  {
    hide ScanOctet, HexOctet;
    if |m| == 1 {
      OctetRoundTrip(m[0], []);
      assert HexOctet(m[0]) + [] == HexOctet(m[0]);
    } else {
      var tail := [':'] + MacText(m[1..]);
      assert MacText(m) == HexOctet(m[0]) + tail;
      OctetRoundTrip(m[0], tail);
      assert tail[1..] == MacText(m[1..]);
      MacRoundTrip(m[1..]);
    }
  }

  // ---------------------------------------------------------------- reading the file

  /** How many characters the next fgets takes: a line with its line break, or as much of it as there is room for. */
  function LineLength(text: string, room: nat): (n: nat)
    ensures n <= |text| && n <= room && (text != [] && room > 0 ==> n > 0)
  {
    if text == [] || room == 0 then 0 else if text[0] == '\n' then 1 else 1 + LineLength(text[1..], room - 1)
  }

  function Find(s: string, c: char): (k: nat)
    ensures k <= |s| && (k < |s| ==> s[k] == c) && forall i :: 0 <= i < k ==> s[i] != c
  {
    if s == [] || s[0] == c then 0 else 1 + Find(s[1..], c)
  }

  /** The key and the value of a line, neither of them empty. */
  function KeyVal(line: string): Option<(string, string)> {
    var t := TrimEnd(line);
    var k := Find(t, '=');
    if k == |t| then None
    else
      var key, val := DropSpaces(t[..k]), t[k + 1..];
      if key == [] || val == [] then None else Some((key, val))
  }

  predicate Skipped(line: string) {
    line != [] && line[0] in ['#', '\n', '\r']
  }

  /** One key and value: the session afterwards, and whether the value could be read. */
  function Assign(s: Session, key: string, val: string): (Session, bool)
    requires |s.bssid| == MAC_ADDR_LEN
  {
    var n := StrToUint32(val);
    if key == "bssid" then
      var m := ScanMac(val, MAC_ADDR_LEN);
      (s.(bssid := m + s.bssid[|m|..]), |m| == MAC_ADDR_LEN)
    else if key == "op_chan_freq" then if n.Some? then (s.(freq := n.value), true) else (s, false)
    else if key == "op_chan_bw" then if n.Some? then (s.(bw := n.value % 256), true) else (s, false)
    else if key == "pri_chan_bw" then if n.Some? then (s.(primaryBw := n.value % 256), true) else (s, false)
    else if key == "pri_1mhz_chan" then if n.Some? then (s.(primary1mhz := n.value % 256), true) else (s, false)
    // An unknown key is reported and passed over.
    else (s, true)
  }

  /** One line. */
  function Take(s: Session, line: string): (r: (Session, bool))
    requires |s.bssid| == MAC_ADDR_LEN
    ensures |r.0.bssid| == MAC_ADDR_LEN
  {
    if Skipped(line) then (s, true)
    else
      match KeyVal(line)
      case None => (s, false)
      case Some((key, val)) => Assign(s, key, val)
  }

  /** What loading a text makes of a session, and whether it succeeds. */
  function Load(s: Session, text: string): (Session, bool)
    requires |s.bssid| == MAC_ADDR_LEN
    decreases |text|
  {
    if text == [] then (s, true)
    else
      var n := LineLength(text, MAX_LINE_LENGTH - 1);
      var r := Take(s, text[..n]);
      if r.1 then Load(r.0, text[n..]) else r
  }

  // ---------------------------------------------------------------- loading what was stored

  predicate Solid(s: string) {
    forall i {:trigger s[i]} :: 0 <= i < |s| ==> !IsSpace(s[i])
  }

  /** A key and a value that make up a line strip leaves alone and fgets takes in one piece. */
  predicate Plain(key: string, val: string) {
    && key != [] && val != [] && '=' !in key && key[0] != '#'
    && Solid(key) && Solid(val) && |key| + |val| + 2 < MAX_LINE_LENGTH
  }

  lemma {:induction false} LineLengthIs(line: string, rest: string, room: nat)
    requires '\n' !in line && |line| < room
    ensures LineLength(line + ['\n'] + rest, room) == |line| + 1
    decreases |line|
  {
    var text := line + ['\n'] + rest;
    if line != [] {
      assert text[1..] == line[1..] + ['\n'] + rest;
      LineLengthIs(line[1..], rest, room - 1);
    }
  }

  lemma TrimmedLine(line: string)
    requires Solid(line)
    ensures TrimEnd(line + ['\n']) == line
  {
    assert (line + ['\n'])[..|line|] == line;
  }

  lemma {:induction false} FindIs(key: string, val: string)
    requires '=' !in key
    ensures Find(key + ['='] + val, '=') == |key|
    decreases |key|
  {
    var line := key + ['='] + val;
    if key != [] {
      assert key[0] in key;
      assert line[1..] == key[1..] + ['='] + val;
      FindIs(key[1..], val);
    }
  }

  lemma KeyValIs(key: string, val: string)
    requires Plain(key, val)
    ensures KeyVal(key + ['='] + val + ['\n']) == Some((key, val))
  {
    hide IsSpace;
    var line := key + ['='] + val;
    assert !IsSpace('=') by { EqualsIsInk(); }
    assert Solid(line);
    TrimmedLine(line);
    FindIs(key, val);
    assert line[..|key|] == key && line[|key| + 1..] == val;
    assert DropSpaces(key) == key;
  }

  lemma EqualsIsInk()
    ensures !IsSpace('=')
  {
  }

  lemma FirstLine(key: string, val: string, rest: string)
    requires Plain(key, val)
    ensures var line := key + ['='] + val + ['\n'];
            && LineLength(line + rest, MAX_LINE_LENGTH - 1) == |line|
            && !Skipped(line) && KeyVal(line) == Some((key, val))
  {
    hide LineLength, KeyVal, IsSpace;
    NoBreak(key, val);
    LineLengthIs(key + ['='] + val, rest, MAX_LINE_LENGTH - 1);
    KeyValIs(key, val);
    assert key + ['='] + val + ['\n'] + rest == (key + ['='] + val) + ['\n'] + rest;
    assert (key + ['='] + val + ['\n'])[0] == key[0] && !IsSpace(key[0]);
    BreaksAreSpaces();
  }

  lemma BreaksAreSpaces()
    ensures IsSpace('\n') && IsSpace('\r')
  {
  }

  /** The first line of a text is taken as its key and value. */
  lemma LoadLine(s: Session, key: string, val: string, rest: string)
    requires |s.bssid| == MAC_ADDR_LEN && Plain(key, val)
    ensures var r := Assign(s, key, val);
            |r.0.bssid| == MAC_ADDR_LEN &&
            Load(s, key + ['='] + val + ['\n'] + rest) == if r.1 then Load(r.0, rest) else r
  {
    hide KeyVal, LineLength, Plain, Assign, Skipped;
    var line := key + ['='] + val + ['\n'];
    FirstLine(key, val, rest);
    var text := line + rest;
    assert text[..|line|] == line && text[|line|..] == rest && |text| > 0;
    assert Take(s, line) == Assign(s, key, val);
  }

  lemma NoBreak(key: string, val: string)
    requires Solid(key) && Solid(val)
    ensures '\n' !in key + ['='] + val
  {
  }

  lemma {:induction false} DecimalIsPlain(n: nat)
    ensures Solid(Decimal(n))
    decreases n
  {
    if n >= 10 {
      DecimalIsPlain(n / 10);
    }
  }

  function Pow10(k: nat): nat { if k == 0 then 1 else 10 * Pow10(k - 1) }

  lemma {:induction false} DecimalLength(n: nat, k: nat)
    requires n < Pow10(k) && k > 0
    ensures |Decimal(n)| <= k
    decreases k
  {
    if n >= 10 {
      DecimalLength(n / 10, k - 1);
    }
  }

  lemma {:induction false} MacIsPlain(m: seq<nat>)
    requires m != [] && forall i :: 0 <= i < |m| ==> m[i] < 256
    ensures |MacText(m)| == 3 * |m| - 1 && Solid(MacText(m))
    decreases |m|
  {
    if |m| > 1 {
      MacIsPlain(m[1..]);
    }
  }

  lemma NumberIsPlain(key: string, n: nat)
    requires n < 0x1_0000_0000
    requires key in ["op_chan_freq", "op_chan_bw", "pri_chan_bw", "pri_1mhz_chan"]
    ensures Plain(key, Decimal(n))
  {
    assert Pow10(10) == 10_000_000_000;
    DecimalLength(n, 10);
    DecimalIsPlain(n);
    hide Decimal, Pow10;
  }

  /** A number stored under the key of a field is read back. */
  lemma LoadNumber(s: Session, key: string, n: nat, rest: string)
    requires |s.bssid| == MAC_ADDR_LEN && n < 0x1_0000_0000
    requires key in ["op_chan_freq", "op_chan_bw", "pri_chan_bw", "pri_1mhz_chan"]
    ensures var r := Assign(s, key, Decimal(n));
            r.1 && |r.0.bssid| == MAC_ADDR_LEN && Load(s, key + ['='] + Decimal(n) + ['\n'] + rest) == Load(r.0, rest)
  {
    hide Load, Decimal, StrToUint32, Plain, Assign, ScanMac;
    NumberIsPlain(key, n);
    NumberAssigned(s, key, n);
    LoadLine(s, key, Decimal(n), rest);
  }

  lemma NumberAssigned(s: Session, key: string, n: nat)
    requires |s.bssid| == MAC_ADDR_LEN && n < 0x1_0000_0000
    ensures Assign(s, "op_chan_freq", Decimal(n)) == (s.(freq := n), true)
    ensures Assign(s, "op_chan_bw", Decimal(n)) == (s.(bw := n % 256), true)
    ensures Assign(s, "pri_chan_bw", Decimal(n)) == (s.(primaryBw := n % 256), true)
    ensures Assign(s, "pri_1mhz_chan", Decimal(n)) == (s.(primary1mhz := n % 256), true)
  {
    hide Decimal, StrToUint32, ScanMac;
    NumberRoundTrip(n);
  }

  lemma LoadMac(s: Session, m: seq<nat>, rest: string)
    requires |s.bssid| == |m| == MAC_ADDR_LEN && forall i :: 0 <= i < |m| ==> m[i] < 256
    ensures Load(s, "bssid" + ['='] + MacText(m) + ['\n'] + rest) == Load(s.(bssid := m), rest)
  {
    hide Load, MacText, ScanMac, StrToUint32;
    MacIsPlain(m);
    MacRoundTrip(m);
    LoadLine(s, "bssid", MacText(m), rest);
    assert m + s.bssid[|m|..] == m;
  }

  /** Loading what was stored restores every field, whatever was there before. */
  lemma StoreThenLoad(s: Session, was: Session)
    requires s.Ok() && |was.bssid| == MAC_ADDR_LEN
    ensures Load(was, Store(s)) == (s, true)
  {
    hide Load, MacText, Decimal, Assign;
    var s1 := was.(bssid := s.bssid);
    var s2 := s1.(freq := s.freq);
    var s3 := s2.(bw := s.bw);
    var s4 := s3.(primaryBw := s.primaryBw);
    var t5 := "pri_1mhz_chan" + ['='] + Decimal(s.primary1mhz) + ['\n'];
    assert t5 + "" == t5;
    var t4 := "pri_chan_bw" + ['='] + Decimal(s.primaryBw) + ['\n'] + t5;
    var t3 := "op_chan_bw" + ['='] + Decimal(s.bw) + ['\n'] + t4;
    var t2 := "op_chan_freq" + ['='] + Decimal(s.freq) + ['\n'] + t3;
    LoadMac(was, s.bssid, t2);
    LoadNumber(s1, "op_chan_freq", s.freq, t3);
    NumberAssigned(s1, "op_chan_freq", s.freq);
    LoadNumber(s2, "op_chan_bw", s.bw, t4);
    NumberAssigned(s2, "op_chan_bw", s.bw);
    LoadNumber(s3, "pri_chan_bw", s.primaryBw, t5);
    NumberAssigned(s3, "pri_chan_bw", s.primaryBw);
    LoadNumber(s4, "pri_1mhz_chan", s.primary1mhz, "");
    NumberAssigned(s4, "pri_1mhz_chan", s.primary1mhz);
    LoadEnd(s);
  }

  lemma LoadEnd(s: Session)
    requires |s.bssid| == MAC_ADDR_LEN
    ensures Load(s, "") == (s, true)
  {
  }

  /** The five lines of a stored session. */
  lemma StoredText(s: Session)
    requires s.Ok()
    ensures Store(s) ==
            ("bssid=" + MacText(s.bssid) + "\n") +
            (("op_chan_freq=" + Decimal(s.freq) + "\n") +
             (("op_chan_bw=" + Decimal(s.bw) + "\n") +
              (("pri_chan_bw=" + Decimal(s.primaryBw) + "\n") + ("pri_1mhz_chan=" + Decimal(s.primary1mhz) + "\n"))))
  {
    hide MacText, Decimal, Printed;
    PrintedLine("bssid", "bssid=", MacText(s.bssid));
    PrintedLine("op_chan_freq", "op_chan_freq=", Decimal(s.freq));
    PrintedLine("op_chan_bw", "op_chan_bw=", Decimal(s.bw));
    PrintedLine("pri_chan_bw", "pri_chan_bw=", Decimal(s.primaryBw));
    PrintedLine("pri_1mhz_chan", "pri_1mhz_chan=", Decimal(s.primary1mhz));
  }

  lemma PrintedLine(key: string, start: string, val: string)
    requires start == key + "="
    ensures Printed(key, val) == start + val + "\n"
  {
  }

  // ---------------------------------------------------------------- lines without a key and a value

  lemma LineFirst(line: string, rest: string)
    requires '\n' !in line && |line| < 254
    ensures var text := line + ['\n'] + rest;
            LineLength(text, MAX_LINE_LENGTH - 1) == |line| + 1 && text[..|line| + 1] == line + ['\n'] && text[|line| + 1..] == rest
  {
    LineLengthIs(line, rest, 254);
  }

  /** Empty lines and comments are passed over, whatever they hold. */
  lemma CommentsArePassedOver(s: Session, line: string, rest: string)
    requires |s.bssid| == MAC_ADDR_LEN && '\n' !in line && |line| < 254 && (line == "" || line[0] in ['#', '\r'])
    ensures Load(s, line + ['\n'] + rest) == Load(s, rest)
  {
    LineFirst(line, rest);
    hide LineLength, KeyVal, Assign;
    assert Take(s, line + ['\n']) == (s, true);
  }

  /** Any other line that lacks an equals sign, or has nothing before or after it, ends the loading. */
  lemma NoKeyOrNoValueFails(s: Session, line: string, rest: string)
    requires |s.bssid| == MAC_ADDR_LEN && '\n' !in line && |line| < 254 && line != "" && line[0] !in ['#', '\r']
    requires '=' !in line || line[0] == '=' || (line[|line| - 1] == '=' && '=' !in line[..|line| - 1])
    ensures Load(s, line + ['\n'] + rest) == (s, false)
  {
    LineFirst(line, rest);
    hide LineLength, KeyVal, Assign;
    assert Take(s, line + ['\n']) == (s, false);
  }

  /** A key that is none of the five is reported and passed over. */
  lemma UnknownKeysChangeNothing(s: Session, key: string, val: string)
    requires |s.bssid| == MAC_ADDR_LEN
    requires key !in ["bssid", "op_chan_freq", "op_chan_bw", "pri_chan_bw", "pri_1mhz_chan"]
    ensures Assign(s, key, val) == (s, true)
  {
    hide ScanMac, StrToUint32;
  }

  /** A value that is not a number, or an address of fewer than six octets, is an error. */
  lemma UnreadableValueFails(s: Session, key: string, val: string)
    requires |s.bssid| == MAC_ADDR_LEN
    requires if key == "bssid" then |ScanMac(val, 6)| < 6
             else key in ["op_chan_freq", "op_chan_bw", "pri_chan_bw", "pri_1mhz_chan"] && StrToUint32(val).None?
    ensures !Assign(s, key, val).1
  {
    hide ScanMac, StrToUint32;
  }

  /** A line ends with its line break, with the text, or after 254 characters, and then its rest is the next line. */
  lemma {:induction false} LineLengthIff(text: string, room: nat, n: nat)
    requires n <= |text| && n <= room
    ensures LineLength(text, room) == n <==>
            && (forall i :: 0 <= i < n - 1 ==> text[i] != '\n')
            && (n == |text| || n == room || (n > 0 && text[n - 1] == '\n'))
    decreases room
  {
    if text != [] && room > 0 && n > 0 && text[0] != '\n' {
      var t := text[1..];
      LineLengthIff(t, room - 1, n - 1);
      assert forall i :: 0 <= i < |t| ==> t[i] == text[i + 1];
      if forall i :: 0 <= i < n - 2 ==> t[i] != '\n' {
        assert forall i :: 1 <= i < n - 1 ==> text[i] == t[i - 1];
      }
    }
  }

  /** A line that is too long is taken 254 characters at a time, each of them as a line of its own. */
  lemma LongLineIsSplit(s: Session, text: string)
    requires |s.bssid| == MAC_ADDR_LEN && |text| >= 254 && forall i :: 0 <= i < 253 ==> text[i] != '\n'
    ensures var r := Take(s, text[..254]);
            Load(s, text) == if r.1 then Load(r.0, text[254..]) else r
  {
    LineLengthIff(text, 254, 254);
    hide LineLength, Take;
  }

  /** Blanks before the key and after the value are stripped; the value keeps what is before it. */
  lemma BlanksAreStripped(before: string, key: string, val: string, behind: string)
    requires (forall i :: 0 <= i < |before| ==> IsSpace(before[i])) && (forall i :: 0 <= i < |behind| ==> IsSpace(behind[i]))
    requires key != "" && !IsSpace(key[0]) && '=' !in key
    requires val != "" && !IsSpace(val[|val| - 1])
    ensures KeyVal(before + key + ['='] + val + behind) == Some((key, val))
  {
    EqualsIsInk();
    hide IsSpace;
    var lead, t := before + key, before + key + ['='] + val;
    TrimmedBehind(t, behind);
    assert '=' !in lead by {
      assert forall i :: 0 <= i < |before| ==> before[i] != '=';
    }
    FindIs(lead, val);
    assert t[..|lead|] == lead && t[|lead| + 1..] == val;
    DroppedBefore(before, key);
  }

  lemma {:induction false} TrimmedBehind(t: string, behind: string)
    requires (forall i :: 0 <= i < |behind| ==> IsSpace(behind[i])) && t != "" && !IsSpace(t[|t| - 1])
    ensures TrimEnd(t + behind) == t
    decreases |behind|
  {
    hide IsSpace;
    var s := t + behind;
    if behind == "" {
      assert s == t;
    } else {
      assert s[..|s| - 1] == t + behind[..|behind| - 1];
      TrimmedBehind(t, behind[..|behind| - 1]);
    }
  }

  lemma {:induction false} DroppedBefore(before: string, key: string)
    requires (forall i :: 0 <= i < |before| ==> IsSpace(before[i])) && key != "" && !IsSpace(key[0])
    ensures DropSpaces(before + key) == key
    decreases |before|
  {
    hide IsSpace;
    if before == "" {
      assert before + key == key;
    } else {
      assert (before + key)[1..] == before[1..] + key;
      DroppedBefore(before[1..], key);
    }
  }

  /** Octets are separated by colons and by nothing else. */
  lemma OnlyColonsSeparate(o: nat, c: char, tail: string)
    requires o < 256 && c != ':' && DigitOf(c) >= 16
    ensures ScanMac(HexOctet(o) + ([c] + tail), 6) == [o]
  {
    hide HexOctet, ScanOctet, DigitOf;
    OctetRoundTrip(o, [c] + tail);
  }

  // ---------------------------------------------------------------- the parser itself

  /** The request and the BSSID that a key/value handler writes through its context pointer. */
  class Context {
    var bssid: seq<nat>
    var freq: nat
    var bw: nat
    var primaryBw: nat
    var primary1mhz: nat

    constructor (s: Session)
      requires |s.bssid| == MAC_ADDR_LEN
      ensures Is(s)
    {
      bssid, freq, bw, primaryBw, primary1mhz := s.bssid, s.freq, s.bw, s.primaryBw, s.primary1mhz;
    }

    predicate Is(s: Session)
      reads this
    {
      |bssid| == MAC_ADDR_LEN && s == Session(bssid, freq, bw, primaryBw, primary1mhz)
    }

    /** parse_standby_session_keyval */
    method Process(key: string, val: string, ghost s: Session) returns (ret: int)
      requires Is(s)
      modifies this
      ensures Is(Assign(s, key, val).0) && (ret == 0 <==> Assign(s, key, val).1)
    {
      hide StrToUint32, ScanMac;
      if key == "bssid" {
        var m := ScanMac(val, MAC_ADDR_LEN);
        bssid := m + bssid[|m|..];
        return if |m| == MAC_ADDR_LEN then 0 else -1;
      }
      if key in ["op_chan_freq", "op_chan_bw", "pri_chan_bw", "pri_1mhz_chan"] {
        var temp := StrToUint32(val);
        if temp.None? {
          return -1;
        }
        if key == "op_chan_freq" {
          freq := temp.value;
        } else if key == "op_chan_bw" {
          bw := temp.value % 256;
        } else if key == "pri_chan_bw" {
          primaryBw := temp.value % 256;
        } else {
          primary1mhz := temp.value % 256;
        }
      }
      return 0;
    }

    /** config_parse, line by line. */
    method ConfigParse(file: string, ghost s: Session) returns (ret: int)
      requires Is(s)
      modifies this
      ensures |Load(s, file).0.bssid| == MAC_ADDR_LEN
      ensures Is(Load(s, file).0) && (ret == 0 <==> Load(s, file).1)
    {
      hide LineLength, KeyVal, Assign, Skipped;
      ghost var now := s;
      var pos: nat := 0;
      assert file[0..] == file;
      while pos < |file|
        invariant pos <= |file| && Is(now) && Load(s, file) == Load(now, file[pos..])
      {
        var n := LineLength(file[pos..], MAX_LINE_LENGTH - 1);
        var line := file[pos..][..n];
        assert file[pos..][n..] == file[pos + n..];
        pos := pos + n;
        if Skipped(line) {
          continue;
        }
        var keyVal := KeyVal(line);
        if keyVal.None? {
          return -1;
        }
        ret := Process(keyVal.value.0, keyVal.value.1, now);
        if ret != 0 {
          return;
        }
        now := Assign(now, keyVal.value.0, keyVal.value.1).0;
      }
      assert file[pos..] == [];
      return 0;
    }
  }
}
