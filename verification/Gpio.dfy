/**
 `gpio.c`: which pins a list of arguments names, and what `gpio_control info` prints for them.
 */
module Gpio {
  import opened Options
  import opened Utilities
  import opened Bits

  const ENXIO: int := 6
  const EINVAL: int := 22
  const ENODEV: int := 19

  const PIN_MASK_MAX_WIDTH: nat := 32
  const PIN_MASK_HEX_MAX: nat := 0xFFFF_FFFF

  // ---------------------------------------------------------------- naming pins

  predicate Hex(arg: string) { |arg| >= 2 && arg[0] == '0' && arg[1] in ['x', 'X'] }

  /** What becomes of a list of arguments, from number i on. */
  datatype Verdict = Pins | Whole(mask: nat) | Bad(code: int)

  function Judge(args: seq<string>, i: nat): (v: Verdict)
    requires i <= |args|
    ensures v.Bad? ==> v.code < 0
    decreases |args| - i
  {
    if i == |args| then Pins
    else
      match StrToUint64(args[i])
      case None => Bad(-EINVAL)
      case Some(pin) =>
        if Hex(args[i]) then
          // A mask must be the only argument.
          if i != |args| - 1 || i != 0 || pin > PIN_MASK_HEX_MAX then Bad(-EINVAL) else Whole(pin)
        else if pin > PIN_MASK_MAX_WIDTH - 1 || (args[i] != [] && args[i][0] == '-') then Bad(-ENODEV)
        else Judge(args, i + 1)
  }

  /** An argument that names a pin. */
  predicate NamesPin(arg: string) {
    && StrToUint64(arg).Some? && StrToUint64(arg).value < 32
    && !("0x" <= arg) && !("0X" <= arg) && !("-" <= arg)
  }

  /** The arguments are pins exactly when each of them names one; otherwise the first that does not decides. */
  lemma {:induction false} JudgeIff(args: seq<string>, i: nat, k: nat)
    requires i <= k <= |args|
    requires forall j :: i <= j < k ==> NamesPin(args[j])
    requires k < |args| ==> !NamesPin(args[k])
    ensures Judge(args, i) ==
            if k == |args| then Pins
            else if StrToUint64(args[k]).None? then Bad(-22)
            else if "0x" <= args[k] || "0X" <= args[k] then
              (if |args| == 1 && StrToUint64(args[k]).value <= 0xFFFF_FFFF then Whole(StrToUint64(args[k]).value) else Bad(-22))
            else Bad(-19)
    decreases k - i
  {
    hide StrToUint64;
    if i < |args| {
      hide Hex;
      if i < k {
        assert NamesPin(args[i]);
        JudgeIff(args, i + 1, k);
      }
    }
  }

  /** The pins the arguments name. */
  function Named(args: seq<string>): set<nat> {
    set k | 0 <= k < |args| && StrToUint64(args[k]).Some? :: StrToUint64(args[k]).value
  }

  predicate MaskOf(mask: word, pins: set<nat>) {
    forall i: nat :: i < 32 ==> (Has(mask, i) <==> i in pins)
  }

  lemma NamedOn(args: seq<string>, k: nat)
    requires k < |args| && StrToUint64(args[k]).Some?
    ensures Named(args[..k + 1]) == Named(args[..k]) + {StrToUint64(args[k]).value}
  {
    hide StrToUint64;
    assert forall j :: 0 <= j < k ==> args[..k + 1][j] == args[..k][j];
    assert args[..k + 1][k] == args[k];
    forall p ensures p in Named(args[..k + 1]) <==> p in Named(args[..k]) + {StrToUint64(args[k]).value} {
      if p in Named(args[..k]) {
        var j :| 0 <= j < k && StrToUint64(args[..k][j]).Some? && StrToUint64(args[..k][j]).value == p;
        assert args[..k + 1][j] == args[..k][j];
      }
    }
  }

  lemma AddPin(mask: word, pins: set<nat>, pin: nat)
    requires pin < 32 && MaskOf(mask, pins)
    ensures MaskOf(mask | Bit(pin), pins + {pin})
  {
    hide Has, Bit;
    forall i: nat | i < 32 ensures Has(mask | Bit(pin), i) <==> i in pins + {pin} {
      SetBit(mask, pin, i);
    }
  }

  lemma NoPins()
    ensures MaskOf(0, {})
  {
    hide Has;
    forall i: nat | i < 32 ensures !Has(0, i) {
      NoBit(i);
    }
  }

  /** gpio_pin_handler */
  method PinHandler(args: seq<string>) returns (ret: int, pinMask: word)
    ensures args == [] ==> ret == -EINVAL
    ensures args != [] ==>
              match Judge(args, 0)
              case Pins => ret == 0 && MaskOf(pinMask, Named(args))
              case Whole(n) => ret == 0 && n < 0x1_0000_0000 && pinMask == n as word
              case Bad(code) => ret == code
  {
    hide StrToUint64, MaskOf, Bit, Named;
    pinMask := 0;
    if |args| == 0 {
      return -EINVAL, pinMask;
    }
    NoPins();
    NobodyNamed(args);
    for i := 0 to |args|
      invariant Judge(args, 0) == Judge(args, i) && MaskOf(pinMask, Named(args[..i]))
    {
      var pin := StrToUint64(args[i]);
      if pin.None? {
        return -EINVAL, pinMask;
      }
      if Hex(args[i]) {
        if i != |args| - 1 || i != 0 || pin.value > PIN_MASK_HEX_MAX {
          return -EINVAL, pinMask;
        }
        return 0, pin.value as word;
      }
      if pin.value > PIN_MASK_MAX_WIDTH - 1 || (args[i] != [] && args[i][0] == '-') {
        return -ENODEV, pinMask;
      }
      AddPin(pinMask, Named(args[..i]), pin.value);
      NamedOn(args, i);
      pinMask := pinMask | Bit(pin.value);
    }
    assert args[..|args|] == args;
    ret := 0;
  }

  lemma NobodyNamed(args: seq<string>)
    ensures Named(args[..0]) == {}
  {
  }

  /** The number of pins in a mask is the number of distinct pins named. */
  lemma {:induction false} CountIsSize(mask: word, pins: set<nat>, n: nat)
    requires n <= 32 && MaskOf(mask, pins)
    ensures Count(mask, n) == |set i | i in pins && i < n|
    decreases n
  {
    hide Has;
    var below := set i | i in pins && i < n;
    if n == 0 {
      assert below == {};
    } else {
      CountIsSize(mask, pins, n - 1);
      assert Has(mask, n - 1) <==> n - 1 in pins;
      hide MaskOf;
      var less := set i | i in pins && i < n - 1;
      if n - 1 in pins {
        assert below == less + {n - 1} && n - 1 !in less;
      } else {
        assert below == less;
      }
    }
  }

  // ---------------------------------------------------------------- printing pins

  /** What the firmware answers about a pin. */
  datatype Reply = Reply(ret: int, flags: word, mask: word)

  type Replies = nat -> Reply

  const GPIO_CTRL_FLAG_HIGH: word := 0x04
  const GPIO_CTRL_FLAG_OUTPUT: word := 0x08
  const GPIO_CTRL_FLAG_SPEED: word := 0x10
  const GPIO_CTRL_FLAG_PULLUP: word := 0x20

  datatype Mode = Invalid | Output(high: bool, fast: bool) | Input(high: bool, pullup: bool) | Iof | Unused

  datatype Token = Header | Row(pin: nat, mode: Mode) | Comma | Close

  function ModeOf(pin: nat, r: Reply): Mode
    requires pin < 32
  {
    if r.mask == 0 && r.flags == 0 then Invalid
    else if Has(r.mask, pin) then
      if r.flags & GPIO_CTRL_FLAG_OUTPUT != 0 then
        Output(r.flags & GPIO_CTRL_FLAG_HIGH != 0, r.flags & GPIO_CTRL_FLAG_SPEED != 0)
      else Input(r.flags & GPIO_CTRL_FLAG_HIGH != 0, r.flags & GPIO_CTRL_FLAG_PULLUP != 0)
    else if r.flags & GPIO_CTRL_FLAG_OUTPUT != 0 then Iof else Unused
  }

  /** The flags word of a pin with the given level, direction, drive speed and pull-up. */
  function FlagsWord(high: bool, output: bool, fast: bool, pullup: bool): word {
    (if high then 0x04 else 0) | (if output then 0x08 else 0) | (if fast then 0x10 else 0) | (if pullup then 0x20 else 0)
  }

  lemma FlagsApart(high: bool, output: bool, fast: bool, pullup: bool)
    ensures var f := FlagsWord(high, output, fast, pullup);
            && (f & 0x04 != 0 <==> high) && (f & 0x08 != 0 <==> output)
            && (f & 0x10 != 0 <==> fast) && (f & 0x20 != 0 <==> pullup)
            && (f == 0 <==> !high && !output && !fast && !pullup)
  {
  }

  /** The row says what the firmware's flags say, of a pin that the firmware reports on or not. */
  lemma ModeReadsFlags(pin: nat, ret: int, mask: word, high: bool, output: bool, fast: bool, pullup: bool)
    requires pin < 32
    ensures ModeOf(pin, Reply(ret, FlagsWord(high, output, fast, pullup), mask)) ==
            if mask == 0 && !high && !output && !fast && !pullup then Invalid
            else if !Has(mask, pin) then (if output then Iof else Unused)
            else if output then Output(high, fast) else Input(high, pullup)
  {
    FlagsApart(high, output, fast, pullup);
    hide Has, FlagsWord;
  }

  /** A failure other than an invalid pin ends the listing. */
  predicate Fatal(r: Reply) { r.ret < 0 && r.ret != -ENXIO }

  /** -ENXIO, which says that there is no such pin, does not end the listing. */
  lemma FatalIff(r: Reply)
    ensures Fatal(r) <==> r.ret < 0 && r.ret != -6
  {
  }

  /** The set bits below n, in ascending order. */
  function SetPins(mask: word, n: nat): (pins: seq<nat>)
    requires n <= 32
    ensures |pins| == Count(mask, n) && forall i :: 0 <= i < |pins| ==> pins[i] < n
  {
    if n == 0 then [] else if Has(mask, n - 1) then SetPins(mask, n - 1) + [n - 1] else SetPins(mask, n - 1)
  }

  function RowFor(pin: nat, replies: Replies): Token
    requires pin < 32
  {
    Row(pin, ModeOf(pin, replies(pin)))
  }

  /** What is printed with row number k, counted from 0, of `total`. */
  function Added(k: nat, total: nat, json: bool, row: Token): seq<Token> {
    (if k == 0 then [Header] else []) + [row] +
    (if !json then [] else if k + 1 < total then [Comma] else if k + 1 == total then [Close] else [])
  }

  /** What has been printed after the given pins, of which there will be `total`. */
  function Printed(pins: seq<nat>, total: nat, json: bool, replies: Replies): seq<Token>
    requires forall i :: 0 <= i < |pins| ==> pins[i] < 32
  {
    if pins == [] then []
    else
      var k := |pins| - 1;
      Printed(pins[..k], total, json, replies) + Added(k, total, json, RowFor(pins[k], replies))
  }

  /** gpio_control_cfm_info, for a request that names one pin. */
  method CfmInfo(reqMask: word, pin: nat, r: Reply) returns (ret: int, row: Token)
    requires pin < 32 && reqMask == Bit(pin)
    ensures ret == 0 && row == Row(pin, ModeOf(pin, r))
  {
    hide Bit, Has;
    OneBit(pin);
    var c := Ctz(reqMask);
    if c >= 0 {
      HasIs(reqMask, c);
      BitsApart(pin, c);
    }
    ret := 0;
    if r.mask == 0 && r.flags == 0 {
      row := Row(c, Invalid);
    } else if Has(r.mask, c) {
      if r.flags & GPIO_CTRL_FLAG_OUTPUT != 0 {
        row := Row(c, Output(r.flags & GPIO_CTRL_FLAG_HIGH != 0, r.flags & GPIO_CTRL_FLAG_SPEED != 0));
      } else {
        row := Row(c, Input(r.flags & GPIO_CTRL_FLAG_HIGH != 0, r.flags & GPIO_CTRL_FLAG_PULLUP != 0));
      }
    } else {
      row := Row(c, if r.flags & GPIO_CTRL_FLAG_OUTPUT != 0 then Iof else Unused);
    }
  }

  /** The first pin below n whose reply ends the listing. */
  predicate FirstFatal(mask: word, k: nat, replies: Replies) {
    k < 32 && Has(mask, k) && Fatal(replies(k)) && forall i :: 0 <= i < k && Has(mask, i) ==> !Fatal(replies(i))
  }

  lemma PrintedOn(pins: seq<nat>, pin: nat, total: nat, json: bool, replies: Replies)
    requires pin < 32 && (forall i :: 0 <= i < |pins| ==> pins[i] < 32)
    ensures Printed(pins + [pin], total, json, replies) ==
            Printed(pins, total, json, replies) + Added(|pins|, total, json, RowFor(pin, replies))
  {
    hide RowFor, Added;
    var more := pins + [pin];
    assert more != [] && more[..|more| - 1] == pins && more[|more| - 1] == pin;
  }

  /** Without -j: the header, once, and a row for each pin; nothing at all for no pins. */
  predicate PlainRows(pins: seq<nat>, replies: Replies, out: seq<Token>)
    requires forall i :: 0 <= i < |pins| ==> pins[i] < 32
  {
    if pins == [] then out == []
    else
      && |out| == |pins| + 1 && out[0] == Header
      && forall k {:trigger pins[k]} :: 0 <= k < |pins| ==> out[k + 1] == Row(pins[k], ModeOf(pins[k], replies(pins[k])))
  }

  /** As JSON: a bracket, the rows with a comma after each but the last, and a bracket after that one. */
  predicate JsonRows(pins: seq<nat>, total: nat, replies: Replies, out: seq<Token>)
    requires forall i :: 0 <= i < |pins| ==> pins[i] < 32
  {
    if pins == [] then out == []
    else
      && |out| == 2 * |pins| + 1 && out[0] == Header
      && (forall k {:trigger pins[k]} :: 0 <= k < |pins| ==> out[2 * k + 1] == Row(pins[k], ModeOf(pins[k], replies(pins[k]))))
      && (forall k {:trigger out[2 * k + 2]} :: 0 <= k < |pins| ==> out[2 * k + 2] == Separator(k, total))
  }

  /** What follows row number k, counted from 0. */
  function Separator(k: nat, total: nat): Token { if k + 1 < total then Comma else Close }

  predicate Rows(pins: seq<nat>, total: nat, json: bool, replies: Replies, out: seq<Token>)
    requires forall i :: 0 <= i < |pins| ==> pins[i] < 32
  {
    if json then JsonRows(pins, total, replies, out) else PlainRows(pins, replies, out)
  }

  /** What a listing of the pins of a mask prints and returns. */
  ghost predicate Listed(mask: word, json: bool, replies: Replies, ret: int, out: seq<Token>) {
    if ret == 0 then
      && (forall i :: 0 <= i < 32 && Has(mask, i) ==> !Fatal(replies(i)))
      && Rows(SetPins(mask, 32), Count(mask, 32), json, replies, out)
    else
      exists k: nat :: FirstFatal(mask, k, replies) && ret == replies(k).ret &&
                       Rows(SetPins(mask, k), Count(mask, 32), json, replies, out)
  }

  /**
   The loop of gpio_control_cmd_info: a row for every pin in the mask, in ascending order, up
   to a reply that ends it.
   */
  method PrintPins(mask: word, json: bool, replies: Replies) returns (ret: int, out: seq<Token>)
    ensures Listed(mask, json, replies, ret, out)
  {
    hide Has, Bit, ModeOf, Printed, Rows;
    var pins := Popcount(mask);
    var count := 1;
    out := [];
    assert Printed([], pins, json, replies) == [] by { NothingPrinted(pins, json, replies); }
    for i := 0 to 32
      invariant count == 1 + Count(mask, i)
      invariant out == Printed(SetPins(mask, i), pins, json, replies)
      invariant forall j :: 0 <= j < i && Has(mask, j) ==> !Fatal(replies(j))
    {
      if Has(mask, i) {
        var r := replies(i);
        if Fatal(r) {
          assert FirstFatal(mask, i, replies);
          CountedIn(mask, i);
          CountRises(mask, i + 1, 32);
          RowsAre(SetPins(mask, i), pins, json, replies);
          return r.ret, out;
        }
        var row;
        ret, row := CfmInfo(Bit(i), i, r);
        ghost var was := out;
        if count == 1 {
          out := out + [Header];
        }
        out := out + [row];
        if json {
          if count < pins {
            out := out + [Comma];
          } else if count == pins {
            out := out + [Close];
          }
        }
        PrintedOn(SetPins(mask, i), i, pins, json, replies);
        assert out == was + Added(count - 1, pins, json, row);
        count := count + 1;
      }
    }
    RowsAre(SetPins(mask, 32), pins, json, replies);
    ret := 0;
  }

  lemma NothingPrinted(total: nat, json: bool, replies: Replies)
    ensures Printed([], total, json, replies) == []
  {
  }

  lemma RowsAre(pins: seq<nat>, total: nat, json: bool, replies: Replies)
    requires |pins| <= total && forall i :: 0 <= i < |pins| ==> pins[i] < 32
    ensures Rows(pins, total, json, replies, Printed(pins, total, json, replies))
  {
    hide PlainRows, JsonRows, Printed;
    if json {
      JsonLayout(pins, total, replies);
    } else {
      PlainLayout(pins, total, replies);
    }
  }

  /** The plain listing is the header and the rows. */
  lemma {:induction false} PlainLayout(pins: seq<nat>, total: nat, replies: Replies)
    requires forall i :: 0 <= i < |pins| ==> pins[i] < 32
    ensures PlainRows(pins, replies, Printed(pins, total, false, replies))
    decreases |pins|
  {
    hide ModeOf;
    if pins != [] {
      var n := |pins| - 1;
      var row := RowFor(pins[n], replies);
      PlainLayout(pins[..n], total, replies);
      var p := Printed(pins[..n], total, false, replies);
      if n == 0 {
        assert Printed(pins, total, false, replies) == [Header, row];
      } else {
        assert Printed(pins, total, false, replies) == p + [row];
        forall k {:trigger pins[k]} | 0 <= k < n
          ensures p[k + 1] == Row(pins[k], ModeOf(pins[k], replies(pins[k])))
        {
          assert pins[..n][k] == pins[k];
        }
      }
    }
  }

  /** The JSON listing is a bracket, the rows and the separators. */
  lemma {:induction false} JsonLayout(pins: seq<nat>, total: nat, replies: Replies)
    requires |pins| <= total && forall i :: 0 <= i < |pins| ==> pins[i] < 32
    ensures JsonRows(pins, total, replies, Printed(pins, total, true, replies))
    decreases |pins|
  {
    hide ModeOf;
    if pins != [] {
      var n := |pins| - 1;
      var row := RowFor(pins[n], replies);
      JsonLayout(pins[..n], total, replies);
      var p, out := Printed(pins[..n], total, true, replies), Printed(pins, total, true, replies);
      if n == 0 {
        assert out == [Header, row, if 1 < total then Comma else Close];
      } else {
        assert out == p + [row] + [if n + 1 < total then Comma else Close];
        JsonRowsOn(pins, total, replies, p, out);
      }
    }
  }

  lemma JsonRowsOn(pins: seq<nat>, total: nat, replies: Replies, p: seq<Token>, out: seq<Token>)
    requires 1 < |pins| <= total && forall i :: 0 <= i < |pins| ==> pins[i] < 32
    requires JsonRows(pins[..|pins| - 1], total, replies, p)
    requires out == p + [RowFor(pins[|pins| - 1], replies)] + [if |pins| < total then Comma else Close]
    ensures JsonRows(pins, total, replies, out)
  {
    hide ModeOf;
    var n := |pins| - 1;
    assert |pins[..n]| == n && |p| == 2 * n + 1 && |out| == 2 * n + 3 && out[0] == p[0];
    forall k {:trigger pins[k]} | 0 <= k < |pins|
      ensures out[2 * k + 1] == Row(pins[k], ModeOf(pins[k], replies(pins[k])))
    {
      if k < n {
        assert pins[..n][k] == pins[k];
      }
    }
    forall k {:trigger out[2 * k + 2]} | 0 <= k < |pins|
      ensures out[2 * k + 2] == Separator(k, total)
    {
      if k < n {
        assert pins[..n][k] == pins[k];
      }
    }
  }

  // ---------------------------------------------------------------- when the JSON is complete

  /** What may follow a row of a JSON list: its end, or a comma and another row. */
  predicate JsonRest(s: seq<Token>) {
    s == [Close] || (|s| >= 3 && s[0] == Comma && s[1].Row? && JsonRest(s[2..]))
  }

  /** A complete JSON list of rows, possibly empty. */
  predicate JsonList(out: seq<Token>) {
    |out| >= 2 && out[0] == Header && (out[1..] == [Close] || (out[1].Row? && JsonRest(out[2..])))
  }

  lemma {:induction false} JsonRestEnds(s: seq<Token>)
    requires JsonRest(s)
    ensures s != [] && s[|s| - 1] == Close
    decreases |s|
  {
    if s != [Close] {
      JsonRestEnds(s[2..]);
    }
  }

  lemma JsonListEnds(out: seq<Token>)
    requires JsonList(out)
    ensures out[|out| - 1] == Close
  {
    if out[1..] == [Close] {
      assert out[|out| - 1] == out[1..][|out| - 2];
    } else {
      JsonRestEnds(out[2..]);
    }
  }

  /** The layout of a finished listing from the separator after row k on. */
  lemma {:induction false} FinishedRest(out: seq<Token>, n: nat, k: nat)
    requires k < n && |out| == 2 * n + 1
    requires forall j {:trigger out[2 * j + 1]} :: 0 <= j < n ==> out[2 * j + 1].Row?
    requires forall j {:trigger out[2 * j + 2]} :: 0 <= j < n ==> out[2 * j + 2] == if j + 1 < n then Comma else Close
    ensures JsonRest(out[2 * k + 2..])
    decreases n - k
  {
    assert out[2 * k + 2] == if k + 1 < n then Comma else Close;
    var rest := out[2 * k + 2..];
    if k + 1 < n {
      assert out[2 * (k + 1) + 1].Row?;
      FinishedRest(out, n, k + 1);
      assert rest[2..] == out[2 * (k + 1) + 2..];
    } else {
      assert rest == [Close];
    }
  }

  /** A listing of all its pins is a complete list. */
  lemma FinishedIsJson(pins: seq<nat>, replies: Replies, out: seq<Token>)
    requires pins != [] && forall i :: 0 <= i < |pins| ==> pins[i] < 32
    requires JsonRows(pins, |pins|, replies, out)
    ensures JsonList(out)
  {
    hide JsonRest, ModeOf;
    var n := |pins|;
    RowsAreRows(pins, replies, out);
    FinishedRest(out, n, 0);
    assert out[2 * 0 + 1].Row?;
  }

  lemma RowsAreRows(pins: seq<nat>, replies: Replies, out: seq<Token>)
    requires forall i :: 0 <= i < |pins| ==> pins[i] < 32
    requires pins != [] && JsonRows(pins, |pins|, replies, out)
    ensures forall j {:trigger out[2 * j + 1]} :: 0 <= j < |pins| ==> out[2 * j + 1].Row?
  {
    hide ModeOf;
    forall j | 0 <= j < |pins| ensures out[2 * j + 1].Row? {
      assert out[2 * j + 1] == Row(pins[j], ModeOf(pins[j], replies(pins[j])));
    }
  }

  /** A listing that stops short of its pins is not a list. */
  lemma UnfinishedIsNotJson(pins: seq<nat>, total: nat, replies: Replies, out: seq<Token>)
    requires |pins| < total && forall i :: 0 <= i < |pins| ==> pins[i] < 32
    requires JsonRows(pins, total, replies, out)
    ensures !JsonList(out)
  {
    hide ModeOf;
    if pins != [] {
      assert out[2 * (|pins| - 1) + 2] == Comma;
      hide JsonList;
      if JsonList(out) {
        JsonListEnds(out);
        assert false;
      }
    }
  }

  lemma {:induction false} CountRises(mask: word, k: nat, n: nat)
    requires k <= n <= 32
    ensures Count(mask, k) <= Count(mask, n)
    decreases n - k
  {
    hide Has;
    if k < n {
      CountRises(mask, k, n - 1);
    }
  }

  lemma ZeroHasNone(n: nat)
    requires n <= 32
    ensures Count(0, n) == 0
  {
    hide Has;
    if n > 0 {
      ZeroHasNone(n - 1);
      NoBit(n - 1);
    }
  }

  /** A mask that is not zero has a pin. */
  lemma SomePin(mask: word)
    ensures Count(mask, 32) > 0 <==> mask != 0
  {
    hide Has, Lowest, Index, Count;
    if mask == 0 {
      ZeroHasNone(32);
    } else {
      LowestBit(mask);
      var c := Index(Lowest(mask));
      CountRises(mask, c + 1, 32);
      CountedIn(mask, c);
    }
  }

  lemma CountedIn(mask: word, k: nat)
    requires k < 32 && Has(mask, k)
    ensures Count(mask, k + 1) == Count(mask, k) + 1
  {
    hide Has;
  }

  /** What `info -j` prints is a complete JSON list exactly when the mask is not zero and no pin's reply ends the listing. */
  lemma JsonIsCompleteIff(mask: word, replies: Replies, ret: int, out: seq<Token>)
    requires Listed(mask, true, replies, ret, out)
    ensures JsonList(out) <==> mask != 0 && forall i :: 0 <= i < 32 && Has(mask, i) ==> !Fatal(replies(i))
  {
    hide Has, JsonList, Count, Fatal, JsonRows;
    SomePin(mask);
    if ret == 0 {
      if mask != 0 {
        FinishedIsJson(SetPins(mask, 32), replies, out);
      } else {
        EmptyIsNotJson(replies, out);
      }
    } else {
      var k: nat :| FirstFatal(mask, k, replies) && Rows(SetPins(mask, k), Count(mask, 32), true, replies, out);
      CountedIn(mask, k);
      CountRises(mask, k + 1, 32);
      UnfinishedIsNotJson(SetPins(mask, k), Count(mask, 32), replies, out);
    }
  }

  lemma EmptyIsNotJson(replies: Replies, out: seq<Token>)
    requires JsonRows([], 0, replies, out)
    ensures !JsonList(out)
  {
  }

  /** The hexadecimal argument 0x0 is accepted, succeeds and prints nothing, not even an empty list. */
  lemma ZeroMaskPrintsNothing(replies: Replies, ret: int, out: seq<Token>)
    requires Listed(0, true, replies, ret, out)
    ensures Judge(["0x0"], 0) == Whole(0)
    ensures ret == 0 && out == [] && !JsonList(out)
  {
    hide Has, JsonList, Count, StrToUint64, ModeOf, DigitOf, Judge;
    ZeroIsAMask();
    JsonIsCompleteIff(0, replies, ret, out);
    ZeroHasNone(32);
    forall i: nat | i < 32 ensures !Has(0, i) {
      NoBit(i);
    }
  }

  lemma ZeroIsAMask()
    ensures Judge(["0x0"], 0) == Whole(0)
  {
    HexDigitIsRead("0x0");
    hide StrToUint64, DigitOf;
  }

  lemma OneHexDigit(t: string)
    requires |t| == 1 && DigitOf(t[0]) < 16
    ensures Digits(t, 16, 0) == (DigitOf(t[0]), "")
  {
    hide DigitOf;
    assert t[1..] == "";
    assert Digits(t[1..], 16, DigitOf(t[0])) == (DigitOf(t[0]), "");
  }

  lemma HexDigitIsRead(s: string)
    requires |s| == 3 && s[0] == '0' && s[1] == 'x' && DigitOf(s[2]) < 16
    ensures StrToUint64(s) == Some(DigitOf(s[2]))
  {
    hide Digits, DigitOf;
    OneHexDigit(s[2..]);
    assert !IsSpace(s[0]);
    assert DropSpaces(s) == s && Signed(s) == (false, s) && HexPrefix(s);
  }

  lemma DigitIsRead(s: string, d: nat)
    requires |s| == 1 && DigitOf(s[0]) == d && d < (if d == 0 then 8 else 10) && !IsSpace(s[0]) && (s[0] == '0' <==> d == 0)
    requires s[0] != '-' && s[0] != '+'
    ensures StrToUint64(s) == Some(d)
  {
    hide StrToUint64, StrToUint32;
    assert s[1..] == "";
    assert Digits(s, if s[0] == '0' then 8 else 10, 0) == Digits("", if s[0] == '0' then 8 else 10, d);
    PlainNumber(s, d);
  }

  /** Pin 1 answers with an error and every other pin with the given reply. */
  function SecondFails(good: Reply): Replies {
    i => if i == 1 then Reply(-ENODEV, 0, 0) else good
  }

  /** Pins 0 and 1, of which the second cannot be read: the list is left open after a comma. */
  lemma FatalReplyLeavesListOpen(good: Reply, ret: int, out: seq<Token>)
    requires !Fatal(good) && Listed(3, true, SecondFails(good), ret, out)
    ensures Judge(["0", "1"], 0) == Pins && Judge(["0x3"], 0) == Whole(3)
    ensures ret == -ENODEV && out == [Header, Row(0, ModeOf(0, good)), Comma] && !JsonList(out)
  {
    LowPins();
    hide Has, SetPins, Count, ModeOf, StrToUint64, JsonList;
    DigitIsRead("0", 0);
    DigitIsRead("1", 1);
    HexDigitIsRead("0x3");
    var replies := SecondFails(good);
    JsonIsCompleteIff(3, replies, ret, out);
    assert Fatal(replies(1)) && !Fatal(replies(0));
    CountRises(3, 2, 32);
    assert JsonRows([0], Count(3, 32), replies, out);
    assert out[2 * 0 + 2] == Comma && [0][0] == 0;
  }

  lemma LowPins()
    ensures Has(3, 0) && Has(3, 1) && Count(3, 2) == 2 && SetPins(3, 1) == [0]
  {
    assert Count(3, 1) == 1;
    assert SetPins(3, 0) == [];
  }

  /** The rows come in strictly ascending order and are exactly the set bits. */
  lemma {:induction false} SetPinsAscend(mask: word, n: nat)
    requires n <= 32
    ensures var pins := SetPins(mask, n);
            && (forall i, j :: 0 <= i < j < |pins| ==> pins[i] < pins[j])
            && (forall i: nat :: i < n ==> (i in pins <==> Has(mask, i)))
    decreases n
  {
    hide Has;
    if n > 0 {
      SetPinsAscend(mask, n - 1);
    }
  }

  /** Decimal arguments: the rows are the pins named, each once, in ascending order. */
  lemma NamedPinsListed(mask: word, pins: set<nat>)
    requires MaskOf(mask, pins) && forall i :: i in pins ==> i < 32
    ensures var rows := SetPins(mask, 32);
            && (forall i :: i in rows <==> i in pins) && |rows| == |pins|
            && (forall i, j :: 0 <= i < j < |rows| ==> rows[i] < rows[j])
  {
    hide Has, SetPins;
    SetPinsAscend(mask, 32);
    CountIsSize(mask, pins, 32);
    assert (set i | i in pins && i < 32) == pins;
    forall i ensures i in SetPins(mask, 32) <==> i in pins {
    }
  }

  /**
   gpio_control info: bad arguments print nothing; otherwise the pins named, or the bits of the
   one hexadecimal mask, are listed in ascending order.
   */
  method Info(args: seq<string>, json: bool, replies: Replies) returns (ret: int, out: seq<Token>)
    ensures if args == [] then ret == -EINVAL && out == []
            else
              match Judge(args, 0)
              case Bad(code) => ret == code && out == []
              case Whole(n) => n < 0x1_0000_0000 && Listed(n as word, json, replies, ret, out)
              case Pins => exists mask :: MaskOf(mask, Named(args)) && Listed(mask, json, replies, ret, out)
  {
    hide Named, MaskOf, Listed, StrToUint64, Judge;
    var mask;
    ret, mask := PinHandler(args);
    if ret < 0 {
      return ret, [];
    }
    ret, out := PrintPins(mask, json, replies);
  }
}
