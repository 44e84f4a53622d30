/**
 `ftdi_spi_send` of `transport/ftdi_spi.c`: the host and the firmware share two memory areas,
 a trigger bit and a status bit. The firmware runs between any two bus accesses of the host,
 and in the middle of the word-by-word transfer of a command or a response.
 */
module Mailbox {
  import opened Options

  type Word = nat

  const RESP_TIMEOUT_MS: nat := 3000
  const RESP_POLL_INTERVAL_MS: nat := 100
  const ETRANSFTDISPIERR: int := 4

  /** What the firmware answers to a command area with the given contents. */
  type Firmwares = seq<Word> -> seq<Word>

  /** `mine` says whether the firmware took up the command after the trigger of this very call. */
  datatype Firmware =
    | Idle
    | Fetching(words: seq<Word>, mine: bool)
    | Answering(answer: seq<Word>, at: nat, mine: bool)

  /** What the two sides share. A bit that is set remembers on whose behalf it was set. */
  datatype Board = Board(
    commandAddress: nat,
    command: seq<Word>,
    response: seq<Word>,
    trigger: Option<bool>,
    status: Option<bool>,
    fw: Firmware)

  /** Nothing is left over from an earlier call; the status bit may still be set. */
  predicate Quiescent(b: Board) {
    b.trigger.None? && b.fw.Idle?
  }

  /** The firmware writes its whole response before it sets the status bit. */
  function FirmwareStep(b: Board, respond: Firmwares): (r: Board)
    ensures r.commandAddress == b.commandAddress && r.command == b.command && |r.response| == |b.response|
  {
    match b.fw
    case Idle =>
      if b.trigger.None? then b else b.(trigger := None, fw := Fetching([], b.trigger.value))
    case Fetching(words, mine) =>
      if |words| < |b.command| then b.(fw := Fetching(words + [b.command[|words|]], mine))
      else b.(fw := Answering(respond(words), 0, mine))
    case Answering(answer, at, mine) =>
      if at < |answer| && at < |b.response| then
        b.(response := b.response[at := answer[at]], fw := Answering(answer, at + 1, mine))
      else b.(status := Some(mine), fw := Idle)
  }

  /** Where the host is in the call; each phase is one bus access, or one word of a longer one. */
  datatype Phase =
    | Manifest
    | CommandAddress
    | ResponseAddress
    | ClearStatus
    | WriteCommand(n: nat)
    | Trigger
    | Poll(ms: nat)
    | ReadResponse(words: seq<Word>, mine: bool)
    | Acknowledge(words: seq<Word>, mine: bool)
    | Returned(ret: int, heard: Option<(seq<Word>, bool)>)

  /**
   The call under way: `seen` is what each poll found the status bit to be, and `steps` how many
   steps the firmware took between the trigger and the last poll.
   */
  datatype State = State(board: Board, phase: Phase, seen: seq<bool>, steps: nat)

  /** The call's arguments: the command's words and how many words of response there is room for. */
  datatype Call = Call(cmd: seq<Word>, size: nat) {
    predicate Fits(b: Board) { |cmd| <= |b.command| && size <= |b.response| }
  }

  function Begin(b: Board): State { State(b, Manifest, [], 0) }

  /** One step of the host; `fault` says whether its bus access fails. */
  function HostStep(s: State, call: Call, fault: bool): State
    requires call.Fits(s.board)
  {
    var b := s.board;
    match s.phase
    case Returned(_, _) => s
    case Acknowledge(words, mine) =>
      // The return value of the last access is not looked at.
      s.(board := if fault then b else b.(status := None), phase := Returned(0, Some((words, mine))))
    case _ => if fault then s.(phase := Returned(-ETRANSFTDISPIERR, None)) else HostAccess(s, call)
  }

  /** A bus access that succeeds. */
  function HostAccess(s: State, call: Call): State
    requires call.Fits(s.board) && !s.phase.Returned? && !s.phase.Acknowledge?
  {
    var b := s.board;
    match s.phase
    case Manifest => s.(phase := CommandAddress)
    case CommandAddress =>
      if b.commandAddress == 0 then s.(phase := Returned(-ETRANSFTDISPIERR, None)) else s.(phase := ResponseAddress)
    case ResponseAddress => s.(phase := ClearStatus)
    case ClearStatus => s.(board := b.(status := None), phase := WriteCommand(0))
    case WriteCommand(n) =>
      if n < |call.cmd| then s.(board := b.(command := b.command[n := call.cmd[n]]), phase := WriteCommand(n + 1))
      else s.(phase := Trigger)
    case Trigger => s.(board := b.(trigger := Some(true)), phase := Poll(0))
    case Poll(ms) =>
      s.(seen := s.seen + [b.status.Some?],
         phase := if b.status.Some? then ReadResponse([], b.status.value)
                  else if ms + RESP_POLL_INTERVAL_MS < RESP_TIMEOUT_MS then Poll(ms + RESP_POLL_INTERVAL_MS)
                  // The last status read succeeded, so the timeout returns 0.
                  else Returned(0, None))
    case ReadResponse(words, mine) =>
      if |words| < call.size then s.(phase := ReadResponse(words + [b.response[|words|]], mine))
      else s.(phase := Acknowledge(words, mine))
    case _ => s
  }

  datatype Label = Host(fault: bool) | Firm

  function Step(s: State, call: Call, respond: Firmwares, l: Label): (r: State)
    requires call.Fits(s.board)
    ensures call.Fits(r.board)
  {
    match l
    case Host(fault) => HostStep(s, call, fault)
    case Firm => s.(board := FirmwareStep(s.board, respond), steps := if s.phase.Poll? then s.steps + 1 else s.steps)
  }

  /** Any interleaving of the two sides. */
  function Run(s: State, call: Call, respond: Firmwares, ls: seq<Label>): (r: State)
    requires call.Fits(s.board)
    ensures call.Fits(r.board)
    decreases |ls|
  {
    if ls == [] then s else Run(Step(s, call, respond, ls[0]), call, respond, ls[1..])
  }

  lemma {:induction false} RunOn(s: State, call: Call, respond: Firmwares, a: seq<Label>, b: seq<Label>)
    requires call.Fits(s.board)
    ensures Run(s, call, respond, a + b) == Run(Run(s, call, respond, a), call, respond, b)
    decreases |a|
  {
    hide Step;
    if a == [] {
      assert a + b == b;
    } else {
      assert (a + b)[1..] == a[1..] + b;
      RunOn(Step(s, call, respond, a[0]), call, respond, a[1..], b);
    }
  }

  // ---------------------------------------------------------------- safety

  /** The first words of `area` are those of `words`, as far as both go. */
  predicate Agrees(area: seq<Word>, words: seq<Word>) {
    forall i {:trigger area[i]} {:trigger words[i]} :: 0 <= i < |area| && i < |words| ==> area[i] == words[i]
  }

  /** `heard` answers the command of this call. */
  predicate AnswersCall(heard: seq<Word>, call: Call, respond: Firmwares, command: seq<Word>) {
    |heard| == call.size && call.cmd <= command && Agrees(heard, respond(command))
  }

  /** The firmware works on this call's command, and nothing else is under way. */
  predicate Working(b: Board, respond: Firmwares) {
    match b.fw
    case Idle =>
      if b.trigger.Some? then b.trigger.value && b.status.None?
      else b.status == Some(true) && Agrees(b.response, respond(b.command))
    case Fetching(words, mine) => mine && b.trigger.None? && b.status.None? && words <= b.command
    case Answering(answer, at, mine) =>
      && mine && b.trigger.None? && b.status.None? && answer == respond(b.command)
      && at <= |answer| && at <= |b.response| && Agrees(b.response[..at], answer)
  }

  /** How many steps the firmware takes over a command area, from noticing the trigger to setting the status bit. */
  function Work(b: Board, respond: Firmwares): nat {
    1 + |b.command| + 1 + Least(|respond(b.command)|, |b.response|) + 1
  }

  function Least(m: nat, n: nat): nat { if m < n then m else n }

  /** How many of those steps are left. */
  function Left(b: Board, respond: Firmwares): int {
    match b.fw
    case Idle => if b.trigger.Some? then Work(b, respond) else 0
    case Fetching(words, _) => Work(b, respond) - 1 - |words|
    case Answering(_, at, _) => Least(|respond(b.command)|, |b.response|) - at + 1
  }

  /** The firmware is as far as the steps it took bring it. */
  predicate InStep(s: State, respond: Firmwares) {
    Left(s.board, respond) == if s.steps < Work(s.board, respond) then Work(s.board, respond) - s.steps else 0
  }

  /** What every step keeps of a call that began on a quiescent board. */
  predicate Safe(s: State, call: Call, respond: Firmwares) {
    var b := s.board;
    call.Fits(b) &&
    match s.phase
    case WriteCommand(n) => Quiescent(b) && b.status.None? && n <= |call.cmd| && call.cmd[..n] <= b.command && s.steps == 0
    case Trigger => Quiescent(b) && b.status.None? && call.cmd <= b.command && s.steps == 0
    case Poll(ms) => Working(b, respond) && call.cmd <= b.command && InStep(s, respond)
    case ReadResponse(words, mine) => Heard(b, words, mine, call, respond)
    case Acknowledge(words, mine) => Heard(b, words, mine, call, respond) && |words| == call.size
    case Returned(ret, heard) =>
      && (heard.Some? ==> ret == 0 && heard.value.1 && AnswersCall(heard.value.0, call, respond, b.command))
      && (ret == 0 && heard.None? ==> s.steps < Work(b, respond))
    case _ => Quiescent(b) && s.steps == 0
  }

  predicate Heard(b: Board, words: seq<Word>, mine: bool, call: Call, respond: Firmwares) {
    && Working(b, respond) && Quiescent(b) && call.cmd <= b.command && mine
    && |words| <= call.size <= |b.response| && words <= b.response
  }

  lemma FirmwareKeepsWorking(b: Board, respond: Firmwares)
    requires Working(b, respond)
    ensures Working(FirmwareStep(b, respond), respond)
  {
    match b.fw
    case Idle =>
    case Fetching(words, mine) =>
      if |words| == |b.command| {
        assert words == b.command;
      }
    case Answering(answer, at, mine) =>
      if at < |answer| && at < |b.response| {
        var r := FirmwareStep(b, respond);
        assert r.response[..at + 1] == b.response[..at] + [answer[at]];
      } else {
        assert at == |b.response| ==> b.response[..at] == b.response;
      }
  }

  lemma FirmwareTakesAStep(s: State, respond: Firmwares)
    requires Working(s.board, respond) && InStep(s, respond)
    ensures InStep(s.(board := FirmwareStep(s.board, respond), steps := s.steps + 1), respond)
  {
    hide Agrees;
    var b := s.board;
    if b.fw.Fetching? && |b.fw.words| == |b.command| {
      assert b.fw.words == b.command;
    }
  }

  lemma FirmwareKeepsSafe(s: State, call: Call, respond: Firmwares)
    requires Safe(s, call, respond)
    ensures Safe(Step(s, call, respond, Firm), call, respond)
  {
    hide Agrees, InStep;
    if s.phase.Poll? {
      FirmwareKeepsWorking(s.board, respond);
      FirmwareTakesAStep(s, respond);
      hide Working, FirmwareStep;
    }
  }

  lemma HostKeepsSafe(s: State, call: Call, respond: Firmwares, fault: bool)
    requires Safe(s, call, respond)
    ensures Safe(HostStep(s, call, fault), call, respond)
  {
    hide Agrees;
    var b := s.board;
    match s.phase
    case WriteCommand(n) =>
      if n < |call.cmd| {
        assert call.cmd[..n + 1] == call.cmd[..n] + [call.cmd[n]];
      } else {
        assert call.cmd[..n] == call.cmd;
      }
    case Poll(_) =>
    case Acknowledge(words, _) => HeardAnswers(b, words, call, respond);
    case _ =>
  }

  lemma HeardAnswers(b: Board, words: seq<Word>, call: Call, respond: Firmwares)
    requires Heard(b, words, true, call, respond) && |words| == call.size
    ensures AnswersCall(words, call, respond, b.command)
  {
  }

  lemma StepKeepsSafe(s: State, call: Call, respond: Firmwares, l: Label)
    requires Safe(s, call, respond)
    ensures call.Fits(s.board) && Safe(Step(s, call, respond, l), call, respond)
  {
    hide HostStep, FirmwareStep, Working, Heard, AnswersCall;
    match l
    case Host(fault) => HostKeepsSafe(s, call, respond, fault);
    case Firm => FirmwareKeepsSafe(s, call, respond);
  }

  lemma {:induction false} RunKeepsSafe(s: State, call: Call, respond: Firmwares, ls: seq<Label>)
    requires Safe(s, call, respond)
    ensures call.Fits(s.board) && Safe(Run(s, call, respond, ls), call, respond)
    decreases |ls|
  {
    hide Safe, Step;
    StepKeepsSafe(s, call, respond, Firm);
    if ls != [] {
      StepKeepsSafe(s, call, respond, ls[0]);
      RunKeepsSafe(Step(s, call, respond, ls[0]), call, respond, ls[1..]);
    }
  }

  // ---------------------------------------------------------------- what the polls found

  /** So many polls that found the status bit clear. */
  function Clear(n: nat): (seen: seq<bool>)
    ensures |seen| == n && forall i :: 0 <= i < n ==> !seen[i]
  {
    seq(n, _ => false)
  }

  /** Polls that found the status bit clear until the last one found it set. */
  predicate FoundLast(seen: seq<bool>) {
    0 < |seen| <= 30 && seen == Clear(|seen| - 1) + [true]
  }

  /** What every step keeps of any call: why it is where it is. */
  predicate Counted(s: State) {
    match s.phase
    case Poll(ms) => s.seen == Clear(|s.seen|) && ms == |s.seen| * RESP_POLL_INTERVAL_MS < RESP_TIMEOUT_MS
    case ReadResponse(_, _) => FoundLast(s.seen)
    case Acknowledge(_, _) => FoundLast(s.seen)
    case Returned(ret, heard) =>
      if heard.Some? then ret == 0 && FoundLast(s.seen)
      else if ret == 0 then s.seen == Clear(30)
      else |s.seen| <= 30
    case _ => s.seen == []
  }

  lemma StepKeepsCount(s: State, call: Call, respond: Firmwares, l: Label)
    requires call.Fits(s.board) && Counted(s)
    ensures Counted(Step(s, call, respond, l))
  {
    hide FirmwareStep;
    if s.phase.Poll? {
      var n := |s.seen|;
      assert Clear(n) + [false] == Clear(n + 1);
    }
  }

  lemma {:induction false} RunKeepsCount(s: State, call: Call, respond: Firmwares, ls: seq<Label>)
    requires call.Fits(s.board) && Counted(s)
    ensures Counted(Run(s, call, respond, ls))
    ensures |Run(s, call, respond, ls).seen| <= 30
    decreases |ls|
  {
    hide Counted, Step;
    AtMost30(s);
    if ls != [] {
      StepKeepsCount(s, call, respond, ls[0]);
      RunKeepsCount(Step(s, call, respond, ls[0]), call, respond, ls[1..]);
    }
  }

  lemma AtMost30(s: State)
    requires Counted(s)
    ensures |s.seen| <= 30
  {
  }

  /** A call that found no manifest for commands never returns 0. */
  predicate Unsupported(s: State) {
    s.board.commandAddress == 0 &&
    (s.phase.Manifest? || s.phase.CommandAddress? || (s.phase.Returned? && s.phase.ret != 0))
  }

  lemma {:induction false} RunKeepsUnsupported(s: State, call: Call, respond: Firmwares, ls: seq<Label>)
    requires call.Fits(s.board) && Unsupported(s)
    ensures Unsupported(Run(s, call, respond, ls))
    decreases |ls|
  {
    hide FirmwareStep;
    if ls != [] {
      RunKeepsUnsupported(Step(s, call, respond, ls[0]), call, respond, ls[1..]);
    }
  }

  /**
   Over every interleaving with a firmware that had nothing outstanding: a response that is
   returned answers the command of this call, word for word, and there are at most 30 polls.
   */
  lemma OwnResponse(b: Board, call: Call, respond: Firmwares, ls: seq<Label>)
    requires Quiescent(b) && call.Fits(b)
    ensures var s := Run(Begin(b), call, respond, ls);
            && |s.seen| <= 30
            && OwnOnly(s, call, respond)
  {
    hide Run, AnswersCall;
    RunKeepsSafe(Begin(b), call, respond, ls);
    RunKeepsCount(Begin(b), call, respond, ls);
  }

  // ---------------------------------------------------------------- when a stale response is read

  function Times(l: Label, n: nat): (ls: seq<Label>)
    ensures |ls| == n && forall i :: 0 <= i < n ==> ls[i] == l
  {
    seq(n, _ => l)
  }

  const HOST: Label := Host(false)

  lemma OneMore(s: State, call: Call, respond: Firmwares, l: Label, n: nat)
    requires call.Fits(s.board) && n > 0
    ensures Run(s, call, respond, Times(l, n)) == Run(Step(s, call, respond, l), call, respond, Times(l, n - 1))
  {
    hide Step;
    assert Times(l, n)[1..] == Times(l, n - 1);
  }

  /** The host writes out the rest of its command. */
  lemma {:induction false} CommandWritten(s: State, call: Call, respond: Firmwares, n: nat)
    requires n <= |call.cmd| && call.Fits(s.board) && s.phase == WriteCommand(|call.cmd| - n)
    ensures var r := Run(s, call, respond, Times(HOST, n + 1));
            r.phase == Trigger && r.seen == s.seen && r.steps == s.steps && r.board == s.board.(command := r.board.command)
    decreases n
  {
    OneMore(s, call, respond, HOST, n + 1);
    var s1 := Step(s, call, respond, HOST);
    if n > 0 {
      CommandWritten(s1, call, respond, n - 1);
    } else {
      assert Times(HOST, 0) == [];
    }
  }

  /** The host reads in the rest of the response and returns it. */
  lemma {:induction false} ResponseRead(s: State, call: Call, respond: Firmwares, n: nat)
    requires call.Fits(s.board) && s.phase.ReadResponse? && |s.phase.words| + n == call.size
    ensures var r := Run(s, call, respond, Times(HOST, n + 2));
            && r.phase.Returned? && r.phase.ret == 0 && r.seen == s.seen
            && r.phase.heard.Some? && r.phase.heard.value.1 == s.phase.mine
    decreases n
  {
    OneMore(s, call, respond, HOST, n + 2);
    var s1 := Step(s, call, respond, HOST);
    if n > 0 {
      ResponseRead(s1, call, respond, n - 1);
    } else {
      OneMore(s1, call, respond, HOST, 1);
      assert Times(HOST, 0) == [];
    }
  }

  /** How many steps the firmware still needs before the one that sets the status bit. */
  function Remaining(b: Board, respond: Firmwares): nat
    requires !Quiescent(b)
  {
    match b.fw
    case Idle => 1 + |b.command| + 1 + Least(|respond(b.command)|, |b.response|)
    case Fetching(words, _) =>
      var left := if |words| < |b.command| then |b.command| - |words| else 0;
      left + 1 + Least(|respond(words + b.command[|b.command| - left..])|, |b.response|)
    case Answering(answer, at, _) => var end := Least(|answer|, |b.response|); if at < end then end - at else 0
  }

  /** Left alone, a firmware with something outstanding gets to the point of setting the status bit. */
  lemma {:induction false} AboutToAnswer(s: State, call: Call, respond: Firmwares, n: nat, mine: bool)
    requires call.Fits(s.board) && !Quiescent(s.board) && Remaining(s.board, respond) == n
    requires if s.board.fw.Idle? then s.board.trigger == Some(mine) else s.board.fw.mine == mine
    ensures var r := Run(s, call, respond, Times(Firm, n));
            && r.phase == s.phase && r.seen == s.seen && r.board.commandAddress == s.board.commandAddress
            && r.board.fw.Answering? && r.board.fw.mine == mine && Remaining(r.board, respond) == 0
            && (s.board.status.None? ==> r.board.status.None?)
    decreases n
  {
    if n == 0 {
      assert Times(Firm, 0) == [];
    } else {
      OneMore(s, call, respond, Firm, n);
      RemainingFalls(s.board, respond);
      AboutToAnswer(Step(s, call, respond, Firm), call, respond, n - 1, mine);
    }
  }

  lemma RemainingFalls(b: Board, respond: Firmwares)
    requires !Quiescent(b) && Remaining(b, respond) > 0
    ensures var r := FirmwareStep(b, respond);
            && !Quiescent(r) && Remaining(r, respond) == Remaining(b, respond) - 1
            && !r.fw.Idle? && (if b.fw.Idle? then r.fw.mine == b.trigger.value else r.fw.mine == b.fw.mine)
  {
    match b.fw
    case Idle => assert [] + b.command == b.command;
    case Fetching(words, _) =>
      if |words| < |b.command| {
        var k := |words|;
        assert words + b.command[k..] == words + [b.command[k]] + b.command[k + 1..];
      } else {
        assert words + b.command[|b.command|..] == words;
      }
    case Answering(_, _, _) =>
  }

  /** On entry nothing on the board is on behalf of the call that begins. */
  predicate Entry(b: Board) {
    && b.trigger != Some(true) && b.status != Some(true)
    && (!b.fw.Idle? ==> !b.fw.mine)
  }

  /** The host's first four accesses clear the status bit. */
  lemma StatusCleared(s: State, call: Call, respond: Firmwares)
    requires call.Fits(s.board) && s.phase.Manifest? && s.board.commandAddress != 0
    ensures Run(s, call, respond, Times(HOST, 4)) == s.(board := s.board.(status := None), phase := WriteCommand(0))
  {
    OneMore(s, call, respond, HOST, 4);
    var s1 := s.(phase := CommandAddress);
    OneMore(s1, call, respond, HOST, 3);
    var s2 := s.(phase := ResponseAddress);
    OneMore(s2, call, respond, HOST, 2);
    var s3 := s.(phase := ClearStatus);
    OneMore(s3, call, respond, HOST, 1);
    assert Times(HOST, 0) == [];
  }

  /** The host writes its command, triggers it, sees a status bit that was set before and reads the response. */
  lemma StatusBelieved(s: State, call: Call, respond: Firmwares)
    requires call.Fits(s.board) && s.phase == WriteCommand(0) && s.board.status.Some?
    ensures var r := Run(s, call, respond, Times(HOST, |call.cmd| + 1) + (Times(HOST, 2) + Times(HOST, call.size + 2)));
            r.phase.Returned? && r.phase.heard.Some? && r.phase.heard.value.1 == s.board.status.value
  {
    RunOn(s, call, respond, Times(HOST, |call.cmd| + 1), Times(HOST, 2) + Times(HOST, call.size + 2));
    CommandWritten(s, call, respond, |call.cmd|);
    var s1 := Run(s, call, respond, Times(HOST, |call.cmd| + 1));
    RunOn(s1, call, respond, Times(HOST, 2), Times(HOST, call.size + 2));
    OneMore(s1, call, respond, HOST, 2);
    var s2 := Step(s1, call, respond, HOST);
    OneMore(s2, call, respond, HOST, 1);
    assert Times(HOST, 0) == [];
    var s3 := Step(s2, call, respond, HOST);
    hide Run;
    ResponseRead(s3, call, respond, call.size);
  }

  /** A schedule that hands the host what an earlier command left behind. */
  function Stale(n: nat, call: Call): seq<Label> {
    Times(Firm, n) +
    (Times(HOST, 4) + ([Firm] + (Times(HOST, |call.cmd| + 1) + (Times(HOST, 2) + Times(HOST, call.size + 2)))))
  }

  /** The firmware's last step for a command sets the status bit on behalf of whoever triggered it. */
  lemma StatusSet(s: State, call: Call, respond: Firmwares)
    requires call.Fits(s.board) && s.board.fw.Answering? && Remaining(s.board, respond) == 0
    ensures Step(s, call, respond, Firm) ==
            s.(board := s.board.(status := Some(s.board.fw.mine), fw := Idle), steps := if s.phase.Poll? then s.steps + 1 else s.steps)
  {
  }

  lemma StaleResponse(b: Board, call: Call, respond: Firmwares)
    requires call.Fits(b) && Entry(b) && !Quiescent(b) && b.commandAddress != 0
    ensures var s := Run(Begin(b), call, respond, Stale(Remaining(b, respond), call));
            s.phase.Returned? && s.phase.heard.Some? && !s.phase.heard.value.1
  {
    hide Run, Step, FirmwareStep, HostStep;
    var s, n := Begin(b), Remaining(b, respond);
    var after := Times(HOST, |call.cmd| + 1) + (Times(HOST, 2) + Times(HOST, call.size + 2));
    RunOn(s, call, respond, Times(Firm, n), Times(HOST, 4) + ([Firm] + after));
    assert b.fw.Idle? ==> b.trigger.Some? && !b.trigger.value;
    AboutToAnswer(s, call, respond, n, false);
    var s1 := Run(s, call, respond, Times(Firm, n));
    RunOn(s1, call, respond, Times(HOST, 4), [Firm] + after);
    StatusCleared(s1, call, respond);
    var s2 := Run(s1, call, respond, Times(HOST, 4));
    StatusSet(s2, call, respond);
    RunHead(s2, call, respond, Firm, after);
    StatusBelieved(Step(s2, call, respond, Firm), call, respond);
  }

  lemma RunHead(s: State, call: Call, respond: Firmwares, l: Label, ls: seq<Label>)
    requires call.Fits(s.board)
    ensures Run(s, call, respond, [l] + ls) == Run(Step(s, call, respond, l), call, respond, ls)
  {
    hide Step;
    assert ([l] + ls)[1..] == ls;
  }

  /** Whatever the interleaving, a response that is returned belongs to this call: exactly when nothing is outstanding on entry. */
  lemma OwnResponseIff(b: Board, call: Call, respond: Firmwares)
    requires call.Fits(b) && Entry(b) && b.commandAddress != 0
    ensures (forall ls {:trigger Run(Begin(b), call, respond, ls)} ::
               var s := Run(Begin(b), call, respond, ls);
               s.phase.Returned? && s.phase.heard.Some? ==> s.phase.heard.value.1)
            <==> Quiescent(b)
  {
    hide Run, Stale, AnswersCall;
    if Quiescent(b) {
      forall ls
        ensures var s := Run(Begin(b), call, respond, ls);
                s.phase.Returned? && s.phase.heard.Some? ==> s.phase.heard.value.1
      {
        OwnResponse(b, call, respond, ls);
      }
    } else {
      StaleResponse(b, call, respond);
    }
  }

  // ---------------------------------------------------------------- a firmware that answers, or does not

  /** Polls that find the status bit clear. */
  lemma {:induction false} PollsMiss(s: State, call: Call, respond: Firmwares, k: nat, n: nat)
    requires call.Fits(s.board) && s.board.status.None? && k + n <= 30
    requires k < 30 && s.phase == Poll(k * RESP_POLL_INTERVAL_MS)
    ensures Run(s, call, respond, Times(HOST, n)) ==
            s.(phase := if k + n == 30 then Returned(0, None) else Poll((k + n) * RESP_POLL_INTERVAL_MS), seen := s.seen + Clear(n))
    decreases n
  {
    if n == 0 {
      assert Times(HOST, 0) == [];
      assert s.seen + Clear(0) == s.seen;
    } else {
      OneMore(s, call, respond, HOST, n);
      assert s.seen + Clear(n) == s.seen + [false] + Clear(n - 1);
      if k + 1 < 30 {
        PollsMiss(Step(s, call, respond, HOST), call, respond, k + 1, n - 1);
      } else {
        assert Times(HOST, 0) == [];
      }
    }
  }

  /** The host's accesses up to its first poll. */
  function Opening(call: Call): seq<Label> {
    Times(HOST, 4) + (Times(HOST, |call.cmd| + 1) + Times(HOST, 1))
  }

  lemma Opened(b: Board, call: Call, respond: Firmwares)
    requires call.Fits(b) && b.commandAddress != 0
    ensures var r := Run(Begin(b), call, respond, Opening(call));
            && r.phase == Poll(0) && r.seen == [] && r.steps == 0
            && r.board == b.(command := r.board.command, status := None, trigger := Some(true))
  {
    var s, rest := Begin(b), Times(HOST, |call.cmd| + 1) + Times(HOST, 1);
    RunOn(s, call, respond, Times(HOST, 4), rest);
    StatusCleared(s, call, respond);
    var s1 := Run(s, call, respond, Times(HOST, 4));
    RunOn(s1, call, respond, Times(HOST, |call.cmd| + 1), Times(HOST, 1));
    CommandWritten(s1, call, respond, |call.cmd|);
    var s2 := Run(s1, call, respond, Times(HOST, |call.cmd| + 1));
    OneMore(s2, call, respond, HOST, 1);
    assert Times(HOST, 0) == [];
  }

  /** When the firmware never answers, the call polls 30 times and returns 0 without a response. */
  lemma TimeoutReturnsZero(b: Board, call: Call, respond: Firmwares)
    requires call.Fits(b) && b.commandAddress != 0
    ensures var r := Run(Begin(b), call, respond, Opening(call) + Times(HOST, 30));
            r.phase == Returned(0, None) && r.seen == Clear(30)
  {
    hide Run, Opening;
    Opened(b, call, respond);
    RunOn(Begin(b), call, respond, Opening(call), Times(HOST, 30));
    PollsMiss(Run(Begin(b), call, respond, Opening(call)), call, respond, 0, 30);
  }

  /** A schedule on which the firmware answers between two polls. */
  function Answered(call: Call, polls: nat, steps: nat): seq<Label> {
    Opening(call) + (Times(HOST, polls) + (Times(Firm, steps) + ([Firm] + ([HOST] + Times(HOST, call.size + 2)))))
  }

  /** A firmware that answers before the last poll is heard, however many polls went before. */
  lemma AnswerIsHeard(b: Board, call: Call, respond: Firmwares, polls: nat)
    requires call.Fits(b) && Quiescent(b) && b.commandAddress != 0 && polls < 30
    ensures exists steps: nat :: Hears(b, call, respond, Answered(call, polls, steps), polls + 1)
  {
    hide Run, Step, FirmwareStep, HostStep, Opening, Remaining;
    var s := Begin(b);
    Opened(b, call, respond);
    var s1 := Run(s, call, respond, Opening(call));
    PollsMiss(s1, call, respond, 0, polls);
    var s2 := Run(s1, call, respond, Times(HOST, polls));
    var steps := Remaining(s2.board, respond);
    AboutToAnswer(s2, call, respond, steps, true);
    var s3 := Run(s2, call, respond, Times(Firm, steps));
    StatusSet(s3, call, respond);
    var s4 := Step(s3, call, respond, Firm);
    StatusSeen(s4, call, respond, polls * RESP_POLL_INTERVAL_MS);
    var s5 := Step(s4, call, respond, HOST);
    ResponseRead(s5, call, respond, call.size);
    var last := Times(HOST, call.size + 2);
    RunHead(s4, call, respond, HOST, last);
    RunHead(s3, call, respond, Firm, [HOST] + last);
    RunOn(s2, call, respond, Times(Firm, steps), [Firm] + ([HOST] + last));
    RunOn(s1, call, respond, Times(HOST, polls), Times(Firm, steps) + ([Firm] + ([HOST] + last)));
    RunOn(s, call, respond, Opening(call), Times(HOST, polls) + (Times(Firm, steps) + ([Firm] + ([HOST] + last))));
    assert Hears(b, call, respond, Answered(call, polls, steps), polls + 1);
  }

  /** The interleaving ends with a response of this call, after so many polls. */
  predicate Hears(b: Board, call: Call, respond: Firmwares, ls: seq<Label>, polls: nat)
    requires call.Fits(b)
  {
    var s := Run(Begin(b), call, respond, ls);
    |s.seen| == polls && s.phase.Returned? && s.phase.ret == 0 && s.phase.heard.Some? && s.phase.heard.value.1
  }

  lemma StatusSeen(s: State, call: Call, respond: Firmwares, ms: nat)
    requires call.Fits(s.board) && s.phase == Poll(ms) && s.board.status.Some?
    ensures Step(s, call, respond, HOST) == s.(phase := ReadResponse([], s.board.status.value), seen := s.seen + [true])
  {
  }

  /**
   From any start and over every interleaving: a call that returns 0 either has a response, which
   its last poll announced, or has found the status bit clear 30 times.
   */
  lemma ZeroMeans(b: Board, call: Call, respond: Firmwares, ls: seq<Label>)
    requires call.Fits(b)
    ensures var s := Run(Begin(b), call, respond, ls);
            s.phase.Returned? && s.phase.ret == 0 ==>
              if s.phase.heard.Some? then FoundLast(s.seen) else s.seen == Clear(30)
  {
    hide Run;
    RunKeepsCount(Begin(b), call, respond, ls);
  }

  /**
   From a quiescent start and over every interleaving: a call that returns 0 has its response if
   the firmware finished its work on the command before the last poll.
   */
  lemma FinishedIsHeard(b: Board, call: Call, respond: Firmwares, ls: seq<Label>)
    requires call.Fits(b) && Quiescent(b)
    ensures var s := Run(Begin(b), call, respond, ls);
            s.phase.Returned? && s.phase.ret == 0 && s.steps >= Work(s.board, respond) ==> s.phase.heard.Some?
  {
    hide Run, Work, AnswersCall;
    RunKeepsSafe(Begin(b), call, respond, ls);
  }

  /** A 0 means on every interleaving that there is a response: exactly when there is no command area, and so never a 0. */
  lemma ZeroIsHeardIff(b: Board, call: Call, respond: Firmwares)
    requires call.Fits(b)
    ensures (forall ls {:trigger Run(Begin(b), call, respond, ls)} ::
               var s := Run(Begin(b), call, respond, ls);
               s.phase.Returned? && s.phase.ret == 0 ==> s.phase.heard.Some?)
            <==> b.commandAddress == 0
  {
    hide Run, Opening;
    if b.commandAddress == 0 {
      forall ls
        ensures var s := Run(Begin(b), call, respond, ls);
                s.phase.Returned? && s.phase.ret == 0 ==> s.phase.heard.Some?
      {
        RunKeepsUnsupported(Begin(b), call, respond, ls);
      }
    } else {
      TimeoutReturnsZero(b, call, respond);
    }
  }

  // ---------------------------------------------------------------- the call itself

  lemma RunOne(s: State, call: Call, respond: Firmwares, ls: seq<Label>, l: Label)
    requires call.Fits(s.board)
    ensures Run(s, call, respond, ls + [l]) == Step(Run(s, call, respond, ls), call, respond, l)
  {
    hide Step;
    RunOn(s, call, respond, ls, [l]);
    assert [l][1..] == [];
  }

  /** The link to a board: how far the firmware gets before each access, and which accesses fail. */
  class Line {
    var board: Board
    var clock: nat
    const respond: Firmwares
    const pace: nat -> nat
    const faults: nat -> bool

    constructor (board: Board, respond: Firmwares, pace: nat -> nat, faults: nat -> bool)
      ensures this.board == board && this.respond == respond && this.pace == pace && this.faults == faults
    {
      this.board, this.respond, this.pace, this.faults, clock := board, respond, pace, faults, 0;
    }

    /** The interleaving `ls` has brought the call to `s`. */
    ghost predicate Got(start: State, call: Call, ls: seq<Label>, s: State)
      reads this
    {
      call.Fits(start.board) && s.board == board && s == Run(start, call, respond, ls)
    }

    /** The firmware runs up to the host's next access, which may fail. */
    method Access(ghost start: State, ghost call: Call, ghost ls: seq<Label>, ghost s: State)
      returns (fault: bool, ghost ls': seq<Label>, ghost s': State)
      requires Got(start, call, ls, s)
      modifies this
      ensures call.Fits(start.board) && call.Fits(board)
      ensures s'.board == board && s'.phase == s.phase
      ensures Run(start, call, respond, ls') == HostStep(s', call, fault)
      ensures ls' != [] && ls'[|ls'| - 1] == Host(fault)
    {
      hide Run, FirmwareStep, HostStep;
      ls', s' := ls, s;
      for i := 0 to pace(clock)
        invariant Got(start, call, ls', s') && s'.phase == s.phase
      {
        RunOne(start, call, respond, ls', Firm);
        s' := Step(s', call, respond, Firm);
        board, ls' := FirmwareStep(board, respond), ls' + [Firm];
      }
      fault := faults(clock);
      clock := clock + 1;
      RunOne(start, call, respond, ls', Host(fault));
      ls' := ls' + [Host(fault)];
    }

    /** mem_write of the command, a word at a time. */
    method WriteWords(cmd: seq<Word>, ghost start: State, ghost call: Call, ghost ls: seq<Label>, ghost s: State)
      returns (fault: bool, ghost ls': seq<Label>, ghost s': State)
      requires Got(start, call, ls, s) && s.phase == WriteCommand(0) && call.cmd == cmd
      modifies this
      ensures Got(start, call, ls', s')
      ensures s'.phase == if fault then Returned(-ETRANSFTDISPIERR, None) else Trigger
    {
      hide Run;
      ls', s' := ls, s;
      for n := 0 to |cmd|
        invariant Got(start, call, ls', s') && s'.phase == WriteCommand(n)
      {
        fault, ls', s' := Access(start, call, ls', s');
        s' := HostStep(s', call, fault);
        if fault {
          return;
        }
        board := board.(command := board.command[n := cmd[n]]);
      }
      fault, ls', s' := Access(start, call, ls', s');
      s' := HostStep(s', call, fault);
    }

    /** mem_read of the response, a word at a time. */
    method ReadWords(size: nat, ghost start: State, ghost call: Call, ghost ls: seq<Label>, ghost s: State)
      returns (words: seq<Word>, fault: bool, ghost ls': seq<Label>, ghost s': State)
      requires Got(start, call, ls, s) && s.phase.ReadResponse? && s.phase.words == [] && call.size == size
      modifies this
      ensures Got(start, call, ls', s')
      ensures s'.phase == if fault then Returned(-ETRANSFTDISPIERR, None) else Acknowledge(words, s.phase.mine)
      ensures !fault ==> |words| == size
    {
      hide Run;
      ls', s', words := ls, s, [];
      for n := 0 to size
        invariant Got(start, call, ls', s') && s'.phase == ReadResponse(words, s.phase.mine) && |words| == n
      {
        fault, ls', s' := Access(start, call, ls', s');
        s' := HostStep(s', call, fault);
        if fault {
          return;
        }
        words := words + [board.response[n]];
      }
      fault, ls', s' := Access(start, call, ls', s');
      s' := HostStep(s', call, fault);
    }

    /** The polls of the status bit. */
    method AwaitStatus(ghost start: State, ghost call: Call, ghost ls: seq<Label>, ghost s: State)
      returns (ii: nat, fault: bool, ghost ls': seq<Label>, ghost s': State)
      requires Got(start, call, ls, s) && s.phase == Poll(0)
      modifies this
      ensures Got(start, call, ls', s')
      ensures if fault then s'.phase == Returned(-ETRANSFTDISPIERR, None)
              else if ii >= RESP_TIMEOUT_MS then s'.phase == Returned(0, None)
              else s'.phase.ReadResponse? && s'.phase.words == []
    {
      hide Run;
      ii, ls', s', fault := 0, ls, s, false;
      while ii < RESP_TIMEOUT_MS
        invariant !fault && ii % RESP_POLL_INTERVAL_MS == 0
        invariant Got(start, call, ls', s') && s'.phase == if ii >= RESP_TIMEOUT_MS then Returned(0, None) else Poll(ii)
        decreases RESP_TIMEOUT_MS - ii
      {
        fault, ls', s' := Access(start, call, ls', s');
        s' := HostStep(s', call, fault);
        if fault {
          return;
        }
        if board.status.Some? {
          return;
        }
        ii := ii + RESP_POLL_INTERVAL_MS;
      }
    }

    /** The accesses up to the one that clears the status bit. */
    method Locate(ghost start: State, ghost call: Call)
      returns (fault: bool, ghost ls: seq<Label>, ghost s: State)
      requires start == Begin(board) && call.Fits(board)
      modifies this
      ensures Got(start, call, ls, s)
      ensures s.phase == if fault then Returned(-ETRANSFTDISPIERR, None) else ClearStatus
    {
      hide Run;
      ls, s := [], start;
      RunNothing(start, call, respond);
      fault, ls, s := Access(start, call, ls, s);
      s := HostStep(s, call, fault);
      if fault {
        return;
      }
      fault, ls, s := Access(start, call, ls, s);
      s := HostStep(s, call, fault);
      // Production firmware keeps no command area.
      if fault || board.commandAddress == 0 {
        fault := true;
        return;
      }
      fault, ls, s := Access(start, call, ls, s);
      s := HostStep(s, call, fault);
    }

    /** The accesses up to the trigger. */
    method Deliver(cmd: seq<Word>, ghost start: State, ghost call: Call)
      returns (fault: bool, ghost ls: seq<Label>, ghost s: State)
      requires start == Begin(board) && call.Fits(board) && call.cmd == cmd
      modifies this
      ensures Got(start, call, ls, s)
      ensures s.phase == if fault then Returned(-ETRANSFTDISPIERR, None) else Poll(0)
    {
      hide Run;
      fault, ls, s := Locate(start, call);
      if fault {
        return;
      }
      fault, ls, s := Access(start, call, ls, s);
      s := HostStep(s, call, fault);
      if fault {
        return;
      }
      board := board.(status := None);
      fault, ls, s := WriteWords(cmd, start, call, ls, s);
      if fault {
        return;
      }
      fault, ls, s := Access(start, call, ls, s);
      s := HostStep(s, call, fault);
      if !fault {
        board := board.(trigger := Some(true));
      }
    }

    /** ftdi_spi_send up to the trimming: what it does is one of the interleavings of the two sides. */
    method Converse(cmd: seq<Word>, size: nat) returns (ret: int, resp: Option<seq<Word>>, ghost ls: seq<Label>)
      requires Call(cmd, size).Fits(board)
      modifies this
      ensures Ended(old(board), Call(cmd, size), respond, ls, board, ret, resp)
      ensures resp.Some? ==> |resp.value| == size
      ensures resp.Some? ==> ls != [] && (ls[|ls| - 1] == Host(false) ==> board.status.None?)
    {
      hide Run;
      ghost var call, start, s := Call(cmd, size), Begin(board), Begin(board);
      var fault;
      ret, resp := -ETRANSFTDISPIERR, None;
      fault, ls, s := Deliver(cmd, start, call);
      if fault {
        return;
      }
      var ii;
      ii, fault, ls, s := AwaitStatus(start, call, ls, s);
      if fault {
        return;
      }
      if ii >= RESP_TIMEOUT_MS {
        ret := 0;
        return;
      }
      var words;
      words, fault, ls, s := ReadWords(size, start, call, ls, s);
      if fault {
        return;
      }
      fault, ls, s := Access(start, call, ls, s);
      s := HostStep(s, call, fault);
      if !fault {
        board := board.(status := None);
      }
      ret, resp := 0, Some(words);
    }

    /** ftdi_spi_send */
    method Send(cmd: seq<Word>, size: nat) returns (ret: int, resp: Option<seq<Word>>, dataLen: nat, ghost ls: seq<Label>)
      requires Call(cmd, size).Fits(board) && size >= RESPONSE_WORDS
      modifies this
      ensures Ended(old(board), Call(cmd, size), respond, ls, board, ret, resp)
      ensures Quiescent(old(board)) && resp.Some? ==> AnswersCall(resp.value, Call(cmd, size), respond, board.command)
      ensures if resp.Some? then |resp.value| == size && dataLen == Trimmed(resp.value) else dataLen == 4 * size
      // The status bit is clear again, unless the last access failed, which nobody looks at.
      ensures resp.Some? ==> ls != [] && (ls[|ls| - 1] == Host(false) ==> board.status.None?)
      ensures forall h: ResponseHeader :: resp.Some? && h.Heads(resp.value) ==>
                dataLen == if h.len >= 4 then h.len - 4 else 0x1_0000_0000_0000_0000 + h.len - 4
    {
      hide Run, AnswersCall;
      ghost var b, call := board, Call(cmd, size);
      ret, resp, ls := Converse(cmd, size);
      if Quiescent(b) {
        OwnResponse(b, call, respond, ls);
      }
      dataLen := 4 * size;
      if resp.Some? {
        dataLen := Trimmed(resp.value);
        TrimmedIs(resp.value);
      }
    }
  }

  /** A response's header and status. */
  const RESPONSE_WORDS: nat := 4

  const SIZE_MAX: nat := 0xFFFF_FFFF_FFFF_FFFF

  /** The length field of a response's header. */
  function HeaderLength(words: seq<Word>): (len: nat)
    requires |words| >= RESPONSE_WORDS
    ensures len < 0x1_0000
  {
    words[1] % 0x1_0000
  }

  /** The data length the caller is given: the header's length less the status, in a size_t. */
  function Trimmed(words: seq<Word>): nat
    requires |words| >= RESPONSE_WORDS
  {
    (HeaderLength(words) + SIZE_MAX + 1 - 4) % (SIZE_MAX + 1)
  }

  /** The fields of a response's header, two to a word, the first of them in the low half. */
  datatype ResponseHeader = ResponseHeader(flags: nat, id: nat, len: nat, hostId: nat, vifId: nat, pad: nat) {
    predicate Heads(words: seq<Word>) {
      && flags < 0x1_0000 && id < 0x1_0000 && len < 0x1_0000 && hostId < 0x1_0000 && vifId < 0x1_0000 && pad < 0x1_0000
      && |words| >= 3
      && words[0] == flags + 0x1_0000 * id
      && words[1] == len + 0x1_0000 * hostId
      && words[2] == vifId + 0x1_0000 * pad
    }
  }

  /** The data length is the header's length field less four, and just below 2^64 when the field is below four. */
  lemma TrimmedIs(words: seq<Word>)
    requires RESPONSE_WORDS <= |words|
    ensures forall h: ResponseHeader :: h.Heads(words) ==>
              Trimmed(words) == if h.len >= 4 then h.len - 4 else 0x1_0000_0000_0000_0000 + h.len - 4
  {
    forall h: ResponseHeader | h.Heads(words)
      ensures Trimmed(words) == if h.len >= 4 then h.len - 4 else 0x1_0000_0000_0000_0000 + h.len - 4
    {
      hide HeaderLength;
    }
  }

  /**
   The data length stays within the buffer exactly when the firmware's length field does: nothing
   else keeps it there, and a field below 4 makes it enormous.
   */
  lemma TrimmedIsWithinIff(words: seq<Word>, h: ResponseHeader)
    requires RESPONSE_WORDS <= |words| < 0x1_0000_0000 && h.Heads(words)
    ensures Trimmed(words) <= 4 * |words| <==> 4 <= h.len <= 4 * |words| + 4
  {
    hide Trimmed;
    TrimmedIs(words);
  }

  /** Flags 1, message 5 and a length of 12: eight octets of data. */
  lemma EightOctetsOfData()
    ensures Trimmed([0x0005_0001, 12, 0, 0]) == 8
  {
    hide Trimmed;
    var words: seq<Word>, h := [0x0005_0001, 12, 0, 0], ResponseHeader(1, 5, 12, 0, 0, 0);
    TrimmedIs(words);
    assert h.Heads(words);
  }

  lemma RunNothing(s: State, call: Call, respond: Firmwares)
    requires call.Fits(s.board)
    ensures Run(s, call, respond, []) == s
  {
  }

  predicate OwnOnly(s: State, call: Call, respond: Firmwares) {
    s.phase.Returned? && s.phase.heard.Some? ==>
      s.phase.heard.value.1 && AnswersCall(s.phase.heard.value.0, call, respond, s.board.command)
  }

  /** A call on `b` can end, by the interleaving `ls`, on board `now` with this outcome. */
  ghost predicate Ended(b: Board, call: Call, respond: Firmwares, ls: seq<Label>, now: Board, ret: int, resp: Option<seq<Word>>)
    requires call.Fits(b)
  {
    var s := Run(Begin(b), call, respond, ls);
    && s.board == now && s.phase.Returned? && s.phase.ret == ret
    && resp == match s.phase.heard { case None => None case Some(h) => Some(h.0) }
  }
}
