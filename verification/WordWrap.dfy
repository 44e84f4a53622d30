/**
 The help text of `params.c`: `get_line` cuts a text into lines and `print_param_help` prints
 them. A text is a string without its terminator, which is found at index |text|.
 */
module WordWrap {
  const MAX_LEN: nat := 60

  predicate Blank(c: char) { c == ' ' || c == '\n' }

  function Eol(text: string, start: nat): (eol: nat)
    requires start <= |text|
    ensures start <= eol <= |text| && eol <= start + MAX_LEN
  {
    if start + MAX_LEN < |text| then start + MAX_LEN else |text|
  }

  /** The first character to print, or the end of the window. */
  function Skip(text: string, start: nat, eol: nat): (s: nat)
    requires start <= eol <= |text|
    ensures start <= s <= eol
    ensures forall i :: start <= i < s ==> Blank(text[i])
    ensures s < eol ==> !Blank(text[s])
    decreases eol - start
  {
    if start < eol && Blank(text[start]) then Skip(text, start + 1, eol) else start
  }

  /** The length of a line whose first characters, up to `p`, have been looked at. */
  function Scan(text: string, start: nat, p: nat, eol: nat, lastSpace: nat): nat
    requires start <= p <= eol + 1 && eol <= |text|
    decreases eol + 1 - p
  {
    if p > eol then if lastSpace < p - start then lastSpace else p - start
    else if p == |text| || text[p] == '\n' then p - start
    else Scan(text, start, p + 1, eol, if text[p] == ' ' then p - start else lastSpace)
  }

  /** A line: where it starts and how long it is. */
  function Line(text: string, start: nat): (nat, nat)
    requires start <= |text|
  {
    var eol := Eol(text, start);
    var s := Skip(text, start, eol);
    (s, Scan(text, s, s, eol, MAX_LEN + 1))
  }

  /** What the line that is cut from `start` on must be. */
  predicate IsLine(text: string, start: nat, s: nat, len: nat)
    requires start <= |text|
  {
    var eol := Eol(text, start);
    && start <= s <= eol && s + len <= |text| && s + len <= eol + 1
    && (forall i :: start <= i < s ==> Blank(text[i])) && (s < eol ==> !Blank(text[s]))
    && (forall i :: s <= i < s + len ==> text[i] != '\n')
    && if s + len == |text| && len <= eol - s then true
       else if s + len <= eol && text[s + len] == '\n' then true
       else
         // Neither the end nor a line break in the window: cut at its last space, or at its end.
         && eol < |text| && (forall i :: s <= i <= eol ==> text[i] != '\n')
         && (forall i :: s + len < i <= eol ==> text[i] != ' ')
         && if s + len <= eol then text[s + len] == ' ' else forall i :: s <= i <= eol ==> text[i] != ' '
  }

  lemma {:induction false} ScanIsLine(text: string, start: nat, s: nat, p: nat, eol: nat, last: nat)
    requires start <= |text| && eol == Eol(text, start) && start <= s <= eol && s <= p <= eol + 1
    requires (forall i :: start <= i < s ==> Blank(text[i])) && (s < eol ==> !Blank(text[s]))
    requires p <= |text| && forall i :: s <= i < p ==> text[i] != '\n'
    requires if last == MAX_LEN + 1 then forall i :: s <= i < p ==> text[i] != ' '
             else s + last < p && text[s + last] == ' ' && forall i :: s + last < i < p ==> text[i] != ' '
    ensures IsLine(text, start, s, Scan(text, s, p, eol, last))
    decreases eol + 1 - p
  {
    if p <= eol && p < |text| && text[p] != '\n' {
      ScanIsLine(text, start, s, p + 1, eol, if text[p] == ' ' then p - s else last);
    }
  }

  lemma LineIsLine(text: string, start: nat)
    requires start <= |text|
    ensures var l := Line(text, start); IsLine(text, start, l.0, l.1)
  {
    ScanIsLine(text, start, Line(text, start).0, Line(text, start).0, Eol(text, start), MAX_LEN + 1);
  }

  /** A line is empty only when the window is all blank, and then the start has moved. */
  lemma LineAdvances(text: string, start: nat)
    requires start <= |text|
    ensures var l := Line(text, start);
            && l.0 + l.1 <= |text| && l.1 <= MAX_LEN + 1
            && (l.0 < |text| ==> l.0 + l.1 > start)
  {
    LineIsLine(text, start);
    hide Line;
  }

  /** Whether the text is cut between two characters of a word at `at`. */
  predicate CutsWord(text: string, at: nat) {
    0 < at < |text| && !Blank(text[at - 1]) && !Blank(text[at])
  }

  /** The first character that is not blank, at or after `start`. */
  function FirstInk(text: string, start: nat): (f: nat)
    requires start <= |text|
    ensures start <= f <= |text| && (f < |text| ==> !Blank(text[f]))
    ensures forall i :: start <= i < f ==> Blank(text[i])
    decreases |text| - start
  {
    if start < |text| && Blank(text[start]) then FirstInk(text, start + 1) else start
  }

  /**
   A line cuts a word exactly when its first ink lies in the 61 characters from its start on and
   nothing is blank from there to the character after those.
   */
  lemma WordsAreCutIff(text: string, start: nat)
    requires start <= |text|
    ensures var l, f := Line(text, start), FirstInk(text, start);
            l.1 > 0 && CutsWord(text, l.0 + l.1) <==>
            f <= start + MAX_LEN && start + MAX_LEN + 1 < |text| && forall i :: f <= i <= start + MAX_LEN + 1 ==> !Blank(text[i])
  {
    hide Line, FirstInk;
    LineIsLine(text, start);
    var l, f, eol := Line(text, start), FirstInk(text, start), Eol(text, start);
    if f < eol {
      assert l.0 == f;
    } else {
      assert l.0 == eol;
    }
  }

  /** The lines print_param_help prints from `start` on. */
  function Wrap(text: string, start: nat): seq<string>
    requires start <= |text|
    decreases |text| - start
  {
    LineAdvances(text, start);
    var l := Line(text, start);
    if l.0 >= |text| then [] else [text[l.0..l.0 + l.1]] + Wrap(text, l.0 + l.1)
  }

  /** The lines are the stretches of the text that IsLine describes, each cut where the one before it ended. */
  ghost predicate IsCut(text: string, start: nat, lines: seq<string>)
    requires start <= |text|
    decreases |lines|
  {
    if lines == [] then forall i :: start <= i < |text| ==> Blank(text[i])
    else
      exists s: nat, len: nat {:trigger IsLine(text, start, s, len)} ::
        IsLine(text, start, s, len) && s < |text| && lines[0] == text[s..s + len] && IsCut(text, s + len, lines[1..])
  }

  lemma {:induction false} WrapIsCut(text: string, start: nat)
    requires start <= |text|
    ensures IsCut(text, start, Wrap(text, start))
    decreases |text| - start
  {
    hide Line;
    LineAdvances(text, start);
    LineIsLine(text, start);
    var l := Line(text, start);
    if l.0 < |text| {
      WrapIsCut(text, l.0 + l.1);
      assert Wrap(text, start)[1..] == Wrap(text, l.0 + l.1);
    }
  }

  function Ink(text: string): string {
    if text == [] then [] else (if Blank(text[0]) then [] else [text[0]]) + Ink(text[1..])
  }

  function Flat(lines: seq<string>): string {
    if lines == [] then [] else lines[0] + Flat(lines[1..])
  }

  lemma {:induction false} InkOfBoth(a: string, b: string)
    ensures Ink(a + b) == Ink(a) + Ink(b)
    decreases |a|
  {
    if a == [] {
      assert a + b == b;
    } else {
      assert (a + b)[1..] == a[1..] + b;
      InkOfBoth(a[1..], b);
    }
  }

  lemma {:induction false} InkOfBlank(a: string)
    requires forall i :: 0 <= i < |a| ==> Blank(a[i])
    ensures Ink(a) == []
    decreases |a|
  {
    if a != [] {
      InkOfBlank(a[1..]);
    }
  }

  /** A line holds no line break, and only blanks are passed over to get to it. */
  lemma LineBetweenBlanks(text: string, start: nat)
    requires start <= |text|
    ensures var l := Line(text, start);
            && start <= l.0 && l.0 + l.1 <= |text| && l.1 <= MAX_LEN + 1
            && Ink(text[start..l.0]) == [] && '\n' !in text[l.0..l.0 + l.1]
  {
    hide Line, Ink;
    LineIsLine(text, start);
    InkOfBlank(text[start..Line(text, start).0]);
  }

  /** Nothing but spaces and line breaks is lost, and nothing is added. */
  lemma {:induction false} WrapKeepsInk(text: string, start: nat)
    requires start <= |text|
    ensures Ink(Flat(Wrap(text, start))) == Ink(text[start..])
    decreases |text| - start
  {
    hide Line, Ink, Blank;
    LineBetweenBlanks(text, start);
    LineAdvances(text, start);
    var l := Line(text, start);
    var gap, rest := text[start..l.0], text[l.0..];
    assert text[start..] == gap + rest;
    InkOfBoth(gap, rest);
    if l.0 < |text| {
      var line, more := text[l.0..l.0 + l.1], text[l.0 + l.1..];
      assert rest == line + more;
      InkOfBoth(line, more);
      WrapKeepsInk(text, l.0 + l.1);
      InkOfBoth(line, Flat(Wrap(text, l.0 + l.1)));
      assert Wrap(text, start)[1..] == Wrap(text, l.0 + l.1);
    } else {
      assert rest == [];
      InkOfBlank("");
    }
  }

  /** No line holds a line break or more than 61 characters. */
  lemma {:induction false} LinesAreShort(text: string, start: nat)
    requires start <= |text|
    ensures forall line :: line in Wrap(text, start) ==> |line| <= MAX_LEN + 1 && '\n' !in line
    decreases |text| - start
  {
    hide Line, Ink, Blank;
    LineBetweenBlanks(text, start);
    LineAdvances(text, start);
    var l := Line(text, start);
    if l.0 < |text| {
      LinesAreShort(text, l.0 + l.1);
      var line, more := text[l.0..l.0 + l.1], Wrap(text, l.0 + l.1);
      assert Wrap(text, start) == [line] + more;
      hide Wrap;
      assert |line| == l.1;
    }
  }

  function Spaces(n: nat): (s: string)
    ensures |s| == n && forall i :: 0 <= i < n ==> s[i] == ' '
  {
    seq(n, _ => ' ')
  }

  /** A window of spaces and then ink: the line is the ink up to the window's end. */
  lemma InkAtTheEnd(text: string, start: nat, f: nat)
    requires start <= f < |text| && f <= Eol(text, start)
    requires (forall i :: start <= i < f ==> text[i] == ' ') && forall i :: f <= i < |text| ==> !Blank(text[i])
    ensures Line(text, start) == (f, if Eol(text, start) < |text| then Eol(text, start) + 1 - f else |text| - f)
  {
    LineIsLine(text, start);
    hide Line;
    var s := Line(text, start).0;
    assert !Blank(text[f]);
    assert forall i :: start <= i < f ==> Blank(text[i]);
    assert s == f;
  }

  /** A word of six letters is cut in two, although it is short, because blanks used up the window. */
  lemma ShortWordIsCut()
    ensures Wrap(Spaces(58) + "abcdef", 0) == ["abc", "def"]
  {
    hide Line;
    var text := Spaces(58) + "abcdef";
    forall i | 58 <= i < 64 ensures !Blank(text[i]) {
      assert text[i] == "abcdef"[i - 58];
    }
    InkAtTheEnd(text, 0, 58);
    InkAtTheEnd(text, 61, 61);
    LineIsLine(text, 64);
    assert Wrap(text, 64) == [];
    assert text[58..61] == "abc" && text[61..64] == "def";
  }

  /** get_line */
  method GetLine(text: string, start: nat) returns (s: nat, len: nat)
    requires start <= |text|
    ensures (s, len) == Line(text, start)
  {
    var eol := if |text| < start + MAX_LEN then |text| else start + MAX_LEN;
    var lastSpace: nat := MAX_LEN + 1;
    s, len := start, 0;
    while s < eol && Blank(text[s])
      invariant start <= s <= eol
      invariant Skip(text, start, eol) == Skip(text, s, eol)
    {
      s := s + 1;
    }
    var p := s;
    while p <= eol
      invariant s <= p <= eol + 1 && len == p - s
      invariant Scan(text, s, s, eol, MAX_LEN + 1) == Scan(text, s, p, eol, lastSpace)
    {
      if p == |text| || text[p] == '\n' {
        return;
      }
      if text[p] == ' ' {
        lastSpace := len;
      }
      len := len + 1;
      p := p + 1;
    }
    len := if lastSpace < len then lastSpace else len;
  }

  /** print_param_help */
  method PrintParamHelp(help: string) returns (lines: seq<string>)
    ensures lines == Wrap(help, 0) && IsCut(help, 0, lines)
  {
    hide Line, IsCut, IsLine;
    var start, len := GetLine(help, 0);
    lines := [];
    LineAdvances(help, 0);
    ghost var from := 0;
    while start < |help|
      invariant from <= |help| && (start, len) == Line(help, from) && start + len <= |help|
      invariant start < |help| ==> start + len > from
      invariant Wrap(help, 0) == lines + Wrap(help, from)
      decreases |help| - from
    {
      var line, more := help[start..start + len], Wrap(help, start + len);
      assert lines + ([line] + more) == lines + [line] + more;
      lines := lines + [line];
      start := start + len;
      from := start;
      LineAdvances(help, from);
      start, len := GetLine(help, start);
    }
    WrapIsCut(help, 0);
  }
}
