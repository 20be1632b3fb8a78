/**
 From scancodes to lines (kernel/src/keyboard.rs): the shift state machine, the US QWERTY map and
 the line editor.
 */
module Keyboard {
  import opened Wrappers

  const ESCAPE := '\U{1b}'
  const BACKSPACE := '\U{08}'

  newtype Byte = x: int | 0 <= x < 256

  // --- decoding -------------------------------------------------------------------------

  function ScancodeToChar(code: Byte, shifted: bool): Option<char> {
    match code
    case 0x01 => Some(ESCAPE)
    case 0x0E => Some(BACKSPACE)
    case 0x0F => Some('\t')
    case 0x1C => Some('\n')
    case 0x39 => Some(' ')
    case 0x02 => Some(if shifted then '!' else '1')
    case 0x03 => Some(if shifted then '@' else '2')
    case 0x04 => Some(if shifted then '#' else '3')
    case 0x05 => Some(if shifted then '$' else '4')
    case 0x06 => Some(if shifted then '%' else '5')
    case 0x07 => Some(if shifted then '^' else '6')
    case 0x08 => Some(if shifted then '&' else '7')
    case 0x09 => Some(if shifted then '*' else '8')
    case 0x0A => Some(if shifted then '(' else '9')
    case 0x0B => Some(if shifted then ')' else '0')
    case 0x0C => Some(if shifted then '_' else '-')
    case 0x0D => Some(if shifted then '+' else '=')
    case 0x10 => Some(if shifted then 'Q' else 'q')
    case 0x11 => Some(if shifted then 'W' else 'w')
    case 0x12 => Some(if shifted then 'E' else 'e')
    case 0x13 => Some(if shifted then 'R' else 'r')
    case 0x14 => Some(if shifted then 'T' else 't')
    case 0x15 => Some(if shifted then 'Y' else 'y')
    case 0x16 => Some(if shifted then 'U' else 'u')
    case 0x17 => Some(if shifted then 'I' else 'i')
    case 0x18 => Some(if shifted then 'O' else 'o')
    case 0x19 => Some(if shifted then 'P' else 'p')
    case 0x1A => Some(if shifted then '{' else '[')
    case 0x1B => Some(if shifted then '}' else ']')
    case 0x1E => Some(if shifted then 'A' else 'a')
    case 0x1F => Some(if shifted then 'S' else 's')
    case 0x20 => Some(if shifted then 'D' else 'd')
    case 0x21 => Some(if shifted then 'F' else 'f')
    case 0x22 => Some(if shifted then 'G' else 'g')
    case 0x23 => Some(if shifted then 'H' else 'h')
    case 0x24 => Some(if shifted then 'J' else 'j')
    case 0x25 => Some(if shifted then 'K' else 'k')
    case 0x26 => Some(if shifted then 'L' else 'l')
    case 0x27 => Some(if shifted then ':' else ';')
    case 0x28 => Some(if shifted then '"' else '\'')
    case 0x2B => Some(if shifted then '|' else '\\')
    case 0x2C => Some(if shifted then 'Z' else 'z')
    case 0x2D => Some(if shifted then 'X' else 'x')
    case 0x2E => Some(if shifted then 'C' else 'c')
    case 0x2F => Some(if shifted then 'V' else 'v')
    case 0x30 => Some(if shifted then 'B' else 'b')
    case 0x31 => Some(if shifted then 'N' else 'n')
    case 0x32 => Some(if shifted then 'M' else 'm')
    case 0x33 => Some(if shifted then '<' else ',')
    case 0x34 => Some(if shifted then '>' else '.')
    case 0x35 => Some(if shifted then '?' else '/')
    case _ => None
  }

  predicate ShiftMake(code: Byte) {
    code == 0x2A || code == 0x36
  }

  predicate ShiftBreak(code: Byte) {
    code == 0xAA || code == 0xB6
  }

  /** Row `row` of the keyboard starts at scancode `first`: its keys give the characters of the string in order. */
  ghost predicate Row(first: Byte, shifted: bool, row: string)
    requires |row| <= 256 - first as int
  {
    forall i :: 0 <= i < |row| ==> ScancodeToChar((first as int + i) as Byte, shifted) == Some(row[i])
  }

  /** The US QWERTY layout, row by row, without and with shift. */
  lemma UsQwerty()
    ensures Row(0x02, false, "1234567890-=") && Row(0x02, true, "!@#$%^&*()_+")
    ensures Row(0x10, false, "qwertyuiop[]") && Row(0x10, true, "QWERTYUIOP{}")
    ensures Row(0x1E, false, "asdfghjkl;'") && Row(0x1E, true, "ASDFGHJKL:\"")
    ensures Row(0x2B, false, "\\zxcvbnm,./") && Row(0x2B, true, "|ZXCVBNM<>?")
  {
    hide Row;
    NumberRow();
    ShiftedNumberRow();
    TopRow();
    ShiftedTopRow();
    HomeRow();
    ShiftedHomeRow();
    BottomRow();
    ShiftedBottomRow();
  }

  lemma NumberRow()
    ensures Row(0x02, false, "1234567890-=")
  {
  }

  lemma ShiftedNumberRow()
    ensures Row(0x02, true, "!@#$%^&*()_+")
  {
  }

  lemma TopRow()
    ensures Row(0x10, false, "qwertyuiop[]")
  {
  }

  lemma ShiftedTopRow()
    ensures Row(0x10, true, "QWERTYUIOP{}")
  {
  }

  lemma HomeRow()
    ensures Row(0x1E, false, "asdfghjkl;'")
  {
  }

  lemma ShiftedHomeRow()
    ensures Row(0x1E, true, "ASDFGHJKL:\"")
  {
  }

  lemma BottomRow()
    ensures Row(0x2B, false, "\\zxcvbnm,./")
  {
  }

  lemma ShiftedBottomRow()
    ensures Row(0x2B, true, "|ZXCVBNM<>?")
  {
  }

  /** Escape, backspace, tab, enter and space ignore shift. */
  lemma ControlKeys(shifted: bool)
    ensures ScancodeToChar(0x01, shifted) == Some('\U{1b}') && ScancodeToChar(0x0E, shifted) == Some('\U{08}')
    ensures ScancodeToChar(0x0F, shifted) == Some('\t') && ScancodeToChar(0x1C, shifted) == Some('\n')
    ensures ScancodeToChar(0x39, shifted) == Some(' ')
  {
  }

  /** Exactly these codes produce a character. */
  lemma PrintingCodes(code: Byte, shifted: bool)
    ensures ScancodeToChar(code, shifted).Some? <==>
      0x01 <= code <= 0x1C || 0x1E <= code <= 0x28 || 0x2B <= code <= 0x35 || code == 0x39
  {
  }

  /** The shift keys are 0x2A and 0x36, and a release is the press with bit 7 set. */
  lemma ShiftCodes(code: Byte)
    ensures ShiftMake(code) <==> code == 0x2A || code == 0x36
    ensures ShiftBreak(code) <==> code >= 0x80 && ShiftMake(code - 0x80)
  {
  }

  /** What one scancode does: the new shift state, and the character it produces, if any. */
  function HandleScancode(shift: bool, code: Byte): (bool, Option<char>) {
    if ShiftMake(code) then (true, None)
    else if ShiftBreak(code) then (false, None)
    else if code >= 0x80 then (shift, None)
    else (shift, ScancodeToChar(code, shift))
  }

  function Optional(c: Option<char>): string {
    if c.Some? then [c.value] else []
  }

  /** The shift state and the text after a stream of scancodes. */
  function Decode(codes: seq<Byte>): (bool, string) {
    if codes == [] then (false, [])
    else
      var (shift, text) := Decode(codes[..|codes| - 1]);
      var (shift', c) := HandleScancode(shift, codes[|codes| - 1]);
      (shift', text + Optional(c))
  }

  /** A shift key is pressed at `j`, and none is released between there and `i`. */
  ghost predicate HeldFrom(codes: seq<Byte>, j: nat, i: nat)
    requires j < i <= |codes|
  {
    ShiftMake(codes[j]) && forall k :: j < k < i ==> !ShiftBreak(codes[k])
  }

  /** Shift is down at position `i`: some shift key was pressed before, and none released since. */
  ghost predicate ShiftDown(codes: seq<Byte>, i: nat)
    requires i <= |codes|
  {
    exists j: nat :: j < i && HeldFrom(codes, j, i)
  }

  /** The characters of the keys pressed at positions before `i`, each under the shift in force there. */
  ghost function TextBefore(codes: seq<Byte>, i: nat): string
    requires i <= |codes|
  {
    if i == 0 then []
    else
      TextBefore(codes, i - 1) +
      (if codes[i - 1] >= 0x80 then [] else Optional(ScancodeToChar(codes[i - 1], ShiftDown(codes, i - 1))))
  }

  lemma ShiftKeysAreSilent(code: Byte, shifted: bool)
    requires ShiftMake(code) || ShiftBreak(code)
    ensures ScancodeToChar(code, shifted) == None
  {
  }

  lemma ShiftStep(codes: seq<Byte>, i: nat)
    requires i < |codes|
    ensures ShiftDown(codes, i + 1) <==> ShiftMake(codes[i]) || (ShiftDown(codes, i) && !ShiftBreak(codes[i]))
  {
    if ShiftMake(codes[i]) {
      assert HeldFrom(codes, i, i + 1);
    } else if j: nat :| j < i && HeldFrom(codes, j, i) {
      assert !ShiftBreak(codes[i]) ==> HeldFrom(codes, j, i + 1);
    }
    var next := i + 1;
    if j: nat :| j < next && HeldFrom(codes, j, next) {
      assert j == i || HeldFrom(codes, j, i);
    }
  }

  lemma {:induction false} PrefixText(codes: seq<Byte>, n: nat, i: nat)
    requires i <= n <= |codes|
    ensures TextBefore(codes[..n], i) == TextBefore(codes, i)
  {
    hide ScancodeToChar, ShiftDown;
    if i > 0 {
      PrefixText(codes, n, i - 1);
      PrefixShift(codes, n, i - 1);
    }
  }

  lemma PrefixShift(codes: seq<Byte>, n: nat, i: nat)
    requires i <= n <= |codes|
    ensures ShiftDown(codes[..n], i) == ShiftDown(codes, i)
  {
    forall j: nat | j < i ensures HeldFrom(codes[..n], j, i) == HeldFrom(codes, j, i) {
    }
  }

  lemma NoShiftAtStart(codes: seq<Byte>)
    ensures !ShiftDown(codes, 0)
  {
  }

  /**
   Decoding gives every key the character of the shift state in force at it, which is decided by
   the last shift press or release before it.
   */
  lemma {:induction false} DecodeIsPositional(codes: seq<Byte>)
    ensures Decode(codes) == (ShiftDown(codes, |codes|), TextBefore(codes, |codes|))
  {
    hide ScancodeToChar, ShiftDown;
    if codes == [] {
      NoShiftAtStart(codes);
    } else {
      var n := |codes| - 1;
      DecodeIsPositional(codes[..n]);
      PrefixText(codes, n, n);
      PrefixShift(codes, n, n);
      ShiftStep(codes, n);
      if ShiftMake(codes[n]) || ShiftBreak(codes[n]) {
        ShiftKeysAreSilent(codes[n], ShiftDown(codes, n));
      }
    }
  }

  // --- the line editor --------------------------------------------------------------------

  /** A line after backspaces: each erases the character before it, if any is left. */
  function Folded(s: string): string {
    if s == [] then []
    else
      var line := Folded(s[..|s| - 1]);
      var c := s[|s| - 1];
      if c != BACKSPACE then line + [c] else if line == [] then [] else line[..|line| - 1]
  }

  /** What follows is edited alike after texts that fold alike. */
  lemma {:induction false} FoldedContinues(a: string, a': string, b: string)
    requires Folded(a) == Folded(a')
    ensures Folded(a + b) == Folded(a' + b)
    decreases |b|
  {
    hide Folded;
    if b == [] {
      assert a + b == a && a' + b == a';
    } else {
      var front, c := b[..|b| - 1], b[|b| - 1];
      FoldedContinues(a, a', front);
      assert a + b == (a + front) + [c] && a' + b == (a' + front) + [c];
      FoldedStep(a + front, c);
      FoldedStep(a' + front, c);
    }
  }

  /** A text without backspaces is kept as it is. */
  lemma {:induction false} NothingErased(s: string)
    requires BACKSPACE !in s
    ensures Folded(s) == s
  {
    if s != [] {
      NothingErased(s[..|s| - 1]);
    }
  }

  /** A backspace cancels the character typed before it, anywhere in a text; at its beginning it does nothing. */
  lemma BackspaceErasesOne(a: string, c: char, b: string)
    requires c != '\U{08}'
    ensures Folded(a + [c, '\U{08}'] + b) == Folded(a + b)
    ensures Folded(['\U{08}'] + b) == Folded(b)
  {
    hide Folded;
    FoldedStep(a, c);
    FoldedStep(a + [c], BACKSPACE);
    assert a + [c] + [BACKSPACE] == a + [c, BACKSPACE];
    FoldedContinues(a + [c, BACKSPACE], a, b);
    NothingFolded();
    FoldedStep([], BACKSPACE);
    assert [] + [BACKSPACE] == [BACKSPACE] && [] + b == b;
    FoldedContinues([BACKSPACE], [], b);
  }

  /** The stretches of a text between newlines. */
  function Segments(s: string): (segments: seq<string>)
    ensures |segments| > 0
  {
    if s == [] then [[]]
    else
      var before := Segments(s[..|s| - 1]);
      var c, last := s[|s| - 1], |before| - 1;
      if c == '\n' then before + [[]] else before[..last] + [before[last] + [c]]
  }

  function Joined(segments: seq<string>): string {
    if segments == [] then []
    else if |segments| == 1 then segments[0]
    else Joined(segments[..|segments| - 1]) + ['\n'] + segments[|segments| - 1]
  }

  /** The segments are the text cut at its newlines: joined by newlines they give it back, and they hold none. */
  lemma {:induction false} SegmentsCutAtNewlines(s: string)
    ensures Joined(Segments(s)) == s
    ensures forall i :: 0 <= i < |Segments(s)| ==> '\n' !in Segments(s)[i]
  {
    if s != [] {
      var before := Segments(s[..|s| - 1]);
      var after := Segments(s);
      SegmentsCutAtNewlines(s[..|s| - 1]);
      var last := |before| - 1;
      assert s == s[..|s| - 1] + [s[|s| - 1]];
      if s[|s| - 1] == '\n' {
        assert after[..|after| - 1] == before;
      } else {
        assert after[..last] == before[..last];
      }
    }
  }

  /** The lines returned so far and the line being typed. */
  datatype Editor = Editor(lines: seq<string>, line: string)

  /** What `read_line`, called again and again, does with one more character. */
  function Typed(e: Editor, c: char): Editor {
    if c == '\n' then Editor(e.lines + [e.line], [])
    else if c == BACKSPACE then Editor(e.lines, if e.line == [] then [] else e.line[..|e.line| - 1])
    else Editor(e.lines, e.line + [c])
  }

  function Edited(s: string): Editor {
    if s == [] then Editor([], []) else Typed(Edited(s[..|s| - 1]), s[|s| - 1])
  }

  function FoldedAll(segments: seq<string>): (lines: seq<string>)
    ensures |lines| == |segments|
  {
    seq(|segments|, i requires 0 <= i < |segments| => Folded(segments[i]))
  }

  lemma FoldedAllAppend(segments: seq<string>)
    requires |segments| > 0
    ensures FoldedAll(segments) == FoldedAll(segments[..|segments| - 1]) + [Folded(segments[|segments| - 1])]
  {
    hide Folded;
  }

  lemma FoldedStep(line: string, c: char)
    ensures Folded(line + [c]) ==
      if c != BACKSPACE then Folded(line) + [c]
      else if Folded(line) == [] then [] else Folded(line)[..|Folded(line)| - 1]
  {
    assert (line + [c])[..|line|] == line;
  }

  /** Successive lines are the newline-separated segments of the text, each with its backspaces folded. */
  lemma {:induction false} LinesAreFoldedSegments(s: string)
    ensures var segments := Segments(s); var last := |segments| - 1;
      Edited(s) == Editor(FoldedAll(segments[..last]), Folded(segments[last]))
  {
    hide Folded, FoldedAll;
    if s == [] {
      NothingFolded();
    } else {
      var before, c := Segments(s[..|s| - 1]), s[|s| - 1];
      var last := |before| - 1;
      LinesAreFoldedSegments(s[..|s| - 1]);
      if c == '\n' {
        assert Segments(s)[..last + 1] == before;
        FoldedAllAppend(before);
        NothingFolded();
      } else {
        assert Segments(s)[..last] == before[..last];
        FoldedStep(before[last], c);
      }
    }
  }

  lemma NothingFolded()
    ensures Folded([]) == [] && FoldedAll([]) == []
  {
  }

  /** The line and how many characters it took. */
  datatype Line = Line(text: string, used: nat)

  /**
   `read_line` on the characters that will arrive: it returns at the first newline with the folded
   characters before it, and waits for ever exactly when no newline comes.
   */
  method ReadLine(input: string) returns (r: Option<Line>)
    ensures r.Some? <==> '\n' in input
    ensures r.Some? ==> 0 < r.value.used <= |input| && input[r.value.used - 1] == '\n'
    ensures r.Some? ==> '\n' !in input[..r.value.used - 1] && r.value.text == Folded(input[..r.value.used - 1])
  {
    var line, i := [], 0;
    while i < |input|
      invariant 0 <= i <= |input|
      invariant '\n' !in input[..i] && line == Folded(input[..i])
    {
      var c := input[i];
      assert input[..i + 1][..i] == input[..i];
      i := i + 1;
      if c == '\n' {
        return Some(Line(line, i));
      } else if c == BACKSPACE {
        if line != [] {
          line := line[..|line| - 1];
        }
      } else {
        line := line + [c];
      }
    }
    assert input[..i] == input;
    return None;
  }
}
