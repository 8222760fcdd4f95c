/** The terminal at the other end of the command line: the current row of a screen
    wide enough never to wrap, with the control functions of ECMA-48 that the line
    editor uses: cursor left and right (CUB, 8.3.18; CUF, 8.3.20), delete character
    (DCH, 8.3.26) and insertion-replacement mode (IRM, 7.2.10). */
module Terminals {

  const ESC: char := '\U{001B}'
  const BEL: char := '\U{0007}'
  const CR: char := '\U{000D}'
  const LF: char := '\U{000A}'

  /** Where the terminal is in an escape sequence. */
  datatype Mode = Ground | Escape | Sequence(param: string)

  datatype Screen = Screen(row: string, col: nat, insert: bool, mode: Mode)

  predicate Printable(c: char) {
    ' ' <= c <= '~'
  }

  predicate Text(s: string) {
    forall k | 0 <= k < |s| :: Printable(s[k])
  }

  function Blanks(n: nat): string {
    seq(n, _ => ' ')
  }

  /** The row long enough to have column n. */
  function Padded(row: string, n: nat): string {
    if |row| < n then row + Blanks(n - |row|) else row
  }

  function PutChar(t: Screen, c: char): Screen {
    var row := Padded(t.row, t.col);
    var rest := if t.insert || t.col == |row| then row[t.col..] else row[t.col + 1..];
    t.(row := row[..t.col] + [c] + rest, col := t.col + 1)
  }

  /** A control sequence: ESC [ param final. */
  function Control(t: Screen, param: string, final: char): Screen {
    if final == 'C' && param == "" then t.(col := t.col + 1)
    else if final == 'D' && param == "" then t.(col := if t.col > 0 then t.col - 1 else 0)
    else if final == 'P' && param == "1" then
      if t.col < |t.row| then t.(row := t.row[..t.col] + t.row[t.col + 1..]) else t
    else if final == 'h' && param == "4" then t.(insert := true)
    else if final == 'l' && param == "4" then t.(insert := false)
    else t
  }

  function Receive(t: Screen, c: char): Screen {
    match t.mode
    case Ground =>
      if c == ESC then t.(mode := Escape)
      else if c == CR then t.(col := 0)
      else if c == LF then t.(row := "")
      else if Printable(c) then PutChar(t, c)
      else t
    case Escape => t.(mode := if c == '[' then Sequence("") else Ground)
    case Sequence(param) =>
      if '0' <= c <= '9' || c == ';' then t.(mode := Sequence(param + [c]))
      else Control(t.(mode := Ground), param, c)
  }

  function Feed(t: Screen, s: string): Screen {
    FeedFrom(t, s, 0)
  }

  function FeedFrom(t: Screen, s: string, i: nat): Screen
    requires i <= |s|
    decreases |s| - i
  {
    if i == |s| then t else FeedFrom(Receive(t, s[i]), s, i + 1)
  }

  lemma {:induction false} FeedSplit(t: Screen, a: string, b: string, i: nat)
    requires i <= |a|
    ensures FeedFrom(t, a + b, i) == Feed(FeedFrom(t, a, i), b)
    decreases |a| - i
  {
    if i < |a| {
      FeedSplit(Receive(t, a[i]), a, b, i + 1);
    } else {
      FeedShift(t, a, b, 0);
    }
  }

  lemma {:induction false} FeedShift(t: Screen, a: string, b: string, i: nat)
    requires i <= |b|
    ensures FeedFrom(t, a + b, |a| + i) == FeedFrom(t, b, i)
    decreases |b| - i
  {
    if i < |b| {
      assert (a + b)[|a| + i] == b[i];
      FeedShift(Receive(t, b[i]), a, b, i + 1);
    }
  }

  lemma FeedConcat(t: Screen, a: string, b: string)
    ensures Feed(t, a + b) == Feed(Feed(t, a), b)
  {
    FeedSplit(t, a, b, 0);
  }

  lemma FeedChar(t: Screen, c: char)
    ensures Feed(t, [c]) == Receive(t, c)
  {
    assert FeedFrom(Receive(t, c), [c], 1) == Receive(t, c);
  }

  lemma FeedCons(t: Screen, c: char, s: string)
    ensures Feed(t, [c] + s) == Feed(Receive(t, c), s)
  {
    FeedConcat(t, [c], s);
    FeedChar(t, c);
  }

  /** The terminal shows `text` as its row, in replace mode, with the cursor at col. */
  predicate Showing(t: Screen, text: string, col: nat) {
    t == Screen(text, col, false, Ground)
  }

  /** Text printed at the end of the row is appended. */
  lemma {:induction false} FeedText(t: Screen, before: string, s: string)
    requires Showing(t, before, |before|) && Text(s)
    ensures Showing(Feed(t, s), before + s, |before + s|)
    decreases |s|
  {
    if s == "" {
      assert before + s == before;
    } else {
      var u := Receive(t, s[0]);
      assert u.row == before + [s[0]];
      assert s == [s[0]] + s[1..];
      FeedCons(t, s[0], s[1..]);
      FeedText(u, before + [s[0]], s[1..]);
      assert before + [s[0]] + s[1..] == before + s;
    }
  }

  const CURSOR_LEFT: string := [ESC, '[', 'D']
  const CURSOR_RIGHT: string := [ESC, '[', 'C']
  const DELETE_CHAR: string := [ESC, '[', '1', 'P']

  lemma FeedControl(t: Screen, final: char)
    requires t.mode == Ground && final in "CD"
    ensures Feed(t, [ESC, '[', final]) == Control(t, "", final)
  {
    var s := [ESC, '[', final];
    assert s == [ESC] + ['[', final] && ['[', final] == ['['] + [final];
    FeedCons(t, ESC, ['[', final]);
    FeedCons(Receive(t, ESC), '[', [final]);
    FeedChar(Receive(Receive(t, ESC), '['), final);
  }

  lemma FeedControl1(t: Screen, digit: char, final: char)
    requires t.mode == Ground && '0' <= digit <= '9' && final in "Phl"
    ensures Feed(t, [ESC, '[', digit, final]) == Control(t, [digit], final)
  {
    var s := [ESC, '[', digit, final];
    assert s == [ESC] + ['[', digit, final] && ['[', digit, final] == ['['] + [digit, final];
    assert [digit, final] == [digit] + [final] && "" + [digit] == [digit];
    FeedCons(t, ESC, ['[', digit, final]);
    FeedCons(Receive(t, ESC), '[', [digit, final]);
    FeedCons(Receive(Receive(t, ESC), '['), digit, [final]);
    FeedChar(Receive(Receive(Receive(t, ESC), '['), digit), final);
  }

  /** The five control functions by their effect: cursor right and left, delete the
      character under the cursor, insertion mode on and off. */
  lemma ControlMeans(row: string, col: nat, insert: bool)
    ensures Feed(Screen(row, col, insert, Ground), [ESC, '[', 'C']) == Screen(row, col + 1, insert, Ground)
    ensures Feed(Screen(row, col, insert, Ground), [ESC, '[', 'D'])
         == Screen(row, if col > 0 then col - 1 else 0, insert, Ground)
    ensures Feed(Screen(row, col, insert, Ground), [ESC, '[', '1', 'P'])
         == Screen(if col < |row| then row[..col] + row[col + 1..] else row, col, insert, Ground)
    ensures Feed(Screen(row, col, insert, Ground), [ESC, '[', '4', 'h']) == Screen(row, col, true, Ground)
    ensures Feed(Screen(row, col, insert, Ground), [ESC, '[', '4', 'l']) == Screen(row, col, false, Ground)
  {
    var t := Screen(row, col, insert, Ground);
    FeedControl(t, 'C');
    FeedControl(t, 'D');
    FeedControl1(t, '1', 'P');
    FeedControl1(t, '4', 'h');
    FeedControl1(t, '4', 'l');
  }

  /** A printed character pushes the rest of the row away in insertion mode and replaces
      what is under the cursor otherwise. */
  lemma CharMeans(row: string, col: nat, insert: bool, c: char)
    requires col <= |row| && ' ' <= c <= '~'
    ensures Feed(Screen(row, col, insert, Ground), [c])
         == Screen(row[..col] + [c] + (if insert || col == |row| then row[col..] else row[col + 1..]), col + 1, insert, Ground)
  {
    FeedChar(Screen(row, col, insert, Ground), c);
  }

  /** Backspace: one to the left, then delete. */
  lemma FeedBackspace(t: Screen, row: string, col: nat)
    requires Showing(t, row, col) && 0 < col <= |row|
    ensures Showing(Feed(t, CURSOR_LEFT + DELETE_CHAR), row[..col - 1] + row[col..], col - 1)
  {
    FeedConcat(t, CURSOR_LEFT, DELETE_CHAR);
    FeedControl(t, 'D');
    FeedControl1(Feed(t, CURSOR_LEFT), '1', 'P');
  }

  /** A character between "insert on" and "insert off" goes in at the cursor. */
  lemma FeedInsert(t: Screen, row: string, col: nat, c: char)
    requires Showing(t, row, col) && col <= |row| && Printable(c)
    ensures Showing(Feed(t, [ESC, '[', '4', 'h'] + [c] + [ESC, '[', '4', 'l']), row[..col] + [c] + row[col..], col + 1)
  {
    var on, off := [ESC, '[', '4', 'h'], [ESC, '[', '4', 'l'];
    FeedConcat(t, on + [c], off);
    FeedConcat(t, on, [c]);
    FeedControl1(t, '4', 'h');
    FeedChar(Feed(t, on), c);
    FeedControl1(Feed(Feed(t, on), [c]), '4', 'l');
  }

  /** What plain output may contain. */
  predicate Plain(s: string) {
    forall k | 0 <= k < |s| :: Printable(s[k]) || s[k] in [CR, LF, BEL]
  }

  /** Plain output leaves the modes alone. */
  lemma {:induction false} FeedPlain(t: Screen, s: string)
    requires t.mode == Ground && !t.insert && Plain(s)
    ensures Feed(t, s).mode == Ground && !Feed(t, s).insert
    decreases |s|
  {
    if s != "" {
      assert s == [s[0]] + s[1..];
      FeedCons(t, s[0], s[1..]);
      FeedPlain(Receive(t, s[0]), s[1..]);
    }
  }

  const PROMPT: string := ">: "

  /** A prompt starts a new row. */
  lemma FeedPrompt(t: Screen, line: string)
    requires t.mode == Ground && !t.insert && Text(line)
    ensures Showing(Feed(t, [CR, LF] + (PROMPT + line)), PROMPT + line, |PROMPT + line|)
  {
    FeedConcat(t, [CR, LF], PROMPT + line);
    assert [CR, LF] == [CR] + [LF];
    FeedCons(t, CR, [LF]);
    FeedChar(Receive(t, CR), LF);
    FeedText(Feed(t, [CR, LF]), "", PROMPT + line);
    assert "" + (PROMPT + line) == PROMPT + line;
  }
}
