/** flipper/cli/cli.c: the line editor of the command line.  It keeps the line and
    the cursor on its own side and sends the terminal what brings the other side to
    the same state. */
module CliEditor {
  import opened Terminals

  const SOH: char := '\U{0001}'
  const ETX: char := '\U{0003}'
  const EOT: char := '\U{0004}'
  const BACKSPACE: char := '\U{0008}'
  const TAB: char := '\U{0009}'
  const DEL: char := '\U{007F}'

  function TrimLeft(s: string): string {
    if s != "" && s[0] == ' ' then TrimLeft(s[1..]) else s
  }

  function TrimRight(s: string): string {
    if s != "" && s[|s| - 1] == ' ' then TrimRight(s[..|s| - 1]) else s
  }

  /** The line without blanks at its ends; it holds no other white space. */
  function Trim(s: string): string {
    TrimRight(TrimLeft(s))
  }

  lemma {:induction false} TrimLeftText(s: string)
    requires Text(s)
    ensures Text(TrimLeft(s))
  {
    if s != "" && s[0] == ' ' {
      TrimLeftText(s[1..]);
    }
  }

  lemma {:induction false} TrimRightText(s: string)
    requires Text(s)
    ensures Text(TrimRight(s))
  {
    if s != "" && s[|s| - 1] == ' ' {
      TrimRightText(s[..|s| - 1]);
    }
  }

  lemma {:induction false} TrimLeftMeans(s: string) returns (i: nat)
    ensures i <= |s| && TrimLeft(s) == s[i..] && (forall k | 0 <= k < i :: s[k] == ' ')
    ensures i < |s| ==> s[i] != ' '
  {
    i := 0;
    if s != "" && s[0] == ' ' {
      i := TrimLeftMeans(s[1..]);
      assert forall k | 0 < k < i + 1 :: s[k] == s[1..][k - 1];
      i := i + 1;
    }
  }

  lemma {:induction false} TrimRightMeans(s: string)
    ensures TrimRight(s) <= s && (forall k | |TrimRight(s)| <= k < |s| :: s[k] == ' ')
    ensures TrimRight(s) != "" ==> TrimRight(s)[|TrimRight(s)| - 1] != ' '
  {
    if s != "" && s[|s| - 1] == ' ' {
      TrimRightMeans(s[..|s| - 1]);
    }
  }

  /** Trimming finds the stretch of the line with only blanks around it that neither
      begins nor ends with a blank. */
  lemma TrimMeans(s: string) returns (i: nat, j: nat)
    ensures i <= j <= |s| && Trim(s) == s[i..j]
    ensures forall k | 0 <= k < i || j <= k < |s| :: s[k] == ' '
    ensures i < j ==> s[i] != ' ' && s[j - 1] != ' '
  {
    i := TrimLeftMeans(s);
    var rest := TrimLeft(s);
    TrimRightMeans(rest);
    j := i + |TrimRight(rest)|;
    assert forall k | i <= k < |s| :: s[k] == rest[k - i];
    assert TrimRight(rest) == rest[..j - i];
  }

  /** The modes of a terminal between two commands. */
  predicate Clean(t: Screen) {
    t.mode == Ground && !t.insert
  }

  lemma BackspaceClean(t: Screen)
    requires Clean(t)
    ensures Clean(Feed(t, CURSOR_LEFT + DELETE_CHAR))
  {
    FeedConcat(t, CURSOR_LEFT, DELETE_CHAR);
    FeedControl(t, 'D');
    FeedControl1(Feed(t, CURSOR_LEFT), '1', 'P');
  }

  lemma InsertClean(t: Screen, c: char)
    requires Clean(t) && Printable(c)
    ensures Clean(Feed(t, [ESC, '[', '4', 'h'] + [c] + [ESC, '[', '4', 'l']))
  {
    var on, off := [ESC, '[', '4', 'h'], [ESC, '[', '4', 'l'];
    FeedConcat(t, on + [c], off);
    FeedConcat(t, on, [c]);
    FeedControl1(t, '4', 'h');
    FeedChar(Feed(t, on), c);
    FeedControl1(Feed(Feed(t, on), [c]), '4', 'l');
  }

  /** The keys after which the two sides differ: end-of-transmission empties the line
      without a new prompt, and so does a completion request on a line of blanks. */
  predicate LosesStep(c: char, line: string) {
    line != "" && (c == EOT || (c == TAB && Trim(line) == ""))
  }

  /** All of the first n commands that begin with base begin with q. */
  ghost predicate Common(commands: seq<string>, n: nat, base: string, q: string)
    requires n <= |commands|
  {
    forall k | 0 <= k < n && base <= commands[k] :: q <= commands[k]
  }

  ghost predicate HasMatch(commands: seq<string>, n: nat, base: string)
    requires n <= |commands|
  {
    exists k :: 0 <= k < n && base <= commands[k]
  }

  /** result is what `base` can be completed to: the longest text that all commands
      beginning with it have in common. */
  ghost predicate Completes(commands: seq<string>, n: nat, base: string, result: string)
    requires n <= |commands|
  {
    && base <= result && Common(commands, n, base, result)
    && if HasMatch(commands, n, base) then forall q | Common(commands, n, base, q) :: |q| <= |result|
       else result == base
  }

  /** The loop's invariant: an empty text stands for no match yet. */
  ghost predicate SoFar(commands: seq<string>, n: nat, base: string, common: string)
    requires n <= |commands|
  {
    && (HasMatch(commands, n, base) <==> common != "")
    && Completes(commands, n, base, if common == "" then base else common)
  }

  lemma FewerCommon(commands: seq<string>, n: nat, base: string, q: string)
    requires n < |commands| && Common(commands, n + 1, base, q)
    ensures Common(commands, n, base, q) && (base <= commands[n] ==> q <= commands[n])
  {
  }

  lemma MoreCommon(commands: seq<string>, n: nat, base: string, q: string)
    requires n < |commands| && Common(commands, n, base, q) && (base <= commands[n] ==> q <= commands[n])
    ensures Common(commands, n + 1, base, q)
  {
  }

  lemma OneMoreMatch(commands: seq<string>, n: nat, base: string)
    requires n < |commands|
    ensures HasMatch(commands, n + 1, base) <==> HasMatch(commands, n, base) || base <= commands[n]
  {
  }

  lemma CompletesMore(commands: seq<string>, n: nat, base: string, result: string)
    requires n < |commands| && !(base <= commands[n]) && Completes(commands, n, base, result)
    ensures Completes(commands, n + 1, base, result)
  {
    OneMoreMatch(commands, n, base);
    MoreCommon(commands, n, base, result);
    forall q | Common(commands, n + 1, base, q) ensures Common(commands, n, base, q) {
      FewerCommon(commands, n, base, q);
    }
  }

  /** The first match is the completion so far. */
  lemma CompletesFirst(commands: seq<string>, n: nat, base: string)
    requires n < |commands| && base <= commands[n] && !HasMatch(commands, n, base)
    ensures Completes(commands, n + 1, base, commands[n])
  {
    MoreCommon(commands, n, base, commands[n]);
    forall q | Common(commands, n + 1, base, q) ensures |q| <= |commands[n]| {
      FewerCommon(commands, n, base, q);
    }
  }

  lemma PrefixAt(q: string, s: string, i: nat)
    requires q <= s && i < |q|
    ensures i < |s| && q[i] == s[i]
  {
  }

  /** Every further match cuts it to what they have in common. */
  lemma CompletesCut(commands: seq<string>, n: nat, base: string, result: string, i: nat)
    requires n < |commands| && base <= commands[n] && HasMatch(commands, n, base)
    requires Completes(commands, n, base, result) && i <= |result| && i <= |commands[n]|
    requires result[..i] == commands[n][..i]
    requires i == |result| || i == |commands[n]| || result[i] != commands[n][i]
    ensures Completes(commands, n + 1, base, result[..i])
  {
    OneMoreMatch(commands, n, base);
    BaseRemains(base, result, commands[n], i);
    CutIsCommon(commands, n, base, result, i);
    forall q | Common(commands, n + 1, base, q) ensures |q| <= i {
      LongestCommon(commands, n, base, result, q, i);
    }
  }

  lemma BaseRemains(base: string, result: string, key: string, i: nat)
    requires base <= result && base <= key && i <= |result| && i <= |key|
    requires i == |result| || i == |key| || result[i] != key[i]
    ensures base <= result[..i]
  {
    if |base| > i {
      PrefixAt(base, result, i);
      PrefixAt(base, key, i);
    }
  }

  lemma CutIsCommon(commands: seq<string>, n: nat, base: string, result: string, i: nat)
    requires n < |commands| && Common(commands, n, base, result) && i <= |result| && i <= |commands[n]|
    requires result[..i] == commands[n][..i]
    ensures Common(commands, n + 1, base, result[..i])
  {
    forall k | 0 <= k < n && base <= commands[k] ensures result[..i] <= commands[k] {
      assert result <= commands[k];
    }
    MoreCommon(commands, n, base, result[..i]);
  }

  lemma LongestCommon(commands: seq<string>, n: nat, base: string, result: string, q: string, i: nat)
    requires n < |commands| && base <= commands[n] && HasMatch(commands, n, base)
    requires Completes(commands, n, base, result) && i <= |result| && i <= |commands[n]|
    requires i == |result| || i == |commands[n]| || result[i] != commands[n][i]
    requires Common(commands, n + 1, base, q)
    ensures |q| <= i
  {
    FewerCommon(commands, n, base, q);
    var m :| 0 <= m < n && base <= commands[m];
    assert q <= commands[m] && result <= commands[m];
    if |q| > i && i < |result| {
      PrefixAt(q, commands[n], i);
      PrefixAt(q, commands[m], i);
      PrefixAt(result, commands[m], i);
    }
  }

  /** What the editor keeps. */
  datatype Side = Side(line: string, cursor: nat, lastLine: string)

  class Cli {
    var line: string
    var lastLine: string
    var cursor: nat
    const commands: seq<string>
    /** the other side */
    ghost var screen: Screen

    constructor (commands: seq<string>, screen: Screen)
      requires Clean(screen) && forall k | 0 <= k < |commands| :: Text(commands[k]) && commands[k] != ""
      ensures Valid() && line == lastLine == "" && cursor == 0 && this.commands == commands
    {
      this.commands, this.screen := commands, screen;
      line, lastLine, cursor := "", "", 0;
    }

    ghost predicate Valid()
      reads this
    {
      && Text(line) && Text(lastLine) && cursor <= |line| && Clean(screen)
      && forall k | 0 <= k < |commands| :: Text(commands[k]) && commands[k] != ""
    }

    ghost function OurSide(): Side
      reads this
    {
      Side(line, cursor, lastLine)
    }

    /** The terminal shows the prompt and the line, with its cursor in the same place. */
    ghost predicate InStep()
      reads this
    {
      Showing(screen, PROMPT + line, |PROMPT| + cursor)
    }

    method Print(s: string)
      modifies this`screen
      ensures screen == Feed(old(screen), s)
    {
      screen := Feed(screen, s);
    }

    method PutBell()
      requires Valid()
      modifies this`screen
      ensures Valid() && screen == old(screen)
    {
      FeedChar(screen, BEL);
      Print([BEL]);
    }

    /** A new prompt brings both sides together. */
    method Prompt()
      requires Valid() && cursor == |line|
      modifies this`screen
      ensures Valid() && InStep()
    {
      FeedPrompt(screen, line);
      Print([CR, LF] + (PROMPT + line));
    }

    method Reset()
      requires Valid()
      modifies this
      ensures Valid() && lastLine == old(line) && line == "" && cursor == 0 && screen == old(screen)
    {
      lastLine := line;
      line := "";
      cursor := 0;
    }

    method HandleBackspace()
      requires Valid()
      modifies this
      ensures Valid() && lastLine == old(lastLine)
      ensures if old(cursor) > 0
              then line == old(line)[..old(cursor) - 1] + old(line)[old(cursor)..] && cursor == old(cursor) - 1
              else line == old(line) && cursor == 0
      ensures old(InStep()) ==> InStep()
    {
      if cursor > 0 {
        BackspaceClean(screen);
        if InStep() {
          FeedBackspace(screen, PROMPT + line, |PROMPT| + cursor);
          CutAfterPrompt(line, cursor);
        }
        Print(CURSOR_LEFT + DELETE_CHAR);
        line := line[..cursor - 1] + line[cursor..];
        cursor := cursor - 1;
      } else {
        PutBell();
      }
    }

    method HandlePrintable(c: char)
      requires Valid() && Printable(c)
      modifies this
      ensures Valid() && lastLine == old(lastLine)
      ensures line == old(line)[..old(cursor)] + [c] + old(line)[old(cursor)..] && cursor == old(cursor) + 1
      ensures old(InStep()) ==> InStep()
    {
      if cursor == |line| {
        FeedPlain(screen, [c]);
        if InStep() {
          FeedText(screen, PROMPT + line, [c]);
          assert PROMPT + line + [c] == PROMPT + (line + [c]);
        }
        assert line[..cursor] + [c] + line[cursor..] == line + [c];
        line := line + [c];
        Print([c]);
      } else {
        InsertClean(screen, c);
        if InStep() {
          FeedInsert(screen, PROMPT + line, |PROMPT| + cursor, c);
          InsertAfterPrompt(line, cursor, c);
        }
        line := line[..cursor] + [c] + line[cursor..];
        Print([ESC, '[', '4', 'h'] + [c] + [ESC, '[', '4', 'l']);
      }
      cursor := cursor + 1;
    }

    /** The cursor keys, and "up" on an empty line, which brings the last line back. */
    method HandleEscape(c: char)
      requires Valid()
      modifies this
      ensures Valid() && lastLine == old(lastLine)
      ensures c == 'A' && old(line) == "" ==> line == lastLine && cursor == |line|
      ensures c != 'A' || old(line) != "" ==> line == old(line)
      ensures c == 'C' ==> cursor == if old(cursor) < |line| then old(cursor) + 1 else old(cursor)
      ensures c == 'D' ==> cursor == if old(cursor) > 0 then old(cursor) - 1 else 0
      ensures c !in "ACD" || (c == 'A' && old(line) != "") ==> cursor == old(cursor)
      ensures old(InStep()) ==> InStep()
    {
      if c == 'A' {
        if line == "" && line != lastLine {
          FeedPlain(screen, lastLine);
          if InStep() {
            assert PROMPT + line == PROMPT;
            FeedText(screen, PROMPT, lastLine);
          }
          line := lastLine;
          cursor := |line|;
          Print(line);
        }
      } else if c == 'B' {
      } else if c == 'C' {
        if cursor < |line| {
          cursor := cursor + 1;
          FeedControl(screen, 'C');
          Print(CURSOR_RIGHT);
        }
      } else if c == 'D' {
        if cursor > 0 {
          cursor := cursor - 1;
          FeedControl(screen, 'D');
          Print(CURSOR_LEFT);
        }
      }
    }

    method PrintPlain(s: string)
      requires Valid() && Plain(s)
      modifies this`screen
      ensures Valid()
    {
      FeedPlain(screen, s);
      Print(s);
    }

    method NormalizeLine()
      requires Valid()
      modifies this
      ensures Valid() && line == Trim(old(line)) && cursor == |line|
      ensures lastLine == old(lastLine) && screen == old(screen)
    {
      TrimLeftText(line);
      TrimRightText(TrimLeft(line));
      line := Trim(line);
      cursor := |line|;
    }

    /** `output` is what the command prints, or the message that there is none. */
    method HandleEnter(output: string) returns (found: bool)
      requires Valid() && Plain(output)
      modifies this
      ensures Valid() && InStep() && line == ""
      ensures lastLine == if Trim(old(line)) == "" then old(lastLine) else Trim(old(line))
      ensures found <==> Trim(old(line)) != "" && FirstWord(Trim(old(line))) in commands
    {
      NormalizeLine();
      found := false;
      if line == "" {
        Prompt();
        return;
      }
      var ws := SearchChar(line, ' ');
      FirstWordEnds(line, ws);
      found := line[..ws] in commands;
      PrintPlain([CR, LF]);
      PrintPlain(output);
      if !found {
        PutBell();
      }
      Reset();
      Prompt();
    }

    /** Lists command n if it begins with the line, and cuts the completion. */
    method Consider(n: nat, common: string) returns (shorter: string)
      requires Valid() && line != "" && n < |commands| && SoFar(commands, n, line, common)
      modifies this`screen
      ensures Valid() && SoFar(commands, n + 1, line, shorter)
    {
      OneMoreMatch(commands, n, line);
      if !(line <= commands[n]) {
        CompletesMore(commands, n, line, if common == "" then line else common);
        return common;
      }
      PrintPlain(commands[n] + [CR, LF]);
      if common == "" {
        CompletesFirst(commands, n, line);
        return commands[n];
      }
      var i := CommonLength(commands[n], common);
      CompletesCut(commands, n, line, common, i);
      return common[..i];
    }

    /** Lists the commands that begin with the line, and extends the line to what
        they have in common. */
    method HandleAutocomplete()
      requires Valid()
      modifies this
      ensures Valid() && lastLine == old(lastLine) && cursor == |line|
      ensures var base := Trim(old(line));
              if base == "" then line == "" && screen == old(screen)
              else InStep() && Completes(commands, |commands|, base, line)
    {
      NormalizeLine();
      if line == "" {
        return;
      }
      PrintPlain([CR, LF]);
      var common := "";
      for n := 0 to |commands|
        invariant Valid() && line == Trim(old(line)) && lastLine == old(lastLine) && cursor == |line|
        invariant SoFar(commands, n, line, common)
      {
        common := Consider(n, common);
      }
      if |common| > |line| {
        CompletionIsText(commands, line, common);
        line := common;
        cursor := |line|;
      }
      Prompt();
    }

    /** One key.  `more` is what follows an escape character, `output` what a command
        prints. */
    method ProcessInput(c: char, more: string, output: string)
      requires Valid() && Plain(output)
      modifies this
      ensures Valid()
      ensures old(InStep()) ==> (InStep() <==> !LosesStep(c, old(line)))
      ensures ' ' <= c <= '~' ==>
        && line == old(line)[..old(cursor)] + [c] + old(line)[old(cursor)..]
        && cursor == old(cursor) + 1 && lastLine == old(lastLine)
      ensures c in [BACKSPACE, DEL] ==>
        && lastLine == old(lastLine) && cursor == (if old(cursor) > 0 then old(cursor) - 1 else 0)
        && line == old(line)[..cursor] + old(line)[old(cursor)..]
      ensures c == ESC && "[A" <= more && old(line) == "" ==>
        line == lastLine == old(lastLine) && cursor == |line|
      ensures c == ESC && "[C" <= more ==>
        && line == old(line) && lastLine == old(lastLine)
        && cursor == if old(cursor) < |line| then old(cursor) + 1 else old(cursor)
      ensures c == ESC && "[D" <= more ==>
        && line == old(line) && lastLine == old(lastLine)
        && cursor == if old(cursor) > 0 then old(cursor) - 1 else 0
      ensures c == ESC && !("[C" <= more) && !("[D" <= more) && !("[A" <= more && old(line) == "") ==> OurSide() == old(OurSide())
      ensures c == TAB ==>
        && lastLine == old(lastLine) && cursor == |line|
        && if Trim(old(line)) == "" then line == "" else Completes(commands, |commands|, Trim(old(line)), line)
      ensures c == LF ==>
        && InStep() && line == "" && cursor == 0
        && lastLine == if Trim(old(line)) == "" then old(lastLine) else Trim(old(line))
      ensures c in [ETX, EOT] ==> line == "" && cursor == 0 && lastLine == old(line)
      ensures c == ETX ==> InStep()
      ensures !(' ' <= c <= '~') && c !in [BACKSPACE, DEL, ESC, TAB, LF, ETX, EOT] ==> OurSide() == old(OurSide())
    {
      PromptTells(line, "");
      if c == TAB {
        HandleAutocomplete();
      } else if c == SOH {
      } else if c == ETX {
        Reset();
        Prompt();
      } else if c == EOT {
        Reset();
      } else if c == ESC {
        if |more| > 0 && more[0] == '[' {
          HandleEscape(if |more| > 1 then more[1] else '[');
        } else {
          PutBell();
        }
      } else if c == BACKSPACE || c == DEL {
        HandleBackspace();
      } else if c == LF {
        var _ := HandleEnter(output);
      } else if Printable(c) {
        HandlePrintable(c);
      } else {
        PutBell();
      }
    }
  }

  lemma PromptTells(a: string, b: string)
    ensures PROMPT + a == PROMPT + b <==> a == b
  {
    assert (PROMPT + a)[|PROMPT|..] == a && (PROMPT + b)[|PROMPT|..] == b;
  }

  lemma CutAfterPrompt(line: string, cursor: nat)
    requires 0 < cursor <= |line|
    ensures (PROMPT + line)[..|PROMPT| + cursor - 1] + (PROMPT + line)[|PROMPT| + cursor..]
         == PROMPT + (line[..cursor - 1] + line[cursor..])
  {
  }

  lemma InsertAfterPrompt(line: string, cursor: nat, c: char)
    requires cursor <= |line|
    ensures (PROMPT + line)[..|PROMPT| + cursor] + [c] + (PROMPT + line)[|PROMPT| + cursor..]
         == PROMPT + (line[..cursor] + [c] + line[cursor..])
  {
  }

  lemma CompletionIsText(commands: seq<string>, base: string, result: string)
    requires HasMatch(commands, |commands|, base) && Common(commands, |commands|, base, result)
    requires forall k | 0 <= k < |commands| :: Text(commands[k])
    ensures Text(result)
  {
    var m :| 0 <= m < |commands| && base <= commands[m];
    assert result <= commands[m];
  }

  /** The place of the first c, or the end. */
  method SearchChar(s: string, c: char) returns (i: nat)
    ensures i <= |s| && (i < |s| ==> s[i] == c) && c !in s[..i]
  {
    i := 0;
    while i < |s| && s[i] != c
      invariant i <= |s| && c !in s[..i]
    {
      i := i + 1;
    }
  }

  /** How far a and b agree. */
  method CommonLength(a: string, b: string) returns (i: nat)
    ensures i <= |a| && i <= |b| && b[..i] == a[..i]
    ensures i == |b| || i == |a| || b[i] != a[i]
  {
    i := 0;
    while i < |a| && i < |b| && a[i] == b[i]
      invariant i <= |a| && i <= |b| && b[..i] == a[..i]
    {
      i := i + 1;
    }
  }

  function FirstWord(s: string): string {
    if s == "" || s[0] == ' ' then "" else [s[0]] + FirstWord(s[1..])
  }

  lemma {:induction false} FirstWordEnds(s: string, ws: nat)
    requires ws <= |s| && (ws < |s| ==> s[ws] == ' ') && ' ' !in s[..ws]
    ensures FirstWord(s) == s[..ws]
  {
    if ws > 0 {
      assert s[0] == s[..ws][0];
      assert s[1..][..ws - 1] == s[..ws][1..];
      FirstWordEnds(s[1..], ws - 1);
    }
  }

  lemma {:induction false} FirstWordMeans(s: string)
    ensures FirstWord(s) <= s && ' ' !in FirstWord(s)
    ensures |FirstWord(s)| < |s| ==> s[|FirstWord(s)|] == ' '
  {
    if s != "" && s[0] != ' ' {
      FirstWordMeans(s[1..]);
    }
  }

  // ---- typing ----

  datatype Key = Key(c: char, more: string, output: string)

  /** Printable characters, backspace, the cursor keys, and the keys that end a line
      with a new prompt. */
  predicate KeepsStep(k: Key) {
    Printable(k.c) || k.c in [BACKSPACE, DEL, ESC, LF, ETX, SOH]
  }

  /** What such a key makes of the editor's side. */
  function Edit(s: Side, k: Key): (r: Side)
    requires s.cursor <= |s.line|
    ensures r.cursor <= |r.line|
  {
    if Printable(k.c) then s.(line := s.line[..s.cursor] + [k.c] + s.line[s.cursor..], cursor := s.cursor + 1)
    else if k.c == BACKSPACE || k.c == DEL then
      if s.cursor > 0 then s.(line := s.line[..s.cursor - 1] + s.line[s.cursor..], cursor := s.cursor - 1) else s
    else if k.c == ESC then Recall(s, k.more)
    else if k.c == LF then Side("", 0, if Trim(s.line) == "" then s.lastLine else Trim(s.line))
    else if k.c == ETX then Side("", 0, s.line)
    else s
  }

  function Recall(s: Side, more: string): (r: Side)
    requires s.cursor <= |s.line|
    ensures r.cursor <= |r.line|
  {
    if "[A" <= more && s.line == "" then Side(s.lastLine, |s.lastLine|, s.lastLine)
    else if "[C" <= more && s.cursor < |s.line| then s.(cursor := s.cursor + 1)
    else if "[D" <= more && s.cursor > 0 then s.(cursor := s.cursor - 1)
    else s
  }

  function Typed(s: Side, keys: seq<Key>): (r: Side)
    requires s.cursor <= |s.line|
    ensures r.cursor <= |r.line|
    decreases |keys|
  {
    if keys == [] then s else Edit(Typed(s, keys[..|keys| - 1]), keys[|keys| - 1])
  }

  method Press(cli: Cli, k: Key)
    requires cli.Valid() && cli.InStep() && KeepsStep(k) && Plain(k.output)
    modifies cli
    ensures cli.Valid() && cli.InStep() && cli.OurSide() == Edit(old(cli.OurSide()), k)
  {
    cli.ProcessInput(k.c, k.more, k.output);
  }

  lemma TypedNext(s: Side, keys: seq<Key>, i: nat)
    requires s.cursor <= |s.line| && i < |keys|
    ensures Typed(s, keys[..i + 1]) == Edit(Typed(s, keys[..i]), keys[i])
  {
    assert keys[..i + 1][..i] == keys[..i];
  }

  /** Whatever is typed of these keys, the two sides are in step after each, and the line
      and its cursor are what the keys make of them one by one. */
  method Type(cli: Cli, keys: seq<Key>)
    requires cli.Valid() && cli.InStep()
    requires forall k | 0 <= k < |keys| :: KeepsStep(keys[k]) && Plain(keys[k].output)
    modifies cli
    ensures cli.Valid() && cli.InStep()
    ensures cli.OurSide() == Typed(old(cli.OurSide()), keys)
  {
    ghost var start := cli.OurSide();
    for i := 0 to |keys|
      invariant cli.Valid() && cli.InStep() && cli.OurSide() == Typed(start, keys[..i])
    {
      TypedNext(start, keys, i);
      Press(cli, keys[i]);
    }
    assert keys[..|keys|] == keys;
  }

  function TextKeys(text: string): seq<Key> {
    seq(|text|, i requires 0 <= i < |text| => Key(text[i], "", ""))
  }

  function Backspaces(n: nat): seq<Key> {
    seq(n, _ => Key(BACKSPACE, "", ""))
  }

  /** Typing a text inserts it at the cursor and leaves the cursor behind it. */
  lemma {:induction false} TypingInserts(s: Side, text: string)
    requires s.cursor <= |s.line| && Text(text)
    ensures Typed(s, TextKeys(text)) ==
              Side(s.line[..s.cursor] + text + s.line[s.cursor..], s.cursor + |text|, s.lastLine)
    decreases |text|
  {
    if text == "" {
      assert s.line[..s.cursor] + "" + s.line[s.cursor..] == s.line;
    } else {
      var n := |text| - 1;
      TypingInserts(s, text[..n]);
      TextKeysNext(text);
      InsertedNext(s, text[..n], text[n]);
      assert text[..n] + [text[n]] == text;
    }
  }

  /** Typed into a fresh prompt it is the line, with the cursor at its end. */
  lemma TypingIntoEmpty(lastLine: string, text: string)
    requires Text(text)
    ensures Typed(Side("", 0, lastLine), TextKeys(text)) == Side(text, |text|, lastLine)
  {
    TypingInserts(Side("", 0, lastLine), text);
    assert "" + text + "" == text;
  }

  lemma TextKeysNext(text: string)
    requires text != ""
    ensures var n := |text| - 1;
            TextKeys(text)[..n] == TextKeys(text[..n]) && TextKeys(text)[n] == Key(text[n], "", "")
  {
  }

  lemma InsertedNext(s: Side, start: string, c: char)
    requires s.cursor <= |s.line| && Printable(c)
    ensures Edit(Side(s.line[..s.cursor] + start + s.line[s.cursor..], s.cursor + |start|, s.lastLine), Key(c, "", ""))
         == Side(s.line[..s.cursor] + (start + [c]) + s.line[s.cursor..], s.cursor + |start + [c]|, s.lastLine)
  {
    var before, after := s.line[..s.cursor], s.line[s.cursor..];
    var line, at := before + start + after, s.cursor + |start|;
    assert line[..at] == before + start && line[at..] == after;
    assert before + start + [c] + after == before + (start + [c]) + after;
  }

  lemma RemovedLast(s: Side, start: string, text: string)
    requires s.cursor <= |s.line| && text != "" && start == text[..|text| - 1]
    ensures Edit(Side(s.line[..s.cursor] + text + s.line[s.cursor..], s.cursor + |text|, s.lastLine), Key(BACKSPACE, "", ""))
         == Side(s.line[..s.cursor] + start + s.line[s.cursor..], s.cursor + |start|, s.lastLine)
  {
    var before, after := s.line[..s.cursor], s.line[s.cursor..];
    var line, at := before + text + after, s.cursor + |text|;
    assert line[..at - 1] == before + start && line[at..] == after;
  }

  /** Backspaces take it out again, from its end ... */
  lemma {:induction false} BackspacesTake(s: Side, text: string, n: nat)
    requires s.cursor <= |s.line| && Text(text) && n <= |text|
    ensures Typed(Typed(s, TextKeys(text)), Backspaces(n)) == Typed(s, TextKeys(text[..|text| - n]))
    decreases n
  {
    if n == 0 {
      assert text[..|text|] == text;
    } else {
      BackspacesTake(s, text, n - 1);
      assert Backspaces(n)[..n - 1] == Backspaces(n - 1);
      BackspaceTakes(s, text, |text| - n);
    }
  }

  lemma BackspaceTakes(s: Side, text: string, kept: nat)
    requires s.cursor <= |s.line| && Text(text) && kept < |text|
    ensures Edit(Typed(s, TextKeys(text[..kept + 1])), Key(BACKSPACE, "", "")) == Typed(s, TextKeys(text[..kept]))
  {
    var typed, start := text[..kept + 1], text[..kept];
    assert typed[..kept] == start;
    TypingInserts(s, typed);
    TypingInserts(s, start);
    RemovedLast(s, start, typed);
  }

  /** ... and as many of them as there are characters restore the line and the cursor. */
  lemma BackspacesUndo(s: Side, text: string)
    requires s.cursor <= |s.line| && Text(text)
    ensures Typed(Typed(s, TextKeys(text)), Backspaces(|text|)) == s
  {
    BackspacesTake(s, text, |text|);
    assert TextKeys(text[..0]) == [];
  }
}
