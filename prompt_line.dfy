/**
 * The input line of the full-screen interface: a text buffer with a
 * cursor, edited key by key, plus the two small rules of the screen around
 * it (which line to scroll to after an insertion, and the tab cycle). The
 * same buffer appears twice: in the blessed screen's keypress handler and
 * in the raw-terminal prompt of `createCustomInput`.
 */
module PromptLine {
  import opened Wrappers
  import opened Text

  /** The buffer and the cursor position inside it. */
  datatype Prompt = Prompt(buffer: string, cursor: int)

  /** The cursor sits between two characters of the buffer, or at either end. */
  predicate Valid(p: Prompt) {
    0 <= p.cursor <= |p.buffer|
  }

  /** A single character with code 32 to 126: what the keypress filter lets through. */
  predicate IsPrintable(c: char) {
    32 <= c as int <= 126
  }

  predicate AllPrintable(s: string) {
    forall i :: 0 <= i < |s| ==> IsPrintable(s[i])
  }

  /** The filter on a key's text: exactly one printable character. */
  predicate IsPrintableKey(ch: string) {
    |ch| == 1 && IsPrintable(ch[0])
  }

  // ---------------------------------------------------------------------
  // The editing closures

  /** clearInput: the empty buffer with the cursor at 0. */
  function Cleared(): (r: Prompt)
    ensures Valid(r) && |r.buffer| == 0 && r.cursor == 0
  {
    Prompt("", 0)
  }

  /** insertChar: the character goes in at the cursor and the cursor moves past it; the text around it is kept. */
  function InsertAt(p: Prompt, c: char): (r: Prompt)
    requires Valid(p)
    ensures Valid(r)
    ensures |r.buffer| == |p.buffer| + 1 && r.cursor == p.cursor + 1 && r.buffer[p.cursor] == c
    ensures r.buffer[..p.cursor] == p.buffer[..p.cursor] && r.buffer[p.cursor + 1..] == p.buffer[p.cursor..]
  {
    Prompt(p.buffer[..p.cursor] + [c] + p.buffer[p.cursor..], p.cursor + 1)
  }

  /** deleteChar (backspace): the character before the cursor goes; nothing happens at the start. */
  function DeleteBack(p: Prompt): (r: Prompt)
    requires Valid(p)
    ensures Valid(r)
    ensures p.cursor == 0 ==> r == p
    ensures p.cursor > 0 ==> && |r.buffer| == |p.buffer| - 1 && r.cursor == p.cursor - 1
                             && r.buffer[..r.cursor] == p.buffer[..r.cursor]
                             && r.buffer[r.cursor..] == p.buffer[p.cursor..]
  {
    if p.cursor > 0 then Prompt(p.buffer[..p.cursor - 1] + p.buffer[p.cursor..], p.cursor - 1) else p
  }

  /** deleteCharForward (delete): the character at the cursor goes and the cursor stays; nothing happens at the end. */
  function DeleteForward(p: Prompt): (r: Prompt)
    requires Valid(p)
    ensures Valid(r)
    ensures p.cursor == |p.buffer| ==> r == p
    ensures p.cursor < |p.buffer| ==> && |r.buffer| == |p.buffer| - 1 && r.cursor == p.cursor
                                      && r.buffer[..p.cursor] == p.buffer[..p.cursor]
                                      && r.buffer[p.cursor..] == p.buffer[p.cursor + 1..]
  {
    if p.cursor < |p.buffer| then Prompt(p.buffer[..p.cursor] + p.buffer[p.cursor + 1..], p.cursor) else p
  }

  /** moveCursorLeft: one step back, stopping at the start. */
  function Left(p: Prompt): (r: Prompt)
    requires Valid(p)
    ensures Valid(r) && r.buffer == p.buffer
    ensures r.cursor == if p.cursor > 0 then p.cursor - 1 else 0
  {
    if p.cursor > 0 then p.(cursor := p.cursor - 1) else p
  }

  /** moveCursorRight: one step forward, stopping at the end. */
  function Right(p: Prompt): (r: Prompt)
    requires Valid(p)
    ensures Valid(r) && r.buffer == p.buffer
    ensures r.cursor == if p.cursor < |p.buffer| then p.cursor + 1 else |p.buffer|
  {
    if p.cursor < |p.buffer| then p.(cursor := p.cursor + 1) else p
  }

  /** moveCursorHome. */
  function Home(p: Prompt): (r: Prompt)
    ensures Valid(r) && r.buffer == p.buffer && r.cursor == 0
  {
    p.(cursor := 0)
  }

  /** moveCursorEnd. */
  function End(p: Prompt): (r: Prompt)
    ensures Valid(r) && r.buffer == p.buffer && r.cursor == |r.buffer|
  {
    p.(cursor := |p.buffer|)
  }

  /** Backspace undoes a typed character. */
  lemma DeleteBackUndoesInsert(p: Prompt, c: char)
    requires Valid(p)
    ensures DeleteBack(InsertAt(p, c)) == p
  {
    var q := DeleteBack(InsertAt(p, c));
    assert q.buffer == p.buffer[..p.cursor] + p.buffer[p.cursor..];
    assert p.buffer[..p.cursor] + p.buffer[p.cursor..] == p.buffer;
  }

  /** Typing a character and stepping back puts the cursor on it; delete then removes it. */
  lemma DeleteForwardUndoesInsert(p: Prompt, c: char)
    requires Valid(p)
    ensures DeleteForward(Left(InsertAt(p, c))) == p
  {
    var q := Left(InsertAt(p, c));
    assert q.cursor == p.cursor;
    var r := DeleteForward(q);
    assert r.buffer == p.buffer[..p.cursor] + p.buffer[p.cursor..];
    assert p.buffer[..p.cursor] + p.buffer[p.cursor..] == p.buffer;
  }

  /** A step left is undone by a step right, except at the start where it does nothing. */
  lemma RightUndoesLeft(p: Prompt)
    requires Valid(p) && p.cursor > 0
    ensures Right(Left(p)) == p
  {
  }

  /** Printable text stays printable under every edit that types a printable character. */
  lemma InsertKeepsPrintable(p: Prompt, c: char)
    requires Valid(p) && AllPrintable(p.buffer) && IsPrintable(c)
    ensures AllPrintable(InsertAt(p, c).buffer)
  {
    var r := InsertAt(p, c);
    forall i | 0 <= i < |r.buffer| ensures IsPrintable(r.buffer[i]) {
      if i < p.cursor {
        assert r.buffer[i] == r.buffer[..p.cursor][i];
      } else if i > p.cursor {
        assert r.buffer[i] == r.buffer[p.cursor + 1..][i - p.cursor - 1];
      }
    }
  }

  /** Deleting keeps the remaining text printable. */
  lemma DeleteKeepsPrintable(p: Prompt)
    requires Valid(p) && AllPrintable(p.buffer)
    ensures AllPrintable(DeleteBack(p).buffer) && AllPrintable(DeleteForward(p).buffer)
  {
    if p.cursor > 0 {
      var r := DeleteBack(p);
      forall i | 0 <= i < |r.buffer| ensures IsPrintable(r.buffer[i]) {
        if i < r.cursor {
          assert r.buffer[i] == r.buffer[..r.cursor][i];
        } else {
          assert r.buffer[i] == r.buffer[r.cursor..][i - r.cursor];
        }
      }
    }
    if p.cursor < |p.buffer| {
      var r := DeleteForward(p);
      forall i | 0 <= i < |r.buffer| ensures IsPrintable(r.buffer[i]) {
        if i < p.cursor {
          assert r.buffer[i] == r.buffer[..p.cursor][i];
        } else {
          assert r.buffer[i] == r.buffer[p.cursor..][i - p.cursor];
        }
      }
    }
  }

  // ---------------------------------------------------------------------
  // The keypress handler of the full-screen interface

  /** A key's effect: the new prompt and, on enter with a non-blank buffer, the line handed to processInput. */
  datatype KeyOutcome = KeyOutcome(prompt: Prompt, submitted: Option<string>)

  /**
   * The keypress handler: named keys edit, move or submit; any other key
   * types its character when it is one printable character. Enter always
   * clears the buffer, whatever processInput answers.
   */
  function Keypress(p: Prompt, name: Option<string>, ch: Option<string>): (r: KeyOutcome)
    requires Valid(p)
  {
    var n := name.GetOr("");
    if n == "return" || n == "enter" then
      KeyOutcome(Cleared(), if Trim(p.buffer) != "" then Some(p.buffer) else None)
    else if n == "backspace" then KeyOutcome(DeleteBack(p), None)
    else if n == "delete" then KeyOutcome(DeleteForward(p), None)
    else if n == "left" then KeyOutcome(Left(p), None)
    else if n == "right" then KeyOutcome(Right(p), None)
    else if n == "home" then KeyOutcome(Home(p), None)
    else if n == "end" then KeyOutcome(End(p), None)
    else if n == "escape" then KeyOutcome(Cleared(), None)
    else if n == "tab" then KeyOutcome(p, None)
    else if ch.Some? && IsPrintableKey(ch.value) then KeyOutcome(InsertAt(p, ch.value[0]), None)
    else KeyOutcome(p, None)
  }

  /**
   * Whatever keys arrive, the cursor stays inside the buffer and the buffer
   * holds only printable characters: nothing else is ever typed in.
   */
  lemma KeypressKeepsInvariant(p: Prompt, name: Option<string>, ch: Option<string>)
    requires Valid(p) && AllPrintable(p.buffer)
    ensures Valid(Keypress(p, name, ch).prompt) && AllPrintable(Keypress(p, name, ch).prompt.buffer)
  {
    DeleteKeepsPrintable(p);
    if ch.Some? && IsPrintableKey(ch.value) {
      InsertKeepsPrintable(p, ch.value[0]);
    }
  }

  /** A line is submitted exactly when enter is pressed on a non-blank buffer, and it is the buffer as typed. */
  lemma KeypressSubmits(p: Prompt, name: Option<string>, ch: Option<string>)
    requires Valid(p)
    ensures Keypress(p, name, ch).submitted.Some? <==> (name == Some("return") || name == Some("enter")) && Trim(p.buffer) != ""
    ensures Keypress(p, name, ch).submitted.Some? ==> Keypress(p, name, ch).submitted.value == p.buffer
  {
  }

  // ---------------------------------------------------------------------
  // handleInput of createCustomInput

  /** What a chunk read from the raw terminal does: the new prompt, a submitted line, or Ctrl-C. */
  datatype InputOutcome = InputOutcome(prompt: Prompt, submitted: Option<string>, exit: bool)

  /**
   * handleInput as written: the default branch tests `key >= ' ' && key <=
   * '~'`, which compares whole strings, so a chunk of several characters
   * whose first character is printable is typed in at once while the
   * cursor still moves by one.
   */
  function HandleInputAsWritten(p: Prompt, key: string): (r: InputOutcome)
    requires Valid(p)
    ensures |r.prompt.buffer| > |p.buffer| ==>
              && !StringLess(key, " ") && !StringLess("~", key)
              && |r.prompt.buffer| == |p.buffer| + |key| && r.prompt.cursor == p.cursor + 1
  {
    if key == "\U{3}" then InputOutcome(p, None, true)
    else if key == "\r" || key == "\n" then InputOutcome(Cleared(), if Trim(p.buffer) != "" then Some(p.buffer) else None, false)
    else if key == "\U{7F}" then InputOutcome(DeleteBack(p), None, false)
    else if key == "\U{1B}[D" then InputOutcome(Left(p), None, false)
    else if key == "\U{1B}[C" then InputOutcome(Right(p), None, false)
    else if !StringLess(key, " ") && !StringLess("~", key) then
      InputOutcome(Prompt(p.buffer[..p.cursor] + key + p.buffer[p.cursor..], p.cursor + 1), None, false)
    else InputOutcome(p, None, false)
  }

  /** handleInput with the default branch typing only a single printable character, as the other editor does. */
  function HandleInput(p: Prompt, key: string): (r: InputOutcome)
    requires Valid(p)
    ensures Valid(r.prompt)
  {
    if key == "\U{3}" then InputOutcome(p, None, true)
    else if key == "\r" || key == "\n" then InputOutcome(Cleared(), if Trim(p.buffer) != "" then Some(p.buffer) else None, false)
    else if key == "\U{7F}" then InputOutcome(DeleteBack(p), None, false)
    else if key == "\U{1B}[D" then InputOutcome(Left(p), None, false)
    else if key == "\U{1B}[C" then InputOutcome(Right(p), None, false)
    else if IsPrintableKey(key) then InputOutcome(InsertAt(p, key[0]), None, false)
    else InputOutcome(p, None, false)
  }

  /** A chunk of two letters is typed in whole, but the cursor lands between them instead of after them. */
  lemma PastedChunkMisplacesCursor()
    ensures HandleInputAsWritten(Prompt("", 0), "ab").prompt == Prompt("ab", 1)
    ensures HandleInputAsWritten(Prompt("", 0), "ab").prompt.buffer[..1] != "ab"
  {
    assert !StringLess("ab", " ") && !StringLess("~", "ab");
    assert "" + "ab" + "" == "ab";
  }

  /** A chunk that starts with a letter passes the filter with a line feed inside it. */
  lemma PastedLineFeedTypedIn()
    ensures !AllPrintable(HandleInputAsWritten(Prompt("", 0), "a\n").prompt.buffer)
  {
    assert !StringLess("a\n", " ") && !StringLess("~", "a\n");
    assert "" + "a\n" + "" == "a\n";
    assert !IsPrintable("a\n"[1]);
  }

  /** On a single character the comparison of strings is the comparison of codes. */
  lemma SingleCharFilter(c: char)
    ensures !StringLess([c], " ") && !StringLess("~", [c]) <==> IsPrintable(c)
  {
    assert [c][1..] == "" && " "[1..] == "" && "~"[1..] == "";
  }

  /** The correction changes nothing for keys of one character: only chunks of several characters differ. */
  lemma HandleInputAgreesOnSingleKeys(p: Prompt, key: string)
    requires Valid(p) && |key| == 1
    ensures HandleInputAsWritten(p, key) == HandleInput(p, key)
  {
    SingleCharFilter(key[0]);
    assert key == [key[0]];
  }

  /** With the correction, every chunk keeps the cursor inside a buffer of printable characters, and a typed key lands just before the cursor. */
  lemma HandleInputKeepsInvariant(p: Prompt, key: string)
    requires Valid(p) && AllPrintable(p.buffer)
    ensures var q := HandleInput(p, key).prompt;
      && Valid(q) && AllPrintable(q.buffer)
      && (IsPrintableKey(key) ==> q.cursor == p.cursor + 1 && q.buffer[..q.cursor] == p.buffer[..p.cursor] + key)
  {
    if IsPrintableKey(key) {
      PrintableKeyInserts(p, key);
      InsertKeepsPrintable(p, key[0]);
      var q := InsertAt(p, key[0]);
      assert q.buffer[..q.cursor] == q.buffer[..p.cursor] + [q.buffer[p.cursor]];
      assert key == [key[0]];
    } else {
      DeleteKeepsPrintable(p);
      OtherKeyBuffer(p, key);
    }
  }

  /** A single printable key is none of the control keys, so it is typed in. */
  lemma PrintableKeyInserts(p: Prompt, key: string)
    requires Valid(p) && IsPrintableKey(key)
    ensures HandleInput(p, key).prompt == InsertAt(p, key[0])
  {
    assert key == [key[0]];
    assert !IsPrintable('\U{3}') && !IsPrintable('\r') && !IsPrintable('\n') && !IsPrintable('\U{7F}');
  }

  /** Any other key leaves the buffer as it is, empties it, or deletes before the cursor. */
  lemma OtherKeyBuffer(p: Prompt, key: string)
    requires Valid(p) && !IsPrintableKey(key)
    ensures var b := HandleInput(p, key).prompt.buffer;
      b == p.buffer || b == "" || b == DeleteBack(p).buffer
  {
  }

  // ---------------------------------------------------------------------
  // Scrolling to the inserted line, and the tab cycle

  /** Where the notes view goes after a redraw. */
  datatype Scroll = ScrollTo(top: int) | Stay | ScrollToBottom

  /**
   * After an insertion at line `lastInserted` (counted from 1), a view of
   * height `dh` whose first shown line is `top` scrolls only when the line
   * is out of view, to put it in the middle; with no insertion it scrolls
   * to the bottom. `dh / 2` with a positive divisor is `Math.floor`.
   */
  function ScrollAfterRedraw(top: int, dh: int, lastInserted: Option<int>): Scroll {
    match lastInserted
    case Some(n) =>
      if n == 0 then ScrollToBottom
      else
        var idx := n - 1;
        if idx < top || idx >= top + dh then
          ScrollTo(if idx - dh / 2 > 0 then idx - dh / 2 else 0)
        else Stay
    case None => ScrollToBottom
  }

  /** The view stays put exactly when the inserted line is already shown, and otherwise scrolls so that it is. */
  lemma ScrollShowsInsertedLine(top: int, dh: int, n: int)
    requires n >= 1 && dh >= 1
    ensures ScrollAfterRedraw(top, dh, Some(n)).Stay? <==> top <= n - 1 < top + dh
    ensures !ScrollAfterRedraw(top, dh, Some(n)).ScrollToBottom?
    ensures ScrollAfterRedraw(top, dh, Some(n)).ScrollTo? ==>
              var t := ScrollAfterRedraw(top, dh, Some(n)).top;
              && t >= 0 && t <= n - 1 < t + dh
              && t == (if n - 1 - dh / 2 > 0 then n - 1 - dh / 2 else 0)
  {
  }

  const TabCount := 2

  /** The tab key: the next of the two tabs, wrapping around. */
  function NextTab(t: int): (r: int)
    ensures 0 <= r < TabCount
  {
    (t + 1) % TabCount
  }

  /** Two presses of tab come back to the same tab, and a press always changes it. */
  lemma TabCycle(t: int)
    requires 0 <= t < TabCount
    ensures NextTab(NextTab(t)) == t && NextTab(t) != t
  {
  }

  // ---------------------------------------------------------------------
  // The state the closures share

  /** The closures of the full-screen interface over `inputBuffer`, `cursorPos` and `currentTab`. */
  class Screen {
    var inputBuffer: string
    var cursorPos: int
    var currentTab: int

    predicate Valid()
      reads this
    {
      0 <= cursorPos <= |inputBuffer| && 0 <= currentTab < TabCount
    }

    function Snapshot(): Prompt
      reads this
    {
      Prompt(inputBuffer, cursorPos)
    }

    constructor()
      ensures Valid() && Snapshot() == Cleared() && currentTab == 0
    {
      inputBuffer := "";
      cursorPos := 0;
      currentTab := 0;
    }

    method ClearInput()
      modifies this
      ensures Valid() && Snapshot() == Cleared()
      requires Valid()
      ensures currentTab == old(currentTab)
    {
      inputBuffer := "";
      cursorPos := 0;
    }

    method InsertChar(c: char)
      requires Valid()
      modifies this
      ensures Valid() && Snapshot() == InsertAt(old(Snapshot()), c) && currentTab == old(currentTab)
    {
      inputBuffer := inputBuffer[..cursorPos] + [c] + inputBuffer[cursorPos..];
      cursorPos := cursorPos + 1;
    }

    method DeleteChar()
      requires Valid()
      modifies this
      ensures Valid() && Snapshot() == DeleteBack(old(Snapshot())) && currentTab == old(currentTab)
    {
      if cursorPos > 0 {
        inputBuffer := inputBuffer[..cursorPos - 1] + inputBuffer[cursorPos..];
        cursorPos := cursorPos - 1;
      }
    }

    method DeleteCharForward()
      requires Valid()
      modifies this
      ensures Valid() && Snapshot() == DeleteForward(old(Snapshot())) && currentTab == old(currentTab)
    {
      if cursorPos < |inputBuffer| {
        inputBuffer := inputBuffer[..cursorPos] + inputBuffer[cursorPos + 1..];
      }
    }

    method MoveCursorLeft()
      requires Valid()
      modifies this
      ensures Valid() && Snapshot() == Left(old(Snapshot())) && currentTab == old(currentTab)
    {
      if cursorPos > 0 {
        cursorPos := cursorPos - 1;
      }
    }

    method MoveCursorRight()
      requires Valid()
      modifies this
      ensures Valid() && Snapshot() == Right(old(Snapshot())) && currentTab == old(currentTab)
    {
      if cursorPos < |inputBuffer| {
        cursorPos := cursorPos + 1;
      }
    }

    method MoveCursorHome()
      requires Valid()
      modifies this
      ensures Valid() && Snapshot() == Home(old(Snapshot())) && currentTab == old(currentTab)
    {
      cursorPos := 0;
    }

    method MoveCursorEnd()
      requires Valid()
      modifies this
      ensures Valid() && Snapshot() == End(old(Snapshot())) && currentTab == old(currentTab)
    {
      cursorPos := |inputBuffer|;
    }

    /** The tab key: the buffer is untouched. */
    method SwitchTab()
      requires Valid()
      modifies this
      ensures Valid() && currentTab == NextTab(old(currentTab)) && Snapshot() == old(Snapshot())
    {
      currentTab := (currentTab + 1) % TabCount;
    }

    /** The keypress handler; the line it returns is what goes to processInput. */
    method OnKeypress(name: Option<string>, ch: Option<string>) returns (submitted: Option<string>)
      requires Valid()
      modifies this
      ensures Valid() && KeyOutcome(Snapshot(), submitted) == Keypress(old(Snapshot()), name, ch)
      ensures currentTab == old(currentTab)
    {
      submitted := None;
      var n := name.GetOr("");
      if n == "return" || n == "enter" {
        if Trim(inputBuffer) != "" {
          submitted := Some(inputBuffer);
        }
        ClearInput();
      } else if n == "backspace" {
        DeleteChar();
      } else if n == "delete" {
        DeleteCharForward();
      } else if n == "left" {
        MoveCursorLeft();
      } else if n == "right" {
        MoveCursorRight();
      } else if n == "home" {
        MoveCursorHome();
      } else if n == "end" {
        MoveCursorEnd();
      } else if n == "escape" {
        ClearInput();
      } else if n == "tab" {
      } else if ch.Some? && IsPrintableKey(ch.value) {
        InsertChar(ch.value[0]);
      }
    }
  }

  /** The raw-terminal prompt of `createCustomInput`. */
  class CustomInput {
    var inputBuffer: string
    var cursorPos: int
    var isExiting: bool

    predicate Valid()
      reads this
    {
      0 <= cursorPos <= |inputBuffer|
    }

    function Snapshot(): Prompt
      reads this
    {
      Prompt(inputBuffer, cursorPos)
    }

    constructor()
      ensures Valid() && Snapshot() == Cleared() && !isExiting
    {
      inputBuffer := "";
      cursorPos := 0;
      isExiting := false;
    }

    /** cleanup: later input is ignored. */
    method Cleanup()
      modifies this
      ensures isExiting && Snapshot() == old(Snapshot())
    {
      isExiting := true;
    }

    /** handleInput, corrected to type only single printable characters; `exit` stands for `process.exit`. */
    method HandleKey(key: string) returns (submitted: Option<string>, exit: bool)
      requires Valid()
      modifies this
      ensures Valid() && isExiting == old(isExiting)
      ensures old(isExiting) ==> Snapshot() == old(Snapshot()) && submitted.None? && !exit
      ensures !old(isExiting) ==> InputOutcome(Snapshot(), submitted, exit) == HandleInput(old(Snapshot()), key)
    {
      submitted, exit := None, false;
      if isExiting {
        return;
      }
      if key == "\U{3}" {
        exit := true;
      } else if key == "\r" || key == "\n" {
        if Trim(inputBuffer) != "" {
          submitted := Some(inputBuffer);
        }
        inputBuffer := "";
        cursorPos := 0;
      } else if key == "\U{7F}" {
        if cursorPos > 0 {
          inputBuffer := inputBuffer[..cursorPos - 1] + inputBuffer[cursorPos..];
          cursorPos := cursorPos - 1;
        }
      } else if key == "\U{1B}[D" {
        if cursorPos > 0 {
          cursorPos := cursorPos - 1;
        }
      } else if key == "\U{1B}[C" {
        if cursorPos < |inputBuffer| {
          cursorPos := cursorPos + 1;
        }
      } else if IsPrintableKey(key) {
        inputBuffer := inputBuffer[..cursorPos] + key + inputBuffer[cursorPos..];
        cursorPos := cursorPos + 1;
      }
    }
  }
}
