/**
 * The legacy line editor (`ObsidianInterface`): a prompt `> [target] text`
 * whose target picks the line to overwrite (`[K]`) or the line after which
 * to insert (`[nK]`), plain text appended at the end, and `/clear`,
 * `/files`, `/open` and `/exit` commands. Files on disk are a map from
 * path to text; the date and the listing of the vault are parameters.
 */
module LegacyEditor {
  import opened Wrappers
  import opened Text
  import opened Lines
  import Session
  import CentralLog

  // ---------------------------------------------------------------------
  // extractContent: the regular expression `^>\s*\[(.*?)\]\s*(.*)$`

  /** `\s*(.*)$` after the closing bracket: whitespace, then text that `.` matches up to the end. */
  predicate TailMatches(t: string) {
    NoTerminators(TrimStart(t))
  }

  /**
   * The lazy `(.*?)\]`: the first `]` at or after `j` that the tail can
   * follow, looking no further than the first line terminator (which `.`
   * cannot cross). `u[0]` is the opening bracket.
   */
  function CloseFrom(u: string, j: nat): (r: Option<nat>)
    requires j <= |u|
    ensures r.Some? ==> j <= r.value < |u| && u[r.value] == ']' && TailMatches(u[r.value + 1..])
    decreases |u| - j
  {
    if j == |u| || IsLineTerminator(u[j]) then None
    else if u[j] == ']' && TailMatches(u[j + 1..]) then Some(j)
    else CloseFrom(u, j + 1)
  }

  /** The bracket found is the first that fits, with no line terminator before it. */
  lemma {:induction false} CloseFromFirst(u: string, j: nat)
    requires j <= |u| && CloseFrom(u, j).Some?
    ensures var r := CloseFrom(u, j).value;
      && NoTerminators(u[j..r])
      && forall k :: j <= k < r ==> !(u[k] == ']' && TailMatches(u[k + 1..]))
    decreases |u| - j
  {
    if !(u[j] == ']' && TailMatches(u[j + 1..])) {
      CloseFromFirst(u, j + 1);
      NoTerminatorsCons(u, j, CloseFrom(u, j + 1).value);
    }
  }

  /** No bracket is found only when no `]` reached without crossing a line terminator fits. */
  lemma {:induction false} CloseFromNone(u: string, j: nat)
    requires j <= |u| && CloseFrom(u, j).None?
    ensures forall k :: j <= k < |u| && NoTerminators(u[j..k]) ==> !(u[k] == ']' && TailMatches(u[k + 1..]))
    decreases |u| - j
  {
    if j < |u| && !IsLineTerminator(u[j]) {
      CloseFromNone(u, j + 1);
      forall k | j < k <= |u| ensures NoTerminators(u[j..k]) ==> NoTerminators(u[j + 1..k]) {
        NoTerminatorsCons(u, j, k);
      }
    }
  }

  /** A slice is free of line terminators when its first character and the rest are. */
  lemma NoTerminatorsCons(u: string, j: nat, k: nat)
    requires j < k <= |u|
    ensures NoTerminators(u[j..k]) <==> !IsLineTerminator(u[j]) && NoTerminators(u[j + 1..k])
  {
    assert u[j + 1..k] == u[j..k][1..];
  }

  /**
   * extractContent: a prompt that matches gives `[target] text` with both
   * parts trimmed, or just the text when the target is blank; anything else
   * loses a leading `>` and the whitespace after it.
   */
  function ExtractContent(text: string): (r: string)
    ensures |text| == 0 || text[0] != '>' ==> r == text
  {
    if |text| > 0 && text[0] == '>' then ExtractAfterMarker(TrimStart(text[1..]))
    else text
  }

  /** What a prompt becomes once `>` and the whitespace after it are gone. */
  function ExtractAfterMarker(u: string): string {
    if |u| > 0 && u[0] == '[' then
      match CloseFrom(u, 1)
      case Some(j) =>
        // `\s*` already consumed the text's leading whitespace; trim removes the rest
        var target := Trim(u[1..j]);
        var content := Trim(u[j + 1..]);
        if target != "" then "[" + target + "] " + content else content
      case None => u
    else u
  }

  /** The scan for `]` passes over text holding neither `]` nor a line terminator. */
  lemma {:induction false} CloseFromSkips(u: string, j: nat, k: nat)
    requires j <= k <= |u|
    requires forall i :: j <= i < k ==> u[i] != ']' && !IsLineTerminator(u[i])
    ensures CloseFrom(u, j) == CloseFrom(u, k)
    decreases k - j
  {
    if j < k {
      CloseFromSkips(u, j + 1, k);
    }
  }

  /** A suffix of a line that `.` matches is matched too. */
  lemma TrimStartNoTerminators(t: string)
    requires NoTerminators(t)
    ensures TailMatches(t)
  {
    TrimStartSpec(t);
  }

  /**
   * A well-formed prompt `>` ws `[inner]` rest, with no `]` in the target
   * and no line break anywhere, gives the trimmed target in brackets
   * followed by the trimmed text, or the text alone for a blank target.
   */
  lemma ExtractPrompt(ws: string, inner: string, rest: string)
    requires AllWhitespace(ws)
    requires ']' !in inner && NoTerminators(inner) && NoTerminators(rest)
    ensures ExtractContent(">" + ws + "[" + inner + "]" + rest) ==
            if Trim(inner) != "" then "[" + Trim(inner) + "] " + Trim(rest) else Trim(rest)
  {
    var text := ">" + ws + "[" + inner + "]" + rest;
    var v := "[" + inner + "]" + rest;
    assert text[1..] == ws + v;
    TrimStartSkipsWhitespace(ws, v);
    assert TrimStart(v) == v;
    var e := |inner| + 1;
    assert v[1..e] == inner;
    assert v[e] == ']';
    assert v[e + 1..] == rest;
    forall i | 1 <= i < e ensures v[i] != ']' && !IsLineTerminator(v[i]) {
      assert v[i] == inner[i - 1];
    }
    CloseFromSkips(v, 1, e);
    TrimStartNoTerminators(rest);
    assert CloseFrom(v, e) == Some(e);
    assert ExtractContent(text) == ExtractAfterMarker(v);
    ExtractFound(v, e);
  }

  /**
   * A line that starts with `>` but is not a bracket prompt (no `[` after
   * the whitespace, or no `]` that closes it) loses only the `>` and the
   * whitespace after it.
   */
  lemma ExtractFallback(text: string)
    requires |text| > 0 && text[0] == '>'
    requires var u := TrimStart(text[1..]); !(|u| > 0 && u[0] == '[') || CloseFrom(u, 1).None?
    ensures ExtractContent(text) == TrimStart(text[1..])
  {
  }

  /** A bracket that closes at `j` extracts the trimmed parts around it. */
  lemma ExtractFound(u: string, j: nat)
    requires |u| > 0 && u[0] == '[' && 1 <= j < |u| && CloseFrom(u, 1) == Some(j)
    ensures ExtractAfterMarker(u) ==
            if Trim(u[1..j]) != "" then "[" + Trim(u[1..j]) + "] " + Trim(u[j + 1..]) else Trim(u[j + 1..])
  {
  }

  /** The prompt the editor shows after every submit carries nothing to process. */
  lemma EmptyPromptIgnored()
    ensures Trim(ExtractContent("> [] ")) == ""
  {
    ExtractPrompt(" ", "", " ");
    assert ">" + " " + "[" + "" + "]" + " " == "> [] ";
    assert AllWhitespace(" ");
  }

  // ---------------------------------------------------------------------
  // processInput: routing a submitted line

  datatype Command =
    | Quit
    | Clear
    | ListFiles
    | Open(name: string)
    | Overwrite(content: string, line: int)
    | InsertAfter(content: string, afterLine: int)
    | Append(content: string)

  /** The commands, recognised on the trimmed line; each starts with `/`. */
  function SlashCommand(trimmed: string): (r: Option<Command>)
    ensures r.Some? ==> StartsWith(trimmed, "/")
  {
    if trimmed == "/exit" || trimmed == "/quit" then Some(Quit)
    else if trimmed == "/clear" then Some(Clear)
    else if trimmed == "/files" then Some(ListFiles)
    else if StartsWith(trimmed, "/open ") then Some(Open(trimmed[6..]))
    else None
  }

  /** The bracket's target: `nK` inserts after line K, `K` overwrites line K; `None` when K does not parse. */
  function TargetRoute(lineTarget: string, content: string): Option<Command> {
    if StartsWith(lineTarget, "n") then
      match ParseInt(lineTarget[1..])
      case Some(a) => Some(InsertAfter(content, a))
      case None => None
    else
      match ParseInt(lineTarget)
      case Some(t) => Some(Overwrite(content, t))
      case None => None
  }

  /** `[target] text`: the target runs to the first `]`, the text after it is trimmed. */
  function BracketRoute(trimmed: string): (r: Option<Command>)
    ensures r.Some? ==> StartsWith(trimmed, "[")
  {
    if StartsWith(trimmed, "[") && Contains(trimmed, "]") then
      var e := IndexOf(trimmed, "]");
      assert trimmed[e] == ']' && e != 0;
      TargetRoute(trimmed[1..e], Trim(trimmed[e + 1..]))
    else None
  }

  /** What processInput does with a submitted line. Anything unrecognised, the empty line included, is appended. */
  function Route(input: string): (r: Command)
    ensures r.Append? ==> r.content == Trim(input)
  {
    var trimmed := Trim(input);
    match SlashCommand(trimmed)
    case Some(c) => c
    case None =>
      match BracketRoute(trimmed)
      case Some(c) => c
      case None => Append(trimmed)
  }

  /** The bracketed line `[` t `]` rest, trimmed, where t holds no `]`: its target and text. */
  lemma BracketParts(t: string, rest: string)
    requires ']' !in t && (|rest| > 0 ==> !IsWhitespace(rest[|rest| - 1]))
    ensures Trim("[" + t + "]" + rest) == "[" + t + "]" + rest
    ensures IndexOf("[" + t + "]" + rest, "]") == |t| + 1
  {
    var s := "[" + t + "]" + rest;
    TrimUnchanged(s);
    forall j | 0 <= j < |t| + 1 ensures !StartsWith(s[j..], "]") {
      if j > 0 { assert s[j] == t[j - 1]; }
    }
    IndexOfFirst(s, "]", |t| + 1);
  }

  /** A bracketed line whose target parses is routed by its bracket alone. */
  lemma RouteBracketed(input: string)
    requires StartsWith(Trim(input), "[") && BracketRoute(Trim(input)).Some?
    ensures Route(input) == BracketRoute(Trim(input)).value
  {
    var trimmed := Trim(input);
    assert SlashCommand(trimmed).None? by {
      assert trimmed[0] == '[';
    }
  }

  /** Decimal digits hold no `]`, and `parseInt` reads them as their value. */
  lemma DigitsTarget(ds: string)
    requires |ds| > 0 && AllDigits(ds)
    ensures ']' !in ds && !StartsWith(ds, "n") && ParseInt(ds) == Some(DigitsValue(ds, 10))
  {
    DigitsNotMarkers(ds);
    ParseIntOfDigits(ds);
  }

  /** Decimal digits hold neither `]` nor a leading `n`. */
  lemma DigitsNotMarkers(ds: string)
    requires |ds| > 0 && AllDigits(ds)
    ensures ']' !in ds && !StartsWith(ds, "n")
  {
    assert IsDigit(ds[0]);
    forall i | 0 <= i < |ds| ensures ds[i] != ']' { assert IsDigit(ds[i]); }
  }

  /** The line `[` t `]` rest is routed by t, with the trimmed rest as its text. */
  lemma BracketOf(t: string, rest: string)
    requires ']' !in t && (|rest| > 0 ==> !IsWhitespace(rest[|rest| - 1]))
    ensures BracketRoute("[" + t + "]" + rest) == TargetRoute(t, Trim(rest))
  {
    var s := "[" + t + "]" + rest;
    BracketParts(t, rest);
    assert s[1..|t| + 1] == t && s[|t| + 2..] == rest;
    ContainsAt(s, "]", |t| + 1);
  }

  lemma BracketOverwrite(ds: string, rest: string)
    requires |ds| > 0 && AllDigits(ds)
    requires |rest| > 0 ==> !IsWhitespace(rest[|rest| - 1])
    ensures BracketRoute("[" + ds + "]" + rest) == Some(Overwrite(Trim(rest), DigitsValue(ds, 10)))
  {
    DigitsTarget(ds);
    BracketOf(ds, rest);
  }

  /** `[nK]` is the bracket around the target `nK`. */
  lemma InsertTargetLine(ds: string, rest: string)
    ensures "[" + ("n" + ds) + "]" + rest == "[n" + ds + "]" + rest
  {
  }

  lemma BracketInsertAfter(ds: string, rest: string)
    requires |ds| > 0 && AllDigits(ds)
    requires |rest| > 0 ==> !IsWhitespace(rest[|rest| - 1])
    ensures BracketRoute("[n" + ds + "]" + rest) == Some(InsertAfter(Trim(rest), DigitsValue(ds, 10)))
  {
    var t := "n" + ds;
    DigitsTarget(ds);
    assert ']' !in t by { assert t == "n" + ds; }
    BracketOf(t, rest);
    InsertTargetLine(ds, rest);
    assert StartsWith(t, "n") && t[1..] == ds;
  }

  /** `[K] text` with K written in decimal digits overwrites line K with the trimmed text. */
  lemma RouteOverwrite(ds: string, rest: string)
    requires |ds| > 0 && AllDigits(ds)
    requires |rest| > 0 ==> !IsWhitespace(rest[|rest| - 1])
    ensures Route("[" + ds + "]" + rest) == Overwrite(Trim(rest), DigitsValue(ds, 10))
  {
    DigitsTarget(ds);
    BracketParts(ds, rest);
    BracketOverwrite(ds, rest);
    RouteBracketed("[" + ds + "]" + rest);
  }

  /** `[nK] text` with K written in decimal digits inserts the trimmed text after line K. */
  lemma RouteInsertAfter(ds: string, rest: string)
    requires |ds| > 0 && AllDigits(ds)
    requires |rest| > 0 ==> !IsWhitespace(rest[|rest| - 1])
    ensures Route("[n" + ds + "]" + rest) == InsertAfter(Trim(rest), DigitsValue(ds, 10))
  {
    DigitsTarget(ds);
    assert ']' !in "n" + ds;
    BracketParts("n" + ds, rest);
    InsertTargetLine(ds, rest);
    BracketInsertAfter(ds, rest);
    RouteBracketed("[n" + ds + "]" + rest);
  }

  /** A line that is neither a command nor bracketed is appended as it stands, trimmed. */
  lemma RouteAppends(input: string)
    requires !StartsWith(Trim(input), "/") && !StartsWith(Trim(input), "[")
    ensures Route(input) == Append(Trim(input))
  {
  }

  // ---------------------------------------------------------------------
  // addContent and insertNewLine on the lines of the note

  /** `n` empty lines, the padding both editors push. */
  function Blanks(n: nat): (r: seq<string>)
    ensures |r| == n && forall i :: 0 <= i < n ==> r[i] == ""
  {
    seq(n, _ => "")
  }

  /**
   * addContent's lines. A target in range overwrites that line; a target
   * past the end pads with blank lines so that the text lands on it; a
   * target of 0 or less assigns to a negative array index, which
   * JavaScript stores as a property that `join` ignores. With no target,
   * an empty last line is overwritten and otherwise the text is appended.
   */
  function AddedLines(lines: seq<string>, c: string, target: Option<int>): (r: seq<string>)
    requires |lines| >= 1
    ensures |r| >= 1
  {
    match target
    case Some(t) =>
      if t <= |lines| then
        if t >= 1 then lines[t - 1 := c] else lines
      else lines + Blanks(t - 1 - |lines|) + [c]
    case None =>
      if lines[|lines| - 1] == "" then lines[|lines| - 1 := c] else lines + [c]
  }

  /** `splice(a, 0, c)`: a negative start counts from the end, clamped at 0. */
  function SpliceStart(a: int, n: nat): (s: nat)
    requires a <= n
    ensures s <= n
    ensures a >= 0 ==> s == a
    ensures a < 0 ==> s + (if n + a < 0 then 0 else -a) == (if n + a < 0 then 0 else n)
  {
    if a >= 0 then a else if n + a < 0 then 0 else n + a
  }

  /**
   * insertNewLine's lines: a position up to the length splices the text in
   * (after line `a`), a position past the end pads with blank lines so
   * that the text lands at index `a`.
   */
  function InsertedLines(lines: seq<string>, c: string, a: int): (r: seq<string>)
    requires |lines| >= 1
    ensures |r| >= 1
  {
    if a <= |lines| then Insert(lines, SpliceStart(a, |lines|), c)
    else lines + Blanks(a - |lines|) + [c]
  }

  /** What addContent promises about the lines, case by case. */
  lemma AddedLinesSpec(lines: seq<string>, c: string, target: Option<int>)
    requires |lines| >= 1
    ensures var r := AddedLines(lines, c, target);
      match target
      case Some(t) =>
        && (1 <= t <= |lines| ==> |r| == |lines| && r[t - 1] == c && forall j :: 0 <= j < |r| && j != t - 1 ==> r[j] == lines[j])
        && (t <= 0 ==> r == lines)
        && (t > |lines| ==> |r| == t && r[t - 1] == c && r[..|lines|] == lines && forall j :: |lines| <= j < t - 1 ==> r[j] == "")
      case None =>
        && r[|r| - 1] == c && r[..|lines| - 1] == lines[..|lines| - 1]
        && (|r| == |lines| <==> lines[|lines| - 1] == "")
        && |lines| <= |r| <= |lines| + 1
        && (lines[|lines| - 1] != "" ==> r[..|lines|] == lines)
  {
    match target
    case Some(t) =>
      if t > |lines| {
        var r := AddedLines(lines, c, target);
        assert r == lines + Blanks(t - 1 - |lines|) + [c];
        assert r[..|lines|] == lines;
        forall j | |lines| <= j < t - 1 ensures r[j] == "" {
          assert r[j] == Blanks(t - 1 - |lines|)[j - |lines|];
        }
      }
    case None =>
      var r := AddedLines(lines, c, target);
      if lines[|lines| - 1] != "" {
        assert r == lines + [c];
        assert r[..|lines|] == lines;
      }
  }

  /** What insertNewLine promises about the lines: one more line, the text at its place, the rest in order. */
  lemma InsertedLinesSpec(lines: seq<string>, c: string, a: int)
    requires |lines| >= 1
    ensures var r := InsertedLines(lines, c, a);
      && (0 <= a <= |lines| ==> |r| == |lines| + 1 && r[a] == c && r[..a] == lines[..a] && r[a + 1..] == lines[a..])
      && (a < 0 ==> var s := if |lines| + a < 0 then 0 else |lines| + a;
            |r| == |lines| + 1 && r[s] == c && r[..s] == lines[..s] && r[s + 1..] == lines[s..])
      && (a > |lines| ==> |r| == a + 1 && r[a] == c && r[..|lines|] == lines && forall j :: |lines| <= j < a ==> r[j] == "")
  {
    var r := InsertedLines(lines, c, a);
    if a <= |lines| {
      var s := SpliceStart(a, |lines|);
      assert r == lines[..s] + [c] + lines[s..];
      assert r[..s] == lines[..s];
      assert r[s + 1..] == lines[s..];
    } else {
      assert r == lines + Blanks(a - |lines|) + [c];
      assert r[..|lines|] == lines;
      forall j | |lines| <= j < a ensures r[j] == "" {
        assert r[j] == Blanks(a - |lines|)[j - |lines|];
      }
    }
  }

  /** The edited lines are still lines when the new text is one. */
  lemma EditedAreLines(lines: seq<string>, c: string, target: Option<int>, a: int)
    requires |lines| >= 1 && AreLines(lines) && IsLine(c)
    ensures AreLines(AddedLines(lines, c, target))
    ensures AreLines(InsertedLines(lines, c, a))
  {
    var r := AddedLines(lines, c, target);
    forall j | 0 <= j < |r| ensures IsLine(r[j]) {
      if j < |lines| && r[j] != c && r[j] != "" { assert r[j] == lines[j]; }
    }
    if a <= |lines| {
      InsertAreLines(lines, SpliceStart(a, |lines|), c);
    } else {
      var q := InsertedLines(lines, c, a);
      forall j | 0 <= j < |q| ensures IsLine(q[j]) {
        if j < |lines| { assert q[j] == lines[j]; }
      }
    }
  }

  // ---------------------------------------------------------------------
  // The editor's state and what each input does to it

  datatype Editor = Editor(currentFile: Option<string>, currentContent: string, disk: map<string, string>)

  /** What processInput leaves behind, and whether it ended the program. */
  datatype Outcome = Outcome(after: Editor, quit: bool)

  /** The open note is on disk exactly as the editor holds it. */
  predicate Synced(e: Editor) {
    e.currentFile.Some? ==> e.currentFile.value in e.disk && e.disk[e.currentFile.value] == e.currentContent
  }

  /** saveFileContent: with a note open, its text is written out. */
  function Saved(e: Editor): (r: Editor)
    ensures Synced(r)
    ensures r.currentFile == e.currentFile && r.currentContent == e.currentContent
    ensures forall p :: p in r.disk <==> p in e.disk || Some(p) == e.currentFile
    ensures forall p :: p in e.disk && Some(p) != e.currentFile ==> r.disk[p] == e.disk[p]
  {
    match e.currentFile
    case None => e
    case Some(f) => e.(disk := e.disk[f := e.currentContent])
  }

  /** addContent: the note's new text, saved. */
  function Added(e: Editor, c: string, target: Option<int>): Editor {
    Saved(e.(currentContent := Join(AddedLines(Split(e.currentContent), c, target))))
  }

  /** insertNewLine: the note's new text, saved. */
  function Inserted(e: Editor, c: string, a: int): Editor {
    Saved(e.(currentContent := Join(InsertedLines(Split(e.currentContent), c, a))))
  }

  /** The fresh page `/clear` writes: a heading with the date and a blank line. */
  function ClearedPage(today: string): string {
    "# " + today + "\n\n"
  }

  /** The fuzzy match of openFile: the name occurs in the path, or is the note's name, ignoring case. */
  predicate NameMatches(f: string, name: string) {
    Contains(ToLowerAscii(f), ToLowerAscii(name)) || ToLowerAscii(Session.SourceName(Some(f))) == ToLowerAscii(name)
  }

  /** `files.find(...)`: the first listed note that matches. */
  function FindFile(files: seq<string>, name: string): (r: Option<string>)
    ensures r.Some? ==> r.value in files && NameMatches(r.value, name)
    ensures r.Some? ==> exists i :: 0 <= i < |files| && files[i] == r.value && forall k :: 0 <= k < i ==> !NameMatches(files[k], name)
    ensures r.None? <==> forall f :: f in files ==> !NameMatches(f, name)
  {
    var i := CentralLog.FirstMatch(files, f => NameMatches(f, name));
    if i < 0 then None else Some(files[i])
  }

  /**
   * The path openFile tries: a name with `/` or `.` is taken relative to the
   * vault, any other name is looked up among the vault's notes `files`.
   */
  function OpenTarget(vault: string, name: string, files: seq<string>): Option<string> {
    if '/' in name || '.' in name then Some(Session.JoinPath(vault, name))
    else
      match FindFile(files, name)
      case Some(f) => Some(Session.JoinPath(vault, f))
      case None => None
  }

  /** openFile: an existing target becomes the open note and is read in; every failure changes nothing. */
  function Opened(e: Editor, vault: string, name: string, files: seq<string>): (r: Editor)
    ensures r.disk == e.disk
    ensures r.currentFile == e.currentFile || (r.currentFile == OpenTarget(vault, name, files) && Synced(r))
    ensures var t := OpenTarget(vault, name, files);
      if t.Some? && t.value in e.disk then r == e.(currentFile := t, currentContent := e.disk[t.value]) else r == e
  {
    match OpenTarget(vault, name, files)
    case Some(p) => if p in e.disk then e.(currentFile := Some(p), currentContent := e.disk[p]) else e
    case None => e
  }

  /** processInput as a whole. */
  function Processed(e: Editor, vault: string, input: string, today: string, files: seq<string>): Outcome {
    match Route(input)
    case Quit => Outcome(e, true)
    case Clear => Outcome(Saved(e.(currentContent := ClearedPage(today))), false)
    case ListFiles => Outcome(e, false)
    case Open(name) => Outcome(Opened(e, vault, name, files), false)
    case Overwrite(c, t) => Outcome(Added(e, c, Some(t)), false)
    case InsertAfter(c, a) => Outcome(Inserted(e, c, a), false)
    case Append(c) => Outcome(Added(e, c, None), false)
  }

  /** The submit handler: the prompt's text is extracted and processed unless it is blank. */
  function Submitted(e: Editor, vault: string, text: string, today: string, files: seq<string>): Outcome {
    var content := ExtractContent(text);
    if Trim(content) != "" then Processed(e, vault, content, today, files) else Outcome(e, false)
  }

  /**
   * Every input keeps the note on disk equal to the note on screen, and
   * writes no file but the open note.
   */
  lemma ProcessedKeepsSynced(e: Editor, vault: string, input: string, today: string, files: seq<string>)
    requires Synced(e)
    ensures var a := Processed(e, vault, input, today, files).after;
      && Synced(a)
      && (forall p :: p in a.disk <==> p in e.disk)
      && (forall p :: p in e.disk && Some(p) != a.currentFile ==> a.disk[p] == e.disk[p])
  {
    match Route(input)
    case Quit =>
    case Clear => SavedKeepsSynced(e, ClearedPage(today));
    case ListFiles =>
    case Open(name) =>
    case Overwrite(c, t) => SavedKeepsSynced(e, Join(AddedLines(Split(e.currentContent), c, Some(t))));
    case InsertAfter(c, a) => SavedKeepsSynced(e, Join(InsertedLines(Split(e.currentContent), c, a)));
    case Append(c) => SavedKeepsSynced(e, Join(AddedLines(Split(e.currentContent), c, None)));
  }

  /** Saving new text for the open note of a synced editor adds no file and rewrites only that note. */
  lemma SavedKeepsSynced(e: Editor, text: string)
    requires Synced(e)
    ensures var a := Saved(e.(currentContent := text));
      && Synced(a) && a.currentFile == e.currentFile
      && (forall p :: p in a.disk <==> p in e.disk)
      && (forall p :: p in e.disk && Some(p) != a.currentFile ==> a.disk[p] == e.disk[p])
  {
    var x := e.(currentContent := text);
    assert x.disk == e.disk && x.currentFile == e.currentFile;
  }

  /** The text a line edit writes reads back as the edited lines. */
  lemma AddedReadsBack(e: Editor, c: string, target: Option<int>)
    requires IsLine(c)
    ensures Split(Added(e, c, target).currentContent) == AddedLines(Split(e.currentContent), c, target)
  {
    var lines := Split(e.currentContent);
    SplitAreLines(e.currentContent);
    EditedAreLines(lines, c, target, 0);
    SplitJoin(AddedLines(lines, c, target));
  }

  /** The text an insertion writes reads back as the lines with the new one spliced in. */
  lemma InsertedReadsBack(e: Editor, c: string, a: int)
    requires IsLine(c)
    ensures Split(Inserted(e, c, a).currentContent) == InsertedLines(Split(e.currentContent), c, a)
  {
    var lines := Split(e.currentContent);
    SplitAreLines(e.currentContent);
    EditedAreLines(lines, c, None, a);
    SplitJoin(InsertedLines(lines, c, a));
  }

  /** `/clear` leaves a heading and two empty lines. */
  lemma ClearedPageLines(today: string)
    requires IsLine(today)
    ensures Split(ClearedPage(today)) == ["# " + today, "", ""]
  {
    var ls := ["# " + today, "", ""];
    assert ls[1..] == ["", ""] && ls[1..][1..] == [""];
    assert Join(["", ""]) == "\n";
    assert Join(ls) == ClearedPage(today);
    assert AreLines(ls);
    SplitJoin(ls);
  }

  // ---------------------------------------------------------------------
  // The class

  class ObsidianInterface {
    const vaultPath: string
    var currentFile: Option<string>
    var currentContent: string
    var disk: map<string, string>

    function Snapshot(): Editor
      reads this
    {
      Editor(currentFile, currentContent, disk)
    }

    constructor(vaultPath: string, disk: map<string, string>)
      ensures this.vaultPath == vaultPath
      ensures Snapshot() == Editor(None, "", disk)
    {
      this.vaultPath := vaultPath;
      this.disk := disk;
      currentFile := None;
      currentContent := "";
    }

    /** loadFileContent: false when the open note cannot be read (the error propagates to the caller). */
    method LoadFileContent() returns (loaded: bool)
      modifies this
      ensures loaded == (old(currentFile).None? || old(currentFile).value in old(disk))
      ensures currentFile == old(currentFile) && disk == old(disk)
      ensures currentContent == (if old(currentFile).Some? && old(currentFile).value in old(disk) then old(disk)[old(currentFile).value] else old(currentContent))
    {
      loaded := true;
      if currentFile.Some? {
        if currentFile.value in disk {
          currentContent := disk[currentFile.value];
        } else {
          loaded := false;
        }
      }
    }

    method SaveFileContent()
      modifies this
      ensures Snapshot() == Saved(old(Snapshot()))
    {
      if currentFile.Some? {
        disk := disk[currentFile.value := currentContent];
      }
    }

    method AddContent(content: string, targetLine: Option<int>)
      modifies this
      ensures Snapshot() == Added(old(Snapshot()), content, targetLine)
    {
      var lines := Split(currentContent);
      ghost var original := lines;
      match targetLine {
        case Some(t) =>
          if t <= |lines| {
            if t >= 1 {
              lines := lines[t - 1 := content];
            }
          } else {
            while |lines| < t - 1
              invariant |original| <= |lines| <= t - 1
              invariant lines == original + Blanks(|lines| - |original|)
              decreases t - 1 - |lines|
            {
              assert Blanks(|lines| + 1 - |original|) == Blanks(|lines| - |original|) + [""];
              lines := lines + [""];
            }
            lines := lines + [content];
          }
        case None =>
          if lines[|lines| - 1] == "" {
            lines := lines[|lines| - 1 := content];
          } else {
            lines := lines + [content];
          }
      }
      assert lines == AddedLines(original, content, targetLine);
      currentContent := Join(lines);
      SaveFileContent();
    }

    method InsertNewLine(content: string, afterLine: int)
      modifies this
      ensures Snapshot() == Inserted(old(Snapshot()), content, afterLine)
    {
      var lines := Split(currentContent);
      ghost var original := lines;
      if afterLine <= |lines| {
        lines := Insert(lines, SpliceStart(afterLine, |lines|), content);
      } else {
        while |lines| < afterLine
          invariant |original| <= |lines| <= afterLine
          invariant lines == original + Blanks(|lines| - |original|)
          decreases afterLine - |lines|
        {
          assert Blanks(|lines| + 1 - |original|) == Blanks(|lines| - |original|) + [""];
          lines := lines + [""];
        }
        lines := lines + [content];
      }
      currentContent := Join(lines);
      SaveFileContent();
    }

    /** openFile, with `files` the notes of the vault that the lookup by name lists. */
    method OpenFile(filename: string, files: seq<string>)
      modifies this
      ensures Snapshot() == Opened(old(Snapshot()), vaultPath, filename, files)
    {
      var filePath: string;
      if '/' in filename || '.' in filename {
        filePath := Session.JoinPath(vaultPath, filename);
      } else {
        var found := FindFile(files, filename);
        if found.None? {
          return;
        }
        filePath := Session.JoinPath(vaultPath, found.value);
      }
      if filePath !in disk {
        return;
      }
      currentFile := Some(filePath);
      var _ := LoadFileContent();
    }

    /** processInput; `quit` stands for `process.exit`. */
    method ProcessInput(input: string, today: string, files: seq<string>) returns (quit: bool)
      modifies this
      ensures Outcome(Snapshot(), quit) == Processed(old(Snapshot()), vaultPath, input, today, files)
    {
      ghost var before := Snapshot();
      quit := false;
      var route := Route(input);
      match route
      case Quit =>
        quit := true;
      case Clear =>
        currentContent := ClearedPage(today);
        SaveFileContent();
        assert Snapshot() == Saved(before.(currentContent := ClearedPage(today)));
      case ListFiles =>
      case Open(name) =>
        OpenFile(name, files);
      case Overwrite(c, t) =>
        AddContent(c, Some(t));
      case InsertAfter(c, a) =>
        InsertNewLine(c, a);
      case Append(c) =>
        AddContent(c, None);
    }

    /** The submit handler of the prompt. */
    method Submit(text: string, today: string, files: seq<string>) returns (quit: bool)
      modifies this
      ensures Outcome(Snapshot(), quit) == Submitted(old(Snapshot()), vaultPath, text, today, files)
    {
      var content := ExtractContent(text);
      quit := false;
      if Trim(content) != "" {
        quit := ProcessInput(content, today, files);
      }
    }
  }
}
