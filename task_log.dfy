/**
 * The task log (src/modules/task-manager.js): a flat markdown file of
 * checkbox lines `- [ ] text *[[note]]*`, read into task records, one of
 * which can be ticked off in place, and filtered by the age of the note
 * each task came from.
 */
module TaskLog {
  import opened Wrappers
  import opened Text
  import opened Lines

  /** One task record, as readTaskLog builds it. */
  datatype Task = Task(index: nat, content: string, completed: bool, sourceFile: string, lineNumber: nat, originalLine: string)

  /** What the task pattern captures: the text and the note it came from. */
  datatype TaskMatch = TaskMatch(content: string, sourceFile: string)

  /** ` *[[note]]*` at the very end of a line, with a non-empty note that `.` can match. */
  predicate IsNoteSuffix(t: string) {
    |t| >= 8 && t[..4] == " *[[" && t[|t| - 3..] == "]]*" && NoTerminators(t[4..|t| - 3])
  }

  /** The line written for a task, as the central task log formats it. */
  function TaskEntry(mark: char, content: string, note: string): string {
    "- [" + [mark] + "] " + content + " *[[" + note + "]]*"
  }

  /**
   * The lazy `(.+?)` of the task pattern: having taken the text up to
   * position `q` (exclusive), stop as soon as the optional note suffix or
   * the end of the line follows; a line terminator inside the text makes
   * the whole match fail.
   */
  function LazyContentEnd(s: string, q: nat): (e: Option<nat>)
    requires 7 <= q <= |s|
    ensures e.Some? ==> q <= e.value <= |s| && (e.value == |s| || IsNoteSuffix(s[e.value..]))
    decreases |s| - q
  {
    if IsLineTerminator(s[q - 1]) then None
    else if q == |s| || IsNoteSuffix(s[q..]) then Some(q)
    else LazyContentEnd(s, q + 1)
  }

  /**
   * The pattern `^- \[.\] (.+?)( \*\[\[(.+?)\]\]\*)?$` on a trimmed line:
   * a marker, a space, at least one character of text, and an optional
   * ` *[[note]]*` suffix; without the suffix the note is `unknown`.
   */
  function MatchTaskPattern(line: string): Option<TaskMatch> {
    if !TaskHeader(line) then None
    else
      match LazyContentEnd(line, 7)
      case None => None
      case Some(e) => Some(Captured(line, e))
  }

  /** The groups of a match whose text ends at `e`: the text, and the note or `unknown`. */
  function Captured(line: string, e: nat): TaskMatch
    requires 6 <= e <= |line| && (e < |line| ==> e + 8 <= |line|)
  {
    TaskMatch(line[6..e], if e == |line| then "unknown" else line[e + 4..|line| - 3])
  }

  /** `- [`, any marker but a line terminator, `] `, and room for one character of text. */
  predicate TaskHeader(line: string) {
    |line| >= 7 && line[..3] == "- [" && !IsLineTerminator(line[3]) && line[4..6] == "] "
  }

  /** The checkbox test readTaskLog applies before the pattern. */
  predicate IsCheckbox(line: string) {
    StartsWith(line, "- [ ]") || StartsWith(line, "- [x]")
  }

  /** What one line of the log contributes to its task record. */
  datatype LineTask = LineTask(content: string, completed: bool, sourceFile: string, originalLine: string)

  /**
   * One raw line of the log: trimmed, it must be a checkbox line and match
   * the pattern; it is completed when it starts with `- [x]`.
   */
  function ParseTaskLine(line: string): Option<LineTask> {
    var t := Trim(line);
    if !IsCheckbox(t) then None
    else
      match MatchTaskPattern(t)
      case None => None
      case Some(m) => Some(LineTask(m.content, StartsWith(t, "- [x]"), m.sourceFile, t))
  }

  /** The record for line `i` of the file, the `k`-th task found. */
  function Record(k: nat, i: nat, p: LineTask): Task {
    Task(k, p.content, p.completed, p.sourceFile, i, p.originalLine)
  }

  /** The records a line parser yields over a file, in file order. */
  function CollectTasks(lines: seq<string>, parse: string -> Option<LineTask>): (r: seq<Task>)
    ensures |r| <= |lines|
  {
    if |lines| == 0 then []
    else
      var prev := CollectTasks(lines[..|lines| - 1], parse);
      var i := |lines| - 1;
      match parse(lines[i])
      case Some(p) => prev + [Record(|prev|, i, p)]
      case None => prev
  }

  /**
   * The `k`-th accepted line becomes the record with index `k`, its line
   * number is its index in the file, and the records keep the file's order.
   */
  lemma {:induction false} CollectTasksRecords(lines: seq<string>, parse: string -> Option<LineTask>)
    ensures forall k :: 0 <= k < |CollectTasks(lines, parse)| ==>
              && CollectTasks(lines, parse)[k].lineNumber < |lines|
              && parse(lines[CollectTasks(lines, parse)[k].lineNumber]).Some?
              && CollectTasks(lines, parse)[k] ==
                   Record(k, CollectTasks(lines, parse)[k].lineNumber, parse(lines[CollectTasks(lines, parse)[k].lineNumber]).value)
    ensures forall k, l :: 0 <= k < l < |CollectTasks(lines, parse)| ==>
              CollectTasks(lines, parse)[k].lineNumber < CollectTasks(lines, parse)[l].lineNumber
    decreases |lines|
  {
    if |lines| > 0 {
      var i := |lines| - 1;
      CollectTasksRecords(lines[..i], parse);
      var prev := CollectTasks(lines[..i], parse);
      assert forall k :: 0 <= k < |prev| ==> prev[k].lineNumber < i;
      assert forall k :: 0 <= k < |prev| ==> lines[..i][prev[k].lineNumber] == lines[prev[k].lineNumber];
      var r := CollectTasks(lines, parse);
      assert r == if parse(lines[i]).Some? then prev + [Record(|prev|, i, parse(lines[i]).value)] else prev;
    }
  }

  /** The tasks of a log file. */
  function TasksOf(lines: seq<string>): seq<Task> {
    CollectTasks(lines, ParseTaskLine)
  }

  /** Every accepted line of the file is reported. */
  lemma {:induction false} CollectTasksComplete(lines: seq<string>, parse: string -> Option<LineTask>, i: nat)
    requires i < |lines| && parse(lines[i]).Some?
    ensures exists k :: 0 <= k < |CollectTasks(lines, parse)| && CollectTasks(lines, parse)[k].lineNumber == i
    decreases |lines|
  {
    var n := |lines| - 1;
    var prev := CollectTasks(lines[..n], parse);
    if i == n {
      assert CollectTasks(lines, parse)[|prev|].lineNumber == i;
    } else {
      assert lines[..n][i] == lines[i];
      CollectTasksComplete(lines[..n], parse, i);
      var k :| 0 <= k < |prev| && prev[k].lineNumber == i;
      assert CollectTasks(lines, parse)[k] == prev[k];
    }
  }

  /** Every task line of a log file is reported, as a record of exactly that line. */
  lemma TasksOfComplete(lines: seq<string>, i: nat)
    requires i < |lines| && ParseTaskLine(lines[i]).Some?
    ensures exists k :: 0 <= k < |TasksOf(lines)| && TasksOf(lines)[k] == Record(k, i, ParseTaskLine(lines[i]).value)
  {
    CollectTasksComplete(lines, ParseTaskLine, i);
    CollectTasksRecords(lines, ParseTaskLine);
    var k :| 0 <= k < |TasksOf(lines)| && TasksOf(lines)[k].lineNumber == i;
    assert TasksOf(lines)[k] == Record(k, i, ParseTaskLine(lines[i]).value);
  }

  /** Reading one more line adds that line's record, if it has one, and nothing else. */
  lemma CollectTasksSnoc(lines: seq<string>, parse: string -> Option<LineTask>, i: nat)
    requires i < |lines|
    ensures var prev := CollectTasks(lines[..i], parse);
            CollectTasks(lines[..i + 1], parse) ==
              if parse(lines[i]).Some? then prev + [Record(|prev|, i, parse(lines[i]).value)] else prev
  {
    assert lines[..i + 1][..i] == lines[..i];
    assert lines[..i + 1][i] == lines[i];
  }

  /**
   * readTaskLog, with the file's text as an input: `None` stands for a
   * missing file, which gives no tasks.
   */
  method ReadTaskLog(file: Option<string>) returns (tasks: seq<Task>)
    ensures tasks == (if file.Some? then TasksOf(Split(file.value)) else [])
  {
    if file.None? {
      return [];
    }
    var lines := Split(file.value);
    tasks := [];
    for i := 0 to |lines|
      invariant tasks == TasksOf(lines[..i])
    {
      CollectTasksSnoc(lines, ParseTaskLine, i);
      var line := Trim(lines[i]);
      if StartsWith(line, "- [ ]") || StartsWith(line, "- [x]") {
        var completed := StartsWith(line, "- [x]");
        var taskMatch := MatchTaskPattern(line);
        if taskMatch.Some? {
          tasks := tasks + [Task(|tasks|, taskMatch.value.content, completed, taskMatch.value.sourceFile, i, line)];
        }
      }
    }
    assert lines[..|lines|] == lines;
  }

  // ---------------------------------------------------------------------
  // The pattern on the lines the logger writes

  /** Where in an entry the text may not look like the start of a note suffix. */
  lemma NoSuffixInsideEntry(s: string, content: string, tail: string, j: nat)
    requires |s| >= 6 && s[6..] == content + tail
    requires |tail| > 0 ==> tail[0] == ' '
    requires !Contains(content, " *[[")
    requires 6 <= j < 6 + |content|
    ensures !IsNoteSuffix(s[j..])
  {
    var e := 6 + |content|;
    if j + 4 <= e {
      NotContainsAt(content, " *[[", j - 6);
      assert s[j..][..4] == content[j - 6..][..4] by {
        forall m | 0 <= m < 4 ensures s[j..][..4][m] == content[j - 6..][..4][m] {
          assert s[j + m] == s[6..][j + m - 6];
        }
      }
    } else if |tail| > 0 {
      assert s[e] == s[6..][e - 6] == tail[0];
      assert |s[j..]| >= 4 ==> s[j..][..4][e - j] == ' ';
    }
  }

  /** The lazy text capture stops exactly at the end of the text when nothing inside it looks like a suffix. */
  lemma {:induction false} LazyStopsAt(s: string, q: nat, e: nat)
    requires 7 <= q <= e <= |s|
    requires e == |s| || IsNoteSuffix(s[e..])
    requires NoTerminators(s[q - 1..e])
    requires forall j :: q <= j < e ==> !IsNoteSuffix(s[j..])
    ensures LazyContentEnd(s, q) == Some(e)
    decreases e - q
  {
    assert s[q - 1..e][0] == s[q - 1];
    if q < e {
      assert s[q..e] == s[q - 1..e][1..];
      LazyStopsAt(s, q + 1, e);
    }
  }

  /**
   * What the central task log writes is read back unchanged: a checkbox
   * line `- [m] text *[[note]]*` yields exactly that text and note,
   * provided the text is non-empty, holds no line terminator and no
   * ` *[[` of its own, and the note is non-empty with no line terminator.
   */
  lemma MatchTaskEntry(mark: char, content: string, note: string)
    requires !IsLineTerminator(mark)
    requires |content| > 0 && NoTerminators(content) && !Contains(content, " *[[")
    requires |note| > 0 && NoTerminators(note)
    ensures MatchTaskPattern(TaskEntry(mark, content, note)) == Some(TaskMatch(content, note))
  {
    var s := TaskEntry(mark, content, note);
    var suffix := " *[[" + note + "]]*";
    var e := 6 + |content|;
    EntryLayout(mark, content, note);
    forall j | 7 <= j < e ensures !IsNoteSuffix(s[j..]) {
      NoSuffixInsideEntry(s, content, suffix, j);
    }
    LazyStopsAt(s, 7, e);
    MatchFound(s, e);
    assert Captured(s, e) == TaskMatch(content, note);
  }

  /** Where the parts of a task entry sit in it. */
  lemma EntryLayout(mark: char, content: string, note: string)
    requires |note| > 0 && NoTerminators(note)
    ensures var s := TaskEntry(mark, content, note);
            var suffix := " *[[" + note + "]]*";
            var e := 6 + |content|;
            && |s| == e + |suffix| && s[..3] == "- [" && s[3] == mark && s[4..6] == "] "
            && s[6..] == content + suffix && s[6..e] == content && s[e..] == suffix
            && IsNoteSuffix(suffix) && s[e + 4..|s| - 3] == note
  {
    var s := TaskEntry(mark, content, note);
    var suffix := " *[[" + note + "]]*";
    EntryHead(mark, content + suffix);
    assert s == "- [" + [mark] + "] " + (content + suffix);
    EntryBody(s, content, note);
  }

  /** The checkbox header occupies the first six characters. */
  lemma EntryHead(mark: char, rest: string)
    ensures var s := "- [" + [mark] + "] " + rest;
            |s| == 6 + |rest| && s[..3] == "- [" && s[3] == mark && s[4..6] == "] " && s[6..] == rest
  {
  }

  /** After the header come the text and then the note suffix. */
  lemma EntryBody(s: string, content: string, note: string)
    requires |note| > 0 && NoTerminators(note)
    requires |s| >= 6 && s[6..] == content + " *[[" + note + "]]*"
    ensures var suffix := " *[[" + note + "]]*";
            var e := 6 + |content|;
            && |s| == e + |suffix| && s[6..e] == content && s[e..] == suffix
            && IsNoteSuffix(suffix) && s[e + 4..|s| - 3] == note
  {
    var suffix := " *[[" + note + "]]*";
    var e := 6 + |content|;
    assert s[6..][..|content|] == content;
    assert s[e..] == s[6..][|content|..];
    assert suffix[4..|suffix| - 3] == note;
    assert s[e + 4..|s| - 3] == suffix[4..|suffix| - 3];
  }

  /** A line with the task header whose lazy capture ends at `e` matches with the text up to `e`. */
  lemma MatchFound(line: string, e: nat)
    requires |line| >= 7 && line[..3] == "- [" && !IsLineTerminator(line[3]) && line[4..6] == "] "
    requires LazyContentEnd(line, 7) == Some(e)
    ensures 6 <= e <= |line| && (e < |line| ==> e + 8 <= |line|)
    ensures MatchTaskPattern(line) == Some(Captured(line, e))
  {
    assert TaskHeader(line);
  }

  /** A checkbox line without a note suffix reads back with the note `unknown`. */
  lemma MatchBareTask(mark: char, content: string)
    requires !IsLineTerminator(mark)
    requires |content| > 0 && NoTerminators(content) && !Contains(content, " *[[")
    ensures MatchTaskPattern("- [" + [mark] + "] " + content) == Some(TaskMatch(content, "unknown"))
  {
    var s := "- [" + [mark] + "] " + content;
    var e := 6 + |content|;
    assert s[6..] == content + "";
    assert s[6..e] == content;
    forall j | 7 <= j < e ensures !IsNoteSuffix(s[j..]) {
      NoSuffixInsideEntry(s, content, "", j);
    }
    LazyStopsAt(s, 7, e);
    assert s[..3] == "- [" && s[3] == mark && s[4..6] == "] ";
    MatchFound(s, e);
    assert Captured(s, e) == TaskMatch(content, "unknown");
  }

  /** The text after the marker decides the capture; the marker character does not. */
  lemma {:induction false} LazyContentEndIgnoresMarker(s1: string, s2: string, q: nat)
    requires |s1| == |s2| && 7 <= q <= |s1| && s1[5..] == s2[5..]
    ensures LazyContentEnd(s1, q) == LazyContentEnd(s2, q)
    decreases |s1| - q
  {
    assert s1[q - 1] == s1[5..][q - 6] == s2[5..][q - 6] == s2[q - 1];
    assert s1[q..] == s1[5..][q - 5..] == s2[5..][q - 5..] == s2[q..];
    if q < |s1| {
      LazyContentEndIgnoresMarker(s1, s2, q + 1);
    }
  }

  // ---------------------------------------------------------------------
  // completeTask

  /**
   * completeTask's effect on the log, with the file's text as an input:
   * the new text to write, or `None` when nothing is written (index out of
   * range, task already done, file unreadable, or a stale line number,
   * whose rewrite fails and is caught).
   */
  function CompletedLog(file: Option<string>, taskIndex: int, tasks: seq<Task>): (r: Option<string>)
  {
    if taskIndex < 0 || taskIndex >= |tasks| || tasks[taskIndex].completed || file.None? then None
    else
      var lines := Split(file.value);
      var n := tasks[taskIndex].lineNumber;
      if n >= |lines| then None
      else Some(Join(lines[n := ReplaceFirst(lines[n], "- [ ]", "- [x]")]))
  }

  /** completeTask: rewrite one line of the log in place and write the whole file back. */
  method CompleteTask(file: Option<string>, taskIndex: int, tasks: seq<Task>) returns (written: Option<string>)
    ensures written == CompletedLog(file, taskIndex, tasks)
  {
    if taskIndex < 0 || taskIndex >= |tasks| {
      return None;
    }
    var task := tasks[taskIndex];
    if task.completed {
      return None;
    }
    if file.None? {
      return None;
    }
    var lines := Split(file.value);
    if task.lineNumber >= |lines| {
      return None;
    }
    lines := lines[task.lineNumber := ReplaceFirst(lines[task.lineNumber], "- [ ]", "- [x]")];
    return Some(Join(lines));
  }

  /**
   * completeTask writes nothing for an index outside the list or for a
   * task already done; otherwise, on a readable log, it changes only the
   * task's own line, replacing its first `- [ ]` by `- [x]`, and keeps the
   * line count.
   */
  lemma CompletedLogLines(file: Option<string>, taskIndex: int, tasks: seq<Task>)
    ensures (taskIndex < 0 || taskIndex >= |tasks| || tasks[taskIndex].completed) ==> CompletedLog(file, taskIndex, tasks).None?
    ensures CompletedLog(file, taskIndex, tasks).Some? ==>
              var lines := Split(file.value);
              var after := Split(CompletedLog(file, taskIndex, tasks).value);
              var n := tasks[taskIndex].lineNumber;
              n < |lines| && after == lines[n := ReplaceFirst(lines[n], "- [ ]", "- [x]")]
  {
    var r := CompletedLog(file, taskIndex, tasks);
    if r.Some? {
      var lines := Split(file.value);
      var n := tasks[taskIndex].lineNumber;
      SplitAreLines(file.value);
      var x := ReplaceFirst(lines[n], "- [ ]", "- [x]");
      ReplaceFirstIsLine(lines[n]);
      SplitJoin(lines[n := x]);
    }
  }

  /** Ticking a box does not break a line. */
  lemma ReplaceFirstIsLine(line: string)
    requires IsLine(line)
    ensures IsLine(ReplaceFirst(line, "- [ ]", "- [x]"))
  {
    var i := IndexOf(line, "- [ ]");
    if i >= 0 {
      var r := ReplaceFirst(line, "- [ ]", "- [x]");
      forall c | c in r ensures c != '\n' {
        if c in line[..i] {
          assert c in line;
        } else if c in line[i + 5..] {
          assert c in line;
        }
      }
    }
  }

  /** Whitespace alone trims to nothing. */
  lemma TrimEndWhitespace(s: string)
    requires AllWhitespace(s)
    ensures TrimEnd(s) == ""
  {
    TrimEndSpec(s);
  }

  /** A marker cannot start inside leading whitespace. */
  lemma NoMarkerInWhitespace(line: string, w: nat)
    requires w <= |line| && AllWhitespace(line[..w])
    ensures forall j :: 0 <= j < w ==> !StartsWith(line[j..], "- [ ]")
  {
    forall j | 0 <= j < w ensures !StartsWith(line[j..], "- [ ]") {
      assert line[..w][j] == line[j];
      if |line[j..]| >= 5 {
        assert line[j..][..5][0] == line[j];
      }
    }
  }

  /** A trimmed line sits between its leading and trailing whitespace. */
  lemma TrimSplit(line: string) returns (w: nat, tail: string)
    ensures w <= |line| && AllWhitespace(line[..w]) && AllWhitespace(tail)
    ensures line == line[..w] + Trim(line) + tail
  {
    var ts := TrimStart(line);
    TrimStartSpec(line);
    TrimEndSpec(ts);
    w := |line| - |ts|;
    tail := ts[|Trim(line)|..];
    assert Trim(line) == TrimEnd(ts);
    assert ts == Trim(line) + tail;
    assert ts == line[w..];
    assert line == line[..w] + line[w..];
  }

  /** Ticking the text between two runs of whitespace. */
  lemma TrimTicked(ws: string, t: string, tail: string)
    requires AllWhitespace(ws) && AllWhitespace(tail)
    requires |t| >= 6 && !IsWhitespace(t[|t| - 1])
    ensures Trim(ws + ("- [x]" + t[5..]) + tail) == "- [x]" + t[5..]
  {
    var core := "- [x]" + t[5..];
    assert ws + core + tail == ws + (core + tail);
    TrimStartSkipsWhitespace(ws, core + tail);
    assert (core + tail)[0] == '-';
    assert TrimStart(core + tail) == core + tail;
    assert core[|core| - 1] == t[|t| - 1];
    TrimEndKeepsPrefix(core, tail);
    TrimEndWhitespace(tail);
    assert core + "" == core;
  }

  /**
   * On a pending task line the first `- [ ]` is the marker itself: ticking
   * the raw line ticks the trimmed line, whitespace around it included.
   */
  lemma TickTaskLine(line: string)
    requires ParseTaskLine(line).Some? && !ParseTaskLine(line).value.completed
    ensures |Trim(line)| >= 7
    ensures Trim(ReplaceFirst(line, "- [ ]", "- [x]")) == "- [x]" + Trim(line)[5..]
  {
    var t := Trim(line);
    assert StartsWith(t, "- [ ]") && |t| >= 7;
    TickTrimmed(line, t);
  }

  /** Ticking a line whose trimmed text opens with the pending box ticks that box. */
  lemma TickTrimmed(line: string, t: string)
    requires t == Trim(line) && |t| >= 7 && StartsWith(t, "- [ ]")
    ensures Trim(ReplaceFirst(line, "- [ ]", "- [x]")) == "- [x]" + t[5..]
  {
    var w, tail := TrimSplit(line);
    NoMarkerInWhitespace(line, w);
    assert line[w..] == t + tail;
    assert line[w..][..5] == t[..5];
    IndexOfFirst(line, "- [ ]", w);
    assert line[w + 5..] == t[5..] + tail;
    assert ReplaceFirst(line, "- [ ]", "- [x]") == line[..w] + ("- [x]" + t[5..]) + tail;
    TrimTicked(line[..w], t, tail);
  }

  /** Lines that differ only in the marker character match alike. */
  lemma MatchIgnoresMarker(u: string, t: string)
    requires |u| == |t| >= 7 && u[..3] == t[..3] && u[4..] == t[4..]
    requires !IsLineTerminator(u[3]) && !IsLineTerminator(t[3])
    ensures MatchTaskPattern(u) == MatchTaskPattern(t)
  {
    SlicesAgree(u, t, 4, 6);
    SlicesAgree(u, t, 5, |t|);
    LazyContentEndIgnoresMarker(u, t, 7);
    if t[..3] != "- [" || t[4..6] != "] " || LazyContentEnd(t, 7).None? {
      MatchMissing(u);
      MatchMissing(t);
    } else {
      MatchesAgree(u, t, LazyContentEnd(t, 7).value);
    }
  }

  /** Two lines with the task header that agree after the marker and capture up to `e` match alike. */
  lemma MatchesAgree(u: string, t: string, e: nat)
    requires |u| == |t| >= 7 && u[..3] == t[..3] == "- [" && u[4..] == t[4..] && t[4..6] == "] "
    requires !IsLineTerminator(u[3]) && !IsLineTerminator(t[3])
    requires LazyContentEnd(u, 7) == LazyContentEnd(t, 7) == Some(e)
    ensures MatchTaskPattern(u) == MatchTaskPattern(t)
  {
    MatchFound(u, e);
    MatchFound(t, e);
    SlicesAgree(u, t, 6, e);
    if e < |t| {
      SlicesAgree(u, t, e + 4, |t| - 3);
    }
    assert Captured(u, e) == Captured(t, e);
  }

  /** A line of seven or more characters without the task header, or whose capture fails, does not match. */
  lemma MatchMissing(line: string)
    requires |line| >= 7 && (line[..3] != "- [" || line[4..6] != "] " || LazyContentEnd(line, 7).None?)
    ensures MatchTaskPattern(line).None?
  {
  }

  /** Strings that agree from position 4 on agree on every slice there. */
  lemma SlicesAgree(u: string, t: string, i: nat, j: nat)
    requires |u| == |t| && 4 <= i <= j <= |u| && u[4..] == t[4..]
    ensures u[i..j] == t[i..j]
  {
    forall k | 0 <= k < j - i ensures u[i..j][k] == t[i..j][k] {
      assert u[i + k] == u[4..][i + k - 4];
      assert t[i + k] == t[4..][i + k - 4];
    }
  }

  /** The record of a ticked line: same text, same note, now completed. */
  lemma TickedTaskLine(line: string)
    requires ParseTaskLine(line).Some? && !ParseTaskLine(line).value.completed
    ensures var p := ParseTaskLine(line).value;
            var ticked := ReplaceFirst(line, "- [ ]", "- [x]");
            ParseTaskLine(ticked) == Some(LineTask(p.content, true, p.sourceFile, Trim(ticked)))
  {
    var t := Trim(line);
    var ticked := ReplaceFirst(line, "- [ ]", "- [x]");
    TickTaskLine(line);
    assert StartsWith(t, "- [ ]");
    TickedMatch(t, Trim(ticked));
    ParseTicked(ticked);
  }

  /** Ticking the box of a pending line leaves what the pattern captures unchanged. */
  lemma TickedMatch(t: string, u: string)
    requires |t| >= 7 && StartsWith(t, "- [ ]") && u == "- [x]" + t[5..]
    ensures StartsWith(u, "- [x]") && MatchTaskPattern(u) == MatchTaskPattern(t)
  {
    assert u[5..] == t[5..];
    assert u[4] == ']' == t[..5][4] == t[4];
    assert u[4..] == [u[4]] + u[5..];
    assert t[4..] == [t[4]] + t[5..];
    assert u[..3] == t[..3];
    MatchIgnoresMarker(u, t);
  }

  /** A trimmed line opening with a ticked box that matches the pattern parses as completed. */
  lemma ParseTicked(raw: string)
    requires StartsWith(Trim(raw), "- [x]") && MatchTaskPattern(Trim(raw)).Some?
    ensures var m := MatchTaskPattern(Trim(raw)).value;
            ParseTaskLine(raw) == Some(LineTask(m.content, true, m.sourceFile, Trim(raw)))
  {
  }

  /** Replacing one accepted line by another replaces that one record and no other. */
  lemma {:induction false} CollectTasksUpdate(lines: seq<string>, parse: string -> Option<LineTask>, n: nat, x: string)
    requires n < |lines| && parse(lines[n]).Some? && parse(x).Some?
    ensures var before := CollectTasks(lines, parse);
            var after := CollectTasks(lines[n := x], parse);
            && |after| == |before|
            && forall k :: 0 <= k < |before| ==>
                 after[k] == (if before[k].lineNumber == n then Record(k, n, parse(x).value) else before[k])
    decreases |lines|
  {
    var m := |lines| - 1;
    if n == m {
      CollectTasksUpdateLast(lines, parse, x);
    } else {
      var upd := lines[n := x];
      assert lines[..m + 1] == lines && upd[..m + 1] == upd;
      assert upd[..m] == lines[..m][n := x];
      assert upd[m] == lines[m];
      CollectTasksUpdate(lines[..m], parse, n, x);
      CollectTasksSnoc(lines, parse, m);
      CollectTasksSnoc(upd, parse, m);
      var pb, pa := CollectTasks(lines[..m], parse), CollectTasks(upd[..m], parse);
      var before, after := CollectTasks(lines, parse), CollectTasks(upd, parse);
      forall k | 0 <= k < |before|
        ensures after[k] == (if before[k].lineNumber == n then Record(k, n, parse(x).value) else before[k])
      {
        if k < |pb| {
          assert before[k] == pb[k] && after[k] == pa[k];
        } else {
          assert before[k] == after[k] == Record(k, m, parse(lines[m]).value);
        }
      }
    }
  }

  /** CollectTasksUpdate for the last line. */
  lemma CollectTasksUpdateLast(lines: seq<string>, parse: string -> Option<LineTask>, x: string)
    requires |lines| > 0 && parse(lines[|lines| - 1]).Some? && parse(x).Some?
    ensures var n := |lines| - 1;
            var before := CollectTasks(lines, parse);
            var after := CollectTasks(lines[n := x], parse);
            && |after| == |before|
            && forall k :: 0 <= k < |before| ==>
                 after[k] == (if before[k].lineNumber == n then Record(k, n, parse(x).value) else before[k])
  {
    var m := |lines| - 1;
    var upd := lines[m := x];
    assert upd[..m] == lines[..m];
    assert lines[..m + 1] == lines && upd[..m + 1] == upd;
    CollectTasksRecords(lines[..m], parse);
    CollectTasksSnoc(lines, parse, m);
    CollectTasksSnoc(upd, parse, m);
  }

  /**
   * Completing a pending task of a freshly read log and reading the log
   * again reports the same tasks, with that one now completed and with the
   * same text and note; the line count does not change.
   */
  lemma CompleteTaskReparse(content: string, taskIndex: nat)
    requires taskIndex < |TasksOf(Split(content))|
    requires !TasksOf(Split(content))[taskIndex].completed
    ensures var tasks := TasksOf(Split(content));
            var w := CompletedLog(Some(content), taskIndex, tasks);
            && w.Some?
            && |Split(w.value)| == |Split(content)|
            && var again := TasksOf(Split(w.value));
               && |again| == |tasks|
               && again[taskIndex].completed
               && again[taskIndex].content == tasks[taskIndex].content
               && again[taskIndex].sourceFile == tasks[taskIndex].sourceFile
               && forall k :: 0 <= k < |tasks| && k != taskIndex ==> again[k] == tasks[k]
  {
    var lines := Split(content);
    var tasks := TasksOf(lines);
    CollectTasksRecords(lines, ParseTaskLine);
    var n := tasks[taskIndex].lineNumber;
    var line := lines[n];
    var x := ReplaceFirst(line, "- [ ]", "- [x]");
    TickedTaskLine(line);
    CompletedLogLines(Some(content), taskIndex, tasks);
    var w := CompletedLog(Some(content), taskIndex, tasks);
    assert Split(w.value) == lines[n := x];
    CollectTasksUpdate(lines, ParseTaskLine, n, x);
  }

  // ---------------------------------------------------------------------
  // filterRecentTasks

  /**
   * A task is recent when its note's modification time is at or after the
   * cutoff; a note that cannot be examined keeps its task (fail-open).
   */
  predicate IsRecent(t: Task, mtime: string -> Option<int>, cutoff: int) {
    match mtime(t.sourceFile)
    case None => true
    case Some(m) => m >= cutoff
  }

  /** The tasks filterRecentTasks keeps, in their order. */
  function RecentTasks(tasks: seq<Task>, mtime: string -> Option<int>, cutoff: int): (r: seq<Task>)
    ensures |r| <= |tasks|
    ensures forall t :: t in r <==> t in tasks && IsRecent(t, mtime, cutoff)
  {
    if |tasks| == 0 then []
    else
      var prev := RecentTasks(tasks[..|tasks| - 1], mtime, cutoff);
      var t := tasks[|tasks| - 1];
      assert tasks == tasks[..|tasks| - 1] + [t];
      if IsRecent(t, mtime, cutoff) then prev + [t] else prev
  }

  /**
   * filterRecentTasks, with each note's modification time as an input
   * (`None` when stat fails) and the cutoff instant as a number.
   */
  method FilterRecentTasks(tasks: seq<Task>, mtime: string -> Option<int>, cutoff: int) returns (recentTasks: seq<Task>)
    ensures recentTasks == RecentTasks(tasks, mtime, cutoff)
  {
    recentTasks := [];
    for i := 0 to |tasks|
      invariant recentTasks == RecentTasks(tasks[..i], mtime, cutoff)
    {
      assert tasks[..i + 1][..i] == tasks[..i];
      var task := tasks[i];
      match mtime(task.sourceFile)
      case None =>
        recentTasks := recentTasks + [task];
      case Some(m) =>
        if m >= cutoff {
          recentTasks := recentTasks + [task];
        }
    }
    assert tasks[..|tasks|] == tasks;
  }

  /** The filter works task by task, so it keeps the order: it distributes over concatenation. */
  lemma {:induction false} RecentTasksConcat(a: seq<Task>, b: seq<Task>, mtime: string -> Option<int>, cutoff: int)
    ensures RecentTasks(a + b, mtime, cutoff) == RecentTasks(a, mtime, cutoff) + RecentTasks(b, mtime, cutoff)
    decreases |b|
  {
    if |b| == 0 {
      assert a + b == a;
    } else {
      var m := |b| - 1;
      assert (a + b)[..|a + b| - 1] == a + b[..m];
      RecentTasksConcat(a, b[..m], mtime, cutoff);
    }
  }
}
