/**
 * What the session's operations promise, stated over the state-transition
 * functions of module Session: which edits are refused, which files an
 * operation writes, where a logged entry ends up and how it reads back,
 * and which task a typed number completes.
 */
module SessionFacts {
  import opened Wrappers
  import opened Text
  import opened Lines
  import Content
  import TaskLog
  import CentralLog
  import opened Session

  // ---------------------------------------------------------------------
  // Editing the open note

  /** An edit either writes the open note, and only it, or changes nothing. */
  predicate WritesOnlyNote(s: State, r: Step) {
    if r.ok then
      && s.currentFile.Some?
      && r.after.currentFile == s.currentFile
      && r.after.disk == s.disk[s.currentFile.value := r.after.currentContent]
    else r.after == s
  }

  /**
   * The four edits are refused (false, nothing changed) without an open
   * note; addContent and addToSection always succeed with one; the line
   * edits succeed exactly when the line index is in range. A successful
   * edit writes the open note and no other file, and a session in step
   * with the disk stays in step with it.
   */
  lemma EditOutcomes(s: State, text: string, mode: Content.Mode, name: string, entry: string, n: int, now: string)
    requires IsLine(entry)
    ensures AddContentStep(s, text, mode, now).ok <==> s.currentFile.Some?
    ensures AddToSectionStep(s, name, entry, now).ok <==> s.currentFile.Some?
    ensures InsertAtLineStep(s, entry, n, now).ok <==> s.currentFile.Some? && 0 <= n <= |Split(s.currentContent)|
    ensures ReplaceAtLineStep(s, entry, n, now).ok <==> s.currentFile.Some? && 1 <= n <= |Split(s.currentContent)|
    ensures WritesOnlyNote(s, AddContentStep(s, text, mode, now))
    ensures WritesOnlyNote(s, AddToSectionStep(s, name, entry, now))
    ensures WritesOnlyNote(s, InsertAtLineStep(s, entry, n, now))
    ensures WritesOnlyNote(s, ReplaceAtLineStep(s, entry, n, now))
    ensures Synced(s) ==>
      && Synced(AddContentStep(s, text, mode, now).after)
      && Synced(AddToSectionStep(s, name, entry, now).after)
      && Synced(InsertAtLineStep(s, entry, n, now).after)
      && Synced(ReplaceAtLineStep(s, entry, n, now).after)
  {
    Content.InsertContentAtLineSpec(s.currentContent, entry, n);
    Content.ReplaceContentAtLineSpec(s.currentContent, entry, n);
  }

  /** addToSection writes the open note and no other file, and fails only without one. */
  lemma SectionStepWrites(s: State, name: string, entry: string, now: string)
    ensures AddToSectionStep(s, name, entry, now).ok <==> s.currentFile.Some?
    ensures WritesOnlyNote(s, AddToSectionStep(s, name, entry, now))
  {
  }

  /**
   * Saving twice is saving once at the later time: the second save only
   * refreshes the stamp the first one wrote.
   */
  lemma SaveTwice(s: State, t1: string, t2: string)
    requires IsLine(t1) && IsLine(t2)
    ensures Save(Save(s, t1), t2) == Save(s, t2)
  {
    if s.currentFile.Some? {
      Content.InjectMetadataIdempotent(s.currentContent, t1, t2);
    }
  }

  /**
   * addToSection puts the entry on a line of its own and points at it:
   * in lines, the entry is inserted at 1-based line `insertedLine`, inside
   * the section when it exists and after the last line otherwise.
   */
  lemma SectionOrAppendInserts(current: string, name: string, entry: string)
    requires IsLine(entry)
    ensures var lines := Split(current);
            var e := SectionOrAppend(current, name, entry);
            && 1 <= e.insertedLine <= |lines| + 1
            && Split(e.newContent) == Insert(lines, e.insertedLine - 1, entry)
            && (Content.SectionIndex(lines, name) < 0 ==> e.insertedLine == |lines| + 1)
  {
    var lines := Split(current);
    if Content.SectionInsertion(current, name, entry).Some? {
      Content.SectionInsertionPlacement(current, name, entry);
    } else {
      Content.AddContentLines(current, entry, Content.Append);
      SplitLine(entry);
      assert Insert(lines, |lines|, entry) == lines + [entry];
    }
  }

  /**
   * The remembered line goes stale on a note's first save: when saving
   * adds the metadata block under the title, the entry moves three lines
   * down, while `lastInsertedLine` still holds its position before the save.
   */
  lemma FirstSaveShiftsInsertedLine(s: State, name: string, entry: string, now: string)
    requires s.currentFile.Some? && IsLine(entry) && IsLine(now)
    requires !Content.HasMetadata(Split(s.currentContent)) && StartsWith(Split(s.currentContent)[0], "#")
    requires !Contains(entry, Content.MetadataKey)
    ensures var r := AddToSectionStep(s, name, entry, now).after;
            var p := SectionOrAppend(s.currentContent, name, entry).insertedLine - 1;
            && r.lastInsertedLine == Some(p + 1)
            && p + 3 < |Split(r.currentContent)|
            && Split(r.currentContent)[p + 3] == entry
  {
    var e := SectionOrAppend(s.currentContent, name, entry);
    FirstSaveShiftsEntry(s.currentContent, name, entry, now);
    var r := AddToSectionStep(s, name, entry, now).after;
    var stamped := Content.InjectMetadata(e.newContent, now);
    assert r.currentContent == stamped;
    assert r.lastInsertedLine == Some(e.insertedLine);
    var after := Split(stamped);
    assert Split(r.currentContent) == after;
    assert after[e.insertedLine + 2] == entry;
  }

  /** The text side of the above: the stamped note holds the entry three lines below its unstamped place. */
  lemma FirstSaveShiftsEntry(current: string, name: string, entry: string, now: string)
    requires IsLine(entry) && IsLine(now)
    requires !Content.HasMetadata(Split(current)) && StartsWith(Split(current)[0], "#")
    requires !Contains(entry, Content.MetadataKey)
    ensures var e := SectionOrAppend(current, name, entry);
            var stamped := Split(Content.InjectMetadata(e.newContent, now));
            var p := e.insertedLine - 1;
            p + 3 < |stamped| && stamped[p + 3] == entry
  {
    var lines := Split(current);
    var e := SectionOrAppend(current, name, entry);
    var p := e.insertedLine - 1;
    SectionOrAppendInserts(current, name, entry);
    var ins := Insert(lines, p, entry);
    assert 1 <= p by {
      if Content.SectionInsertion(current, name, entry).Some? {
        Content.SectionInsertionPlacement(current, name, entry);
      }
    }
    InsertBelowTitle(lines, p, entry);
    Content.InjectMetadataInserts(e.newContent, now);
    assert Split(Content.InjectMetadata(e.newContent, now))[p + 3] == ins[p];
  }

  /** A line spliced in below the title keeps the title first and adds no metadata. */
  lemma InsertBelowTitle(lines: seq<string>, p: nat, entry: string)
    requires 1 <= p <= |lines| && !Content.HasMetadata(lines) && !Contains(entry, Content.MetadataKey)
    ensures var ins := Insert(lines, p, entry);
            ins[0] == lines[0] && !Content.HasMetadata(ins)
  {
    var ins := Insert(lines, p, entry);
    forall i | 0 <= i < |ins| ensures !Contains(ins[i], Content.MetadataKey) {
      if i > p {
        assert ins[i] == lines[i - 1];
      }
    }
  }

  // ---------------------------------------------------------------------
  // Content input and the central logs

  /**
   * processContentInput answers true for every routed input, even with no
   * note open; unrouted input is refused exactly when no note is open.
   */
  lemma ContentInputAnswer(s: State, cfg: Config, input: string, now: string)
    ensures ContentInputStep(s, cfg, input, now).ok <==> Content.ParseContentInput(input).Some? || s.currentFile.Some?
  {
    EditOutcomes(s, Trim(input), Content.Append, "", "", 0, now);
  }

  /**
   * Routed input is written to exactly one central log, the one of its
   * kind, citing the open note (`unknown` without one); apart from that
   * log, only the open note is written.
   */
  lemma RoutedInputLogged(s: State, cfg: Config, input: string, now: string)
    requires Content.ParseContentInput(input).Some?
    ensures var p := Content.ParseContentInput(input).value;
            var path := cfg.logPath(p.category);
            var mid := AddToSectionStep(s, p.section, p.formatted, now).after;
            var r := ContentInputStep(s, cfg, input, now).after;
            && path in r.disk
            && r.disk[path] == CentralLog.Logged(ReadFile(mid.disk, path), LogEntry(p.category, p.raw, SourceName(s.currentFile)), Header(p.category), Accepts(p.category))
            && forall q :: q != path && (s.currentFile.None? || q != s.currentFile.value) ==>
                 (q in r.disk <==> q in s.disk) && (q in s.disk ==> r.disk[q] == s.disk[q])
  {
    var p := Content.ParseContentInput(input).value;
    var mid := AddToSectionStep(s, p.section, p.formatted, now);
    assert ContentInputStep(s, cfg, input, now).after == LogStep(mid.after, cfg, p.category, p.raw);
    SectionStepWrites(s, p.section, p.formatted, now);
  }

  /** An entry the session logs reads back unchanged when trimmed: it has no surrounding whitespace. */
  lemma LogEntryTrimmed(c: Content.Category, raw: string, src: string)
    ensures Trim(LogEntry(c, raw, src)) == LogEntry(c, raw, src)
  {
    var entry := LogEntry(c, raw, src);
    assert entry[0] == '-' && entry[|entry| - 1] == '*';
    TrimUnchanged(entry);
  }

  /** The line logged for a task is the task log's own entry format, with an open checkbox. */
  lemma LogEntryIsTaskEntry(raw: string, src: string)
    ensures LogEntry(Content.Task, raw, src) == TaskLog.TaskEntry(' ', raw, src)
  {
  }

  /**
   * A task logged by the session reads back as a pending task with the
   * same text and source note, provided the text cannot end early (no
   * line break, no ` *[[` inside it).
   */
  lemma LoggedTaskReadsBack(raw: string, src: string)
    requires |raw| > 0 && NoTerminators(raw) && !Contains(raw, " *[[")
    requires |src| > 0 && NoTerminators(src)
    ensures var entry := LogEntry(Content.Task, raw, src);
            TaskLog.ParseTaskLine(entry) == Some(TaskLog.LineTask(raw, false, src, entry))
  {
    var entry := LogEntry(Content.Task, raw, src);
    LogEntryTrimmed(Content.Task, raw, src);
    LogEntryIsTaskEntry(raw, src);
    TaskLog.MatchTaskEntry(' ', raw, src);
    assert StartsWith(entry, "- [ ]");
    assert !StartsWith(entry, "- [x]") by {
      assert entry[3] == ' ';
    }
  }

  /** Every task entry is a line the task log's insertion point accepts, and the blank line is not. */
  lemma TaskEntryAccepted(raw: string, src: string)
    ensures IsTaskLine(LogEntry(Content.Task, raw, src))
    ensures !IsTaskLine("")
  {
    LogEntryTrimmed(Content.Task, raw, src);
    assert Trim("") == "";
  }

  /**
   * Newest first: two tasks logged one after the other end up with the
   * later one directly above the earlier one.
   */
  lemma TaskLogNewestFirst(lines: seq<string>, a: string, b: string, src1: string, src2: string)
    ensures var r1 := CentralLog.LoggedLines(lines, LogEntry(Content.Task, a, src1), Accepts(Content.Task));
            var r2 := CentralLog.LoggedLines(r1, LogEntry(Content.Task, b, src2), Accepts(Content.Task));
            exists p :: 0 <= p < |r2| - 1 && r2[p] == LogEntry(Content.Task, b, src2) && r2[p + 1] == LogEntry(Content.Task, a, src1)
  {
    TaskEntryAccepted(a, src1);
    TaskEntryAccepted(b, src2);
    CentralLog.LogTwiceNewestFirst(lines, LogEntry(Content.Task, a, src1), LogEntry(Content.Task, b, src2), IsTaskLine);
  }

  /** `path.basename` of a path ending in a separator and a plain name is that name. */
  lemma {:induction false} BasenameAfterSlash(dir: string, name: string)
    requires '/' !in name
    ensures Basename(dir + "/" + name) == name
    decreases |name|
  {
    if |name| > 0 {
      var m := |name| - 1;
      assert (dir + "/" + name)[..|dir + "/" + name| - 1] == dir + "/" + name[..m];
      assert '/' !in name[..m] by {
        forall i | 0 <= i < m ensures name[..m][i] != '/' {
          assert name[..m][i] == name[i];
        }
      }
      BasenameAfterSlash(dir, name[..m]);
      assert name[..m] + [name[m]] == name;
    } else {
      assert dir + "/" + name == dir + "/";
    }
  }

  /**
   * The source a log entry cites for a note in the vault is the note's
   * name without `.md` (a note named just `.md` keeps its whole name).
   */
  lemma SourceNameOfNote(dir: string, name: string)
    requires |name| > 0 && '/' !in name
    ensures SourceName(Some(JoinPath(dir, name + ".md"))) == name
  {
    var b := name + ".md";
    assert '/' !in b by {
      forall i | 0 <= i < |b| ensures b[i] != '/' {
        if i < |name| {
          assert b[i] == name[i];
        }
      }
    }
    BasenameAfterSlash(dir, b);
    assert b[..|b| - 3] == name;
    assert JoinPath(dir, b) != ".md" by {
      assert |JoinPath(dir, b)| >= 4;
    }
  }

  // ---------------------------------------------------------------------
  // Completing a task by its number

  /**
   * The task a number completes is a pending task with the same text as
   * the pending task of that number; a number outside 1..count names none.
   */
  lemma ChosenTaskIsPending(tasks: seq<TaskLog.Task>, number: Option<int>)
    ensures ChosenTask(tasks, number).None? <==>
              number.None? || !(1 <= number.value <= |Pending(tasks)|)
    ensures ChosenTask(tasks, number).Some? ==>
              var k := ChosenTask(tasks, number).value;
              && 0 <= k < |tasks|
              && !tasks[k].completed
              && tasks[k].content == Pending(tasks)[number.value - 1].content
  {
    if ChosenTask(tasks, number).Some? {
      var n := number.value;
      var pending := Pending(tasks);
      PendingMembers(tasks);
      assert pending[n - 1] in tasks;
      var j :| 0 <= j < |tasks| && tasks[j] == pending[n - 1];
      assert !tasks[j].completed && tasks[j].content == pending[n - 1].content;
    }
  }

  /**
   * When no two pending tasks share their text, the number completes
   * exactly the pending task of that number.
   */
  lemma ChosenTaskExact(tasks: seq<TaskLog.Task>, number: Option<int>)
    requires forall i, j :: 0 <= i < j < |tasks| && !tasks[i].completed && !tasks[j].completed ==> tasks[i].content != tasks[j].content
    requires ChosenTask(tasks, number).Some?
    ensures var k := ChosenTask(tasks, number).value;
            && number.Some? && 1 <= number.value <= |Pending(tasks)|
            && 0 <= k < |tasks|
            && tasks[k] == Pending(tasks)[number.value - 1]
  {
    ChosenTaskIsPending(tasks, number);
    var n := number.value;
    var k := ChosenTask(tasks, number).value;
    var pending := Pending(tasks);
    PendingMembers(tasks);
    assert pending[n - 1] in tasks;
    var j :| 0 <= j < |tasks| && tasks[j] == pending[n - 1];
    assert !tasks[j].completed && !tasks[k].completed && tasks[j].content == tasks[k].content;
  }

  /**
   * On the tasks tab, typed digits are a task number: they are not a
   * command and not content.
   */
  lemma TaskNumberInput(s: State, cfg: Config, ds: string, files: seq<string>, now: string)
    requires |ds| > 0 && AllDigits(ds)
    ensures InputStep(s, cfg, ds, 1, files, now) == CompleteByNumber(s, cfg, ds)
  {
    NumeralInput(ds);
  }

  /** Typed digits are not a command, trim to themselves, and pass the digits test. */
  lemma NumeralInput(ds: string)
    requires |ds| > 0 && AllDigits(ds)
    ensures !StartsWith(ds, "/") && Trim(ds) == ds && IsNumeral(Trim(ds))
  {
    assert IsDigit(ds[0]) && IsDigit(ds[|ds| - 1]);
    TrimUnchanged(ds);
  }

  /**
   * Completing a task by number on a readable task log: the answer is
   * `TaskCompleted`, and reading the log again gives the same tasks with
   * the chosen one now completed, its text and note unchanged.
   */
  lemma CompleteByNumberTicks(s: State, cfg: Config, t: string)
    requires cfg.logPath(Content.Task) in s.disk
    requires ChosenTask(ReadTasks(s.disk, cfg.logPath(Content.Task)), ParseInt(t)).Some?
    ensures var path := cfg.logPath(Content.Task);
            var tasks := ReadTasks(s.disk, path);
            var k := ChosenTask(tasks, ParseInt(t)).value;
            var r := CompleteByNumber(s, cfg, t);
            var again := ReadTasks(r.after.disk, path);
            && r.outcome == TaskCompleted
            && 0 <= k < |tasks|
            && |again| == |tasks|
            && again[k].completed
            && again[k].content == tasks[k].content
            && again[k].sourceFile == tasks[k].sourceFile
            && forall i :: 0 <= i < |tasks| && i != k ==> again[i] == tasks[i]
  {
    var path := cfg.logPath(Content.Task);
    var tasks := ReadTasks(s.disk, path);
    ChosenTaskIsPending(tasks, ParseInt(t));
    var k := ChosenTask(tasks, ParseInt(t)).value;
    TaskLog.CompleteTaskReparse(s.disk[path], k);
  }

  // ---------------------------------------------------------------------
  // Commands

  /** `/open` only ever opens a note of the listed files, inside the vault. */
  lemma OpenOnlyListed(s: State, cfg: Config, command: string, files: seq<string>, now: string)
    ensures var r := CommandStep(s, cfg, command, files, now).after;
            r.currentFile == s.currentFile ||
            exists f :: f in files && r.currentFile == Some(JoinPath(cfg.vaultPath, f))
  {
    var r := CommandStep(s, cfg, command, files, now).after;
    if r.currentFile != s.currentFile {
      var f := OpenChoice(files, Trim(command[5..]));
      assert f in files && r.currentFile == Some(JoinPath(cfg.vaultPath, f));
    }
  }

  /** A target that parses as a listed note's number picks that note. */
  lemma OpenChoiceNumber(files: seq<string>, target: string, n: int)
    requires ParseInt(target) == Some(n) && 1 <= n <= |files|
    ensures OpenChoice(files, target) == files[n - 1]
  {
  }

  /** A typed `/open x` is the open command on `x` trimmed, whatever `x` is. */
  lemma OpenCommand(s: State, cfg: Config, x: string, files: seq<string>, now: string)
    requires |x| > 0
    ensures CommandStep(s, cfg, "open " + x, files, now) == OpenStep(s, cfg, files, Trim(x))
  {
    var command := "open " + x;
    assert command[5..] == x;
    assert StartsWith(command, "open ");
  }

  /**
   * `/open target`, where `parseInt` reads the target as the number `n` of a
   * listed note, opens that note and loads its text when it is on disk.
   */
  lemma OpenByNumber(s: State, cfg: Config, target: string, files: seq<string>, n: int)
    requires ParseInt(target) == Some(n) && 1 <= n <= |files|
    ensures var path := JoinPath(cfg.vaultPath, files[n - 1]);
            var r := OpenStep(s, cfg, files, target);
            && r.after.currentFile == Some(path)
            && (path in s.disk ==> r.after.currentContent == s.disk[path] && r.outcome == Answer(true))
            && (path !in s.disk ==> r.outcome == Failed)
  {
    OpenChoiceNumber(files, target, n);
  }
}
