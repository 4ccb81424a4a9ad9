/**
 * The interactive session (the ObsidianCLI class of src/obsidian-cli.js):
 * one open note held in memory, edits that go through the content engine
 * and are saved at once with a fresh `updated_at:` stamp, routed entries
 * that are also copied into a central log, and the commands typed at the
 * prompt.
 *
 * The files the session touches are a map from path to text; the clock is
 * a parameter `now` (the ISO-8601 save time), and the list of markdown
 * files in the vault is a parameter of the commands that read it.
 */
module Session {
  import opened Wrappers
  import opened Text
  import opened Lines
  import Content
  import TaskLog
  import CentralLog

  /** Where the session's files live: the vault and the central log of each kind of entry. */
  datatype Config = Config(vaultPath: string, logPath: Content.Category -> string)

  /**
   * The session's state: the open note (`None` for null), its text, the
   * 1-based line of the last insertion, and the files on disk.
   */
  datatype State = State(currentFile: Option<string>, currentContent: string, lastInsertedLine: Option<int>, disk: map<string, string>)

  /** An edit's new state and the boolean it returns. */
  datatype Step = Step(after: State, ok: bool)

  /** What processInput answers. `NoAnswer` is the `undefined` a bare `/open` gives when the vault has no notes. */
  datatype Outcome = Answer(ok: bool) | TaskCompleted | InvalidTaskNumber | NoAnswer | DailyNote | Exit | Failed

  /** processInput's new state and answer. */
  datatype Reply = Reply(after: State, outcome: Outcome)

  /** Reading a file: its text, or `None` when it does not exist. */
  function ReadFile(disk: map<string, string>, path: string): (r: Option<string>)
    ensures r.Some? <==> path in disk
  {
    if path in disk then Some(disk[path]) else None
  }

  /** `path.join(dir, name)` for a plain file name (no normalisation). */
  function JoinPath(dir: string, name: string): string {
    dir + "/" + name
  }

  /** The open note is on disk exactly as the session holds it. */
  predicate Synced(s: State) {
    s.currentFile.Some? ==> s.currentFile.value in s.disk && s.disk[s.currentFile.value] == s.currentContent
  }

  // ---------------------------------------------------------------------
  // Saving and editing

  /** saveCurrentFileContent: with a note open, stamp its text and write it out. */
  function Save(s: State, now: string): (r: State)
    ensures r.currentFile == s.currentFile && r.lastInsertedLine == s.lastInsertedLine
  {
    if s.currentFile.None? then s
    else
      var stamped := Content.InjectMetadata(s.currentContent, now);
      s.(currentContent := stamped, disk := s.disk[s.currentFile.value := stamped])
  }

  /** addContent: refused without an open note; otherwise edit, remember the line, save. */
  function AddContentStep(s: State, added: string, mode: Content.Mode, now: string): Step {
    if s.currentFile.None? then Step(s, false)
    else
      var r := Content.AddContent(s.currentContent, added, mode);
      Step(Save(s.(currentContent := r.newContent, lastInsertedLine := Some(r.insertedLine)), now), true)
  }

  /** The edit addToSection makes: into the section when it exists, else appended at the end. */
  function SectionOrAppend(current: string, name: string, entry: string): Content.Edit {
    match Content.SectionInsertion(current, name, entry)
    case Some(e) => e
    case None => Content.AddContent(current, entry, Content.Append)
  }

  /** addToSection: refused without an open note; otherwise always succeeds. */
  function AddToSectionStep(s: State, name: string, entry: string, now: string): Step {
    if s.currentFile.None? then Step(s, false)
    else
      var e := SectionOrAppend(s.currentContent, name, entry);
      Step(Save(s.(currentContent := e.newContent), now).(lastInsertedLine := Some(e.insertedLine)), true)
  }

  /** insertContentAtLine: refused without an open note or with a line index out of range. */
  function InsertAtLineStep(s: State, entry: string, n: int, now: string): Step {
    if s.currentFile.None? then Step(s, false)
    else
      match Content.InsertContentAtLine(s.currentContent, entry, n)
      case None => Step(s, false)
      case Some(r) => Step(Save(s.(currentContent := r.newContent, lastInsertedLine := Some(r.insertedLine)), now), true)
  }

  /** replaceContentAtLine: like insertion, but the last inserted line is left alone. */
  function ReplaceAtLineStep(s: State, entry: string, n: int, now: string): Step {
    if s.currentFile.None? then Step(s, false)
    else
      match Content.ReplaceContentAtLine(s.currentContent, entry, n)
      case None => Step(s, false)
      case Some(c) => Step(Save(s.(currentContent := c), now), true)
  }

  // ---------------------------------------------------------------------
  // The central logs

  /** `path.basename(p)`: the text after the last `/` (trailing separators are not expected here). */
  function Basename(p: string): (r: string)
    ensures '/' !in r && |r| <= |p|
  {
    if |p| == 0 || p[|p| - 1] == '/' then ""
    else Basename(p[..|p| - 1]) + [p[|p| - 1]]
  }

  /** The note an entry came from: the basename without `.md`, or `unknown` with no note open. */
  function SourceName(file: Option<string>): string {
    match file
    case None => "unknown"
    case Some(p) =>
      if p == ".md" then ""
      else
        var b := Basename(p);
        if |b| > 3 && EndsWith(b, ".md") then b[..|b| - 3] else b
  }

  /** The line each central log gets: a checkbox for tasks, a bullet otherwise, then the source note. */
  function LogEntry(c: Content.Category, raw: string, src: string): string {
    (if c == Content.Task then "- [ ] " else "- ") + raw + " *[[" + src + "]]*"
  }

  /** The text a central log starts from when it cannot be read. */
  function Header(c: Content.Category): string {
    var (title, items, verb) :=
      match c
      case Task => ("Task", "tasks", "created")
      case Idea => ("Ideas", "ideas", "captured")
      case Question => ("Questions", "questions", "captured")
      case Insight => ("Insights", "insights", "captured");
    "# " + title + " Log\n\nCentralized log of all " + items + " " + verb + " across daily notes.\n\n"
  }

  /**
   * The line a new entry goes above: the first checkbox line in the task
   * log; in the others, the first bullet with no checkbox anywhere on it.
   */
  function Accepts(c: Content.Category): string -> bool {
    if c == Content.Task then IsTaskLine else IsBulletLine
  }

  /** The task log's insertion point: a checkbox line, once trimmed. */
  predicate IsTaskLine(line: string) {
    StartsWith(Trim(line), "- [ ]") || StartsWith(Trim(line), "- [x]")
  }

  /** The other logs' insertion point: a bullet with no checkbox anywhere on the line. */
  predicate IsBulletLine(line: string) {
    StartsWith(Trim(line), "- ") && !Contains(line, "[ ]") && !Contains(line, "[x]")
  }

  /** log…ToCentralFile: log the entry for `raw`, citing the open note, into the log of kind `c`. */
  function LogStep(s: State, cfg: Config, c: Content.Category, raw: string): (r: State)
    ensures r.currentFile == s.currentFile && r.currentContent == s.currentContent
    ensures r.lastInsertedLine == s.lastInsertedLine
  {
    var path := cfg.logPath(c);
    var entry := LogEntry(c, raw, SourceName(s.currentFile));
    s.(disk := s.disk[path := CentralLog.Logged(ReadFile(s.disk, path), entry, Header(c), Accepts(c))])
  }

  /**
   * processContentInput: unrouted input is appended, trimmed; routed input
   * goes into its section (or is appended) and into exactly one central
   * log, and the answer is true even when no note is open.
   */
  function ContentInputStep(s: State, cfg: Config, input: string, now: string): Step {
    match Content.ParseContentInput(input)
    case None => AddContentStep(s, Trim(input), Content.Append, now)
    case Some(p) => Step(LogStep(AddToSectionStep(s, p.section, p.formatted, now).after, cfg, p.category, p.raw), true)
  }

  // ---------------------------------------------------------------------
  // processInput

  /** The note `/open target` picks: the `N`-th listed note when the target reads as `1 <= N <= count`, else the target itself. */
  function OpenChoice(files: seq<string>, target: string): string {
    match ParseInt(target)
    case Some(n) => if 0 < n <= |files| then files[n - 1] else target
    case None => target
  }

  /** A slash command, already lower-cased and trimmed. `/daily` is answered but its effect is not modelled. */
  function CommandStep(s: State, cfg: Config, command: string, files: seq<string>, now: string): Reply {
    if command == "view" || command == "files" || command == "help" then Reply(s, Answer(false))
    else if command == "save" then Reply(Save(s, now), Answer(false))
    else if command == "open" then (if |files| > 0 then Reply(s, Answer(false)) else Reply(s, NoAnswer))
    else if command == "daily" then Reply(s, DailyNote)
    else if command == "exit" then Reply(s, Exit)
    else if StartsWith(command, "open ") then OpenStep(s, cfg, files, Trim(command[5..]))
    else Reply(s, Answer(false))
  }

  /**
   * `/open target`: a listed note is opened and loaded; a target that is
   * not listed is refused; a listed note missing on disk stays open with
   * the old text and the failed read propagates.
   */
  function OpenStep(s: State, cfg: Config, files: seq<string>, target: string): Reply {
    var filename := OpenChoice(files, target);
    if filename !in files then Reply(s, Answer(false))
    else
      var path := JoinPath(cfg.vaultPath, filename);
      match ReadFile(s.disk, path)
      case Some(text) => Reply(s.(currentFile := Some(path), currentContent := text), Answer(true))
      case None => Reply(s.(currentFile := Some(path)), Failed)
  }

  /** The tasks a session reads from the task log: none when it is missing. */
  function ReadTasks(disk: map<string, string>, path: string): seq<TaskLog.Task> {
    if path in disk then TaskLog.TasksOf(Split(disk[path])) else []
  }

  /** The tasks not yet completed, in order. */
  function Pending(tasks: seq<TaskLog.Task>): (r: seq<TaskLog.Task>)
    ensures |r| <= |tasks|
  {
    if |tasks| == 0 then []
    else
      var prev := Pending(tasks[..|tasks| - 1]);
      var t := tasks[|tasks| - 1];
      if t.completed then prev else prev + [t]
  }

  /** The pending list holds exactly the tasks not yet completed. */
  lemma {:induction false} PendingMembers(tasks: seq<TaskLog.Task>)
    ensures forall t :: t in Pending(tasks) <==> t in tasks && !t.completed
    decreases |tasks|
  {
    if |tasks| > 0 {
      var m := |tasks| - 1;
      PendingMembers(tasks[..m]);
      assert tasks == tasks[..m] + [tasks[m]];
    }
  }

  /** The first task from `i` on that is not completed and has the given text, or -1. */
  function FindPendingFrom(tasks: seq<TaskLog.Task>, content: string, i: nat): (k: int)
    requires i <= |tasks|
    ensures k == -1 || (i <= k < |tasks| && !tasks[k].completed && tasks[k].content == content)
    ensures k == -1 ==> forall j :: i <= j < |tasks| ==> tasks[j].completed || tasks[j].content != content
    ensures k != -1 ==> forall j :: i <= j < k ==> tasks[j].completed || tasks[j].content != content
    decreases |tasks| - i
  {
    if i == |tasks| then -1
    else if !tasks[i].completed && tasks[i].content == content then i
    else FindPendingFrom(tasks, content, i + 1)
  }

  /** `tasks.findIndex(t => t.content === content && !t.completed)`. */
  function FindPending(tasks: seq<TaskLog.Task>, content: string): int {
    FindPendingFrom(tasks, content, 0)
  }

  /** Typed digits: `/^\d+$/` on the trimmed input. */
  predicate IsNumeral(t: string) {
    |t| > 0 && AllDigits(t)
  }

  /**
   * The task a typed number names, given what `parseInt` made of it: the
   * first pending task with the same text as the `N`-th pending task;
   * `None` when the input is not a pending task's number.
   */
  function ChosenTask(tasks: seq<TaskLog.Task>, number: Option<int>): Option<int> {
    var pending := Pending(tasks);
    match number
    case None => None
    case Some(n) => if 0 <= n - 1 < |pending| then Some(FindPending(tasks, pending[n - 1].content)) else None
  }

  /**
   * On the tasks tab, a number `N` completes the `N`-th pending task: the
   * first pending task with the same text is ticked in the log file.
   */
  function CompleteByNumber(s: State, cfg: Config, t: string): Reply {
    var path := cfg.logPath(Content.Task);
    var tasks := ReadTasks(s.disk, path);
    match ChosenTask(tasks, ParseInt(t))
    case None => Reply(s, InvalidTaskNumber)
    case Some(k) =>
      var w := TaskLog.CompletedLog(ReadFile(s.disk, path), k, tasks);
      Reply(if w.Some? then s.(disk := s.disk[path := w.value]) else s, TaskCompleted)
  }

  /** processInput: a slash command, a task number on the tasks tab, or content. */
  function InputStep(s: State, cfg: Config, input: string, currentTab: int, files: seq<string>, now: string): Reply {
    if StartsWith(input, "/") then CommandStep(s, cfg, Trim(ToLowerAscii(input[1..])), files, now)
    else if currentTab == 1 && IsNumeral(Trim(input)) then CompleteByNumber(s, cfg, Trim(input))
    else
      var r := ContentInputStep(s, cfg, input, now);
      Reply(r.after, Answer(r.ok))
  }

  /**
   * The lookup completeTaskByNumber does: the pending tasks, the number
   * parsed, and the index of the task with that number's text.
   */
  method ChooseTask(tasks: seq<TaskLog.Task>, t: string) returns (k: Option<int>)
    ensures k == ChosenTask(tasks, ParseInt(t))
  {
    var taskIndex := ParseInt(t);
    var pendingTasks := Pending(tasks);
    if taskIndex.Some? && taskIndex.value - 1 >= 0 && taskIndex.value - 1 < |pendingTasks| {
      return Some(FindPending(tasks, pendingTasks[taskIndex.value - 1].content));
    }
    return None;
  }

  // ---------------------------------------------------------------------
  // The session object

  class ObsidianCli {
    const config: Config
    var currentFile: Option<string>
    var currentContent: string
    var lastInsertedLine: Option<int>
    var disk: map<string, string>

    function Snapshot(): State
      reads this
    {
      State(currentFile, currentContent, lastInsertedLine, disk)
    }

    constructor(config: Config, disk: map<string, string>)
      ensures this.config == config
      ensures Snapshot() == State(None, "", None, disk)
    {
      this.config := config;
      this.disk := disk;
      currentFile := None;
      currentContent := "";
      lastInsertedLine := None;
    }

    /** loadCurrentFileContent: false when the read fails (the error propagates to the caller). */
    method LoadCurrentFileContent() returns (loaded: bool)
      modifies this
      ensures loaded == (old(currentFile).None? || old(currentFile).value in old(disk))
      ensures currentFile == old(currentFile) && lastInsertedLine == old(lastInsertedLine) && disk == old(disk)
      ensures currentContent == (if old(currentFile).Some? && old(currentFile).value in old(disk) then old(disk)[old(currentFile).value] else old(currentContent))
    {
      loaded := true;
      if currentFile.Some? {
        if currentFile.value in disk {
          currentContent := disk[currentFile.value];
        } else {
          loaded := false;
        }
      }
    }

    method SaveCurrentFileContent(now: string)
      modifies this
      ensures Snapshot() == Save(old(Snapshot()), now)
    {
      if currentFile.Some? {
        currentContent := Content.InjectMetadata(currentContent, now);
        disk := disk[currentFile.value := currentContent];
      }
    }

    method AddContent(added: string, mode: Content.Mode, now: string) returns (ok: bool)
      modifies this
      ensures Step(Snapshot(), ok) == AddContentStep(old(Snapshot()), added, mode, now)
    {
      if currentFile.None? {
        return false;
      }
      var result := Content.AddContent(currentContent, added, mode);
      currentContent := result.newContent;
      lastInsertedLine := Some(result.insertedLine);
      SaveCurrentFileContent(now);
      return true;
    }

    method AddToSection(name: string, entry: string, now: string) returns (ok: bool)
      modifies this
      ensures Step(Snapshot(), ok) == AddToSectionStep(old(Snapshot()), name, entry, now)
    {
      if currentFile.None? {
        return false;
      }
      var result := Content.AddToSection(currentContent, name, entry);
      if result.None? {
        ok := AddContent(entry, Content.Append, now);
        return;
      }
      currentContent := result.value.newContent;
      SaveCurrentFileContent(now);
      lastInsertedLine := Some(result.value.insertedLine);
      return true;
    }

    method InsertContentAtLine(entry: string, n: int, now: string) returns (ok: bool)
      modifies this
      ensures Step(Snapshot(), ok) == InsertAtLineStep(old(Snapshot()), entry, n, now)
    {
      if currentFile.None? {
        return false;
      }
      var result := Content.InsertContentAtLine(currentContent, entry, n);
      if result.None? {
        return false;
      }
      currentContent := result.value.newContent;
      lastInsertedLine := Some(result.value.insertedLine);
      SaveCurrentFileContent(now);
      return true;
    }

    method ReplaceContentAtLine(entry: string, n: int, now: string) returns (ok: bool)
      modifies this
      ensures Step(Snapshot(), ok) == ReplaceAtLineStep(old(Snapshot()), entry, n, now)
    {
      if currentFile.None? {
        return false;
      }
      var result := Content.ReplaceContentAtLine(currentContent, entry, n);
      if result.None? {
        return false;
      }
      currentContent := result.value;
      SaveCurrentFileContent(now);
      return true;
    }

    /** The four log…ToCentralFile wrappers, told apart by `c`. */
    method LogToCentralFile(c: Content.Category, raw: string)
      modifies this
      ensures Snapshot() == LogStep(old(Snapshot()), config, c, raw)
    {
      ghost var before := Snapshot();
      var path := config.logPath(c);
      var entry := LogEntry(c, raw, SourceName(currentFile));
      var written := CentralLog.LogToCentralFile(ReadFile(disk, path), entry, Header(c), Accepts(c));
      disk := disk[path := written];
      assert Snapshot() == before.(disk := before.disk[path := written]);
    }

    method ProcessContentInput(input: string, now: string) returns (ok: bool)
      modifies this
      ensures Step(Snapshot(), ok) == ContentInputStep(old(Snapshot()), config, input, now)
    {
      var parsed := Content.ParseContentInput(input);
      if parsed.None? {
        ok := AddContent(Trim(input), Content.Append, now);
        return;
      }
      var _ := AddToSection(parsed.value.section, parsed.value.formatted, now);
      LogToCentralFile(parsed.value.category, parsed.value.raw);
      return true;
    }

    method RunCommand(command: string, files: seq<string>, now: string) returns (outcome: Outcome)
      modifies this
      ensures Reply(Snapshot(), outcome) == CommandStep(old(Snapshot()), config, command, files, now)
    {
      if command == "view" || command == "files" || command == "help" {
        return Answer(false);
      } else if command == "save" {
        SaveCurrentFileContent(now);
        return Answer(false);
      } else if command == "open" {
        if |files| > 0 {
          return Answer(false);
        }
        return NoAnswer;
      } else if command == "daily" {
        return DailyNote;
      } else if command == "exit" {
        return Exit;
      } else if StartsWith(command, "open ") {
        var target := Trim(command[5..]);
        var filename := target;
        var num := ParseInt(target);
        if num.Some? && num.value > 0 && num.value <= |files| {
          filename := files[num.value - 1];
        }
        if filename in files {
          currentFile := Some(JoinPath(config.vaultPath, filename));
          var loaded := LoadCurrentFileContent();
          if !loaded {
            return Failed;
          }
          return Answer(true);
        }
        return Answer(false);
      }
      return Answer(false);
    }

    method CompleteTaskByNumber(t: string) returns (outcome: Outcome)
      modifies this
      ensures Reply(Snapshot(), outcome) == CompleteByNumber(old(Snapshot()), config, t)
    {
      ghost var before := Snapshot();
      var path := config.logPath(Content.Task);
      var tasks := TaskLog.ReadTaskLog(ReadFile(disk, path));
      var originalTaskIndex := ChooseTask(tasks, t);
      if originalTaskIndex.None? {
        return InvalidTaskNumber;
      }
      var written := TaskLog.CompleteTask(ReadFile(disk, path), originalTaskIndex.value, tasks);
      if written.Some? {
        disk := disk[path := written.value];
        assert Snapshot() == before.(disk := before.disk[path := written.value]);
      }
      return TaskCompleted;
    }

    method ProcessInput(input: string, currentTab: int, files: seq<string>, now: string) returns (outcome: Outcome)
      modifies this
      ensures Reply(Snapshot(), outcome) == InputStep(old(Snapshot()), config, input, currentTab, files, now)
    {
      if StartsWith(input, "/") {
        var command := Trim(ToLowerAscii(input[1..]));
        outcome := RunCommand(command, files, now);
      } else if currentTab == 1 && IsNumeral(Trim(input)) {
        outcome := CompleteTaskByNumber(Trim(input));
      } else {
        var ok := ProcessContentInput(input, now);
        outcome := Answer(ok);
      }
    }
  }
}
