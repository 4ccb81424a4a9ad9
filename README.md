# obsidian-cli, modelled in Dafny

obsidian-cli is a terminal front end for an Obsidian vault, that is, a folder of Markdown notes.
The user types a line at a prompt. The line is one of these:

- a slash command (`/open`, `/daily`, `/save`, `/exit`, ...);
- on the tasks tab, a task number to tick off;
- a note line.

A note line that starts with a category prefix goes under a section of the current daily note:

| prefix | category | section |
|---|---|---|
| `[]` | task | `## Tasks` |
| `-` | idea | `## Ideas` |
| `?` | question | `## Questions` |
| `!` | insight | `## Insights` |

The same line is also logged in a central log file for that category. New log entries are placed above the older ones.
Every save refreshes, or inserts, an `updated_at:` metadata block under the note's title.
The central task log can be read back as a list of tasks. A task can be ticked in place (`- [ ]` becomes `- [x]`) and filtered by the age of its source note.

The repository also holds an older editor. Its lines can address a line of the note:

- `[5] text` overwrites line 5;
- `[n5] text` inserts after line 5;
- `> [..] text` is the prompt form it strips;
- `/clear` resets the page.

It also holds the prompt's own line editor: a buffer with a cursor, arrow and delete keys, and a printable-character filter.

## Modules

The model has one file per part of the program.

- `wrappers.dfy`: `Option`.
- `text.dfy`: the JavaScript string primitives the code relies on, written out:
  - `trim`, `trimStart` and `trimEnd`, using ECMAScript's white-space and line-terminator set;
  - `startsWith`, `includes`, `indexOf` and `replace` with a string pattern;
  - `parseInt`, including leading white space, a sign, `0x` and digit prefixes;
  - ASCII lower-casing;
  - code-unit string comparison.
- `lines.dfy`: `split('\n')` and `join('\n')`, with both round trips.
- `content.dfy` (`src/modules/content.js`): section lookup, section insertion, the three add modes, insert and replace at a line, prefix routing and metadata injection.
- `central_log.dfy` (`src/modules/logger.js`): insertion of an entry above the first matching entry of a central log.
- `task_log.dfy` (`src/modules/task-manager.js`): parsing the task log, ticking a task, filtering recent tasks.
- `session.dfy` (`src/obsidian-cli.js`): the `ObsidianCli` class, whose fields are the open note, its text, the last inserted line, and the vault as a map from path to text. Each method is specified by a function on a state snapshot.
- `session_facts.dfy`: properties of the `ObsidianCli` session that relate several operations.
- `legacy_editor.dfy` (`src/obsidian.js`): the older `ObsidianInterface` editor, covering prompt stripping, routing, line edits and file opening.
- `prompt_line.dfy` (`src/modules/ui/interface.js`): the input buffer and cursor, the keypress handler, the scroll-to-inserted-line rule, the tab cycle, and the custom input's `handleInput`.

## Model

| member | source | states |
|---|---|---|
| Text.Trim | src/modules/content.js:121 | `trim`: white space removed at both ends (its parts are specified by `Text.TrimStartSpec` and `Text.TrimEndSpec`) |
| Text.TrimStartSpec | src/modules/content.js:121 | `trimStart` removes exactly a leading run of white space |
| Text.TrimEndSpec | src/modules/content.js:121 | `trimEnd` removes exactly a trailing run of white space |
| Text.TrimEmptyIff | src/obsidian.js:116 | trimmed text is empty exactly when the text is all white space |
| Text.IndexOfFirst | src/obsidian.js:208 | `indexOf` finds the first occurrence |
| Text.ParseInt | src/obsidian-cli.js:251 | `parseInt` with no radix: leading white space skipped, one sign, `0x` selecting base 16, then the longest digit run; no digits gives NaN, modelled as `None` |
| Text.ParseIntDigitPrefix | src/obsidian-cli.js:251 | `parseInt` reads a leading run of decimal digits as its base-10 value, whatever non-digit follows, except an `x` after a lone `0` |
| Lines.JoinSplit | src/modules/content.js:28-57 | joining the split lines gives back the text |
| Lines.SplitJoin | src/modules/content.js:28-57 | splitting joined single lines gives back the lines |
| Lines.SplitConcat | src/modules/content.js:65-86 | splitting text joined by a line feed gives the two splits in order |
| Content.SectionIndexFrom | src/modules/content.js:15-22 | the result is -1 or an index of a heading line for the section, and no earlier line is that heading |
| Content.FindSectionIndex | src/modules/content.js:15-22 | the loop returns the first `## name` heading; -1 exactly when no line is that heading |
| Content.SectionEnd | src/modules/content.js:35-45 | the section ends at the next heading line after the section heading, or at the end of the document |
| Content.LastContentLine | src/modules/content.js:36-45 | the last non-blank line of the section, or the heading itself; every line after it up to the section end is blank |
| Content.ScanSection | src/modules/content.js:35-45 | the scan loop yields the section end, the last content line, and whether the section has content |
| Content.SectionInsertion | src/modules/content.js:27-60 | there is no edit exactly when the section heading is absent |
| Content.AddToSection | src/modules/content.js:27-60 | the method returns the section-insertion edit |
| Content.SectionInsertionPlacement | src/modules/content.js:47-58 | the entry goes right after the last content line of its section (blank lines stay below it), and the result is that one-line insertion |
| Content.EntryStaysInSection | src/modules/content.js:27-60 | after the insertion, the same heading still opens the section, the section grows by one line, and the entry lies inside it at the reported 1-based line |
| Content.ConsecutiveSectionEntries | src/modules/content.js:27-60 | two entries for one section end up in call order on adjacent lines |
| Content.AddContent | src/modules/content.js:65-86 | the three add modes on the note's text; what they do to its lines is stated by `Content.AddContentLines` |
| Content.AddContentLines | src/modules/content.js:65-86 | append puts the new lines after the old ones and reports the first new line; prepend puts them first and reports line 1; replace keeps only the new lines |
| Content.InsertContentAtLine | src/modules/content.js:91-100 | `splice` of the text into the split lines at index n, or `None` out of range; stated by `Content.InsertContentAtLineSpec` |
| Content.InsertContentAtLineSpec | src/modules/content.js:91-100 | succeeds exactly for 0 <= n <= line count; the text becomes line n; earlier lines stay; later lines move down by one |
| Content.ReplaceContentAtLine | src/modules/content.js:105-114 | assignment to 1-based line n, or `None` out of range; stated by `Content.ReplaceContentAtLineSpec` |
| Content.ReplaceContentAtLineSpec | src/modules/content.js:105-114 | succeeds exactly for 1 <= n <= line count; only line n changes and the line count is kept |
| Content.ParseContentInput | src/modules/content.js:120-138 | the prefix chain on the trimmed input: section, formatted line, category and raw text, or `None`; stated by the next four rows |
| Content.ParseContentInputRouted | src/modules/content.js:120-138 | the input is routed exactly when its trimmed form starts with one of the four prefixes |
| Content.ParseContentInputFirstPrefix | src/modules/content.js:120-138 | the first matching prefix decides the section, formatted line, category and trimmed raw text |
| Content.ParseContentInputRoundTrip | src/modules/content.js:120-138 | prefix + space + raw text parses back to that category and raw text |
| Content.PrefixesDisjoint | src/modules/content.js:123-135 | a line starting with one prefix starts with no other prefix |
| Content.FormattedFitsSection | src/modules/content.js:123-135 | a routed line is a single non-blank, non-heading line, so it can be placed in a section |
| Content.InjectMetadata | src/modules/content.js:143-170 | re-stamp every `updated_at:` line, or insert the block under a `#` title, or leave the text; stated by the next four rows |
| Content.InjectMetadataLines | src/modules/content.js:143-170 | with an `updated_at:` line present, each such line is re-stamped and the others are kept; otherwise a `---` block goes after a `#` title; without a title the text is unchanged |
| Content.InjectMetadataRefreshes | src/modules/content.js:159-166 | with a metadata line present, the lines are the re-stamped lines |
| Content.InjectMetadataInserts | src/modules/content.js:147-158 | with no metadata and a `#` title, the lines are the title, the three-line block, then the rest |
| Content.InjectMetadataIdempotent | src/modules/content.js:143-170 | injecting twice equals injecting once with the later time stamp; the second save adds no lines |
| Content.RestampTwice | src/modules/content.js:159-166 | re-stamping twice equals re-stamping once with the later stamp |
| CentralLog.FirstMatch | src/modules/logger.js:22-27 | the first index whose line satisfies the predicate, or -1 when none does |
| CentralLog.Logged | src/modules/logger.js:10-40 | the text `logToCentralFile` writes; stated by the `CentralLog` rows below |
| CentralLog.LogToCentralFile | src/modules/logger.js:10-40 | the text written is the existing file (or the header when it is missing) with the entry inserted |
| CentralLog.LoggedAboveFirstMatch | src/modules/logger.js:21-33 | the entry goes just above the first matching line; removing it gives back the old lines |
| CentralLog.LoggedAtEnd | src/modules/logger.js:29-30 | with no matching line, a blank line and the entry are appended |
| CentralLog.LoggedSplit | src/modules/logger.js:10-40 | reading the written file back as lines gives the line-level insertion |
| CentralLog.LoggedFirst | src/modules/logger.js:21-33 | after logging, the new entry is the first matching line |
| CentralLog.LogTwiceNewestFirst | src/modules/logger.js:10-40 | after two log calls, the newer entry sits directly above the older one |
| CentralLog.LoggedCount | src/modules/logger.js:10-40 | logging adds exactly one matching line when the entry matches, none otherwise |
| TaskLog.MatchTaskPattern | src/modules/task-manager.js:15 | the regular expression `^- \[.\] (.+?)( \*\[\[(.+?)\]\]\*)?$`: lazy content, optional note link; stated by `TaskLog.MatchTaskEntry` and `TaskLog.MatchBareTask` |
| TaskLog.ParseTaskLine | src/modules/task-manager.js:12-26 | a trimmed checkbox line that matches the pattern gives content, completion and source (`unknown` without a link) |
| TaskLog.CollectTasks | src/modules/task-manager.js:11-28 | the parsed lines in order, each numbered by its position among the tasks; never more tasks than lines |
| TaskLog.CollectTasksRecords | src/modules/task-manager.js:11-28 | every collected task records the line it came from and its parse; tasks appear in line order |
| TaskLog.CollectTasksComplete | src/modules/task-manager.js:11-28 | every line that parses as a task is collected |
| TaskLog.TasksOfComplete | src/modules/task-manager.js:11-28 | every task line appears as a task whose index is its position |
| TaskLog.ReadTaskLog | src/modules/task-manager.js:5-38 | the loop returns the parsed tasks of the file, or no tasks when the file is missing |
| TaskLog.MatchTaskEntry | src/modules/task-manager.js:15-22 | an entry `- [m] content *[[note]]*` parses back to its content and note |
| TaskLog.MatchBareTask | src/modules/task-manager.js:15-22 | an entry without a note link parses with source `unknown` |
| TaskLog.CompletedLog | src/modules/task-manager.js:40-74 | the log text after ticking the task, or nothing written; stated by `TaskLog.CompletedLogLines` |
| TaskLog.CompleteTask | src/modules/task-manager.js:40-74 | the method writes exactly the completed log |
| TaskLog.CompletedLogLines | src/modules/task-manager.js:40-74 | an out-of-range or already-completed index writes nothing; otherwise only the task's line changes (`- [ ]` becomes `- [x]`) and the line count is kept |
| TaskLog.TickedTaskLine | src/modules/task-manager.js:61 | a ticked task line parses as the same task, now completed |
| TaskLog.CompleteTaskReparse | src/modules/task-manager.js:40-74 | re-reading the log after completion gives the same tasks, except that the chosen one is completed with the same content and source |
| TaskLog.RecentTasks | src/modules/task-manager.js:76-96 | the kept tasks are exactly the tasks whose source note is recent enough |
| TaskLog.FilterRecentTasks | src/modules/task-manager.js:76-96 | the loop returns the recent tasks, in order |
| TaskLog.RecentTasksConcat | src/modules/task-manager.js:76-96 | filtering distributes over concatenation, so the order is kept |
| Session.ReadFile | src/obsidian-cli.js:345-349 | a read yields text exactly when the path exists |
| Session.Save | src/obsidian-cli.js:351-356 | a save keeps the open note and the last inserted line |
| Session.Basename | src/obsidian-cli.js:80 | the base name holds no `/` and is no longer than the path |
| Session.LogEntry | src/obsidian-cli.js:81 | `- [ ] raw *[[note]]*` for a task, `- raw *[[note]]*` for the other kinds (lines 91, 101, 111) |
| Session.Accepts | src/obsidian-cli.js:83-85 | the task log inserts above a checkbox line, the other logs above a bullet (lines 93-95, 103-105, 113-115); see `SessionFacts.TaskEntryAccepted` |
| Session.IsTaskLine | src/obsidian-cli.js:84 | a line whose trimmed form starts with `- [ ]` or `- [x]` |
| Session.IsBulletLine | src/obsidian-cli.js:94 | a line whose trimmed form starts with `- ` and that holds no `[ ]` and no `[x]` |
| Session.LogStep | src/obsidian-cli.js:78-117 | logging touches only the log file, never the open note |
| Session.Pending | src/obsidian-cli.js:271 | the pending tasks are no more than all the tasks |
| Session.PendingMembers | src/obsidian-cli.js:271 | the pending tasks are exactly the tasks that are not completed |
| Session.FindPendingFrom | src/obsidian-cli.js:274-277 | the first pending task with that content, or -1 when there is none |
| Session.ChooseTask | src/obsidian-cli.js:268-277 | the method picks the task given by the number |
| Session.AddContentStep | src/obsidian-cli.js:145-155 | refused without an open note; else the edit, the reported line, and a save; stated by `SessionFacts.EditOutcomes` |
| Session.AddToSectionStep | src/obsidian-cli.js:128-143 | refused without an open note; else the section insertion or, failing that, an append, then a save and the reported line; stated by `SessionFacts.SectionStepWrites` and `SessionFacts.SectionOrAppendInserts` |
| Session.InsertAtLineStep | src/obsidian-cli.js:157-172 | refused without an open note or out of range; else the insertion, the reported line and a save; stated by `SessionFacts.EditOutcomes` |
| Session.ReplaceAtLineStep | src/obsidian-cli.js:174-189 | as insertion, but the reported line is kept; stated by `SessionFacts.EditOutcomes` |
| Session.ContentInputStep | src/obsidian-cli.js:192-209 | unrouted input appended trimmed; routed input put in its section and logged once, answering true; stated by `SessionFacts.ContentInputAnswer` and `SessionFacts.RoutedInputLogged` |
| Session.CommandStep | src/obsidian-cli.js:212-267 | the answer and effect of each slash command; `/save` saves, `/daily` and `/exit` are outcomes, `open x` opens |
| Session.OpenStep | src/obsidian-cli.js:245-265 | a listed target (by number or name) is opened and loaded, else refused; stated by `SessionFacts.OpenOnlyListed` and `SessionFacts.OpenByNumber` |
| Session.CompleteByNumber | src/obsidian-cli.js:268-286 | the numbered pending task is ticked in the task log, or the number is invalid; stated by `SessionFacts.CompleteByNumberTicks` and `SessionFacts.ChosenTaskIsPending` |
| Session.InputStep | src/obsidian-cli.js:211-290 | a slash command, a task number on tab 1, or content, in that order; see `SessionFacts.TaskNumberInput` |
| Session.ObsidianCli.constructor | src/obsidian-cli.js:13-19 | no note open, empty text, no inserted line, the given vault |
| Session.ObsidianCli.LoadCurrentFileContent | src/obsidian-cli.js:345-349 | the open note's text is loaded when it exists; nothing else changes |
| Session.ObsidianCli.SaveCurrentFileContent | src/obsidian-cli.js:351-356 | the new state is the state after injecting metadata and writing the note |
| Session.ObsidianCli.AddContent | src/obsidian-cli.js:145-155 | the new state and answer are those of the add step |
| Session.ObsidianCli.AddToSection | src/obsidian-cli.js:128-143 | the new state and answer are those of the section step |
| Session.ObsidianCli.InsertContentAtLine | src/obsidian-cli.js:157-172 | the new state and answer are those of the insert step |
| Session.ObsidianCli.ReplaceContentAtLine | src/obsidian-cli.js:174-189 | the new state and answer are those of the replace step |
| Session.ObsidianCli.LogToCentralFile | src/obsidian-cli.js:78-117 | the new state is the log step |
| Session.ObsidianCli.ProcessContentInput | src/obsidian-cli.js:192-209 | the new state and answer are those of the content-input step |
| Session.ObsidianCli.RunCommand | src/obsidian-cli.js:212-267 | the new state and outcome are those of the command step |
| Session.ObsidianCli.CompleteTaskByNumber | src/obsidian-cli.js:268-286 | the new state and outcome are those of the complete-by-number step |
| Session.ObsidianCli.ProcessInput | src/obsidian-cli.js:211-290 | the new state and outcome are those of the input step |
| SessionFacts.EditOutcomes | src/obsidian-cli.js:128-189 | each edit succeeds exactly when a note is open (insert and replace also need the line to exist), writes only the open note, and keeps the note on disk equal to the text in memory |
| SessionFacts.SectionStepWrites | src/obsidian-cli.js:128-143 | adding to a section succeeds exactly when a note is open, and writes only that note |
| SessionFacts.SaveTwice | src/obsidian-cli.js:351-356 | saving twice equals saving once with the later time stamp |
| SessionFacts.SectionOrAppendInserts | src/obsidian-cli.js:128-143 | a missing section falls back to append; either way one line is inserted at the reported line |
| SessionFacts.FirstSaveShiftsInsertedLine | src/obsidian-cli.js:139-141 | the first save of an untagged note puts the entry three lines below the reported line |
| SessionFacts.ContentInputAnswer | src/obsidian-cli.js:192-209 | the answer is true exactly when the input is routed or a note is open |
| SessionFacts.RoutedInputLogged | src/obsidian-cli.js:192-209 | routed input is written to its category's log file, and no file other than that log and the note changes |
| SessionFacts.LoggedTaskReadsBack | src/obsidian-cli.js:78-86 | a logged task entry parses back as a pending task with its content and source note |
| SessionFacts.TaskEntryAccepted | src/obsidian-cli.js:83-85 | a task entry satisfies the task log's predicate and a blank line does not |
| SessionFacts.TaskLogNewestFirst | src/obsidian-cli.js:78-86 | two logged tasks end up newest first, on adjacent lines |
| SessionFacts.SourceNameOfNote | src/obsidian-cli.js:80 | a note at vault/name.md is cited as `[[name]]` |
| SessionFacts.ChosenTaskIsPending | src/obsidian-cli.js:268-277 | no task is chosen exactly when the number is outside 1..pending count; a chosen task is pending and has the numbered pending task's content |
| SessionFacts.ChosenTaskExact | src/obsidian-cli.js:268-277 | when pending contents are distinct, the chosen task is the numbered pending task |
| SessionFacts.TaskNumberInput | src/obsidian-cli.js:268 | on the tasks tab, a line of digits completes a task |
| SessionFacts.CompleteByNumberTicks | src/obsidian-cli.js:268-283 | completing by number ticks exactly the chosen task in the log; the other tasks read back unchanged |
| SessionFacts.OpenOnlyListed | src/obsidian-cli.js:245-265 | a command opens only a listed vault file, or leaves the open note alone |
| SessionFacts.OpenChoiceNumber | src/obsidian-cli.js:251-257 | a number from 1 to the file count picks that file |
| SessionFacts.OpenCommand | src/obsidian-cli.js:246-247 | `open x` opens the trimmed target x |
| SessionFacts.OpenByNumber | src/obsidian-cli.js:245-265 | a target that `parseInt` reads as k, from 1 to the file count, opens the k-th listed file: it is loaded when it exists, and the command fails otherwise |
| LegacyEditor.CloseFrom | src/obsidian.js:159 | a found `]` is followed by a tail the pattern accepts |
| LegacyEditor.CloseFromFirst | src/obsidian.js:159 | the lazy group stops at the first `]` whose tail fits, and no line terminator is skipped to reach it |
| LegacyEditor.CloseFromNone | src/obsidian.js:159 | no closing bracket is found only when no `]` reachable without crossing a line terminator has a tail that fits |
| LegacyEditor.ExtractContent | src/obsidian.js:158-167 | text not starting with `>` is returned unchanged |
| LegacyEditor.ExtractPrompt | src/obsidian.js:158-164 | `> [t] rest` becomes `[t'] rest'` with t and rest trimmed, or only `rest'` when t is blank |
| LegacyEditor.ExtractFallback | src/obsidian.js:166 | a `>` line that is not a bracket prompt loses only the `>` and the white space after it |
| LegacyEditor.EmptyPromptIgnored | src/obsidian.js:112-118 | the empty prompt `> [] ` extracts to blank text, which is not submitted |
| LegacyEditor.SlashCommand | src/obsidian.js:186-205 | a slash command is recognised only on a line starting with `/` |
| LegacyEditor.BracketRoute | src/obsidian.js:207-225 | a line-target route is taken only on a line starting with `[` |
| LegacyEditor.Route | src/obsidian.js:183-233 | a plain append adds the trimmed input |
| LegacyEditor.RouteOverwrite | src/obsidian.js:207-225 | `[k] text` overwrites line k with the trimmed text |
| LegacyEditor.RouteInsertAfter | src/obsidian.js:207-218 | `[nk] text` inserts the trimmed text after line k |
| LegacyEditor.RouteAppends | src/obsidian.js:227-232 | a line starting with neither `/` nor `[` is appended trimmed |
| LegacyEditor.Blanks | src/obsidian.js:242-244 | n empty lines |
| LegacyEditor.AddedLines | src/obsidian.js:235-258 | the lines after addContent, never empty; stated by `LegacyEditor.AddedLinesSpec` |
| LegacyEditor.AddedLinesSpec | src/obsidian.js:235-258 | see the note on targets below this table |
| LegacyEditor.SpliceStart | src/obsidian.js:264 | `splice` counts a negative start from the end, clamped at 0 |
| LegacyEditor.InsertedLines | src/obsidian.js:260-275 | the lines after insertNewLine, never empty; stated by `LegacyEditor.InsertedLinesSpec` |
| LegacyEditor.InsertedLinesSpec | src/obsidian.js:260-275 | a start inside the lines inserts there; a negative start inserts counted from the end; past the end pads with empty lines, then appends |
| LegacyEditor.EditedAreLines | src/obsidian.js:235-275 | edits keep every element a single line |
| LegacyEditor.Saved | src/obsidian.js:48-52 | a save writes the open note's text and leaves every other file alone |
| LegacyEditor.OpenTarget | src/obsidian.js:306-322 | a name with `/` or `.` is taken relative to the vault; another name goes to the first matching listed note, or to nothing |
| LegacyEditor.FindFile | src/obsidian.js:311-315 | a listed file that matches by name with no matching file listed before it, and none exactly when no file matches |
| LegacyEditor.Opened | src/obsidian.js:304-331 | opening never writes; a target that exists on disk becomes the open note with its text, and otherwise the editor is unchanged |
| LegacyEditor.Processed | src/obsidian.js:183-233 | the effect of each route and whether it quits; stated by `LegacyEditor.ProcessedKeepsSynced` |
| LegacyEditor.ClearedPage | src/obsidian.js:190-191 | the text `# date` followed by two line feeds; stated by `LegacyEditor.ClearedPageLines` |
| LegacyEditor.ProcessedKeepsSynced | src/obsidian.js:183-233 | every input keeps the open note synced with disk, never creates or deletes another file, and never changes another file |
| LegacyEditor.AddedReadsBack | src/obsidian.js:235-258 | the saved text reads back as the edited lines |
| LegacyEditor.InsertedReadsBack | src/obsidian.js:260-275 | the saved text reads back as the lines with the insertion |
| LegacyEditor.ClearedPageLines | src/obsidian.js:190-194 | `/clear` leaves a title line and two empty lines |
| LegacyEditor.Submitted | src/obsidian.js:112-121 | the prompt is extracted, processed unless blank; stated by `LegacyEditor.EmptyPromptIgnored` |
| LegacyEditor.ObsidianInterface.constructor | src/obsidian.js:9-16 | no note open and empty text |
| LegacyEditor.ObsidianInterface.LoadFileContent | src/obsidian.js:42-46 | the open note's text is loaded when it exists |
| LegacyEditor.ObsidianInterface.SaveFileContent | src/obsidian.js:48-52 | the new state is the saved state |
| LegacyEditor.ObsidianInterface.AddContent | src/obsidian.js:235-258 | the padding loop and the edit give the added state |
| LegacyEditor.ObsidianInterface.InsertNewLine | src/obsidian.js:260-275 | the padding loop and the splice give the inserted state |
| LegacyEditor.ObsidianInterface.OpenFile | src/obsidian.js:304-331 | the new state is the opened state |
| LegacyEditor.ObsidianInterface.ProcessInput | src/obsidian.js:183-233 | the new state and the quit flag are those of the processed step |
| LegacyEditor.ObsidianInterface.Submit | src/obsidian.js:112-121 | the prompt is extracted; blank text is dropped; other text is processed |
| PromptLine.Cleared | src/modules/ui/interface.js:187-191 | an empty buffer with the cursor at 0 |
| PromptLine.InsertAt | src/modules/ui/interface.js:193-197 | the character goes in at the cursor, the cursor moves past it, and the rest shifts right |
| PromptLine.DeleteBack | src/modules/ui/interface.js:199-205 | at 0 nothing changes; otherwise the character before the cursor is removed and the cursor moves back |
| PromptLine.DeleteForward | src/modules/ui/interface.js:207-212 | at the end nothing changes; otherwise the character under the cursor is removed |
| PromptLine.Left | src/modules/ui/interface.js:214-219 | the cursor moves back one, stopping at 0; the buffer is kept |
| PromptLine.Right | src/modules/ui/interface.js:221-226 | the cursor moves forward one, stopping at the end; the buffer is kept |
| PromptLine.Home | src/modules/ui/interface.js:228-231 | the cursor goes to 0 |
| PromptLine.End | src/modules/ui/interface.js:233-236 | the cursor goes to the end of the buffer |
| PromptLine.DeleteBackUndoesInsert | src/modules/ui/interface.js:193-205 | backspace undoes a typed character |
| PromptLine.DeleteForwardUndoesInsert | src/modules/ui/interface.js:193-219 | left then delete undoes a typed character |
| PromptLine.RightUndoesLeft | src/modules/ui/interface.js:214-226 | right undoes left away from the start |
| PromptLine.InsertKeepsPrintable | src/modules/ui/interface.js:377-382 | typing a printable character keeps the buffer printable |
| PromptLine.DeleteKeepsPrintable | src/modules/ui/interface.js:199-212 | deleting keeps the buffer printable |
| PromptLine.Keypress | src/modules/ui/interface.js:314-383 | the buffer, cursor and submitted line after one key; stated by the next two rows |
| PromptLine.KeypressKeepsInvariant | src/modules/ui/interface.js:314-383 | every key keeps the cursor within the buffer and the buffer printable |
| PromptLine.KeypressSubmits | src/modules/ui/interface.js:325-342 | a line is submitted exactly on return or enter with a non-blank buffer, and the buffer is what is submitted |
| PromptLine.HandleInputAsWritten | src/modules/ui/interface.js:447-497 | when the buffer grows, the key passed the whole-string range test, the buffer grew by the key's length, and the cursor moved by 1 |
| PromptLine.HandleInput | src/modules/ui/interface.js:447-497 | the cursor stays within the buffer |
| PromptLine.PastedChunkMisplacesCursor | src/modules/ui/interface.js:490-495 | the code as written inserts "ab" whole and leaves the cursor between the two letters |
| PromptLine.PastedLineFeedTypedIn | src/modules/ui/interface.js:490-495 | the code as written lets a line feed into the buffer |
| PromptLine.SingleCharFilter | src/modules/ui/interface.js:377-382 | for a single character, the range test and the code-point test agree |
| PromptLine.HandleInputAgreesOnSingleKeys | src/modules/ui/interface.js:490-495 | the corrected handler and the one as written agree on every one-character key |
| PromptLine.HandleInputKeepsInvariant | src/modules/ui/interface.js:447-497 | the corrected handler keeps the buffer printable and the cursor valid; a printable key lands just before the cursor |
| PromptLine.ScrollAfterRedraw | src/modules/ui/interface.js:269-281 | where the view scrolls after a redraw; stated by `PromptLine.ScrollShowsInsertedLine` |
| PromptLine.ScrollShowsInsertedLine | src/modules/ui/interface.js:269-281 | the view stays put exactly when the inserted line is visible; otherwise it scrolls, never to the bottom, to top `max(0, index - floor(height / 2))`, which shows the line |
| PromptLine.NextTab | src/modules/ui/interface.js:389-390 | the next tab is a valid tab |
| PromptLine.TabCycle | src/modules/ui/interface.js:389-390 | tab twice returns to the same tab and tab once changes it |
| PromptLine.Screen.constructor | src/modules/ui/interface.js:174-175 | an empty buffer, the cursor at 0, the first tab |
| PromptLine.Screen.ClearInput | src/modules/ui/interface.js:187-191 | the buffer is cleared |
| PromptLine.Screen.InsertChar | src/modules/ui/interface.js:193-197 | the new buffer and cursor are those of the insert |
| PromptLine.Screen.DeleteChar | src/modules/ui/interface.js:199-205 | the new buffer and cursor are those of backspace |
| PromptLine.Screen.DeleteCharForward | src/modules/ui/interface.js:207-212 | the new buffer and cursor are those of delete |
| PromptLine.Screen.MoveCursorLeft | src/modules/ui/interface.js:214-219 | the cursor moves left |
| PromptLine.Screen.MoveCursorRight | src/modules/ui/interface.js:221-226 | the cursor moves right |
| PromptLine.Screen.MoveCursorHome | src/modules/ui/interface.js:228-231 | the cursor goes home |
| PromptLine.Screen.MoveCursorEnd | src/modules/ui/interface.js:233-236 | the cursor goes to the end |
| PromptLine.Screen.SwitchTab | src/modules/ui/interface.js:389-390 | the tab advances and the buffer is kept |
| PromptLine.Screen.OnKeypress | src/modules/ui/interface.js:314-383 | the new buffer, the cursor and the submitted line are those of the keypress function |
| PromptLine.CustomInput.constructor | src/modules/ui/interface.js:428-431 | an empty buffer and the cursor at 0 |
| PromptLine.CustomInput.Cleanup | src/modules/ui/interface.js:500-503 | the input is marked as exiting |
| PromptLine.CustomInput.HandleKey | src/modules/ui/interface.js:447-497 | once exiting, keys are ignored; otherwise the corrected handler's result |

`LegacyEditor.AddedLinesSpec` covers these cases:
- A target from 1 to the line count overwrites that line only.
- A target of 0 or less leaves the lines as they are.
- A target past the end pads with empty lines, then puts the text at the target.
- Without a target, a trailing empty line is replaced; otherwise the text is pushed after the lines, which are kept.

## Left out

- Terminal drawing (blessed boxes, colours, rendering, focus, the 50 ms keypress throttle) and `process.exit`. `/exit` and `/quit` are modelled as a quit outcome.
- The asynchronous file system. The vault is a map from path to text. A read of a missing path is the only I/O error modelled, and errors that the code catches and prints are modelled as no effect.
- The current date, the time stamp, note modification times and the recency cut-off. They are parameters of the operations that use them. So `processTemplate`, `getTodayDate`, `getMonthFolder` and the way `/daily` builds and opens the daily note (`openDailyNote`, `ensureDailyNote`) are not part of this model. `/daily` is modelled only as its outcome.
- The directory listing (`getMarkdownFiles`). The list of Markdown files is a parameter.
- `path.join` and `path.basename`. The model joins with `/` and does not normalise `..` or repeated separators.
- Lower-casing covers ASCII letters only.
- Strings are sequences of characters. JavaScript's UTF-16 code units, and Number precision for very long digit strings, are not modelled.
- `displayTasks`, `updateTasksDisplay`, the Eisenhower tags, `showFiles` and the help, file and view listings only display text and change no state. Configuration loading is not part of this model either.
- In the keypress handler, the submitted line is returned to the caller rather than passed on to `processInput`.
- The scroll rule returns where to scroll. Clearing `lastInsertedLine` after scrolling is not modelled.
- The older editor's re-display of the `> ` prompt after a submit is not modelled.
- Session.ObsidianCli.AddToSection: the reported line counts from before the save. The three-line metadata block that the first save inserts is not added to it, as in the code (`SessionFacts.FirstSaveShiftsInsertedLine` states the resulting offset).
- Session.ChooseTask: with two pending tasks of equal text, the code ticks the first of them whatever the number. The model keeps this, and `SessionFacts.ChosenTaskExact` holds only when pending texts are distinct.
- LegacyEditor.AddedLinesSpec: a target of 0 or less assigns an array property rather than an element in the code, so nothing changes. The model keeps this no-op.
- LegacyEditor.InsertedLinesSpec: a negative `[n-k]` start counts from the end, as `splice` does. The model keeps this.

## Findings

| source | as written | input that shows it | evidently intended | confidence | as-written member | corrected member |
|---|---|---|---|---|---|---|
| src/modules/ui/interface.js:490-495 | `key >= ' ' && key <= '~'` compares the whole key string, then inserts it and advances the cursor by one | pasting "ab" into an empty prompt gives buffer "ab" with the cursor at 1; "a\n" puts a line feed in the buffer | accept one printable character (code 32 to 126), as the main keypress handler does at lines 377-382 | not executed | PromptLine.HandleInputAsWritten (PromptLine.PastedChunkMisplacesCursor) | PromptLine.HandleInput (PromptLine.HandleInputKeepsInvariant) |
