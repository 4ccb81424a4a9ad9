/**
 * The pure content engine of the daily-note editor (src/modules/content.js):
 * section lookup, insertion at the end of a section, whole-document
 * append/prepend/replace, line-addressed insert and replace, prefix routing
 * of one line of user input, and the `updated_at:` metadata block.
 *
 * A document is the string the file holds; the engine splits it on '\n'
 * into lines (never fewer than one) and joins them back.
 */
module Content {
  import opened Wrappers
  import opened Text
  import opened Lines

  /** What an edit returns: the new text and the 1-based line the display should scroll to. */
  datatype Edit = Edit(newContent: string, insertedLine: int)

  /** A level-2 markdown heading line. */
  predicate IsHeading(line: string) {
    StartsWith(line, "## ")
  }

  /** The heading of section `name`: a level-2 heading that contains the name anywhere. */
  predicate IsSectionHeading(line: string, name: string) {
    IsHeading(line) && Contains(line, name)
  }

  /** A blank line: `line.trim() === ''`, which holds exactly when every character is whitespace (`TrimEmptyIff`). */
  predicate IsBlank(line: string) {
    AllWhitespace(line)
  }

  // ---------------------------------------------------------------------
  // findSectionIndex

  /** The index of the first heading of section `name` at or after `from`, or -1. */
  function SectionIndexFrom(lines: seq<string>, name: string, from: nat): (r: int)
    requires from <= |lines|
    ensures r == -1 || from <= r < |lines|
    ensures r >= 0 ==> IsSectionHeading(lines[r], name)
    ensures forall j :: from <= j < (if r < 0 then |lines| else r) ==> !IsSectionHeading(lines[j], name)
    decreases |lines| - from
  {
    if from == |lines| then -1
    else if IsSectionHeading(lines[from], name) then from
    else SectionIndexFrom(lines, name, from + 1)
  }

  /** Where section `name` starts: the first matching heading wins; -1 when there is none. */
  function SectionIndex(lines: seq<string>, name: string): int {
    SectionIndexFrom(lines, name, 0)
  }

  /** findSectionIndex: a top-to-bottom scan that stops at the first matching heading. */
  method FindSectionIndex(lines: seq<string>, name: string) returns (r: int)
    ensures r == SectionIndex(lines, name)
    ensures r >= 0 ==> IsSectionHeading(lines[r], name)
    ensures r == -1 <==> forall j :: 0 <= j < |lines| ==> !IsSectionHeading(lines[j], name)
  {
    var i := 0;
    while i < |lines|
      invariant 0 <= i <= |lines|
      invariant forall j :: 0 <= j < i ==> !IsSectionHeading(lines[j], name)
    {
      if StartsWith(lines[i], "## ") && Contains(lines[i], name) {
        return i;
      }
      i := i + 1;
    }
    return -1;
  }

  // ---------------------------------------------------------------------
  // addToSection

  /** Where the section that starts at `h` ends: the next level-2 heading, or the end of the document. */
  function SectionEnd(lines: seq<string>, h: nat): (e: nat)
    requires h < |lines|
    ensures h < e <= |lines|
    ensures e < |lines| ==> IsHeading(lines[e])
    ensures forall j :: h < j < e ==> !IsHeading(lines[j])
    decreases |lines| - h
  {
    if h + 1 == |lines| || IsHeading(lines[h + 1]) then h + 1
    else SectionEnd(lines, h + 1)
  }

  /** The last non-blank line strictly between `h` and `e`, or `h` itself when all of them are blank. */
  function LastContentLine(lines: seq<string>, h: nat, e: nat): (r: nat)
    requires h < e <= |lines|
    ensures h <= r < e
    ensures r > h ==> !IsBlank(lines[r])
    ensures forall j :: r < j < e ==> IsBlank(lines[j])
    decreases e
  {
    if e == h + 1 then h
    else if !IsBlank(lines[e - 1]) then e - 1
    else LastContentLine(lines, h, e - 1)
  }

  /**
   * The result addToSection specifies: `None` when the section is missing;
   * otherwise the entry is spliced in right after the last non-blank line
   * of the section body (right after the heading when the body is blank).
   */
  function SectionInsertion(current: string, name: string, entry: string): (r: Option<Edit>)
    ensures r.None? <==> SectionIndex(Split(current), name) < 0
  {
    var lines := Split(current);
    var h := SectionIndex(lines, name);
    if h < 0 then None
    else
      var p := LastContentLine(lines, h, SectionEnd(lines, h)) + 1;
      Some(Edit(Join(Insert(lines, p, entry)), p + 1))
  }

  /** The end of a section is the only index that closes it. */
  lemma SectionEndUnique(lines: seq<string>, h: nat, e: nat)
    requires h < e <= |lines|
    requires e < |lines| ==> IsHeading(lines[e])
    requires forall j :: h < j < e ==> !IsHeading(lines[j])
    ensures e == SectionEnd(lines, h)
  {
  }

  /** The last non-blank line of a body is the only index with nothing but blanks after it. */
  lemma LastContentLineUnique(lines: seq<string>, h: nat, e: nat, r: nat)
    requires h <= r < e <= |lines|
    requires r > h ==> !IsBlank(lines[r])
    requires forall j :: r < j < e ==> IsBlank(lines[j])
    ensures r == LastContentLine(lines, h, e)
  {
  }

  /**
   * The scan inside addToSection: walk the section body up to the next
   * level-2 heading, remembering the last line whose trimmed text is not
   * empty.
   */
  method ScanSection(lines: seq<string>, sectionIndex: nat) returns (insertIndex: nat, lastContentLine: nat, hasContent: bool)
    requires sectionIndex < |lines|
    ensures insertIndex == SectionEnd(lines, sectionIndex)
    ensures lastContentLine == LastContentLine(lines, sectionIndex, insertIndex)
    ensures hasContent <==> lastContentLine > sectionIndex
  {
    insertIndex := sectionIndex + 1;
    lastContentLine := sectionIndex;
    hasContent := false;
    while insertIndex < |lines| && !StartsWith(lines[insertIndex], "## ")
      invariant sectionIndex < insertIndex <= |lines|
      invariant forall j :: sectionIndex < j < insertIndex ==> !IsHeading(lines[j])
      invariant sectionIndex <= lastContentLine < insertIndex
      invariant hasContent <==> lastContentLine > sectionIndex
      invariant hasContent ==> !IsBlank(lines[lastContentLine])
      invariant forall j :: lastContentLine < j < insertIndex ==> IsBlank(lines[j])
    {
      TrimEmptyIff(lines[insertIndex]);
      if Trim(lines[insertIndex]) != "" {
        lastContentLine := insertIndex;
        hasContent := true;
      }
      insertIndex := insertIndex + 1;
    }
    SectionEndUnique(lines, sectionIndex, insertIndex);
    LastContentLineUnique(lines, sectionIndex, insertIndex, lastContentLine);
  }

  /** addToSection: find the section, scan its body, splice the entry in. */
  method AddToSection(current: string, name: string, entry: string) returns (r: Option<Edit>)
    ensures r == SectionInsertion(current, name, entry)
  {
    var lines := Split(current);
    var sectionIndex := FindSectionIndex(lines, name);
    if sectionIndex == -1 {
      return None;
    }
    var insertIndex, lastContentLine, hasContent := ScanSection(lines, sectionIndex);
    var actualInsertLine;
    if !hasContent {
      actualInsertLine := sectionIndex + 1;
    } else {
      actualInsertLine := lastContentLine + 1;
    }
    lines := Insert(lines, actualInsertLine, entry);
    return Some(Edit(Join(lines), actualInsertLine + 1));
  }

  /**
   * Where addToSection puts the entry: at index `p = insertedLine - 1`, with
   * `heading < p <= end of section`; the line above is the heading or the
   * last non-blank line of the body, and only blank lines follow it inside
   * the section. Every other line keeps its place relative to the others.
   */
  lemma SectionInsertionPlacement(current: string, name: string, entry: string)
    requires IsLine(entry)
    requires SectionInsertion(current, name, entry).Some?
    ensures var lines := Split(current);
            var h := SectionIndex(lines, name);
            var e := SectionEnd(lines, h);
            var r := SectionInsertion(current, name, entry).value;
            var p := r.insertedLine - 1;
            && h < p <= e
            && (p == h + 1 || !IsBlank(lines[p - 1]))
            && (forall j :: p <= j < e ==> IsBlank(lines[j]))
            && Split(r.newContent) == Insert(lines, p, entry)
  {
    var lines := Split(current);
    var h := SectionIndex(lines, name);
    var p := LastContentLine(lines, h, SectionEnd(lines, h)) + 1;
    SplitAreLines(current);
    InsertAreLines(lines, p, entry);
    SplitJoin(Insert(lines, p, entry));
  }

  /**
   * The entry never leaks into another section: after the insertion the
   * same heading still opens the section, and the entry lies strictly
   * between it and the next heading (or the end of the document).
   */
  lemma EntryStaysInSection(current: string, name: string, entry: string)
    requires IsLine(entry) && !IsHeading(entry)
    requires SectionInsertion(current, name, entry).Some?
    ensures var lines := Split(current);
            var h := SectionIndex(lines, name);
            var r := SectionInsertion(current, name, entry).value;
            var after := Split(r.newContent);
            var p := r.insertedLine - 1;
            && SectionIndex(after, name) == h
            && h < p < SectionEnd(after, h)
            && SectionEnd(after, h) == SectionEnd(lines, h) + 1
            && after[p] == entry
  {
    SectionInsertionPlacement(current, name, entry);
    var lines := Split(current);
    var h := SectionIndex(lines, name);
    var r := SectionInsertion(current, name, entry).value;
    var p := r.insertedLine - 1;
    var after := Split(r.newContent);
    assert after == Insert(lines, p, entry);
    InsertKeepsSection(lines, name, h, p, entry);
    assert SectionEnd(after, h) == SectionEnd(lines, h) + 1;
  }

  /** A non-heading line spliced into a section, below its heading, lengthens that section by one. */
  lemma InsertKeepsSection(lines: seq<string>, name: string, h: nat, p: nat, entry: string)
    requires h < |lines| && SectionIndex(lines, name) == h
    requires h < p <= SectionEnd(lines, h) && !IsHeading(entry)
    ensures var after := Insert(lines, p, entry);
            SectionIndex(after, name) == h && SectionEnd(after, h) == SectionEnd(lines, h) + 1
  {
    var e := SectionEnd(lines, h);
    var after := Insert(lines, p, entry);
    assert after[h] == lines[h];
    assert forall j :: 0 <= j < h ==> after[j] == lines[j];
    assert SectionIndex(after, name) == h;
    assert forall j :: h < j < e + 1 ==> !IsHeading(after[j]) by {
      forall j | h < j < e + 1 ensures !IsHeading(after[j]) {
        if j < p { assert after[j] == lines[j]; }
        else if j > p { assert after[j] == lines[j - 1]; }
      }
    }
    if e < |lines| {
      assert after[e + 1] == lines[e];
    }
  }

  /**
   * Entries accumulate in call order: after inserting a non-blank entry,
   * the next entry for the same section lands directly below it.
   */
  lemma ConsecutiveSectionEntries(current: string, name: string, first: string, second: string)
    requires IsLine(first) && !IsHeading(first) && !IsBlank(first)
    requires IsLine(second)
    requires SectionInsertion(current, name, first).Some?
    ensures var r1 := SectionInsertion(current, name, first).value;
            var r2 := SectionInsertion(r1.newContent, name, second);
            && r2.Some?
            && r2.value.insertedLine == r1.insertedLine + 1
            && 0 < r1.insertedLine < |Split(r2.value.newContent)|
            && Split(r2.value.newContent)[r1.insertedLine - 1] == first
            && Split(r2.value.newContent)[r1.insertedLine] == second
  {
    var lines := Split(current);
    var h := SectionIndex(lines, name);
    var r1 := SectionInsertion(current, name, first).value;
    var p := r1.insertedLine - 1;
    SectionInsertionPlacement(current, name, first);
    EntryStaysInSection(current, name, first);
    var mid := Split(r1.newContent);
    var e := SectionEnd(mid, h);
    forall j | p < j < e ensures IsBlank(mid[j]) {
      assert mid[j] == lines[j - 1];
    }
    LastContentLineUnique(mid, h, e, p);
    SectionInsertionPlacement(r1.newContent, name, second);
  }

  // ---------------------------------------------------------------------
  // addContent

  /** The three whole-document insertion modes. */
  datatype Mode = Append | Prepend | Replace

  /**
   * addContent: append adds one line-feed and the new text after the
   * document (even when it already ends with a line-feed), prepend puts the
   * new text and a line-feed before it, replace swaps the whole document.
   */
  function AddContent(current: string, added: string, mode: Mode): Edit {
    match mode
    case Append => Edit(current + "\n" + added, |Split(current)| + 1)
    case Prepend => Edit(added + "\n" + current, 1)
    case Replace => Edit(added, 1)
  }

  /**
   * In lines: append puts the new lines after the old ones and points at
   * the first new line; prepend puts them before and points at line 1;
   * replace leaves only the new lines.
   */
  lemma AddContentLines(current: string, added: string, mode: Mode)
    ensures var r := AddContent(current, added, mode);
            match mode
            case Append =>
              && Split(r.newContent) == Split(current) + Split(added)
              && Split(r.newContent)[r.insertedLine - 1] == Split(added)[0]
            case Prepend =>
              Split(r.newContent) == Split(added) + Split(current) && r.insertedLine == 1
            case Replace =>
              Split(r.newContent) == Split(added) && r.insertedLine == 1
  {
    match mode
    case Append => SplitConcat(current, added);
    case Prepend => SplitConcat(added, current);
    case Replace =>
  }

  // ---------------------------------------------------------------------
  // insertContentAtLine and replaceContentAtLine

  /** insertContentAtLine: splice the text in as 0-based line `n`, if `0 <= n <= line count`. */
  function InsertContentAtLine(current: string, entry: string, n: int): Option<Edit> {
    var lines := Split(current);
    if 0 <= n <= |lines| then Some(Edit(Join(Insert(lines, n, entry)), n + 1))
    else None
  }

  /**
   * insertContentAtLine succeeds exactly for `0 <= n <= line count` (so `n`
   * equal to the count appends); the text becomes line `n`, the lines
   * before it stay, the lines from `n` on move down by one.
   */
  lemma InsertContentAtLineSpec(current: string, entry: string, n: int)
    requires IsLine(entry)
    ensures var lines := Split(current);
            var r := InsertContentAtLine(current, entry, n);
            && (r.Some? <==> 0 <= n <= |lines|)
            && (r.Some? ==>
                  var after := Split(r.value.newContent);
                  && r.value.insertedLine == n + 1
                  && |after| == |lines| + 1
                  && after[n] == entry
                  && after[..n] == lines[..n]
                  && after[n + 1..] == lines[n..])
  {
    var lines := Split(current);
    if 0 <= n <= |lines| {
      SplitAreLines(current);
      var after := Insert(lines, n, entry);
      SplitJoin(after);
      assert after[n + 1..] == lines[n..];
    }
  }

  /** replaceContentAtLine: overwrite 1-based line `n`, if `1 <= n <= line count`. */
  function ReplaceContentAtLine(current: string, entry: string, n: int): Option<string> {
    var lines := Split(current);
    if 0 < n <= |lines| then Some(Join(lines[n - 1 := entry]))
    else None
  }

  /**
   * replaceContentAtLine succeeds exactly for `1 <= n <= line count`; it
   * keeps the line count and changes line `n - 1` only.
   */
  lemma ReplaceContentAtLineSpec(current: string, entry: string, n: int)
    requires IsLine(entry)
    ensures var lines := Split(current);
            var r := ReplaceContentAtLine(current, entry, n);
            && (r.Some? <==> 1 <= n <= |lines|)
            && (r.Some? ==>
                  var after := Split(r.value);
                  && |after| == |lines|
                  && after[n - 1] == entry
                  && forall j :: 0 <= j < |lines| && j != n - 1 ==> after[j] == lines[j])
  {
    var lines := Split(current);
    if 1 <= n <= |lines| {
      SplitAreLines(current);
      SplitJoin(lines[n - 1 := entry]);
    }
  }

  // ---------------------------------------------------------------------
  // parseContentInput

  /** The four kinds of routed entries, each with its own section and central log. */
  datatype Category = Task | Idea | Question | Insight

  /** The heading text each kind of entry is routed to. */
  function SectionName(c: Category): string {
    match c
    case Task => "Tasks"
    case Idea => "Ideas"
    case Question => "Questions"
    case Insight => "Insights"
  }

  /** A routed input: target section, the line to insert, the log kind and the bare text. */
  datatype Routed = Routed(section: string, formatted: string, category: Category, raw: string)

  /** The line a routed entry becomes in the note. */
  function Formatted(c: Category, raw: string): string {
    if c == Task then "- [ ] " + raw else "- " + raw
  }

  /** The prefix that selects each kind of entry. */
  function Prefix(c: Category): string {
    match c
    case Task => "[]"
    case Idea => "-"
    case Question => "?"
    case Insight => "!"
  }

  function Route(trimmed: string, c: Category): Routed
    requires StartsWith(trimmed, Prefix(c))
  {
    var raw := Trim(trimmed[|Prefix(c)|..]);
    Routed(SectionName(c), Formatted(c, raw), c, raw)
  }

  /**
   * parseContentInput: trim, then try the prefixes `[]`, `-`, `?`, `!` in
   * that order; the first that matches decides. `None` when none does.
   */
  function ParseContentInput(input: string): Option<Routed> {
    var trimmed := Trim(input);
    if StartsWith(trimmed, "[]") then Some(Route(trimmed, Task))
    else if StartsWith(trimmed, "-") then Some(Route(trimmed, Idea))
    else if StartsWith(trimmed, "?") then Some(Route(trimmed, Question))
    else if StartsWith(trimmed, "!") then Some(Route(trimmed, Insight))
    else None
  }

  /** Input is routed exactly when its trimmed form starts with one of the four prefixes. */
  lemma ParseContentInputRouted(input: string)
    ensures ParseContentInput(input).Some? <==> exists c: Category :: StartsWith(Trim(input), Prefix(c))
  {
    var trimmed := Trim(input);
    if StartsWith(trimmed, "[]") {
      assert StartsWith(trimmed, Prefix(Task));
    } else if StartsWith(trimmed, "-") {
      assert StartsWith(trimmed, Prefix(Idea));
    } else if StartsWith(trimmed, "?") {
      assert StartsWith(trimmed, Prefix(Question));
    } else if StartsWith(trimmed, "!") {
      assert StartsWith(trimmed, Prefix(Insight));
    } else {
      forall c: Category ensures !StartsWith(trimmed, Prefix(c)) {
        match c
        case Task =>
        case Idea =>
        case Question =>
        case Insight =>
      }
    }
  }

  /**
   * The first matching prefix, in the order `[]`, `-`, `?`, `!`, decides:
   * the entry goes to that kind's section, its bare text is the trimmed
   * rest after the prefix, and the formatted line is a checkbox for tasks
   * and a bullet otherwise.
   */
  lemma ParseContentInputFirstPrefix(input: string, c: Category)
    requires StartsWith(Trim(input), Prefix(c))
    requires forall d: Category :: Earlier(d, c) ==> !StartsWith(Trim(input), Prefix(d))
    ensures var trimmed := Trim(input);
            var raw := Trim(trimmed[|Prefix(c)|..]);
            ParseContentInput(input) == Some(Routed(SectionName(c), Formatted(c, raw), c, raw))
  {
    var trimmed := Trim(input);
    match c
    case Task =>
    case Idea =>
      assert !StartsWith(trimmed, Prefix(Task));
    case Question =>
      assert !StartsWith(trimmed, Prefix(Task));
      assert !StartsWith(trimmed, Prefix(Idea));
    case Insight =>
      assert !StartsWith(trimmed, Prefix(Task));
      assert !StartsWith(trimmed, Prefix(Idea));
      assert !StartsWith(trimmed, Prefix(Question));
  }

  /** The priority order of the prefix tests. */
  predicate Earlier(d: Category, c: Category) {
    Rank(d) < Rank(c)
  }

  function Rank(c: Category): nat {
    match c
    case Task => 0
    case Idea => 1
    case Question => 2
    case Insight => 3
  }

  /** A formatted entry is a single non-blank line and never a heading. */
  lemma FormattedLineFits(c: Category, raw: string)
    requires IsLine(raw)
    ensures var f := Formatted(c, raw);
            IsLine(f) && !IsHeading(f) && !IsBlank(f)
  {
    var f := Formatted(c, raw);
    assert f[0] == '-';
    assert !IsWhitespace(f[0]);
    forall n | 0 <= n < |f| ensures f[n] != '\n' {
      if c == Task {
        if n >= 6 { assert f[n] == raw[n - 6]; }
      } else {
        if n >= 2 { assert f[n] == raw[n - 2]; }
      }
    }
  }

  /** A routed line of one kind can go into a section. */
  lemma RouteFitsSection(trimmed: string, c: Category)
    requires IsLine(trimmed) && StartsWith(trimmed, Prefix(c))
    ensures var f := Route(trimmed, c).formatted;
            IsLine(f) && !IsHeading(f) && !IsBlank(f)
  {
    var k := |Prefix(c)|;
    SliceIsLine(trimmed, k, |trimmed|);
    TrimIsLine(trimmed[k..]);
    FormattedLineFits(c, Trim(trimmed[k..]));
  }

  /**
   * The routed line of any single-line input can go into a section: it is a
   * single non-blank line and never a heading, so the section insertion
   * lemmas apply to it.
   */
  lemma FormattedFitsSection(input: string)
    requires IsLine(input)
    requires ParseContentInput(input).Some?
    ensures var f := ParseContentInput(input).value.formatted;
            IsLine(f) && !IsHeading(f) && !IsBlank(f)
  {
    var trimmed := Trim(input);
    TrimIsLine(input);
    if StartsWith(trimmed, "[]") {
      RouteFitsSection(trimmed, Task);
    } else if StartsWith(trimmed, "-") {
      RouteFitsSection(trimmed, Idea);
    } else if StartsWith(trimmed, "?") {
      RouteFitsSection(trimmed, Question);
    } else {
      RouteFitsSection(trimmed, Insight);
    }
  }

  /** The four prefixes start with four different characters, so at most one matches. */
  lemma PrefixesDisjoint(t: string, c: Category)
    requires |t| > 0 && t[0] == Prefix(c)[0]
    ensures forall d: Category :: d != c ==> !StartsWith(t, Prefix(d))
  {
    forall d: Category | d != c ensures !StartsWith(t, Prefix(d)) {
      assert Prefix(d)[0] != Prefix(c)[0];
    }
  }

  /**
   * Typing a prefix, a space and some text routes exactly that text: for
   * example `[] buy milk` becomes the task `- [ ] buy milk` and `? why`
   * the question `- why`.
   */
  lemma ParseContentInputRoundTrip(c: Category, raw: string)
    requires |raw| > 0 && !IsWhitespace(raw[0]) && !IsWhitespace(raw[|raw| - 1])
    ensures ParseContentInput(Prefix(c) + " " + raw) == Some(Routed(SectionName(c), Formatted(c, raw), c, raw))
  {
    var input := Prefix(c) + " " + raw;
    var k := |Prefix(c)|;
    assert input[..k] == Prefix(c);
    assert input[k..] == " " + raw;
    TrimUnchanged(input);
    TrimStartSkipsWhitespace(" ", raw);
    TrimUnchanged(raw);
    PrefixesDisjoint(input, c);
    ParseContentInputFirstPrefix(input, c);
  }

  // ---------------------------------------------------------------------
  // injectMetadata

  /** The metadata key looked for on every line. */
  const MetadataKey := "updated_at:"

  /** The line that carries the save time. */
  function StampLine(now: string): string {
    "updated_at: " + now
  }

  predicate HasMetadata(lines: seq<string>) {
    exists i :: 0 <= i < |lines| && Contains(lines[i], MetadataKey)
  }

  /** Every line that mentions the key becomes the stamp line; the others stay. */
  function Restamped(lines: seq<string>, now: string): (r: seq<string>)
    ensures |r| == |lines|
  {
    seq(|lines|, i requires 0 <= i < |lines| => if Contains(lines[i], MetadataKey) then StampLine(now) else lines[i])
  }

  /** The block inserted after the title line. */
  function MetadataBlock(now: string): seq<string> {
    ["---", StampLine(now), "---"]
  }

  /**
   * injectMetadata, with the ISO-8601 save time `now` as a parameter:
   * refresh every line that mentions `updated_at:`; if none does and the
   * first line is a heading, insert the three-line block after it;
   * otherwise leave the text alone.
   */
  function InjectMetadata(content: string, now: string): string {
    var lines := Split(content);
    if HasMetadata(lines) then Join(Restamped(lines, now))
    else if StartsWith(lines[0], "#") then Join([lines[0]] + MetadataBlock(now) + lines[1..])
    else content
  }

  lemma StampLineHasKey(now: string)
    ensures Contains(StampLine(now), MetadataKey)
  {
    assert StampLine(now)[0..] == StampLine(now);
    ContainsAt(StampLine(now), MetadataKey, 0);
  }

  lemma {:induction false} StampLineIsLine(now: string)
    requires IsLine(now)
    ensures IsLine(StampLine(now))
  {
    forall c | c in StampLine(now) ensures c != '\n' {
      if c !in now {
        assert c in "updated_at: ";
      }
    }
  }

  /** With `updated_at:` lines present, exactly those lines are rewritten and the count is kept. */
  lemma InjectMetadataRefreshes(content: string, now: string)
    requires IsLine(now)
    requires HasMetadata(Split(content))
    ensures Split(InjectMetadata(content, now)) == Restamped(Split(content), now)
  {
    var lines := Split(content);
    SplitAreLines(content);
    StampLineIsLine(now);
    var r := Restamped(lines, now);
    assert AreLines(r) by {
      forall i | 0 <= i < |r| ensures IsLine(r[i]) {
        assert IsLine(lines[i]);
      }
    }
    SplitJoin(r);
  }

  /** With none present and a heading first, the three-line block lands right after line 0. */
  lemma InjectMetadataInserts(content: string, now: string)
    requires IsLine(now)
    requires !HasMetadata(Split(content)) && StartsWith(Split(content)[0], "#")
    ensures var lines := Split(content);
            Split(InjectMetadata(content, now)) == [lines[0], "---", StampLine(now), "---"] + lines[1..]
  {
    var lines := Split(content);
    SplitAreLines(content);
    StampLineIsLine(now);
    var block := [lines[0]] + MetadataBlock(now) + lines[1..];
    forall i | 0 <= i < |block| ensures IsLine(block[i]) {
      if i >= 4 { assert block[i] == lines[i - 3]; }
    }
    SplitJoin(block);
  }

  /**
   * The three behaviours in lines: with no `updated_at:` line and a heading
   * first, the block `---`, `updated_at: now`, `---` lands right after line
   * 0; with such lines, exactly those lines are rewritten and the count is
   * kept; otherwise nothing changes.
   */
  lemma InjectMetadataLines(content: string, now: string)
    requires IsLine(now)
    ensures var lines := Split(content);
            var after := Split(InjectMetadata(content, now));
            && (HasMetadata(lines) ==>
                  && |after| == |lines|
                  && forall i :: 0 <= i < |lines| ==>
                       after[i] == (if Contains(lines[i], MetadataKey) then StampLine(now) else lines[i]))
            && (!HasMetadata(lines) && StartsWith(lines[0], "#") ==>
                  after == [lines[0], "---", StampLine(now), "---"] + lines[1..])
            && (!HasMetadata(lines) && !StartsWith(lines[0], "#") ==>
                  InjectMetadata(content, now) == content)
  {
    var lines := Split(content);
    if HasMetadata(lines) {
      InjectMetadataRefreshes(content, now);
    } else if StartsWith(lines[0], "#") {
      InjectMetadataInserts(content, now);
    }
  }

  /** Restamping keeps exactly the same lines mentioning the key. */
  lemma RestampedKeepsKeyLines(lines: seq<string>, now: string)
    ensures forall i :: 0 <= i < |lines| ==>
              (Contains(Restamped(lines, now)[i], MetadataKey) <==> Contains(lines[i], MetadataKey))
  {
    StampLineHasKey(now);
  }

  /** Restamping twice is restamping with the later time. */
  lemma RestampTwice(lines: seq<string>, t1: string, t2: string)
    ensures Restamped(Restamped(lines, t1), t2) == Restamped(lines, t2)
  {
    RestampedKeepsKeyLines(lines, t1);
  }

  /** A second save of a stamped note only refreshes the stamp. */
  lemma InjectMetadataTwiceStamped(content: string, t1: string, t2: string)
    requires IsLine(t1) && IsLine(t2)
    requires HasMetadata(Split(content))
    ensures InjectMetadata(InjectMetadata(content, t1), t2) == InjectMetadata(content, t2)
  {
    var lines := Split(content);
    InjectMetadataRefreshes(content, t1);
    var mid := Split(InjectMetadata(content, t1));
    RestampedKeepsKeyLines(lines, t1);
    assert HasMetadata(mid);
    RestampTwice(lines, t1, t2);
  }

  /** Restamping a freshly inserted block swaps its time and touches nothing else. */
  lemma RestampBlock(title: string, rest: seq<string>, t1: string, t2: string)
    requires !Contains(title, MetadataKey)
    requires !HasMetadata(rest)
    ensures Restamped([title] + MetadataBlock(t1) + rest, t2) == [title] + MetadataBlock(t2) + rest
  {
    var mid := [title] + MetadataBlock(t1) + rest;
    var refreshed := [title] + MetadataBlock(t2) + rest;
    StampLineHasKey(t1);
    assert !Contains("---", MetadataKey);
    forall i | 0 <= i < |mid| ensures Restamped(mid, t2)[i] == refreshed[i] {
      if i >= 4 {
        assert mid[i] == rest[i - 4];
      }
    }
  }

  /** A second save of a note that just received the block only refreshes the stamp in it. */
  lemma InjectMetadataTwiceInserted(content: string, t1: string, t2: string)
    requires IsLine(t1) && IsLine(t2)
    requires !HasMetadata(Split(content)) && StartsWith(Split(content)[0], "#")
    ensures InjectMetadata(InjectMetadata(content, t1), t2) == InjectMetadata(content, t2)
  {
    var lines := Split(content);
    InjectMetadataInserts(content, t1);
    TwiceInsertedLines(lines, Split(InjectMetadata(content, t1)), t1, t2);
  }

  /** Lines that just received the block hold the key, and restamping them only swaps the time. */
  lemma TwiceInsertedLines(lines: seq<string>, mid: seq<string>, t1: string, t2: string)
    requires |lines| > 0 && !HasMetadata(lines)
    requires mid == [lines[0], "---", StampLine(t1), "---"] + lines[1..]
    ensures HasMetadata(mid) && Restamped(mid, t2) == [lines[0]] + MetadataBlock(t2) + lines[1..]
  {
    assert mid == [lines[0]] + MetadataBlock(t1) + lines[1..];
    StampLineHasKey(t1);
    assert Contains(mid[2], MetadataKey);
    assert !Contains(lines[0], MetadataKey);
    assert !HasMetadata(lines[1..]) by {
      forall i | 0 <= i < |lines| - 1 ensures !Contains(lines[1..][i], MetadataKey) {
        assert lines[1..][i] == lines[i + 1];
      }
    }
    RestampBlock(lines[0], lines[1..], t1, t2);
  }

  /**
   * Saving twice is saving once: a second injection never adds lines, it
   * only refreshes the time. (Both times are single lines, as ISO-8601
   * strings are.)
   */
  lemma InjectMetadataIdempotent(content: string, t1: string, t2: string)
    requires IsLine(t1) && IsLine(t2)
    ensures InjectMetadata(InjectMetadata(content, t1), t2) == InjectMetadata(content, t2)
    ensures |Split(InjectMetadata(InjectMetadata(content, t1), t2))| == |Split(InjectMetadata(content, t1))|
  {
    var lines := Split(content);
    var once := InjectMetadata(content, t1);
    if HasMetadata(lines) {
      InjectMetadataTwiceStamped(content, t1, t2);
      InjectMetadataRefreshes(content, t1);
      InjectMetadataRefreshes(content, t2);
    } else if StartsWith(lines[0], "#") {
      InjectMetadataTwiceInserted(content, t1, t2);
      InjectMetadataInserts(content, t1);
      InjectMetadataInserts(content, t2);
    }
  }
}
