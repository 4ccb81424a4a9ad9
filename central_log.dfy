/**
 * The central logs (src/modules/logger.js): one markdown file per kind of
 * entry, newest entries first. An entry goes in just above the first line
 * a predicate accepts, or at the end after a blank line when no line does;
 * a file that cannot be read starts from a header.
 */
module CentralLog {
  import opened Wrappers
  import opened Text
  import opened Lines

  /** The first index from `i` on whose line the predicate accepts, or -1. */
  function FirstMatchFrom(lines: seq<string>, pred: string -> bool, i: nat): (r: int)
    requires i <= |lines|
    ensures r == -1 || (i <= r < |lines| && pred(lines[r]))
    ensures r == -1 ==> forall j :: i <= j < |lines| ==> !pred(lines[j])
    ensures r != -1 ==> forall j :: i <= j < r ==> !pred(lines[j])
    decreases |lines| - i
  {
    if i == |lines| then -1
    else if pred(lines[i]) then i
    else FirstMatchFrom(lines, pred, i + 1)
  }

  /** The first line the predicate accepts, or -1 when there is none. */
  function FirstMatch(lines: seq<string>, pred: string -> bool): (r: int)
    ensures r == -1 || (0 <= r < |lines| && pred(lines[r]))
    ensures r == -1 ==> forall j :: 0 <= j < |lines| ==> !pred(lines[j])
    ensures r != -1 ==> forall j :: 0 <= j < r ==> !pred(lines[j])
  {
    FirstMatchFrom(lines, pred, 0)
  }

  /** The lines after logging `entry` into `lines`. */
  function LoggedLines(lines: seq<string>, entry: string, pred: string -> bool): seq<string> {
    var i := FirstMatch(lines, pred);
    if i == -1 then lines + ["", entry] else Insert(lines, i, entry)
  }

  /** The text logToCentralFile writes: the file, or the header when the file cannot be read, with the entry logged. */
  function Logged(file: Option<string>, entry: string, header: string, pred: string -> bool): string {
    Join(LoggedLines(Split(file.GetOr(header)), entry, pred))
  }

  /**
   * logToCentralFile, with the file's text as an input (`None` when it
   * cannot be read) and the text to write as the result. A failing write
   * is reported on the console and swallowed, so it has no effect here.
   */
  method LogToCentralFile(file: Option<string>, entry: string, header: string, pred: string -> bool)
    returns (written: string)
    ensures written == Logged(file, entry, header, pred)
  {
    var existing := header;
    if file.Some? {
      existing := file.value;
    }
    var lines := Split(existing);
    var insertIndex := -1;
    var i := 0;
    while i < |lines|
      invariant 0 <= i <= |lines| && insertIndex == -1
      invariant forall j :: 0 <= j < i ==> !pred(lines[j])
    {
      if pred(lines[i]) {
        insertIndex := i;
        break;
      }
      i := i + 1;
    }
    assert insertIndex == FirstMatch(lines, pred) by {
      if insertIndex == -1 {
        assert i == |lines|;
      }
    }
    if insertIndex == -1 {
      lines := lines + ["", entry];
    } else {
      lines := Insert(lines, insertIndex, entry);
    }
    written := Join(lines);
  }

  /**
   * Where the entry lands when some line is accepted: just above the first
   * accepted line `p`; taking the entry out again gives the old lines back.
   */
  lemma LoggedAboveFirstMatch(lines: seq<string>, entry: string, pred: string -> bool, p: nat)
    requires p < |lines| && pred(lines[p])
    requires forall j :: 0 <= j < p ==> !pred(lines[j])
    ensures |LoggedLines(lines, entry, pred)| == |lines| + 1
    ensures LoggedLines(lines, entry, pred)[p] == entry
    ensures LoggedLines(lines, entry, pred)[p + 1] == lines[p]
    ensures LoggedLines(lines, entry, pred)[..p] + LoggedLines(lines, entry, pred)[p + 1..] == lines
  {
    FirstMatchIs(lines, pred, p);
    var r := LoggedLines(lines, entry, pred);
    assert r[..p] == lines[..p];
    assert r[p + 1..] == lines[p..];
    assert lines == lines[..p] + lines[p..];
  }

  /** When no line is accepted, a blank line and the entry are added at the end: two more lines. */
  lemma LoggedAtEnd(lines: seq<string>, entry: string, pred: string -> bool)
    requires forall j :: 0 <= j < |lines| ==> !pred(lines[j])
    ensures LoggedLines(lines, entry, pred) == lines + ["", entry]
  {
  }

  /** Logging a single line into a file: the written file is the old file's lines with the entry logged. */
  lemma LoggedSplit(file: Option<string>, entry: string, header: string, pred: string -> bool)
    requires IsLine(entry)
    ensures Split(Logged(file, entry, header, pred)) == LoggedLines(Split(file.GetOr(header)), entry, pred)
  {
    var lines := Split(file.GetOr(header));
    SplitAreLines(file.GetOr(header));
    var r := LoggedLines(lines, entry, pred);
    var p := FirstMatch(lines, pred);
    if p == -1 {
      assert IsLine("");
      assert AreLines(r) by {
        forall j | 0 <= j < |r| ensures IsLine(r[j]) {
          if j < |lines| { assert r[j] == lines[j]; }
        }
      }
    } else {
      InsertAreLines(lines, p, entry);
    }
    SplitJoin(r);
  }

  /**
   * Logging an entry the predicate accepts makes it the first accepted
   * line, provided the predicate rejects the blank line, as all four
   * predicates of the session do.
   */
  lemma LoggedFirst(lines: seq<string>, entry: string, pred: string -> bool)
    requires pred(entry) && !pred("")
    ensures var p := FirstMatch(lines, pred);
            FirstMatch(LoggedLines(lines, entry, pred), pred) == (if p == -1 then |lines| + 1 else p)
  {
    var r := LoggedLines(lines, entry, pred);
    var p := FirstMatch(lines, pred);
    var q := if p == -1 then |lines| + 1 else p;
    assert r[q] == entry;
    assert forall j :: 0 <= j < q ==> r[j] == (if j < |lines| then lines[j] else "");
    FirstMatchIs(r, pred, q);
  }

  /** An accepted line with no accepted line above it is the first match. */
  lemma FirstMatchIs(lines: seq<string>, pred: string -> bool, q: nat)
    requires q < |lines| && pred(lines[q])
    requires forall j :: 0 <= j < q ==> !pred(lines[j])
    ensures FirstMatch(lines, pred) == q
  {
  }

  /**
   * Newest first: logging `a` and then `b`, both accepted by the
   * predicate, leaves `b` directly above `a`.
   */
  lemma LogTwiceNewestFirst(lines: seq<string>, a: string, b: string, pred: string -> bool)
    requires pred(a) && pred(b) && !pred("")
    ensures var r1 := LoggedLines(lines, a, pred);
            var r2 := LoggedLines(r1, b, pred);
            exists p :: 0 <= p < |r2| - 1 && r2[p] == b && r2[p + 1] == a
  {
    var r1 := LoggedLines(lines, a, pred);
    var p := FirstMatch(lines, pred);
    var q := if p == -1 then |lines| + 1 else p;
    LoggedFirst(lines, a, pred);
    var r2 := LoggedLines(r1, b, pred);
    assert r1[q] == a;
    assert r2[q] == b && r2[q + 1] == a;
  }

  /** How many lines the predicate accepts. */
  function CountMatching(lines: seq<string>, pred: string -> bool): (n: nat)
    ensures n <= |lines|
  {
    if |lines| == 0 then 0
    else CountMatching(lines[..|lines| - 1], pred) + (if pred(lines[|lines| - 1]) then 1 else 0)
  }

  lemma {:induction false} CountMatchingConcat(a: seq<string>, b: seq<string>, pred: string -> bool)
    ensures CountMatching(a + b, pred) == CountMatching(a, pred) + CountMatching(b, pred)
    decreases |b|
  {
    if |b| == 0 {
      assert a + b == a;
    } else {
      var m := |b| - 1;
      assert (a + b)[..|a + b| - 1] == a + b[..m];
      CountMatchingConcat(a, b[..m], pred);
    }
  }

  /** The accepted lines of a one-line sequence. */
  lemma CountOne(x: string, pred: string -> bool)
    ensures CountMatching([x], pred) == if pred(x) then 1 else 0
  {
    assert [x][..0] == [];
  }

  /** Splicing a line in adds its own count and leaves the others' alone. */
  lemma CountInsert(lines: seq<string>, p: nat, x: string, pred: string -> bool)
    requires p <= |lines|
    ensures CountMatching(Insert(lines, p, x), pred) == CountMatching(lines, pred) + (if pred(x) then 1 else 0)
  {
    var a, b := lines[..p], lines[p..];
    assert Insert(lines, p, x) == (a + [x]) + b;
    CountMatchingConcat(a + [x], b, pred);
    CountMatchingConcat(a, [x], pred);
    CountOne(x, pred);
    assert lines == a + b;
    CountMatchingConcat(a, b, pred);
  }

  /**
   * With a predicate that rejects the blank line, each logging of an
   * accepted entry adds exactly one accepted line: logging two tasks into
   * a log with none leaves exactly two.
   */
  lemma LoggedCount(lines: seq<string>, entry: string, pred: string -> bool)
    requires !pred("")
    ensures CountMatching(LoggedLines(lines, entry, pred), pred) ==
              CountMatching(lines, pred) + (if pred(entry) then 1 else 0)
  {
    var p := FirstMatch(lines, pred);
    if p == -1 {
      CountOne(entry, pred);
      CountOne("", pred);
      CountMatchingConcat(lines, [""], pred);
      CountMatchingConcat(lines + [""], [entry], pred);
      assert lines + ["", entry] == lines + [""] + [entry];
    } else {
      CountInsert(lines, p, entry, pred);
    }
  }
}
