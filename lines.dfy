/**
 * A text file as a sequence of lines: `content.split('\n')` and
 * `lines.join('\n')`, and the splice every editor uses.
 */
module Lines {
  import opened Text

  /** A single line: no line-feed inside. */
  predicate IsLine(s: string) {
    '\n' !in s
  }

  predicate AreLines(ls: seq<string>) {
    forall i :: 0 <= i < |ls| ==> IsLine(ls[i])
  }

  /**
   * `s.split('\n')`. Never empty: the empty string splits into one empty
   * line, and a trailing line-feed leaves an empty last line.
   */
  function Split(s: string): (r: seq<string>)
    ensures |r| >= 1
    decreases |s|
  {
    if |s| == 0 then [""]
    else
      var rest := Split(s[1..]);
      if s[0] == '\n' then [""] + rest
      else [[s[0]] + rest[0]] + rest[1..]
  }

  /** No piece of a split holds a line-feed. */
  lemma {:induction false} SplitAreLines(s: string)
    ensures AreLines(Split(s))
    decreases |s|
  {
    if |s| > 0 {
      SplitAreLines(s[1..]);
      var rest := Split(s[1..]);
      if s[0] != '\n' {
        assert IsLine([s[0]] + rest[0]) by {
          assert IsLine(rest[0]);
        }
      }
    }
  }

  /** `lines.join('\n')`. */
  function Join(lines: seq<string>): string {
    if |lines| == 0 then ""
    else if |lines| == 1 then lines[0]
    else lines[0] + "\n" + Join(lines[1..])
  }

  /** `lines.splice(i, 0, x)`: `x` becomes line `i`, the lines from `i` on move down by one. */
  function Insert(lines: seq<string>, i: nat, x: string): (r: seq<string>)
    requires i <= |lines|
    ensures |r| == |lines| + 1 && r[i] == x
    ensures forall j :: 0 <= j < i ==> r[j] == lines[j]
    ensures forall j :: i < j < |r| ==> r[j] == lines[j - 1]
  {
    lines[..i] + [x] + lines[i..]
  }

  /** Splicing a line into lines gives lines. */
  lemma InsertAreLines(lines: seq<string>, i: nat, x: string)
    requires i <= |lines| && AreLines(lines) && IsLine(x)
    ensures AreLines(Insert(lines, i, x))
  {
    var r := Insert(lines, i, x);
    forall j | 0 <= j < |r| ensures IsLine(r[j]) {
      if j > i { assert r[j] == lines[j - 1]; }
    }
  }

  /** A piece of a line is a line. */
  lemma SliceIsLine(s: string, i: nat, j: nat)
    requires i <= j <= |s| && IsLine(s)
    ensures IsLine(s[i..j])
  {
    forall n | 0 <= n < j - i ensures s[i..j][n] != '\n' {
      assert s[i..j][n] == s[i + n];
    }
  }

  /** Trimming a line gives a line. */
  lemma TrimIsLine(s: string)
    requires IsLine(s)
    ensures IsLine(Trim(s))
  {
    TrimIsInfix(s);
    var i, j :| 0 <= i <= j <= |s| && Trim(s) == s[i..j];
    SliceIsLine(s, i, j);
  }

  /** Joining the pieces of a split gives the original text back. */
  lemma {:induction false} JoinSplit(s: string)
    ensures Join(Split(s)) == s
    decreases |s|
  {
    if |s| > 0 {
      var rest := Split(s[1..]);
      JoinSplit(s[1..]);
      if s[0] == '\n' {
        assert Split(s) == [""] + rest;
        assert ([""] + rest)[1..] == rest;
      } else {
        var r := Split(s);
        assert r == [[s[0]] + rest[0]] + rest[1..];
        if |rest| == 1 {
          assert s == [s[0]] + s[1..];
        } else {
          assert r[1..] == rest[1..];
          assert Join(rest) == rest[0] + "\n" + Join(rest[1..]);
          assert s == [s[0]] + s[1..];
        }
      }
    }
  }

  /** Text without a line-feed is one line. */
  lemma {:induction false} SplitLine(s: string)
    requires IsLine(s)
    ensures Split(s) == [s]
    decreases |s|
  {
    if |s| > 0 {
      assert s[0] in s;
      assert IsLine(s[1..]) by {
        forall c | c in s[1..] ensures c != '\n' { assert c in s; }
      }
      SplitLine(s[1..]);
      assert s == [s[0]] + s[1..];
    }
  }

  /** Splitting distributes over a line-feed: the split of `a \n b` is the split of `a` followed by that of `b`. */
  lemma {:induction false} SplitConcat(a: string, b: string)
    ensures Split(a + "\n" + b) == Split(a) + Split(b)
    decreases |a|
  {
    var s := a + "\n" + b;
    if |a| == 0 {
      assert s == "\n" + b;
      assert s[1..] == b;
    } else {
      assert s[1..] == a[1..] + "\n" + b;
      SplitConcat(a[1..], b);
      assert a == [a[0]] + a[1..];
      if a[0] == '\n' {
        SplitConsBreak(a[1..], b);
      } else {
        SplitConsChar(a[0], a[1..], b);
      }
    }
  }

  /** One step of SplitConcat: prefixing a character other than a line-feed to both sides. */
  lemma SplitConsChar(c: char, a: string, b: string)
    requires c != '\n'
    requires Split(a + "\n" + b) == Split(a) + Split(b)
    ensures Split([c] + a + "\n" + b) == Split([c] + a) + Split(b)
  {
    var m := a + "\n" + b;
    assert [c] + a + "\n" + b == [c] + m;
    SplitCons(c, m);
    SplitCons(c, a);
    PrependToFirst([c], Split(a), Split(b));
  }

  /** Prefixing the first line of `x + y` is prefixing the first line of `x`. */
  lemma PrependToFirst(p: string, x: seq<string>, y: seq<string>)
    requires |x| >= 1
    ensures [p + (x + y)[0]] + (x + y)[1..] == ([p + x[0]] + x[1..]) + y
  {
    assert (x + y)[1..] == x[1..] + y;
  }

  /** Splitting a string that opens with a character other than a line-feed. */
  lemma SplitCons(c: char, m: string)
    requires c != '\n'
    ensures Split([c] + m) == [[c] + Split(m)[0]] + Split(m)[1..]
  {
    assert ([c] + m)[1..] == m;
  }

  /** One step of SplitConcat: prefixing a line-feed to both sides. */
  lemma SplitConsBreak(a: string, b: string)
    requires Split(a + "\n" + b) == Split(a) + Split(b)
    ensures Split("\n" + a + "\n" + b) == Split("\n" + a) + Split(b)
  {
    var s := "\n" + a + "\n" + b;
    var t := "\n" + a;
    assert s[1..] == a + "\n" + b;
    assert t[1..] == a;
  }

  /** Joining and splitting again gives the lines back, as long as no line holds a line-feed. */
  lemma {:induction false} SplitJoin(lines: seq<string>)
    requires |lines| >= 1 && AreLines(lines)
    ensures Split(Join(lines)) == lines
    decreases |lines|
  {
    if |lines| == 1 {
      SplitLine(lines[0]);
    } else {
      SplitJoin(lines[1..]);
      SplitLine(lines[0]);
      SplitConcat(lines[0], Join(lines[1..]));
      assert lines == [lines[0]] + lines[1..];
    }
  }

  /** Joining two non-empty runs of lines puts one line-feed between them. */
  lemma {:induction false} JoinConcat(xs: seq<string>, ys: seq<string>)
    requires |xs| >= 1 && |ys| >= 1
    ensures Join(xs + ys) == Join(xs) + "\n" + Join(ys)
    decreases |xs|
  {
    if |xs| == 1 {
      assert (xs + ys)[1..] == ys;
    } else {
      assert (xs + ys)[1..] == xs[1..] + ys;
      JoinConcat(xs[1..], ys);
    }
  }
}
