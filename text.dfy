/**
 * The few JavaScript string primitives the note engine relies on, modelled
 * on `string` (a sequence of characters): `trim`, `startsWith`, `includes`,
 * `indexOf`, `replace` with a string pattern, `toLowerCase` on ASCII,
 * `parseInt` and the relational comparison of two strings.
 */
module Text {
  import opened Wrappers

  /** ECMAScript LineTerminator: what `.` in a regular expression does not match. */
  predicate IsLineTerminator(c: char) {
    c == '\n' || c == '\r' || c == '\U{2028}' || c == '\U{2029}'
  }

  /** A piece of text that `.` matches character by character. */
  predicate NoTerminators(s: string) {
    forall i :: 0 <= i < |s| ==> !IsLineTerminator(s[i])
  }

  /**
   * ECMAScript WhiteSpace plus LineTerminator: the characters that
   * `String.prototype.trim` strips and that `\s` matches.
   */
  predicate IsWhitespace(c: char) {
    || IsLineTerminator(c)
    || c == '\t' || c == '\U{B}' || c == '\U{C}' || c == ' ' || c == '\U{A0}'
    || c == '\U{1680}' || ('\U{2000}' <= c <= '\U{200A}')
    || c == '\U{202F}' || c == '\U{205F}' || c == '\U{3000}' || c == '\U{FEFF}'
  }

  predicate AllWhitespace(s: string) {
    forall i :: 0 <= i < |s| ==> IsWhitespace(s[i])
  }

  /** `s.trimStart()`. */
  function TrimStart(s: string): (r: string)
    ensures |r| <= |s|
    ensures |r| > 0 ==> !IsWhitespace(r[0])
  {
    if |s| > 0 && IsWhitespace(s[0]) then TrimStart(s[1..]) else s
  }

  /** `s.trimEnd()`. */
  function TrimEnd(s: string): (r: string)
    ensures |r| <= |s|
    ensures |r| > 0 ==> !IsWhitespace(r[|r| - 1])
  {
    if |s| > 0 && IsWhitespace(s[|s| - 1]) then TrimEnd(s[..|s| - 1]) else s
  }

  /** `s.trim()`. */
  function Trim(s: string): string {
    TrimEnd(TrimStart(s))
  }

  /** `trimStart` drops the leading whitespace and nothing else. */
  lemma {:induction false} TrimStartSpec(s: string)
    ensures TrimStart(s) == s[|s| - |TrimStart(s)|..]
    ensures AllWhitespace(s[..|s| - |TrimStart(s)|])
  {
    if |s| > 0 && IsWhitespace(s[0]) {
      TrimStartSpec(s[1..]);
      var k := |s| - |TrimStart(s)|;
      assert s[1..][k - 1..] == s[k..];
    }
  }

  /** `trimEnd` drops the trailing whitespace and nothing else. */
  lemma {:induction false} TrimEndSpec(s: string)
    ensures TrimEnd(s) == s[..|TrimEnd(s)|]
    ensures AllWhitespace(s[|TrimEnd(s)|..])
  {
    if |s| > 0 && IsWhitespace(s[|s| - 1]) {
      var u := s[..|s| - 1];
      TrimEndSpec(u);
      var k := |TrimEnd(s)|;
      assert u[..k] == s[..k];
      assert forall j :: 0 <= j < |u| - k ==> s[k..][j] == u[k..][j];
    }
  }

  /** A line is blank (`line.trim() === ''`) exactly when every character is whitespace. */
  lemma TrimEmptyIff(s: string)
    ensures Trim(s) == "" <==> AllWhitespace(s)
  {
    var t := TrimStart(s);
    TrimStartSpec(s);
    TrimEndSpec(t);
    assert s == s[..|s| - |t|] + t;
    if Trim(s) == "" {
      assert t[|TrimEnd(t)|..] == t;
    }
  }

  /** Trimming keeps a string that starts and ends with non-whitespace. */
  lemma TrimUnchanged(s: string)
    requires |s| > 0 && !IsWhitespace(s[0]) && !IsWhitespace(s[|s| - 1])
    ensures Trim(s) == s
  {
    assert TrimStart(s) == s;
  }

  /** A string that starts with a visible character keeps it first when trimmed. */
  lemma TrimKeepsFirst(s: string)
    requires |s| > 0 && !IsWhitespace(s[0])
    ensures |Trim(s)| > 0 && Trim(s)[0] == s[0]
  {
    assert TrimStart(s) == s;
    TrimEndSpec(s);
  }

  /** Trimming only removes characters: what is left is a piece of the original. */
  lemma TrimIsInfix(s: string)
    ensures exists i, j :: 0 <= i <= j <= |s| && Trim(s) == s[i..j]
  {
    var t := TrimStart(s);
    var k := |s| - |t|;
    var u := TrimEnd(t);
    TrimStartSpec(s);
    TrimEndSpec(t);
    assert t == s[k..];
    assert u == t[..|u|];
    assert s[k..][..|u|] == s[k..k + |u|];
    assert Trim(s) == s[k..k + |u|];
  }

  /** Every character left by trimming was in the original string. */
  lemma TrimChars(s: string)
    ensures forall c :: c in Trim(s) ==> c in s
  {
    TrimIsInfix(s);
    var i, j :| 0 <= i <= j <= |s| && Trim(s) == s[i..j];
    forall c | c in Trim(s) ensures c in s {
      var n :| 0 <= n < j - i && s[i..j][n] == c;
      assert s[i + n] == c;
    }
  }

  /** Leading whitespace does not survive `trimStart`. */
  lemma {:induction false} TrimStartSkipsWhitespace(p: string, v: string)
    requires AllWhitespace(p)
    ensures TrimStart(p + v) == TrimStart(v)
  {
    if |p| > 0 {
      assert (p + v)[1..] == p[1..] + v;
      TrimStartSkipsWhitespace(p[1..], v);
    } else {
      assert p + v == v;
    }
  }

  /** Trailing whitespace after a non-whitespace character is the only thing `trimEnd` removes. */
  lemma {:induction false} TrimEndKeepsPrefix(u: string, q: string)
    requires |u| > 0 && !IsWhitespace(u[|u| - 1])
    ensures TrimEnd(u + q) == u + TrimEnd(q)
    decreases |q|
  {
    if |q| == 0 {
      assert u + q == u;
    } else if IsWhitespace(q[|q| - 1]) {
      assert (u + q)[..|u + q| - 1] == u + q[..|q| - 1];
      TrimEndKeepsPrefix(u, q[..|q| - 1]);
    } else {
      assert (u + q)[|u + q| - 1] == q[|q| - 1];
    }
  }

  /** `s.startsWith(p)`. */
  predicate StartsWith(s: string, p: string) {
    |p| <= |s| && s[..|p|] == p
  }

  /** `s.endsWith(p)`. */
  predicate EndsWith(s: string, p: string) {
    |p| <= |s| && s[|s| - |p|..] == p
  }

  /** `s.indexOf(pat, from)`: the first position at or after `from` where `pat` starts, or -1. */
  function IndexOfFrom(s: string, pat: string, from: nat): (r: int)
    requires from <= |s|
    ensures r == -1 || from <= r <= |s| - |pat|
    ensures r >= 0 ==> StartsWith(s[r..], pat)
    ensures forall j :: from <= j < (if r < 0 then |s| + 1 else r) ==> !StartsWith(s[j..], pat)
    decreases |s| - from
  {
    if StartsWith(s[from..], pat) then from
    else if from == |s| then -1
    else IndexOfFrom(s, pat, from + 1)
  }

  /** `s.indexOf(pat)`. */
  function IndexOf(s: string, pat: string): int {
    IndexOfFrom(s, pat, 0)
  }

  /** `s.includes(sub)`. */
  predicate Contains(s: string, sub: string) {
    IndexOf(s, sub) >= 0
  }

  /** `sub` occurs in `s` exactly when it starts at some position of `s`. */
  lemma ContainsIff(s: string, sub: string)
    ensures Contains(s, sub) <==> exists i :: 0 <= i <= |s| && StartsWith(s[i..], sub)
  {
  }

  /** `indexOf` finds the first occurrence: a match with none before it is the answer. */
  lemma IndexOfFirst(s: string, pat: string, w: nat)
    requires w <= |s| && StartsWith(s[w..], pat)
    requires forall j :: 0 <= j < w ==> !StartsWith(s[j..], pat)
    ensures IndexOf(s, pat) == w
  {
  }

  /** A piece of a string occurs in it. */
  lemma ContainsAt(s: string, sub: string, i: nat)
    requires i <= |s| && StartsWith(s[i..], sub)
    ensures Contains(s, sub)
  {
    ContainsIff(s, sub);
  }

  /** A string that `sub` does not occur in has no position where `sub` starts. */
  lemma NotContainsAt(s: string, sub: string, i: nat)
    requires i <= |s| && !Contains(s, sub)
    ensures !StartsWith(s[i..], sub)
  {
    ContainsIff(s, sub);
  }

  /** `s.replace(pat, rep)` with a string pattern: only the first occurrence is replaced. */
  function ReplaceFirst(s: string, pat: string, rep: string): string {
    var i := IndexOf(s, pat);
    if i < 0 then s else s[..i] + rep + s[i + |pat|..]
  }

  /** `s.toLowerCase()` on the ASCII letters. */
  function ToLowerAscii(s: string): (r: string)
    ensures |r| == |s|
  {
    seq(|s|, i requires 0 <= i < |s| => if 'A' <= s[i] <= 'Z' then (s[i] as int + 32) as char else s[i])
  }

  /** `a < b` on two strings: lexicographic, a proper prefix coming first. */
  predicate StringLess(a: string, b: string) {
    if |a| == 0 then |b| > 0
    else if |b| == 0 then false
    else if a[0] != b[0] then a[0] < b[0]
    else StringLess(a[1..], b[1..])
  }

  predicate IsDigit(c: char) {
    '0' <= c <= '9'
  }

  predicate AllDigits(s: string) {
    forall i :: 0 <= i < |s| ==> IsDigit(s[i])
  }

  function HexDigitValue(c: char): (r: int)
    ensures -1 <= r < 16
  {
    if '0' <= c <= '9' then c as int - '0' as int
    else if 'a' <= c <= 'f' then c as int - 'a' as int + 10
    else if 'A' <= c <= 'F' then c as int - 'A' as int + 10
    else -1
  }

  /** The length of the longest prefix of `s` made of digits of base `radix` (10 or 16). */
  function DigitRun(s: string, radix: int): (n: nat)
    requires radix == 10 || radix == 16
    ensures n <= |s|
    ensures forall i :: 0 <= i < n ==> 0 <= HexDigitValue(s[i]) < radix
    ensures n < |s| ==> !(0 <= HexDigitValue(s[n]) < radix)
  {
    if |s| > 0 && 0 <= HexDigitValue(s[0]) < radix then 1 + DigitRun(s[1..], radix) else 0
  }

  /** The value of a run of digits in base `radix`, most significant first. */
  function DigitsValue(ds: string, radix: int): (v: nat)
    requires radix == 10 || radix == 16
    requires forall i :: 0 <= i < |ds| ==> 0 <= HexDigitValue(ds[i]) < radix
  {
    if |ds| == 0 then 0
    else DigitsValue(ds[..|ds| - 1], radix) * radix + HexDigitValue(ds[|ds| - 1])
  }

  /**
   * The digits part of `parseInt`: a `0x`/`0X` prefix selects base 16, and
   * the longest run of digits after that is the value; anything after the
   * run is ignored. `None` stands for NaN (no digit at all).
   */
  function ParseMagnitude(u: string): (r: Option<int>)
    ensures r.Some? ==> r.value >= 0
  {
    var hex := |u| >= 2 && u[0] == '0' && (u[1] == 'x' || u[1] == 'X');
    var body := if hex then u[2..] else u;
    var radix := if hex then 16 else 10;
    var n := DigitRun(body, radix);
    if n == 0 then None else Some(DigitsValue(body[..n], radix))
  }

  /**
   * `parseInt(s)` with no radix, `None` standing for NaN: leading whitespace
   * is skipped and one sign is read before the digits.
   */
  function ParseInt(s: string): Option<int> {
    var t := TrimStart(s);
    if |t| > 0 && t[0] == '-' then
      match ParseMagnitude(t[1..])
      case Some(m) => Some(-m)
      case None => None
    else if |t| > 0 && t[0] == '+' then ParseMagnitude(t[1..])
    else ParseMagnitude(t)
  }

  /**
   * `parseInt` reads the leading decimal digits and ignores whatever follows
   * them (unless a lone `0` is followed by `x`, which would select base 16).
   */
  lemma ParseIntDigitPrefix(ds: string, rest: string)
    requires |ds| > 0 && AllDigits(ds)
    requires |rest| > 0 ==> !IsDigit(rest[0])
    requires |rest| > 0 && ds == "0" ==> rest[0] != 'x' && rest[0] != 'X'
    ensures ParseInt(ds + rest) == Some(DigitsValue(ds, 10))
  {
    var s := ds + rest;
    assert s[0] == ds[0];
    assert !IsWhitespace(s[0]);
    assert TrimStart(s) == s;
    ParseMagnitudeDecimal(ds, rest);
  }

  /** Typed digits read as their base-10 value. */
  lemma ParseIntOfDigits(ds: string)
    requires |ds| > 0 && AllDigits(ds)
    ensures ParseInt(ds) == Some(DigitsValue(ds, 10))
  {
    ParseIntDigitPrefix(ds, "");
    assert ds + "" == ds;
  }

  lemma ParseMagnitudeDecimal(ds: string, rest: string)
    requires |ds| > 0 && AllDigits(ds)
    requires |rest| > 0 ==> !IsDigit(rest[0])
    requires |rest| > 0 && ds == "0" ==> rest[0] != 'x' && rest[0] != 'X'
    ensures ParseMagnitude(ds + rest) == Some(DigitsValue(ds, 10))
  {
    var s := ds + rest;
    assert |s| >= 2 && s[0] == '0' ==> s[1] != 'x' && s[1] != 'X' by {
      if |s| >= 2 && s[0] == '0' {
        if |ds| >= 2 { assert s[1] == ds[1]; } else { assert ds == "0"; assert s[1] == rest[0]; }
      }
    }
    assert !(|s| >= 2 && s[0] == '0' && (s[1] == 'x' || s[1] == 'X'));
    DigitRunOfDigits(ds, rest);
    assert s[..|ds|] == ds;
    assert ParseMagnitude(s) == Some(DigitsValue(s[..DigitRun(s, 10)], 10));
  }

  /** The digit run of digits followed by a non-digit is exactly those digits. */
  lemma DigitRunOfDigits(ds: string, rest: string)
    requires AllDigits(ds)
    requires |rest| > 0 ==> !IsDigit(rest[0])
    ensures DigitRun(ds + rest, 10) == |ds|
  {
    var s := ds + rest;
    assert forall i :: 0 <= i < |ds| ==> s[i] == ds[i];
    assert |rest| > 0 ==> s[|ds|] == rest[0];
  }
}
