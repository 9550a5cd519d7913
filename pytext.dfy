/** The Python `str` built-ins the two scripts rely on: `s.split(sep)`, `s.split()`,
    `int(s)` (with the surrounding whitespace it ignores), `str(n)`, the `in`
    substring test and the ordering that `sorted` uses on strings. Characters are Unicode scalar values; the whitespace
    set is the ASCII part of what Python calls whitespace. */
module PyText {
  import opened Wrappers

  // ---------------------------------------------------------------------------
  // Character classes

  /** ASCII characters for which Python's `str.isspace()` holds. */
  predicate IsSpace(c: char) {
    c == ' ' || c == '\t' || c == '\n' || c == '\r' || c == '\U{B}' || c == '\U{C}'
    || ('\U{1C}' <= c <= '\U{1F}')
  }

  predicate IsDigit(c: char) { '0' <= c <= '9' }

  predicate IsAlnum(c: char) { IsDigit(c) || 'a' <= c <= 'z' || 'A' <= c <= 'Z' }

  predicate AllDigits(s: string) { forall i | 0 <= i < |s| :: IsDigit(s[i]) }

  predicate NoSpace(s: string) { forall i | 0 <= i < |s| :: !IsSpace(s[i]) }

  function DigitValue(c: char): nat
    requires IsDigit(c)
  {
    c as int - '0' as int
  }

  function DigitChar(d: nat): (c: char)
    requires d < 10
    ensures IsDigit(c) && DigitValue(c) == d
  {
    ('0' as int + d) as char
  }

  // ---------------------------------------------------------------------------
  // Substrings

  predicate HasPrefix(s: string, p: string) {
    |p| <= |s| && s[..|p|] == p
  }

  lemma ConcatAssoc(a: string, b: string, c: string)
    ensures (a + b) + c == a + (b + c)
  {
  }

  lemma ConcatSlices(a: string, b: string)
    ensures (a + b)[..|a|] == a && (a + b)[|a|..] == b
  {
  }

  predicate HasSuffix(s: string, p: string) {
    |p| <= |s| && s[|s| - |p|..] == p
  }

  predicate OccursAt(s: string, t: string, i: int) {
    0 <= i <= |s| - |t| && s[i..i + |t|] == t
  }

  /** Python's `t in s` for two strings. */
  predicate Contains(s: string, t: string) {
    exists i | 0 <= i <= |s| :: OccursAt(s, t, i)
  }

  // ---------------------------------------------------------------------------
  // Runs of a character class, as a greedy regular-expression `[...]+` takes them

  /** The longest prefix of `s` whose characters all satisfy `keep`. */
  function LeadingRun(s: string, keep: char -> bool): (d: string)
    ensures |d| <= |s| && d == s[..|d|]
    ensures forall k | 0 <= k < |d| :: keep(d[k])
    ensures |d| == |s| || !keep(s[|d|])
  {
    if |s| > 0 && keep(s[0]) then [s[0]] + LeadingRun(s[1..], keep) else []
  }

  /** A run followed by a character outside the class is taken whole. */
  lemma LeadingRunOf(run: string, rest: string, keep: char -> bool)
    requires forall k | 0 <= k < |run| :: keep(run[k])
    requires |rest| == 0 || !keep(rest[0])
    ensures LeadingRun(run + rest, keep) == run
  {
    var s := run + rest;
    assert forall k | 0 <= k < |run| :: s[k] == run[k];
    assert |run| < |s| ==> s[|run|] == rest[0];
  }

  // ---------------------------------------------------------------------------
  // s.split(sep) and sep.join(parts)

  /** `sep.join(parts)` for a one-character separator. */
  function Join(parts: seq<string>, sep: char): string {
    if |parts| == 0 then ""
    else if |parts| == 1 then parts[0]
    else parts[0] + [sep] + Join(parts[1..], sep)
  }

  /** Two pieces are joined by one separator. */
  lemma JoinTwo(parts: seq<string>, sep: char)
    requires |parts| == 2
    ensures Join(parts, sep) == parts[0] + [sep] + parts[1]
  {
    assert parts[1..] == [parts[1]];
  }

  /** `s.split(sep)` for a one-character separator: the pieces between the
      separators, empty pieces included, so there is always at least one. */
  function Split(s: string, sep: char): (parts: seq<string>)
    ensures |parts| > 0
    ensures forall i | 0 <= i < |parts| :: sep !in parts[i]
    ensures Join(parts, sep) == s
    ensures sep !in s ==> parts == [s]
    decreases |s|
  {
    if |s| == 0 then [""]
    else
      var rest := Split(s[1..], sep);
      if s[0] == sep then
        assert s == [sep] + s[1..];
        [""] + rest
      else
        var parts := [[s[0]] + rest[0]] + rest[1..];
        assert parts[1..] == rest[1..];
        assert s == [s[0]] + s[1..];
        parts
  }

  lemma {:induction false} SplitAfterPiece(a: string, sep: char, rest: string)
    requires sep !in a
    ensures Split(a + [sep] + rest, sep) == [a] + Split(rest, sep)
    decreases |a|
  {
    var s := a + [sep] + rest;
    if |a| == 0 {
      assert s[1..] == rest;
    } else {
      assert s[1..] == a[1..] + [sep] + rest;
      SplitAfterPiece(a[1..], sep, rest);
      assert [a[0]] + a[1..] == a;
    }
  }

  /** Splitting undoes joining, when no piece contains the separator. */
  lemma {:induction false} SplitJoin(parts: seq<string>, sep: char)
    requires |parts| > 0
    requires forall i | 0 <= i < |parts| :: sep !in parts[i]
    ensures Split(Join(parts, sep), sep) == parts
    decreases |parts|
  {
    if |parts| > 1 {
      SplitJoin(parts[1..], sep);
      SplitAfterPiece(parts[0], sep, Join(parts[1..], sep));
      assert [parts[0]] + parts[1..] == parts;
    }
  }

  /** Joining two runs of pieces is joining each and putting a separator between. */
  lemma {:induction false} JoinConcat(left: seq<string>, right: seq<string>, sep: char)
    requires |left| > 0 && |right| > 0
    ensures Join(left + right, sep) == Join(left, sep) + [sep] + Join(right, sep)
    decreases |left|
  {
    var both := left + right;
    assert both[0] == left[0];
    if |left| > 1 {
      assert both[1..] == left[1..] + right;
      JoinConcat(left[1..], right, sep);
    } else {
      assert both[1..] == right;
    }
  }

  /** Splitting at one separator splits the text on either side of it apart. */
  lemma SplitConcat(a: string, sep: char, b: string)
    ensures Split(a + [sep] + b, sep) == Split(a, sep) + Split(b, sep)
  {
    var left, right := Split(a, sep), Split(b, sep);
    JoinConcat(left, right, sep);
    var both := left + right;
    assert forall i | 0 <= i < |both| :: sep !in both[i] by {
      forall i | 0 <= i < |both| ensures sep !in both[i] {
        if i >= |left| { assert both[i] == right[i - |left|]; }
      }
    }
    SplitJoin(both, sep);
  }

  /** A text splits into more than one piece exactly when it holds the separator. */
  lemma SplitPieces(s: string, sep: char)
    ensures |Split(s, sep)| > 1 <==> sep in s
  {
    var parts := Split(s, sep);
    if |parts| == 1 {
      assert Join(parts, sep) == parts[0];
    }
  }

  // ---------------------------------------------------------------------------
  // s.split() with no argument

  /** `s.split()`: the maximal runs of non-whitespace characters, in order. */
  function Words(s: string): (words: seq<string>)
    ensures forall i | 0 <= i < |words| :: |words[i]| > 0 && NoSpace(words[i])
    ensures |s| > 0 && !IsSpace(s[0]) ==> |words| > 0 && HasPrefix(s, words[0])
    decreases |s|
  {
    if |s| == 0 then []
    else
      var rest := Words(s[1..]);
      if IsSpace(s[0]) then rest
      else if |s| == 1 || IsSpace(s[1]) then [[s[0]]] + rest
      else
        var words := [[s[0]] + rest[0]] + rest[1..];
        assert forall i | 1 <= i < |words| :: words[i] == rest[i];
        words
  }

  /** `" ".join(words)` */
  function Unwords(words: seq<string>): string {
    if |words| == 0 then ""
    else if |words| == 1 then words[0]
    else words[0] + " " + Unwords(words[1..])
  }

  lemma {:induction false} WordsOfSpaced(w: string, rest: string)
    requires |w| > 0 && NoSpace(w)
    requires |rest| == 0 || IsSpace(rest[0])
    ensures Words(w + rest) == [w] + Words(rest)
    decreases |w|
  {
    var s := w + rest;
    assert s[1..] == w[1..] + rest;
    if |w| == 1 {
      assert s[1..] == rest;
      if |rest| > 0 {
        assert Words(rest) == Words(rest[1..]);
      }
    } else {
      WordsOfSpaced(w[1..], rest);
      assert [w[0]] + w[1..] == w;
      assert s[1] == w[1];
    }
  }

  /** `s.split()` undoes `" ".join(...)` of non-empty words without whitespace. */
  lemma {:induction false} WordsUnwords(words: seq<string>)
    requires forall i | 0 <= i < |words| :: |words[i]| > 0 && NoSpace(words[i])
    ensures Words(Unwords(words)) == words
    decreases |words|
  {
    if |words| == 1 {
      WordsOfSpaced(words[0], "");
      assert words[0] + "" == words[0];
    } else if |words| > 1 {
      var tail := Unwords(words[1..]);
      WordsUnwords(words[1..]);
      WordsOfSpaced(words[0], " " + tail);
      assert Words(" " + tail) == Words(tail) by {
        assert (" " + tail)[1..] == tail;
      }
      assert words[0] + " " + tail == words[0] + (" " + tail);
      assert [words[0]] + words[1..] == words;
    }
  }

  // ---------------------------------------------------------------------------
  // The surrounding whitespace `int()` ignores

  function TrimLeft(s: string): (r: string)
    ensures |r| <= |s| && r == s[|s| - |r|..]
    ensures forall i | 0 <= i < |s| - |r| :: IsSpace(s[i])
    ensures |r| == 0 || !IsSpace(r[0])
    decreases |s|
  {
    if |s| > 0 && IsSpace(s[0]) then TrimLeft(s[1..]) else s
  }

  function TrimRight(s: string): (r: string)
    ensures |r| <= |s| && r == s[..|r|]
    ensures forall i | |r| <= i < |s| :: IsSpace(s[i])
    ensures |r| == 0 || !IsSpace(r[|r| - 1])
    decreases |s|
  {
    if |s| > 0 && IsSpace(s[|s| - 1]) then TrimRight(s[..|s| - 1]) else s
  }

  /** The text `int()` reads once it has dropped surrounding whitespace. */
  function Strip(s: string): (r: string)
    ensures exists i, j | 0 <= i <= j <= |s| :: r == s[i..j]
    ensures NoSpace(s) ==> r == s
  {
    var l := TrimLeft(s);
    var r := TrimRight(l);
    assert r == s[|s| - |l|..|s| - |l| + |r|];
    r
  }

  // ---------------------------------------------------------------------------
  // int(s) and str(n) for decimal text

  predicate DigitsOrUnderscores(s: string) {
    forall i | 0 <= i < |s| :: IsDigit(s[i]) || s[i] == '_'
  }

  /** The digit part that Python's `int()` accepts: ASCII digits, with single
      underscores allowed between two digits (`1_000`), i.e. `[0-9](_?[0-9])*`. */
  predicate IsNumeral(s: string)
    ensures IsNumeral(s) ==> DigitsOrUnderscores(s)
    decreases |s|
  {
    && |s| > 0 && IsDigit(s[0])
    && (|s| == 1 || IsNumeral(s[1..]) || (|s| >= 3 && s[1] == '_' && IsNumeral(s[2..])))
  }

  lemma {:induction false} AllDigitsIsNumeral(s: string)
    requires |s| > 0 && AllDigits(s)
    ensures IsNumeral(s)
    decreases |s|
  {
    if |s| > 1 { AllDigitsIsNumeral(s[1..]); }
  }

  /** The value of a numeral, underscores skipped. */
  function NumeralValue(s: string): nat
    requires DigitsOrUnderscores(s)
    decreases |s|
  {
    if |s| == 0 then 0
    else if s[|s| - 1] == '_' then NumeralValue(s[..|s| - 1])
    else NumeralValue(s[..|s| - 1]) * 10 + DigitValue(s[|s| - 1])
  }

  /** Python's `int(s)` in base 10: surrounding whitespace stripped, an optional
      sign, then a numeral. */
  function ParseInt(s: string): (r: Option<int>)
    ensures '-' !in s && r.Some? ==> r.value >= 0
  {
    var t := Strip(s);
    if |t| > 0 && (t[0] == '-' || t[0] == '+') && IsNumeral(t[1..]) then
      var n := NumeralValue(t[1..]);
      if t[0] == '-' then
        assert t[0] in t;
        var v: int := -(n as int);
        Some(v)
      else Some(n)
    else if IsNumeral(t) then Some(NumeralValue(t))
    else None
  }

  /** A numeral starts with a digit. */
  lemma NotNumeral(t: string)
    requires |t| == 0 || !IsDigit(t[0])
    ensures !IsNumeral(t)
  {
  }

  /** `int(s)` raises on a text without a digit. */
  lemma ParseIntNeedsDigit(s: string)
    requires forall i | 0 <= i < |s| :: !IsDigit(s[i])
    ensures ParseInt(s) == None
  {
    var t := Strip(s);
    var i, j :| 0 <= i <= j <= |s| && t == s[i..j];
    if |t| > 0 {
      assert t[0] == s[i];
      NotNumeral(t);
      var u := t[1..];
      if |u| > 0 {
        assert u[0] == s[i + 1];
      }
      NotNumeral(u);
    } else {
      NotNumeral(t);
    }
  }

  /** Python's `str(n)` for a non-negative integer: decimal digits, no leading zero. */
  function NatToString(n: nat): (s: string)
    ensures |s| > 0 && AllDigits(s)
    ensures s[0] == '0' ==> n == 0
  {
    if n < 10 then [DigitChar(n)]
    else NatToString(n / 10) + [DigitChar(n % 10)]
  }

  lemma {:induction false} NumeralValueOfNatToString(n: nat)
    ensures NumeralValue(NatToString(n)) == n
  {
    var s := NatToString(n);
    if n >= 10 {
      NumeralValueOfNatToString(n / 10);
      assert s[..|s| - 1] == NatToString(n / 10);
    }
  }

  /** `int(str(n)) == n` */
  lemma ParseIntNatToString(n: nat)
    ensures ParseInt(NatToString(n)) == Some(n)
  {
    var s := NatToString(n);
    assert NoSpace(s) by {
      forall i | 0 <= i < |s| ensures !IsSpace(s[i]) { assert IsDigit(s[i]); }
    }
    assert Strip(s) == s;
    AllDigitsIsNumeral(s);
    assert IsDigit(s[0]);
    NumeralValueOfNatToString(n);
  }

  /** `str` is one-to-one on non-negative integers. */
  lemma NatToStringInjective(m: nat, n: nat)
    requires NatToString(m) == NatToString(n)
    ensures m == n
  {
    NumeralValueOfNatToString(m);
    NumeralValueOfNatToString(n);
  }

  // ---------------------------------------------------------------------------
  // String order

  /** Python's `<` on strings: code-point lexicographic order, a proper prefix first. */
  predicate LexLess(a: string, b: string)
    decreases |a|
  {
    if |a| == 0 then |b| > 0
    else if |b| == 0 then false
    else if a[0] != b[0] then a[0] < b[0]
    else LexLess(a[1..], b[1..])
  }

  lemma {:induction false} LexLessIrreflexive(a: string)
    ensures !LexLess(a, a)
    decreases |a|
  {
    if |a| > 0 { LexLessIrreflexive(a[1..]); }
  }

  lemma {:induction false} LexLessTransitive(a: string, b: string, c: string)
    requires LexLess(a, b) && LexLess(b, c)
    ensures LexLess(a, c)
    decreases |a|
  {
    if |a| > 0 && a[0] == b[0] && b[0] == c[0] {
      LexLessTransitive(a[1..], b[1..], c[1..]);
    }
  }

  lemma {:induction false} LexLessTotal(a: string, b: string)
    requires a != b
    ensures LexLess(a, b) || LexLess(b, a)
    decreases |a|
  {
    if |a| > 0 && |b| > 0 && a[0] == b[0] {
      assert a == [a[0]] + a[1..] && b == [b[0]] + b[1..];
      LexLessTotal(a[1..], b[1..]);
    }
  }
}
