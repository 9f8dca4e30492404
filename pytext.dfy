/** The Python string and text-file behaviour the dataset store relies on:
    `str.isspace`, `str.strip()`, `str.split("\n")`, iteration over a file
    opened in text mode with universal newlines, and the decimal rendering
    of an `int` inside an f-string. */
module PyText {

  /** Python 3's `str.isspace`: U+0009..U+000D, U+001C..U+001F, the space,
      U+0085, U+00A0, U+1680, U+2000..U+200A, U+2028, U+2029, U+202F,
      U+205F and U+3000. */
  predicate IsSpace(c: char) {
    || ('\t' <= c <= '\r')
    || ('\U{001C}' <= c <= '\U{001F}')
    || c == ' '
    || c == '\U{0085}'
    || c == '\U{00A0}'
    || c == '\U{1680}'
    || ('\U{2000}' <= c <= '\U{200A}')
    || c == '\U{2028}'
    || c == '\U{2029}'
    || c == '\U{202F}'
    || c == '\U{205F}'
    || c == '\U{3000}'
  }

  predicate AllSpace(s: string) {
    forall j :: 0 <= j < |s| ==> IsSpace(s[j])
  }

  // ---------------------------------------------------------------------
  // str.strip()
  // ---------------------------------------------------------------------

  /** The number of whitespace characters at the head of `s`. */
  function LeadingSpace(s: string): (k: nat)
    ensures k <= |s|
    ensures forall j :: 0 <= j < k ==> IsSpace(s[j])
    ensures k < |s| ==> !IsSpace(s[k])
  {
    if s != [] && IsSpace(s[0]) then 1 + LeadingSpace(s[1..]) else 0
  }

  /** The index at which the whitespace at the tail of `s` begins. */
  function TrailingStart(s: string): (k: nat)
    ensures k <= |s|
    ensures forall j :: k <= j < |s| ==> IsSpace(s[j])
    ensures k > 0 ==> !IsSpace(s[k - 1])
  {
    if s != [] && IsSpace(s[|s| - 1]) then TrailingStart(s[..|s| - 1]) else |s|
  }

  /** `s.strip()`: the slice of `s` between its leading and its trailing
      whitespace. */
  function Strip(s: string): string {
    var i := LeadingSpace(s);
    if i == |s| then [] else s[i..TrailingStart(s)]
  }

  /** The two ends of `s.strip()` are not whitespace... */
  lemma StripEnds(s: string)
    ensures var r := Strip(s); r != [] ==> !IsSpace(r[0]) && !IsSpace(r[|r| - 1])
  {
  }

  /** ... it is empty exactly when `s` is all whitespace... */
  lemma StripBlank(s: string)
    ensures Strip(s) == [] <==> AllSpace(s)
  {
    if LeadingSpace(s) < |s| {
      assert !IsSpace(s[LeadingSpace(s)]);
    }
  }

  /** ... and it is a slice of `s` outside which everything is whitespace.
      Together these determine the result. */
  lemma StripSlice(s: string)
    ensures var i, r := LeadingSpace(s), Strip(s); i + |r| <= |s| && r == s[i..i + |r|]
    ensures var i, r := LeadingSpace(s), Strip(s);
      forall j :: 0 <= j < |s| && !(i <= j < i + |r|) ==> IsSpace(s[j])
  {
  }

  /** Every character of `s.strip()` is a character of `s`. */
  lemma StripChars(s: string, c: char)
    requires c in Strip(s)
    ensures c in s
  {
    var r := Strip(s);
    var i := LeadingSpace(s);
    StripSlice(s);
    var k :| 0 <= k < |r| && r[k] == c;
    assert s[i + k] == c;
  }

  /** A string that is empty or has non-whitespace ends strips to itself. */
  lemma StripFixed(s: string)
    requires s != [] ==> !IsSpace(s[0]) && !IsSpace(s[|s| - 1])
    ensures Strip(s) == s
  {
    if s != [] {
      assert LeadingSpace(s) == 0;
      assert TrailingStart(s) == |s|;
    }
  }

  /** Stripping twice is stripping once. */
  lemma StripIdempotent(s: string)
    ensures Strip(Strip(s)) == Strip(s)
  {
    StripEnds(s);
    StripFixed(Strip(s));
  }

  /** A stripped, non-empty line followed by a whitespace terminator strips
      back to itself: this is how a written line reads back. */
  lemma StripTerminated(line: string, c: char)
    requires line != [] && Strip(line) == line
    requires IsSpace(c)
    ensures Strip(line + [c]) == line
  {
    var s := line + [c];
    StripEnds(line);
    assert LeadingSpace(s) == 0;
    assert s[..|s| - 1] == line;
    assert TrailingStart(line) == |line| by {
      StripFixed(line);
    }
    assert TrailingStart(s) == |line|;
  }

  // ---------------------------------------------------------------------
  // str.split(sep) and its inverse sep.join(parts)
  // ---------------------------------------------------------------------

  /** `sep.join(parts)` for a one-character separator. */
  function Join(parts: seq<string>, sep: char): string {
    if |parts| == 0 then []
    else if |parts| == 1 then parts[0]
    else parts[0] + [sep] + Join(parts[1..], sep)
  }

  /** `s.split(sep)` for a one-character separator: at least one part,
      no part holds the separator, and joining the parts gives `s` back. */
  function Split(s: string, sep: char): (parts: seq<string>)
    ensures |parts| >= 1
    ensures forall i :: 0 <= i < |parts| ==> sep !in parts[i]
    ensures Join(parts, sep) == s
  {
    if s == [] then [[]]
    else
      var rest := Split(s[1..], sep);
      if s[0] == sep then
        assert Join([[]] + rest, sep) == [sep] + Join(rest, sep) by {
          assert ([[]] + rest)[1..] == rest;
        }
        [[]] + rest
      else
        var parts := [[s[0]] + rest[0]] + rest[1..];
        assert Join(parts, sep) == [s[0]] + Join(rest, sep) by {
          if |rest| > 1 {
            assert parts[1..] == rest[1..];
            assert Join(rest, sep) == rest[0] + [sep] + Join(rest[1..], sep);
          }
        }
        assert s == [s[0]] + s[1..];
        parts
  }

  /** Splitting a join of separator-free parts gives the parts back. */
  lemma {:induction false} SplitJoin(parts: seq<string>, sep: char)
    requires |parts| >= 1
    requires forall i :: 0 <= i < |parts| ==> sep !in parts[i]
    ensures Split(Join(parts, sep), sep) == parts
  {
    var p := parts[0];
    if |parts| == 1 {
      SplitPart(p, [], sep);
    } else {
      SplitJoin(parts[1..], sep);
      var tail := Join(parts[1..], sep);
      assert Join(parts, sep) == p + ([sep] + tail);
      SplitPart(p, [sep] + tail, sep);
      assert Split([sep] + tail, sep) == [[]] + Split(tail, sep) by {
        assert ([sep] + tail)[1..] == tail;
      }
      assert p + [] == p;
      assert [p] + parts[1..] == parts;
    }
  }

  /** Splitting `p + rest` for separator-free `p` glues `p` onto the first
      part of `rest`. */
  lemma {:induction false} SplitPart(p: string, rest: string, sep: char)
    requires sep !in p
    ensures var r := Split(rest, sep); Split(p + rest, sep) == [p + r[0]] + r[1..]
  {
    var r := Split(rest, sep);
    if p == [] {
      assert p + rest == rest;
      assert p + r[0] == r[0];
      assert [r[0]] + r[1..] == r;
    } else {
      SplitPart(p[1..], rest, sep);
      assert (p + rest)[0] == p[0] != sep;
      assert (p + rest)[1..] == p[1..] + rest;
      var r' := Split(p[1..] + rest, sep);
      assert Split(p + rest, sep) == [[p[0]] + r'[0]] + r'[1..];
      assert r'[0] == p[1..] + r[0] && r'[1..] == r[1..];
      assert [p[0]] + (p[1..] + r[0]) == p + r[0];
    }
  }

  /** Every part of an all-whitespace string is all whitespace. */
  lemma {:induction false} SplitAllSpace(s: string, sep: char)
    requires AllSpace(s)
    ensures forall i :: 0 <= i < |Split(s, sep)| ==> AllSpace(Split(s, sep)[i])
  {
    if s != [] {
      SplitAllSpace(s[1..], sep);
    }
  }

  // ---------------------------------------------------------------------
  // Reading a text-mode file line by line (universal newlines)
  // ---------------------------------------------------------------------

  predicate IsTerminator(c: char) {
    c == '\n' || c == '\r'
  }

  /** The text after the line terminator at the head of `s`: "\r\n" counts
      as one terminator, as do a lone "\r" and a lone "\n". */
  function AfterTerminator(s: string): (r: string)
    requires s != [] && IsTerminator(s[0])
    ensures |r| < |s|
  {
    if s[0] == '\r' && |s| > 1 && s[1] == '\n' then s[2..] else s[1..]
  }

  /** The text a universal-newline reader delivers: every terminator
      becomes "\n". */
  function Universal(s: string): (t: string)
    ensures '\r' !in t
    decreases |s|
  {
    if s == [] then []
    else if IsTerminator(s[0]) then "\n" + Universal(AfterTerminator(s))
    else [s[0]] + Universal(s[1..])
  }

  function Concat(lines: seq<string>): string {
    if lines == [] then [] else lines[0] + Concat(lines[1..])
  }

  /** The lines of `[c] + s` given the lines of `s`, for a character `c`
      that does not end a line: `c` joins the first line. */
  function ConsChar(c: char, lines: seq<string>): seq<string> {
    if lines == [] then [[c]] else [[c] + lines[0]] + lines[1..]
  }

  /** The lines `for line in f` yields for a file holding `s`, each with
      its terminator delivered as "\n". */
  function ReadLines(s: string): (lines: seq<string>)
    ensures lines == [] <==> s == []
    decreases |s|
  {
    if s == [] then []
    else if IsTerminator(s[0]) then ["\n"] + ReadLines(AfterTerminator(s))
    else ConsChar(s[0], ReadLines(s[1..]))
  }

  /** Together the lines are the text a universal-newline reader
      delivers. */
  lemma {:induction false} ReadLinesConcat(s: string)
    ensures Concat(ReadLines(s)) == Universal(s)
    decreases |s|
  {
    if s == [] {
    } else if IsTerminator(s[0]) {
      var rest := ReadLines(AfterTerminator(s));
      ReadLinesConcat(AfterTerminator(s));
      assert (["\n"] + rest)[1..] == rest;
    } else {
      var rest := ReadLines(s[1..]);
      ReadLinesConcat(s[1..]);
      if rest != [] {
        assert ConsChar(s[0], rest)[1..] == rest[1..];
        assert Concat(rest) == rest[0] + Concat(rest[1..]);
      }
    }
  }

  /** A line as delivered by the reader: non-empty, with "\n" at most as
      its last character. */
  predicate IsLine(line: string) {
    line != [] && forall j :: 0 <= j < |line| - 1 ==> line[j] != '\n'
  }

  predicate EndsWithNewline(line: string) {
    line != [] && line[|line| - 1] == '\n'
  }

  /** Every line read is a line, every line but the last ends with "\n",
      and the last one does exactly when the file ends with a terminator. */
  lemma {:induction false} ReadLinesShape(s: string)
    ensures forall i :: 0 <= i < |ReadLines(s)| ==> IsLine(ReadLines(s)[i])
    ensures forall i :: 0 <= i < |ReadLines(s)| - 1 ==> EndsWithNewline(ReadLines(s)[i])
    decreases |s|
  {
    if s == [] {
    } else if IsTerminator(s[0]) {
      var s' := AfterTerminator(s);
      ReadLinesShape(s');
      var rest := ReadLines(s');
      assert forall i :: 1 <= i < |["\n"] + rest| ==> (["\n"] + rest)[i] == rest[i - 1];
    } else {
      var u := s[1..];
      ReadLinesShape(u);
      var rest := ReadLines(u);
      if rest != [] {
        var lines := ConsChar(s[0], rest);
        assert forall i :: 1 <= i < |lines| ==> lines[i] == rest[i];
        assert lines[0] == [s[0]] + rest[0];
      }
    }
  }

  /** The last line read ends with "\n" exactly when the file ends with a
      line terminator. */
  lemma {:induction false} ReadLinesLast(s: string)
    requires s != []
    ensures EndsWithNewline(ReadLines(s)[|ReadLines(s)| - 1]) <==> Terminated(s)
    decreases |s|
  {
    if IsTerminator(s[0]) {
      var s' := AfterTerminator(s);
      if s' != [] {
        ReadLinesLast(s');
      }
      ReadLinesLastAfterTerminator(s);
    } else {
      if s[1..] != [] {
        ReadLinesLast(s[1..]);
      }
      ReadLinesLastAfterChar(s);
    }
  }

  /** The step of `ReadLinesLast` for text that starts with a terminator. */
  lemma ReadLinesLastAfterTerminator(s: string)
    requires s != [] && IsTerminator(s[0])
    requires AfterTerminator(s) != [] ==> (
      var t := AfterTerminator(s);
      EndsWithNewline(ReadLines(t)[|ReadLines(t)| - 1]) <==> Terminated(t))
    ensures EndsWithNewline(ReadLines(s)[|ReadLines(s)| - 1]) <==> Terminated(s)
  {
    var s' := AfterTerminator(s);
    var rest := ReadLines(s');
    var lines := ReadLines(s);
    assert lines == ["\n"] + rest;
    if s' != [] {
      assert lines[|lines| - 1] == rest[|rest| - 1];
      assert s[|s| - 1] == s'[|s'| - 1];
    } else {
      assert lines == ["\n"];
      assert Terminated(s) by {
        if |s| == 2 {
          assert s[1] == '\n';
        }
      }
    }
  }

  /** The step of `ReadLinesLast` for text that starts with another
      character. */
  lemma ReadLinesLastAfterChar(s: string)
    requires s != [] && !IsTerminator(s[0])
    requires s[1..] != [] ==> (
      var t := s[1..];
      EndsWithNewline(ReadLines(t)[|ReadLines(t)| - 1]) <==> Terminated(t))
    ensures EndsWithNewline(ReadLines(s)[|ReadLines(s)| - 1]) <==> Terminated(s)
  {
    if |s| == 1 {
      ReadLinesOfChar(s);
    } else {
      assert ReadLines(s) == ConsChar(s[0], ReadLines(s[1..]));
      TerminatedTail(s);
      ConsCharLast(s[0], ReadLines(s[1..]));
    }
  }

  lemma ReadLinesOfChar(s: string)
    requires |s| == 1 && !IsTerminator(s[0])
    ensures ReadLines(s) == [s] && !Terminated(s)
  {
    assert ReadLines(s) == ConsChar(s[0], ReadLines([]));
    assert [s[0]] == s;
  }

  lemma TerminatedTail(s: string)
    requires |s| > 1
    ensures Terminated(s) <==> Terminated(s[1..])
  {
    assert s[|s| - 1] == s[1..][|s| - 2];
  }

  /** A character that does not end a line, put in front of the first line,
      does not change whether the last line ends with "\n". */
  lemma ConsCharLast(c: char, rest: seq<string>)
    requires rest != [] && !IsTerminator(c)
    ensures var lines := ConsChar(c, rest);
      EndsWithNewline(lines[|lines| - 1]) <==> EndsWithNewline(rest[|rest| - 1])
  {
    var lines := ConsChar(c, rest);
    var last := rest[|rest| - 1];
    if |rest| == 1 {
      assert lines == [[c] + last];
      if last != [] {
        assert ([c] + last)[|last|] == last[|last| - 1];
      }
    } else {
      assert lines[|lines| - 1] == last;
    }
  }

  /** True of text whose last line is complete: an empty file, or one that
      ends with a line terminator. Text appended to it starts a new line. */
  predicate Terminated(s: string) {
    s == [] || IsTerminator(s[|s| - 1])
  }

  /** Reading text appended to a terminated file yields the file's lines
      followed by the appended text's lines, unless the appended text starts
      with "\n" (which would complete a "\r" into one "\r\n"). */
  lemma {:induction false} ReadLinesOfAppend(s: string, t: string)
    requires Terminated(s)
    requires t == [] || t[0] != '\n'
    ensures ReadLines(s + t) == ReadLines(s) + ReadLines(t)
    decreases |s|
  {
    if s == [] {
      assert s + t == t;
    } else if IsTerminator(s[0]) {
      var s' := AfterTerminator(s);
      ReadLinesOfAppend(s', t);
      ReadLinesAfterTerminator(s, t);
    } else {
      ReadLinesOfAppend(s[1..], t);
      ReadLinesAfterChar(s, t);
    }
  }

  lemma AfterTerminatorOfAppend(s: string, t: string)
    requires s != [] && IsTerminator(s[0]) && Terminated(s)
    requires t == [] || t[0] != '\n'
    ensures AfterTerminator(s + t) == AfterTerminator(s) + t
  {
    if |s| == 1 {
      assert s + t == [s[0]] + t;
      assert AfterTerminator(s) == [];
      if t != [] {
        assert (s + t)[1] == t[0];
      }
      assert (s + t)[1..] == t;
    } else {
      assert (s + t)[1] == s[1];
      assert (s + t)[1..] == s[1..] + t;
      assert (s + t)[2..] == s[2..] + t;
    }
  }

  lemma ReadLinesAfterTerminator(s: string, t: string)
    requires s != [] && IsTerminator(s[0]) && Terminated(s)
    requires t == [] || t[0] != '\n'
    requires ReadLines(AfterTerminator(s) + t) == ReadLines(AfterTerminator(s)) + ReadLines(t)
    ensures ReadLines(s + t) == ReadLines(s) + ReadLines(t)
  {
    var s' := AfterTerminator(s);
    var st := s + t;
    assert st != [] && IsTerminator(st[0]) && AfterTerminator(st) == s' + t by {
      AfterTerminatorOfAppend(s, t);
    }
    assert ReadLines(st) == ["\n"] + ReadLines(s' + t);
  }

  lemma ConsCharAppend(c: char, a: seq<string>, b: seq<string>)
    requires a != []
    ensures ConsChar(c, a + b) == ConsChar(c, a) + b
  {
    assert (a + b)[1..] == a[1..] + b;
  }

  lemma ReadLinesAfterChar(s: string, t: string)
    requires s != [] && !IsTerminator(s[0]) && Terminated(s)
    requires ReadLines(s[1..] + t) == ReadLines(s[1..]) + ReadLines(t)
    ensures ReadLines(s + t) == ReadLines(s) + ReadLines(t)
  {
    var u := s[1..];
    assert u != [];
    assert (s + t)[0] == s[0] && (s + t)[1..] == u + t;
    assert ReadLines(s + t) == ConsChar(s[0], ReadLines(u + t));
    ConsCharAppend(s[0], ReadLines(u), ReadLines(t));
  }

  /** The three line ends a universal-newline reader accepts. */
  predicate IsLineEnd(e: string) {
    e == "\n" || e == "\r" || e == "\r\n"
  }

  /** A line with no terminator in it, followed by a line end, reads back
      as that one line ending in "\n", and reading continues after it
      (provided a lone "\r" is not completed into "\r\n" by what
      follows). */
  lemma {:induction false} ReadLinesOfLine(line: string, e: string, t: string)
    requires '\n' !in line && '\r' !in line
    requires IsLineEnd(e)
    requires e == "\r" ==> t == [] || t[0] != '\n'
    ensures ReadLines(line + e + t) == [line + "\n"] + ReadLines(t)
  {
    if line == [] {
      ReadLinesOfLineEnd(e, t);
      assert line + e + t == e + t;
      assert line + "\n" == "\n";
    } else {
      ReadLinesOfLine(line[1..], e, t);
      ReadLinesOfLineStep(line, e, t);
    }
  }

  lemma ReadLinesOfLineEnd(e: string, t: string)
    requires IsLineEnd(e)
    requires e == "\r" ==> t == [] || t[0] != '\n'
    ensures ReadLines(e + t) == ["\n"] + ReadLines(t)
  {
    var s := e + t;
    assert s[0] == e[0];
    if e == "\r\n" {
      assert s[1] == '\n';
      assert s[2..] == t;
    } else if t != [] {
      assert s[1] == t[0];
      assert s[1..] == t;
    } else {
      assert s[1..] == t;
    }
    assert AfterTerminator(s) == t;
  }

  /** The inductive step of `ReadLinesOfLine`. */
  lemma ReadLinesOfLineStep(line: string, e: string, t: string)
    requires line != [] && !IsTerminator(line[0])
    requires ReadLines(line[1..] + e + t) == [line[1..] + "\n"] + ReadLines(t)
    ensures ReadLines(line + e + t) == [line + "\n"] + ReadLines(t)
  {
    var s := line + e + t;
    assert s[0] == line[0];
    assert s[1..] == line[1..] + e + t;
    assert ReadLines(s) == ConsChar(line[0], ReadLines(s[1..]));
    assert [line[0]] + (line[1..] + "\n") == line + "\n";
  }

  // ---------------------------------------------------------------------
  // Decimal rendering: f"{n}"
  // ---------------------------------------------------------------------

  predicate IsDigit(c: char) {
    '0' <= c <= '9'
  }

  function DigitChar(d: nat): (c: char)
    requires d < 10
    ensures IsDigit(c) && (c as int) - ('0' as int) == d
  {
    (('0' as int) + d) as char
  }

  /** The value of a string of decimal digits. */
  function DecimalValue(s: string): nat
    requires forall i :: 0 <= i < |s| ==> IsDigit(s[i])
  {
    if s == [] then 0
    else
      assert IsDigit(s[|s| - 1]);
      DecimalValue(s[..|s| - 1]) * 10 + ((s[|s| - 1] as int) - ('0' as int))
  }

  /** `str(n)`: a non-empty string of digits without a leading zero whose
      value is `n`. */
  function DecimalString(n: nat): (r: string)
    ensures r != [] && forall i :: 0 <= i < |r| ==> IsDigit(r[i])
    ensures |r| == 1 || r[0] != '0'
    ensures DecimalValue(r) == n
  {
    if n < 10 then [DigitChar(n)]
    else
      var r := DecimalString(n / 10) + [DigitChar(n % 10)];
      assert r[..|r| - 1] == DecimalString(n / 10);
      r
  }

  /** Different numbers render differently. */
  lemma DecimalStringInjective(m: nat, n: nat)
    requires DecimalString(m) == DecimalString(n)
    ensures m == n
  {
    assert DecimalValue(DecimalString(m)) == m;
  }
}
