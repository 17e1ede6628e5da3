/** The string operations the modelled code calls, with the laws the later modules use.
    Characters are Unicode scalar values; the two character classes are those of Python 3. */
module Text {

  /** The characters for which `str.isspace()` holds; also what `\s` matches in a pattern. */
  predicate IsSpace(c: char) {
    || '\t' <= c <= '\r'
    || '\U{1c}' <= c <= ' '
    || c == '\U{85}' || c == '\U{a0}' || c == '\U{1680}'
    || '\U{2000}' <= c <= '\U{200a}'
    || c == '\U{2028}' || c == '\U{2029}' || c == '\U{202f}' || c == '\U{205f}' || c == '\U{3000}'
  }

  /** The characters at which `str.splitlines()` ends a line. */
  predicate IsLineBreak(c: char) {
    || '\n' <= c <= '\r'
    || '\U{1c}' <= c <= '\U{1e}'
    || c == '\U{85}' || c == '\U{2028}' || c == '\U{2029}'
  }

  predicate AreDistinct(names: seq<string>) {
    forall i, j | 0 <= i < j < |names| :: names[i] != names[j]
  }

  // ---- strip -----------------------------------------------------------------------------

  function LStrip(s: string): string {
    if s != "" && IsSpace(s[0]) then LStrip(s[1..]) else s
  }

  function RStrip(s: string): string {
    if s != "" && IsSpace(s[|s| - 1]) then RStrip(s[..|s| - 1]) else s
  }

  function Strip(s: string): string {
    RStrip(LStrip(s))
  }

  predicate IsBlank(s: string) {
    forall i | 0 <= i < |s| :: IsSpace(s[i])
  }

  /** Nothing to strip at either end. */
  predicate IsTrimmed(s: string) {
    s != "" ==> !IsSpace(s[0]) && !IsSpace(s[|s| - 1])
  }

  lemma {:induction false} LStripParts(s: string) returns (blanks: string)
    ensures s == blanks + LStrip(s) && IsBlank(blanks)
    ensures LStrip(s) != "" ==> !IsSpace(LStrip(s)[0])
  {
    if s != "" && IsSpace(s[0]) {
      var rest := LStripParts(s[1..]);
      blanks := [s[0]] + rest;
    } else {
      blanks := "";
    }
  }

  lemma {:induction false} RStripParts(s: string) returns (blanks: string)
    ensures s == RStrip(s) + blanks && IsBlank(blanks)
    ensures RStrip(s) != "" ==> !IsSpace(RStrip(s)[|RStrip(s)| - 1])
  {
    if s != "" && IsSpace(s[|s| - 1]) {
      var rest := RStripParts(s[..|s| - 1]);
      blanks := rest + [s[|s| - 1]];
      assert s == s[..|s| - 1] + [s[|s| - 1]];
    } else {
      blanks := "";
    }
  }

  /** Stripping removes blanks at both ends and nothing else. */
  lemma StripParts(s: string) returns (left: string, right: string)
    ensures s == left + Strip(s) + right && IsBlank(left) && IsBlank(right)
    ensures IsTrimmed(Strip(s))
  {
    left := LStripParts(s);
    right := RStripParts(LStrip(s));
    var inner := LStrip(s);
    assert inner == Strip(s) + right;
    if Strip(s) != "" {
      assert Strip(s)[0] == inner[0];
    }
  }

  lemma {:induction false} LStripSkips(blanks: string, s: string)
    requires IsBlank(blanks)
    ensures LStrip(blanks + s) == LStrip(s)
  {
    if blanks == "" {
      assert blanks + s == s;
    } else {
      assert (blanks + s)[1..] == blanks[1..] + s;
      LStripSkips(blanks[1..], s);
    }
  }

  lemma {:induction false} RStripSkips(s: string, blanks: string)
    requires IsBlank(blanks)
    ensures RStrip(s + blanks) == RStrip(s)
  {
    if blanks == "" {
      assert s + blanks == s;
    } else {
      var most := blanks[..|blanks| - 1];
      assert (s + blanks)[..|s + blanks| - 1] == s + most;
      RStripSkips(s, most);
    }
  }

  /** Whatever stands between two stretches of blanks, stripping finds its stripped form. */
  lemma StripBetween(left: string, s: string, right: string)
    requires IsBlank(left) && IsBlank(right)
    ensures Strip(left + s + right) == Strip(s)
  {
    assert left + s + right == left + (s + right);
    LStripSkips(left, s + right);
    var blanks := LStripParts(s);
    if LStrip(s) == "" {
      assert s + right == (blanks + right) + "";
      LStripSkips(blanks + right, "");
    } else {
      assert s + right == blanks + (LStrip(s) + right);
      LStripSkips(blanks, LStrip(s) + right);
      assert LStrip(LStrip(s) + right) == LStrip(s) + right;
      RStripSkips(LStrip(s), right);
    }
  }

  lemma StripTrimmed(s: string)
    requires IsTrimmed(s)
    ensures Strip(s) == s
  {
  }

  lemma StripBlank(s: string)
    ensures Strip(s) == "" <==> IsBlank(s)
  {
    var left, right := StripParts(s);
    if Strip(s) != "" {
      assert s[|left|] == Strip(s)[0];
    }
  }

  // Stripping one given character, as `str.strip(c)` does.

  function LStripChar(s: string, c: char): string {
    if s != "" && s[0] == c then LStripChar(s[1..], c) else s
  }

  function RStripChar(s: string, c: char): string {
    if s != "" && s[|s| - 1] == c then RStripChar(s[..|s| - 1], c) else s
  }

  function StripChar(s: string, c: char): string {
    RStripChar(LStripChar(s, c), c)
  }

  // ---- split and join --------------------------------------------------------------------

  function Split(s: string, sep: char): (pieces: seq<string>)
    ensures |pieces| >= 1
  {
    if s == "" then [""]
    else
      var rest := Split(s[1..], sep);
      if s[0] == sep then [""] + rest else Extend(s[0], rest)
  }

  /** The list with one more character at the front of its first string. */
  function Extend(c: char, parts: seq<string>): (extended: seq<string>)
    requires parts != []
    ensures |extended| == |parts|
  {
    [[c] + parts[0]] + parts[1..]
  }

  /** Two lists of pieces joined by gluing the last of one to the first of the other. */
  function Seam(x: seq<string>, y: seq<string>): seq<string>
    requires x != [] && y != []
  {
    Front(x) + [Last(x) + y[0]] + y[1..]
  }

  lemma ExtendConcat(c: char, x: seq<string>, y: seq<string>)
    requires x != []
    ensures Extend(c, x + y) == Extend(c, x) + y
  {
    assert (x + y)[1..] == x[1..] + y;
  }

  lemma ExtendSeam(c: char, x: seq<string>, y: seq<string>)
    requires x != [] && y != []
    ensures Extend(c, Seam(x, y)) == Seam(Extend(c, x), y)
  {
    if |x| == 1 {
      assert [c] + (x[0] + y[0]) == ([c] + x[0]) + y[0];
    } else {
      assert Front(Extend(c, x)) == Extend(c, Front(x));
      ExtendConcat(c, Front(x), [Last(x) + y[0]] + y[1..]);
      assert Front(x) + [Last(x) + y[0]] + y[1..] == Front(x) + ([Last(x) + y[0]] + y[1..]);
    }
  }

  function Join(parts: seq<string>, sep: string): string {
    if parts == [] then ""
    else if |parts| == 1 then parts[0]
    else parts[0] + sep + Join(parts[1..], sep)
  }

  function Last<T>(s: seq<T>): T
    requires s != []
  {
    s[|s| - 1]
  }

  function Front<T>(s: seq<T>): seq<T>
    requires s != []
  {
    s[..|s| - 1]
  }

  /** Splitting a concatenation: only the piece across the seam is new. */
  lemma {:induction false} SplitConcat(a: string, b: string, sep: char)
    ensures Split(a + b, sep) == Seam(Split(a, sep), Split(b, sep))
  {
    var pb := Split(b, sep);
    if a == "" {
      assert a + b == b;
      assert "" + pb[0] == pb[0];
      assert Front([""]) == [];
    } else {
      assert (a + b)[1..] == a[1..] + b;
      SplitConcat(a[1..], b, sep);
      var ra := Split(a[1..], sep);
      if a[0] == sep {
        assert Front([""] + ra) == [""] + Front(ra);
      } else {
        ExtendSeam(a[0], ra, pb);
      }
    }
  }

  lemma SplitAtSeparator(a: string, b: string, sep: char)
    ensures Split(a + [sep] + b, sep) == Split(a, sep) + Split(b, sep)
  {
    SplitConcat([sep], b, sep);
    assert Split([sep], sep) == ["", ""];
    assert Split([sep] + b, sep) == [""] + Split(b, sep) by {
      assert [""] + [""  + Split(b, sep)[0]] + Split(b, sep)[1..] == [""] + Split(b, sep);
      assert Front(["", ""]) == [""];
    }
    assert a + [sep] + b == a + ([sep] + b);
    SplitConcat(a, [sep] + b, sep);
    assert Last(Split(a, sep)) + "" == Last(Split(a, sep));
    assert Split(a, sep) == Front(Split(a, sep)) + [Last(Split(a, sep))];
  }

  lemma {:induction false} SplitPlain(s: string, sep: char)
    ensures Split(s, sep) == [s] <==> sep !in s
  {
    if s != "" {
      SplitPlain(s[1..], sep);
      var rest := Split(s[1..], sep);
      if s[0] == sep {
        assert Split(s, sep)[0] == "";
      } else {
        assert s == [s[0]] + s[1..];
        if Split(s, sep) == [s] {
          assert rest == [rest[0]];
          assert Split(s, sep)[0][1..] == rest[0];
        }
      }
    }
  }

  lemma {:induction false} PiecesComeFrom(s: string, sep: char)
    ensures forall p | p in Split(s, sep) :: sep !in p && forall c | c in p :: c in s
  {
    if s != "" {
      PiecesComeFrom(s[1..], sep);
      var rest := Split(s[1..], sep);
      forall p | p in Split(s, sep)
        ensures sep !in p && forall c | c in p :: c in s
      {
        assert rest[0] in rest;
        assert p == "" || p in rest || p == [s[0]] + rest[0];
      }
    }
  }

  predicate NoneContains(parts: seq<string>, sep: char) {
    forall p | p in parts :: sep !in p
  }

  lemma {:induction false} SplitJoin(parts: seq<string>, sep: char)
    requires parts != [] && NoneContains(parts, sep)
    ensures Split(Join(parts, [sep]), sep) == parts
  {
    SplitPlain(parts[0], sep);
    if |parts| > 1 {
      SplitJoin(parts[1..], sep);
      SplitAtSeparator(parts[0], Join(parts[1..], [sep]), sep);
    }
  }

  /** A joined list splits back into itself exactly when no name holds the separator. */
  lemma SplitJoinExactly(parts: seq<string>, sep: char)
    requires parts != []
    ensures Split(Join(parts, [sep]), sep) == parts <==> NoneContains(parts, sep)
  {
    if NoneContains(parts, sep) {
      SplitJoin(parts, sep);
    } else {
      PiecesComeFrom(Join(parts, [sep]), sep);
    }
  }

  predicate StartsWith(s: string, prefix: string) {
    |prefix| <= |s| && s[..|prefix|] == prefix
  }

  // ---- letter case -----------------------------------------------------------------------

  /** Lower case as far as ASCII goes. */
  function Lower(c: char): char {
    if 'A' <= c <= 'Z' then ((c as int) + 32) as char else c
  }

  function LowerAll(s: string): (r: string)
    ensures |r| == |s|
  {
    if s == "" then "" else [Lower(s[0])] + LowerAll(s[1..])
  }

  /** Upper case as far as it can yield an ASCII letter: the ASCII letters, dotless i, long s. */
  function Upper(c: char): char {
    if 'a' <= c <= 'z' then ((c as int) - 32) as char
    else if c == '\U{131}' then 'I'
    else if c == '\U{17f}' then 'S'
    else c
  }

  function UpperAll(s: string): string {
    if s == "" then "" else [Upper(s[0])] + UpperAll(s[1..])
  }

  lemma {:induction false} LowerAt(s: string)
    ensures |LowerAll(s)| == |s| && forall i | 0 <= i < |s| :: LowerAll(s)[i] == Lower(s[i])
  {
    if s != "" {
      LowerAt(s[1..]);
    }
  }

  lemma {:induction false} UpperAt(s: string)
    ensures |UpperAll(s)| == |s| && forall i | 0 <= i < |s| :: UpperAll(s)[i] == Upper(s[i])
  {
    if s != "" {
      UpperAt(s[1..]);
    }
  }

  // ---- lines -----------------------------------------------------------------------------

  /** `str.splitlines()`: a carriage return and the line feed after it end one line, and the
      text after the last break is a line only if it is not empty. */
  function Lines(s: string): (lines: seq<string>)
    ensures s != "" ==> lines != []
    decreases |s|
  {
    if s == "" then []
    else if IsLineBreak(s[0]) then [""] + Lines(AfterBreak(s))
    else if |s| == 1 then [s]
    else Extend(s[0], Lines(s[1..]))
  }

  /** What follows the line break at the start of `s`. */
  function AfterBreak(s: string): (rest: string)
    requires s != ""
    ensures |rest| < |s|
  {
    if s[0] == '\r' && |s| > 1 && s[1] == '\n' then s[2..] else s[1..]
  }

  predicate NoBreaks(s: string) {
    forall i | 0 <= i < |s| :: !IsLineBreak(s[i])
  }

  predicate EndsLine(s: string) {
    s == "" || IsLineBreak(s[|s| - 1])
  }

  lemma {:induction false} LinesHaveNoBreaks(s: string)
    ensures forall l | l in Lines(s) :: NoBreaks(l) && forall c | c in l :: c in s
    decreases |s|
  {
    if s == "" {
    } else if IsLineBreak(s[0]) {
      LinesHaveNoBreaks(AfterBreak(s));
    } else if |s| > 1 {
      LinesHaveNoBreaks(s[1..]);
      var rest := Lines(s[1..]);
      forall l | l in Lines(s)
        ensures NoBreaks(l) && forall c | c in l :: c in s
      {
        assert rest[0] in rest;
        assert l in rest || l == [s[0]] + rest[0];
      }
    }
  }

  /** The line feed that opens `b` when `a` ends with the carriage return it belongs to. */
  predicate SharesBreak(a: string, b: string) {
    a != "" && a[|a| - 1] == '\r' && b != "" && b[0] == '\n'
  }

  lemma LinesStep(c: char, rest: string)
    requires !IsLineBreak(c) && rest != ""
    ensures Lines([c] + rest) == Extend(c, Lines(rest))
  {
    assert ([c] + rest)[1..] == rest;
  }

  /** The part of `b` that starts a new line of `a + b`, when `a` ends a line. */
  function AfterSeam(a: string, b: string): string {
    if SharesBreak(a, b) then b[1..] else b
  }

  lemma {:induction false} LinesConcat(a: string, b: string)
    requires EndsLine(a)
    ensures Lines(a + b) == Lines(a) + Lines(AfterSeam(a, b))
    decreases |a|
  {
    if a == "" {
      assert a + b == b;
    } else if IsLineBreak(a[0]) {
      LinesConcatAfterBreak(a, b);
      var rest := AfterBreak(a);
      if rest != "" {
        LinesConcat(rest, b);
        LinesBehindBreak(a, b);
      }
    } else {
      assert AfterSeam(a[1..], b) == AfterSeam(a, b);
      LinesConcat(a[1..], b);
      assert a == [a[0]] + a[1..];
      LinesConcatInLine(a[0], a[1..], b, Lines(AfterSeam(a, b)));
    }
  }

  lemma LinesBehindBreak(a: string, b: string)
    requires a != "" && IsLineBreak(a[0]) && AfterBreak(a + b) == AfterBreak(a) + b
    requires Lines(AfterBreak(a) + b) == Lines(AfterBreak(a)) + Lines(AfterSeam(a, b))
    ensures Lines(a + b) == Lines(a) + Lines(AfterSeam(a, b))
  {
    assert (a + b)[0] == a[0];
    assert Lines(a + b) == [""] + Lines(AfterBreak(a + b));
    assert [""] + (Lines(AfterBreak(a)) + Lines(AfterSeam(a, b))) == Lines(a) + Lines(AfterSeam(a, b));
  }

  lemma LinesConcatInLine(c: char, rest: string, b: string, tail: seq<string>)
    requires !IsLineBreak(c) && rest != "" && Lines(rest + b) == Lines(rest) + tail
    ensures Lines([c] + rest + b) == Lines([c] + rest) + tail
  {
    assert [c] + rest + b == [c] + (rest + b);
    LinesStep(c, rest);
    LinesStep(c, rest + b);
    ExtendConcat(c, Lines(rest), tail);
  }

  lemma LinesConcatAfterBreak(a: string, b: string)
    requires a != "" && IsLineBreak(a[0]) && EndsLine(a)
    ensures AfterBreak(a) != "" ==>
      AfterBreak(a + b) == AfterBreak(a) + b && SharesBreak(AfterBreak(a), b) == SharesBreak(a, b)
      && EndsLine(AfterBreak(a))
    ensures AfterBreak(a) == "" ==> AfterBreak(a + b) == AfterSeam(a, b)
  {
    if |a| == 1 {
      assert a + b == [a[0]] + b;
    } else if a[0] == '\r' && a[1] == '\n' {
      assert (a + b)[2..] == a[2..] + b;
    } else {
      assert (a + b)[1..] == a[1..] + b;
    }
  }

  lemma {:induction false} OneLine(s: string)
    requires s != "" && NoBreaks(s)
    ensures Lines(s) == [s]
  {
    if |s| > 1 {
      OneLine(s[1..]);
      assert s == [s[0]] + s[1..];
    }
  }

  lemma {:induction false} BreakEndsLine(s: string, br: char)
    requires NoBreaks(s) && IsLineBreak(br)
    ensures Lines(s + [br]) == [s]
  {
    if s == "" {
      assert s + [br] == [br];
      assert Lines(AfterBreak([br])) == [];
    } else {
      assert (s + [br])[1..] == s[1..] + [br];
      BreakEndsLine(s[1..], br);
      assert s == [s[0]] + s[1..];
    }
  }

  /** Non-empty lines joined with line feeds are the lines of the result. */
  lemma {:induction false} LinesJoin(lines: seq<string>)
    requires forall l | l in lines :: l != "" && NoBreaks(l)
    ensures Lines(Join(lines, "\n")) == lines
  {
    if lines == [] {
    } else if |lines| == 1 {
      assert lines[0] in lines;
      OneLine(lines[0]);
    } else {
      assert lines[0] in lines;
      var rest := Join(lines[1..], "\n");
      assert forall l | l in lines[1..] :: l in lines;
      LinesJoin(lines[1..]);
      BreakEndsLine(lines[0], '\n');
      LinesConcat(lines[0] + "\n", rest);
    }
  }
}
