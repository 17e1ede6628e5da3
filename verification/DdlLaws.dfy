/** Laws of the statement splitter that hold of every text: concatenation, round trip,
    conservation of lines, indifference to comments, and what separates its two versions. */
module DdlLaws {
  import opened Text
  import opened DdlParser

  // ---- concatenation ---------------------------------------------------------------------

  lemma {:induction false} RawStatementsConcat(a: seq<string>, b: seq<string>)
    ensures RawStatements(a + b) == RawStatements(a) + RawStatements(b)
  {
    if a == [] {
      assert a + b == b;
    } else {
      assert (a + b)[1..] == a[1..] + b;
      RawStatementsConcat(a[1..], b);
    }
  }

  lemma FullsOfConcat(a: string, b: string, v: Version)
    ensures FullsOf(a + ";" + b, v) == FullsOf(a, v) + FullsOf(b, v)
  {
    SplitAtSeparator(a, b, ';');
    RawStatementsConcat(Split(a, ';'), Split(b, ';'));
    FullsConcat(RawStatements(Split(a, ';')), RawStatements(Split(b, ';')), v);
  }

  /** The parser is a homomorphism from texts joined by a semicolon to statement lists. */
  lemma ParseConcat(a: string, b: string, v: Version)
    ensures Parse(a + ";" + b, v) == Parse(a, v) + Parse(b, v)
  {
    FullsOfConcat(a, b, v);
    ClassifyAllConcat(FullsOf(a, v), FullsOf(b, v));
  }

  /** Each piece between semicolons is parsed by itself. */
  function FullsOfPiece(piece: string, v: Version): seq<string> {
    var cleaned := Clean(Strip(piece), v);
    if cleaned == "" then [] else [cleaned]
  }

  function FullsOfPieces(pieces: seq<string>, v: Version): seq<string> {
    if pieces == [] then [] else FullsOfPiece(pieces[0], v) + FullsOfPieces(pieces[1..], v)
  }

  lemma {:induction false} PiecesAlone(pieces: seq<string>, v: Version)
    ensures Fulls(RawStatements(pieces), v) == FullsOfPieces(pieces, v)
  {
    if pieces != [] {
      PiecesAlone(pieces[1..], v);
      var raw := if Strip(pieces[0]) == "" then [] else [Strip(pieces[0])];
      FullsConcat(raw, RawStatements(pieces[1..]), v);
      assert Clean("", v) == "";
      if raw != [] {
        assert Fulls(raw, v) == FullsOfPiece(pieces[0], v) + Fulls([], v);
      }
    }
  }

  // ---- blanks at the ends of a piece -----------------------------------------------------

  /** The lines of a text that the parser keeps, each stripped. */
  function StripAll(lines: seq<string>): seq<string> {
    if lines == [] then [] else [Strip(lines[0])] + StripAll(lines[1..])
  }

  function KeptLines(s: string, v: Version): seq<string> {
    Kept(Lines(s), v)
  }

  /** The list with one more character at the end of its last string. */
  function ExtendLast(parts: seq<string>, c: char): seq<string>
    requires parts != []
  {
    Front(parts) + [Last(parts) + [c]]
  }

  lemma SameFate(line: string, c: char, v: Version)
    requires IsSpace(c)
    ensures Strip([c] + line) == Strip(line) == Strip(line + [c])
    ensures IsDropped([c] + line, v) == IsDropped(line, v) == IsDropped(line + [c], v)
  {
    StripBetween([c], line, "");
    assert [c] + line + "" == [c] + line;
    StripBetween("", line, [c]);
    assert "" + line + [c] == line + [c];
  }

  lemma BlankLineDropped(line: string, v: Version)
    requires IsBlank(line)
    ensures IsDropped(line, v) && Kept([line], v) == []
  {
    StripBlank(line);
  }

  /** A blank put in front changes the kept lines at most by itself. */
  lemma LeadingBlank(c: char, t: string, v: Version)
    requires IsSpace(c)
    ensures
      var k, k' := KeptLines(t, v), KeptLines([c] + t, v);
      k' == k || (k != [] && k' == Extend(c, k))
  {
    var s := [c] + t;
    if IsLineBreak(c) {
      assert s[1..] == t;
      assert Lines(s) == [""] + Lines(AfterBreak(s));
      if AfterBreak(s) != t {
        assert AfterBreak(s) == t[1..] == AfterBreak(t);
      }
    } else if t == "" {
      BlankLineDropped(s, v);
      assert Lines(s) == [s];
    } else {
      LinesStep(c, t);
      SameFate(Lines(t)[0], c, v);
    }
  }

  /** The lines once a blank has been put behind a text whose last line is not ended. */
  function Grown(lines: seq<string>, c: char): seq<string>
    requires lines != []
  {
    if IsLineBreak(c) then lines else ExtendLast(lines, c)
  }

  lemma {:induction false} LineGrows(t: string, c: char)
    requires !EndsLine(t)
    ensures Lines(t + [c]) == Grown(Lines(t), c)
    decreases |t|
  {
    if IsLineBreak(t[0]) {
      assert AfterBreak(t + [c]) == AfterBreak(t) + [c];
      LineGrows(AfterBreak(t), c);
      GrownBehind("", Lines(AfterBreak(t)), c);
    } else if |t| == 1 {
      if IsLineBreak(c) {
        BreakEndsLine(t, c);
      } else {
        OneLine(t + [c]);
      }
    } else {
      LineGrows(t[1..], c);
      assert t == [t[0]] + t[1..];
      LineGrowsInLine(t[0], t[1..], c);
    }
  }

  lemma GrownBehind(first: string, lines: seq<string>, c: char)
    requires lines != []
    ensures Grown([first] + lines, c) == [first] + Grown(lines, c)
  {
    assert Front([first] + lines) == [first] + Front(lines);
  }

  lemma LineGrowsInLine(first: char, rest: string, c: char)
    requires !IsLineBreak(first) && rest != "" && Lines(rest + [c]) == Grown(Lines(rest), c)
    ensures Lines([first] + rest + [c]) == Grown(Lines([first] + rest), c)
  {
    assert [first] + rest + [c] == [first] + (rest + [c]);
    LinesStep(first, rest);
    LinesStep(first, rest + [c]);
    ExtendBothEnds(first, Lines(rest), c);
  }

  lemma ExtendBothEnds(first: char, parts: seq<string>, c: char)
    requires parts != []
    ensures Extend(first, ExtendLast(parts, c)) == ExtendLast(Extend(first, parts), c)
  {
    if |parts| == 1 {
      assert [first] + (parts[0] + [c]) == ([first] + parts[0]) + [c];
    }
  }

  /** A blank put behind changes the kept lines at most by itself. */
  lemma TrailingBlank(t: string, c: char, v: Version)
    requires IsSpace(c)
    ensures
      var k, k' := KeptLines(t, v), KeptLines(t + [c], v);
      k' == k || (k != [] && k' == ExtendLast(k, c))
  {
    if EndsLine(t) {
      LinesConcat(t, [c]);
      var added := Lines(AfterSeam(t, [c]));
      KeptConcat(Lines(t), added, v);
      BlankLineDropped([c], v);
      BlankLineDropped("", v);
      assert AfterSeam(t, [c]) == "" || AfterSeam(t, [c]) == [c];
      assert added == [] || added == [[c]] || added == [""];
    } else {
      LineGrows(t, c);
      if !IsLineBreak(c) {
        var lines := Lines(t);
        assert lines == Front(lines) + [Last(lines)];
        LastLineGrows(Front(lines), Last(lines), c, v);
      }
    }
  }

  lemma KeptOne(line: string, v: Version)
    ensures Kept([line], v) == if IsDropped(line, v) then [] else [line]
  {
    assert [line][1..] == [];
  }

  lemma LastLineGrows(init: seq<string>, last: string, c: char, v: Version)
    requires IsSpace(c)
    ensures
      var k, k' := Kept(init + [last], v), Kept(init + [last + [c]], v);
      k' == k || (k != [] && k' == ExtendLast(k, c))
  {
    SameFate(last, c, v);
    KeptConcat(init, [last], v);
    KeptConcat(init, [last + [c]], v);
    KeptOne(last, v);
    KeptOne(last + [c], v);
    var k := Kept(init + [last], v);
    if !IsDropped(last, v) {
      assert k == Kept(init, v) + [last];
      assert Front(k) == Kept(init, v) && Last(k) == last;
    }
  }

  lemma {:induction false} StripAllConcat(a: seq<string>, b: seq<string>)
    ensures StripAll(a + b) == StripAll(a) + StripAll(b)
  {
    if a == [] {
      assert a + b == b;
    } else {
      assert (a + b)[1..] == a[1..] + b;
      StripAllConcat(a[1..], b);
    }
  }

  lemma JoinExtend(c: char, k: seq<string>)
    requires k != []
    ensures Join(Extend(c, k), "\n") == [c] + Join(k, "\n")
  {
    if |k| > 1 {
      assert Extend(c, k)[1..] == k[1..];
    }
  }

  lemma {:induction false} JoinExtendLast(k: seq<string>, c: char)
    requires k != []
    ensures Join(ExtendLast(k, c), "\n") == Join(k, "\n") + [c]
  {
    if |k| > 1 {
      JoinExtendLast(k[1..], c);
      assert ExtendLast(k, c)[1..] == ExtendLast(k[1..], c);
    }
  }

  lemma ExtendedFirst(c: char, k: seq<string>)
    requires IsSpace(c) && k != []
    ensures Strip(Join(Extend(c, k), "\n")) == Strip(Join(k, "\n"))
    ensures StripAll(Extend(c, k)) == StripAll(k)
  {
    JoinExtend(c, k);
    SameFate(Join(k, "\n"), c, New);
    SameFate(k[0], c, New);
  }

  lemma ExtendedLast(k: seq<string>, c: char)
    requires IsSpace(c) && k != []
    ensures Strip(Join(ExtendLast(k, c), "\n")) == Strip(Join(k, "\n"))
    ensures StripAll(ExtendLast(k, c)) == StripAll(k)
  {
    JoinExtendLast(k, c);
    SameFate(Join(k, "\n"), c, New);
    SameFate(Last(k), c, New);
    StripAllConcat(Front(k), [Last(k)]);
    StripAllConcat(Front(k), [Last(k) + [c]]);
    assert k == Front(k) + [Last(k)];
  }

  lemma {:induction false} LeadingBlanks(blanks: string, t: string, v: Version)
    requires IsBlank(blanks)
    ensures Clean(blanks + t, v) == Clean(t, v)
    ensures StripAll(KeptLines(blanks + t, v)) == StripAll(KeptLines(t, v))
  {
    if blanks == "" {
      assert blanks + t == t;
    } else {
      var c, rest := blanks[0], blanks[1..] + t;
      assert blanks + t == [c] + rest;
      LeadingBlanks(blanks[1..], t, v);
      LeadingBlank(c, rest, v);
      if KeptLines([c] + rest, v) != KeptLines(rest, v) {
        ExtendedFirst(c, KeptLines(rest, v));
      }
    }
  }

  lemma {:induction false} TrailingBlanks(t: string, blanks: string, v: Version)
    requires IsBlank(blanks)
    ensures Clean(t + blanks, v) == Clean(t, v)
    ensures StripAll(KeptLines(t + blanks, v)) == StripAll(KeptLines(t, v))
  {
    if blanks == "" {
      assert t + blanks == t;
    } else {
      var rest, c := t + Front(blanks), Last(blanks);
      assert t + blanks == rest + [c];
      TrailingBlanks(t, Front(blanks), v);
      TrailingBlank(rest, c, v);
      if KeptLines(rest + [c], v) != KeptLines(rest, v) {
        ExtendedLast(KeptLines(rest, v), c);
      }
    }
  }

  /** Stripping a piece before its lines are looked at has no effect on the result. */
  lemma StripIsIdle(s: string, v: Version)
    ensures Clean(Strip(s), v) == Clean(s, v)
    ensures StripAll(KeptLines(Strip(s), v)) == StripAll(KeptLines(s, v))
  {
    var left, right := StripParts(s);
    var middle := Strip(s);
    var rest := middle + right;
    assert s == left + rest;
    LeadingBlanks(left, rest, v);
    TrailingBlanks(middle, right, v);
  }

  // ---- what cleaning leaves --------------------------------------------------------------

  lemma {:induction false} KeptAreKept(lines: seq<string>, v: Version)
    ensures forall l | l in Kept(lines, v) :: l in lines && !IsDropped(l, v)
  {
    if lines != [] {
      KeptAreKept(lines[1..], v);
    }
  }

  lemma {:induction false} NoneDropped(lines: seq<string>, v: Version)
    requires forall l | l in lines :: !IsDropped(l, v)
    ensures Kept(lines, v) == lines
  {
    if lines != [] {
      assert lines[0] in lines;
      assert forall l | l in lines[1..] :: l in lines;
      NoneDropped(lines[1..], v);
    }
  }

  /** The kept lines, joined, have themselves as lines, and all are kept. */
  lemma JoinedKept(s: string, v: Version)
    ensures
      var k := KeptLines(s, v);
      Lines(Join(k, "\n")) == k && Kept(k, v) == k
  {
    var k := KeptLines(s, v);
    KeptAreKept(Lines(s), v);
    LinesHaveNoBreaks(s);
    NoneDropped(k, v);
    forall l | l in k ensures l != "" && NoBreaks(l) {
      assert l in Lines(s);
    }
    LinesJoin(k);
  }

  /** Cleaning is idempotent and keeps the content of every kept line. */
  lemma CleanIdempotent(s: string, v: Version)
    ensures Clean(Clean(s, v), v) == Clean(s, v)
    ensures StripAll(KeptLines(Clean(s, v), v)) == StripAll(KeptLines(s, v))
  {
    JoinedKept(s, v);
    StripIsIdle(Join(KeptLines(s, v), "\n"), v);
  }

  lemma {:induction false} CharsOfJoin(parts: seq<string>)
    ensures forall c | c in Join(parts, "\n") :: c == '\n' || exists p | p in parts :: c in p
  {
    if |parts| == 1 {
      assert parts[0] in parts;
    } else if |parts| > 1 {
      CharsOfJoin(parts[1..]);
      var rest := Join(parts[1..], "\n");
      forall c | c in Join(parts, "\n")
        ensures c == '\n' || exists p | p in parts :: c in p
      {
        assert c in parts[0] || c == '\n' || c in rest;
        if c in parts[0] {
          assert parts[0] in parts;
        } else if c != '\n' {
          var p :| p in parts[1..] && c in p;
          assert p in parts;
        }
      }
    }
  }

  lemma CharsOfStrip(s: string)
    ensures forall c | c in Strip(s) :: c in s
  {
    var left, right := StripParts(s);
  }

  lemma CleanAddsNoSemicolon(s: string, v: Version)
    requires ';' !in s
    ensures ';' !in Clean(s, v)
  {
    var k := KeptLines(s, v);
    CharsOfStrip(Join(k, "\n"));
    CharsOfJoin(k);
    KeptAreKept(Lines(s), v);
    LinesHaveNoBreaks(s);
  }

  // ---- round trip ------------------------------------------------------------------------

  predicate IsFull(f: string, v: Version) {
    f != "" && ';' !in f && IsTrimmed(f) && Clean(f, v) == f
  }

  lemma FullOfPiece(piece: string, v: Version)
    requires ';' !in piece
    ensures forall f | f in FullsOfPiece(piece, v) :: IsFull(f, v)
  {
    CharsOfStrip(piece);
    CleanAddsNoSemicolon(Strip(piece), v);
    CleanIdempotent(Strip(piece), v);
    var left, right := StripParts(Join(KeptLines(Strip(piece), v), "\n"));
  }

  lemma {:induction false} FullsOfPiecesAreFull(pieces: seq<string>, v: Version)
    requires NoneContains(pieces, ';')
    ensures forall f | f in FullsOfPieces(pieces, v) :: IsFull(f, v)
  {
    if pieces != [] {
      assert pieces[0] in pieces;
      assert forall p | p in pieces[1..] :: p in pieces;
      FullOfPiece(pieces[0], v);
      FullsOfPiecesAreFull(pieces[1..], v);
    }
  }

  lemma {:induction false} FullsAreFixed(fulls: seq<string>, v: Version)
    requires forall f | f in fulls :: IsFull(f, v)
    ensures FullsOfPieces(fulls, v) == fulls
  {
    if fulls != [] {
      assert fulls[0] in fulls;
      assert forall f | f in fulls[1..] :: f in fulls;
      StripTrimmed(fulls[0]);
      FullsAreFixed(fulls[1..], v);
    }
  }

  lemma EveryFullIsFull(text: string, v: Version)
    ensures FullsOf(text, v) == FullsOfPieces(Split(text, ';'), v)
    ensures forall f | f in FullsOf(text, v) :: IsFull(f, v)
  {
    PiecesAlone(Split(text, ';'), v);
    PiecesComeFrom(text, ';');
    FullsOfPiecesAreFull(Split(text, ';'), v);
  }

  function FullFields(statements: seq<Statement>): seq<string> {
    if statements == [] then [] else [statements[0].full] + FullFields(statements[1..])
  }

  lemma {:induction false} FullFieldsOfParse(fulls: seq<string>)
    ensures FullFields(ClassifyAll(fulls)) == fulls
  {
    if fulls != [] {
      FullFieldsOfParse(fulls[1..]);
      assert ClassifyAll(fulls)[1..] == ClassifyAll(fulls[1..]);
    }
  }

  /** A list of clean statements joined by semicolons parses to exactly them. */
  lemma {:induction false} PrintParseRoundTrip(fulls: seq<string>, v: Version)
    requires forall f | f in fulls :: IsFull(f, v)
    ensures Parse(Join(fulls, ";"), v) == ClassifyAll(fulls)
  {
    EveryFullIsFull(Join(fulls, ";"), v);
    if fulls == [] {
      assert Split("", ';') == [""];
      assert Clean(Strip(""), v) == "";
    } else {
      SplitJoin(fulls, ';');
      FullsAreFixed(fulls, v);
    }
  }

  /** Printing the statements of any text and parsing them again gives the same statements. */
  lemma {:induction false} ParsePrintRoundTrip(text: string, v: Version)
    ensures Parse(Join(FullFields(Parse(text, v)), ";"), v) == Parse(text, v)
  {
    FullFieldsOfParse(FullsOf(text, v));
    EveryFullIsFull(text, v);
    PrintParseRoundTrip(FullsOf(text, v), v);
  }

  // ---- conservation of lines -------------------------------------------------------------

  /** The stripped lines of the given texts, in order. */
  function StrippedLines(texts: seq<string>): seq<string> {
    if texts == [] then [] else StripAll(Lines(texts[0])) + StrippedLines(texts[1..])
  }

  /** The stripped lines of the given pieces that are neither blank nor comments, in order. */
  function Content(pieces: seq<string>, v: Version): seq<string> {
    if pieces == [] then [] else StripAll(KeptLines(pieces[0], v)) + Content(pieces[1..], v)
  }

  lemma {:induction false} JoinedLinesFit(s: string)
    ensures |Join(Lines(s), "\n")| <= |s|
    decreases |s|
  {
    if s == "" || |s| == 1 {
    } else if IsLineBreak(s[0]) {
      JoinedLinesFit(AfterBreak(s));
      assert Lines(s)[1..] == Lines(AfterBreak(s));
    } else {
      JoinedLinesFit(s[1..]);
      JoinExtend(s[0], Lines(s[1..]));
    }
  }

  lemma JoinCons(h: string, rest: seq<string>)
    ensures Join([h] + rest, "\n") == if rest == [] then h else h + "\n" + Join(rest, "\n")
  {
    assert ([h] + rest)[1..] == rest;
  }

  lemma {:induction false} DroppingShortens(lines: seq<string>, v: Version)
    ensures |Join(Kept(lines, v), "\n")| <= |Join(lines, "\n")|
    ensures Kept(lines, v) != [] && Kept(lines, v) != lines
        ==> |Join(Kept(lines, v), "\n")| < |Join(lines, "\n")|
  {
    if lines != [] {
      var h, rest := lines[0], lines[1..];
      DroppingShortens(rest, v);
      var k := Kept(rest, v);
      assert lines == [h] + rest;
      if IsDropped(h, v) {
        assert Kept(lines, v) == k;
      } else {
        assert Kept(lines, v) == [h] + k;
        JoinCons(h, k);
      }
      JoinCons(h, rest);
    }
  }

  /** No line of a cleaned text is blank or a comment. */
  lemma CleanKeepsAll(f: string, v: Version)
    requires f != "" && Clean(f, v) == f
    ensures KeptLines(f, v) == Lines(f)
  {
    var j := Join(KeptLines(f, v), "\n");
    var left, right := StripParts(j);
    assert |f| <= |j|;
    JoinedLinesFit(f);
    DroppingShortens(Lines(f), v);
  }

  lemma {:induction false} PiecesLoseNothing(pieces: seq<string>, v: Version)
    ensures StrippedLines(FullsOfPieces(pieces, v)) == Content(pieces, v)
  {
    if pieces != [] {
      PiecesLoseNothing(pieces[1..], v);
      PieceLosesNothing(pieces[0], v);
      var here := FullsOfPiece(pieces[0], v);
      if here != [] {
        assert (here + FullsOfPieces(pieces[1..], v))[1..] == FullsOfPieces(pieces[1..], v);
      } else {
        assert here + FullsOfPieces(pieces[1..], v) == FullsOfPieces(pieces[1..], v);
      }
    }
  }

  lemma PieceLosesNothing(piece: string, v: Version)
    ensures
      var f := Clean(Strip(piece), v);
      StripAll(if f == "" then [] else Lines(f)) == StripAll(KeptLines(piece, v))
  {
    var f := Clean(Strip(piece), v);
    StripIsIdle(piece, v);
    CleanIdempotent(Strip(piece), v);
    assert StripAll(KeptLines(f, v)) == StripAll(KeptLines(piece, v));
    if f != "" {
      CleanKeepsAll(f, v);
    }
  }

  /** The stripped lines of all statements are exactly the stripped lines of the text's pieces
      that are neither blank nor comments, in order. */
  lemma {:induction false} LosesNothing(text: string, v: Version)
    ensures StrippedLines(FullFields(Parse(text, v))) == Content(Split(text, ';'), v)
  {
    FullFieldsOfParse(FullsOf(text, v));
    EveryFullIsFull(text, v);
    PiecesLoseNothing(Split(text, ';'), v);
  }

  // ---- comments --------------------------------------------------------------------------

  /** A whole line that the parser leaves out: a comment or a blank line, without semicolon. */
  predicate IsDroppedLine(line: string, v: Version) {
    NoBreaks(line) && ';' !in line && IsDropped(line, v)
  }

  /** A line feed that belongs to the break before it adds no kept line either way. */
  lemma SeamAddsNothing(p: string, q: string, v: Version)
    ensures KeptLines(AfterSeam(p, q), v) == KeptLines(q, v)
  {
    if SharesBreak(p, q) {
      BlankLineDropped("", v);
      assert Lines(q) == [""] + Lines(q[1..]);
      KeptConcat([""], Lines(q[1..]), v);
    }
  }

  lemma KeptLinesConcat(p: string, q: string, v: Version)
    requires EndsLine(p)
    ensures KeptLines(p + q, v) == KeptLines(p, v) + KeptLines(q, v)
  {
    LinesConcat(p, q);
    KeptConcat(Lines(p), Lines(AfterSeam(p, q)), v);
    SeamAddsNothing(p, q, v);
  }

  lemma DroppedLineGone(p: string, line: string, br: char, q: string, v: Version)
    requires EndsLine(p) && IsLineBreak(br) && IsDroppedLine(line, v)
    ensures Clean(p + (line + [br] + q), v) == Clean(p + q, v)
  {
    var x := line + [br];
    KeptLinesConcat(p, x + q, v);
    KeptLinesConcat(x, q, v);
    KeptLinesConcat(p, q, v);
    BreakEndsLine(line, br);
    KeptOne(line, v);
    assert [] + KeptLines(q, v) == KeptLines(q, v);
  }

  lemma {:induction false} LastPieceEndsLine(a: string)
    requires EndsLine(a)
    ensures EndsLine(Last(Split(a, ';')))
  {
    if |a| > 0 {
      LastPieceEndsLine(a[1..]);
      var rest := Split(a[1..], ';');
      if |a| == 1 {
        assert Split("", ';') == [""];
      } else if a[0] != ';' && |rest| == 1 {
        SplitPlain(a[1..], ';');
        PieceAlone(a[1..]);
      }
    }
  }

  lemma {:induction false} PieceAlone(s: string)
    requires |Split(s, ';')| == 1
    ensures Split(s, ';') == [s]
  {
    if s != "" {
      PieceAlone(s[1..]);
      assert s == [s[0]] + s[1..];
    }
  }

  lemma FullsOfPiecesConcat(a: seq<string>, b: seq<string>, v: Version)
    ensures FullsOfPieces(a + b, v) == FullsOfPieces(a, v) + FullsOfPieces(b, v)
  {
    PiecesAlone(a, v);
    PiecesAlone(b, v);
    PiecesAlone(a + b, v);
    RawStatementsConcat(a, b);
    FullsConcat(RawStatements(a), RawStatements(b), v);
  }

  /** Two texts whose pieces agree but for one, and there after cleaning, parse alike. */
  lemma {:induction false} OnePieceDiffers(before: seq<string>, p: string, p': string, after: seq<string>, v: Version)
    requires Clean(p, v) == Clean(p', v)
    ensures FullsOfPieces(before + [p] + after, v) == FullsOfPieces(before + [p'] + after, v)
  {
    StripIsIdle(p, v);
    StripIsIdle(p', v);
    FullsOfPiecesConcat(before + [p], after, v);
    FullsOfPiecesConcat(before, [p], v);
    FullsOfPiecesConcat(before + [p'], after, v);
    FullsOfPiecesConcat(before, [p'], v);
  }

  lemma {:induction false} SamePieces(x: string, y: string, v: Version)
    requires FullsOfPieces(Split(x, ';'), v) == FullsOfPieces(Split(y, ';'), v)
    ensures Parse(x, v) == Parse(y, v)
  {
    EveryFullIsFull(x, v);
    EveryFullIsFull(y, v);
  }

  /** Inserting a whole comment line at a line boundary never changes the result. */
  lemma CommentInvariance(a: string, line: string, br: char, b: string, v: Version)
    requires EndsLine(a) && IsLineBreak(br) && IsDroppedLine(line, v)
    ensures Parse(a + (line + [br] + b), v) == Parse(a + b, v)
  {
    var x, pa, pb := line + [br], Split(a, ';'), Split(b, ';');
    SplitPlain(x, ';');
    SplitConcat(x, b, ';');
    SplitConcat(a, x + b, ';');
    SplitConcat(a, b, ';');
    assert Front([x]) == [];
    assert Seam([x], pb) == [x + pb[0]] + pb[1..];
    LastPieceEndsLine(a);
    DroppedLineGone(Last(pa), line, br, pb[0], v);
    OnePieceDiffers(Front(pa), Last(pa) + (x + pb[0]), Last(pa) + pb[0], pb[1..], v);
    SamePieces(a + (x + b), a + b, v);
  }

  /** The same at the end of a text whose last line is not ended. */
  lemma CommentAtEnd(a: string, br: char, line: string, v: Version)
    requires IsLineBreak(br) && IsDroppedLine(line, v)
    ensures Parse(a + ([br] + line), v) == Parse(a, v)
  {
    var x, pa := [br] + line, Split(a, ';');
    AppendedPiece(a, x);
    DroppedLastLine(Last(pa), br, line, v);
    LastPieceDiffers(Front(pa), Last(pa) + x, Last(pa), v);
    assert Front(pa) + [Last(pa)] == pa;
    SamePieces(a + x, a, v);
  }

  lemma {:induction false} LastPieceDiffers(before: seq<string>, p: string, p': string, v: Version)
    requires Clean(p, v) == Clean(p', v)
    ensures FullsOfPieces(before + [p], v) == FullsOfPieces(before + [p'], v)
  {
    StripIsIdle(p, v);
    StripIsIdle(p', v);
    FullsOfPiecesConcat(before, [p], v);
    FullsOfPiecesConcat(before, [p'], v);
  }

  lemma AppendedPiece(a: string, x: string)
    requires ';' !in x
    ensures Split(a + x, ';') == Front(Split(a, ';')) + [Last(Split(a, ';')) + x]
  {
    SplitPlain(x, ';');
    SplitConcat(a, x, ';');
    assert [x][1..] == [];
  }

  lemma DroppedLastLine(p: string, br: char, line: string, v: Version)
    requires IsLineBreak(br) && IsDroppedLine(line, v)
    ensures Clean(p + ([br] + line), v) == Clean(p, v)
  {
    assert p + ([br] + line) == (p + [br]) + line;
    KeptLinesConcat(p + [br], line, v);
    if line != "" {
      OneLine(line);
    }
    KeptOne(line, v);
    assert KeptLines(line, v) == [] && Lines(p + [br] + line) == Lines((p + [br]) + line);
    assert KeptLines(p + [br], v) + [] == KeptLines(p + [br], v);
    TrailingBlanks(p, [br], v);
  }

  // ---- the two versions ------------------------------------------------------------------

  predicate IsHashLine(line: string) {
    StartsWith(Strip(line), "##")
  }

  /** Some line of some piece is a comment only the new version knows. */
  ghost predicate HasHashLine(text: string) {
    exists p, l | p in Split(text, ';') && l in Lines(p) :: IsHashLine(l)
  }

  lemma {:induction false} StripAllMembers(lines: seq<string>)
    ensures forall l | l in lines :: Strip(l) in StripAll(lines)
    ensures forall t | t in StripAll(lines) :: exists l | l in lines :: t == Strip(l)
  {
    if lines != [] {
      StripAllMembers(lines[1..]);
      forall t | t in StripAll(lines)
        ensures exists l | l in lines :: t == Strip(l)
      {
        if t == Strip(lines[0]) {
          assert lines[0] in lines;
        } else {
          var l :| l in lines[1..] && t == Strip(l);
          assert l in lines;
        }
      }
    }
  }

  lemma {:induction false} KeptHasAllOther(lines: seq<string>, v: Version)
    ensures forall l | l in lines && !IsDropped(l, v) :: l in Kept(lines, v)
  {
    if lines != [] {
      KeptHasAllOther(lines[1..], v);
    }
  }

  lemma {:induction false} ContentMembers(pieces: seq<string>, v: Version)
    ensures forall p, l | p in pieces && l in Lines(p) && !IsDropped(l, v) :: Strip(l) in Content(pieces, v)
    ensures v == New ==> forall t | t in Content(pieces, v) :: !StartsWith(t, "##")
  {
    if pieces != [] {
      ContentMembers(pieces[1..], v);
      KeptHasAllOther(Lines(pieces[0]), v);
      KeptAreKept(Lines(pieces[0]), v);
      StripAllMembers(KeptLines(pieces[0], v));
    }
  }

  lemma {:induction false} KeptAgree(lines: seq<string>)
    requires forall l | l in lines :: !IsHashLine(l)
    ensures Kept(lines, Old) == Kept(lines, New)
  {
    if lines != [] {
      assert lines[0] in lines;
      assert forall l | l in lines[1..] :: l in lines;
      KeptAgree(lines[1..]);
    }
  }

  lemma {:induction false} FullsAgree(pieces: seq<string>)
    requires forall p, l | p in pieces && l in Lines(p) :: !IsHashLine(l)
    ensures FullsOfPieces(pieces, Old) == FullsOfPieces(pieces, New)
  {
    if pieces != [] {
      assert pieces[0] in pieces;
      assert forall p | p in pieces[1..] :: p in pieces;
      KeptAgree(Lines(pieces[0]));
      StripIsIdle(pieces[0], Old);
      StripIsIdle(pieces[0], New);
      FullsAgree(pieces[1..]);
    }
  }

  /** The two versions give the same result on exactly the texts without a `##` line. */
  lemma {:induction false} VersionsAgreeExactly(text: string)
    ensures Parse(text, Old) == Parse(text, New) <==> !HasHashLine(text)
  {
    var pieces := Split(text, ';');
    if HasHashLine(text) {
      HashLineTellsApart(text);
    } else {
      EveryFullIsFull(text, Old);
      EveryFullIsFull(text, New);
      FullsAgree(pieces);
    }
  }

  lemma HashLineTellsApart(text: string)
    requires HasHashLine(text)
    ensures Parse(text, Old) != Parse(text, New)
  {
    HashLineInContent(Split(text, ';'));
    LosesNothing(text, Old);
    LosesNothing(text, New);
  }

  lemma HashLineInContent(pieces: seq<string>)
    requires exists p, l | p in pieces && l in Lines(p) :: IsHashLine(l)
    ensures Content(pieces, Old) != Content(pieces, New)
  {
    var p, l :| p in pieces && l in Lines(p) && IsHashLine(l);
    var s := Strip(l);
    assert s[0] == '#' by {
      assert s[0] == s[..2][0];
    }
    assert !IsDropped(l, Old) by {
      assert s[..2] == "##" && "##"[0] != "--"[0];
    }
    ContentMembers(pieces, Old);
    ContentMembers(pieces, New);
  }
}
