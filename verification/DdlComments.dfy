/** What a comment is to the splitter, said on the characters of a line: blanks and then two dashes,
    or, to the new version, two hash signs. */
module DdlComments {
  import opened Text
  import opened DdlParser
  import opened DdlLaws

  /** After its blanks, the line starts with the mark. */
  ghost predicate StartsAfterBlanks(line: string, mark: string) {
    exists blanks, rest :: IsBlank(blanks) && line == blanks + mark + rest
  }

  /** A text that starts with two characters that are no blanks still does when it is stripped. */
  lemma StripKeepsStart(mark: string, rest: string)
    requires |mark| == 2 && !IsSpace(mark[0]) && !IsSpace(mark[1])
    ensures StartsWith(Strip(mark + rest), mark)
  {
    var s := mark + rest;
    var left, right := StripParts(s);
    var inner := Strip(s);
    assert s[0] == mark[0] && s[1] == mark[1];
    assert left == "";
    assert s == inner + right;
    assert |inner| >= 2;
    assert inner[..2] == s[..2] == mark;
  }

  lemma MarkExactly(line: string, mark: string)
    requires |mark| == 2 && !IsSpace(mark[0]) && !IsSpace(mark[1])
    ensures StartsWith(Strip(line), mark) <==> StartsAfterBlanks(line, mark)
  {
    if StartsWith(Strip(line), mark) {
      var left, right := StripParts(line);
      var rest := Strip(line)[2..] + right;
      assert line == left + mark + rest;
    }
    if StartsAfterBlanks(line, mark) {
      var blanks, rest :| IsBlank(blanks) && line == blanks + mark + rest;
      assert line == blanks + (mark + rest) + "";
      StripBetween(blanks, mark + rest, "");
      StripKeepsStart(mark, rest);
    }
  }

  lemma BlankExactly(line: string)
    ensures Strip(line) == "" <==> IsBlank(line)
  {
    if IsBlank(line) {
      StripBlank(line);
    } else {
      var left, right := StripParts(line);
    }
  }

  /** The lines the splitter leaves out, on their characters. */
  lemma DroppedExactly(line: string, v: Version)
    ensures IsDropped(line, v) <==>
      || IsBlank(line) || StartsAfterBlanks(line, "--") || (v == New && StartsAfterBlanks(line, "##"))
  {
    BlankExactly(line);
    MarkExactly(line, "--");
    MarkExactly(line, "##");
  }

  // ---- comments change nothing -----------------------------------------------------------

  /** Inserting a line of blanks, two dashes and anything at a line boundary changes neither version's
      result, and with two hash signs not that of the new one. */
  lemma CommentLineIgnored(a: string, blanks: string, mark: string, rest: string, br: char, b: string, v: Version)
    requires EndsLine(a) && IsLineBreak(br) && IsBlank(blanks) && NoBreaks(blanks + mark + rest)
    requires ';' !in rest && (mark == "--" || (mark == "##" && v == New))
    ensures Parse(a + ((blanks + mark + rest) + [br] + b), v) == Parse(a + b, v)
  {
    var line := blanks + mark + rest;
    assert StartsAfterBlanks(line, mark);
    DroppedExactly(line, v);
    assert ';' !in blanks;
    CommentInvariance(a, line, br, b, v);
  }

  /** A text of such lines alone has no statement. */
  lemma CommentAlone(blanks: string, mark: string, rest: string, v: Version)
    requires IsBlank(blanks) && NoBreaks(blanks + mark + rest)
    requires ';' !in blanks + rest && (mark == "--" || (mark == "##" && v == New))
    ensures Parse(blanks + mark + rest, v) == []
  {
    var line := blanks + mark + rest;
    assert StartsAfterBlanks(line, mark);
    DroppedExactly(line, v);
    DroppedAlone(line, v);
    OnePieceAlone(line, v);
  }

  lemma DroppedAlone(line: string, v: Version)
    requires line != "" && NoBreaks(line) && IsDropped(line, v)
    ensures Clean(Strip(line), v) == ""
  {
    OneLine(line);
    KeptOne(line, v);
    StripIsIdle(line, v);
  }

  lemma OnePieceAlone(piece: string, v: Version)
    requires ';' !in piece && Clean(Strip(piece), v) == ""
    ensures Parse(piece, v) == []
  {
    EveryFullIsFull(piece, v);
    SplitPlain(piece, ';');
    assert [piece][1..] == [];
  }

  // ---- and nothing else is lost ----------------------------------------------------------

  /** The line is what a statement is made of. */
  ghost predicate IsContent(line: string, v: Version) {
    !IsBlank(line) && !StartsAfterBlanks(line, "--") && (v == New ==> !StartsAfterBlanks(line, "##"))
  }

  /** All lines of a text are what statements are made of. */
  ghost predicate HasOnlyContent(full: string, v: Version) {
    forall line | line in Lines(full) :: IsContent(line, v)
  }

  /** No line of any statement is blank or a comment. */
  lemma {:induction false} NoCommentSurvives(text: string, v: Version)
    ensures forall full | full in FullFields(Parse(text, v)) :: HasOnlyContent(full, v)
  {
    FullFieldsOfParse(FullsOf(text, v));
    EveryFullIsFull(text, v);
    forall full | full in FullsOf(text, v) ensures HasOnlyContent(full, v) {
      FullHasOnlyContent(full, v);
    }
  }

  lemma FullHasOnlyContent(full: string, v: Version)
    requires IsFull(full, v)
    ensures HasOnlyContent(full, v)
  {
    CleanKeepsAll(full, v);
    KeptAreKept(Lines(full), v);
    forall line | line in Lines(full) ensures IsContent(line, v) {
      DroppedExactly(line, v);
    }
  }

  /** Every other line of the text is a line of some statement, but for blanks at its ends. */
  lemma {:induction false} ContentSurvives(text: string, v: Version, piece: string, line: string)
    requires piece in Split(text, ';') && line in Lines(piece) && IsContent(line, v)
    ensures exists full, kept ::
      full in FullFields(Parse(text, v)) && kept in Lines(full) && Strip(kept) == Strip(line)
  {
    DroppedExactly(line, v);
    ContentMembers(Split(text, ';'), v);
    LosesNothing(text, v);
    assert Strip(line) in StrippedLines(FullFields(Parse(text, v)));
    LineOfSome(FullFields(Parse(text, v)), Strip(line));
  }

  lemma {:induction false} LineOfSome(texts: seq<string>, stripped: string)
    requires stripped in StrippedLines(texts)
    ensures exists t, l :: t in texts && l in Lines(t) && Strip(l) == stripped
  {
    StripAllMembers(Lines(texts[0]));
    if stripped in StripAll(Lines(texts[0])) {
      var l :| l in Lines(texts[0]) && stripped == Strip(l);
      assert texts[0] in texts;
    } else {
      LineOfSome(texts[1..], stripped);
      var t, l :| t in texts[1..] && l in Lines(t) && Strip(l) == stripped;
      assert t in texts;
    }
  }
}
