/** Reading the statements that my2sql writes, from its files or from its output as it comes. */
module Binlog {
  import opened Text
  import opened Wrappers

  /** A statement and the comment before it, empty without one. */
  datatype Row = Row(sql: string, extraInfo: string)

  // ---- one line --------------------------------------------------------------------------

  function RStripBreaks(s: string): string {
    if s != "" && (s[|s| - 1] == '\r' || s[|s| - 1] == '\n') then RStripBreaks(s[..|s| - 1]) else s
  }

  function Content(line: string): string {
    LStrip(RStripBreaks(line))
  }

  predicate IsComment(line: string) {
    StartsWith(Content(line), "#")
  }

  predicate IsStatement(line: string) {
    var content := Content(line);
    !IsComment(line)
    && UpperAll(if |content| <= 6 then content else content[..6]) in ["INSERT", "DELETE", "UPDATE"]
  }

  function SqlOf(line: string): string {
    var content := Content(line);
    if content != "" && Last(content) == ';' then content else content + ";"
  }

  /** `parse_my2sql_output_line`: a row or none, and the comment in force after the line. */
  function ParseLine(line: string, extraInfo: string): (Option<Row>, string) {
    if IsComment(line) then (None, Content(line))
    else if IsStatement(line) then (Some(Row(SqlOf(line), extraInfo)), extraInfo)
    else (None, extraInfo)
  }

  // ---- all lines -------------------------------------------------------------------------

  /** What a line is to the readers. */
  datatype Token = Comment(content: string) | Statement(sql: string) | Ignored

  function TokenOf(line: string): Token {
    if IsComment(line) then Comment(Content(line)) else if IsStatement(line) then Statement(SqlOf(line)) else Ignored
  }

  function Tokens(lines: seq<string>): (tokens: seq<Token>)
    ensures |tokens| == |lines|
  {
    if lines == [] then [] else [TokenOf(lines[0])] + Tokens(lines[1..])
  }

  lemma {:induction false} TokensAt(lines: seq<string>, i: nat)
    requires i < |lines|
    ensures Tokens(lines)[i] == TokenOf(lines[i])
  {
    if i > 0 {
      TokensAt(lines[1..], i - 1);
    }
  }

  lemma {:induction false} TokensConcat(a: seq<string>, b: seq<string>)
    ensures Tokens(a + b) == Tokens(a) + Tokens(b)
  {
    if a == [] {
      assert a + b == b;
    } else {
      assert (a + b)[1..] == a[1..] + b;
      TokensConcat(a[1..], b);
    }
  }

  function RowsAt(t: Token, extraInfo: string): seq<Row> {
    if t.Statement? then [Row(t.sql, extraInfo)] else []
  }

  function InfoAt(t: Token, extraInfo: string): string {
    if t.Comment? then t.content else extraInfo
  }

  lemma ParsedLine(line: string, extraInfo: string)
    ensures
      var (row, info) := ParseLine(line, extraInfo);
      && (TokenOf(line).Statement? <==> row.Some?)
      && RowsAt(TokenOf(line), extraInfo) == (if row.Some? then [row.value] else [])
      && InfoAt(TokenOf(line), extraInfo) == info
  {
  }

  /** The rows of all lines, from the comment in force before them. */
  function Scan(tokens: seq<Token>, extraInfo: string): seq<Row> {
    if tokens == [] then [] else RowsAt(tokens[0], extraInfo) + Scan(tokens[1..], InfoAt(tokens[0], extraInfo))
  }

  /** The comment in force after the lines. */
  function InfoAfter(tokens: seq<Token>, extraInfo: string): string {
    if tokens == [] then extraInfo else InfoAfter(tokens[1..], InfoAt(tokens[0], extraInfo))
  }

  function Take(rows: seq<Row>, num: int): seq<Row> {
    if num <= 0 then [] else if |rows| <= num then rows else rows[..num]
  }

  datatype File = File(name: string, lines: seq<string>)

  predicate EndsWith(s: string, suffix: string) {
    |suffix| <= |s| && s[|s| - |suffix|..] == suffix
  }

  predicate IsRead(f: File) {
    EndsWith(f.name, ".sql") && !StartsWith(f.name, ".")
  }

  function LinesOf(files: seq<File>): seq<string> {
    if files == [] then [] else (if IsRead(files[0]) then files[0].lines else []) + LinesOf(files[1..])
  }

  // ---- the two readers -------------------------------------------------------------------

  lemma {:induction false} ScanConcat(a: seq<Token>, b: seq<Token>, extraInfo: string)
    ensures Scan(a + b, extraInfo) == Scan(a, extraInfo) + Scan(b, InfoAfter(a, extraInfo))
    ensures InfoAfter(a + b, extraInfo) == InfoAfter(b, InfoAfter(a, extraInfo))
  {
    if a == [] {
      assert a + b == b;
    } else {
      assert (a + b)[1..] == a[1..] + b;
      ScanConcat(a[1..], b, InfoAt(a[0], extraInfo));
    }
  }

  lemma ScanStep(tokens: seq<Token>, i: nat, extraInfo: string)
    requires i < |tokens|
    ensures
      var info := InfoAfter(tokens[..i], extraInfo);
      && Scan(tokens[..i + 1], extraInfo) == Scan(tokens[..i], extraInfo) + RowsAt(tokens[i], info)
      && InfoAfter(tokens[..i + 1], extraInfo) == InfoAt(tokens[i], info)
  {
    assert tokens[..i + 1] == tokens[..i] + [tokens[i]];
    ScanConcat(tokens[..i], [tokens[i]], extraInfo);
    assert [tokens[i]][1..] == [];
  }

  lemma ScanPrefix(tokens: seq<Token>, i: nat, extraInfo: string)
    requires i <= |tokens|
    ensures Scan(tokens[..i], extraInfo) <= Scan(tokens, extraInfo)
  {
    assert tokens == tokens[..i] + tokens[i..];
    ScanConcat(tokens[..i], tokens[i..], extraInfo);
  }

  /** The rows the file reader returns: it looks at the number only after adding a row. */
  function FileRows(rows: seq<Row>, num: int): seq<Row> {
    if rows == [] then [] else Take(rows, if num < 1 then 1 else num)
  }

  /** One line more: its row, if any, and the comment in force, by `ParseLine`. */
  lemma LineStep(lines: seq<string>, l: nat, extraInfo: string)
    requires l < |lines|
    ensures
      var tokens := Tokens(lines);
      var (row, info) := ParseLine(lines[l], InfoAfter(tokens[..l], extraInfo));
      && Scan(tokens[..l + 1], extraInfo)
         == (if row.Some? then Scan(tokens[..l], extraInfo) + [row.value] else Scan(tokens[..l], extraInfo))
      && InfoAfter(tokens[..l + 1], extraInfo) == info
  {
    var tokens := Tokens(lines);
    var info := InfoAfter(tokens[..l], extraInfo);
    ScanStep(tokens, l, extraInfo);
    TokensAt(lines, l);
    ParsedLine(lines[l], info);
    assert Scan(tokens[..l], extraInfo) + [] == Scan(tokens[..l], extraInfo);
  }

  /** The state of the file reader: it stops once it is full. */
  datatype Progress = Progress(rows: seq<Row>, info: string, full: bool)

  function Advance(p: Progress, t: Token, num: int): Progress {
    var rows := p.rows + RowsAt(t, p.info);
    Progress(rows, InfoAt(t, p.info), t.Statement? && |rows| >= num)
  }

  function Collect(p: Progress, tokens: seq<Token>, num: int): Progress
    decreases |tokens|
  {
    if p.full || tokens == [] then p else Collect(Advance(p, tokens[0], num), tokens[1..], num)
  }

  lemma {:induction false} CollectConcat(p: Progress, a: seq<Token>, b: seq<Token>, num: int)
    ensures Collect(p, a + b, num) == Collect(Collect(p, a, num), b, num)
    decreases |a|
  {
    if a == [] {
      assert a + b == b;
    } else if !p.full {
      assert (a + b)[1..] == a[1..] + b;
      CollectConcat(Advance(p, a[0], num), a[1..], b, num);
    }
  }

  /** Stopping early returns the first rows of all rows. */
  lemma {:induction false} CollectTakes(p: Progress, tokens: seq<Token>, num: int)
    requires !p.full && (p.rows != [] ==> |p.rows| < num)
    ensures Collect(p, tokens, num).rows == FileRows(p.rows + Scan(tokens, p.info), num)
    decreases |tokens|
  {
    if tokens == [] {
      assert p.rows + [] == p.rows;
    } else {
      var t, rest := tokens[0], tokens[1..];
      var p' := Advance(p, t, num);
      assert p.rows + (RowsAt(t, p.info) + Scan(rest, p'.info)) == p'.rows + Scan(rest, p'.info);
      if !p'.full {
        CollectTakes(p', rest, num);
      }
    }
  }

  /** The inner loop: one file, until its lines end or there are enough rows. */
  method ReadOneFile(lines: seq<string>, start: Progress, num: int) returns (p: Progress)
    requires !start.full
    ensures p == Collect(start, Tokens(lines), num)
  {
    p := start;
    for l := 0 to |lines|
      invariant !p.full && Collect(p, Tokens(lines[l..]), num) == Collect(start, Tokens(lines), num)
    {
      assert lines[l..][1..] == lines[l + 1..];
      ParsedLine(lines[l], p.info);
      var (rowInfo, info) := ParseLine(lines[l], p.info);
      var rows := p.rows;
      if rowInfo.Some? {
        rows := rows + [rowInfo.value];
        if |rows| >= num {
          return Progress(rows, info, true);
        }
      }
      assert p.rows + [] == p.rows;
      p := Progress(rows, info, false);
    }
  }

  lemma NextFile(files: seq<File>, f: nat, p: Progress, num: int)
    requires f < |files|
    ensures
      var rest := Tokens(LinesOf(files[f + 1..]));
      Collect(p, Tokens(LinesOf(files[f..])), num)
        == Collect(if IsRead(files[f]) then Collect(p, Tokens(files[f].lines), num) else p, rest, num)
  {
    var rest := LinesOf(files[f + 1..]);
    assert files[f..][1..] == files[f + 1..];
    if IsRead(files[f]) {
      TokensConcat(files[f].lines, rest);
      CollectConcat(p, Tokens(files[f].lines), Tokens(rest), num);
    } else {
      assert [] + rest == rest;
    }
  }

  /** `read_my2sql_output_files`, the files in the order they are walked. */
  method ReadOutputFiles(files: seq<File>, num: int) returns (rows: seq<Row>)
    ensures rows == FileRows(Scan(Tokens(LinesOf(files)), ""), num)
  {
    var p := Progress([], "", false);
    ghost var end := Collect(p, Tokens(LinesOf(files)), num);
    CollectTakes(p, Tokens(LinesOf(files)), num);
    for f := 0 to |files|
      invariant !p.full && Collect(p, Tokens(LinesOf(files[f..])), num) == end
    {
      NextFile(files, f, p, num);
      if !EndsWith(files[f].name, ".sql") || StartsWith(files[f].name, ".") {
        continue;
      }
      p := ReadOneFile(files[f].lines, p, num);
      if p.full {
        break;
      }
    }
    assert p == end;
    assert [] + Scan(Tokens(LinesOf(files)), "") == Scan(Tokens(LinesOf(files)), "");
    rows := p.rows;
  }

  /** The streaming loop of `my2sql`: lines until the output ends, which an empty line marks. */
  method ReadStream(output: seq<string>, num: int) returns (rows: seq<Row>)
    requires forall l | l in output :: l != ""
    ensures rows == Take(Scan(Tokens(output), ""), num)
  {
    rows := [];
    var n := 1;
    var currentExtraInfo := "";
    var i := 0;
    ghost var tokens := Tokens(output);
    while i < |output|
      invariant 0 <= i <= |output| && n == |rows| + 1
      invariant rows == Scan(tokens[..i], "") && currentExtraInfo == InfoAfter(tokens[..i], "")
      invariant rows != [] ==> |rows| <= num
    {
      LineStep(output, i, "");
      if n <= num {
        var (rowInfo, info) := ParseLine(output[i], currentExtraInfo);
        currentExtraInfo := info;
        if rowInfo.Some? {
          n := n + 1;
          rows := rows + [rowInfo.value];
        }
      } else {
        break;
      }
      i := i + 1;
    }
    ScanPrefix(tokens, i, "");
    assert i == |output| ==> tokens[..i] == tokens;
  }

  // ---- what they have in common ----------------------------------------------------------

  /** On the same lines the two readers return the same rows exactly when at least one row is
      asked for, or there is none. */
  lemma ReadersAgreeExactly(lines: seq<string>, num: int)
    ensures
      var all := Scan(Tokens(lines), "");
      FileRows(all, num) == Take(all, num) <==> num >= 1 || all == []
  {
    var all := Scan(Tokens(lines), "");
    if num < 1 && all != [] {
      assert |FileRows(all, num)| == 1;
    }
  }

  /** The content of the nearest comment line before line `i`, or the empty string. */
  function NearestComment(lines: seq<string>, i: nat): string
    requires i <= |lines|
  {
    if i == 0 then ""
    else if IsComment(lines[i - 1]) then Content(lines[i - 1])
    else NearestComment(lines, i - 1)
  }

  lemma {:induction false} InfoIsNearest(lines: seq<string>, i: nat)
    requires i <= |lines|
    ensures InfoAfter(Tokens(lines)[..i], "") == NearestComment(lines, i)
  {
    if i > 0 {
      InfoIsNearest(lines, i - 1);
      ScanStep(Tokens(lines), i - 1, "");
      TokensAt(lines, i - 1);
    }
  }

  /** The statement lines before line `n`, each with its nearest comment before it. */
  function StatementRows(lines: seq<string>, n: nat): seq<Row>
    requires n <= |lines|
  {
    if n == 0 then []
    else
      var line, before := lines[n - 1], StatementRows(lines, n - 1);
      if IsStatement(line) then before + [Row(SqlOf(line), NearestComment(lines, n - 1))] else before
  }

  lemma {:induction false} RowsOfPrefix(lines: seq<string>, n: nat)
    requires n <= |lines|
    ensures Scan(Tokens(lines)[..n], "") == StatementRows(lines, n)
  {
    if n > 0 {
      RowsOfPrefix(lines, n - 1);
      InfoIsNearest(lines, n - 1);
      ScanStep(Tokens(lines), n - 1, "");
      TokensAt(lines, n - 1);
    }
  }

  /** The rows are the statement lines in order, each with the nearest comment line before it,
      across files. */
  lemma {:induction false} RowsCarryNearestComment(lines: seq<string>)
    ensures Scan(Tokens(lines), "") == StatementRows(lines, |lines|)
  {
    RowsOfPrefix(lines, |lines|);
    assert Tokens(lines)[..|lines|] == Tokens(lines);
  }

  /** A statement line carries a comment exactly when a comment line comes before it, and then
      that of the last one. */
  lemma {:induction false} CommentExactly(lines: seq<string>, i: nat)
    requires i <= |lines|
    ensures NearestComment(lines, i) == "" <==> forall j | 0 <= j < i :: !IsComment(lines[j])
    ensures NearestComment(lines, i) != "" ==> exists j ::
      0 <= j < i && IsComment(lines[j]) && NearestComment(lines, i) == Content(lines[j])
      && forall k | j < k < i :: !IsComment(lines[k])
  {
    if i > 0 && !IsComment(lines[i - 1]) {
      CommentExactly(lines, i - 1);
    }
  }

  // ---- lines on their characters ---------------------------------------------------------

  /** Line feeds and carriage returns. */
  predicate IsEnd(s: string) {
    forall i | 0 <= i < |s| :: s[i] == '\n' || s[i] == '\r'
  }

  lemma {:induction false} EndStripped(s: string, end: string)
    requires IsEnd(end) && (s != "" ==> s[|s| - 1] != '\n' && s[|s| - 1] != '\r')
    ensures RStripBreaks(s + end) == s
  {
    if end == "" {
      assert s + end == s;
    } else {
      var last := |s + end| - 1;
      assert (s + end)[last] == end[|end| - 1];
      assert (s + end)[..last] == s + end[..|end| - 1];
      EndStripped(s, end[..|end| - 1]);
    }
  }

  /** The text of a line between its leading blanks and its end. */
  lemma ContentOf(blanks: string, text: string, end: string)
    requires IsBlank(blanks) && IsEnd(end)
    requires text != "" && !IsSpace(text[0]) && text[|text| - 1] != '\n' && text[|text| - 1] != '\r'
    ensures Content(blanks + text + end) == text
  {
    EndStripped(blanks + text, end);
    LStripSkips(blanks, text);
  }

  /** A line of blanks, a hash sign and anything is a comment: no row, and its text is in force. */
  lemma CommentLine(blanks: string, rest: string, end: string, extraInfo: string)
    requires IsBlank(blanks) && IsEnd(end)
    requires rest != "" ==> rest[|rest| - 1] != '\n' && rest[|rest| - 1] != '\r'
    ensures ParseLine(blanks + ("#" + rest) + end, extraInfo) == (None, "#" + rest)
  {
    ContentOf(blanks, "#" + rest, end);
    assert ("#" + rest)[..1] == "#";
  }

  predicate IsSpelled(word: string, verb: string) {
    |word| == |verb| && forall i | 0 <= i < |word| :: Upper(word[i]) == verb[i]
  }

  /** By its characters, the word is INSERT, DELETE or UPDATE in any letter case. */
  predicate IsVerb(word: string) {
    IsSpelled(word, "INSERT") || IsSpelled(word, "DELETE") || IsSpelled(word, "UPDATE")
  }

  lemma SpelledExactly(word: string, verb: string)
    ensures IsSpelled(word, verb) <==> UpperAll(word) == verb
  {
    UpperAt(word);
  }

  lemma VerbExactly(word: string)
    ensures IsVerb(word) <==> UpperAll(word) in ["INSERT", "DELETE", "UPDATE"]
  {
    SpelledExactly(word, "INSERT");
    SpelledExactly(word, "DELETE");
    SpelledExactly(word, "UPDATE");
  }

  /** Every line whose text starts with one of the three verbs is a row with that text, closed by one
      semicolon, and the comment in force; every other line that is no comment is no row. */
  lemma TextLine(blanks: string, text: string, end: string, extraInfo: string)
    requires IsBlank(blanks) && IsEnd(end)
    requires text != "" && !IsSpace(text[0]) && text[|text| - 1] != '\n' && text[|text| - 1] != '\r' && text[0] != '#'
    ensures
      var isRow := |text| >= 6 && IsVerb(text[..6]);
      var sql := if text[|text| - 1] == ';' then text else text + ";";
      ParseLine(blanks + text + end, extraInfo) == (if isRow then Some(Row(sql, extraInfo)) else None, extraInfo)
  {
    ContentOf(blanks, text, end);
    assert !StartsWith(text, "#") by {
      assert text[..1][0] == text[0];
    }
    var head := if |text| <= 6 then text else text[..6];
    VerbExactly(head);
    assert |text| == 6 ==> text[..6] == text;
  }

  /** A blank line is no row. */
  lemma BlankLine(line: string, extraInfo: string)
    requires IsBlank(line)
    ensures ParseLine(line, extraInfo) == (None, extraInfo)
  {
    BlankContent(line);
    assert UpperAll("") == "";
  }

  lemma {:induction false} BlankContent(line: string)
    requires IsBlank(line)
    ensures Content(line) == ""
  {
    if line != "" && (line[|line| - 1] == '\r' || line[|line| - 1] == '\n') {
      BlankContent(line[..|line| - 1]);
    } else {
      LStripSkips(line, "");
      assert line + "" == line;
    }
  }

  /** What a reader returns are the first rows: as many as asked for, of those there are, where the
      file reader takes anything below 1 for 1. */
  lemma FirstRows(rows: seq<Row>, num: int)
    ensures Take(rows, num) <= rows && FileRows(rows, num) <= rows
    ensures |Take(rows, num)| == if num < 0 then 0 else if num < |rows| then num else |rows|
    ensures |FileRows(rows, num)|
         == if rows == [] then 0 else if num < 1 then 1 else if num < |rows| then num else |rows|
  {
  }

  /** Only files with the ending `.sql` that are not hidden are read. */
  lemma {:induction false} FilesRead(files: seq<File>, line: string)
    ensures line in LinesOf(files) <==> exists f | f in files ::
      && |f.name| >= 4 && f.name[|f.name| - 4..] == ".sql" && f.name[0] != '.' && line in f.lines
  {
    if files != [] {
      FilesRead(files[1..], line);
      var name := files[0].name;
      assert files == [files[0]] + files[1..];
      assert |name| >= 4 ==> (StartsWith(name, ".") <==> name[0] == '.') by {
        if |name| >= 4 {
          assert name[..1] == [name[0]];
        }
      }
      assert EndsWith(name, ".sql") <==> |name| >= 4 && name[|name| - 4..] == ".sql";
    }
  }
}
