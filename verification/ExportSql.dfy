/** The SQL export of a query result, and a reader of it that knows quoted literals: a quote in
    a literal is written twice, as in section 5.3 of ISO/IEC 9075-2. */
module ExportSql {
  import opened Text
  import opened Wrappers

  /** A value by what the writer tests: a string, a date or time with its ISO text, nothing, or
      anything else with the text `str` gives. */
  datatype Value = Null | Str(s: string) | Date(iso: string) | Other(shown: string)

  // ---- writing ---------------------------------------------------------------------------

  function Doubled(s: string): string {
    if s == "" then "" else (if s[0] == '\'' then "''" else [s[0]]) + Doubled(s[1..])
  }

  function Literal(v: Value): string {
    match v
    case Str(s) => "'" + Doubled(s) + "'"
    case Date(iso) => "'" + Doubled(iso) + "'"
    case Null => "NULL"
    case Other(shown) => shown
  }

  function Literals(row: seq<Value>): seq<string> {
    if row == [] then [] else [Literal(row[0])] + Literals(row[1..])
  }

  function Header(columns: seq<string>): string {
    if columns == [] then "" else "INSERT INTO your_table_name (" + Join(columns, ", ") + ") VALUES "
  }

  function RowText(row: seq<Value>): string {
    "(" + Join(Literals(row), ", ") + ");\n"
  }

  function Written(rows: seq<seq<Value>>, header: string): string {
    if rows == [] then "" else header + RowText(rows[0]) + Written(rows[1..], header)
  }

  lemma {:induction false} WrittenConcat(a: seq<seq<Value>>, b: seq<seq<Value>>, header: string)
    ensures Written(a + b, header) == Written(a, header) + Written(b, header)
  {
    if a == [] {
      assert a + b == b;
    } else {
      assert (a + b)[1..] == a[1..] + b;
      WrittenConcat(a[1..], b, header);
    }
  }

  lemma WrittenStep(rows: seq<seq<Value>>, r: nat, header: string)
    requires r < |rows|
    ensures Written(rows[..r + 1], header) == Written(rows[..r], header) + header + RowText(rows[r])
  {
    assert rows[..r + 1] == rows[..r] + [rows[r]];
    WrittenConcat(rows[..r], [rows[r]], header);
    assert [rows[r]][1..] == [];
  }

  /** `save_sql`: the file after all rows have been written. */
  method SaveSql(result: seq<seq<Value>>, columns: seq<string>) returns (file: string)
    ensures file == Written(result, Header(columns))
  {
    file := "";
    for r := 0 to |result|
      invariant file == Written(result[..r], Header(columns))
    {
      WrittenStep(result, r, Header(columns));
      if columns != [] {
        file := file + ("INSERT INTO your_table_name (" + Join(columns, ", ") + ") VALUES ");
      }
      var values := Join(Literals(result[r]), ", ");
      file := file + ("(" + values + ");\n");
    }
    assert result[..|result|] == result;
  }

  // ---- reading ---------------------------------------------------------------------------

  datatype Cell = NullCell | Quoted(s: string) | Bare(token: string)

  datatype Read<T> = Read(value: T, rest: string)

  /** The text of a literal whose opening quote has been read. */
  function ReadQuoted(s: string): (r: Option<Read<string>>)
    ensures r.Some? ==> |r.value.rest| < |s|
    decreases |s|
  {
    if s == "" then None
    else if s[0] != '\'' then
      match ReadQuoted(s[1..])
      case Some(r) => Some(Read([s[0]] + r.value, r.rest))
      case None => None
    else if |s| > 1 && s[1] == '\'' then
      match ReadQuoted(s[2..])
      case Some(r) => Some(Read("'" + r.value, r.rest))
      case None => None
    else Some(Read("", s[1..]))
  }

  /** The text up to a comma or a closing parenthesis. */
  function ReadBare(s: string): (r: Read<string>)
    ensures |r.rest| <= |s|
  {
    if s == "" || s[0] == ',' || s[0] == ')' then Read("", s)
    else var r := ReadBare(s[1..]); Read([s[0]] + r.value, r.rest)
  }

  function ReadCell(s: string): (r: Option<Read<Cell>>)
    ensures r.Some? ==> |r.value.rest| <= |s|
  {
    if s != "" && s[0] == '\'' then
      match ReadQuoted(s[1..])
      case Some(r) => Some(Read(Quoted(r.value), r.rest))
      case None => None
    else
      var r := ReadBare(s);
      Some(Read(if r.value == "NULL" then NullCell else Bare(r.value), r.rest))
  }

  /** One or more cells and the closing parenthesis. */
  function ReadCells(s: string): (r: Option<Read<seq<Cell>>>)
    ensures r.Some? ==> |r.value.rest| < |s|
    decreases |s|
  {
    match ReadCell(s)
    case None => None
    case Some(c) =>
      if StartsWith(c.rest, ")") then Some(Read([c.value], c.rest[1..]))
      else if StartsWith(c.rest, ", ") then
        match ReadCells(c.rest[2..])
        case None => None
        case Some(more) => Some(Read([c.value] + more.value, more.rest))
      else None
  }

  function ReadRow(s: string): (r: Option<Read<seq<Cell>>>)
    ensures r.Some? ==> |r.value.rest| < |s|
  {
    if StartsWith(s, "()") then Some(Read([], s[2..]))
    else if StartsWith(s, "(") then ReadCells(s[1..])
    else None
  }

  function ReadRows(s: string, header: string): Option<seq<seq<Cell>>>
    decreases |s|
  {
    if s == "" then Some([])
    else if !StartsWith(s, header) then None
    else
      match ReadRow(s[|header|..])
      case None => None
      case Some(row) =>
        if !StartsWith(row.rest, ";\n") then None
        else
          match ReadRows(row.rest[2..], header)
          case None => None
          case Some(more) => Some([row.value] + more)
  }

  // ---- reading undoes writing ------------------------------------------------------------

  function CellOf(v: Value): Cell {
    match v
    case Null => NullCell
    case Str(s) => Quoted(s)
    case Date(iso) => Quoted(iso)
    case Other(shown) => Bare(shown)
  }

  function CellsOf(row: seq<Value>): seq<Cell> {
    if row == [] then [] else [CellOf(row[0])] + CellsOf(row[1..])
  }

  function CellRows(rows: seq<seq<Value>>): seq<seq<Cell>> {
    if rows == [] then [] else [CellsOf(rows[0])] + CellRows(rows[1..])
  }

  /** A text that stands for itself without quotes, as that of every Python number does. */
  predicate IsBareText(t: string) {
    t != "NULL" && (t != "" ==> t[0] != '\'') && ',' !in t && ')' !in t
  }

  predicate IsPrintable(v: Value) {
    v.Other? ==> IsBareText(v.shown)
  }

  /** Every value printed without quotes is bare, and the row does not look empty. */
  predicate AllPrintable(row: seq<Value>) {
    row != [Other("")] && forall i | 0 <= i < |row| :: IsPrintable(row[i])
  }

  predicate IsExportable(rows: seq<seq<Value>>) {
    forall i | 0 <= i < |rows| :: AllPrintable(rows[i])
  }

  lemma {:induction false} ReadDoubled(s: string, rest: string)
    requires rest != "" ==> rest[0] != '\''
    ensures ReadQuoted(Doubled(s) + ("'" + rest)) == Some(Read(s, rest))
  {
    var text := Doubled(s) + ("'" + rest);
    if s == "" {
      assert text == "'" + rest;
    } else {
      var more := Doubled(s[1..]) + ("'" + rest);
      ReadDoubled(s[1..], rest);
      assert s == [s[0]] + s[1..];
      if s[0] == '\'' {
        assert text == "''" + more && text[2..] == more;
      } else {
        assert text == [s[0]] + more && text[1..] == more;
      }
    }
  }

  lemma {:induction false} ReadBareText(t: string, rest: string)
    requires ',' !in t && ')' !in t && rest != "" && (rest[0] == ',' || rest[0] == ')')
    ensures ReadBare(t + rest) == Read(t, rest)
  {
    if t == "" {
      assert t + rest == rest;
    } else {
      assert (t + rest)[1..] == t[1..] + rest;
      ReadBareText(t[1..], rest);
      assert t == [t[0]] + t[1..];
    }
  }

  lemma ReadQuotedLiteral(s: string, rest: string)
    requires rest != "" && rest[0] != '\''
    ensures ReadCell("'" + Doubled(s) + "'" + rest) == Some(Read(Quoted(s), rest))
  {
    var d := Doubled(s);
    var inner := d + ("'" + rest);
    ReadDoubled(s, rest);
    assert "'" + d + "'" + rest == "'" + inner;
    assert ("'" + inner)[1..] == inner;
  }

  lemma ReadBareLiteral(t: string, rest: string)
    requires IsBareText(t) || t == "NULL"
    requires rest != "" && (rest[0] == ',' || rest[0] == ')')
    ensures ReadCell(t + rest) == Some(Read(if t == "NULL" then NullCell else Bare(t), rest))
  {
    ReadBareText(t, rest);
    assert t != "" ==> (t + rest)[0] == t[0];
    assert t == "" ==> t + rest == rest;
  }

  lemma ReadLiteral(v: Value, rest: string)
    requires IsPrintable(v) && rest != "" && (rest[0] == ',' || rest[0] == ')')
    ensures ReadCell(Literal(v) + rest) == Some(Read(CellOf(v), rest))
  {
    match v
    case Str(s) => ReadQuotedLiteral(s, rest);
    case Date(iso) => ReadQuotedLiteral(iso, rest);
    case Null => ReadBareLiteral("NULL", rest);
    case Other(shown) => ReadBareLiteral(shown, rest);
  }

  lemma LastCell(text: string, cell: Cell, rest: string)
    requires ReadCell(text) == Some(Read(cell, ")" + rest))
    ensures ReadCells(text) == Some(Read([cell], rest))
  {
    assert (")" + rest)[..1] == ")" && (")" + rest)[1..] == rest;
  }

  lemma OneMoreCell(text: string, cell: Cell, more: string, cells: seq<Cell>, rest: string)
    requires ReadCell(text) == Some(Read(cell, ", " + more))
    requires ReadCells(more) == Some(Read(cells, rest))
    ensures ReadCells(text) == Some(Read([cell] + cells, rest))
  {
    var after := ", " + more;
    assert after[..2] == ", " && after[2..] == more && after[..1] == "," != ")";
  }

  lemma JoinMore(first: string, others: seq<string>, end: string)
    requires others != []
    ensures Join([first] + others, ", ") + end == first + (", " + (Join(others, ", ") + end))
  {
    assert ([first] + others)[1..] == others;
    var joined := Join(others, ", ");
    assert Join([first] + others, ", ") == first + ", " + joined;
    assert first + ", " + joined + end == first + (", " + (joined + end));
  }

  lemma {:induction false} ReadLiterals(row: seq<Value>, rest: string)
    requires row != [] && forall i | 0 <= i < |row| :: IsPrintable(row[i])
    ensures ReadCells(Join(Literals(row), ", ") + (")" + rest)) == Some(Read(CellsOf(row), rest))
  {
    var first, others := Literal(row[0]), row[1..];
    var text := Join(Literals(row), ", ") + (")" + rest);
    assert Literals(row) == [first] + Literals(others);
    LiteralsLength(others);
    if others == [] {
      ReadLiteral(row[0], ")" + rest);
      assert Literals(row) == [first] && CellsOf(row) == [CellOf(row[0])];
      assert text == first + (")" + rest);
      LastCell(text, CellOf(row[0]), rest);
    } else {
      var more := Join(Literals(others), ", ") + (")" + rest);
      ReadLiterals(others, rest);
      ReadLiteral(row[0], ", " + more);
      JoinMore(first, Literals(others), ")" + rest);
      OneMoreCell(text, CellOf(row[0]), more, CellsOf(others), rest);
    }
  }

  lemma {:induction false} LiteralsLength(row: seq<Value>)
    ensures |Literals(row)| == |row|
  {
    if row != [] {
      LiteralsLength(row[1..]);
    }
  }

  lemma ReadRowText(row: seq<Value>, rest: string)
    requires AllPrintable(row)
    ensures ReadRow(RowText(row) + rest) == Some(Read(CellsOf(row), ";\n" + rest))
  {
    var text, after := RowText(row) + rest, ";\n" + rest;
    var joined := Join(Literals(row), ", ");
    if row == [] {
      assert text == "()" + after;
    } else {
      ReadLiterals(row, after);
      assert text == "(" + (joined + (")" + after));
      FirstLiteral(row);
      assert text[1] == joined[0];
      assert text[..2] != "()";
    }
  }

  /** No written row looks like the empty one. */
  lemma FirstLiteral(row: seq<Value>)
    requires row != [] && AllPrintable(row)
    ensures Join(Literals(row), ", ") != "" && Join(Literals(row), ", ")[0] != ')'
  {
    var first := Literal(row[0]);
    assert first != "" ==> first[0] != ')';
    LiteralsLength(row);
    assert Literals(row)[0] == first;
    if |row| == 1 {
      assert row == [row[0]];
    }
  }

  lemma WrittenHead(rows: seq<seq<Value>>, header: string)
    requires rows != []
    ensures Written(rows, header) == header + (RowText(rows[0]) + Written(rows[1..], header))
  {
    var text, more := RowText(rows[0]), Written(rows[1..], header);
    assert header + text + more == header + (text + more);
  }

  lemma ReadOneRow(header: string, body: string, cells: seq<Cell>, more: string, rest: seq<seq<Cell>>)
    requires ReadRow(body) == Some(Read(cells, ";\n" + more))
    requires ReadRows(more, header) == Some(rest)
    ensures ReadRows(header + body, header) == Some([cells] + rest)
  {
    var text, after := header + body, ";\n" + more;
    assert text[..|header|] == header && text[|header|..] == body;
    assert after[..2] == ";\n" && after[2..] == more;
  }

  /** The written file decodes back to exactly the rows, in order: no value is confused with
      another, NULL not with the text `NULL`, whatever the texts hold. */
  lemma {:induction false} ReadUndoesWrite(rows: seq<seq<Value>>, header: string)
    requires IsExportable(rows)
    ensures ReadRows(Written(rows, header), header) == Some(CellRows(rows))
  {
    if rows != [] {
      var more := Written(rows[1..], header);
      ReadUndoesWrite(rows[1..], header);
      ReadRowText(rows[0], more);
      WrittenHead(rows, header);
      ReadOneRow(header, RowText(rows[0]) + more, CellsOf(rows[0]), more, CellRows(rows[1..]));
    }
  }

  /** Two results written to the same file are the same, cell by cell. */
  lemma {:induction false} WriteIsInjective(a: seq<seq<Value>>, b: seq<seq<Value>>, columns: seq<string>)
    requires IsExportable(a) && IsExportable(b)
    requires Written(a, Header(columns)) == Written(b, Header(columns))
    ensures CellRows(a) == CellRows(b)
  {
    ReadUndoesWrite(a, Header(columns));
    ReadUndoesWrite(b, Header(columns));
  }

  // ---- which values are read back --------------------------------------------------------

  /** What the reader can answer at all. */
  predicate IsReadable(c: Cell) {
    c.Bare? ==> IsBareText(c.token)
  }

  predicate AllReadable(cells: seq<Cell>) {
    forall i | 0 <= i < |cells| :: IsReadable(cells[i])
  }

  predicate IsReadableRow(cells: seq<Cell>) {
    cells != [Bare("")] && AllReadable(cells)
  }

  lemma {:induction false} ReadBareStops(s: string)
    ensures ',' !in ReadBare(s).value && ')' !in ReadBare(s).value
    ensures if ReadBare(s).value == "" then ReadBare(s).rest == s else s != "" && ReadBare(s).value[0] == s[0]
  {
    if s != "" && s[0] != ',' && s[0] != ')' {
      ReadBareStops(s[1..]);
    }
  }

  lemma ReadCellAnswers(s: string)
    ensures ReadCell(s).Some? ==> IsReadable(ReadCell(s).value.value)
    ensures ReadCell(s).Some? && ReadCell(s).value.value == Bare("") ==> ReadCell(s).value.rest == s
  {
    ReadBareStops(s);
  }

  lemma {:induction false} ReadCellsAnswer(s: string)
    ensures ReadCells(s).Some? ==> AllReadable(ReadCells(s).value.value)
    ensures ReadCells(s).Some? && ReadCells(s).value.value == [Bare("")] ==> StartsWith(s, ")")
    decreases |s|
  {
    ReadCellAnswers(s);
    var c := ReadCell(s);
    if c.Some? && !StartsWith(c.value.rest, ")") && StartsWith(c.value.rest, ", ") {
      ReadCellsAnswer(c.value.rest[2..]);
      CellsNotEmpty(c.value.rest[2..]);
    }
  }

  lemma CellsNotEmpty(s: string)
    ensures ReadCells(s).Some? ==> ReadCells(s).value.value != []
  {
  }

  lemma ReadRowAnswers(s: string)
    ensures ReadRow(s).Some? ==> IsReadableRow(ReadRow(s).value.value)
  {
    if StartsWith(s, "(") {
      LooksEmptyExactly(s);
      ReadCellsAnswer(s[1..]);
    }
  }

  lemma LooksEmptyExactly(s: string)
    requires StartsWith(s, "(")
    ensures StartsWith(s, "()") <==> StartsWith(s[1..], ")")
  {
    assert s[0] == s[..1][0];
    if StartsWith(s, "()") {
      assert s[1] == s[..2][1];
    }
    if StartsWith(s[1..], ")") {
      assert s[1] == s[1..][..1][0];
    }
  }

  lemma {:induction false} ReadRowsAnswer(s: string, header: string)
    ensures ReadRows(s, header).Some? ==>
      forall i | 0 <= i < |ReadRows(s, header).value| :: IsReadableRow(ReadRows(s, header).value[i])
    decreases |s|
  {
    if s != "" && StartsWith(s, header) {
      var row := ReadRow(s[|header|..]);
      ReadRowAnswers(s[|header|..]);
      if row.Some? && StartsWith(row.value.rest, ";\n") {
        ReadRowsAnswer(row.value.rest[2..], header);
      }
    }
  }

  lemma {:induction false} CellsAt(row: seq<Value>)
    ensures |CellsOf(row)| == |row| && forall i | 0 <= i < |row| :: CellsOf(row)[i] == CellOf(row[i])
  {
    if row != [] {
      CellsAt(row[1..]);
    }
  }

  lemma {:induction false} CellRowsAt(rows: seq<seq<Value>>)
    ensures |CellRows(rows)| == |rows| && forall i | 0 <= i < |rows| :: CellRows(rows)[i] == CellsOf(rows[i])
  {
    if rows != [] {
      CellRowsAt(rows[1..]);
    }
  }

  lemma ReadableIsPrintable(row: seq<Value>)
    requires IsReadableRow(CellsOf(row))
    ensures AllPrintable(row)
  {
    CellsAt(row);
    forall i | 0 <= i < |row| ensures IsPrintable(row[i]) {
      assert IsReadable(CellsOf(row)[i]);
    }
    assert row == [Other("")] ==> CellsOf(row) == [Bare("")];
  }

  /** A file is read back exactly when no value written without quotes has the text `NULL`, starts
      with a quote or holds a comma or closing parenthesis, and no row is one empty such value. */
  lemma ReadBackExactly(rows: seq<seq<Value>>, header: string)
    ensures ReadRows(Written(rows, header), header) == Some(CellRows(rows)) <==> IsExportable(rows)
  {
    if IsExportable(rows) {
      ReadUndoesWrite(rows, header);
    } else if ReadRows(Written(rows, header), header) == Some(CellRows(rows)) {
      ReadRowsAnswer(Written(rows, header), header);
      CellRowsAt(rows);
      forall i | 0 <= i < |rows| ensures AllPrintable(rows[i]) {
        assert IsReadableRow(CellRows(rows)[i]);
        ReadableIsPrintable(rows[i]);
      }
      assert false;
    }
  }

  // ---- whole statements ------------------------------------------------------------------

  datatype Insert = Insert(columns: seq<Cell>, cells: seq<Cell>)

  const OPENING := "INSERT INTO your_table_name ("

  /** A reader of INSERT statements, columns and values, that knows nothing of the writer. */
  function ReadInsert(s: string): (r: Option<Read<Insert>>)
    ensures r.Some? ==> |r.value.rest| < |s|
  {
    if !StartsWith(s, OPENING) then None
    else
      match ReadCells(s[|OPENING|..])
      case None => None
      case Some(columns) =>
        if !StartsWith(columns.rest, " VALUES ") then None
        else
          match ReadRow(columns.rest[|" VALUES "|..])
          case None => None
          case Some(row) =>
            if !StartsWith(row.rest, ";\n") then None else Some(Read(Insert(columns.value, row.value), row.rest[2..]))
  }

  function ReadInserts(s: string): Option<seq<Insert>>
    decreases |s|
  {
    if s == "" then Some([])
    else
      match ReadInsert(s)
      case None => None
      case Some(first) =>
        match ReadInserts(first.rest)
        case None => None
        case Some(more) => Some([first.value] + more)
  }

  /** Column names are read like values without quotes. */
  function Names(columns: seq<string>): seq<Value> {
    if columns == [] then [] else [Other(columns[0])] + Names(columns[1..])
  }

  lemma {:induction false} NamesLiterals(columns: seq<string>)
    ensures Literals(Names(columns)) == columns && |Names(columns)| == |columns|
    ensures forall i | 0 <= i < |columns| :: Names(columns)[i] == Other(columns[i])
  {
    if columns != [] {
      NamesLiterals(columns[1..]);
      assert Names(columns)[1..] == Names(columns[1..]);
    }
  }

  predicate AreColumns(columns: seq<string>) {
    columns != [] && forall i | 0 <= i < |columns| :: IsBareText(columns[i])
  }

  lemma ReadHeader(columns: seq<string>, rest: string)
    requires AreColumns(columns)
    ensures
      var text := Header(columns) + rest;
      && StartsWith(text, OPENING)
      && ReadCells(text[|OPENING|..]) == Some(Read(CellsOf(Names(columns)), " VALUES " + rest))
  {
    NamesLiterals(columns);
    var names := Join(columns, ", ");
    var after := names + (")" + (" VALUES " + rest));
    assert OPENING == "INSERT INTO your_table_name (";
    assert Header(columns) + rest == OPENING + after;
    ReadLiterals(Names(columns), " VALUES " + rest);
  }

  lemma ReadOneInsert(columns: seq<string>, row: seq<Value>, rest: string)
    requires AreColumns(columns) && AllPrintable(row)
    ensures ReadInsert(Header(columns) + (RowText(row) + rest))
         == Some(Read(Insert(CellsOf(Names(columns)), CellsOf(row)), rest))
  {
    var body := RowText(row) + rest;
    ReadHeader(columns, body);
    ReadRowText(row, rest);
    var after := " VALUES " + body;
    assert after[..|" VALUES "|] == " VALUES " && after[|" VALUES "|..] == body;
    var end := ";\n" + rest;
    assert end[..2] == ";\n" && end[2..] == rest;
  }

  function Inserts(columns: seq<string>, rows: seq<seq<Value>>): seq<Insert> {
    if rows == [] then [] else [Insert(CellsOf(Names(columns)), CellsOf(rows[0]))] + Inserts(columns, rows[1..])
  }

  /** Each statement of the file names the table and the columns and carries its row: a reader of
      INSERT statements gets back exactly the columns and rows, in order. */
  lemma {:induction false} StatementsReadBack(columns: seq<string>, rows: seq<seq<Value>>)
    requires AreColumns(columns) && IsExportable(rows)
    ensures ReadInserts(Written(rows, Header(columns))) == Some(Inserts(columns, rows))
  {
    if rows != [] {
      var more := Written(rows[1..], Header(columns));
      StatementsReadBack(columns, rows[1..]);
      WrittenHead(rows, Header(columns));
      ReadOneInsert(columns, rows[0], more);
    }
  }
}
