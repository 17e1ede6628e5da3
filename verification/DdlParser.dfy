/** The statement splitter in front of the online schema change: a submitted SQL text is cut
    at semicolons, comment and blank lines are dropped, and each statement is classified, with
    schema and table read off the head of ALTER TABLE and CREATE INDEX. */
module DdlParser {
  import opened Text
  import opened Pattern
  import opened Wrappers

  datatype Statement = Statement(kind: string, db: Option<string>, table: Option<string>, full: string)

  // ---- the two head patterns -------------------------------------------------------------

  const TICK := Chr('`')
  const NAME := Many(NotTickBlankDotParens, 1)

  /** A dot and a second name, the optional middle of the schema group. */
  const SECOND_NAME := Cat(Chr('.'), Cat(Maybe(TICK), Cat(NAME, Maybe(TICK))))

  /** What follows the first name inside the schema group, up to its closing dot. */
  const SCHEMA_REST := Cat(Maybe(SECOND_NAME), Cat(Maybe(TICK), Chr('.')))
  const SCHEMA := Grp(Schema, Cat(NAME, SCHEMA_REST))
  const TABLE_NAME := Cat(Maybe(TICK), Cat(Grp(Table, Many(NotTickBlankParen, 1)), Maybe(TICK)))
  const TARGET := Cat(Maybe(TICK), Cat(Maybe(SCHEMA), TABLE_NAME))

  const BLANKS := Many(Blank, 1)
  const ALTER_HEAD :=
    Cat(Many(Blank, 0), Cat(Lit("ALTER"), Cat(BLANKS, Cat(Lit("TABLE"), Cat(BLANKS, TARGET)))))

  const INDEX_KIND :=
    Maybe(Or(Cat(Lit("UNIQUE"), BLANKS), Or(Cat(Lit("FULLTEXT"), BLANKS), Cat(Lit("SPATIAL"), BLANKS))))
  const INDEX_NAME := Cat(Maybe(TICK), Cat(Many(NotTickBlank, 1), Maybe(TICK)))
  const USING := Maybe(Cat(Lit("USING"), Cat(BLANKS, Cat(Many(Word, 1), BLANKS))))
  const ON_TARGET := Cat(BLANKS, Cat(USING, Cat(Lit("ON"), Cat(BLANKS, TARGET))))
  const CREATE_INDEX_HEAD :=
    Cat(Many(Blank, 0), Cat(Lit("CREATE"), Cat(BLANKS, Cat(INDEX_KIND,
      Cat(Lit("INDEX"), Cat(BLANKS, Cat(INDEX_NAME, ON_TARGET)))))))

  // ---- classification --------------------------------------------------------------------

  function GroupOrEmpty(g: Groups, name: Group): string {
    if name in g then g[name] else ""
  }

  function DbOf(g: Groups): Option<string> {
    var db := StripChar(RStripChar(GroupOrEmpty(g, Schema), '.'), '`');
    if db == "" then None else Some(db)
  }

  function TableOf(g: Groups): string {
    StripChar(GroupOrEmpty(g, Table), '`')
  }

  /** The text up to the first blank. */
  function FirstWord(s: string): string {
    if s == "" || IsSpace(s[0]) then "" else [s[0]] + FirstWord(s[1..])
  }

  function OtherKind(cleaned: string): string {
    var word := RStripChar(UpperAll(FirstWord(LStrip(cleaned))), ';');
    if word in ["CREATE", "INSERT", "UPDATE", "DELETE", "USE"] then word else "OTHER"
  }

  function Classify(cleaned: string): Statement {
    var alter := MatchAtStart(ALTER_HEAD, cleaned);
    if alter.Matched? then
      Statement("ALTER", DbOf(alter.groups), Some(TableOf(alter.groups)), cleaned)
    else
      var index := MatchAtStart(CREATE_INDEX_HEAD, cleaned);
      if index.Matched? then
        Statement("ALTER", DbOf(index.groups), Some(TableOf(index.groups)), cleaned)
      else
        Statement(OtherKind(cleaned), None, None, cleaned)
  }

  // ---- the parse as a function of the text -----------------------------------------------

  /** How the parser treats lines that start with two hash signs: the original kept them. */
  datatype Version = Old | New

  /** Lines the parser leaves out: blank ones and comments. */
  predicate IsDropped(line: string, v: Version) {
    var stripped := Strip(line);
    StartsWith(stripped, "--") || (v == New && StartsWith(stripped, "##")) || stripped == ""
  }

  function Kept(lines: seq<string>, v: Version): seq<string> {
    if lines == [] then []
    else (if IsDropped(lines[0], v) then [] else [lines[0]]) + Kept(lines[1..], v)
  }

  function Clean(raw: string, v: Version): string {
    Strip(Join(Kept(Lines(raw), v), "\n"))
  }

  function RawStatements(pieces: seq<string>): seq<string> {
    if pieces == [] then []
    else (if Strip(pieces[0]) == "" then [] else [Strip(pieces[0])]) + RawStatements(pieces[1..])
  }

  /** The cleaned texts of the statements, in order. */
  function Fulls(raws: seq<string>, v: Version): seq<string> {
    if raws == [] then []
    else (if Clean(raws[0], v) == "" then [] else [Clean(raws[0], v)]) + Fulls(raws[1..], v)
  }

  function ClassifyAll(fulls: seq<string>): seq<Statement> {
    if fulls == [] then [] else [Classify(fulls[0])] + ClassifyAll(fulls[1..])
  }

  function FullsOf(text: string, v: Version): seq<string> {
    Fulls(RawStatements(Split(text, ';')), v)
  }

  function Parse(text: string, v: Version): seq<Statement> {
    ClassifyAll(FullsOf(text, v))
  }

  // ---- the parser ------------------------------------------------------------------------

  lemma {:induction false} KeptConcat(a: seq<string>, b: seq<string>, v: Version)
    ensures Kept(a + b, v) == Kept(a, v) + Kept(b, v)
  {
    if a == [] {
      assert a + b == b;
    } else {
      assert (a + b)[1..] == a[1..] + b;
      KeptConcat(a[1..], b, v);
    }
  }

  lemma {:induction false} FullsConcat(a: seq<string>, b: seq<string>, v: Version)
    ensures Fulls(a + b, v) == Fulls(a, v) + Fulls(b, v)
  {
    if a == [] {
      assert a + b == b;
    } else {
      assert (a + b)[1..] == a[1..] + b;
      FullsConcat(a[1..], b, v);
    }
  }

  lemma {:induction false} ClassifyAllConcat(a: seq<string>, b: seq<string>)
    ensures ClassifyAll(a + b) == ClassifyAll(a) + ClassifyAll(b)
  {
    if a == [] {
      assert a + b == b;
    } else {
      assert (a + b)[1..] == a[1..] + b;
      ClassifyAllConcat(a[1..], b);
    }
  }

  lemma ParseStep(raws: seq<string>, r: nat, v: Version)
    requires r < |raws|
    ensures ClassifyAll(Fulls(raws[..r + 1], v)) == ClassifyAll(Fulls(raws[..r], v))
      + if Clean(raws[r], v) == "" then [] else [Classify(Clean(raws[r], v))]
  {
    assert raws[..r + 1] == raws[..r] + [raws[r]];
    FullsConcat(raws[..r], [raws[r]], v);
    ClassifyAllConcat(Fulls(raws[..r], v), Fulls([raws[r]], v));
  }

  lemma EmptyText(v: Version)
    ensures Parse("", v) == []
  {
    assert Split("", ';') == [""];
  }

  /** The inner loop: the lines of one piece that are neither blank nor comments. */
  method KeepLines(raw: string, v: Version) returns (lines: seq<string>)
    ensures lines == Kept(Lines(raw), v)
  {
    lines := [];
    var all := Lines(raw);
    for l := 0 to |all|
      invariant lines == Kept(all[..l], v)
    {
      assert all[..l + 1] == all[..l] + [all[l]];
      KeptConcat(all[..l], [all[l]], v);
      var stripped := Strip(all[l]);
      if StartsWith(stripped, "--") || (v == New && StartsWith(stripped, "##")) || stripped == "" {
        continue;
      }
      lines := lines + [all[l]];
    }
    assert all[..|all|] == all;
  }

  /** `_parse_all_statements` in both versions, which differ in one test of the inner loop. */
  method ParseAllStatements(sqlContent: string, v: Version) returns (statements: seq<Statement>)
    ensures statements == Parse(sqlContent, v)
  {
    statements := [];
    if sqlContent == "" {
      EmptyText(v);
      return;
    }
    var raws := RawStatements(Split(sqlContent, ';'));
    for r := 0 to |raws|
      invariant statements == ClassifyAll(Fulls(raws[..r], v))
    {
      ParseStep(raws, r, v);
      var lines := KeepLines(raws[r], v);
      var cleaned := Strip(Join(lines, "\n"));
      assert cleaned == Clean(raws[r], v);
      if cleaned == "" {
        continue;
      }
      statements := statements + [Classify(cleaned)];
    }
    assert raws[..|raws|] == raws;
  }
}
