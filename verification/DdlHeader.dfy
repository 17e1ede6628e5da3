/** Reading the head of a DDL statement undoes writing it: every spelling of the target of
    ALTER TABLE or CREATE INDEX gives back exactly the schema and table it was written from,
    although the pattern's optional schema group first tries to take more. */
module DdlHeader {
  import opened Text
  import opened Pattern
  import opened DdlParser
  import opened Wrappers

  // ---- how a target is written -----------------------------------------------------------

  datatype Target = Target(db: Option<string>, dbTicked: bool, table: string, tableTicked: bool)

  /** An identifier without backtick, blank, dot or parenthesis. */
  predicate IsPlain(name: string) {
    name != "" && forall j | 0 <= j < |name| :: InClass(NotTickBlankDotParens, name[j])
  }

  function Written(name: string, ticked: bool): string {
    if ticked then "`" + name + "`" else name
  }

  function WrittenTarget(t: Target): string {
    (if t.db.Some? then Written(t.db.value, t.dbTicked) + "." else "") + Written(t.table, t.tableTicked)
  }

  /** Blanks between two words. */
  predicate IsGap(b: string) {
    b != "" && IsBlank(b)
  }

  /** No dot here, nor behind a backtick here. */
  predicate NoDotAt(s: string, p: nat)
    requires p <= |s|
  {
    (p < |s| ==> s[p] != '.') && (p + 1 < |s| && s[p] == '`' ==> s[p + 1] != '.')
  }

  /** What may follow a name: the end, a blank or an opening parenthesis; behind a closing
      backtick, all that does not make the name a schema. */
  predicate EndsName(s: string, p: nat, ticked: bool)
    requires p <= |s|
  {
    if ticked then NoDotAt(s, p) else p == |s| || IsSpace(s[p]) || s[p] == '('
  }

  predicate EndsTarget(t: Target, tail: string) {
    EndsName(tail, 0, t.tableTicked)
  }

  /** A table name: all but backtick, blank and opening parenthesis. */
  predicate IsTableName(name: string) {
    name != "" && forall j | 0 <= j < |name| :: InClass(NotTickBlankParen, name[j])
  }

  /** A schema name: a plain identifier, or two joined by a dot, the second one perhaps behind a
      backtick that is never closed. */
  predicate IsSchemaName(name: string) {
    var n := Run(NotTickBlankDotParens, name, 0);
    n > 0 && (n == |name| || (name[n] == '.' && IsPlain(Unticked(name[n + 1..]))))
  }

  function Unticked(name: string): string {
    if name != "" && name[0] == '`' then name[1..] else name
  }

  /** A table in backticks that the pattern takes apart: a plain identifier, a dot and something
      to take for the table, in the name or behind the closing backtick. */
  predicate LooksQualified(table: string, tail: string) {
    var n := Run(NotTickBlankDotParens, table, 0);
    && 0 < n < |table| && table[n] == '.'
    && (n + 1 < |table| || (tail != "" && InClass(NotTickBlankParen, tail[0])))
  }

  /** The targets the head gives back, from what is written and what follows. */
  predicate IsReadBack(t: Target, tail: string) {
    && EndsTarget(t, tail)
    && match t.db
       case None => if t.tableTicked then IsTableName(t.table) && !LooksQualified(t.table, tail) else IsPlain(t.table)
       case Some(db) =>
         if t.dbTicked then IsSchemaName(db) && IsTableName(t.table) else IsPlain(db) && IsPlain(t.table)
  }

  predicate At(s: string, i: nat, t: string) {
    i + |t| <= |s| && s[i..i + |t|] == t
  }

  lemma AtChars(s: string, i: nat, t: string)
    requires At(s, i, t)
    ensures forall p | i <= p < i + |t| :: s[p] == t[p - i]
  {
    forall p | i <= p < i + |t| ensures s[p] == t[p - i] {
      assert s[i..i + |t|][p - i] == s[p];
    }
  }

  lemma AtParts(s: string, i: nat, t: string, u: string)
    requires At(s, i, t + u)
    ensures At(s, i, t) && At(s, i + |t|, u)
  {
    assert s[i..i + |t|] == s[i..i + |t + u|][..|t|] == (t + u)[..|t|];
    assert s[i + |t|..i + |t| + |u|] == s[i..i + |t + u|][|t|..] == (t + u)[|t|..];
  }

  // ---- single characters -----------------------------------------------------------------

  lemma TickAndDot(c: char)
    ensures SameLetter(c, '`') <==> c == '`'
    ensures SameLetter(c, '.') <==> c == '.'
  {
  }

  /** An optional backtick that is there is taken first. */
  lemma TickTaken(k: Cont, s: string, i: nat, g: Groups)
    requires i < |s| && s[i] == '`' && Resume(k, s, i + 1, g).Matched?
    ensures Match(Maybe(TICK), k, s, i, g) == Resume(k, s, i + 1, g)
  {
    TickAndDot(s[i]);
    assert Match(TICK, k, s, i, g) == Resume(k, s, i + 1, g);
  }

  lemma TickAbsent(k: Cont, s: string, i: nat, g: Groups)
    requires i <= |s| && (i < |s| ==> s[i] != '`')
    ensures Match(Maybe(TICK), k, s, i, g) == Resume(k, s, i, g)
  {
    if i < |s| {
      TickAndDot(s[i]);
    }
    assert Match(TICK, k, s, i, g).NoMatch?;
    assert Match(Empty, k, s, i, g) == Resume(k, s, i, g);
  }

  lemma TickFails(k: Cont, s: string, i: nat, g: Groups)
    requires i <= |s| && Resume(k, s, i, g).NoMatch?
    requires i < |s| && s[i] == '`' ==> Resume(k, s, i + 1, g).NoMatch?
    ensures Match(Maybe(TICK), k, s, i, g).NoMatch?
  {
    if i < |s| {
      TickAndDot(s[i]);
    }
    assert Match(TICK, k, s, i, g).NoMatch?;
    assert Match(Empty, k, s, i, g) == Resume(k, s, i, g);
  }

  // ---- the table -------------------------------------------------------------------------

  lemma TableMatches(s: string, i: nat, name: string, g: Groups)
    requires IsTableName(name) && At(s, i, name)
    requires i + |name| < |s| ==> !InClass(NotTickBlankParen, s[i + |name|])
    ensures Match(TABLE_NAME, Halt, s, i, g) == Matched(g[Table := name])
  {
    AtChars(s, i, name);
    var body := Cat(Grp(Table, Many(NotTickBlankParen, 1)), Maybe(TICK));
    TickAbsent(Then(body, Halt), s, i, g);
    TableBody(s, i, name, g);
  }

  lemma TableBody(s: string, i: nat, name: string, g: Groups)
    requires IsTableName(name) && At(s, i, name)
    requires i + |name| < |s| ==> !InClass(NotTickBlankParen, s[i + |name|])
    ensures Match(Cat(Grp(Table, Many(NotTickBlankParen, 1)), Maybe(TICK)), Halt, s, i, g)
         == Matched(g[Table := name])
  {
    AtChars(s, i, name);
    var e, g' := i + |name|, g[Table := name];
    var rest := Then(Maybe(TICK), Halt);
    assert Match(Maybe(TICK), Halt, s, e, g') == Matched(g') by {
      if e < |s| && s[e] == '`' {
        TickTaken(Halt, s, e, g');
      } else {
        TickAbsent(Halt, s, e, g');
      }
    }
    assert Resume(rest, s, e, g') == Matched(g');
    assert Resume(Close(Table, i, rest), s, e, g) == Matched(g');
    RunTakenWhole(NotTickBlankParen, 1, |name|, Close(Table, i, rest), s, i, g);
  }

  lemma TickedTableMatches(s: string, i: nat, name: string, g: Groups)
    requires IsTableName(name) && At(s, i, Written(name, true))
    ensures Match(TABLE_NAME, Halt, s, i, g) == Matched(g[Table := name])
  {
    AtChars(s, i, Written(name, true));
    AtParts(s, i, "`" + name, "`");
    AtParts(s, i, "`", name);
    var body := Cat(Grp(Table, Many(NotTickBlankParen, 1)), Maybe(TICK));
    TableBody(s, i + 1, name, g);
    assert Resume(Then(body, Halt), s, i + 1, g) == Matched(g[Table := name]);
    TickTaken(Then(body, Halt), s, i, g);
  }

  // ---- where the schema group fails ------------------------------------------------------

  const DOT_END := Cat(Maybe(TICK), Chr('.'))

  lemma DotEndFails(k: Cont, s: string, p: nat, g: Groups)
    requires p <= |s| && NoDotAt(s, p)
    ensures Match(DOT_END, k, s, p, g).NoMatch?
  {
    forall q | p <= q <= p + 1 && q <= |s| && (q < |s| ==> s[q] != '.')
      ensures Resume(Then(Chr('.'), k), s, q, g).NoMatch?
    {
      if q < |s| {
        TickAndDot(s[q]);
      }
      assert Match(Chr('.'), k, s, q, g).NoMatch?;
    }
    TickFails(Then(Chr('.'), k), s, p, g);
  }

  lemma SchemaRestFails(k: Cont, s: string, p: nat, g: Groups)
    requires p <= |s| && NoDotAt(s, p)
    ensures Match(SCHEMA_REST, k, s, p, g).NoMatch?
  {
    if p < |s| {
      TickAndDot(s[p]);
    }
    var rest := Then(DOT_END, k);
    assert Match(SECOND_NAME, rest, s, p, g).NoMatch? by {
      var tail := Cat(Maybe(TICK), Cat(NAME, Maybe(TICK)));
      assert Match(Chr('.'), Then(tail, rest), s, p, g).NoMatch?;
    }
    DotEndFails(k, s, p, g);
    assert Match(Empty, rest, s, p, g) == Resume(rest, s, p, g);
    assert Match(Maybe(SECOND_NAME), rest, s, p, g).NoMatch?;
  }

  /** A name that no dot follows is not a schema. */
  lemma NoSchema(k: Cont, s: string, i: nat, name: string, g: Groups)
    requires IsPlain(name) && At(s, i, name)
    requires NoDotAt(s, i + |name|)
    requires i + |name| < |s| ==> !InClass(NotTickBlankDotParens, s[i + |name|])
    ensures Match(SCHEMA, k, s, i, g).NoMatch?
  {
    AtChars(s, i, name);
    var close := Close(Schema, i, k);
    RunIs(NotTickBlankDotParens, |name|, s, i);
    forall p | i + 1 <= p <= i + |name|
      ensures Resume(Then(SCHEMA_REST, close), s, p, g).NoMatch?
    {
      SchemaRestFails(close, s, p, g);
    }
    RunFails(NotTickBlankDotParens, 1, Then(SCHEMA_REST, close), s, i, g);
    assert Match(Cat(NAME, SCHEMA_REST), close, s, i, g).NoMatch?;
  }

  // ---- where it first takes too much -----------------------------------------------------

  /** The optional second name swallows the table and then finds no dot. */
  lemma SecondNameFails(k: Cont, s: string, p: nat, table: string, ticked: bool, g: Groups)
    requires p < |s| && s[p] == '.' && IsPlain(table) && At(s, p + 1, Written(table, ticked))
    requires EndsName(s, p + 1 + |Written(table, ticked)|, ticked)
    ensures Match(SECOND_NAME, Then(DOT_END, k), s, p, g).NoMatch?
  {
    TickAndDot(s[p]);
    var rest := Then(DOT_END, k);
    var name := Cat(NAME, Maybe(TICK));
    AtChars(s, p + 1, Written(table, ticked));
    if ticked {
      AtParts(s, p + 1, "`" + table, "`");
      AtParts(s, p + 1, "`", table);
      NameThenNoDot(k, s, p + 2, table, g);
      RunIs(NotTickBlankDotParens, 0, s, p + 1);
      assert Match(NAME, Then(Maybe(TICK), rest), s, p + 1, g).NoMatch?;
    } else {
      NameThenNoDot(k, s, p + 1, table, g);
    }
    assert Resume(Then(name, rest), s, p + 1, g) == Match(name, rest, s, p + 1, g);
    TickFails(Then(name, rest), s, p + 1, g);
    var tail := Cat(Maybe(TICK), name);
    assert Match(tail, rest, s, p + 1, g).NoMatch?;
    assert Resume(Then(tail, rest), s, p + 1, g).NoMatch?;
    assert Match(Chr('.'), Then(tail, rest), s, p, g) == Resume(Then(tail, rest), s, p + 1, g);
  }

  lemma NameThenNoDot(k: Cont, s: string, i: nat, name: string, g: Groups)
    requires IsPlain(name) && At(s, i, name)
    requires
      var e := i + |name|;
      EndsName(s, e, false) || (e < |s| && s[e] == '`' && EndsName(s, e + 1, true))
    ensures Match(Cat(NAME, Maybe(TICK)), Then(DOT_END, k), s, i, g).NoMatch?
  {
    AtChars(s, i, name);
    var rest := Then(DOT_END, k);
    RunIs(NotTickBlankDotParens, |name|, s, i);
    forall q | i + 1 <= q <= i + |name|
      ensures Resume(Then(Maybe(TICK), rest), s, q, g).NoMatch?
    {
      DotEndFails(k, s, q, g);
      if q < |s| && s[q] == '`' {
        DotEndFails(k, s, q + 1, g);
      }
      TickFails(rest, s, q, g);
    }
    RunFails(NotTickBlankDotParens, 1, Then(Maybe(TICK), rest), s, i, g);
  }

  // ---- where the schema group matches ----------------------------------------------------

  /** After a name comes a dot, with or without a backtick before it. */
  lemma DotEndMatches(k: Cont, s: string, p: nat, ticked: bool, g: Groups)
    requires At(s, p, if ticked then "`." else ".")
    requires Resume(k, s, p + if ticked then 2 else 1, g).Matched?
    ensures Match(DOT_END, k, s, p, g) == Resume(k, s, p + if ticked then 2 else 1, g)
  {
    AtChars(s, p, if ticked then "`." else ".");
    var dot := Then(Chr('.'), k);
    if ticked {
      TickAndDot(s[p + 1]);
      assert Resume(dot, s, p + 1, g) == Match(Chr('.'), k, s, p + 1, g) == Resume(k, s, p + 2, g);
      TickTaken(dot, s, p, g);
    } else {
      TickAndDot(s[p]);
      assert Resume(dot, s, p, g) == Match(Chr('.'), k, s, p, g) == Resume(k, s, p + 1, g);
      TickAbsent(dot, s, p, g);
    }
  }

  lemma SchemaMatches(k: Cont, s: string, i: nat, db: string, table: string, ticked: bool, g: Groups)
    requires IsPlain(db) && IsPlain(table) && At(s, i, db + "." + Written(table, ticked))
    requires EndsName(s, i + |db + "." + Written(table, ticked)|, ticked)
    requires Resume(k, s, i + |db| + 1, g[Schema := db + "."]).Matched?
    ensures Match(SCHEMA, k, s, i, g) == Resume(k, s, i + |db| + 1, g[Schema := db + "."])
  {
    AtParts(s, i, db + ".", Written(table, ticked));
    AtParts(s, i, db, ".");
    AtChars(s, i, db);
    var p := i + |db|;
    AtChars(s, p, ".");
    var j := p + 1;
    assert s[i..j] == db + ".";
    var close := Close(Schema, i, k);
    assert Resume(close, s, j, g) == Resume(k, s, j, g[Schema := db + "."]);
    var rest := Then(DOT_END, close);
    SecondNameFails(close, s, p, table, ticked, g);
    DotEndMatches(close, s, p, false, g);
    assert Match(Empty, rest, s, p, g) == Resume(rest, s, p, g) == Resume(close, s, j, g);
    assert Match(Maybe(SECOND_NAME), rest, s, p, g) == Resume(close, s, j, g);
    assert Match(SCHEMA_REST, close, s, p, g) == Resume(close, s, j, g);
    assert Resume(Then(SCHEMA_REST, close), s, p, g) == Resume(close, s, j, g);
    RunTakenWhole(NotTickBlankDotParens, 1, |db|, Then(SCHEMA_REST, close), s, i, g);
    assert Match(Cat(NAME, SCHEMA_REST), close, s, i, g) == Resume(close, s, j, g);
  }

  // ---- the target ------------------------------------------------------------------------

  const SCHEMA_AND_TABLE := Cat(Maybe(SCHEMA), TABLE_NAME)

  function AfterName(ticked: bool): string {
    if ticked then "`." else "."
  }

  function GroupsOf(t: Target): Groups {
    if t.db.Some? then map[Schema := t.db.value + AfterName(t.dbTicked), Table := t.table]
    else map[Table := t.table]
  }

  /** A table alone, its opening backtick already taken if it has one. */
  lemma TableOnly(s: string, i: nat, table: string)
    requires IsPlain(table) && At(s, i, table)
    requires
      var e := i + |table|;
      EndsName(s, e, false) || (e < |s| && s[e] == '`' && EndsName(s, e + 1, true))
    ensures Match(SCHEMA_AND_TABLE, Halt, s, i, map[]) == Matched(map[Table := table])
  {
    var k := Then(TABLE_NAME, Halt);
    NoSchema(k, s, i, table, map[]);
    TableMatches(s, i, table, map[]);
    assert Match(Empty, k, s, i, map[]) == Resume(k, s, i, map[]);
  }

  /** A schema without backticks and a table. */
  lemma SchemaAndTable(s: string, i: nat, db: string, table: string, ticked: bool)
    requires IsPlain(db) && IsPlain(table) && At(s, i, db + "." + Written(table, ticked))
    requires EndsName(s, i + |db + "." + Written(table, ticked)|, ticked)
    ensures Match(SCHEMA_AND_TABLE, Halt, s, i, map[]) == Matched(map[Schema := db + ".", Table := table])
  {
    var k := Then(TABLE_NAME, Halt);
    var front := db + ".";
    var j, g := i + |front|, map[Schema := front];
    AtParts(s, i, front, Written(table, ticked));
    if ticked {
      TickedTableMatches(s, j, table, g);
    } else {
      TableMatches(s, j, table, g);
    }
    assert g[Table := table] == map[Schema := front, Table := table];
    assert map[][Schema := front] == g;
    assert Resume(k, s, j, g) == Matched(g[Table := table]);
    SchemaMatches(k, s, i, db, table, ticked, map[]);
  }

  /** The optional opening backtick of a target, taken or absent. */
  lemma OpeningTick(ticked: bool, s: string, i: nat, groups: Groups)
    requires i < |s| && (s[i] == '`' <==> ticked)
    requires Match(SCHEMA_AND_TABLE, Halt, s, if ticked then i + 1 else i, map[]) == Matched(groups)
    ensures Match(TARGET, Halt, s, i, map[]) == Matched(groups)
  {
    var k := Then(SCHEMA_AND_TABLE, Halt);
    if ticked {
      TickTaken(k, s, i, map[]);
    } else {
      TickAbsent(k, s, i, map[]);
    }
  }

  // ---- targets in backticks --------------------------------------------------------------

  lemma RunIsMaximal(cls: Class, name: string, s: string, i: nat)
    requires At(s, i, name) && Run(cls, name, 0) < |name|
    ensures Run(cls, s, i) == Run(cls, name, 0)
  {
    AtChars(s, i, name);
    RunIs(cls, Run(cls, name, 0), s, i);
  }

  /** A plain identifier and a dot, then a closing backtick and nothing to take for the table. */
  lemma TrailingDotFails(s: string, i: nat, n: nat)
    requires n > 0 && i + n + 1 < |s| && Run(NotTickBlankDotParens, s, i) == n && s[i + n] == '.' && s[i + n + 1] == '`'
    requires i + n + 2 < |s| ==> !InClass(NotTickBlankParen, s[i + n + 2])
    ensures Match(SCHEMA, Then(TABLE_NAME, Halt), s, i, map[]).NoMatch?
  {
    var k := Then(TABLE_NAME, Halt);
    var close := Close(Schema, i, k);
    forall p | i + 1 <= p <= i + n
      ensures Resume(Then(SCHEMA_REST, close), s, p, map[]).NoMatch?
    {
      if p < i + n {
        SchemaRestFails(close, s, p, map[]);
      } else {
        TrailingRestFails(s, i, p);
      }
    }
    RunFails(NotTickBlankDotParens, 1, Then(SCHEMA_REST, close), s, i, map[]);
    assert Match(Cat(NAME, SCHEMA_REST), close, s, i, map[]).NoMatch?;
  }

  lemma NothingFails(cls: Class, k: Cont, s: string, p: nat, g: Groups)
    requires p <= |s| && (p < |s| ==> !InClass(cls, s[p]))
    ensures Match(Many(cls, 1), k, s, p, g).NoMatch?
  {
    RunIs(cls, 0, s, p);
  }

  lemma TrailingRestFails(s: string, i: nat, p: nat)
    requires i <= p && p + 1 < |s| && s[p] == '.' && s[p + 1] == '`'
    requires p + 2 < |s| ==> !InClass(NotTickBlankParen, s[p + 2])
    ensures Match(SCHEMA_REST, Close(Schema, i, Then(TABLE_NAME, Halt)), s, p, map[]).NoMatch?
  {
    var close := Close(Schema, i, Then(TABLE_NAME, Halt));
    var rest := Then(DOT_END, close);
    TickAndDot(s[p]);
    SecondNameMissing(rest, s, p);
    var g := map[Schema := s[i..p + 1]];
    assert map[][Schema := s[i..p + 1]] == g;
    NoTableBehindTick(s, p + 1, g);
    assert Resume(close, s, p + 1, map[]) == Match(TABLE_NAME, Halt, s, p + 1, g);
    assert Match(Chr('.'), close, s, p, map[]).NoMatch?;
    TickAbsent(Then(Chr('.'), close), s, p, map[]);
    assert Match(DOT_END, close, s, p, map[]).NoMatch?;
    assert Match(Empty, rest, s, p, map[]) == Resume(rest, s, p, map[]);
    assert Match(Maybe(SECOND_NAME), rest, s, p, map[]).NoMatch?;
  }

  lemma SecondNameMissing(k: Cont, s: string, p: nat)
    requires p + 1 < |s| && s[p] == '.' && s[p + 1] == '`'
    requires p + 2 < |s| ==> !InClass(NotTickBlankParen, s[p + 2])
    ensures Match(SECOND_NAME, k, s, p, map[]).NoMatch?
  {
    var name := Cat(NAME, Maybe(TICK));
    var tail := Cat(Maybe(TICK), name);
    TickAndDot(s[p]);
    NothingFails(NotTickBlankDotParens, Then(Maybe(TICK), k), s, p + 1, map[]);
    NothingFails(NotTickBlankDotParens, Then(Maybe(TICK), k), s, p + 2, map[]);
    assert Match(name, k, s, p + 1, map[]).NoMatch? && Match(name, k, s, p + 2, map[]).NoMatch?;
    TickFails(Then(name, k), s, p + 1, map[]);
    assert Match(tail, k, s, p + 1, map[]).NoMatch?;
    assert Match(Chr('.'), Then(tail, k), s, p, map[]).NoMatch?;
  }

  lemma NoTableBehindTick(s: string, p: nat, g: Groups)
    requires p < |s| && s[p] == '`'
    requires p + 1 < |s| ==> !InClass(NotTickBlankParen, s[p + 1])
    ensures Match(TABLE_NAME, Halt, s, p, g).NoMatch?
  {
    var body := Cat(Grp(Table, Many(NotTickBlankParen, 1)), Maybe(TICK));
    NoTableBody(s, p, g);
    NoTableBody(s, p + 1, g);
    TickFails(Then(body, Halt), s, p, g);
  }

  lemma NoTableBody(s: string, p: nat, g: Groups)
    requires p <= |s| && (p < |s| ==> !InClass(NotTickBlankParen, s[p]))
    ensures Match(Cat(Grp(Table, Many(NotTickBlankParen, 1)), Maybe(TICK)), Halt, s, p, g).NoMatch?
  {
    var rest := Then(Maybe(TICK), Halt);
    NothingFails(NotTickBlankParen, Close(Table, p, rest), s, p, g);
    assert Match(Grp(Table, Many(NotTickBlankParen, 1)), rest, s, p, g).NoMatch?;
  }

  /** A table in backticks, the opening one already taken. */
  lemma TickedTableOnly(s: string, i: nat, table: string, tail: string)
    requires IsTableName(table) && !LooksQualified(table, tail) && NoDotAt(tail, 0)
    requires Rest(s, i, table + ("`" + tail))
    ensures Match(SCHEMA_AND_TABLE, Halt, s, i, map[]) == Matched(map[Table := table])
  {
    var k := Then(TABLE_NAME, Halt);
    RestParts(s, i, table, "`" + tail);
    var e := i + |table|;
    assert s[e] == s[e..][0] == '`';
    assert s[e + 1..] == s[e..][1..] == tail;
    assert e + 1 < |s| ==> s[e + 1] == tail[0];
    NotASchema(s, i, table, tail);
    TableMatches(s, i, table, map[]);
    assert Match(Empty, k, s, i, map[]) == Resume(k, s, i, map[]);
  }

  lemma NotASchema(s: string, i: nat, table: string, tail: string)
    requires IsTableName(table) && !LooksQualified(table, tail) && NoDotAt(tail, 0)
    requires
      var e := i + |table|;
      && At(s, i, table) && e < |s| && s[e] == '`'
      && (e + 1 < |s| <==> tail != "") && (e + 1 < |s| ==> s[e + 1] == tail[0])
    ensures Match(SCHEMA, Then(TABLE_NAME, Halt), s, i, map[]).NoMatch?
  {
    var k, n := Then(TABLE_NAME, Halt), Run(NotTickBlankDotParens, table, 0);
    AtChars(s, i, table);
    if n == |table| {
      NoSchema(k, s, i, table, map[]);
    } else {
      RunIsMaximal(NotTickBlankDotParens, table, s, i);
      assert InClass(NotTickBlankParen, table[n]) && s[i + n] == table[n];
      if n == 0 {
        var close := Close(Schema, i, k);
        NothingFails(NotTickBlankDotParens, Then(SCHEMA_REST, close), s, i, map[]);
        assert Match(Cat(NAME, SCHEMA_REST), close, s, i, map[]).NoMatch?;
      } else if table[n] == '.' {
        TrailingDotFails(s, i, n);
      } else {
        assert s[i..i + n] == table[..n];
        NoSchema(k, s, i, table[..n], map[]);
      }
    }
  }

  lemma SchemaNameParts(db: string) returns (first: string, second: Option<string>)
    requires IsSchemaName(db)
    ensures IsPlain(first)
    ensures
      match second
      case None => db == first
      case Some(name) => db == first + ("." + name) && name != "" && IsPlain(Unticked(name))
  {
    var n := Run(NotTickBlankDotParens, db, 0);
    first := db[..n];
    if n == |db| {
      second := None;
    } else {
      second := Some(db[n + 1..]);
      assert db == db[..n] + ([db[n]] + db[n + 1..]);
    }
  }

  /** A whole name and what the schema group has behind it. */
  lemma NameAndRest(close: Cont, s: string, i: nat, name: string, j: nat, g: Groups)
    requires IsPlain(name) && At(s, i, name) && j <= |s|
    requires close.Close? && close.name == Schema && close.start == i
    requires
      var p := i + |name|;
      && p < |s| && !InClass(NotTickBlankDotParens, s[p])
      && Match(SCHEMA_REST, close, s, p, g) == Resume(close, s, j, g) && Resume(close, s, j, g).Matched?
    ensures Match(SCHEMA, close.next, s, i, g) == Resume(close, s, j, g)
  {
    var p := i + |name|;
    AtChars(s, i, name);
    assert Resume(Then(SCHEMA_REST, close), s, p, g) == Resume(close, s, j, g);
    RunTakenWhole(NotTickBlankDotParens, 1, |name|, Then(SCHEMA_REST, close), s, i, g);
    assert Match(Cat(NAME, SCHEMA_REST), close, s, i, g) == Resume(close, s, j, g);
  }

  lemma PlainSchemaMatches(close: Cont, s: string, i: nat, db: string, g: Groups)
    requires IsPlain(db) && At(s, i, db + "`.")
    requires close.Close? && close.name == Schema && close.start == i
    requires Resume(close, s, i + |db| + 2, g).Matched?
    ensures Match(SCHEMA, close.next, s, i, g) == Resume(close, s, i + |db| + 2, g)
  {
    AtParts(s, i, db, "`.");
    AtChars(s, i + |db|, "`.");
    PlainSchemaEnds(close, s, i + |db|, g);
    NameAndRest(close, s, i, db, i + |db| + 2, g);
  }

  lemma JoinedSchemaMatches(close: Cont, s: string, i: nat, first: string, tick: bool, second: string, g: Groups)
    requires IsPlain(first) && IsPlain(second) && At(s, i, first) && IsSecond(s, i + |first|, tick, second)
    requires close.Close? && close.name == Schema && close.start == i
    requires Resume(close, s, SecondEnd(i + |first|, tick, second) + 2, g).Matched?
    ensures Match(SCHEMA, close.next, s, i, g) == Resume(close, s, SecondEnd(i + |first|, tick, second) + 2, g)
  {
    JoinedSchemaEnds(close, s, i + |first|, tick, second, g);
    NameAndRest(close, s, i, first, SecondEnd(i + |first|, tick, second) + 2, g);
  }

  lemma CloseTaken(k: Cont, s: string, i: nat, text: string, g: Groups)
    requires At(s, i, text)
    ensures Resume(Close(Schema, i, k), s, i + |text|, g) == Resume(k, s, i + |text|, g[Schema := text])
  {
  }

  lemma SchemaNameMatches(close: Cont, s: string, i: nat, db: string, j: nat, g: Groups)
    requires IsSchemaName(db) && At(s, i, db + "`.") && j == i + |db + "`."|
    requires close.Close? && close.name == Schema && close.start == i && Resume(close, s, j, g).Matched?
    ensures Match(SCHEMA, close.next, s, i, g) == Resume(close, s, j, g)
  {
    var first, second := SchemaNameParts(db);
    match second
    case None =>
      PlainSchemaMatches(close, s, i, db, g);
    case Some(name) =>
      JoinedNameMatches(close, s, i, first, name, j, g);
  }

  lemma JoinedNameMatches(close: Cont, s: string, i: nat, first: string, name: string, j: nat, g: Groups)
    requires IsPlain(first) && name != "" && IsPlain(Unticked(name)) && At(s, i, first + ("." + name) + "`.")
    requires j == i + |first| + |name| + 3
    requires close.Close? && close.name == Schema && close.start == i && Resume(close, s, j, g).Matched?
    ensures Match(SCHEMA, close.next, s, i, g) == Resume(close, s, j, g)
  {
    JoinedPlaces(s, i, first, name);
    JoinedSchemaMatches(close, s, i, first, name[0] == '`', Unticked(name), g);
  }

  /** A schema in backticks, the opening one already taken, before something that matches. */
  lemma TickedSchemaMatches(k: Cont, s: string, i: nat, db: string, g: Groups)
    requires IsSchemaName(db) && At(s, i, db + "`.")
    requires Resume(k, s, i + |db + "`."|, g[Schema := db + "`."]).Matched?
    ensures Match(SCHEMA, k, s, i, g) == Resume(k, s, i + |db + "`."|, g[Schema := db + "`."])
  {
    CloseTaken(k, s, i, db + "`.", g);
    SchemaNameMatches(Close(Schema, i, k), s, i, db, i + |db + "`."|, g);
  }

  lemma JoinedPlaces(s: string, i: nat, first: string, name: string)
    requires name != "" && At(s, i, first + ("." + name) + "`.")
    ensures
      var p, tick := i + |first|, name[0] == '`';
      && At(s, i, first) && IsSecond(s, p, tick, Unticked(name))
      && SecondEnd(p, tick, Unticked(name)) == p + 1 + |name|
  {
    var tick := name[0] == '`';
    assert first + ("." + name) + "`." == first + ("." + name + "`.");
    AtParts(s, i, first, "." + name + "`.");
    assert name == (if tick then "`" else "") + Unticked(name);
    SecondPlaces(s, i + |first|, tick, Unticked(name));
  }

  lemma PlainSchemaEnds(k: Cont, s: string, p: nat, g: Groups)
    requires At(s, p, "`.") && Resume(k, s, p + 2, g).Matched?
    ensures Match(SCHEMA_REST, k, s, p, g) == Resume(k, s, p + 2, g)
  {
    AtChars(s, p, "`.");
    var rest := Then(DOT_END, k);
    TickAndDot(s[p]);
    var tail := Cat(Maybe(TICK), Cat(NAME, Maybe(TICK)));
    assert Match(Chr('.'), Then(tail, rest), s, p, g).NoMatch?;
    assert Match(SECOND_NAME, rest, s, p, g).NoMatch?;
    DotEndMatches(k, s, p, true, g);
    assert Match(Empty, rest, s, p, g) == Resume(rest, s, p, g);
  }

  lemma DotTaken(r: Regex, k: Cont, s: string, p: nat, g: Groups)
    requires p < |s| && s[p] == '.'
    ensures Match(Cat(Chr('.'), r), k, s, p, g) == Match(r, k, s, p + 1, g)
  {
    TickAndDot(s[p]);
    assert Match(Chr('.'), Then(r, k), s, p, g) == Resume(Then(r, k), s, p + 1, g);
  }

  /** The place behind a second name. */
  function SecondEnd(p: nat, tick: bool, name: string): nat {
    p + 1 + (if tick then 1 else 0) + |name|
  }

  /** A dot, perhaps a backtick, the second name, a backtick and a dot. */
  predicate IsSecond(s: string, p: nat, tick: bool, name: string) {
    var e := SecondEnd(p, tick, name);
    && e + 1 < |s| && s[p] == '.' && (tick ==> s[p + 1] == '`') && At(s, e - |name|, name)
    && s[e] == '`' && s[e + 1] == '.'
  }

  lemma SecondPlaces(s: string, p: nat, tick: bool, name: string)
    requires At(s, p, "." + ((if tick then "`" else "") + name) + "`.")
    ensures IsSecond(s, p, tick, name)
  {
    var front := if tick then ".`" else ".";
    assert "." + ((if tick then "`" else "") + name) + "`." == front + (name + "`.");
    AtParts(s, p, front, name + "`.");
    AtParts(s, p + |front|, name, "`.");
    AtChars(s, p, front);
    AtChars(s, p + |front| + |name|, "`.");
  }

  /** A dot and a second name, whose closing backtick it takes, and then the closing dot. */
  lemma JoinedSchemaEnds(k: Cont, s: string, p: nat, tick: bool, name: string, g: Groups)
    requires IsPlain(name) && IsSecond(s, p, tick, name)
    requires Resume(k, s, SecondEnd(p, tick, name) + 2, g).Matched?
    ensures Match(SCHEMA_REST, k, s, p, g) == Resume(k, s, SecondEnd(p, tick, name) + 2, g)
  {
    var rest, e := Then(DOT_END, k), SecondEnd(p, tick, name);
    assert At(s, e + 1, ".");
    DotEndMatches(k, s, e + 1, false, g);
    assert Resume(rest, s, e + 1, g) == Resume(k, s, e + 2, g);
    SecondNameTaken(rest, s, p, tick, name, g);
    FirstTaken(SECOND_NAME, Empty, rest, s, p, g);
  }

  lemma FirstTaken(a: Regex, b: Regex, k: Cont, s: string, i: nat, g: Groups)
    requires i <= |s| && Match(a, k, s, i, g).Matched?
    ensures Match(Or(a, b), k, s, i, g) == Match(a, k, s, i, g)
  {
  }

  lemma SecondNameTaken(k: Cont, s: string, p: nat, tick: bool, name: string, g: Groups)
    requires IsPlain(name) && IsSecond(s, p, tick, name)
    requires Resume(k, s, SecondEnd(p, tick, name) + 1, g).Matched?
    ensures Match(SECOND_NAME, k, s, p, g) == Resume(k, s, SecondEnd(p, tick, name) + 1, g)
  {
    var e := SecondEnd(p, tick, name);
    var tail := Cat(NAME, Maybe(TICK));
    TickTaken(k, s, e, g);
    NameTaken(k, s, e - |name|, name, g);
    AtChars(s, e - |name|, name);
    TickThen(tail, k, s, p + 1, tick, g);
    DotTaken(Cat(Maybe(TICK), tail), k, s, p, g);
  }

  lemma TickThen(r: Regex, k: Cont, s: string, i: nat, tick: bool, g: Groups)
    requires i < |s| && (tick <==> s[i] == '`')
    requires Resume(Then(r, k), s, if tick then i + 1 else i, g).Matched?
    ensures Match(Cat(Maybe(TICK), r), k, s, i, g) == Resume(Then(r, k), s, if tick then i + 1 else i, g)
  {
    if tick {
      TickTaken(Then(r, k), s, i, g);
    } else {
      TickAbsent(Then(r, k), s, i, g);
    }
  }

  lemma NameTaken(k: Cont, s: string, i: nat, name: string, g: Groups)
    requires IsPlain(name) && At(s, i, name) && i + |name| < |s| && s[i + |name|] == '`'
    requires Match(Maybe(TICK), k, s, i + |name|, g).Matched?
    ensures Resume(Then(Cat(NAME, Maybe(TICK)), k), s, i, g) == Match(Maybe(TICK), k, s, i + |name|, g)
  {
    AtChars(s, i, name);
    assert Resume(Then(Maybe(TICK), k), s, i + |name|, g) == Match(Maybe(TICK), k, s, i + |name|, g);
    RunTakenWhole(NotTickBlankDotParens, 1, |name|, Then(Maybe(TICK), k), s, i, g);
  }

  // ---- any target ------------------------------------------------------------------------

  lemma WrittenTableMatches(table: string, ticked: bool, tail: string, s: string, j: nat, g: Groups)
    requires IsTableName(table) && EndsName(tail, 0, ticked) && Rest(s, j, Written(table, ticked) + tail)
    ensures Match(TABLE_NAME, Halt, s, j, g) == Matched(g[Table := table])
  {
    RestParts(s, j, Written(table, ticked), tail);
    if ticked {
      TickedTableMatches(s, j, table, g);
    } else {
      EndKept(s, j + |table|, tail, false);
      TableMatches(s, j, table, g);
    }
  }

  /** A schema and a table, the opening backtick of the schema already taken. */
  lemma TickedSchemaAndTable(db: string, table: string, ticked: bool, tail: string, s: string, i: nat)
    requires IsSchemaName(db) && IsTableName(table) && EndsName(tail, 0, ticked)
    requires Rest(s, i, db + "`." + (Written(table, ticked) + tail))
    ensures Match(SCHEMA_AND_TABLE, Halt, s, i, map[]) == Matched(map[Schema := db + "`.", Table := table])
  {
    var front, k := db + "`.", Then(TABLE_NAME, Halt);
    var g: Groups := map[][Schema := front];
    RestParts(s, i, front, Written(table, ticked) + tail);
    WrittenTableMatches(table, ticked, tail, s, i + |front|, g);
    assert g[Table := table] == map[Schema := front, Table := table];
    assert Resume(k, s, i + |front|, g) == Match(TABLE_NAME, Halt, s, i + |front|, g);
    TickedSchemaMatches(k, s, i, db, map[]);
    FirstTaken(SCHEMA, Empty, k, s, i, map[]);
  }

  lemma TickedDbMatches(t: Target, tail: string, s: string, i: nat)
    requires IsReadBack(t, tail) && t.db.Some? && t.dbTicked && Rest(s, i, WrittenTarget(t) + tail)
    ensures Match(TARGET, Halt, s, i, map[]) == Matched(GroupsOf(t))
  {
    var db, rest := t.db.value, Written(t.table, t.tableTicked) + tail;
    assert WrittenTarget(t) + tail == "`" + (db + "`." + rest);
    RestParts(s, i, "`", db + "`." + rest);
    TickedSchemaAndTable(db, t.table, t.tableTicked, tail, s, i + 1);
    AtChars(s, i, "`");
    OpeningTick(true, s, i, GroupsOf(t));
  }

  lemma PlainDbMatches(t: Target, tail: string, s: string, i: nat)
    requires IsReadBack(t, tail) && t.db.Some? && !t.dbTicked && Rest(s, i, WrittenTarget(t) + tail)
    ensures Match(TARGET, Halt, s, i, map[]) == Matched(GroupsOf(t))
  {
    var written := WrittenTarget(t);
    RestParts(s, i, written, tail);
    EndKept(s, i + |written|, tail, t.tableTicked);
    AtChars(s, i, written);
    assert written == t.db.value + "." + Written(t.table, t.tableTicked);
    SchemaAndTable(s, i, t.db.value, t.table, t.tableTicked);
    assert s[i] == t.db.value[0];
    OpeningTick(false, s, i, GroupsOf(t));
  }

  lemma EndKept(s: string, p: nat, tail: string, ticked: bool)
    requires Rest(s, p, tail) && EndsName(tail, 0, ticked)
    ensures EndsName(s, p, ticked)
  {
    assert forall q | p <= q < |s| :: s[q] == tail[q - p];
  }

  lemma NoDbMatches(t: Target, tail: string, s: string, i: nat)
    requires IsReadBack(t, tail) && t.db.None? && Rest(s, i, WrittenTarget(t) + tail)
    ensures Match(TARGET, Halt, s, i, map[]) == Matched(GroupsOf(t))
  {
    var written := Written(t.table, t.tableTicked);
    assert WrittenTarget(t) == written;
    RestParts(s, i, written, tail);
    AtChars(s, i, written);
    if t.tableTicked {
      assert written + tail == "`" + (t.table + ("`" + tail));
      RestParts(s, i, "`", t.table + ("`" + tail));
      TickedTableOnly(s, i + 1, t.table, tail);
    } else {
      EndKept(s, i + |written|, tail, false);
      TableOnly(s, i, t.table);
      assert s[i] == t.table[0];
    }
    OpeningTick(t.tableTicked, s, i, GroupsOf(t));
  }

  lemma TargetMatches(t: Target, tail: string, s: string, i: nat)
    requires IsReadBack(t, tail) && Rest(s, i, WrittenTarget(t) + tail)
    ensures Match(TARGET, Halt, s, i, map[]) == Matched(GroupsOf(t))
  {
    if t.db.None? {
      NoDbMatches(t, tail, s, i);
    } else if t.dbTicked {
      TickedDbMatches(t, tail, s, i);
    } else {
      PlainDbMatches(t, tail, s, i);
    }
  }

  lemma {:induction false} StripCharNone(s: string, c: char)
    requires c !in s
    ensures LStripChar(s, c) == s && RStripChar(s, c) == s && StripChar(s, c) == s
  {
  }

  lemma SchemaNameEnds(db: string)
    requires IsSchemaName(db)
    ensures InClass(NotTickBlankDotParens, db[0]) && InClass(NotTickBlankDotParens, db[|db| - 1])
  {
    var n := Run(NotTickBlankDotParens, db, 0);
    if n < |db| {
      var name := Unticked(db[n + 1..]);
      assert name[|name| - 1] == db[|db| - 1];
    }
  }

  /** The schema read off the text of its group: closing dot and backticks are not part of it. */
  lemma SchemaRead(db: string, ticks: string)
    requires IsSchemaName(db) && ticks in ["", "`", "``"]
    ensures StripChar(RStripChar(db + ticks + ".", '.'), '`') == db
  {
    SchemaNameEnds(db);
    assert RStripChar(db + ticks + ".", '.') == RStripChar(db + ticks, '.') == db + ticks;
    assert RStripChar(db, '`') == db;
    if ticks != "" {
      assert RStripChar(db + "`", '`') == db;
      if ticks == "``" {
        assert db + ticks == (db + "`") + "`";
        assert RStripChar(db + ticks, '`') == RStripChar(db + "`", '`');
      }
    }
    assert LStripChar(db, '`') == db && LStripChar(db + ticks, '`') == db + ticks;
  }

  lemma GroupsRead(t: Target, tail: string)
    requires IsReadBack(t, tail)
    ensures DbOf(GroupsOf(t)) == t.db && TableOf(GroupsOf(t)) == t.table
  {
    StripCharNone(t.table, '`');
    if t.db.Some? {
      var db, ticks := t.db.value, if t.dbTicked then "`" else "";
      if !t.dbTicked {
        RunIs(NotTickBlankDotParens, |db|, db, 0);
      }
      SchemaRead(db, ticks);
      assert db + AfterName(t.dbTicked) == db + ticks + ".";
    }
  }

  // ---- the heads -------------------------------------------------------------------------

  lemma GapTaken(b: string, k: Cont, s: string, i: nat, g: Groups)
    requires IsGap(b) && At(s, i, b)
    requires i + |b| < |s| ==> !IsSpace(s[i + |b|])
    requires Resume(k, s, i + |b|, g).Matched?
    ensures Match(BLANKS, k, s, i, g) == Resume(k, s, i + |b|, g)
  {
    AtChars(s, i, b);
    RunTakenWhole(Blank, 1, |b|, k, s, i, g);
  }

  lemma WordTaken(spelled: string, w: string, k: Cont, s: string, i: nat, g: Groups)
    requires Spells(spelled, w) && At(s, i, spelled)
    ensures Match(Lit(w), k, s, i, g) == Resume(k, s, i + |w|, g)
  {
    MatchLit(w, k, s, i, g);
  }

  lemma NoBlanksFirst(k: Cont, s: string, g: Groups)
    requires s != "" ==> !IsSpace(s[0])
    ensures Match(Many(Blank, 0), k, s, 0, g) == Resume(k, s, 0, g)
  {
    RunIs(Blank, 0, s, 0);
  }

  /** A spelled keyword has no blank in it. */
  lemma SpelledSolid(spelled: string, w: string)
    requires Spells(spelled, w)
    requires w in ["ALTER", "TABLE", "CREATE", "INDEX", "USING", "ON", "UNIQUE", "FULLTEXT", "SPATIAL"]
    ensures spelled != "" && !IsSpace(spelled[0])
  {
    assert SameLetter(spelled[0], w[0]);
  }

  lemma TargetSolid(t: Target, tail: string)
    requires IsReadBack(t, tail)
    ensures WrittenTarget(t) != "" && !IsSpace(WrittenTarget(t)[0])
  {
  }

  /** The text from `i` on. */
  predicate Rest(s: string, i: nat, t: string) {
    i <= |s| && s[i..] == t
  }

  lemma RestParts(s: string, i: nat, t: string, u: string)
    requires Rest(s, i, t + u)
    ensures At(s, i, t) && Rest(s, i + |t|, u)
  {
    assert s[i..][..|t|] == t && s[i..][|t|..] == u;
  }

  /** Blanks and then a target, at the end of either head. */
  lemma GapAndTarget(b: string, t: Target, tail: string, s: string, i: nat)
    requires IsGap(b) && IsReadBack(t, tail)
    requires Rest(s, i, b + (WrittenTarget(t) + tail))
    ensures Match(Cat(BLANKS, TARGET), Halt, s, i, map[]) == Matched(GroupsOf(t))
  {
    var written := WrittenTarget(t);
    var j := i + |b|;
    RestParts(s, i, b, written + tail);
    RestParts(s, j, written, tail);
    TargetMatches(t, tail, s, j);
    TargetSolid(t, tail);
    AtChars(s, j, written);
    assert Resume(Then(TARGET, Halt), s, j, map[]) == Matched(GroupsOf(t));
    GapTaken(b, Then(TARGET, Halt), s, i, map[]);
  }

  /** TABLE or ON, blanks and a target. */
  lemma WordAndTarget(spelled: string, w: string, b: string, t: Target, tail: string, s: string, i: nat)
    requires Spells(spelled, w) && IsGap(b) && IsReadBack(t, tail)
    requires Rest(s, i, spelled + (b + (WrittenTarget(t) + tail)))
    ensures Match(Cat(Lit(w), Cat(BLANKS, TARGET)), Halt, s, i, map[]) == Matched(GroupsOf(t))
  {
    RestParts(s, i, spelled, b + (WrittenTarget(t) + tail));
    GapAndTarget(b, t, tail, s, i + |spelled|);
    var rest := Then(Cat(BLANKS, TARGET), Halt);
    assert Resume(rest, s, i + |spelled|, map[]) == Matched(GroupsOf(t));
    WordTaken(spelled, w, rest, s, i, map[]);
  }

  /** A word, blanks, and a text that starts with no blank, each at its place. */
  lemma WordGapRest(spelled: string, b: string, t: string, s: string, i: nat)
    requires Rest(s, i, spelled + (b + t)) && t != ""
    ensures
      var j := i + |spelled|;
      At(s, i, spelled) && At(s, j, b) && j + |b| < |s| && s[j + |b|] == t[0] && Rest(s, j + |b|, t)
  {
    var j := i + |spelled|;
    RestParts(s, i, spelled, b + t);
    RestParts(s, j, b, t);
    assert s[j + |b|] == s[j + |b|..][0];
  }

  /** A word and blanks in front of something that matches. */
  lemma WordAndGap(spelled: string, w: string, b: string, next: Regex, k: Cont, s: string, i: nat, groups: Groups)
    requires Spells(spelled, w) && IsGap(b) && At(s, i, spelled) && At(s, i + |spelled|, b)
    requires
      var e := i + |spelled| + |b|;
      e < |s| && !IsSpace(s[e]) && Match(next, k, s, e, map[]) == Matched(groups)
    ensures Match(Cat(Lit(w), Cat(BLANKS, next)), k, s, i, map[]) == Matched(groups)
  {
    var j := i + |spelled|;
    assert Resume(Then(next, k), s, j + |b|, map[]) == Matched(groups);
    GapTaken(b, Then(next, k), s, j, map[]);
    var rest := Then(Cat(BLANKS, next), k);
    assert Resume(rest, s, j, map[]) == Matched(groups);
    WordTaken(spelled, w, rest, s, i, map[]);
  }

  /** A whole pattern: optional blanks, a word, blanks and the rest. */
  function Head(w: string, next: Regex): Regex {
    Cat(Many(Blank, 0), Cat(Lit(w), Cat(BLANKS, next)))
  }

  lemma HeadStarts(w: string, next: Regex, s: string)
    requires s != "" && !IsSpace(s[0])
    ensures MatchAtStart(Head(w, next), s) == Match(Cat(Lit(w), Cat(BLANKS, next)), Halt, s, 0, map[])
  {
    var body := Cat(Lit(w), Cat(BLANKS, next));
    NoBlanksFirst(Then(body, Halt), s, map[]);
    assert Resume(Then(body, Halt), s, 0, map[]) == Match(body, Halt, s, 0, map[]);
  }

  lemma HeadMatches(spelled: string, w: string, b: string, next: Regex, s: string, groups: Groups)
    requires Spells(spelled, w) && spelled != "" && !IsSpace(spelled[0]) && IsGap(b)
    requires At(s, 0, spelled) && At(s, |spelled|, b)
    requires
      var e := |spelled| + |b|;
      e < |s| && !IsSpace(s[e]) && Match(next, Halt, s, e, map[]) == Matched(groups)
    ensures MatchAtStart(Head(w, next), s) == Matched(groups)
  {
    AtChars(s, 0, spelled);
    WordAndGap(spelled, w, b, next, Halt, s, 0, groups);
    HeadStarts(w, next, s);
  }

  lemma {:induction false} HeadAndRest(spelled: string, w: string, b: string, next: Regex, rest: string, groups: Groups)
    requires Spells(spelled, w) && spelled != "" && !IsSpace(spelled[0]) && IsGap(b)
    requires rest != "" && !IsSpace(rest[0])
    requires Match(next, Halt, spelled + (b + rest), |spelled| + |b|, map[]) == Matched(groups)
    ensures MatchAtStart(Head(w, next), spelled + (b + rest)) == Matched(groups)
    ensures At(spelled + (b + rest), 0, spelled)
  {
    var s := spelled + (b + rest);
    WordGapRest(spelled, b, rest, s, 0);
    HeadMatches(spelled, w, b, next, s, groups);
  }

  lemma HeadFails(w: string, next: Regex, s: string)
    requires s != "" && !IsSpace(s[0]) && w != "" && !SameLetter(s[0], w[0])
    ensures MatchAtStart(Head(w, next), s).NoMatch?
  {
    OtherWordFails(w, Then(Cat(BLANKS, next), Halt), s, 0, map[]);
    HeadStarts(w, next, s);
  }

  const TABLE_HEAD := Cat(Lit("TABLE"), Cat(BLANKS, TARGET))

  lemma AlterHeadMatches(alter: string, b1: string, table: string, b2: string, t: Target, tail: string)
    requires Spells(alter, "ALTER") && Spells(table, "TABLE") && IsGap(b1) && IsGap(b2)
    requires IsReadBack(t, tail)
    ensures MatchAtStart(ALTER_HEAD, alter + (b1 + (table + (b2 + (WrittenTarget(t) + tail)))))
         == Matched(GroupsOf(t))
  {
    var end := table + (b2 + (WrittenTarget(t) + tail));
    var s := alter + (b1 + end);
    SpelledSolid(alter, "ALTER");
    SpelledSolid(table, "TABLE");
    assert s[|alter| + |b1|..] == end && end[0] == table[0];
    WordAndTarget(table, "TABLE", b2, t, tail, s, |alter| + |b1|);
    HeadAndRest(alter, "ALTER", b1, TABLE_HEAD, end, GroupsOf(t));
    assert ALTER_HEAD == Head("ALTER", TABLE_HEAD);
  }

  /** ALTER TABLE in any letter case, any blanks, any spelling of the target. */
  lemma AlterHeadReadsTarget(alter: string, b1: string, table: string, b2: string, t: Target, tail: string)
    requires Spells(alter, "ALTER") && Spells(table, "TABLE") && IsGap(b1) && IsGap(b2)
    requires IsReadBack(t, tail)
    ensures
      var s := alter + (b1 + (table + (b2 + (WrittenTarget(t) + tail))));
      Classify(s) == Statement("ALTER", t.db, Some(t.table), s)
  {
    AlterHeadMatches(alter, b1, table, b2, t, tail);
    GroupsRead(t, tail);
  }

  // ---- CREATE INDEX ----------------------------------------------------------------------

  /** An index name, which only a backtick or a blank can end. */
  predicate IsIndexName(name: string) {
    name != "" && forall j | 0 <= j < |name| :: InClass(NotTickBlank, name[j])
  }

  /** No kind, or one of the three words and the blanks behind it. */
  datatype IndexKind = NoKind | Kind(word: string, spelled: string, gap: string)

  predicate IsIndexKind(kind: IndexKind) {
    kind.Kind? ==>
      kind.word in ["UNIQUE", "FULLTEXT", "SPATIAL"] && Spells(kind.spelled, kind.word) && IsGap(kind.gap)
  }

  function WrittenKind(kind: IndexKind): string {
    if kind.NoKind? then "" else kind.spelled + kind.gap
  }

  /** A word that the text does not start with here. */
  lemma OtherWordFails(w: string, k: Cont, s: string, i: nat, g: Groups)
    requires i <= |s| && w != "" && (i < |s| ==> !SameLetter(s[i], w[0]))
    ensures Match(Lit(w), k, s, i, g).NoMatch?
  {
    MatchLit(w, k, s, i, g);
    ReadsStep(s, i, w);
  }

  /** No clause, or USING and the index method, with the blanks behind each. */
  datatype Using = NoUsing | Using(spelled: string, gap1: string, kind: string, gap2: string)

  predicate IsUsing(u: Using) {
    u.Using? ==>
      && Spells(u.spelled, "USING") && IsGap(u.gap1) && IsGap(u.gap2)
      && u.kind != "" && forall j | 0 <= j < |u.kind| :: InClass(Word, u.kind[j])
  }

  function WrittenUsing(u: Using): string {
    if u.NoUsing? then "" else u.spelled + (u.gap1 + (u.kind + u.gap2))
  }

  const METHOD := Cat(Many(Word, 1), BLANKS)
  const USING_METHOD := Cat(Lit("USING"), Cat(BLANKS, METHOD))

  lemma MethodMatches(kind: string, gap: string, k: Cont, s: string, i: nat, groups: Groups)
    requires kind != "" && (forall j | 0 <= j < |kind| :: InClass(Word, kind[j])) && IsGap(gap)
    requires At(s, i, kind + gap)
    requires
      var e := i + |kind + gap|;
      (e < |s| ==> !IsSpace(s[e])) && Resume(k, s, e, map[]) == Matched(groups)
    ensures Match(METHOD, k, s, i, map[]) == Matched(groups)
  {
    AtParts(s, i, kind, gap);
    AtChars(s, i, kind);
    var j := i + |kind|;
    AtChars(s, j, gap);
    GapTaken(gap, k, s, j, map[]);
    assert Resume(Then(BLANKS, k), s, j, map[]) == Matched(groups);
    assert IsSpace(s[j]) && !InClass(Word, s[j]);
    RunTakenWhole(Word, 1, |kind|, Then(BLANKS, k), s, i, map[]);
  }

  lemma UsingParts(u: Using, s: string, i: nat)
    requires u.Using? && IsUsing(u) && At(s, i, WrittenUsing(u))
    ensures
      var j := i + |u.spelled|;
      var m := j + |u.gap1|;
      At(s, i, u.spelled) && At(s, j, u.gap1) && At(s, m, u.kind + u.gap2) && m < |s| && s[m] == u.kind[0]
  {
    var end := u.kind + u.gap2;
    var j := i + |u.spelled|;
    AtParts(s, i, u.spelled, u.gap1 + end);
    AtParts(s, j, u.gap1, end);
    AtChars(s, j + |u.gap1|, end);
    assert end[0] == u.kind[0];
  }

  lemma UsingMatches(u: Using, k: Cont, s: string, i: nat, groups: Groups)
    requires u.Using? && IsUsing(u) && At(s, i, WrittenUsing(u))
    requires
      var e := i + |WrittenUsing(u)|;
      (e < |s| ==> !IsSpace(s[e])) && Resume(k, s, e, map[]) == Matched(groups)
    ensures Match(USING_METHOD, k, s, i, map[]) == Matched(groups)
  {
    var m := i + |u.spelled| + |u.gap1|;
    UsingParts(u, s, i);
    MethodMatches(u.kind, u.gap2, k, s, m, groups);
    assert InClass(Word, s[m]);
    WordAndGap(u.spelled, "USING", u.gap1, METHOD, k, s, i, groups);
  }

  lemma UsingTaken(u: Using, k: Cont, t: string, s: string, i: nat, groups: Groups)
    requires IsUsing(u) && t != "" && SameLetter(t[0], 'O') && !IsSpace(t[0])
    requires Rest(s, i, WrittenUsing(u) + t)
    requires Resume(k, s, i + |WrittenUsing(u)|, map[]) == Matched(groups)
    ensures Match(USING, k, s, i, map[]) == Matched(groups)
    ensures i < |s| && !IsSpace(s[i])
  {
    var written := WrittenUsing(u);
    RestParts(s, i, written, t);
    assert s[i + |written|] == s[i + |written|..][0] == t[0];
    assert USING == Maybe(USING_METHOD);
    if u.NoUsing? {
      OtherWordFails("USING", Then(Cat(BLANKS, METHOD), k), s, i, map[]);
      assert Match(USING_METHOD, k, s, i, map[]).NoMatch?;
      assert Match(Empty, k, s, i, map[]) == Resume(k, s, i, map[]);
    } else {
      UsingMatches(u, k, s, i, groups);
      SpelledSolid(u.spelled, "USING");
      AtChars(s, i, written);
      assert s[i] == u.spelled[0];
    }
  }

  const ON_AND_TARGET := Cat(Lit("ON"), Cat(BLANKS, TARGET))

  lemma OnTargetMatches(b4: string, u: Using, on: string, b5: string, t: Target, tail: string, s: string, i: nat)
    requires IsGap(b4) && IsUsing(u) && Spells(on, "ON") && IsGap(b5) && IsReadBack(t, tail)
    requires Rest(s, i, b4 + (WrittenUsing(u) + (on + (b5 + (WrittenTarget(t) + tail)))))
    ensures Match(ON_TARGET, Halt, s, i, map[]) == Matched(GroupsOf(t))
  {
    var end := on + (b5 + (WrittenTarget(t) + tail));
    var written := WrittenUsing(u);
    var j := i + |b4|;
    RestParts(s, i, b4, written + end);
    RestParts(s, j, written, end);
    SpelledSolid(on, "ON");
    assert end[0] == on[0] && SameLetter(on[0], 'O');
    WordAndTarget(on, "ON", b5, t, tail, s, j + |written|);
    var k := Then(ON_AND_TARGET, Halt);
    assert Resume(k, s, j + |written|, map[]) == Matched(GroupsOf(t));
    UsingTaken(u, k, end, s, j, GroupsOf(t));
    var rest := Then(Cat(USING, ON_AND_TARGET), Halt);
    assert Resume(rest, s, j, map[]) == Matched(GroupsOf(t));
    GapTaken(b4, rest, s, i, map[]);
  }

  /** The index name and its optional backticks, before something that matches. */
  lemma IndexNameTaken(name: string, ticked: bool, k: Cont, s: string, i: nat, groups: Groups)
    requires IsIndexName(name) && At(s, i, Written(name, ticked))
    requires
      var e := i + |Written(name, ticked)|;
      e < |s| && IsSpace(s[e]) && Resume(k, s, e, map[]) == Matched(groups)
    ensures Match(INDEX_NAME, k, s, i, map[]) == Matched(groups)
  {
    AtChars(s, i, Written(name, ticked));
    var start := if ticked then i + 1 else i;
    assert At(s, start, name) by {
      if ticked {
        AtParts(s, i, "`" + name, "`");
        AtParts(s, i, "`", name);
      }
    }
    AtChars(s, start, name);
    var e := start + |name|;
    if ticked {
      TickTaken(k, s, e, map[]);
    } else {
      TickAbsent(k, s, e, map[]);
    }
    var tick := Then(Maybe(TICK), k);
    assert Resume(tick, s, e, map[]) == Matched(groups);
    RunTakenWhole(NotTickBlank, 1, |name|, tick, s, start, map[]);
    var body := Then(Cat(Many(NotTickBlank, 1), Maybe(TICK)), k);
    assert Resume(body, s, start, map[]) == Matched(groups);
    if ticked {
      TickTaken(body, s, i, map[]);
    } else {
      TickAbsent(body, s, i, map[]);
    }
  }

  lemma NameAndNext(name: string, ticked: bool, next: Regex, s: string, i: nat, groups: Groups)
    requires IsIndexName(name) && At(s, i, Written(name, ticked))
    requires
      var e := i + |Written(name, ticked)|;
      e < |s| && IsSpace(s[e]) && Match(next, Halt, s, e, map[]) == Matched(groups)
    ensures Match(Cat(INDEX_NAME, next), Halt, s, i, map[]) == Matched(groups)
  {
    var k := Then(next, Halt);
    assert Resume(k, s, i + |Written(name, ticked)|, map[]) == Matched(groups);
    IndexNameTaken(name, ticked, k, s, i, groups);
  }

  const INDEX_HEAD := Cat(Lit("INDEX"), Cat(BLANKS, Cat(INDEX_NAME, ON_TARGET)))

  lemma NamePlace(spelled: string, gap: string, name: string, ticked: bool, end: string, s: string, i: nat)
    requires Rest(s, i, spelled + (gap + (Written(name, ticked) + end))) && IsIndexName(name) && end != ""
    ensures
      var j := i + |spelled| + |gap|;
      var e := j + |Written(name, ticked)|;
      && At(s, i, spelled) && At(s, i + |spelled|, gap) && At(s, j, Written(name, ticked))
      && e == |s| - |end| && e < |s| && s[e] == end[0] && !IsSpace(s[j])
  {
    var written := Written(name, ticked);
    var j := i + |spelled| + |gap|;
    WordGapRest(spelled, gap, written + end, s, i);
    RestParts(s, j, written, end);
    assert s[j + |written|] == s[j + |written|..][0];
    assert (written + end)[0] == written[0];
  }

  /** A word, blanks and the index name, before blanks and something that matches. */
  lemma {:induction false} WordAndName(spelled: string, w: string, gap: string, name: string, ticked: bool,
                                       end: string, next: Regex, s: string, i: nat, groups: Groups)
    requires Spells(spelled, w) && IsGap(gap) && IsIndexName(name) && end != "" && IsSpace(end[0])
    requires Rest(s, i, spelled + (gap + (Written(name, ticked) + end)))
    requires Match(next, Halt, s, |s| - |end|, map[]) == Matched(groups)
    ensures Match(Cat(Lit(w), Cat(BLANKS, Cat(INDEX_NAME, next))), Halt, s, i, map[]) == Matched(groups)
  {
    NamePlace(spelled, gap, name, ticked, end, s, i);
    NameAndNext(name, ticked, next, s, i + |spelled| + |gap|, groups);
    WordAndGap(spelled, w, gap, Cat(INDEX_NAME, next), Halt, s, i, groups);
  }

  /** One of the three kinds of index, then blanks. */
  lemma KindMatches(w: string, spelled: string, gap: string, k: Cont, s: string, i: nat, groups: Groups)
    requires Spells(spelled, w) && IsGap(gap) && At(s, i, spelled + gap)
    requires
      var e := i + |spelled + gap|;
      (e < |s| ==> !IsSpace(s[e])) && Resume(k, s, e, map[]) == Matched(groups)
    ensures Match(Cat(Lit(w), BLANKS), k, s, i, map[]) == Matched(groups)
  {
    AtParts(s, i, spelled, gap);
    GapTaken(gap, k, s, i + |spelled|, map[]);
    assert Resume(Then(BLANKS, k), s, i + |spelled|, map[]) == Matched(groups);
    WordTaken(spelled, w, Then(BLANKS, k), s, i, map[]);
  }

  lemma KindFails(w: string, k: Cont, s: string, i: nat)
    requires i < |s| && w != "" && !SameLetter(s[i], w[0])
    ensures Match(Cat(Lit(w), BLANKS), k, s, i, map[]).NoMatch?
  {
    OtherWordFails(w, Then(BLANKS, k), s, i, map[]);
  }

  /** The first letters of INDEX and the three kinds tell them apart in any case. */
  lemma FirstLetters(c: char)
    ensures SameLetter(c, 'I') ==> !SameLetter(c, 'U') && !SameLetter(c, 'F') && !SameLetter(c, 'S')
    ensures SameLetter(c, 'F') ==> !SameLetter(c, 'U')
    ensures SameLetter(c, 'S') ==> !SameLetter(c, 'U') && !SameLetter(c, 'F')
  {
  }

  /** A group of three alternatives that may be left out matches as the first that matches. */
  lemma FirstOfThree(a: Regex, b: Regex, c: Regex, k: Cont, s: string, i: nat, g: Groups)
    requires i <= |s|
    ensures
      var ma, mb, mc := Match(a, k, s, i, g), Match(b, k, s, i, g), Match(c, k, s, i, g);
      Match(Maybe(Or(a, Or(b, c))), k, s, i, g)
        == if ma.Matched? then ma else if mb.Matched? then mb else if mc.Matched? then mc else Resume(k, s, i, g)
  {
    assert Match(Or(b, c), k, s, i, g)
        == if Match(b, k, s, i, g).Matched? then Match(b, k, s, i, g) else Match(c, k, s, i, g);
    assert Match(Empty, k, s, i, g) == Resume(k, s, i, g);
  }

  lemma NoKindTaken(k: Cont, s: string, i: nat)
    requires i < |s| && SameLetter(s[i], 'I')
    ensures Match(INDEX_KIND, k, s, i, map[]) == Resume(k, s, i, map[])
  {
    FirstLetters(s[i]);
    KindFails("UNIQUE", k, s, i);
    KindFails("FULLTEXT", k, s, i);
    KindFails("SPATIAL", k, s, i);
    FirstOfThree(Cat(Lit("UNIQUE"), BLANKS), Cat(Lit("FULLTEXT"), BLANKS), Cat(Lit("SPATIAL"), BLANKS), k, s, i, map[]);
  }

  lemma KindTaken(w: string, spelled: string, gap: string, k: Cont, s: string, i: nat, groups: Groups)
    requires w in ["UNIQUE", "FULLTEXT", "SPATIAL"] && Spells(spelled, w) && IsGap(gap)
    requires At(s, i, spelled + gap)
    requires
      var e := i + |spelled + gap|;
      e < |s| && !IsSpace(s[e]) && Resume(k, s, e, map[]) == Matched(groups)
    ensures Match(INDEX_KIND, k, s, i, map[]) == Matched(groups)
  {
    AtChars(s, i, spelled + gap);
    assert s[i] == spelled[0] && SameLetter(spelled[0], w[0]);
    FirstLetters(s[i]);
    KindMatches(w, spelled, gap, k, s, i, groups);
    if w != "UNIQUE" {
      KindFails("UNIQUE", k, s, i);
    }
    if w == "SPATIAL" {
      KindFails("FULLTEXT", k, s, i);
    }
    FirstOfThree(Cat(Lit("UNIQUE"), BLANKS), Cat(Lit("FULLTEXT"), BLANKS), Cat(Lit("SPATIAL"), BLANKS), k, s, i, map[]);
  }

  lemma IndexKindTaken(kind: IndexKind, k: Cont, t: string, s: string, i: nat, groups: Groups)
    requires IsIndexKind(kind) && t != "" && SameLetter(t[0], 'I') && !IsSpace(t[0])
    requires Rest(s, i, WrittenKind(kind) + t)
    requires Resume(k, s, i + |WrittenKind(kind)|, map[]) == Matched(groups)
    ensures Match(INDEX_KIND, k, s, i, map[]) == Matched(groups)
  {
    var written := WrittenKind(kind);
    RestParts(s, i, written, t);
    assert s[i + |written|] == s[i + |written|..][0] == t[0];
    if kind.NoKind? {
      NoKindTaken(k, s, i);
    } else {
      KindTaken(kind.word, kind.spelled, kind.gap, k, s, i, groups);
    }
  }

  const KIND_AND_INDEX := Cat(INDEX_KIND, INDEX_HEAD)

  /** The parts of a CREATE INDEX statement as they are written. */
  datatype CreateIndex = CreateIndex(create: string, gap1: string, kind: IndexKind, index: string, gap2: string,
                                     name: string, ticked: bool, gap3: string, using: Using, on: string,
                                     gap4: string, target: Target, tail: string)

  predicate IsWellWritten(c: CreateIndex) {
    && Spells(c.create, "CREATE") && Spells(c.index, "INDEX") && Spells(c.on, "ON")
    && IsGap(c.gap1) && IsGap(c.gap2) && IsGap(c.gap3) && IsGap(c.gap4)
    && IsIndexKind(c.kind) && IsUsing(c.using) && IsIndexName(c.name)
    && IsReadBack(c.target, c.tail)
  }

  function FromGap(c: CreateIndex): string {
    c.gap3 + (WrittenUsing(c.using) + (c.on + (c.gap4 + (WrittenTarget(c.target) + c.tail))))
  }

  function FromIndex(c: CreateIndex): string {
    c.index + (c.gap2 + (Written(c.name, c.ticked) + FromGap(c)))
  }

  function FromKind(c: CreateIndex): string {
    WrittenKind(c.kind) + FromIndex(c)
  }

  function WrittenIndex(c: CreateIndex): string {
    c.create + (c.gap1 + FromKind(c))
  }

  lemma RestOfParts(s: string, i: nat, t: string, u: string, v: string, end: string)
    requires Rest(s, i, t + (u + (v + end)))
    ensures |end| <= |s| && Rest(s, |s| - |end|, end)
  {
    RestParts(s, i, t, u + (v + end));
    RestParts(s, i + |t|, u, v + end);
    RestParts(s, i + |t| + |u|, v, end);
  }

  lemma FromGapMatches(c: CreateIndex, s: string, i: nat)
    requires IsWellWritten(c) && Rest(s, i, FromGap(c))
    ensures Match(ON_TARGET, Halt, s, i, map[]) == Matched(GroupsOf(c.target))
    ensures FromGap(c) != "" && IsSpace(FromGap(c)[0])
  {
    OnTargetMatches(c.gap3, c.using, c.on, c.gap4, c.target, c.tail, s, i);
    assert FromGap(c)[0] == c.gap3[0];
  }

  lemma IndexWordFirst(c: CreateIndex)
    requires IsWellWritten(c)
    ensures FromIndex(c) != "" && SameLetter(FromIndex(c)[0], 'I') && !IsSpace(FromIndex(c)[0])
  {
    SpelledSolid(c.index, "INDEX");
    assert FromIndex(c)[0] == c.index[0] && SameLetter(c.index[0], "INDEX"[0]);
  }

  lemma FromIndexMatches(c: CreateIndex, s: string, i: nat)
    requires IsWellWritten(c) && Rest(s, i, FromIndex(c))
    ensures Match(INDEX_HEAD, Halt, s, i, map[]) == Matched(GroupsOf(c.target))
  {
    var end := FromGap(c);
    RestOfParts(s, i, c.index, c.gap2, Written(c.name, c.ticked), end);
    FromGapMatches(c, s, |s| - |end|);
    WordAndName(c.index, "INDEX", c.gap2, c.name, c.ticked, end, ON_TARGET, s, i, GroupsOf(c.target));
  }

  lemma KindWordFirst(c: CreateIndex)
    requires IsWellWritten(c)
    ensures FromKind(c) != "" && !IsSpace(FromKind(c)[0])
  {
    IndexWordFirst(c);
    if c.kind.Kind? {
      SpelledSolid(c.kind.spelled, c.kind.word);
      assert FromKind(c)[0] == c.kind.spelled[0];
    }
  }

  lemma {:induction false} FromKindMatches(c: CreateIndex, s: string, i: nat)
    requires IsWellWritten(c) && Rest(s, i, FromKind(c))
    ensures Match(KIND_AND_INDEX, Halt, s, i, map[]) == Matched(GroupsOf(c.target))
    ensures FromKind(c) != "" && !IsSpace(FromKind(c)[0])
  {
    var end, written := FromIndex(c), WrittenKind(c.kind);
    RestParts(s, i, written, end);
    FromIndexMatches(c, s, i + |written|);
    IndexWordFirst(c);
    var k := Then(INDEX_HEAD, Halt);
    assert Resume(k, s, i + |written|, map[]) == Matched(GroupsOf(c.target));
    IndexKindTaken(c.kind, k, end, s, i, GroupsOf(c.target));
    KindWordFirst(c);
  }

  /** CREATE INDEX, with or without a kind and an index method, is classified with the target it names. */
  lemma CreateIndexHeadReadsTarget(c: CreateIndex)
    requires IsWellWritten(c)
    ensures Classify(WrittenIndex(c))
         == Statement("ALTER", c.target.db, Some(c.target.table), WrittenIndex(c))
  {
    CreateIndexHeadMatches(c);
    GroupsRead(c.target, c.tail);
  }

  lemma CreateIndexHeadMatches(c: CreateIndex)
    requires IsWellWritten(c)
    ensures MatchAtStart(ALTER_HEAD, WrittenIndex(c)).NoMatch?
    ensures MatchAtStart(CREATE_INDEX_HEAD, WrittenIndex(c)) == Matched(GroupsOf(c.target))
  {
    var s := WrittenIndex(c);
    var i := |c.create| + |c.gap1|;
    assert s[i..] == FromKind(c);
    FromKindMatches(c, s, i);
    SpelledSolid(c.create, "CREATE");
    HeadAndRest(c.create, "CREATE", c.gap1, KIND_AND_INDEX, FromKind(c), GroupsOf(c.target));
    assert CREATE_INDEX_HEAD == Head("CREATE", KIND_AND_INDEX);
    NotAlter(s, c.create);
  }

  lemma NotAlter(s: string, create: string)
    requires Spells(create, "CREATE") && At(s, 0, create)
    ensures MatchAtStart(ALTER_HEAD, s).NoMatch?
  {
    SpelledSolid(create, "CREATE");
    AtChars(s, 0, create);
    assert s[0] == create[0] && SameLetter(create[0], "CREATE"[0]);
    HeadFails("ALTER", TABLE_HEAD, s);
    assert ALTER_HEAD == Head("ALTER", TABLE_HEAD);
  }
}
