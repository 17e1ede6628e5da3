/** The other half of reading a head: what the two patterns can give back at all, and so for which
    targets in backticks ALTER TABLE gives back exactly the names that were written. */
module DdlHeaderExact {
  import opened Text
  import opened Pattern
  import opened DdlParser
  import opened DdlHeader
  import opened Wrappers

  // ---- what a match says -----------------------------------------------------------------

  /** An optional backtick takes nothing or one. */
  lemma TickEnds(k: Cont, s: string, i: nat, g: Groups) returns (ticks: string)
    requires i <= |s| && Match(Maybe(TICK), k, s, i, g).Matched?
    ensures ticks in ["", "`"] && At(s, i, ticks)
    ensures Match(Maybe(TICK), k, s, i, g) == Resume(k, s, i + |ticks|, g)
  {
    if i < |s| {
      TickAndDot(s[i]);
    }
    if Match(TICK, k, s, i, g).Matched? {
      ticks := "`";
    } else {
      ticks := "";
      assert Match(Empty, k, s, i, g) == Resume(k, s, i, g);
    }
  }

  lemma NameEnds(k: Cont, s: string, i: nat, g: Groups) returns (name: string)
    requires i <= |s| && Match(NAME, k, s, i, g).Matched?
    ensures IsPlain(name) && At(s, i, name) && Match(NAME, k, s, i, g) == Resume(k, s, i + |name|, g)
  {
    var m := GreedyEnds(1, k, s, i, Run(NotTickBlankDotParens, s, i), g);
    name := s[i..i + m];
  }

  lemma DotEnds(k: Cont, s: string, i: nat, g: Groups)
    requires i <= |s| && Match(Chr('.'), k, s, i, g).Matched?
    ensures At(s, i, ".") && Match(Chr('.'), k, s, i, g) == Resume(k, s, i + 1, g)
  {
    TickAndDot(s[i]);
    assert s[i..i + 1] == ".";
  }

  /** The table group holds a table name. */
  lemma TableEnds(s: string, i: nat, g: Groups) returns (name: string)
    requires i <= |s| && Match(TABLE_NAME, Halt, s, i, g).Matched?
    ensures IsTableName(name) && Match(TABLE_NAME, Halt, s, i, g) == Matched(g[Table := name])
  {
    var body, rest := Cat(Grp(Table, Many(NotTickBlankParen, 1)), Maybe(TICK)), Then(Maybe(TICK), Halt);
    var ticks := TickEnds(Then(body, Halt), s, i, g);
    var j := i + |ticks|;
    assert Match(body, Halt, s, j, g) == Match(Many(NotTickBlankParen, 1), Close(Table, j, rest), s, j, g);
    var m := GreedyEnds(1, Close(Table, j, rest), s, j, Run(NotTickBlankParen, s, j), g);
    name := s[j..j + m];
    var g' := g[Table := name];
    assert Resume(Close(Table, j, rest), s, j + m, g) == Match(Maybe(TICK), Halt, s, j + m, g');
    var _ := TickEnds(Halt, s, j + m, g');
  }

  /** The second name of the schema group, from its dot to its last backtick. */
  lemma SecondNameEnds(k: Cont, s: string, i: nat, g: Groups) returns (tick: string, name: string, ticks: string)
    requires i <= |s| && Match(SECOND_NAME, k, s, i, g).Matched?
    ensures tick in ["", "`"] && IsPlain(name) && ticks in ["", "`"] && At(s, i, "." + tick + name + ticks)
    ensures Match(SECOND_NAME, k, s, i, g) == Resume(k, s, i + |"." + tick + name + ticks|, g)
  {
    var named := Cat(NAME, Maybe(TICK));
    DotEnds(Then(Cat(Maybe(TICK), named), k), s, i, g);
    tick := TickEnds(Then(named, k), s, i + 1, g);
    var j := i + 1 + |tick|;
    assert Resume(Then(named, k), s, j, g) == Match(NAME, Then(Maybe(TICK), k), s, j, g);
    name := NameEnds(Then(Maybe(TICK), k), s, j, g);
    ticks := TickEnds(k, s, j + |name|, g);
    AtJoin(s, i, ".", tick);
    AtJoin(s, i, "." + tick, name);
    AtJoin(s, i, "." + tick + name, ticks);
  }

  lemma AtJoin(s: string, i: nat, t: string, u: string)
    requires At(s, i, t) && At(s, i + |t|, u)
    ensures At(s, i, t + u)
  {
    assert s[i..i + |t + u|] == s[i..i + |t|] + s[i + |t|..i + |t| + |u|];
  }

  /** The text of the schema group: a schema name, backticks, and the closing dot. */
  predicate IsSchemaText(text: string, db: string, ticks: string) {
    IsSchemaName(db) && ticks in ["", "`", "``"] && text == db + ticks + "."
  }

  lemma JoinedIsSchemaName(first: string, tick: string, second: string)
    requires IsPlain(first) && IsPlain(second) && tick in ["", "`"]
    ensures IsSchemaName(first + "." + tick + second)
  {
    var name := first + "." + tick + second;
    var rest := tick + second;
    assert name[..|first|] == first && name[|first|] == '.' && name[|first| + 1..] == rest;
    assert forall j | 0 <= j < |first| :: name[j] == first[j];
    RunIs(NotTickBlankDotParens, |first|, name, 0);
    assert Unticked(rest) == second;
  }

  lemma PlainIsSchemaName(name: string)
    requires IsPlain(name)
    ensures IsSchemaName(name)
  {
    RunIs(NotTickBlankDotParens, |name|, name, 0);
  }

  /** What follows the first name of the schema group, up to its closing dot. */
  lemma SchemaRestEnds(k: Cont, s: string, i: nat, first: string, g: Groups)
    returns (rest: string, db: string, ticks: string)
    requires i <= |s| && IsPlain(first) && Match(SCHEMA_REST, k, s, i, g).Matched?
    ensures IsSchemaText(first + rest, db, ticks) && At(s, i, rest)
    ensures Match(SCHEMA_REST, k, s, i, g) == Resume(k, s, i + |rest|, g)
  {
    var end := Then(DOT_END, k);
    if Match(SECOND_NAME, end, s, i, g).Matched? {
      var tick, name, more := SecondNameEnds(end, s, i, g);
      var middle := "." + tick + name + more;
      FirstTaken(SECOND_NAME, Empty, end, s, i, g);
      var close := ClosingEnds(k, s, i + |middle|, g);
      db, ticks, rest := first + "." + tick + name, more + close, middle + (close + ".");
      AtJoin(s, i, middle, close + ".");
      JoinedText(first, tick, name, more, close);
    } else {
      assert Match(Empty, end, s, i, g) == Resume(end, s, i, g);
      var close := ClosingEnds(k, s, i, g);
      db, ticks, rest := first, close, close + ".";
      PlainIsSchemaName(first);
      assert first + rest == db + ticks + ".";
    }
  }

  lemma JoinedText(first: string, tick: string, name: string, more: string, close: string)
    requires IsPlain(first) && IsPlain(name)
    requires tick in ["", "`"] && more in ["", "`"] && close in ["", "`"]
    ensures IsSchemaText(first + ("." + tick + name + more + (close + ".")), first + "." + tick + name, more + close)
  {
    JoinedIsSchemaName(first, tick, name);
    TwoTicks(more, close);
    var db := first + "." + tick + name;
    assert first + ("." + tick + name + more + (close + ".")) == db + (more + close) + ".";
  }

  lemma TwoTicks(a: string, b: string)
    requires a in ["", "`"] && b in ["", "`"]
    ensures a + b in ["", "`", "``"]
  {
    if a == "" {
      assert a + b == b;
    } else if b == "" {
      assert a + b == a;
    } else {
      assert a + b == "``";
    }
  }

  lemma ClosingEnds(k: Cont, s: string, i: nat, g: Groups) returns (ticks: string)
    requires i <= |s| && Match(DOT_END, k, s, i, g).Matched?
    ensures ticks in ["", "`"] && At(s, i, ticks + ".")
    ensures Match(DOT_END, k, s, i, g) == Resume(k, s, i + |ticks| + 1, g)
  {
    ticks := TickEnds(Then(Chr('.'), k), s, i, g);
    DotEnds(k, s, i + |ticks|, g);
    AtJoin(s, i, ticks, ".");
  }

  lemma SchemaEnds(k: Cont, s: string, i: nat, g: Groups) returns (text: string, db: string, ticks: string)
    requires i <= |s| && Match(SCHEMA, k, s, i, g).Matched?
    ensures IsSchemaText(text, db, ticks) && At(s, i, text)
    ensures Match(SCHEMA, k, s, i, g) == Resume(k, s, i + |text|, g[Schema := text])
  {
    var close := Close(Schema, i, k);
    assert Match(SCHEMA, k, s, i, g) == Match(NAME, Then(SCHEMA_REST, close), s, i, g);
    var first := NameEnds(Then(SCHEMA_REST, close), s, i, g);
    var rest;
    rest, db, ticks := SchemaRestEnds(close, s, i + |first|, first, g);
    text := first + rest;
    AtJoin(s, i, first, rest);
    CloseTaken(k, s, i, text, g);
  }

  /** What the groups of a target say: a table name, and no schema or a schema name. */
  predicate IsReadable(g: Groups) {
    && IsTableName(TableOf(g))
    && (DbOf(g).Some? <==> Schema in g)
    && (DbOf(g).Some? ==> IsSchemaName(DbOf(g).value))
  }

  lemma TableGroupRead(g: Groups, name: string)
    requires IsTableName(name) && Table in g && g[Table] == name
    ensures TableOf(g) == name
  {
    StripCharNone(name, '`');
  }

  lemma SchemaGroupRead(g: Groups, db: string, ticks: string)
    requires Schema in g && IsSchemaText(g[Schema], db, ticks)
    ensures DbOf(g) == Some(db)
  {
    SchemaRead(db, ticks);
    SchemaNameEnds(db);
  }

  lemma NoSchemaRead(g: Groups)
    requires Schema !in g
    ensures DbOf(g).None?
  {
    assert GroupOrEmpty(g, Schema) == "";
    StripCharNone("", '.');
    StripCharNone("", '`');
  }

  lemma SchemaAndTableReads(s: string, i: nat)
    requires i <= |s| && Match(SCHEMA_AND_TABLE, Halt, s, i, map[]).Matched?
    ensures IsReadable(Match(SCHEMA_AND_TABLE, Halt, s, i, map[]).groups)
    ensures Match(SCHEMA, Then(TABLE_NAME, Halt), s, i, map[]).Matched? ==>
      Schema in Match(SCHEMA_AND_TABLE, Halt, s, i, map[]).groups
  {
    var k := Then(TABLE_NAME, Halt);
    if Match(SCHEMA, k, s, i, map[]).Matched? {
      var text, db, ticks := SchemaEnds(k, s, i, map[]);
      var g: Groups := map[][Schema := text];
      var name := TableEnds(s, i + |text|, g);
      TableGroupRead(g[Table := name], name);
      SchemaGroupRead(g[Table := name], db, ticks);
    } else {
      var none: Groups := map[];
      assert Match(Empty, k, s, i, none) == Resume(k, s, i, none);
      var name := TableEnds(s, i, none);
      TableGroupRead(none[Table := name], name);
      NoSchemaRead(none[Table := name]);
    }
  }

  lemma TargetReads(s: string, i: nat)
    requires i <= |s| && Match(TARGET, Halt, s, i, map[]).Matched?
    ensures IsReadable(Match(TARGET, Halt, s, i, map[]).groups)
  {
    var ticks := TickEnds(Then(SCHEMA_AND_TABLE, Halt), s, i, map[]);
    SchemaAndTableReads(s, i + |ticks|);
  }

  // ---- the head of ALTER TABLE -----------------------------------------------------------

  /** An expression without groups in front only moves the place. */
  lemma Behind(a: Regex, b: Regex, s: string, i: nat) returns (j: nat)
    requires HasNoGroup(a) && i <= |s| && Match(Cat(a, b), Halt, s, i, map[]).Matched?
    ensures j <= |s| && Match(Cat(a, b), Halt, s, i, map[]) == Match(b, Halt, s, j, map[])
  {
    var g;
    j, g := MatchEnds(a, Then(b, Halt), s, i, map[]);
  }

  lemma AlterHeadReads(s: string)
    requires MatchAtStart(ALTER_HEAD, s).Matched?
    ensures IsReadable(MatchAtStart(ALTER_HEAD, s).groups)
  {
    var table := Cat(Lit("TABLE"), Cat(BLANKS, TARGET));
    LitHasNoGroup("ALTER");
    LitHasNoGroup("TABLE");
    var a := Behind(Many(Blank, 0), Cat(Lit("ALTER"), Cat(BLANKS, table)), s, 0);
    var b := Behind(Lit("ALTER"), Cat(BLANKS, table), s, a);
    var c := Behind(BLANKS, table, s, b);
    var d := Behind(Lit("TABLE"), Cat(BLANKS, TARGET), s, c);
    var e := Behind(BLANKS, TARGET, s, d);
    TargetReads(s, e);
  }

  /** Every ALTER statement but CREATE INDEX names a table, and a schema name if any. */
  lemma ClassifiedAlter(s: string, db: Option<string>, table: string)
    requires s != "" && !IsSpace(s[0]) && !SameLetter(s[0], 'C')
    requires Classify(s) == Statement("ALTER", db, Some(table), s)
    ensures
      var m := MatchAtStart(ALTER_HEAD, s);
      m.Matched? && DbOf(m.groups) == db && TableOf(m.groups) == table && IsReadable(m.groups)
  {
    NotClassifiedAlter(s);
    AlterHeadReads(s);
  }

  lemma NotClassifiedAlter(s: string)
    requires s != "" && !IsSpace(s[0]) && !SameLetter(s[0], 'C')
    ensures MatchAtStart(ALTER_HEAD, s).NoMatch? ==> Classify(s).kind != "ALTER"
  {
    HeadFails("CREATE", KIND_AND_INDEX, s);
    assert CREATE_INDEX_HEAD == Head("CREATE", KIND_AND_INDEX);
    OtherKindIsOther(s);
  }

  lemma OtherKindIsOther(s: string)
    ensures OtherKind(s) != "ALTER"
  {
  }

  // ---- tables that look qualified --------------------------------------------------------

  lemma SomeTableMatches(s: string, i: nat, g: Groups)
    requires
      || (i < |s| && InClass(NotTickBlankParen, s[i]))
      || (i + 1 < |s| && s[i] == '`' && InClass(NotTickBlankParen, s[i + 1]))
    ensures Match(TABLE_NAME, Halt, s, i, g).Matched?
  {
    var body := Cat(Grp(Table, Many(NotTickBlankParen, 1)), Maybe(TICK));
    var j := if s[i] == '`' then i + 1 else i;
    var n := Run(NotTickBlankParen, s, j);
    TableBody(s, j, s[j..j + n], g);
    if s[i] == '`' {
      TickTaken(Then(body, Halt), s, i, g);
    } else {
      TickAbsent(Then(body, Halt), s, i, g);
    }
  }

  /** A plain identifier and a dot are a schema when a table can follow. */
  lemma SchemaFound(s: string, i: nat, n: nat)
    requires n > 0 && i + n < |s| && s[i + n] == '.' && Run(NotTickBlankDotParens, s, i) == n
    requires
      var p := i + n + 1;
      || (p < |s| && InClass(NotTickBlankParen, s[p]))
      || (p + 1 < |s| && s[p] == '`' && InClass(NotTickBlankParen, s[p + 1]))
    ensures Match(SCHEMA, Then(TABLE_NAME, Halt), s, i, map[]).Matched?
  {
    var close := Close(Schema, i, Then(TABLE_NAME, Halt));
    RestFound(s, i, i + n);
    assert Resume(Then(SCHEMA_REST, close), s, i + n, map[]).Matched?;
    RunTakenWhole(NotTickBlankDotParens, 1, n, Then(SCHEMA_REST, close), s, i, map[]);
    assert Match(Cat(NAME, SCHEMA_REST), close, s, i, map[]).Matched?;
  }

  lemma RestFound(s: string, i: nat, q: nat)
    requires i <= q < |s| && s[q] == '.'
    requires
      var p := q + 1;
      || (p < |s| && InClass(NotTickBlankParen, s[p]))
      || (p + 1 < |s| && s[p] == '`' && InClass(NotTickBlankParen, s[p + 1]))
    ensures Match(SCHEMA_REST, Close(Schema, i, Then(TABLE_NAME, Halt)), s, q, map[]).Matched?
  {
    var close := Close(Schema, i, Then(TABLE_NAME, Halt));
    var rest := Then(DOT_END, close);
    var none: Groups := map[];
    SomeTableMatches(s, q + 1, none[Schema := s[i..q + 1]]);
    assert Resume(close, s, q + 1, none).Matched?;
    assert At(s, q, ".");
    DotEndMatches(close, s, q, false, none);
    assert Resume(rest, s, q, none).Matched?;
    assert Match(Empty, rest, s, q, none) == Resume(rest, s, q, none);
    assert Match(Maybe(SECOND_NAME), rest, s, q, none).Matched?;
  }

  lemma QualifiedPlaces(table: string, tail: string, s: string, i: nat)
    requires LooksQualified(table, tail) && IsTableName(table) && Rest(s, i, table + ("`" + tail))
    ensures
      var n := Run(NotTickBlankDotParens, table, 0);
      var p := i + n + 1;
      && 0 < n && p <= |s| && s[i + n] == '.' && Run(NotTickBlankDotParens, s, i) == n
      && ((p < |s| && InClass(NotTickBlankParen, s[p]))
          || (p + 1 < |s| && s[p] == '`' && InClass(NotTickBlankParen, s[p + 1])))
  {
    var n := Run(NotTickBlankDotParens, table, 0);
    RestParts(s, i, table, "`" + tail);
    RunIsMaximal(NotTickBlankDotParens, table, s, i);
    AtChars(s, i, table);
    var e := i + |table|;
    assert forall q | e <= q < |s| :: s[q] == ("`" + tail)[q - e];
    if n + 1 < |table| {
      assert s[i + n + 1] == table[n + 1];
    } else {
      assert s[e] == '`' && s[e + 1] == tail[0];
    }
  }

  /** A table in backticks that looks qualified is read with a schema. */
  lemma QualifiedReads(table: string, tail: string, s: string, i: nat)
    requires LooksQualified(table, tail) && IsTableName(table) && Rest(s, i, "`" + (table + ("`" + tail)))
    ensures Match(TARGET, Halt, s, i, map[]).Matched? && Schema in Match(TARGET, Halt, s, i, map[]).groups
  {
    RestParts(s, i, "`", table + ("`" + tail));
    AtChars(s, i, "`");
    var n := Run(NotTickBlankDotParens, table, 0);
    QualifiedPlaces(table, tail, s, i + 1);
    SchemaFound(s, i + 1, n);
    FirstTaken(SCHEMA, Empty, Then(TABLE_NAME, Halt), s, i + 1, map[]);
    SchemaAndTableReads(s, i + 1);
    OpeningTick(true, s, i, Match(SCHEMA_AND_TABLE, Halt, s, i + 1, map[]).groups);
  }

  // ---- exactly when the names come back --------------------------------------------------

  lemma QualifiedAlterReads(alter: string, b1: string, table: string, b2: string, t: Target, tail: string)
    requires Spells(alter, "ALTER") && Spells(table, "TABLE") && IsGap(b1) && IsGap(b2)
    requires t.db.None? && t.tableTicked && IsTableName(t.table) && LooksQualified(t.table, tail)
    ensures
      var m := MatchAtStart(ALTER_HEAD, alter + (b1 + (table + (b2 + (WrittenTarget(t) + tail)))));
      m.Matched? && Schema in m.groups
  {
    var written := WrittenTarget(t) + tail;
    var gapped := b2 + written;
    var end := table + gapped;
    var s := alter + (b1 + end);
    var i := |alter| + |b1|;
    SpelledSolid(alter, "ALTER");
    SpelledSolid(table, "TABLE");
    assert s[i..] == end && end[0] == table[0];
    WordGapRest(table, b2, written, s, i);
    assert written == "`" + (t.table + ("`" + tail));
    var e := i + |table| + |b2|;
    QualifiedReads(t.table, tail, s, e);
    var groups := Match(TARGET, Halt, s, e, map[]).groups;
    WordAndGap(table, "TABLE", b2, TARGET, Halt, s, i, groups);
    HeadAndRest(alter, "ALTER", b1, TABLE_HEAD, end, groups);
    assert ALTER_HEAD == Head("ALTER", TABLE_HEAD);
  }

  lemma NamesComeBack(alter: string, b1: string, table: string, b2: string, t: Target, tail: string)
    requires Spells(alter, "ALTER") && Spells(table, "TABLE") && IsGap(b1) && IsGap(b2)
    requires t.tableTicked && (t.db.Some? ==> t.dbTicked) && EndsTarget(t, tail)
    requires
      var s := alter + (b1 + (table + (b2 + (WrittenTarget(t) + tail))));
      Classify(s) == Statement("ALTER", t.db, Some(t.table), s)
    ensures IsReadBack(t, tail)
  {
    var s := alter + (b1 + (table + (b2 + (WrittenTarget(t) + tail))));
    SpelledSolid(alter, "ALTER");
    assert s[0] == alter[0] && SameLetter(s[0], "ALTER"[0]);
    ClassifiedAlter(s, t.db, t.table);
    if t.db.None? && LooksQualified(t.table, tail) {
      QualifiedAlterReads(alter, b1, table, b2, t, tail);
      assert false;
    }
  }

  /** A target in backticks, whatever names are written, is given back exactly when the table is a
      table name and, with a schema, that is a schema name, without one the table does not look
      qualified. */
  lemma TickedTargetExactly(alter: string, b1: string, table: string, b2: string, t: Target, tail: string)
    requires Spells(alter, "ALTER") && Spells(table, "TABLE") && IsGap(b1) && IsGap(b2)
    requires t.tableTicked && (t.db.Some? ==> t.dbTicked) && EndsTarget(t, tail)
    ensures
      var s := alter + (b1 + (table + (b2 + (WrittenTarget(t) + tail))));
      Classify(s) == Statement("ALTER", t.db, Some(t.table), s) <==>
        && IsTableName(t.table)
        && if t.db.Some? then IsSchemaName(t.db.value) else !LooksQualified(t.table, tail)
  {
    var s := alter + (b1 + (table + (b2 + (WrittenTarget(t) + tail))));
    if IsReadBack(t, tail) {
      AlterHeadReadsTarget(alter, b1, table, b2, t, tail);
    } else if Classify(s) == Statement("ALTER", t.db, Some(t.table), s) {
      NamesComeBack(alter, b1, table, b2, t, tail);
    }
  }
}
