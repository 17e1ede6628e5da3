/** The rows of the query privilege table and what the two-pass checker decides from them. */
module PrivilegeChecks {
  import opened Text
  import opened Pattern
  import opened Wrappers

  datatype Privilege = Privilege(
    id: nat, userName: string, instanceId: int, dbName: string, tableName: string,
    validDate: int, limitNum: int, privType: int, isDeleted: bool)

  const DATABASE := 1
  const TABLE := 2

  /** A user with the permission names granted to it and the instances it may read. */
  datatype User = User(name: string, isSuperuser: bool, perms: set<string>, readable: set<int>)

  datatype Instance = Instance(id: int, dbType: string)

  datatype TableRef = TableRef(schema: string, name: string)

  /** What a check reads besides its arguments: the rows in id order, the day, the limit of
      administrators. */
  datatype Snapshot = Snapshot(rows: seq<Privilege>, today: int, adminLimit: int)

  /** An active superuser has every permission. */
  predicate HasPerm(user: User, perm: string) {
    user.isSuperuser || perm in user.perms
  }

  // ---- looking up one privilege ----------------------------------------------------------

  /** What a lookup asks for: a whole database, or one table of it. */
  datatype Wanted = Db(db: string) | Tbl(db: string, table: string)

  predicate Grants(p: Privilege, user: string, instanceId: int, w: Wanted, today: int) {
    && p.userName == user && p.instanceId == instanceId && today <= p.validDate && !p.isDeleted
    && match w
       case Db(db) => p.privType == DATABASE && (p.dbName == db || p.dbName == "*")
       case Tbl(db, table) => p.privType == TABLE && p.dbName == db && p.tableName == table
  }

  /** The limit of the first matching row in id order; 0, which is false, without one. */
  function FirstLimit(rows: seq<Privilege>, user: string, instanceId: int, w: Wanted, today: int): int {
    if rows == [] then 0
    else if Grants(rows[0], user, instanceId, w, today) then rows[0].limitNum
    else FirstLimit(rows[1..], user, instanceId, w, today)
  }

  function DbPriv(snap: Snapshot, user: User, inst: Instance, db: string): int {
    if user.isSuperuser then snap.adminLimit
    else FirstLimit(snap.rows, user.name, inst.id, Db(db), snap.today)
  }

  function TbPriv(snap: Snapshot, user: User, inst: Instance, db: string, table: string): int {
    if user.isSuperuser then snap.adminLimit
    else FirstLimit(snap.rows, user.name, inst.id, Tbl(db, table), snap.today)
  }

  function Min(a: int, b: int): int {
    if a <= b then a else b
  }

  /** `_priv_limit`; no result stands for its exception.  An empty table name is no table. */
  function PrivLimit(snap: Snapshot, user: User, inst: Instance, db: string, table: string): Option<int> {
    var dbLimit := DbPriv(snap, user, inst, db);
    var tbLimit := if table == "" then 0 else TbPriv(snap, user, inst, db, table);
    if dbLimit != 0 && tbLimit != 0 then Some(Min(dbLimit, tbLimit))
    else if dbLimit != 0 then Some(dbLimit)
    else if tbLimit != 0 then Some(tbLimit)
    else None
  }

  // ---- the checker -----------------------------------------------------------------------

  /** Status 0 with the limit, status 2 with what is refused, status 1 for a caught exception. */
  datatype Verdict = Allowed(limit: int) | Denied(schema: string, name: string) | Failed

  predicate IsDenied(snap: Snapshot, user: User, inst: Instance, t: TableRef) {
    DbPriv(snap, user, inst, t.schema) == 0 && TbPriv(snap, user, inst, t.schema, t.name) == 0
  }

  function FirstDenied(snap: Snapshot, user: User, inst: Instance, tables: seq<TableRef>): Option<TableRef> {
    if tables == [] then None
    else if IsDenied(snap, user, inst, tables[0]) then Some(tables[0])
    else FirstDenied(snap, user, inst, tables[1..])
  }

  /** The smaller of a limit found and the one so far, of which 0 means none. */
  function Capped(limit: int, soFar: int): int {
    if soFar != 0 then Min(limit, soFar) else limit
  }

  /** The second pass: the limit after all tables, or none after an exception. */
  function LimitOver(snap: Snapshot, user: User, inst: Instance, tables: seq<TableRef>, soFar: int): Option<int> {
    if tables == [] then Some(soFar)
    else match PrivLimit(snap, user, inst, tables[0].schema, tables[0].name)
      case None => None
      case Some(limit) => LimitOver(snap, user, inst, tables[1..], Capped(limit, soFar))
  }

  function CheckTables(snap: Snapshot, user: User, inst: Instance, tables: seq<TableRef>, requested: int): Verdict {
    match FirstDenied(snap, user, inst, tables)
    case Some(t) => Denied(t.schema, t.name)
    case None =>
      match LimitOver(snap, user, inst, tables, requested)
      case Some(limit) => Allowed(limit)
      case None => Failed
  }

  /** The passes over databases are those over tables without a table name. */
  function CheckDbs(snap: Snapshot, user: User, inst: Instance, dbs: seq<string>, requested: int): Verdict {
    match FirstDeniedDb(snap, user, inst, dbs)
    case Some(db) => Denied(db, "")
    case None =>
      match LimitOver(snap, user, inst, WholeDbs(dbs), requested)
      case Some(limit) => Allowed(limit)
      case None => Failed
  }

  function FirstDeniedDb(snap: Snapshot, user: User, inst: Instance, dbs: seq<string>): Option<string> {
    if dbs == [] then None
    else if DbPriv(snap, user, inst, dbs[0]) == 0 then Some(dbs[0])
    else FirstDeniedDb(snap, user, inst, dbs[1..])
  }

  function WholeDbs(dbs: seq<string>): seq<TableRef> {
    if dbs == [] then [] else [TableRef(dbs[0], "")] + WholeDbs(dbs[1..])
  }

  const SKIP_CHECK := Or(Lit("explain"), Cat(Lit("show"), Cat(Many(Blank, 1), Lit("create"))))

  predicate SkipsCheck(sql: string) {
    MatchAtStart(SKIP_CHECK, sql).Matched?
  }

  /** The administrator of everything, or of a resource group that holds the instance. */
  predicate Bypasses(user: User, inst: Instance) {
    || HasPerm(user, "sql.query_all_instances")
    || (HasPerm(user, "sql.query_resource_group_instance") && inst.id in user.readable)
  }

  // ---- the databases a query on another engine needs -------------------------------------

  /** The order of `list.sort()` on strings. */
  predicate Before(a: string, b: string) {
    if a == "" || b == "" then a == "" && b != ""
    else if a[0] != b[0] then a[0] < b[0]
    else Before(a[1..], b[1..])
  }

  function Insert(name: string, sorted: seq<string>): seq<string> {
    if sorted == [] || Before(name, sorted[0]) then [name] + sorted
    else if name == sorted[0] then sorted
    else [sorted[0]] + Insert(name, sorted[1..])
  }

  /** `sorted(set(names))`. */
  function SortedDistinct(names: seq<string>): seq<string> {
    if names == [] then [] else Insert(names[0], SortedDistinct(names[1..]))
  }

  function SchemaNames(schemas: seq<Option<string>>): seq<string> {
    if schemas == [] then []
    else (if schemas[0].Some? then [StripChar(schemas[0].value, '`')] else []) + SchemaNames(schemas[1..])
  }

  /** A query: the selected database, the statement, the limit asked for (0 for none), the tables
      that parsing finds, missing when it fails, and the schemas that extraction finds. */
  datatype Query = Query(dbName: string, sql: string, requested: int, tableRef: Option<seq<TableRef>>,
                         extracted: seq<Option<string>>)

  /** Redis, SQL Server and PostgreSQL are checked against the selected database only. */
  function NeededDbs(inst: Instance, dbName: string, extracted: seq<Option<string>>): seq<string> {
    SortedDistinct(
      if inst.dbType in ["redis", "mssql", "pgsql"] then [dbName] else SchemaNames(extracted) + [dbName])
  }

  /** The whole of `query_priv_check`. */
  function Check(snap: Snapshot, user: User, inst: Instance, q: Query): Verdict {
    if Bypasses(user, inst) then Allowed(Capped(snap.adminLimit, q.requested))
    else if inst.dbType == "mysql" then
      if SkipsCheck(q.sql) then Allowed(0)
      else if q.tableRef.None? then Failed
      else CheckTables(snap, user, inst, q.tableRef.value, q.requested)
    else CheckDbs(snap, user, inst, NeededDbs(inst, q.dbName, q.extracted), q.requested)
  }

  /** What a query is checked against on any engine: its tables, or the databases it needs, each
      as a table without a name. */
  function Needed(inst: Instance, q: Query): Option<seq<TableRef>> {
    if inst.dbType == "mysql" then q.tableRef else Some(WholeDbs(NeededDbs(inst, q.dbName, q.extracted)))
  }

  /** No privilege is looked up at all. */
  predicate IsExempt(user: User, inst: Instance, q: Query) {
    Bypasses(user, inst) || (inst.dbType == "mysql" && SkipsCheck(q.sql))
  }

  // ---- which statements are not checked --------------------------------------------------

  /** The statement starts with `show`, some blanks and `create`. */
  ghost predicate ReadsShowCreate(sql: string) {
    Reads(sql, 0, "show") && ReadsBehindBlanks(sql, 4, "create")
  }

  /** The check is skipped exactly for statements that start with `explain` or `show create`, in
      any letter case and with any blanks between the two words. */
  lemma SkipsExactly(sql: string)
    ensures SkipsCheck(sql) <==> Reads(sql, 0, "explain") || ReadsShowCreate(sql)
  {
    var create := Then(Lit("create"), Halt);
    var blanks := Then(Cat(Many(Blank, 1), Lit("create")), Halt);
    MatchLit("explain", Halt, sql, 0, map[]);
    MatchLit("show", blanks, sql, 0, map[]);
    assert Match(Cat(Lit("show"), Cat(Many(Blank, 1), Lit("create"))), Halt, sql, 0, map[])
        == Match(Lit("show"), blanks, sql, 0, map[]);
    if Reads(sql, 0, "show") {
      assert Resume(blanks, sql, 4, map[]) == Match(Many(Blank, 1), create, sql, 4, map[]);
      WordBehindBlanks("create", sql, 4);
    }
  }

  /** One or more blanks and then the word, from position `i` on. */
  ghost predicate ReadsBehindBlanks(s: string, i: nat, w: string) {
    exists e :: i < e <= |s| && Reads(s, e, w) && forall j | i <= j < e :: IsSpace(s[j])
  }

  lemma WordBehindBlanks(w: string, s: string, i: nat)
    requires i <= |s| && w != "" && forall c | IsSpace(c) :: !SameLetter(c, w[0])
    ensures Match(Many(Blank, 1), Then(Lit(w), Halt), s, i, map[]).Matched? <==> ReadsBehindBlanks(s, i, w)
  {
    var word := Then(Lit(w), Halt);
    forall e | i <= e <= |s|
      ensures Resume(word, s, e, map[]).Matched? <==> Reads(s, e, w)
    {
      MatchLit(w, Halt, s, e, map[]);
    }
    if Match(Many(Blank, 1), word, s, i, map[]).Matched? {
      var m := GreedyEnds(1, word, s, i, Run(Blank, s, i), map[]);
      assert Reads(s, i + m, w);
    }
    if ReadsBehindBlanks(s, i, w) {
      var e :| i < e <= |s| && Reads(s, e, w) && forall j | i <= j < e :: IsSpace(s[j]);
      BlanksAndWordMatch(w, s, i, e);
    }
  }

  lemma BlanksAndWordMatch(w: string, s: string, i: nat, e: nat)
    requires w != "" && forall c | IsSpace(c) :: !SameLetter(c, w[0])
    requires i < e <= |s| && Reads(s, e, w) && forall j | i <= j < e :: IsSpace(s[j])
    ensures Match(Many(Blank, 1), Then(Lit(w), Halt), s, i, map[]).Matched?
  {
    var word := Then(Lit(w), Halt);
    MatchLit(w, Halt, s, e, map[]);
    assert Resume(word, s, e, map[]).Matched?;
    ReadsStep(s, e, w);
    RunTakenWhole(Blank, 1, e - i, word, s, i, map[]);
  }

  // ---- laws of the lookup ----------------------------------------------------------------

  predicate IdsIncrease(rows: seq<Privilege>) {
    forall i, j | 0 <= i < j < |rows| :: rows[i].id < rows[j].id
  }

  /** The row a lookup takes is the matching one with the lowest id. */
  lemma {:induction false} FirstIsLowestId(rows: seq<Privilege>, user: string, instanceId: int, w: Wanted,
                                           today: int, k: nat)
    requires IdsIncrease(rows) && k < |rows| && Grants(rows[k], user, instanceId, w, today)
    requires forall j | 0 <= j < |rows| && Grants(rows[j], user, instanceId, w, today) :: rows[k].id <= rows[j].id
    ensures FirstLimit(rows, user, instanceId, w, today) == rows[k].limitNum
  {
    if k > 0 {
      assert !Grants(rows[0], user, instanceId, w, today);
      FirstIsLowestId(rows[1..], user, instanceId, w, today, k - 1);
    }
  }

  lemma {:induction false} FirstLimitHasRow(rows: seq<Privilege>, user: string, instanceId: int, w: Wanted, today: int)
    returns (k: nat)
    requires FirstLimit(rows, user, instanceId, w, today) != 0
    ensures k < |rows| && Grants(rows[k], user, instanceId, w, today)
    ensures rows[k].limitNum == FirstLimit(rows, user, instanceId, w, today)
    ensures rows[k].userName == user && rows[k].instanceId == instanceId
    ensures !rows[k].isDeleted && today <= rows[k].validDate
    ensures forall j | 0 <= j < k :: !Grants(rows[j], user, instanceId, w, today)
  {
    if Grants(rows[0], user, instanceId, w, today) {
      k := 0;
    } else {
      k := FirstLimitHasRow(rows[1..], user, instanceId, w, today);
      k := k + 1;
    }
  }

  /** Row `k` is a live row for what is wanted, and the one with the lowest id. */
  ghost predicate IsLowestGrant(rows: seq<Privilege>, user: string, instanceId: int, w: Wanted, today: int, k: nat) {
    && k < |rows| && Grants(rows[k], user, instanceId, w, today)
    && forall j | 0 <= j < |rows| && Grants(rows[j], user, instanceId, w, today) :: rows[k].id <= rows[j].id
  }

  /** There is a live row for what is wanted, and the one with the lowest id has a limit. */
  ghost predicate HasLiveLimit(rows: seq<Privilege>, user: string, instanceId: int, w: Wanted, today: int) {
    exists k: nat :: IsLowestGrant(rows, user, instanceId, w, today, k) && rows[k].limitNum != 0
  }

  /** A lookup finds a privilege exactly when the live row of lowest id has a nonzero limit; live
      rows behind it do not matter. */
  lemma FirstLimitExactly(rows: seq<Privilege>, user: string, instanceId: int, w: Wanted, today: int)
    requires IdsIncrease(rows)
    ensures FirstLimit(rows, user, instanceId, w, today) != 0 <==> HasLiveLimit(rows, user, instanceId, w, today)
  {
    if FirstLimit(rows, user, instanceId, w, today) != 0 {
      var k := FirstLimitHasRow(rows, user, instanceId, w, today);
      assert IsLowestGrant(rows, user, instanceId, w, today, k);
    }
    if HasLiveLimit(rows, user, instanceId, w, today) {
      var k: nat :| IsLowestGrant(rows, user, instanceId, w, today, k) && rows[k].limitNum != 0;
      FirstIsLowestId(rows, user, instanceId, w, today, k);
    }
  }

  lemma {:induction false} FirstLimitFinds(rows: seq<Privilege>, user: string, instanceId: int, w: Wanted,
                                           today: int, k: nat)
    requires k < |rows| && Grants(rows[k], user, instanceId, w, today)
    requires forall p | p in rows :: p.limitNum != 0
    ensures FirstLimit(rows, user, instanceId, w, today) != 0
  {
    if Grants(rows[0], user, instanceId, w, today) {
      assert rows[0] in rows;
    } else {
      assert forall p | p in rows[1..] :: p in rows;
      FirstLimitFinds(rows[1..], user, instanceId, w, today, k - 1);
    }
  }

  lemma {:induction false} FirstLimitExtended(rows: seq<Privilege>, more: seq<Privilege>, user: string,
                                              instanceId: int, w: Wanted, today: int)
    ensures FirstLimit(rows, user, instanceId, w, today) != 0
        ==> FirstLimit(rows + more, user, instanceId, w, today) == FirstLimit(rows, user, instanceId, w, today)
  {
    if rows != [] {
      assert (rows + more)[1..] == rows[1..] + more;
      FirstLimitExtended(rows[1..], more, user, instanceId, w, today);
    }
  }

  // ---- laws of the two passes ------------------------------------------------------------

  /** A table the first pass accepts and the second pass finds no limit for: it has no name,
      and only a table privilege. */
  predicate IsNameless(snap: Snapshot, user: User, inst: Instance, t: TableRef) {
    t.name == "" && DbPriv(snap, user, inst, t.schema) == 0
  }

  lemma {:induction false} FirstDeniedExactly(snap: Snapshot, user: User, inst: Instance, tables: seq<TableRef>)
    ensures FirstDenied(snap, user, inst, tables).None?
       <==> forall t | t in tables :: !IsDenied(snap, user, inst, t)
    ensures FirstDenied(snap, user, inst, tables).Some? ==>
      var t := FirstDenied(snap, user, inst, tables).value;
      t in tables && IsDenied(snap, user, inst, t)
  {
    if tables != [] {
      FirstDeniedExactly(snap, user, inst, tables[1..]);
    }
  }

  lemma {:induction false} LimitOverExactly(snap: Snapshot, user: User, inst: Instance, tables: seq<TableRef>,
                                            soFar: int)
    ensures LimitOver(snap, user, inst, tables, soFar).Some?
       <==> forall t | t in tables :: PrivLimit(snap, user, inst, t.schema, t.name).Some?
  {
    if tables != [] && PrivLimit(snap, user, inst, tables[0].schema, tables[0].name).Some? {
      var limit := PrivLimit(snap, user, inst, tables[0].schema, tables[0].name).value;
      LimitOverExactly(snap, user, inst, tables[1..], Capped(limit, soFar));
      assert tables == [tables[0]] + tables[1..];
    }
  }

  /** The three outcomes, each by a condition on single tables: in particular the second pass
      fails after a successful first one exactly on a nameless table. */
  lemma VerdictExactly(snap: Snapshot, user: User, inst: Instance, tables: seq<TableRef>, requested: int)
    ensures
      var v := CheckTables(snap, user, inst, tables, requested);
      && (v.Denied? <==> exists t | t in tables :: IsDenied(snap, user, inst, t))
      && (v.Failed? <==> (forall t | t in tables :: !IsDenied(snap, user, inst, t))
                         && exists t | t in tables :: IsNameless(snap, user, inst, t))
      && (v.Allowed? <==> forall t | t in tables ::
            !IsDenied(snap, user, inst, t) && !IsNameless(snap, user, inst, t))
  {
    FirstDeniedExactly(snap, user, inst, tables);
    LimitOverExactly(snap, user, inst, tables, requested);
    forall t | t in tables && !IsDenied(snap, user, inst, t)
      ensures PrivLimit(snap, user, inst, t.schema, t.name).Some? <==> !IsNameless(snap, user, inst, t)
    {
    }
  }

  /** `l` is the limit of the user's first live database or table privilege for the table. */
  predicate IsLimitFor(snap: Snapshot, user: User, inst: Instance, t: TableRef, l: int) {
    l != 0 && (l == DbPriv(snap, user, inst, t.schema)
               || (t.name != "" && l == TbPriv(snap, user, inst, t.schema, t.name)))
  }

  /** `m` is the least of the request, unless that is 0, and of all limits for the tables. */
  ghost predicate IsLeastLimit(snap: Snapshot, user: User, inst: Instance, tables: seq<TableRef>, requested: int,
                               m: int)
  {
    && (requested != 0 ==> m <= requested)
    && (forall t, l | t in tables && IsLimitFor(snap, user, inst, t, l) :: m <= l)
    && ((requested != 0 && m == requested) || exists t | t in tables :: IsLimitFor(snap, user, inst, t, m))
  }

  lemma PrivLimitIsLeast(snap: Snapshot, user: User, inst: Instance, t: TableRef)
    requires PrivLimit(snap, user, inst, t.schema, t.name).Some?
    ensures
      var m := PrivLimit(snap, user, inst, t.schema, t.name).value;
      IsLimitFor(snap, user, inst, t, m) && forall l | IsLimitFor(snap, user, inst, t, l) :: m <= l
  {
  }

  lemma {:induction false} LimitOverIsLeast(snap: Snapshot, user: User, inst: Instance, tables: seq<TableRef>,
                                            soFar: int)
    requires tables != [] && LimitOver(snap, user, inst, tables, soFar).Some?
    ensures IsLeastLimit(snap, user, inst, tables, soFar, LimitOver(snap, user, inst, tables, soFar).value)
    ensures LimitOver(snap, user, inst, tables, soFar).value != 0
  {
    var first := PrivLimit(snap, user, inst, tables[0].schema, tables[0].name).value;
    var rest, next := tables[1..], Capped(first, soFar);
    PrivLimitIsLeast(snap, user, inst, tables[0]);
    assert tables[0] in tables;
    if rest != [] {
      LimitOverIsLeast(snap, user, inst, rest, next);
      assert forall t | t in rest :: t in tables;
      assert forall t | t in tables :: t == tables[0] || t in rest;
    } else {
      assert forall t | t in tables :: t == tables[0];
    }
  }

  /** The limit of an allowed query is the least of the request and the limits of its tables;
      with no table it is the request. */
  lemma AllowedLimit(snap: Snapshot, user: User, inst: Instance, tables: seq<TableRef>, requested: int)
    requires CheckTables(snap, user, inst, tables, requested).Allowed?
    ensures
      var limit := CheckTables(snap, user, inst, tables, requested).limit;
      if tables == [] then limit == requested
      else limit != 0 && IsLeastLimit(snap, user, inst, tables, requested, limit)
  {
    if tables != [] {
      LimitOverIsLeast(snap, user, inst, tables, requested);
    }
  }

  /** Status and limit depend on which tables are named, not on their order or number. */
  lemma OrderIrrelevant(snap: Snapshot, user: User, inst: Instance, a: seq<TableRef>, b: seq<TableRef>, requested: int)
    requires forall t :: t in a <==> t in b
    ensures
      var va, vb := CheckTables(snap, user, inst, a, requested), CheckTables(snap, user, inst, b, requested);
      && (va.Denied? <==> vb.Denied?) && (va.Failed? <==> vb.Failed?)
      && (va.Allowed? ==> vb.Allowed? && va.limit == vb.limit)
  {
    VerdictExactly(snap, user, inst, a, requested);
    VerdictExactly(snap, user, inst, b, requested);
    assert forall i | 0 <= i < |a| :: a[i] in b;
    assert forall i | 0 <= i < |b| :: b[i] in a;
    if CheckTables(snap, user, inst, a, requested).Allowed? {
      AllowedLimit(snap, user, inst, a, requested);
      AllowedLimit(snap, user, inst, b, requested);
    }
  }

  // ---- other engines ---------------------------------------------------------------------

  lemma {:induction false} BeforeTotal(a: string, b: string)
    ensures Before(a, b) || a == b || Before(b, a)
    ensures !(Before(a, b) && Before(b, a)) && !Before(a, a)
  {
    if a != "" && b != "" {
      BeforeTotal(a[1..], b[1..]);
      assert a == [a[0]] + a[1..] && b == [b[0]] + b[1..];
    }
    if a != "" {
      BeforeTotal(a[1..], a[1..]);
    }
  }

  predicate StrictlySorted(names: seq<string>) {
    forall i | 0 <= i < |names| - 1 :: Before(names[i], names[i + 1])
  }

  lemma {:induction false} InsertKeeps(name: string, sorted: seq<string>)
    requires StrictlySorted(sorted)
    ensures StrictlySorted(Insert(name, sorted))
    ensures forall n :: n in Insert(name, sorted) <==> n == name || n in sorted
    ensures sorted != [] && !Before(name, sorted[0]) ==> Insert(name, sorted)[0] == sorted[0]
  {
    if sorted == [] || Before(name, sorted[0]) {
    } else if name == sorted[0] {
    } else {
      BeforeTotal(name, sorted[0]);
      var rest := sorted[1..];
      assert StrictlySorted(rest) by {
        forall i | 0 <= i < |rest| - 1 ensures Before(rest[i], rest[i + 1]) {
          assert Before(sorted[i + 1], sorted[i + 1 + 1]);
        }
      }
      InsertKeeps(name, rest);
      var r := Insert(name, rest);
      assert Before(sorted[0], r[0]) by {
        if rest != [] && !Before(name, rest[0]) {
          assert Before(sorted[0], sorted[0 + 1]);
        }
      }
      assert Insert(name, sorted) == [sorted[0]] + r;
      assert sorted == [sorted[0]] + rest;
    }
  }

  /** Every name once, in increasing order, and no other. */
  lemma {:induction false} SortedDistinctExactly(names: seq<string>)
    ensures StrictlySorted(SortedDistinct(names))
    ensures forall n :: n in SortedDistinct(names) <==> n in names
  {
    if names != [] {
      SortedDistinctExactly(names[1..]);
      InsertKeeps(names[0], SortedDistinct(names[1..]));
    }
  }

  lemma {:induction false} FirstDeniedDbExactly(snap: Snapshot, user: User, inst: Instance, dbs: seq<string>)
    ensures FirstDeniedDb(snap, user, inst, dbs).None? <==> forall db | db in dbs :: DbPriv(snap, user, inst, db) != 0
  {
    if dbs != [] {
      FirstDeniedDbExactly(snap, user, inst, dbs[1..]);
    }
  }

  lemma {:induction false} WholeDbsMembers(dbs: seq<string>)
    ensures forall t :: t in WholeDbs(dbs) <==> t.name == "" && t.schema in dbs
    ensures |WholeDbs(dbs)| == |dbs|
  {
    if dbs != [] {
      WholeDbsMembers(dbs[1..]);
    }
  }

  /** On engines other than MySQL a query is allowed exactly when the user has each needed
      database, otherwise refused; the exception of the second pass cannot happen, and the
      limit is the least over the needed databases. */
  lemma OtherEngineExactly(snap: Snapshot, user: User, inst: Instance, dbName: string,
                           extracted: seq<Option<string>>, requested: int)
    ensures
      var dbs := NeededDbs(inst, dbName, extracted);
      var v := CheckDbs(snap, user, inst, dbs, requested);
      && dbs != [] && !v.Failed?
      && (v.Allowed? <==> forall db | db in dbs :: DbPriv(snap, user, inst, db) != 0)
      && (v.Allowed? ==> IsLeastLimit(snap, user, inst, WholeDbs(dbs), requested, v.limit))
  {
    var names := if inst.dbType in ["redis", "mssql", "pgsql"] then [dbName] else SchemaNames(extracted) + [dbName];
    var dbs := NeededDbs(inst, dbName, extracted);
    SortedDistinctExactly(names);
    assert dbName in names;
    assert dbName in dbs;
    WholeDbsMembers(dbs);
    FirstDeniedDbExactly(snap, user, inst, dbs);
    LimitOverExactly(snap, user, inst, WholeDbs(dbs), requested);
    if FirstDeniedDb(snap, user, inst, dbs).None? {
      forall t | t in WholeDbs(dbs) ensures PrivLimit(snap, user, inst, t.schema, t.name).Some? {
        assert t.schema in dbs;
      }
      LimitOverIsLeast(snap, user, inst, WholeDbs(dbs), requested);
    }
  }

  // ---- any engine ------------------------------------------------------------------------

  /** On every engine, a query that is checked at all is allowed exactly when each table or
      database it needs has a limit, and then with the limit of the second pass. */
  lemma CheckExactly(snap: Snapshot, user: User, inst: Instance, q: Query)
    requires !IsExempt(user, inst, q)
    ensures
      var needed, v := Needed(inst, q), Check(snap, user, inst, q);
      && (v.Allowed? <==>
            needed.Some? && forall t | t in needed.value :: PrivLimit(snap, user, inst, t.schema, t.name).Some?)
      && (v.Allowed? ==> LimitOver(snap, user, inst, needed.value, q.requested) == Some(v.limit))
  {
    var needed := Needed(inst, q);
    if needed.Some? {
      LimitOverExactly(snap, user, inst, needed.value, q.requested);
      if inst.dbType == "mysql" {
        VerdictExactly(snap, user, inst, needed.value, q.requested);
        forall t | t in needed.value && PrivLimit(snap, user, inst, t.schema, t.name).Some?
          ensures !IsDenied(snap, user, inst, t)
        {
        }
      } else {
        CheckDbsExactly(snap, user, inst, NeededDbs(inst, q.dbName, q.extracted), q.requested);
      }
    }
  }

  lemma CheckDbsExactly(snap: Snapshot, user: User, inst: Instance, dbs: seq<string>, requested: int)
    ensures
      var v := CheckDbs(snap, user, inst, dbs, requested);
      && (v.Allowed? <==> forall t | t in WholeDbs(dbs) :: PrivLimit(snap, user, inst, t.schema, t.name).Some?)
      && (v.Allowed? ==> LimitOver(snap, user, inst, WholeDbs(dbs), requested) == Some(v.limit))
  {
    FirstDeniedDbExactly(snap, user, inst, dbs);
    LimitOverExactly(snap, user, inst, WholeDbs(dbs), requested);
    WholeDbsMembers(dbs);
    forall db | db in dbs
      ensures PrivLimit(snap, user, inst, db, "").Some? <==> DbPriv(snap, user, inst, db) != 0
      ensures TableRef(db, "") in WholeDbs(dbs)
    {
    }
  }

  /** The live rows cover the table: by its database, or by itself if it has a name. */
  ghost predicate IsCovered(snap: Snapshot, user: User, inst: Instance, t: TableRef) {
    || HasLiveLimit(snap.rows, user.name, inst.id, Db(t.schema), snap.today)
    || (t.name != "" && HasLiveLimit(snap.rows, user.name, inst.id, Tbl(t.schema, t.name), snap.today))
  }

  lemma CoveredExactly(snap: Snapshot, user: User, inst: Instance, t: TableRef)
    requires IdsIncrease(snap.rows) && !user.isSuperuser
    ensures PrivLimit(snap, user, inst, t.schema, t.name).Some? <==> IsCovered(snap, user, inst, t)
  {
    FirstLimitExactly(snap.rows, user.name, inst.id, Db(t.schema), snap.today);
    FirstLimitExactly(snap.rows, user.name, inst.id, Tbl(t.schema, t.name), snap.today);
  }

  /** The first pass refuses a table exactly when neither its database nor the table itself has a
      live row whose lowest id carries a limit. */
  lemma DeniedExactly(snap: Snapshot, user: User, inst: Instance, t: TableRef)
    requires IdsIncrease(snap.rows) && !user.isSuperuser
    ensures IsDenied(snap, user, inst, t) <==>
      && !HasLiveLimit(snap.rows, user.name, inst.id, Db(t.schema), snap.today)
      && !HasLiveLimit(snap.rows, user.name, inst.id, Tbl(t.schema, t.name), snap.today)
  {
    FirstLimitExactly(snap.rows, user.name, inst.id, Db(t.schema), snap.today);
    FirstLimitExactly(snap.rows, user.name, inst.id, Tbl(t.schema, t.name), snap.today);
  }

  // ---- more rows -------------------------------------------------------------------------

  lemma LimitsDoNotRise(snap: Snapshot, more: seq<Privilege>, user: User, inst: Instance, t: TableRef)
    requires PrivLimit(snap, user, inst, t.schema, t.name).Some?
    ensures
      var after := PrivLimit(snap.(rows := snap.rows + more), user, inst, t.schema, t.name);
      after.Some? && after.value <= PrivLimit(snap, user, inst, t.schema, t.name).value
  {
    FirstLimitExtended(snap.rows, more, user.name, inst.id, Db(t.schema), snap.today);
    FirstLimitExtended(snap.rows, more, user.name, inst.id, Tbl(t.schema, t.name), snap.today);
  }

  lemma LeastDoesNotRise(snap: Snapshot, more: seq<Privilege>, user: User, inst: Instance, tables: seq<TableRef>,
                         requested: int)
    requires LimitOver(snap, user, inst, tables, requested).Some?
    ensures
      var after := LimitOver(snap.(rows := snap.rows + more), user, inst, tables, requested);
      after.Some? && after.value <= LimitOver(snap, user, inst, tables, requested).value
  {
    var snap' := snap.(rows := snap.rows + more);
    LimitOverExactly(snap, user, inst, tables, requested);
    LimitOverExactly(snap', user, inst, tables, requested);
    forall t | t in tables ensures PrivLimit(snap', user, inst, t.schema, t.name).Some? {
      LimitsDoNotRise(snap, more, user, inst, t);
    }
    if tables != [] {
      LimitOverIsLeast(snap, user, inst, tables, requested);
      LimitOverIsLeast(snap', user, inst, tables, requested);
      var m := LimitOver(snap, user, inst, tables, requested).value;
      if !(requested != 0 && m == requested) {
        var t :| t in tables && IsLimitFor(snap, user, inst, t, m);
        LimitsDoNotRise(snap, more, user, inst, t);
        PrivLimitIsLeast(snap, user, inst, t);
        PrivLimitIsLeast(snap', user, inst, t);
      }
    }
  }

  /** On every engine, rows added behind the others never take an allowed query away and never
      raise its limit. */
  lemma MoreRowsNeverDeny(snap: Snapshot, more: seq<Privilege>, user: User, inst: Instance, q: Query)
    requires Check(snap, user, inst, q).Allowed?
    ensures
      var before, after := Check(snap, user, inst, q), Check(snap.(rows := snap.rows + more), user, inst, q);
      after.Allowed? && after.limit <= before.limit
  {
    if !IsExempt(user, inst, q) {
      var snap' := snap.(rows := snap.rows + more);
      CheckExactly(snap, user, inst, q);
      CheckExactly(snap', user, inst, q);
      LeastDoesNotRise(snap, more, user, inst, Needed(inst, q).value, q.requested);
      LimitOverExactly(snap', user, inst, Needed(inst, q).value, q.requested);
    }
  }
}
