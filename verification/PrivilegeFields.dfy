/** What the checker, applying and the batch operations do, said by the columns of the rows alone:
    the queries of the lookups are written out here a second time, as sets of rows. */
module PrivilegeFields {
  import opened Text
  import Pattern
  import opened Wrappers
  import opened PrivilegeChecks
  import opened PrivilegeStore
  import opened PrivilegeRuns

  // ---- the lookups as sets of rows -------------------------------------------------------

  /** The rows for a database, or for all of them. */
  ghost function DbRows(snap: Snapshot, user: User, inst: Instance, db: string): set<Privilege> {
    set p | p in snap.rows && p.userName == user.name && p.instanceId == inst.id && p.privType == 1
            && p.dbName in {db, "*"} && p.validDate >= snap.today && !p.isDeleted
  }

  /** The rows for a table. */
  ghost function TableRows(snap: Snapshot, user: User, inst: Instance, t: TableRef): set<Privilege> {
    set p | p in snap.rows && p.userName == user.name && p.instanceId == inst.id && p.privType == 2
            && p.dbName == t.schema && p.tableName == t.name && p.validDate >= snap.today && !p.isDeleted
  }

  /** The row of lowest id has a nonzero limit. */
  ghost predicate FirstHasLimit(found: set<Privilege>) {
    exists p :: p in found && p.limitNum != 0 && forall r | r in found :: p.id <= r.id
  }

  lemma LimitInSet(rows: seq<Privilege>, user: string, instanceId: int, w: Wanted, today: int, found: set<Privilege>)
    requires IdsIncrease(rows)
    requires forall p :: p in found <==> p in rows && Grants(p, user, instanceId, w, today)
    ensures FirstLimit(rows, user, instanceId, w, today) != 0 <==> FirstHasLimit(found)
  {
    FirstLimitExactly(rows, user, instanceId, w, today);
    if HasLiveLimit(rows, user, instanceId, w, today) {
      var k: nat :| IsLowestGrant(rows, user, instanceId, w, today, k) && rows[k].limitNum != 0;
      assert rows[k] in found;
    }
    if FirstHasLimit(found) {
      var p :| p in found && p.limitNum != 0 && forall r | r in found :: p.id <= r.id;
      var k :| 0 <= k < |rows| && rows[k] == p;
      forall j | 0 <= j < |rows| && Grants(rows[j], user, instanceId, w, today)
        ensures rows[k].id <= rows[j].id
      {
        assert rows[j] in found;
      }
      assert IsLowestGrant(rows, user, instanceId, w, today, k);
    }
  }

  lemma LookupsByColumns(snap: Snapshot, user: User, inst: Instance, t: TableRef)
    requires IdsIncrease(snap.rows) && !user.isSuperuser
    ensures DbPriv(snap, user, inst, t.schema) != 0 <==> FirstHasLimit(DbRows(snap, user, inst, t.schema))
    ensures TbPriv(snap, user, inst, t.schema, t.name) != 0 <==> FirstHasLimit(TableRows(snap, user, inst, t))
  {
    LimitInSet(snap.rows, user.name, inst.id, Db(t.schema), snap.today, DbRows(snap, user, inst, t.schema));
    LimitInSet(snap.rows, user.name, inst.id, Tbl(t.schema, t.name), snap.today, TableRows(snap, user, inst, t));
  }

  // ---- the checker -----------------------------------------------------------------------

  /** The administrators of everything, or of a resource group with the instance, get the limit for
      administrators, or their own request if that is smaller and not 0. */
  lemma BypassByColumns(snap: Snapshot, user: User, inst: Instance, q: Query)
    requires
      || user.isSuperuser || "sql.query_all_instances" in user.perms
      || ("sql.query_resource_group_instance" in user.perms && inst.id in user.readable)
    ensures Check(snap, user, inst, q)
         == Allowed(if 0 != q.requested < snap.adminLimit then q.requested else snap.adminLimit)
  {
  }

  /** All other users. */
  predicate IsOrdinary(user: User, inst: Instance) {
    && !user.isSuperuser && "sql.query_all_instances" !in user.perms
    && ("sql.query_resource_group_instance" !in user.perms || inst.id !in user.readable)
  }

  /** Of an ordinary user, MySQL statements that start with `explain` or `show create` are not
      checked and have no limit. */
  lemma SkippedByText(snap: Snapshot, user: User, inst: Instance, q: Query)
    requires IsOrdinary(user, inst) && inst.dbType == "mysql"
    requires Pattern.Reads(q.sql, 0, "explain") || ReadsShowCreate(q.sql)
    ensures Check(snap, user, inst, q) == Allowed(0)
  {
    SkipsExactly(q.sql);
  }

  /** Every other MySQL query of an ordinary user: it fails when it cannot be parsed, is refused
      when neither the database nor the table of some table has a row whose lowest id has a limit,
      and is allowed when each has one for its database, or has a name and one for itself. */
  lemma TablesByColumns(snap: Snapshot, user: User, inst: Instance, q: Query)
    requires IdsIncrease(snap.rows) && IsOrdinary(user, inst) && inst.dbType == "mysql"
    requires !Pattern.Reads(q.sql, 0, "explain") && !ReadsShowCreate(q.sql)
    ensures q.tableRef.None? ==> Check(snap, user, inst, q).Failed?
    ensures q.tableRef.Some? ==>
      var v := Check(snap, user, inst, q);
      && (v.Denied? <==> exists t | t in q.tableRef.value ::
            !FirstHasLimit(DbRows(snap, user, inst, t.schema)) && !FirstHasLimit(TableRows(snap, user, inst, t)))
      && (v.Allowed? <==> forall t | t in q.tableRef.value ::
            || FirstHasLimit(DbRows(snap, user, inst, t.schema))
            || (t.name != "" && FirstHasLimit(TableRows(snap, user, inst, t))))
  {
    SkipsExactly(q.sql);
    if q.tableRef.Some? {
      VerdictExactly(snap, user, inst, q.tableRef.value, q.requested);
      forall t | t in q.tableRef.value
        ensures IsDenied(snap, user, inst, t) <==>
          !FirstHasLimit(DbRows(snap, user, inst, t.schema)) && !FirstHasLimit(TableRows(snap, user, inst, t))
        ensures !IsDenied(snap, user, inst, t) && !IsNameless(snap, user, inst, t) <==>
          || FirstHasLimit(DbRows(snap, user, inst, t.schema))
          || (t.name != "" && FirstHasLimit(TableRows(snap, user, inst, t)))
      {
        LookupsByColumns(snap, user, inst, t);
      }
    }
  }

  lemma {:induction false} SchemaNamesExactly(schemas: seq<Option<string>>)
    ensures forall n :: n in SchemaNames(schemas) <==>
      exists s | s in schemas :: s.Some? && n == StripChar(s.value, '`')
  {
    if schemas != [] {
      SchemaNamesExactly(schemas[1..]);
      assert schemas == [schemas[0]] + schemas[1..];
    }
  }

  /** The databases a query on another engine needs: the selected one, and on engines other than
      Redis, SQL Server and PostgreSQL those of the statement, without their backticks. */
  lemma NeededExactly(inst: Instance, q: Query, db: string)
    ensures db in NeededDbs(inst, q.dbName, q.extracted) <==>
      || db == q.dbName
      || (inst.dbType != "redis" && inst.dbType != "mssql" && inst.dbType != "pgsql"
          && exists s | s in q.extracted :: s.Some? && db == StripChar(s.value, '`'))
  {
    SchemaNamesExactly(q.extracted);
    SortedDistinctExactly(
      if inst.dbType in ["redis", "mssql", "pgsql"] then [q.dbName] else SchemaNames(q.extracted) + [q.dbName]);
  }

  /** On another engine, a query of an ordinary user is allowed when every database it needs has a
      row whose lowest id has a limit, and refused otherwise. */
  lemma DatabasesByColumns(snap: Snapshot, user: User, inst: Instance, q: Query)
    requires IdsIncrease(snap.rows) && IsOrdinary(user, inst) && inst.dbType != "mysql"
    ensures
      var v := Check(snap, user, inst, q);
      && (v.Allowed? <==> forall db | db in NeededDbs(inst, q.dbName, q.extracted) ::
            FirstHasLimit(DbRows(snap, user, inst, db)))
      && (v.Allowed? || v.Denied?)
  {
    OtherEngineExactly(snap, user, inst, q.dbName, q.extracted, q.requested);
    forall db | db in NeededDbs(inst, q.dbName, q.extracted)
      ensures DbPriv(snap, user, inst, db) != 0 <==> FirstHasLimit(DbRows(snap, user, inst, db))
    {
      LookupsByColumns(snap, user, inst, TableRef(db, ""));
    }
  }

  /** What a refusal names is the first table or database that is refused. */
  lemma {:induction false} NamesFirstTable(snap: Snapshot, user: User, inst: Instance, tables: seq<TableRef>, k: nat)
    requires k < |tables| && IsDenied(snap, user, inst, tables[k])
    requires forall j | 0 <= j < k :: !IsDenied(snap, user, inst, tables[j])
    ensures FirstDenied(snap, user, inst, tables) == Some(tables[k])
    ensures forall requested ::
      CheckTables(snap, user, inst, tables, requested) == Denied(tables[k].schema, tables[k].name)
  {
    if k > 0 {
      NamesFirstTable(snap, user, inst, tables[1..], k - 1);
    }
  }

  lemma {:induction false} NamesFirstDb(snap: Snapshot, user: User, inst: Instance, dbs: seq<string>, k: nat)
    requires k < |dbs| && DbPriv(snap, user, inst, dbs[k]) == 0
    requires forall j | 0 <= j < k :: DbPriv(snap, user, inst, dbs[j]) != 0
    ensures FirstDeniedDb(snap, user, inst, dbs) == Some(dbs[k])
    ensures forall requested :: CheckDbs(snap, user, inst, dbs, requested) == Denied(dbs[k], "")
  {
    if k > 0 {
      NamesFirstDb(snap, user, inst, dbs[1..], k - 1);
    }
  }

  // ---- deleted and expired rows ----------------------------------------------------------

  /** A query that is checked and needs something. */
  predicate NeedsSomething(user: User, inst: Instance, q: Query) {
    && IsOrdinary(user, inst)
    && (inst.dbType == "mysql" ==> !SkipsCheck(q.sql) && q.tableRef.Some? && q.tableRef.value != [])
  }

  lemma {:induction false} NoRowNoLimit(rows: seq<Privilege>, user: string, instanceId: int, w: Wanted, today: int)
    requires forall p | p in rows && p.userName == user && p.instanceId == instanceId ::
      p.isDeleted || p.validDate < today
    ensures FirstLimit(rows, user, instanceId, w, today) == 0
  {
    if rows != [] {
      assert rows[0] in rows;
      assert forall p | p in rows[1..] :: p in rows;
      NoRowNoLimit(rows[1..], user, instanceId, w, today);
    }
  }

  /** When each row of the user on the instance is deleted or expired, both lookups find nothing and
      every query that is checked and needs something is refused. */
  lemma NoLiveRowRefused(snap: Snapshot, user: User, inst: Instance, q: Query)
    requires forall p | p in snap.rows && p.userName == user.name && p.instanceId == inst.id ::
      p.isDeleted || p.validDate < snap.today
    requires !user.isSuperuser
    ensures forall t: TableRef ::
      DbPriv(snap, user, inst, t.schema) == 0 && TbPriv(snap, user, inst, t.schema, t.name) == 0
    ensures NeedsSomething(user, inst, q) ==> Check(snap, user, inst, q).Denied?
  {
    forall t: TableRef
      ensures DbPriv(snap, user, inst, t.schema) == 0 && TbPriv(snap, user, inst, t.schema, t.name) == 0
    {
      NoRowNoLimit(snap.rows, user.name, inst.id, Db(t.schema), snap.today);
      NoRowNoLimit(snap.rows, user.name, inst.id, Tbl(t.schema, t.name), snap.today);
    }
    if NeedsSomething(user, inst, q) {
      if inst.dbType == "mysql" {
        var t := q.tableRef.value[0];
        assert IsDenied(snap, user, inst, t);
        VerdictExactly(snap, user, inst, q.tableRef.value, q.requested);
      } else {
        var dbs := NeededDbs(inst, q.dbName, q.extracted);
        OtherEngineExactly(snap, user, inst, q.dbName, q.extracted, q.requested);
        var t := TableRef(dbs[0], "");
        assert DbPriv(snap, user, inst, t.schema) == 0;
      }
    }
  }

  /** The ids take in each row of the user on the instance. */
  ghost predicate TakesAll(s: State, user: User, inst: Instance, ids: seq<int>) {
    forall p | p in s.privileges && p.userName == user.name && p.instanceId == inst.id :: p.id in ids
  }

  /** No row has been inserted for the user on the instance since there were `n` rows. */
  ghost predicate NoneSince(s: State, n: nat, user: User, inst: Instance) {
    forall i | n <= i < |s.privileges| ::
      s.privileges[i].userName != user.name || s.privileges[i].instanceId != inst.id
  }

  /** Deleting the rows of a user on an instance takes the queries away at once, and they stay away
      whatever happens, until a row is inserted for that user on that instance. */
  lemma DeletedStaysRefused(s: State, ids: seq<int>, later: seq<Step>, user: User, inst: Instance, q: Query,
                            adminLimit: int)
    requires TakesAll(s, user, inst, ids) && NeedsSomething(user, inst, q)
    requires NoneSince(Run(Next(s, DeleteStep(ids)), later), |s.privileges|, user, inst)
    ensures Check(SnapshotOf(Run(Next(s, DeleteStep(ids)), later), adminLimit), user, inst, q).Denied?
  {
    var s1 := Next(s, DeleteStep(ids));
    var s2 := Run(s1, later);
    DeleteRowsAt(s.privileges, ids);
    RunKeeps(s1, later);
    forall p | p in s2.privileges && p.userName == user.name && p.instanceId == inst.id
      ensures p.isDeleted
    {
      var i :| 0 <= i < |s2.privileges| && s2.privileges[i] == p;
      assert i < |s.privileges|;
      assert SameGrant(s1.privileges[i], s2.privileges[i]) && s1.privileges[i] == DeleteRow(s.privileges[i], ids);
      assert s.privileges[i] in s.privileges;
    }
    NoLiveRowRefused(SnapshotOf(s2, adminLimit), user, inst, q);
  }

  /** The same, as the run from the empty tables that ends in the deletion. */
  lemma DeletedInRunRefused(day: int, steps: seq<Step>, ids: seq<int>, user: User, inst: Instance, q: Query,
                            adminLimit: int)
    requires TakesAll(Run(Initial(day), steps), user, inst, ids) && NeedsSomething(user, inst, q)
    ensures Check(SnapshotOf(Run(Initial(day), steps + [DeleteStep(ids)]), adminLimit), user, inst, q).Denied?
  {
    var s := Run(Initial(day), steps);
    RunOneStep(Initial(day), steps, DeleteStep(ids));
    DeleteRowsAt(s.privileges, ids);
    DeletedStaysRefused(s, ids, [], user, inst, q, adminLimit);
  }

  function Days(n: nat): seq<Step> {
    if n == 0 then [] else Days(n - 1) + [NextDayStep]
  }

  lemma {:induction false} DaysPass(s: State, n: nat)
    ensures Run(s, Days(n)) == State(s.applications, s.privileges, s.nextId, s.today + n)
  {
    if n > 0 {
      DaysPass(s, n - 1);
      RunOneStep(s, Days(n - 1), NextDayStep);
    }
  }

  /** Once so many days have passed that each row of the user on the instance is past its expiry,
      such queries are refused. */
  lemma ExpiredRefused(s: State, n: nat, user: User, inst: Instance, q: Query, adminLimit: int)
    requires forall p | p in s.privileges && p.userName == user.name && p.instanceId == inst.id ::
      p.validDate < s.today + n
    requires NeedsSomething(user, inst, q)
    ensures Check(SnapshotOf(Run(s, Days(n)), adminLimit), user, inst, q).Denied?
  {
    DaysPass(s, n);
    NoLiveRowRefused(SnapshotOf(Run(s, Days(n)), adminLimit), user, inst, q);
  }

  // ---- batch operations ------------------------------------------------------------------

  /** A batch delete marks exactly the rows with the ids; a batch change sets exactly their day and
      limit.  Both touch nothing else. */
  lemma ModifiedByColumns(s: State, ids: seq<int>, validDate: int, limitNum: int, i: nat)
    requires i < |s.privileges|
    ensures
      var p := s.privileges[i];
      var deleted, changed := Next(s, DeleteStep(ids)), Next(s, ChangeStep(ids, validDate, limitNum));
      && |deleted.privileges| == |changed.privileges| == |s.privileges|
      && deleted.(privileges := []) == changed.(privileges := []) == s.(privileges := [])
      && (p.id !in ids ==> deleted.privileges[i] == changed.privileges[i] == p)
      && (p.id in ids ==>
            && deleted.privileges[i] == Privilege(p.id, p.userName, p.instanceId, p.dbName, p.tableName,
                                                  p.validDate, p.limitNum, p.privType, true)
            && changed.privileges[i] == Privilege(p.id, p.userName, p.instanceId, p.dbName, p.tableName,
                                                  validDate, limitNum, p.privType, p.isDeleted))
  {
    DeleteRowsAt(s.privileges, ids);
    ChangeRowsAt(s.privileges, ids, validDate, limitNum);
  }

  // ---- applying --------------------------------------------------------------------------

  /** By what is filled in and which rows there are: an application of an ordinary user is stored
      exactly when it is complete, its instance is readable, and no database or table it asks for
      would be found by the checker. */
  lemma StoredByColumns(s: State, user: User, r: Request, status: Option<Status>, adminLimit: int)
    requires IdsIncrease(s.privileges) && !user.isSuperuser && r.privType in {1, 2}
    ensures
      var snap := SnapshotOf(s, adminLimit);
      var stored := |Apply(s, user, r, status, adminLimit).applications| > |s.applications|;
      && (stored <==>
            && status.Some? && r.title != "" && r.validDate.Some? && r.limitNum.Some? && r.inst.id in user.readable
            && if r.privType == 1 then
                 r.dbNames != [] && forall db | db in r.dbNames :: !FirstHasLimit(DbRows(snap, user, r.inst, db))
               else
                 && r.dbName != "" && r.tableNames != [] && !FirstHasLimit(DbRows(snap, user, r.inst, r.dbName))
                 && forall t | t in r.tableNames ::
                      !FirstHasLimit(TableRows(snap, user, r.inst, TableRef(r.dbName, t))))
      && (!stored ==> Apply(s, user, r, status, adminLimit) == s)
  {
    var snap := SnapshotOf(s, adminLimit);
    forall db: string ensures DbPriv(snap, user, r.inst, db) != 0 <==> FirstHasLimit(DbRows(snap, user, r.inst, db)) {
      LookupsByColumns(snap, user, r.inst, TableRef(db, ""));
    }
    forall t: string
      ensures TbPriv(snap, user, r.inst, r.dbName, t) != 0
         <==> FirstHasLimit(TableRows(snap, user, r.inst, TableRef(r.dbName, t)))
    {
      LookupsByColumns(snap, user, r.inst, TableRef(r.dbName, t));
    }
  }

  /** From the form to the rows: an application that is stored and then passed gives the user one
      live row on the instance for each name asked for, in order, with the day and limit asked for. */
  lemma RequestGranted(s: State, user: User, r: Request, adminLimit: int, j: nat)
    requires IsAccepted(SnapshotOf(s, adminLimit), user, r) && r.privType in {1, 2}
    requires NoneContains(RequestedNames(r), ',') && j < |RequestedNames(r)|
    ensures
      var s' := Audit(Apply(s, user, r, Some(WAITING), adminLimit), |s.applications|, PASSED);
      var n, name := |s.privileges|, RequestedNames(r)[j];
      && |s'.privileges| == n + |RequestedNames(r)| && s'.privileges[..n] == s.privileges
      && s'.privileges[n + j] == Privilege(
           s.nextId + j, user.name, r.inst.id, if r.privType == 1 then name else r.dbName,
           if r.privType == 1 then "" else name, r.validDate.value, r.limitNum.value, r.privType, false)
  {
    var applied := Apply(s, user, r, Some(WAITING), adminLimit);
    assert applied == s.(applications := s.applications + [ApplicationFor(user, r)]);
    ApprovedNamesExactly(user, r);
    ApprovalGrantsExactly(applied, |s.applications|);
  }

  /** An application of no known type is never granted: its review changes nothing at all. */
  lemma UnknownTypeNeverGranted(s: State, a: nat)
    requires a < |s.applications| && s.applications[a].privType !in {1, 2}
    ensures Audit(s, a, PASSED) == s
  {
  }

  /** The status of the new audit is handed to the callback: an application that is passed at once is
      granted as if it had been reviewed, and one with any other status is stored with it. */
  lemma AppliedIsReviewed(s: State, user: User, r: Request, status: Status, adminLimit: int)
    requires IsAccepted(SnapshotOf(s, adminLimit), user, r) && r.privType in {1, 2}
    ensures Apply(s, user, r, Some(status), adminLimit)
         == Audit(Apply(s, user, r, Some(WAITING), adminLimit), |s.applications|, status)
    ensures Apply(s, user, r, Some(status), adminLimit).applications[|s.applications|].status == status
  {
    var n, app := |s.applications|, ApplicationFor(user, r);
    var stored := s.(applications := s.applications + [app]);
    assert stored.applications[n := app.(status := WAITING)] == stored.applications;
    assert Apply(s, user, r, Some(WAITING), adminLimit) == stored;
    assert HasKnownType(app);
  }

  /** A superuser has every database and table already, so an application is stored only when the
      limit for administrators is 0. */
  lemma StoredBySuperuser(s: State, user: User, r: Request, status: Option<Status>, adminLimit: int)
    requires user.isSuperuser && r.privType in {1, 2} && adminLimit != 0
    ensures Apply(s, user, r, status, adminLimit) == s
  {
    if IsComplete(r) {
      if r.privType == 1 {
        assert r.dbNames[0] in r.dbNames;
      }
    }
  }
}
