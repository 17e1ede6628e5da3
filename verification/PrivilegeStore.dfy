/** The privilege and application tables and what changes them: applying, the approval callback,
    batch delete and batch change.  The state after each operation is a function of the state
    before; the class carries the operations out on its fields. */
module PrivilegeStore {
  import opened Text
  import opened Wrappers
  import opened PrivilegeChecks

  datatype Status = WAITING | PASSED | REJECTED | ABORTED

  datatype Application = Application(
    userName: string, instanceId: int, privType: int, dbList: string, tableList: string,
    validDate: int, limitNum: int, status: Status)

  /** The form of an application; what is left blank is missing. */
  datatype Request = Request(
    title: string, inst: Instance, privType: int, dbName: string, dbNames: seq<string>,
    tableNames: seq<string>, validDate: Option<int>, limitNum: Option<int>)

  /** The two tables and the day.  Applications are identified by their position. */
  datatype State = State(applications: seq<Application>, privileges: seq<Privilege>, nextId: nat, today: int)

  function SnapshotOf(s: State, adminLimit: int): Snapshot {
    Snapshot(s.privileges, s.today, adminLimit)
  }

  // ---- approval --------------------------------------------------------------------------

  /** The names an application asks for, as the callback splits them. */
  function NamesOf(a: Application): seq<string> {
    Split(if a.privType == DATABASE then a.dbList else a.tableList, ',')
  }

  function PrivilegeFor(a: Application, name: string, id: nat): Privilege {
    if a.privType == DATABASE then
      Privilege(id, a.userName, a.instanceId, name, a.tableList, a.validDate, a.limitNum, a.privType, false)
    else
      Privilege(id, a.userName, a.instanceId, a.dbList, name, a.validDate, a.limitNum, a.privType, false)
  }

  function PrivilegesFor(a: Application, names: seq<string>, firstId: nat): (rows: seq<Privilege>)
    ensures |rows| == |names|
  {
    if names == [] then []
    else [PrivilegeFor(a, names[0], firstId)] + PrivilegesFor(a, names[1..], firstId + 1)
  }

  predicate HasKnownType(a: Application) {
    a.privType == DATABASE || a.privType == TABLE
  }

  /** The approval callback.  An unknown privilege type makes it raise after the status is
      stored, which the flag reports. */
  function CallBack(s: State, applyId: nat, status: Status): (State, bool)
    requires applyId < |s.applications|
  {
    var a := s.applications[applyId].(status := status);
    var s' := s.(applications := s.applications[applyId := a]);
    if status != PASSED then (s', true)
    else if !HasKnownType(a) then (s', false)
    else
      var rows := PrivilegesFor(a, NamesOf(a), s.nextId);
      (s'.(privileges := s.privileges + rows, nextId := s.nextId + |rows|), true)
  }

  /** The review of an application, which one transaction surrounds: an exception undoes all. */
  function Audit(s: State, applyId: nat, status: Status): State {
    if applyId >= |s.applications| then s
    else
      var (s', ok) := CallBack(s, applyId, status);
      if ok then s' else s
  }

  // ---- applying --------------------------------------------------------------------------

  predicate IsComplete(r: Request) {
    var rest := r.title != "" && r.validDate.Some? && r.limitNum.Some?;
    if r.privType == DATABASE then rest && r.dbNames != []
    else if r.privType == TABLE then rest && r.dbName != "" && r.tableNames != []
    else r.validDate.Some? && r.limitNum.Some?
  }

  predicate HasSomeDb(snap: Snapshot, user: User, inst: Instance, dbs: seq<string>) {
    exists db | db in dbs :: DbPriv(snap, user, inst, db) != 0
  }

  predicate HasSomeTable(snap: Snapshot, user: User, inst: Instance, db: string, tables: seq<string>) {
    exists t | t in tables :: TbPriv(snap, user, inst, db, t) != 0
  }

  /** What is asked for is there already. */
  predicate IsDuplicate(snap: Snapshot, user: User, r: Request) {
    if r.privType == DATABASE then HasSomeDb(snap, user, r.inst, r.dbNames)
    else if r.privType == TABLE then
      DbPriv(snap, user, r.inst, r.dbName) != 0 || HasSomeTable(snap, user, r.inst, r.dbName, r.tableNames)
    else false
  }

  predicate IsAccepted(snap: Snapshot, user: User, r: Request) {
    IsComplete(r) && r.inst.id in user.readable && !IsDuplicate(snap, user, r)
  }

  function ApplicationFor(user: User, r: Request): Application
    requires r.validDate.Some? && r.limitNum.Some?
  {
    var dbList := if r.privType == DATABASE then Join(r.dbNames, ",") else if r.privType == TABLE then r.dbName else "";
    var tableList := if r.privType == TABLE then Join(r.tableNames, ",") else "";
    Application(user.name, r.inst.id, r.privType, dbList, tableList, r.validDate.value, r.limitNum.value, WAITING)
  }

  /** Applying: refused, or stored and handed to the callback with the status the new audit
      has; no status stands for an audit that could not be created. */
  function Apply(s: State, user: User, r: Request, status: Option<Status>, adminLimit: int): State {
    if !IsAccepted(SnapshotOf(s, adminLimit), user, r) || status.None? then s
    else
      var s' := s.(applications := s.applications + [ApplicationFor(user, r)]);
      CallBack(s', |s.applications|, status.value).0
  }

  // ---- batch delete and batch change -----------------------------------------------------

  function DeleteRow(p: Privilege, ids: seq<int>): Privilege {
    if p.id in ids then p.(isDeleted := true) else p
  }

  function DeleteRows(rows: seq<Privilege>, ids: seq<int>): (r: seq<Privilege>)
    ensures |r| == |rows|
  {
    if rows == [] then [] else [DeleteRow(rows[0], ids)] + DeleteRows(rows[1..], ids)
  }

  function ChangeRow(p: Privilege, ids: seq<int>, validDate: int, limitNum: int): Privilege {
    if p.id in ids then p.(validDate := validDate, limitNum := limitNum) else p
  }

  function ChangeRows(rows: seq<Privilege>, ids: seq<int>, validDate: int, limitNum: int): (r: seq<Privilege>)
    ensures |r| == |rows|
  {
    if rows == [] then []
    else [ChangeRow(rows[0], ids, validDate, limitNum)] + ChangeRows(rows[1..], ids, validDate, limitNum)
  }

  // ---- the operations on stored fields ---------------------------------------------------

  class Store {
    var applications: seq<Application>
    var privileges: seq<Privilege>
    var nextId: nat
    var today: int

    ghost function Value(): State
      reads this
    {
      State(applications, privileges, nextId, today)
    }

    constructor (day: int)
      ensures Value() == State([], [], 1, day)
    {
      applications, privileges, nextId, today := [], [], 1, day;
    }

    method NextDay()
      modifies `today
      ensures Value() == old(Value()).(today := old(today) + 1)
    {
      today := today + 1;
    }

    /** The list comprehension of the callback: one row for each name. */
    static method InsertList(a: Application, names: seq<string>, firstId: nat) returns (rows: seq<Privilege>)
      ensures rows == PrivilegesFor(a, names, firstId)
    {
      rows := [];
      for n := 0 to |names|
        invariant |rows| == n
        invariant rows + PrivilegesFor(a, names[n..], firstId + n) == PrivilegesFor(a, names, firstId)
      {
        assert names[n..][1..] == names[n + 1..];
        rows := rows + [PrivilegeFor(a, names[n], firstId + n)];
      }
      assert names[|names|..] == [];
    }

    /** `_query_apply_audit_call_back` */
    method QueryApplyAuditCallBack(applyId: nat, status: Status) returns (ok: bool)
      requires applyId < |applications|
      modifies `applications, `privileges, `nextId
      ensures (Value(), ok) == CallBack(old(Value()), applyId, status)
    {
      var a := applications[applyId].(status := status);
      applications := applications[applyId := a];
      if status != PASSED {
        return true;
      }
      if a.privType != DATABASE && a.privType != TABLE {
        return false;
      }
      var insertList := InsertList(a, NamesOf(a), nextId);
      privileges := privileges + insertList;
      nextId := nextId + |insertList|;
      return true;
    }

    /** `query_priv_apply` */
    method QueryPrivApply(user: User, r: Request, status: Option<Status>, adminLimit: int) returns (stored: bool)
      modifies `applications, `privileges, `nextId
      ensures stored == (IsAccepted(SnapshotOf(old(Value()), adminLimit), user, r) && status.Some?)
      ensures Value() == Apply(old(Value()), user, r, status, adminLimit)
    {
      if !IsComplete(r) || r.inst.id !in user.readable {
        return false;
      }
      var snap := Snapshot(privileges, today, adminLimit);
      if r.privType == DATABASE {
        for d := 0 to |r.dbNames|
          invariant forall i | 0 <= i < d :: DbPriv(snap, user, r.inst, r.dbNames[i]) == 0
        {
          if DbPriv(snap, user, r.inst, r.dbNames[d]) != 0 {
            assert HasSomeDb(snap, user, r.inst, r.dbNames);
            return false;
          }
        }
      } else if r.privType == TABLE {
        if DbPriv(snap, user, r.inst, r.dbName) != 0 {
          return false;
        }
        for t := 0 to |r.tableNames|
          invariant forall i | 0 <= i < t :: TbPriv(snap, user, r.inst, r.dbName, r.tableNames[i]) == 0
        {
          if TbPriv(snap, user, r.inst, r.dbName, r.tableNames[t]) != 0 {
            assert HasSomeTable(snap, user, r.inst, r.dbName, r.tableNames);
            return false;
          }
        }
      }
      if status.None? {
        return false;
      }
      applications := applications + [ApplicationFor(user, r)];
      var _ := QueryApplyAuditCallBack(|applications| - 1, status.value);
      return true;
    }

    /** `query_priv_audit`: the transaction restores the fields when the callback raises. */
    method QueryPrivAudit(applyId: nat, status: Status)
      modifies `applications, `privileges, `nextId
      ensures Value() == Audit(old(Value()), applyId, status)
    {
      if applyId >= |applications| {
        return;
      }
      var a, p, n := applications, privileges, nextId;
      var ok := QueryApplyAuditCallBack(applyId, status);
      if !ok {
        applications, privileges, nextId := a, p, n;
      }
    }

    /** `query_priv_modify` with type 1 */
    method DeletePrivileges(ids: seq<int>) returns (ok: bool)
      modifies `privileges
      ensures ok == exists p | p in old(privileges) :: p.id in ids
      ensures Value() == old(Value()).(privileges := DeleteRows(old(privileges), ids))
    {
      ok := false;
      var rows := [];
      for i := 0 to |privileges|
        invariant privileges == old(privileges)
        invariant rows + DeleteRows(privileges[i..], ids) == DeleteRows(privileges, ids)
        invariant ok == exists p | p in privileges[..i] :: p.id in ids
      {
        assert privileges[i..][1..] == privileges[i + 1..];
        assert privileges[..i + 1] == privileges[..i] + [privileges[i]];
        ok := ok || privileges[i].id in ids;
        rows := rows + [DeleteRow(privileges[i], ids)];
      }
      assert privileges[..|privileges|] == privileges;
      privileges := rows;
    }

    /** `query_priv_modify` with type 2 */
    method ChangePrivileges(ids: seq<int>, validDate: int, limitNum: int) returns (ok: bool)
      modifies `privileges
      ensures ok == exists p | p in old(privileges) :: p.id in ids
      ensures Value() == old(Value()).(privileges := ChangeRows(old(privileges), ids, validDate, limitNum))
    {
      ok := false;
      var rows := [];
      for i := 0 to |privileges|
        invariant privileges == old(privileges)
        invariant rows + ChangeRows(privileges[i..], ids, validDate, limitNum)
               == ChangeRows(privileges, ids, validDate, limitNum)
        invariant ok == exists p | p in privileges[..i] :: p.id in ids
      {
        assert privileges[i..][1..] == privileges[i + 1..];
        assert privileges[..i + 1] == privileges[..i] + [privileges[i]];
        ok := ok || privileges[i].id in ids;
        rows := rows + [ChangeRow(privileges[i], ids, validDate, limitNum)];
      }
      assert privileges[..|privileges|] == privileges;
      privileges := rows;
    }

    /** The two passes over the tables of a MySQL query. */
    method TwoPasses(snap: Snapshot, user: User, inst: Instance, tables: seq<TableRef>, requested: int)
      returns (v: Verdict)
      ensures v == CheckTables(snap, user, inst, tables, requested)
    {
      for i := 0 to |tables|
        invariant FirstDenied(snap, user, inst, tables) == FirstDenied(snap, user, inst, tables[i..])
      {
        assert tables[i..][1..] == tables[i + 1..];
        var t := tables[i];
        if DbPriv(snap, user, inst, t.schema) == 0 && TbPriv(snap, user, inst, t.schema, t.name) == 0 {
          return Denied(t.schema, t.name);
        }
      }
      var limitNum := requested;
      for i := 0 to |tables|
        invariant LimitOver(snap, user, inst, tables, requested) == LimitOver(snap, user, inst, tables[i..], limitNum)
      {
        assert tables[i..][1..] == tables[i + 1..];
        var privLimit := PrivLimit(snap, user, inst, tables[i].schema, tables[i].name);
        if privLimit.None? {
          return Failed;
        }
        limitNum := if limitNum != 0 then Min(privLimit.value, limitNum) else privLimit.value;
      }
      return Allowed(limitNum);
    }

    /** The two passes over the databases of a query on another engine. */
    method TwoDbPasses(snap: Snapshot, user: User, inst: Instance, dbs: seq<string>, requested: int)
      returns (v: Verdict)
      ensures v == CheckDbs(snap, user, inst, dbs, requested)
    {
      for i := 0 to |dbs|
        invariant FirstDeniedDb(snap, user, inst, dbs) == FirstDeniedDb(snap, user, inst, dbs[i..])
      {
        assert dbs[i..][1..] == dbs[i + 1..];
        if DbPriv(snap, user, inst, dbs[i]) == 0 {
          return Denied(dbs[i], "");
        }
      }
      var limitNum := requested;
      for i := 0 to |dbs|
        invariant LimitOver(snap, user, inst, WholeDbs(dbs), requested)
               == LimitOver(snap, user, inst, WholeDbs(dbs[i..]), limitNum)
      {
        assert dbs[i..][1..] == dbs[i + 1..];
        assert WholeDbs(dbs[i..])[1..] == WholeDbs(dbs[i + 1..]);
        var privLimit := PrivLimit(snap, user, inst, dbs[i], "");
        if privLimit.None? {
          return Failed;
        }
        limitNum := if limitNum != 0 then Min(privLimit.value, limitNum) else privLimit.value;
      }
      return Allowed(limitNum);
    }

    /** `query_priv_check` */
    method QueryPrivCheck(user: User, inst: Instance, q: Query, adminLimit: int) returns (v: Verdict)
      ensures v == Check(SnapshotOf(Value(), adminLimit), user, inst, q)
    {
      if HasPerm(user, "sql.query_all_instances") {
        return Allowed(if q.requested != 0 then Min(adminLimit, q.requested) else adminLimit);
      }
      if HasPerm(user, "sql.query_resource_group_instance") {
        if inst.id in user.readable {
          return Allowed(if q.requested != 0 then Min(adminLimit, q.requested) else adminLimit);
        }
      }
      var snap := Snapshot(privileges, today, adminLimit);
      if inst.dbType == "mysql" {
        if SkipsCheck(q.sql) {
          return Allowed(0);
        }
        if q.tableRef.None? {
          return Failed;
        }
        v := TwoPasses(snap, user, inst, q.tableRef.value, q.requested);
      } else {
        v := TwoDbPasses(snap, user, inst, NeededDbs(inst, q.dbName, q.extracted), q.requested);
      }
    }
  }
}
