/** What every run of applying, reviewing, deleting, changing and passing days keeps, and what
    an allowed query says about the run before it. */
module PrivilegeRuns {
  import opened Text
  import opened Wrappers
  import opened PrivilegeChecks
  import opened PrivilegeStore

  datatype Step =
    | ApplyStep(user: User, r: Request, status: Option<Status>, adminLimit: int)
    | AuditStep(applyId: nat, outcome: Status)
    | DeleteStep(ids: seq<int>)
    | ChangeStep(ids: seq<int>, validDate: int, limitNum: int)
    | NextDayStep

  function Next(s: State, step: Step): State {
    match step
    case ApplyStep(user, r, status, adminLimit) => Apply(s, user, r, status, adminLimit)
    case AuditStep(applyId, outcome) => Audit(s, applyId, outcome)
    case DeleteStep(ids) => s.(privileges := DeleteRows(s.privileges, ids))
    case ChangeStep(ids, validDate, limitNum) => s.(privileges := ChangeRows(s.privileges, ids, validDate, limitNum))
    case NextDayStep => s.(today := s.today + 1)
  }

  function Run(s: State, steps: seq<Step>): State {
    if steps == [] then s else Next(Run(s, Front(steps)), Last(steps))
  }

  function Initial(day: int): State {
    State([], [], 1, day)
  }

  // ---- rows and applications only grow ---------------------------------------------------

  /** The same grant: all but expiry day, limit and deletion mark. */
  predicate SameGrant(p: Privilege, q: Privilege) {
    && p.id == q.id && p.userName == q.userName && p.instanceId == q.instanceId
    && p.dbName == q.dbName && p.tableName == q.tableName && p.privType == q.privType
  }

  predicate SameApplication(a: Application, b: Application) {
    a.(status := WAITING) == b.(status := WAITING)
  }

  /** Every row is still there as the same grant, and what was deleted stays deleted. */
  ghost predicate RowsKept(before: seq<Privilege>, after: seq<Privilege>) {
    && |before| <= |after|
    && forall i | 0 <= i < |before| ::
         SameGrant(before[i], after[i]) && (before[i].isDeleted ==> after[i].isDeleted)
  }

  ghost predicate ApplicationsKept(before: seq<Application>, after: seq<Application>) {
    && |before| <= |after|
    && forall a | 0 <= a < |before| :: SameApplication(before[a], after[a])
  }

  lemma {:induction false} DeleteRowsAt(rows: seq<Privilege>, ids: seq<int>)
    ensures forall i | 0 <= i < |rows| :: DeleteRows(rows, ids)[i] == DeleteRow(rows[i], ids)
  {
    if rows != [] {
      DeleteRowsAt(rows[1..], ids);
    }
  }

  lemma {:induction false} ChangeRowsAt(rows: seq<Privilege>, ids: seq<int>, validDate: int, limitNum: int)
    ensures forall i | 0 <= i < |rows| ::
      ChangeRows(rows, ids, validDate, limitNum)[i] == ChangeRow(rows[i], ids, validDate, limitNum)
  {
    if rows != [] {
      ChangeRowsAt(rows[1..], ids, validDate, limitNum);
    }
  }

  lemma StepKeeps(s: State, step: Step)
    ensures RowsKept(s.privileges, Next(s, step).privileges)
    ensures ApplicationsKept(s.applications, Next(s, step).applications)
  {
    match step
    case DeleteStep(ids) => DeleteRowsAt(s.privileges, ids);
    case ChangeStep(ids, validDate, limitNum) => ChangeRowsAt(s.privileges, ids, validDate, limitNum);
    case _ =>
  }

  /** In every run, changes never alter whose grant a row is or what it names, and deletion is
      permanent. */
  lemma {:induction false} RunKeeps(s: State, steps: seq<Step>)
    ensures RowsKept(s.privileges, Run(s, steps).privileges)
    ensures ApplicationsKept(s.applications, Run(s, steps).applications)
  {
    if steps != [] {
      RunKeeps(s, Front(steps));
      StepKeeps(Run(s, Front(steps)), Last(steps));
    }
  }

  ghost predicate IdsFresh(s: State) {
    IdsIncrease(s.privileges) && forall p | p in s.privileges :: p.id < s.nextId
  }

  lemma {:induction false} PrivilegesForAt(a: Application, names: seq<string>, firstId: nat)
    ensures forall j | 0 <= j < |names| ::
      PrivilegesFor(a, names, firstId)[j] == PrivilegeFor(a, names[j], firstId + j)
  {
    if names != [] {
      PrivilegesForAt(a, names[1..], firstId + 1);
    }
  }

  lemma CallBackKeepsIds(s: State, applyId: nat, status: Status)
    requires IdsFresh(s) && applyId < |s.applications|
    ensures IdsFresh(CallBack(s, applyId, status).0)
  {
    var a := s.applications[applyId].(status := status);
    PrivilegesForAt(a, NamesOf(a), s.nextId);
    var rows := PrivilegesFor(a, NamesOf(a), s.nextId);
    assert forall j | 0 <= j < |rows| :: rows[j].id == s.nextId + j;
  }

  lemma StepKeepsIds(s: State, step: Step)
    requires IdsFresh(s)
    ensures IdsFresh(Next(s, step))
  {
    StepKeeps(s, step);
    match step
    case ApplyStep(user, r, status, adminLimit) =>
      if IsAccepted(SnapshotOf(s, adminLimit), user, r) && status.Some? {
        var s' := s.(applications := s.applications + [ApplicationFor(user, r)]);
        CallBackKeepsIds(s', |s.applications|, status.value);
      }
    case AuditStep(applyId, outcome) =>
      if applyId < |s.applications| {
        CallBackKeepsIds(s, applyId, outcome);
      }
    case DeleteStep(ids) => SameIds(s, Next(s, step));
    case ChangeStep(ids, validDate, limitNum) => SameIds(s, Next(s, step));
    case NextDayStep =>
  }

  lemma SameIds(s: State, s': State)
    requires IdsFresh(s) && RowsKept(s.privileges, s'.privileges) && |s'.privileges| == |s.privileges|
    requires s'.nextId == s.nextId
    ensures IdsFresh(s')
  {
  }

  /** Row ids are fresh and increasing in every run, so the first match is the lowest id. */
  lemma {:induction false} RunKeepsIds(day: int, steps: seq<Step>)
    ensures IdsFresh(Run(Initial(day), steps))
  {
    if steps != [] {
      RunKeepsIds(day, Front(steps));
      StepKeepsIds(Run(Initial(day), Front(steps)), Last(steps));
    }
  }

  // ---- where applications and rows come from ---------------------------------------------

  /** Step `k` stored application number `a`, with the content of `app`. */
  ghost predicate Applied(day: int, steps: seq<Step>, k: nat, a: nat, app: Application) {
    && k < |steps| && steps[k].ApplyStep? && steps[k].status.Some?
    && var s := Run(Initial(day), steps[..k]);
       IsAccepted(SnapshotOf(s, steps[k].adminLimit), steps[k].user, steps[k].r)
       && a == |s.applications|
       && SameApplication(app, ApplicationFor(steps[k].user, steps[k].r))
  }

  /** Step `k` approved application number `a`: a review, or the application itself when its
      audit passes at once. */
  predicate Passed(steps: seq<Step>, applied: nat, k: nat, a: nat) {
    && k < |steps|
    && (steps[k] == AuditStep(a, PASSED)
        || (k == applied && steps[k].ApplyStep? && steps[k].status == Some(PASSED)))
  }

  /** The row is for a name the application asks for. */
  predicate IsRowOf(app: Application, p: Privilege) {
    && HasKnownType(app)
    && p.userName == app.userName && p.instanceId == app.instanceId && p.privType == app.privType
    && if app.privType == DATABASE then p.dbName in NamesOf(app)
       else p.dbName == app.dbList && p.tableName in NamesOf(app)
  }

  lemma AppliedLater(day: int, steps: seq<Step>, k: nat, a: nat, app: Application, app': Application)
    requires steps != [] && Applied(day, Front(steps), k, a, app) && SameApplication(app, app')
    ensures Applied(day, steps, k, a, app')
  {
    assert Front(steps)[..k] == steps[..k];
  }

  lemma {:induction false} ApplicationOrigin(day: int, steps: seq<Step>, a: nat) returns (k: nat)
    requires a < |Run(Initial(day), steps).applications|
    ensures Applied(day, steps, k, a, Run(Initial(day), steps).applications[a])
  {
    var pre, step := Front(steps), Last(steps);
    var s := Run(Initial(day), pre);
    StepKeeps(s, step);
    var app := Next(s, step).applications[a];
    if a < |s.applications| {
      k := ApplicationOrigin(day, pre, a);
      AppliedLater(day, steps, k, a, s.applications[a], app);
    } else {
      k := |pre|;
      assert steps[..k] == pre && steps[k] == step;
    }
  }

  lemma CallBackRows(s: State, applyId: nat, status: Status, i: nat)
    requires applyId < |s.applications|
    requires |s.privileges| <= i < |CallBack(s, applyId, status).0.privileges|
    ensures status == PASSED && IsRowOf(s.applications[applyId], CallBack(s, applyId, status).0.privileges[i])
  {
    var a := s.applications[applyId].(status := status);
    PrivilegesForAt(a, NamesOf(a), s.nextId);
  }

  /** Row number `i` was inserted by step `k`. */
  ghost predicate Inserted(day: int, steps: seq<Step>, k: nat, i: nat) {
    && k < |steps|
    && |Run(Initial(day), steps[..k]).privileges| <= i < |Run(Initial(day), steps[..k + 1]).privileges|
  }

  lemma InsertedLater(day: int, steps: seq<Step>, k: nat, i: nat)
    requires steps != [] && Inserted(day, Front(steps), k, i)
    ensures Inserted(day, steps, k, i)
  {
    assert Front(steps)[..k] == steps[..k] && Front(steps)[..k + 1] == steps[..k + 1];
  }

  /** Every row was inserted by the step that passed an application asking for it, at the step
      that stored the application or later. */
  lemma {:induction false} RowOrigin(day: int, steps: seq<Step>, i: nat) returns (applied: nat, passed: nat, a: nat)
    requires i < |Run(Initial(day), steps).privileges|
    ensures a < |Run(Initial(day), steps).applications|
    ensures Applied(day, steps, applied, a, Run(Initial(day), steps).applications[a])
    ensures applied <= passed && Passed(steps, applied, passed, a) && Inserted(day, steps, passed, i)
    ensures IsRowOf(Run(Initial(day), steps).applications[a], Run(Initial(day), steps).privileges[i])
  {
    var pre, step := Front(steps), Last(steps);
    var s, s' := Run(Initial(day), pre), Run(Initial(day), steps);
    StepKeeps(s, step);
    if i < |s.privileges| {
      applied, passed, a := RowOrigin(day, pre, i);
      AppliedLater(day, steps, applied, a, s.applications[a], s'.applications[a]);
      InsertedLater(day, steps, passed, i);
    } else {
      passed := |pre|;
      assert steps[..passed] == pre && steps[passed] == step && steps[..passed + 1] == steps;
      if step.AuditStep? {
        a := step.applyId;
        CallBackRows(s, a, step.outcome, i);
        applied := ApplicationOrigin(day, pre, a);
        AppliedLater(day, steps, applied, a, s.applications[a], s'.applications[a]);
      } else {
        a := |s.applications|;
        applied := passed;
        var stored := s.(applications := s.applications + [ApplicationFor(step.user, step.r)]);
        CallBackRows(stored, a, step.status.value, i);
      }
    }
  }

  function RequestedNames(r: Request): seq<string> {
    if r.privType == DATABASE then r.dbNames else r.tableNames
  }

  /** The request asked for what the row grants. */
  predicate AsksFor(r: Request, p: Privilege) {
    && r.inst.id == p.instanceId && r.privType == p.privType
    && if r.privType == DATABASE then p.dbName in Split(Join(r.dbNames, ","), ',')
       else p.dbName == r.dbName && p.tableName in Split(Join(r.tableNames, ","), ',')
  }

  /** By its columns, the row is the user's on the instance, neither deleted nor expired, and names
      the database of the table, all databases, or the table itself if it has a name. */
  predicate Covers(p: Privilege, user: User, inst: Instance, t: TableRef, today: int) {
    && p.userName == user.name && p.instanceId == inst.id && !p.isDeleted && today <= p.validDate
    && if p.privType == 1 then p.dbName == t.schema || p.dbName == "*"
       else p.privType == 2 && p.dbName == t.schema && p.tableName == t.name && t.name != ""
  }

  lemma CoveringRow(s: State, user: User, inst: Instance, q: Query, adminLimit: int, t: TableRef) returns (i: nat)
    requires !IsExempt(user, inst, q) && Needed(inst, q).Some? && t in Needed(inst, q).value
    requires Check(SnapshotOf(s, adminLimit), user, inst, q).Allowed?
    ensures i < |s.privileges| && Covers(s.privileges[i], user, inst, t, s.today)
  {
    var snap := SnapshotOf(s, adminLimit);
    CheckExactly(snap, user, inst, q);
    assert PrivLimit(snap, user, inst, t.schema, t.name).Some?;
    if DbPriv(snap, user, inst, t.schema) != 0 {
      i := FirstLimitHasRow(s.privileges, user.name, inst.id, Db(t.schema), s.today);
    } else {
      i := FirstLimitHasRow(s.privileges, user.name, inst.id, Tbl(t.schema, t.name), s.today);
    }
  }

  /** Whole-run safety, on every engine.  When a query that is checked at all is allowed, each table
      or database it needs is covered by a row that is neither deleted nor expired; that same user
      asked for it in an earlier application on that instance, and the row was inserted by the step
      that passed the application. */
  lemma {:induction false} WholeRunSafety(day: int, steps: seq<Step>, user: User, inst: Instance, q: Query,
                                          adminLimit: int, t: TableRef)
    returns (i: nat, applied: nat, passed: nat, a: nat)
    requires !IsExempt(user, inst, q) && Needed(inst, q).Some? && t in Needed(inst, q).value
    requires Check(SnapshotOf(Run(Initial(day), steps), adminLimit), user, inst, q).Allowed?
    ensures
      var s := Run(Initial(day), steps);
      && i < |s.privileges| && Covers(s.privileges[i], user, inst, t, s.today)
      && applied <= passed < |steps| && Passed(steps, applied, passed, a) && Inserted(day, steps, passed, i)
      && steps[applied].ApplyStep? && steps[applied].user.name == user.name
      && AsksFor(steps[applied].r, s.privileges[i])
      && a == |Run(Initial(day), steps[..applied]).applications|
  {
    i := CoveringRow(Run(Initial(day), steps), user, inst, q, adminLimit, t);
    applied, passed, a := RowOrigin(day, steps, i);
  }

  /** In every run, a query that is checked at all is allowed exactly when each table or database
      it needs has a live row whose lowest id carries a nonzero limit. */
  lemma AllowedExactly(day: int, steps: seq<Step>, user: User, inst: Instance, q: Query, adminLimit: int)
    requires !IsExempt(user, inst, q)
    ensures
      var snap, needed := SnapshotOf(Run(Initial(day), steps), adminLimit), Needed(inst, q);
      Check(snap, user, inst, q).Allowed? <==>
        needed.Some? && forall t | t in needed.value :: IsCovered(snap, user, inst, t)
  {
    var snap, needed := SnapshotOf(Run(Initial(day), steps), adminLimit), Needed(inst, q);
    RunKeepsIds(day, steps);
    CheckExactly(snap, user, inst, q);
    if needed.Some? {
      forall t | t in needed.value
        ensures PrivLimit(snap, user, inst, t.schema, t.name).Some? <==> IsCovered(snap, user, inst, t)
      {
        CoveredExactly(snap, user, inst, t);
      }
    }
  }

  /** In every run, the first pass refuses a table exactly when no live row for it or its database
      has both the lowest id and a nonzero limit. */
  lemma DeniedInRunsExactly(day: int, steps: seq<Step>, user: User, inst: Instance, adminLimit: int, t: TableRef)
    requires !user.isSuperuser
    ensures
      var s := Run(Initial(day), steps);
      IsDenied(SnapshotOf(s, adminLimit), user, inst, t) <==>
        && !HasLiveLimit(s.privileges, user.name, inst.id, Db(t.schema), s.today)
        && !HasLiveLimit(s.privileges, user.name, inst.id, Tbl(t.schema, t.name), s.today)
  {
    RunKeepsIds(day, steps);
    DeniedExactly(SnapshotOf(Run(Initial(day), steps), adminLimit), user, inst, t);
  }

  /** Names without comma come back as they were asked for. */
  lemma AskedByName(r: Request, p: Privilege)
    requires AsksFor(r, p) && RequestedNames(r) != []
    requires NoneContains(RequestedNames(r), ',')
    ensures (if r.privType == DATABASE then p.dbName else p.tableName) in RequestedNames(r)
  {
    SplitJoin(RequestedNames(r), ',');
  }

  // ---- approval --------------------------------------------------------------------------

  /** The callback reads back the requested names exactly when none holds a comma. */
  lemma ApprovedNamesExactly(user: User, r: Request)
    requires IsComplete(r) && (r.privType == DATABASE || r.privType == TABLE)
    ensures NamesOf(ApplicationFor(user, r)) == RequestedNames(r) <==> NoneContains(RequestedNames(r), ',')
  {
    SplitJoinExactly(RequestedNames(r), ',');
  }

  /** Passing an application adds one live row per name, in order, with its day and limit, and
      nothing else. */
  lemma ApprovalGrantsExactly(s: State, a: nat)
    requires a < |s.applications| && HasKnownType(s.applications[a])
    ensures
      var s', app, n := Audit(s, a, PASSED), s.applications[a], |s.privileges|;
      && s'.applications == s.applications[a := app.(status := PASSED)] && s'.today == s.today
      && |s'.privileges| == n + |NamesOf(app)| && s'.privileges[..n] == s.privileges
      && forall j | 0 <= j < |NamesOf(app)| ::
           s'.privileges[n + j] == PrivilegeFor(app, NamesOf(app)[j], s.nextId + j)
  {
    var app := s.applications[a];
    var passed := app.(status := PASSED);
    PrivilegesForAt(passed, NamesOf(passed), s.nextId);
    var rows := PrivilegesFor(passed, NamesOf(passed), s.nextId);
    assert Audit(s, a, PASSED).privileges == s.privileges + rows;
    forall j | 0 <= j < |NamesOf(app)|
      ensures (s.privileges + rows)[|s.privileges| + j] == PrivilegeFor(app, NamesOf(app)[j], s.nextId + j)
    {
      assert rows[j] == PrivilegeFor(passed, NamesOf(app)[j], s.nextId + j);
    }
  }

  /** Limits of 0 are what the checker takes for no privilege. */
  ghost predicate NoZeroLimit(s: State) {
    && (forall p | p in s.privileges :: p.limitNum != 0)
    && (forall a | a in s.applications :: a.limitNum != 0)
  }

  predicate SetsNoZeroLimit(step: Step) {
    match step
    case ApplyStep(_, r, _, _) => r.limitNum != Some(0)
    case ChangeStep(_, _, limitNum) => limitNum != 0
    case _ => true
  }

  /** The step neither deletes nor changes a row with an id in the range. */
  predicate LeavesAlone(step: Step, firstId: int, endId: int) {
    match step
    case DeleteStep(ids) => forall id | id in ids :: !(firstId <= id < endId)
    case ChangeStep(ids, _, _) => forall id | id in ids :: !(firstId <= id < endId)
    case _ => true
  }

  lemma CallBackKeepsNonZero(s: State, applyId: nat, status: Status)
    requires NoZeroLimit(s) && applyId < |s.applications|
    ensures NoZeroLimit(CallBack(s, applyId, status).0)
  {
    var a := s.applications[applyId].(status := status);
    assert s.applications[applyId] in s.applications;
    PrivilegesForAt(a, NamesOf(a), s.nextId);
  }

  lemma StepKeepsNonZero(s: State, step: Step)
    requires NoZeroLimit(s) && SetsNoZeroLimit(step)
    ensures NoZeroLimit(Next(s, step))
  {
    match step
    case ApplyStep(user, r, status, adminLimit) =>
      if IsAccepted(SnapshotOf(s, adminLimit), user, r) && status.Some? {
        var s' := s.(applications := s.applications + [ApplicationFor(user, r)]);
        CallBackKeepsNonZero(s', |s.applications|, status.value);
      }
    case AuditStep(applyId, outcome) =>
      if applyId < |s.applications| {
        CallBackKeepsNonZero(s, applyId, outcome);
      }
    case DeleteStep(ids) => DeleteRowsAt(s.privileges, ids);
    case ChangeStep(ids, validDate, limitNum) => ChangeRowsAt(s.privileges, ids, validDate, limitNum);
    case NextDayStep =>
  }

  lemma {:induction false} RunKeepsNonZero(s: State, steps: seq<Step>)
    requires NoZeroLimit(s) && forall step | step in steps :: SetsNoZeroLimit(step)
    ensures NoZeroLimit(Run(s, steps))
  {
    if steps != [] {
      assert forall step | step in Front(steps) :: step in steps;
      RunKeepsNonZero(s, Front(steps));
      assert Last(steps) in steps;
      StepKeepsNonZero(Run(s, Front(steps)), Last(steps));
    }
  }

  /** A row whose id the steps leave alone does not change at all. */
  lemma {:induction false} RowUntouched(s: State, steps: seq<Step>, i: nat, firstId: int, endId: int)
    requires i < |s.privileges| && firstId <= s.privileges[i].id < endId
    requires forall step | step in steps :: LeavesAlone(step, firstId, endId)
    ensures i < |Run(s, steps).privileges| && Run(s, steps).privileges[i] == s.privileges[i]
  {
    if steps != [] {
      assert forall step | step in Front(steps) :: step in steps;
      RowUntouched(s, Front(steps), i, firstId, endId);
      var before, step := Run(s, Front(steps)), Last(steps);
      assert step in steps;
      match step
      case DeleteStep(ids) => DeleteRowsAt(before.privileges, ids);
      case ChangeStep(ids, validDate, limitNum) => ChangeRowsAt(before.privileges, ids, validDate, limitNum);
      case _ =>
    }
  }

  /** The table is one the application asks for, alone or through its database; the name `*` asks
      for every database. */
  predicate Names(app: Application, t: TableRef) {
    if app.privType == DATABASE then t.schema in NamesOf(app) || "*" in NamesOf(app)
    else t.schema == app.dbList && t.name in NamesOf(app) && t.name != ""
  }

  /** Once an application is passed, every query that needs only names it asked for is allowed to
      its user on its instance, on every engine and on each day up to its expiry, whatever else
      happens, until a delete or change touches the rows it was given. */
  lemma ApprovedQueriesAllowed(s: State, a: nat, later: seq<Step>, user: User, inst: Instance, q: Query,
                               adminLimit: int)
    requires a < |s.applications| && HasKnownType(s.applications[a]) && NoZeroLimit(s)
    requires forall step | step in later ::
      SetsNoZeroLimit(step) && LeavesAlone(step, s.nextId, s.nextId + |NamesOf(s.applications[a])|)
    requires user.name == s.applications[a].userName && inst.id == s.applications[a].instanceId
    requires Needed(inst, q).Some? && forall t | t in Needed(inst, q).value :: Names(s.applications[a], t)
    requires Run(Audit(s, a, PASSED), later).today <= s.applications[a].validDate
    ensures Check(SnapshotOf(Run(Audit(s, a, PASSED), later), adminLimit), user, inst, q).Allowed?
  {
    var app, s1 := s.applications[a], Audit(s, a, PASSED);
    var s2 := Run(s1, later);
    var snap := SnapshotOf(s2, adminLimit);
    if !IsExempt(user, inst, q) {
      StepKeepsNonZero(s, AuditStep(a, PASSED));
      RunKeepsNonZero(s1, later);
      forall t | t in Needed(inst, q).value
        ensures PrivLimit(snap, user, inst, t.schema, t.name).Some?
      {
        var w := if app.privType == DATABASE then Db(t.schema) else Tbl(t.schema, t.name);
        var name := if app.privType == TABLE then t.name else if t.schema in NamesOf(app) then t.schema else "*";
        GrantStays(s, a, later, name, w);
      }
      CheckExactly(snap, user, inst, q);
    }
  }

  /** What the application's row for the name grants. */
  predicate IsWantedBy(app: Application, name: string, w: Wanted) {
    if app.privType == DATABASE then w.Db? && (name == w.db || name == "*") else w == Tbl(app.dbList, name)
  }

  lemma GrantStays(s: State, a: nat, later: seq<Step>, name: string, w: Wanted)
    requires a < |s.applications| && HasKnownType(s.applications[a]) && name in NamesOf(s.applications[a])
    requires NoZeroLimit(Run(Audit(s, a, PASSED), later))
    requires forall step | step in later ::
      LeavesAlone(step, s.nextId, s.nextId + |NamesOf(s.applications[a])|)
    requires Run(Audit(s, a, PASSED), later).today <= s.applications[a].validDate
    requires IsWantedBy(s.applications[a], name, w)
    ensures
      var s2, app := Run(Audit(s, a, PASSED), later), s.applications[a];
      FirstLimit(s2.privileges, app.userName, app.instanceId, w, s2.today) != 0
  {
    var app := s.applications[a];
    var s2 := Run(Audit(s, a, PASSED), later);
    var i := GrantedRow(s, a, later, name);
    assert Grants(s2.privileges[i], app.userName, app.instanceId, w, s2.today);
    FirstLimitFinds(s2.privileges, app.userName, app.instanceId, w, s2.today, i);
  }

  /** The row for the name is still there as it was inserted. */
  lemma GrantedRow(s: State, a: nat, later: seq<Step>, name: string) returns (i: nat)
    requires a < |s.applications| && HasKnownType(s.applications[a]) && name in NamesOf(s.applications[a])
    requires forall step | step in later ::
      LeavesAlone(step, s.nextId, s.nextId + |NamesOf(s.applications[a])|)
    ensures
      var rows := Run(Audit(s, a, PASSED), later).privileges;
      i < |rows| && rows[i] == PrivilegeFor(s.applications[a], name, rows[i].id)
  {
    var names := NamesOf(s.applications[a]);
    var j :| 0 <= j < |names| && names[j] == name;
    ApprovalGrantsExactly(s, a);
    i := |s.privileges| + j;
    RowUntouched(Audit(s, a, PASSED), later, i, s.nextId, s.nextId + |names|);
  }

  /** While what an application was given is live and left alone, its user cannot apply for the
      same again. */
  lemma NoSecondApplication(s: State, a: nat, later: seq<Step>, user: User, r: Request, adminLimit: int)
    requires a < |s.applications| && HasKnownType(s.applications[a]) && NoZeroLimit(s)
    requires IsComplete(r) && SameApplication(s.applications[a], ApplicationFor(user, r))
    requires NoneContains(RequestedNames(r), ',') && !user.isSuperuser
    requires forall step | step in later ::
      SetsNoZeroLimit(step) && LeavesAlone(step, s.nextId, s.nextId + |NamesOf(s.applications[a])|)
    requires Run(Audit(s, a, PASSED), later).today <= s.applications[a].validDate
    ensures !IsAccepted(SnapshotOf(Run(Audit(s, a, PASSED), later), adminLimit), user, r)
  {
    var s1 := Audit(s, a, PASSED);
    var snap := SnapshotOf(Run(s1, later), adminLimit);
    ApprovedNamesExactly(user, r);
    StepKeepsNonZero(s, AuditStep(a, PASSED));
    RunKeepsNonZero(s1, later);
    var name := RequestedNames(r)[0];
    if r.privType == DATABASE {
      GrantStays(s, a, later, name, Db(name));
      assert name in r.dbNames && DbPriv(snap, user, r.inst, name) != 0;
    } else {
      GrantStays(s, a, later, name, Tbl(r.dbName, name));
      assert name in r.tableNames && TbPriv(snap, user, r.inst, r.dbName, name) != 0;
    }
  }

  /** A review of any application, whatever its outcome, never takes an allowed query away and
      never raises its limit, on any engine. */
  lemma ReviewNeverDenies(s: State, a: nat, outcome: Status, user: User, inst: Instance, q: Query, adminLimit: int)
    requires Check(SnapshotOf(s, adminLimit), user, inst, q).Allowed?
    ensures
      var before, after := Check(SnapshotOf(s, adminLimit), user, inst, q),
                           Check(SnapshotOf(Audit(s, a, outcome), adminLimit), user, inst, q);
      after.Allowed? && after.limit <= before.limit
  {
    var s' := Audit(s, a, outcome);
    assert s.privileges <= s'.privileges;
    var more := s'.privileges[|s.privileges|..];
    assert s'.privileges == s.privileges + more;
    assert SnapshotOf(s', adminLimit) == SnapshotOf(s, adminLimit).(rows := s.privileges + more);
    MoreRowsNeverDeny(SnapshotOf(s, adminLimit), more, user, inst, q);
  }

  // ---- review histories ------------------------------------------------------------------

  /** The reviews of one application, one after the other. */
  function Reviews(a: nat, outcomes: seq<Status>): seq<Step> {
    if outcomes == [] then [] else Reviews(a, Front(outcomes)) + [AuditStep(a, Last(outcomes))]
  }

  function Passes(outcomes: seq<Status>): nat {
    if outcomes == [] then 0 else Passes(Front(outcomes)) + if Last(outcomes) == PASSED then 1 else 0
  }

  /** The names, that many times over. */
  function Repeated(names: seq<string>, times: nat): seq<string> {
    if times == 0 then [] else Repeated(names, times - 1) + names
  }

  lemma {:induction false} RepeatedLength(names: seq<string>, times: nat)
    ensures |Repeated(names, times)| == |names| * times
  {
    if times > 0 {
      RepeatedLength(names, times - 1);
      assert |names| * times == |names| * (times - 1) + |names|;
    }
  }

  lemma {:induction false} PrivilegesForConcat(a: Application, x: seq<string>, y: seq<string>, firstId: nat)
    ensures PrivilegesFor(a, x + y, firstId) == PrivilegesFor(a, x, firstId) + PrivilegesFor(a, y, firstId + |x|)
  {
    if x == [] {
      assert x + y == y;
    } else {
      assert (x + y)[1..] == x[1..] + y;
      PrivilegesForConcat(a, x[1..], y, firstId + 1);
    }
  }

  lemma {:induction false} StatusIrrelevant(a: Application, status: Status, names: seq<string>, firstId: nat)
    ensures PrivilegesFor(a.(status := status), names, firstId) == PrivilegesFor(a, names, firstId)
    ensures NamesOf(a.(status := status)) == NamesOf(a)
  {
    if names != [] {
      StatusIrrelevant(a, status, names[1..], firstId + 1);
    }
  }

  /** The state with one application's status set, and rows for the names inserted. */
  function Given(s: State, a: nat, status: Status, names: seq<string>): State
    requires a < |s.applications|
  {
    var app := s.applications[a];
    State(s.applications[a := app.(status := status)], s.privileges + PrivilegesFor(app, names, s.nextId),
          s.nextId + |names|, s.today)
  }

  lemma NothingGiven(s: State, a: nat)
    requires a < |s.applications|
    ensures Given(s, a, s.applications[a].status, []) == s
  {
    var app := s.applications[a];
    assert s.applications[a := app.(status := app.status)] == s.applications;
    assert s.privileges + [] == s.privileges;
  }

  lemma OneReview(s: State, a: nat, outcome: Status)
    requires a < |s.applications| && HasKnownType(s.applications[a])
    ensures Audit(s, a, outcome) == Given(s, a, outcome, if outcome == PASSED then NamesOf(s.applications[a]) else [])
  {
    StatusIrrelevant(s.applications[a], outcome, NamesOf(s.applications[a]), s.nextId);
    assert s.privileges + [] == s.privileges;
  }

  lemma GivenTwice(s: State, a: nat, first: Status, x: seq<string>, second: Status, y: seq<string>)
    requires a < |s.applications|
    ensures Given(Given(s, a, first, x), a, second, y) == Given(s, a, second, x + y)
  {
    var app := s.applications[a];
    StatusIrrelevant(app, first, y, s.nextId + |x|);
    PrivilegesForConcat(app, x, y, s.nextId);
    var px, py := PrivilegesFor(app, x, s.nextId), PrivilegesFor(app, y, s.nextId + |x|);
    assert s.privileges + px + py == s.privileges + (px + py);
  }

  function StatusAfter(s: State, a: nat, outcomes: seq<Status>): Status
    requires a < |s.applications|
  {
    if outcomes == [] then s.applications[a].status else Last(outcomes)
  }

  /** Whatever its reviews, an application ends with the last outcome, and its names have been
      granted once for each outcome that was a pass, with nothing else changed. */
  lemma {:induction false} ReviewsGrantExactly(s: State, a: nat, outcomes: seq<Status>)
    requires a < |s.applications| && HasKnownType(s.applications[a])
    ensures Run(s, Reviews(a, outcomes))
         == Given(s, a, StatusAfter(s, a, outcomes), Repeated(NamesOf(s.applications[a]), Passes(outcomes)))
  {
    if outcomes == [] {
      NothingGiven(s, a);
      assert Run(s, Reviews(a, outcomes)) == s;
    } else {
      var before, last, names := Front(outcomes), Last(outcomes), NamesOf(s.applications[a]);
      ReviewsGrantExactly(s, a, before);
      RunOneMore(s, a, outcomes);
      OneMorePass(s, a, StatusAfter(s, a, before), names, Passes(before), last);
      assert Passes(outcomes) == if last == PASSED then Passes(before) + 1 else Passes(before);
    }
  }

  lemma RunOneMore(s: State, a: nat, outcomes: seq<Status>)
    requires outcomes != []
    ensures Run(s, Reviews(a, outcomes)) == Audit(Run(s, Reviews(a, Front(outcomes))), a, Last(outcomes))
  {
    var steps := Reviews(a, Front(outcomes));
    assert Front(steps + [AuditStep(a, Last(outcomes))]) == steps;
  }

  lemma OneMorePass(s: State, a: nat, status: Status, names: seq<string>, times: nat, last: Status)
    requires a < |s.applications| && HasKnownType(s.applications[a]) && names == NamesOf(s.applications[a])
    ensures Audit(Given(s, a, status, Repeated(names, times)), a, last)
         == Given(s, a, last, Repeated(names, if last == PASSED then times + 1 else times))
  {
    var repeated, more := Repeated(names, times), if last == PASSED then names else [];
    var before := Given(s, a, status, repeated);
    assert NamesOf(before.applications[a]) == names;
    OneReview(before, a, last);
    GivenTwice(s, a, status, repeated, last, more);
    assert repeated + more == Repeated(names, if last == PASSED then times + 1 else times);
  }

  lemma {:induction false} NoPassExactly(outcomes: seq<Status>)
    ensures Passes(outcomes) == 0 <==> PASSED !in outcomes
  {
    if outcomes != [] {
      NoPassExactly(Front(outcomes));
      assert outcomes == Front(outcomes) + [Last(outcomes)];
    }
  }

  // ---- what does not hold ----------------------------------------------------------------

  /** Rejecting an application never takes back what it was given: a rejected application is
      without rows exactly when none of its outcomes was a pass. */
  lemma RejectionLeavesGrants(s: State, a: nat, outcomes: seq<Status>)
    requires a < |s.applications| && HasKnownType(s.applications[a])
    requires outcomes != [] && Last(outcomes) == REJECTED
    ensures
      var s', n := Run(s, Reviews(a, outcomes)), |NamesOf(s.applications[a])|;
      && s'.applications == s.applications[a := s.applications[a].(status := REJECTED)]
      && |s'.privileges| == |s.privileges| + n * Passes(outcomes)
      && (s'.privileges == s.privileges <==> PASSED !in outcomes)
  {
    var names := NamesOf(s.applications[a]);
    ReviewsGrantExactly(s, a, outcomes);
    NoPassExactly(outcomes);
    RepeatedLength(names, Passes(outcomes));
    if Passes(outcomes) > 0 {
      assert |names| * Passes(outcomes) > 0;
    } else {
      assert s.privileges + [] == s.privileges;
    }
  }

  function DatabaseRequest(inst: Instance, db: string, validDate: int, limit: int): Request {
    Request("title", inst, DATABASE, "", [db], [], Some(validDate), Some(limit))
  }

  /** Applying for one database and passing it, as far as the rows go. */
  lemma OneDatabase(s: State, user: User, inst: Instance, db: string, validDate: int, limit: int, adminLimit: int)
    requires inst.id in user.readable && ',' !in db && DbPriv(SnapshotOf(s, adminLimit), user, inst, db) == 0
    ensures
      var applied := Apply(s, user, DatabaseRequest(inst, db, validDate, limit), Some(WAITING), adminLimit);
      var s' := Audit(applied, |s.applications|, PASSED);
      && |s'.applications| == |s.applications| + 1 && s'.today == s.today && s'.nextId == s.nextId + 1
      && s'.privileges
         == s.privileges + [Privilege(s.nextId, user.name, inst.id, db, "", validDate, limit, DATABASE, false)]
  {
    var r, a := DatabaseRequest(inst, db, validDate, limit), |s.applications|;
    var applied := Apply(s, user, r, Some(WAITING), adminLimit);
    assert applied == s.(applications := s.applications + [ApplicationFor(user, r)]);
    assert NoneContains([db], ',');
    ApprovedNamesExactly(user, r);
    ApprovalGrantsExactly(applied, a);
    var s' := Audit(applied, a, PASSED);
    assert s'.privileges == s.privileges + [s'.privileges[|s.privileges|]];
  }

  /** A live row with limit 0 hides later rows with the same grant: a user applies for a database
      with limit 0 and then with any limit, both are passed and live, and queries are refused. */
  lemma ZeroLimitHides(day: int, user: User, inst: Instance, t: TableRef, validDate: int, limit: int, adminLimit: int)
    requires !user.isSuperuser && inst.id in user.readable && ',' !in t.schema && day <= validDate
    ensures
      var r0, r1 := DatabaseRequest(inst, t.schema, validDate, 0), DatabaseRequest(inst, t.schema, validDate, limit);
      var steps := [ApplyStep(user, r0, Some(WAITING), adminLimit), AuditStep(0, PASSED),
                    ApplyStep(user, r1, Some(WAITING), adminLimit), AuditStep(1, PASSED)];
      var s := Run(Initial(day), steps);
      && |s.privileges| == 2 && s.privileges[1].limitNum == limit
      && Grants(s.privileges[1], user.name, inst.id, Db(t.schema), s.today)
      && IsDenied(SnapshotOf(s, adminLimit), user, inst, t)
  {
    var r0, r1 := DatabaseRequest(inst, t.schema, validDate, 0), DatabaseRequest(inst, t.schema, validDate, limit);
    var a0, a1 := ApplyStep(user, r0, Some(WAITING), adminLimit), ApplyStep(user, r1, Some(WAITING), adminLimit);
    var p0, p1 := AuditStep(0, PASSED), AuditStep(1, PASSED);
    var s0 := Initial(day);
    var s1 := Next(Next(s0, a0), p0);
    OneDatabase(s0, user, inst, t.schema, validDate, 0, adminLimit);
    var zero := s1.privileges[0];
    assert s1.privileges == [zero];
    OneRowLimit(zero, user, inst, Db(t.schema), day);
    OneDatabase(s1, user, inst, t.schema, validDate, limit, adminLimit);
    var s2 := Next(Next(s1, a1), p1);
    RunOfFour(s0, a0, p0, a1, p1);
    var good := s2.privileges[1];
    assert s2.privileges == [zero, good] && s2.privileges[1..] == [good];
    OneRowLimit(good, user, inst, Tbl(t.schema, t.name), day);
  }

  lemma OneRowLimit(p: Privilege, user: User, inst: Instance, w: Wanted, today: int)
    ensures FirstLimit([p], user.name, inst.id, w, today)
         == if Grants(p, user.name, inst.id, w, today) then p.limitNum else 0
  {
    assert [p][1..] == [];
  }

  lemma RunOfFour(s: State, a: Step, b: Step, c: Step, d: Step)
    ensures Run(s, [a, b, c, d]) == Next(Next(Next(Next(s, a), b), c), d)
  {
    assert [] + [a] == [a] && [a] + [b] == [a, b] && [a, b] + [c] == [a, b, c] && [a, b, c] + [d] == [a, b, c, d];
    RunOneStep(s, [], a);
    RunOneStep(s, [a], b);
    RunOneStep(s, [a, b], c);
    RunOneStep(s, [a, b, c], d);
  }

  lemma RunOneStep(s: State, steps: seq<Step>, step: Step)
    ensures Run(s, steps + [step]) == Next(Run(s, steps), step)
  {
    assert Front(steps + [step]) == steps;
  }
}
