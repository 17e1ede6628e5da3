/** The two halves together: applications whose status is decided by the review chain, and the
    rows the callback inserts when a chain is complete. */
module ReviewedRuns {
  import opened Text
  import opened Wrappers
  import opened PrivilegeChecks
  import opened PrivilegeStore
  import opened PrivilegeRuns
  import Chain = ApprovalChain

  /** The tables and, for each application, its setting, applicant and review operations so far;
      the review record is the outcome of those. */
  datatype Review = Review(setting: string, user: string, operations: seq<Chain.Operation>)

  datatype System = System(s: State, reviews: seq<Review>)

  datatype SystemStep =
    | Submit(user: User, r: Request, setting: string, adminLimit: int)
    | Operate(applyId: nat, op: Chain.Operation)
    | Delete(ids: seq<int>)
    | Change(ids: seq<int>, validDate: int, limitNum: int)
    | PassDay

  function Record(r: Review): Chain.Audit {
    Chain.Run(Chain.NewAudit(r.setting, r.user), r.operations)
  }

  function Reviewed(r: Review, op: Chain.Operation): Review {
    r.(operations := r.operations + [op])
  }

  /** The view asks every actor for the permission to review. */
  predicate MayEnter(actor: Chain.Actor) {
    actor.isSuperuser || actor.mayReview
  }

  /** The operation is carried out: it is allowed and, for a pass, the next group is in the chain. */
  predicate GoesThrough(r: Review, op: Chain.Operation) {
    && MayEnter(op.actor) && Chain.CanOperate(Record(r), op)
    && (op.action == Chain.Pass ==> Chain.PassOn(Record(r)).Some?)
  }

  /** What a step does to the tables, if anything. */
  function TableStep(x: System, step: SystemStep): Option<Step> {
    match step
    case Submit(user, r, setting, adminLimit) => Some(ApplyStep(user, r, Some(WAITING), adminLimit))
    case Operate(a, op) =>
      if a < |x.reviews| && GoesThrough(x.reviews[a], op) then
        Some(AuditStep(a, Record(Reviewed(x.reviews[a], op)).status))
      else None
    case Delete(ids) => Some(DeleteStep(ids))
    case Change(ids, validDate, limitNum) => Some(ChangeStep(ids, validDate, limitNum))
    case PassDay => Some(NextDayStep)
  }

  /** The reviews after a step.  A callback that raises undoes the operation with it. */
  function ReviewsAfter(x: System, step: SystemStep): seq<Review> {
    match step
    case Submit(user, r, setting, adminLimit) =>
      if IsAccepted(SnapshotOf(x.s, adminLimit), user, r) then x.reviews + [Review(setting, user.name, [])]
      else x.reviews
    case Operate(a, op) =>
      if a < |x.reviews| && a < |x.s.applications| && GoesThrough(x.reviews[a], op)
         && CallBack(x.s, a, Record(Reviewed(x.reviews[a], op)).status).1 then
        x.reviews[a := Reviewed(x.reviews[a], op)]
      else x.reviews
    case _ => x.reviews
  }

  function SystemNext(x: System, step: SystemStep): System {
    System(match TableStep(x, step) case Some(t) => Next(x.s, t) case None => x.s, ReviewsAfter(x, step))
  }

  function SystemRun(day: int, steps: seq<SystemStep>): System {
    if steps == [] then System(Initial(day), []) else SystemNext(SystemRun(day, Front(steps)), Last(steps))
  }

  /** The steps of the tables alone. */
  function TableSteps(day: int, steps: seq<SystemStep>): seq<Step> {
    if steps == [] then []
    else Appended(TableSteps(day, Front(steps)), TableStep(SystemRun(day, Front(steps)), Last(steps)))
  }

  function Appended(steps: seq<Step>, step: Option<Step>): seq<Step> {
    match step case Some(t) => steps + [t] case None => steps
  }

  lemma {:induction false} RunOfTables(day: int, steps: seq<SystemStep>)
    ensures SystemRun(day, steps).s == Run(Initial(day), TableSteps(day, steps))
  {
    if steps != [] {
      RunOfTables(day, Front(steps));
      var t := TableStep(SystemRun(day, Front(steps)), Last(steps));
      if t.Some? {
        var before := TableSteps(day, Front(steps));
        assert Front(before + [t.value]) == before;
      }
    }
  }

  // ---- applications and reviews go together ----------------------------------------------

  predicate InStep(x: System) {
    && |x.reviews| == |x.s.applications|
    && forall a | 0 <= a < |x.reviews| :: x.reviews[a].user == x.s.applications[a].userName
  }

  /** The applications known before a step are still there, with what they ask for. */
  lemma StepKeepsSystem(x: System, step: SystemStep)
    ensures ApplicationsKept(x.s.applications, SystemNext(x, step).s.applications)
    ensures RowsKept(x.s.privileges, SystemNext(x, step).s.privileges)
  {
    if TableStep(x, step).Some? {
      StepKeeps(x.s, TableStep(x, step).value);
    }
  }

  lemma {:induction false} RunInStep(day: int, steps: seq<SystemStep>)
    ensures InStep(SystemRun(day, steps))
  {
    if steps != [] {
      RunInStep(day, Front(steps));
      var x, step := SystemRun(day, Front(steps)), Last(steps);
      StepKeepsSystem(x, step);
    }
  }

  // ---- a passed application has its whole chain behind it --------------------------------

  /** No group of the chain has the id that stands for no group. */
  predicate HasProperChain(r: Review) {
    Chain.NO_GROUP !in Chain.GroupsOf(r.setting)
  }

  /** The chain names no group twice, and every group of it has passed the application, in order,
      each through someone entitled to. */
  ghost predicate IsFullyApproved(r: Review) {
    var groups := Chain.GroupsOf(r.setting);
    var approvals := Chain.Approvals(Chain.NewAudit(r.setting, r.user), r.operations);
    AreDistinct(groups) && |approvals| == |groups| && Chain.AreEntitled(approvals, r.user, groups)
  }

  lemma PassedIsApproved(r: Review)
    requires HasProperChain(r) && Record(r).status == PASSED
    ensures IsFullyApproved(r)
  {
    Chain.PassedChainIsDistinct(r.setting, r.user, r.operations);
    Chain.PassedOnlyByWholeChain(r.setting, r.user, r.operations);
  }

  lemma StaysApproved(r: Review, op: Chain.Operation)
    requires HasProperChain(r) && IsFullyApproved(r)
    ensures IsFullyApproved(Reviewed(r, op))
  {
    Chain.PassedOnlyByWholeChain(r.setting, r.user, r.operations + [op]);
    assert Front(r.operations + [op]) == r.operations;
  }

  lemma {:induction false} PassedStepIsApproved(day: int, steps: seq<SystemStep>, a: nat)
    requires forall step | step in steps && step.Submit? :: HasProperChain(Review(step.setting, "", []))
    requires AuditStep(a, PASSED) in TableSteps(day, steps)
    ensures
      var x := SystemRun(day, steps);
      && a < |x.reviews| && a < |x.s.applications|
      && (HasKnownType(x.s.applications[a]) ==> IsFullyApproved(x.reviews[a]))
  {
    var pre, step := Front(steps), Last(steps);
    var x, x' := SystemRun(day, pre), SystemRun(day, steps);
    assert forall st | st in pre :: st in steps;
    RunInStep(day, pre);
    RunInStep(day, steps);
    StepKeepsSystem(x, step);
    ProperChains(day, pre);
    if AuditStep(a, PASSED) in TableSteps(day, pre) {
      PassedStepIsApproved(day, pre, a);
      assert SameApplication(x.s.applications[a], x'.s.applications[a]);
      if x'.reviews[a] != x.reviews[a] && HasKnownType(x.s.applications[a]) {
        StaysApproved(x.reviews[a], step.op);
      }
    } else {
      assert TableStep(x, step) == Some(AuditStep(a, PASSED));
      var r := Reviewed(x.reviews[a], step.op);
      if HasKnownType(x.s.applications[a]) {
        assert x'.reviews[a] == r;
        PassedIsApproved(r);
      }
    }
  }

  lemma {:induction false} ProperChains(day: int, steps: seq<SystemStep>)
    requires forall step | step in steps && step.Submit? :: HasProperChain(Review(step.setting, "", []))
    ensures forall a | 0 <= a < |SystemRun(day, steps).reviews| :: HasProperChain(SystemRun(day, steps).reviews[a])
  {
    if steps != [] {
      assert forall st | st in Front(steps) :: st in steps;
      ProperChains(day, Front(steps));
      assert Last(steps) in steps;
    }
  }

  // ---- where rows come from --------------------------------------------------------------

  /** Step `k` inserted row number `i` for application `a`, whose whole chain had passed it then. */
  ghost predicate GrantedBy(day: int, steps: seq<SystemStep>, k: nat, a: nat, i: nat) {
    && k < |steps| && steps[k].Operate? && steps[k].applyId == a
    && var before := SystemRun(day, steps[..k]);
       && |before.s.privileges| <= i < |SystemRun(day, steps[..k + 1]).s.privileges|
       && a < |before.reviews| && GoesThrough(before.reviews[a], steps[k].op)
       && Record(Reviewed(before.reviews[a], steps[k].op)).status == PASSED
       && IsFullyApproved(Reviewed(before.reviews[a], steps[k].op))
  }

  lemma GrantedLater(day: int, steps: seq<SystemStep>, k: nat, a: nat, i: nat)
    requires steps != [] && GrantedBy(day, Front(steps), k, a, i)
    ensures GrantedBy(day, steps, k, a, i)
  {
    assert Front(steps)[..k] == steps[..k] && Front(steps)[..k + 1] == steps[..k + 1];
  }

  /** The last step inserted the row. */
  lemma NewRowGranted(day: int, steps: seq<SystemStep>, i: nat) returns (a: nat)
    requires steps != []
    requires forall step | step in steps && step.Submit? :: HasProperChain(Review(step.setting, "", []))
    requires
      |SystemRun(day, Front(steps)).s.privileges| <= i < |SystemRun(day, steps).s.privileges|
    ensures GrantedBy(day, steps, |steps| - 1, a, i)
    ensures a < |SystemRun(day, steps).s.applications|
    ensures IsRowOf(SystemRun(day, steps).s.applications[a], SystemRun(day, steps).s.privileges[i])
  {
    var pre, step := Front(steps), Last(steps);
    var x := SystemRun(day, pre);
    assert forall st | st in pre :: st in steps;
    assert steps[..|steps| - 1] == pre && steps[..|steps|] == steps;
    assert step.Operate?;
    a := step.applyId;
    var r := Reviewed(x.reviews[a], step.op);
    CallBackRows(x.s, a, Record(r).status, i);
    ProperChains(day, pre);
    PassedIsApproved(r);
  }

  lemma {:induction false} SystemRowOrigin(day: int, steps: seq<SystemStep>, i: nat) returns (k: nat, a: nat)
    requires forall step | step in steps && step.Submit? :: HasProperChain(Review(step.setting, "", []))
    requires i < |SystemRun(day, steps).s.privileges|
    ensures GrantedBy(day, steps, k, a, i) && a < |SystemRun(day, steps).s.applications|
    ensures IsRowOf(SystemRun(day, steps).s.applications[a], SystemRun(day, steps).s.privileges[i])
  {
    var pre, step := Front(steps), Last(steps);
    var x := SystemRun(day, pre);
    if i < |x.s.privileges| {
      assert forall st | st in pre :: st in steps;
      k, a := SystemRowOrigin(day, pre, i);
      GrantedLater(day, steps, k, a, i);
      StepKeepsSystem(x, step);
    } else {
      k := |steps| - 1;
      a := NewRowGranted(day, steps, i);
    }
  }

  /** End to end, on every engine: when a query that is checked at all is allowed, each table or
      database it needs is covered by a live row that the same user asked for in an application,
      and when the row was inserted every group of the review chain had passed the application,
      one after the other, each through someone entitled to. */
  lemma {:induction false} AllowedOnlyAfterWholeChain(day: int, steps: seq<SystemStep>, user: User, inst: Instance,
                                                      q: Query, adminLimit: int, t: TableRef)
    returns (i: nat, k: nat, a: nat)
    requires forall step | step in steps && step.Submit? :: HasProperChain(Review(step.setting, "", []))
    requires !IsExempt(user, inst, q) && Needed(inst, q).Some? && t in Needed(inst, q).value
    requires Check(SnapshotOf(SystemRun(day, steps).s, adminLimit), user, inst, q).Allowed?
    ensures
      var x := SystemRun(day, steps);
      && i < |x.s.privileges| && a < |x.reviews| && a < |x.s.applications|
      && Covers(x.s.privileges[i], user, inst, t, x.s.today)
      && IsRowOf(x.s.applications[a], x.s.privileges[i]) && x.reviews[a].user == user.name
      && GrantedBy(day, steps, k, a, i)
  {
    i := CoveringRow(SystemRun(day, steps).s, user, inst, q, adminLimit, t);
    k, a := SystemRowOrigin(day, steps, i);
    RunInStep(day, steps);
  }

  // ---- how often an application is granted -----------------------------------------------

  /** How often the callback was told that the application is passed. */
  function Grantings(steps: seq<Step>, a: nat): nat {
    if steps == [] then 0 else Grantings(Front(steps), a) + if Last(steps) == AuditStep(a, PASSED) then 1 else 0
  }

  /** The step carries out an execution action on the application. */
  predicate Executes(x: System, step: SystemStep, a: nat) {
    && step.Operate? && step.applyId == a && Chain.IsExecution(step.op.action)
    && a < |x.reviews| && GoesThrough(x.reviews[a], step.op)
  }

  function Executions(day: int, steps: seq<SystemStep>, a: nat): nat {
    if steps == [] then 0
    else Executions(day, Front(steps), a) + if Executes(SystemRun(day, Front(steps)), Last(steps), a) then 1 else 0
  }

  lemma GrantingsAppended(steps: seq<Step>, step: Option<Step>, a: nat)
    ensures Grantings(Appended(steps, step), a)
         == Grantings(steps, a) + if step == Some(AuditStep(a, PASSED)) then 1 else 0
  {
    if step.Some? {
      assert Front(steps + [step.value]) == steps;
    }
  }

  lemma OneMoreTableStep(day: int, steps: seq<SystemStep>, a: nat)
    requires steps != []
    ensures
      Grantings(TableSteps(day, steps), a) == Grantings(TableSteps(day, Front(steps)), a)
        + if TableStep(SystemRun(day, Front(steps)), Last(steps)) == Some(AuditStep(a, PASSED)) then 1 else 0
  {
    GrantingsAppended(TableSteps(day, Front(steps)), TableStep(SystemRun(day, Front(steps)), Last(steps)), a);
  }

  /** How many rows a step inserts for the application, and a run. */
  function Gain(x: System, step: SystemStep, a: nat): int {
    if step.Operate? && step.applyId == a then |SystemNext(x, step).s.privileges| - |x.s.privileges| else 0
  }

  function RowsGiven(day: int, steps: seq<SystemStep>, a: nat): int {
    if steps == [] then 0
    else RowsGiven(day, Front(steps), a) + Gain(SystemRun(day, Front(steps)), Last(steps), a)
  }

  /** The application has been granted as often as its status allows. */
  predicate IsCounted(status: Status, granted: nat, executed: nat) {
    && ((granted == 0 && executed == 0) || granted == executed + 1)
    && (status == WAITING ==> granted == 0)
    && (status == PASSED ==> granted > 0)
  }

  /** The application has been given its names once for each granting. */
  predicate IsGiven(names: seq<string>, given: int, granted: nat) {
    given == |names| * granted
  }

  /** The counts of one application; there are none before it is stored. */
  predicate IsBalanced(x: System, a: nat, granted: nat, executed: nat, given: int) {
    if a < |x.reviews| && a < |x.s.applications| then
      HasKnownType(x.s.applications[a]) ==>
        && IsCounted(Record(x.reviews[a]).status, granted, executed)
        && IsGiven(NamesOf(x.s.applications[a]), given, granted)
    else granted == 0 && executed == 0 && given == 0
  }

  lemma OneMoreTime(names: seq<string>, given: int, granted: nat)
    requires IsGiven(names, given, granted)
    ensures IsGiven(names, given + |names|, granted + 1)
  {
    assert |names| * (granted + 1) == |names| * granted + |names|;
  }

  /** What an operation that goes through does to the counts. */
  lemma OperationCounted(r: Review, op: Chain.Operation, granted: nat, executed: nat)
    requires GoesThrough(r, op) && IsCounted(Record(r).status, granted, executed)
    ensures
      var status := Record(Reviewed(r, op)).status;
      IsCounted(status, if status == PASSED then granted + 1 else granted,
                if Chain.IsExecution(op.action) then executed + 1 else executed)
  {
    assert Front(r.operations + [op]) == r.operations;
    assert Record(Reviewed(r, op)) == Chain.Operate(Record(r), op);
  }

  /** The step carries out an operation on the application. */
  predicate Operates(x: System, step: SystemStep, a: nat) {
    step.Operate? && step.applyId == a && a < |x.reviews| && GoesThrough(x.reviews[a], step.op)
  }

  predicate IsGranting(x: System, step: SystemStep, a: nat) {
    TableStep(x, step) == Some(AuditStep(a, PASSED))
  }

  lemma OtherStep(x: System, step: SystemStep, a: nat)
    requires !Operates(x, step, a) && InStep(x)
    ensures !IsGranting(x, step, a) && !Executes(x, step, a) && Gain(x, step, a) == 0
    ensures a < |x.reviews| ==> a < |SystemNext(x, step).reviews| && SystemNext(x, step).reviews[a] == x.reviews[a]
  {
  }

  lemma OwnStep(x: System, step: SystemStep, a: nat)
    requires a < |x.reviews| && a < |x.s.applications| && HasKnownType(x.s.applications[a]) && Operates(x, step, a)
    ensures
      var r := Reviewed(x.reviews[a], step.op);
      && a < |SystemNext(x, step).reviews| && SystemNext(x, step).reviews[a] == r
      && (IsGranting(x, step, a) <==> Record(r).status == PASSED)
    ensures Gain(x, step, a) == if IsGranting(x, step, a) then |NamesOf(x.s.applications[a])| else 0
  {
    ApprovalGrantsExactly(x.s, a);
  }

  lemma NamesKept(x: System, step: SystemStep, a: nat)
    requires a < |x.s.applications|
    ensures
      var s' := SystemNext(x, step).s;
      && a < |s'.applications| && NamesOf(s'.applications[a]) == NamesOf(x.s.applications[a])
      && s'.applications[a].privType == x.s.applications[a].privType
  {
    StepKeepsSystem(x, step);
    assert SameApplication(x.s.applications[a], SystemNext(x, step).s.applications[a]);
  }

  lemma NewIsBalanced(x: System, a: nat)
    requires a < |x.reviews| && a < |x.s.applications| && Record(x.reviews[a]).status == WAITING
    ensures IsBalanced(x, a, 0, 0, 0)
  {
    assert |NamesOf(x.s.applications[a])| * 0 == 0;
  }

  lemma SubmittedWaits(x: System, step: SystemStep, a: nat)
    requires InStep(x) && a >= |x.reviews| && a < |SystemNext(x, step).reviews|
    ensures Record(SystemNext(x, step).reviews[a]).status == WAITING
  {
    assert SystemNext(x, step).reviews[a].operations == [];
  }

  lemma OwnStepBalanced(x: System, step: SystemStep, a: nat, granted: nat, executed: nat, given: int)
    requires Operates(x, step, a) && a < |x.s.applications| && HasKnownType(x.s.applications[a])
    requires IsBalanced(x, a, granted, executed, given)
    ensures IsBalanced(SystemNext(x, step), a, if IsGranting(x, step, a) then granted + 1 else granted,
                       if Executes(x, step, a) then executed + 1 else executed, given + Gain(x, step, a))
  {
    NamesKept(x, step, a);
    OperationCounted(x.reviews[a], step.op, granted, executed);
    OwnStep(x, step, a);
    OneMoreTime(NamesOf(x.s.applications[a]), given, granted);
  }

  lemma OtherStepBalanced(x: System, step: SystemStep, a: nat, granted: nat, executed: nat, given: int)
    requires !Operates(x, step, a) && InStep(x) && InStep(SystemNext(x, step))
    requires IsBalanced(x, a, granted, executed, given)
    ensures IsBalanced(SystemNext(x, step), a, granted, executed, given)
  {
    OtherStep(x, step, a);
    if a < |x.reviews| {
      NamesKept(x, step, a);
    } else if a < |SystemNext(x, step).reviews| {
      SubmittedWaits(x, step, a);
      NewIsBalanced(SystemNext(x, step), a);
    }
  }

  lemma StepBalanced(x: System, step: SystemStep, a: nat, granted: nat, executed: nat, given: int)
    requires InStep(x) && InStep(SystemNext(x, step)) && IsBalanced(x, a, granted, executed, given)
    ensures IsBalanced(SystemNext(x, step), a, if IsGranting(x, step, a) then granted + 1 else granted,
                       if Executes(x, step, a) then executed + 1 else executed, given + Gain(x, step, a))
  {
    if Operates(x, step, a) {
      NamesKept(x, step, a);
      if HasKnownType(x.s.applications[a]) {
        OwnStepBalanced(x, step, a, granted, executed, given);
      }
    } else {
      OtherStep(x, step, a);
      OtherStepBalanced(x, step, a, granted, executed, given);
    }
  }

  /** The counts of a run are those before its last step and what that step adds. */
  lemma OneMoreStep(day: int, steps: seq<SystemStep>, a: nat)
    requires steps != []
    ensures
      var pre, step := Front(steps), Last(steps);
      var x, granted := SystemRun(day, pre), Grantings(TableSteps(day, pre), a);
      && SystemRun(day, steps) == SystemNext(x, step)
      && Grantings(TableSteps(day, steps), a) == (if IsGranting(x, step, a) then granted + 1 else granted)
      && Executions(day, steps, a) == Executions(day, pre, a) + (if Executes(x, step, a) then 1 else 0)
      && RowsGiven(day, steps, a) == RowsGiven(day, pre, a) + Gain(x, step, a)
  {
    OneMoreTableStep(day, steps, a);
  }

  lemma {:induction false} RunBalanced(day: int, steps: seq<SystemStep>, a: nat)
    ensures IsBalanced(SystemRun(day, steps), a, Grantings(TableSteps(day, steps), a), Executions(day, steps, a),
                       RowsGiven(day, steps, a))
  {
    if steps != [] {
      var pre := Front(steps);
      RunBalanced(day, pre, a);
      RunInStep(day, pre);
      RunInStep(day, steps);
      OneMoreStep(day, steps, a);
      StepBalanced(SystemRun(day, pre), Last(steps), a, Grantings(TableSteps(day, pre), a), Executions(day, pre, a),
                   RowsGiven(day, pre, a));
    }
  }

  /** In every run, an application is granted once more than execution actions are carried out on
      it, if at all: so more than once exactly when there was one.  Each granting inserts one row
      for each name it asks for. */
  lemma GrantedAgainExactly(day: int, steps: seq<SystemStep>, a: nat)
    requires a < |SystemRun(day, steps).reviews| && a < |SystemRun(day, steps).s.applications|
    requires HasKnownType(SystemRun(day, steps).s.applications[a])
    ensures
      var granted, executed := Grantings(TableSteps(day, steps), a), Executions(day, steps, a);
      && (granted > 1 <==> executed > 0)
      && (granted > 0 ==> granted == executed + 1)
      && RowsGiven(day, steps, a) == |NamesOf(SystemRun(day, steps).s.applications[a])| * granted
  {
    RunBalanced(day, steps, a);
  }

  /** And execution actions are carried out only after the whole chain has passed the application. */
  lemma ExecutedOnlyAfterWholeChain(r: Review, op: Chain.Operation)
    requires HasProperChain(r) && Chain.IsExecution(op.action) && GoesThrough(r, op)
    ensures IsFullyApproved(r)
  {
    PassedIsApproved(r);
  }

  /** An execution action by anybody who may review inserts the rows of a passed application
      again, live and with its first day and limit, whatever has been deleted or changed. */
  lemma ExecutionGrantsAgain(x: System, a: nat, op: Chain.Operation)
    requires a < |x.reviews| && a < |x.s.applications| && HasKnownType(x.s.applications[a])
    requires Record(x.reviews[a]).status == PASSED && Chain.IsExecution(op.action) && MayEnter(op.actor)
    ensures
      var s', app, n := SystemNext(x, Operate(a, op)).s, x.s.applications[a], |x.s.privileges|;
      && |s'.privileges| == n + |NamesOf(app)| && s'.privileges[..n] == x.s.privileges
      && forall j | 0 <= j < |NamesOf(app)| ::
           s'.privileges[n + j] == PrivilegeFor(app, NamesOf(app)[j], x.s.nextId + j)
  {
    var r := x.reviews[a];
    assert Front(r.operations + [op]) == r.operations;
    assert Record(Reviewed(r, op)) == Record(r);
    ApprovalGrantsExactly(x.s, a);
  }

  // ---- what ends an application ----------------------------------------------------------

  /** Actors who are neither superusers nor reviewers change nothing. */
  lemma OnlyReviewersOperate(x: System, a: nat, op: Chain.Operation)
    requires !op.actor.isSuperuser && !op.actor.mayReview
    ensures SystemNext(x, Operate(a, op)) == x
  {
  }

  /** In every run, the status in the table of applications is that of the review record. */
  lemma {:induction false} StatusAgrees(day: int, steps: seq<SystemStep>)
    ensures
      var x := SystemRun(day, steps);
      && |x.reviews| == |x.s.applications|
      && forall a | 0 <= a < |x.reviews| :: x.s.applications[a].status == Record(x.reviews[a]).status
  {
    RunInStep(day, steps);
    if steps != [] {
      var x, step := SystemRun(day, Front(steps)), Last(steps);
      StatusAgrees(day, Front(steps));
      RunInStep(day, Front(steps));
      var x' := SystemNext(x, step);
      forall a | 0 <= a < |x'.reviews| ensures x'.s.applications[a].status == Record(x'.reviews[a]).status {
        StatusKept(x, step, a);
      }
    }
  }

  lemma StatusKept(x: System, step: SystemStep, a: nat)
    requires InStep(x) && InStep(SystemNext(x, step)) && a < |SystemNext(x, step).reviews|
    requires forall b | 0 <= b < |x.reviews| :: x.s.applications[b].status == Record(x.reviews[b]).status
    ensures SystemNext(x, step).s.applications[a].status == Record(SystemNext(x, step).reviews[a]).status
  {
    if a >= |x.reviews| {
      SubmittedWaits(x, step, a);
      NewApplicationWaits(x, step, a);
    } else if Operates(x, step, a) {
      OwnStatus(x, step.op, a);
    } else {
      OtherStep(x, step, a);
      OtherStatus(x, step, a);
    }
  }

  lemma NewApplicationWaits(x: System, step: SystemStep, a: nat)
    requires a >= |x.s.applications| && a < |SystemNext(x, step).s.applications|
    ensures SystemNext(x, step).s.applications[a].status == WAITING
  {
  }

  lemma OtherStatus(x: System, step: SystemStep, a: nat)
    requires a < |x.s.applications| && a < |x.reviews| && !Operates(x, step, a)
    ensures a < |SystemNext(x, step).s.applications|
    ensures SystemNext(x, step).s.applications[a].status == x.s.applications[a].status
  {
  }

  lemma OwnStatus(x: System, op: Chain.Operation, a: nat)
    requires a < |x.s.applications| && a < |x.reviews| && GoesThrough(x.reviews[a], op)
    requires x.s.applications[a].status == Record(x.reviews[a]).status
    ensures
      var x' := SystemNext(x, Operate(a, op));
      && a < |x'.s.applications| && a < |x'.reviews|
      && x'.s.applications[a].status == Record(x'.reviews[a]).status
  {
  }

  /** After an application is rejected or withdrawn, nothing happens to it any more: its review
      stands, and it is not granted, whatever is done. */
  lemma {:induction false} EndedStays(day: int, steps: seq<SystemStep>, later: seq<SystemStep>, a: nat)
    requires a < |SystemRun(day, steps).reviews|
    requires Record(SystemRun(day, steps).reviews[a]).status in {REJECTED, ABORTED}
    ensures
      var all := steps + later;
      && a < |SystemRun(day, all).reviews| && SystemRun(day, all).reviews[a] == SystemRun(day, steps).reviews[a]
      && Grantings(TableSteps(day, all), a) == Grantings(TableSteps(day, steps), a)
      && RowsGiven(day, all, a) == RowsGiven(day, steps, a)
  {
    if later == [] {
      assert steps + later == steps;
    } else {
      var all, pre := steps + later, steps + Front(later);
      assert Front(all) == pre && Last(all) == Last(later);
      EndedStays(day, steps, Front(later), a);
      RunInStep(day, pre);
      NothingGoesThrough(SystemRun(day, pre), Last(later), a);
      OtherStep(SystemRun(day, pre), Last(later), a);
      OneMoreStep(day, all, a);
    }
  }

  lemma NothingGoesThrough(x: System, step: SystemStep, a: nat)
    requires a < |x.reviews| && Record(x.reviews[a]).status in {REJECTED, ABORTED}
    ensures !Operates(x, step, a)
  {
  }

  /** So an application that is rejected by who speaks for its group, or withdrawn by its applicant,
      while it waits is never granted in any run: no pass reaches the tables and no row is inserted
      for it, before or after. */
  lemma EndedNeverGranted(day: int, pre: seq<SystemStep>, a: nat, op: Chain.Operation, later: seq<SystemStep>)
    requires a < |SystemRun(day, pre).reviews| && a < |SystemRun(day, pre).s.applications|
    requires HasKnownType(SystemRun(day, pre).s.applications[a])
    requires Record(SystemRun(day, pre).reviews[a]).status == WAITING && (op.actor.isSuperuser || op.actor.mayReview)
    requires
      var record := Record(SystemRun(day, pre).reviews[a]);
      || (op.action == Chain.Reject && Chain.SpeaksFor(record, op))
      || (op.action == Chain.Abort && op.actor.name == record.createUser)
    ensures
      var all := pre + [Operate(a, op)] + later;
      && a < |SystemRun(day, all).reviews|
      && Record(SystemRun(day, all).reviews[a]).status == (if op.action == Chain.Reject then REJECTED else ABORTED)
      && Grantings(TableSteps(day, all), a) == 0 && RowsGiven(day, all, a) == 0
  {
    var steps := pre + [Operate(a, op)];
    var x := SystemRun(day, pre);
    assert Front(steps) == pre;
    RunInStep(day, pre);
    RunBalanced(day, pre, a);
    assert RowsGiven(day, pre, a) == |NamesOf(x.s.applications[a])| * 0 == 0;
    OwnStep(x, Operate(a, op), a);
    EndedRecord(x.reviews[a], op);
    OneMoreStep(day, steps, a);
    EndedStays(day, steps, later, a);
  }

  lemma EndedRecord(r: Review, op: Chain.Operation)
    requires Record(r).status == WAITING
    requires
      || (op.action == Chain.Reject && Chain.SpeaksFor(Record(r), op))
      || (op.action == Chain.Abort && op.actor.name == Record(r).createUser)
    ensures Record(Reviewed(r, op)).status == if op.action == Chain.Reject then REJECTED else ABORTED
  {
    var start := Chain.NewAudit(r.setting, r.user);
    Chain.EndedNeverPasses(start, r.operations, op, []);
    assert r.operations + [op] + [] == r.operations + [op];
  }
}
