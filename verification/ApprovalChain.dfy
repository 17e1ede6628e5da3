/** The review of an application by a chain of groups: each pass hands it to the next group, the
    last one passes it; a reject or an abort ends it. */
module ApprovalChain {
  import opened Text
  import opened Wrappers
  import Tables = PrivilegeStore

  /** The review record.  `-1` stands for no group. */
  datatype Audit = Audit(authGroups: string, current: string, next: string, status: Tables.Status, createUser: string)

  const NO_GROUP := "-1"

  datatype Action = Submit | Pass | Reject | Abort | SetExecutionTime | StartExecution | EndExecution

  datatype Actor = Actor(name: string, isSuperuser: bool, mayReview: bool, groups: set<string>)

  /** Whether reviewing one's own application is banned, and the groups that exist and have a
      member in the application's resource group. */
  datatype Context = Context(banSelfAudit: bool, staffed: set<string>)

  datatype Operation = Operation(action: Action, actor: Actor, ctx: Context)

  // ---- the record as a function ----------------------------------------------------------

  /** The groups of the review setting, which separates them by commas. */
  function GroupsOf(setting: string): (groups: seq<string>)
    ensures groups != []
  {
    Split(setting, ',')
  }

  function GroupAt(groups: seq<string>, k: nat): string {
    if k < |groups| then groups[k] else NO_GROUP
  }

  function NewAudit(setting: string, user: string): Audit {
    var groups := GroupsOf(setting);
    Audit(Join(groups, ","), groups[0], GroupAt(groups, 1), Tables.WAITING, user)
  }

  /** `list.index` */
  function IndexOf(groups: seq<string>, group: string): (k: Option<nat>)
    ensures k.Some? ==> k.value < |groups| && groups[k.value] == group && group !in groups[..k.value]
    ensures k.None? ==> group !in groups
  {
    if groups == [] then None
    else if groups[0] == group then Some(0)
    else
      match IndexOf(groups[1..], group)
      case Some(k) => assert groups[..k + 1] == [groups[0]] + groups[1..][..k]; Some(k + 1)
      case None => None
  }

  /** `SUPPORTED_OPERATION_GRID` */
  function AllowedActions(status: Tables.Status): set<Action> {
    match status
    case WAITING => {Pass, Reject, Abort}
    case PASSED => {Reject, Abort, SetExecutionTime, StartExecution, EndExecution}
    case REJECTED | ABORTED => {}
  }

  predicate IsExecution(action: Action) {
    action == SetExecutionTime || action == StartExecution || action == EndExecution
  }

  /** `can_operate`: nobody in particular is asked for the execution actions. */
  predicate CanOperate(a: Audit, op: Operation) {
    && op.action in AllowedActions(a.status)
    && match op.action
       case Abort => op.actor.name == a.createUser
       case Pass | Reject =>
         || op.actor.isSuperuser
         || (!(op.actor.name == a.createUser && op.ctx.banSelfAudit) && op.actor.mayReview
             && ((op.action == Reject && a.current == NO_GROUP)
                 || (a.current in op.ctx.staffed && a.current in op.actor.groups)))
       case _ => true
  }

  /** The pass of one group; no result stands for the exception of a group out of the chain. */
  function PassOn(a: Audit): Option<Audit> {
    if a.next == NO_GROUP then Some(a.(current := NO_GROUP, status := Tables.PASSED))
    else
      var groups := Split(a.authGroups, ',');
      match IndexOf(groups, a.next)
      case None => None
      case Some(k) => Some(a.(status := Tables.WAITING, current := a.next, next := GroupAt(groups, k + 1)))
  }

  function Operate(a: Audit, op: Operation): Audit {
    if !CanOperate(a, op) then a
    else match op.action
      case Pass => (match PassOn(a) case Some(a') => a' case None => a)
      case Reject => a.(current := NO_GROUP, next := NO_GROUP, status := Tables.REJECTED)
      case Abort => a.(next := NO_GROUP, status := Tables.ABORTED)
      case _ => a
  }

  function Run(a: Audit, ops: seq<Operation>): Audit {
    if ops == [] then a else Operate(Run(a, Front(ops)), Last(ops))
  }

  /** The passes that took effect, in order. */
  function Approvals(a: Audit, ops: seq<Operation>): seq<Operation> {
    if ops == [] then []
    else
      var before, op := Run(a, Front(ops)), Last(ops);
      Approvals(a, Front(ops))
        + if TakesEffect(before, op) then [op] else []
  }

  predicate TakesEffect(a: Audit, op: Operation) {
    op.action == Pass && CanOperate(a, op) && PassOn(a).Some?
  }

  // ---- the record and its methods --------------------------------------------------------

  class AuditV2 {
    var authGroups: string
    var currentAudit: string
    var nextAudit: string
    var status: Tables.Status
    var createUser: string

    ghost function Value(): Audit
      reads this
    {
      Audit(authGroups, currentAudit, nextAudit, status, createUser)
    }

    /** `create_audit` for an application, which is never passed or rejected automatically. */
    constructor CreateAudit(setting: string, user: string)
      ensures Value() == NewAudit(setting, user)
    {
      var groups := GroupsOf(setting);
      authGroups := Join(groups, ",");
      currentAudit := groups[0];
      nextAudit := if |groups| == 1 then NO_GROUP else groups[1];
      status := Tables.WAITING;
      createUser := user;
    }

    method OperatePass()
      modifies `currentAudit, `nextAudit, `status
      ensures Value() == match PassOn(old(Value())) case Some(a) => a case None => old(Value())
    {
      if nextAudit == NO_GROUP {
        currentAudit := NO_GROUP;
        status := Tables.PASSED;
      } else {
        var groups := Split(authGroups, ',');
        var position := IndexOf(groups, nextAudit);
        if position.None? {
          return;
        }
        status := Tables.WAITING;
        currentAudit := nextAudit;
        if position.value + 1 >= |groups| {
          nextAudit := NO_GROUP;
        } else {
          nextAudit := groups[position.value + 1];
        }
      }
    }

    method OperateOn(op: Operation)
      modifies `currentAudit, `nextAudit, `status
      ensures Value() == Operate(old(Value()), op)
    {
      var allowed := CanOperate(Audit(authGroups, currentAudit, nextAudit, status, createUser), op);
      if !allowed {
        return;
      }
      match op.action {
        case Pass =>
          OperatePass();
        case Reject =>
          currentAudit := NO_GROUP;
          nextAudit := NO_GROUP;
          status := Tables.REJECTED;
        case Abort =>
          nextAudit := NO_GROUP;
          status := Tables.ABORTED;
        case _ =>
      }
    }
  }

  // ---- a chain of distinct groups --------------------------------------------------------

  lemma {:induction false} IndexOfFirst(groups: seq<string>, k: nat)
    requires k < |groups| && forall i | 0 <= i < k :: groups[i] != groups[k]
    ensures IndexOf(groups, groups[k]) == Some(k)
  {
    if k > 0 {
      IndexOfFirst(groups[1..], k - 1);
    }
  }

  lemma StoredGroups(setting: string, user: string)
    ensures Split(NewAudit(setting, user).authGroups, ',') == GroupsOf(setting)
  {
    PiecesComeFrom(setting, ',');
    SplitJoin(GroupsOf(setting), ',');
  }

  lemma {:induction false} RunKeepsChain(a: Audit, ops: seq<Operation>)
    ensures Run(a, ops).authGroups == a.authGroups && Run(a, ops).createUser == a.createUser
  {
    if ops != [] {
      RunKeepsChain(a, Front(ops));
    }
  }

  /** The record after `k` passes of a chain. */
  predicate IsAfter(a: Audit, groups: seq<string>, k: nat) {
    && (a.status == Tables.WAITING ==> k < |groups| && a.current == groups[k] && a.next == GroupAt(groups, k + 1))
    && (a.status == Tables.PASSED ==> k == |groups| && a.current == NO_GROUP)
  }

  /** Who passes it for a group is a superuser, or a reviewer in the group, which is staffed, and
      then not the applicant unless self-review is allowed. */
  predicate MayPassFor(op: Operation, applicant: string, group: string) {
    || op.actor.isSuperuser
    || (op.actor.mayReview && group in op.actor.groups && group in op.ctx.staffed
        && !(op.actor.name == applicant && op.ctx.banSelfAudit))
  }

  /** A pass hands the application to the next group of the chain, or passes it after the last. */
  lemma PassOnMoves(a: Audit, groups: seq<string>, k: nat)
    requires AreDistinct(groups) && NO_GROUP !in groups && Split(a.authGroups, ',') == groups
    requires IsAfter(a, groups, k) && a.status == Tables.WAITING
    ensures PassOn(a).Some? && IsAfter(PassOn(a).value, groups, k + 1)
    ensures PassOn(a).value.status == if k + 1 < |groups| then Tables.WAITING else Tables.PASSED
  {
    if k + 1 < |groups| {
      var next := groups[k + 1];
      assert next in groups && a.next == next;
      IndexOfFirst(groups, k + 1);
      assert PassOn(a) == Some(a.(status := Tables.WAITING, current := next, next := GroupAt(groups, k + 2)));
    } else {
      assert PassOn(a) == Some(a.(current := NO_GROUP, status := Tables.PASSED));
    }
  }

  /** One operation: a pass that takes effect comes from the group at hand and moves one on. */
  lemma ChainStep(a: Audit, op: Operation, groups: seq<string>, k: nat)
    requires AreDistinct(groups) && NO_GROUP !in groups && Split(a.authGroups, ',') == groups
    requires IsAfter(a, groups, k)
    ensures IsAfter(Operate(a, op), groups, if TakesEffect(a, op) then k + 1 else k)
    ensures TakesEffect(a, op) ==> k < |groups| && MayPassFor(op, a.createUser, groups[k])
  {
    if a.status == Tables.WAITING {
      assert groups[k] in groups;
      PassOnMoves(a, groups, k);
    }
  }

  /** The passes came from the first groups of the chain, each by someone entitled to. */
  predicate AreEntitled(approvals: seq<Operation>, user: string, groups: seq<string>) {
    |approvals| <= |groups| && forall k | 0 <= k < |approvals| :: MayPassFor(approvals[k], user, groups[k])
  }

  lemma ChainGrows(a: Audit, op: Operation, groups: seq<string>, approvals: seq<Operation>)
    requires AreDistinct(groups) && NO_GROUP !in groups && Split(a.authGroups, ',') == groups
    requires IsAfter(a, groups, |approvals|) && AreEntitled(approvals, a.createUser, groups)
    ensures
      var approvals' := approvals + if TakesEffect(a, op) then [op] else [];
      IsAfter(Operate(a, op), groups, |approvals'|) && AreEntitled(approvals', a.createUser, groups)
  {
    ChainStep(a, op, groups, |approvals|);
  }

  /** In every run, the passes that took effect came from the groups of the chain one after the
      other, each by someone entitled to speak for it, and the application is passed only when the
      whole chain has. */
  lemma {:induction false} PassedOnlyByWholeChain(setting: string, user: string, ops: seq<Operation>)
    requires AreDistinct(GroupsOf(setting)) && NO_GROUP !in GroupsOf(setting)
    ensures
      var groups, start := GroupsOf(setting), NewAudit(setting, user);
      var approvals := Approvals(start, ops);
      IsAfter(Run(start, ops), groups, |approvals|) && AreEntitled(approvals, user, groups)
  {
    if ops != [] {
      var groups, start := GroupsOf(setting), NewAudit(setting, user);
      PassedOnlyByWholeChain(setting, user, Front(ops));
      RunKeepsChain(start, Front(ops));
      StoredGroups(setting, user);
      ChainGrows(Run(start, Front(ops)), Last(ops), groups, Approvals(start, Front(ops)));
    }
  }

  /** Separation of duties: in every run of any chain, no pass by the applicant takes effect while
      self-review is banned, but for a superuser's. */
  lemma {:induction false} SelfReviewBanned(setting: string, user: string, ops: seq<Operation>)
    ensures forall op | op in Approvals(NewAudit(setting, user), ops) ::
      op.ctx.banSelfAudit && op.actor.name == user ==> op.actor.isSuperuser
  {
    if ops != [] {
      SelfReviewBanned(setting, user, Front(ops));
      RunKeepsChain(NewAudit(setting, user), Front(ops));
    }
  }

  // ---- the end of a review ---------------------------------------------------------------

  /** By what the record and the actor say: a superuser or a reviewer in the current group, which
      has a member in the resource group, and not the applicant under the self-review ban. */
  predicate SpeaksFor(a: Audit, op: Operation) {
    || op.actor.isSuperuser
    || (op.actor.mayReview && a.current in op.actor.groups && a.current in op.ctx.staffed
        && (op.actor.name != a.createUser || !op.ctx.banSelfAudit))
  }

  /** A record that waits for a group: whoever speaks for the group can pass or reject it, the
      applicant can withdraw it, and nothing else changes it. */
  lemma WaitingExactly(a: Audit, op: Operation)
    requires a.status == Tables.WAITING && a.current != "-1"
    ensures
      var after, rejected, aborted := Operate(a, op), Audit(a.authGroups, "-1", "-1", Tables.REJECTED, a.createUser),
                                      Audit(a.authGroups, a.current, "-1", Tables.ABORTED, a.createUser);
      match op.action
      case Reject => after == if SpeaksFor(a, op) then rejected else a
      case Abort => after == if op.actor.name == a.createUser then aborted else a
      case Pass => SpeaksFor(a, op) || after == a
      case _ => after == a && !CanOperate(a, op)
    ensures op.action == Pass && SpeaksFor(a, op) && a.next == "-1" ==>
      Operate(a, op) == Audit(a.authGroups, "-1", "-1", Tables.PASSED, a.createUser)
    ensures op.action == Pass && SpeaksFor(a, op) && a.next != "-1" && a.next in Split(a.authGroups, ',') ==>
      Operate(a, op).current == a.next && Operate(a, op).status == Tables.WAITING
  {
  }

  /** A passed record: any reviewer can still reject it, the applicant can withdraw it, anybody may
      execute it, and nobody can pass it again. */
  lemma PassedExactly(a: Audit, op: Operation)
    requires a.status == Tables.PASSED && a.current == "-1"
    ensures
      var after, rejected, aborted := Operate(a, op), Audit(a.authGroups, "-1", "-1", Tables.REJECTED, a.createUser),
                                      Audit(a.authGroups, "-1", "-1", Tables.ABORTED, a.createUser);
      match op.action
      case Reject =>
        var mayReject := op.actor.mayReview && (op.actor.name != a.createUser || !op.ctx.banSelfAudit);
        after == if op.actor.isSuperuser || mayReject then rejected else a
      case Abort => after == if op.actor.name == a.createUser then aborted else a
      case Submit | Pass => after == a && !CanOperate(a, op)
      case _ => after == a && CanOperate(a, op)
  {
  }

  /** Rejecting and aborting are final: no operation of any run takes effect afterwards. */
  lemma {:induction false} EndIsFinal(a: Audit, ops: seq<Operation>)
    requires a.status == Tables.REJECTED || a.status == Tables.ABORTED
    ensures Run(a, ops) == a && forall op :: !CanOperate(Run(a, ops), op)
  {
    if ops != [] {
      EndIsFinal(a, Front(ops));
    }
  }

  /** So a record that an entitled reviewer rejects, or its applicant withdraws, while it waits is
      never passed, whatever is done before and after. */
  lemma EndedNeverPasses(a: Audit, before: seq<Operation>, op: Operation, after: seq<Operation>)
    requires Run(a, before).status == Tables.WAITING
    requires
      || (op.action == Reject && SpeaksFor(Run(a, before), op))
      || (op.action == Abort && op.actor.name == Run(a, before).createUser)
    ensures
      var end := Run(a, before + [op] + after);
      end.status == if op.action == Reject then Tables.REJECTED else Tables.ABORTED
  {
    assert Front(before + [op]) == before;
    RunConcat(a, before + [op], after);
    EndIsFinal(Run(a, before + [op]), after);
  }

  lemma {:induction false} RunConcat(a: Audit, x: seq<Operation>, y: seq<Operation>)
    ensures Run(a, x + y) == Run(Run(a, x), y)
  {
    if y == [] {
      assert x + y == x;
    } else {
      assert Front(x + y) == x + Front(y);
      RunConcat(a, x, Front(y));
    }
  }

  // ---- chains that can be passed ---------------------------------------------------------

  const SUPER_PASS := Operation(Pass, Actor("root", true, true, {}), Context(false, {}))

  /** A repeated pass by a superuser. */
  function SuperPasses(n: nat): (ops: seq<Operation>)
    ensures |ops| == n
  {
    if n == 0 then []
    else SuperPasses(n - 1) + [SUPER_PASS]
  }

  lemma SuperPassMovesOn(a: Audit, op: Operation, groups: seq<string>, k: nat)
    requires AreDistinct(groups) && NO_GROUP !in groups && Split(a.authGroups, ',') == groups
    requires IsAfter(a, groups, k) && a.status == Tables.WAITING && op.action == Pass && op.actor.isSuperuser
    ensures IsAfter(Operate(a, op), groups, k + 1)
    ensures Operate(a, op).status == if k + 1 < |groups| then Tables.WAITING else Tables.PASSED
  {
    PassOnMoves(a, groups, k);
  }

  lemma {:induction false} SuperPassesAdvance(setting: string, user: string, n: nat)
    requires AreDistinct(GroupsOf(setting)) && NO_GROUP !in GroupsOf(setting) && n <= |GroupsOf(setting)|
    ensures
      var a := Run(NewAudit(setting, user), SuperPasses(n));
      IsAfter(a, GroupsOf(setting), n) && a.status == if n < |GroupsOf(setting)| then Tables.WAITING else Tables.PASSED
  {
    if n > 0 {
      var start, ops := NewAudit(setting, user), SuperPasses(n);
      SuperPassesAdvance(setting, user, n - 1);
      assert Front(ops) == SuperPasses(n - 1) && Last(ops) == SUPER_PASS;
      RunKeepsChain(start, Front(ops));
      StoredGroups(setting, user);
      SuperPassMovesOn(Run(start, Front(ops)), SUPER_PASS, GroupsOf(setting), n - 1);
      assert Run(start, ops) == Operate(Run(start, Front(ops)), SUPER_PASS);
    }
  }

  // ---- a chain with a repeated group -----------------------------------------------------

  /** The first group that the chain has named before. */
  lemma {:induction false} FirstRepeat(groups: seq<string>) returns (i: nat, j: nat)
    requires !AreDistinct(groups)
    ensures i < j < |groups| && groups[i] == groups[j] && AreDistinct(groups[..j])
  {
    var most := Front(groups);
    if AreDistinct(most) {
      j := |groups| - 1;
      var x, y :| 0 <= x < y < |groups| && groups[x] == groups[y];
      assert forall u, v | 0 <= u < v < j :: groups[u] == most[u] != most[v] == groups[v];
      i := x;
    } else {
      i, j := FirstRepeat(most);
      assert groups[..j] == most[..j];
    }
  }

  /** Between groups before the repeated one, at positions that have a next group. */
  ghost predicate IsCircling(a: Audit, groups: seq<string>, j: nat) {
    a.status != Tables.PASSED
    && (a.status == Tables.WAITING ==>
          exists p | 0 <= p < j < |groups| :: a.current == groups[p] && a.next == groups[p + 1])
  }

  /** The pass looks up the first place of the group it hands over to, so it never gets past the
      repeated group. */
  lemma PassCircles(a: Audit, op: Operation, groups: seq<string>, i: nat, j: nat)
    requires i < j < |groups| && groups[i] == groups[j] && AreDistinct(groups[..j]) && NO_GROUP !in groups
    requires Split(a.authGroups, ',') == groups && IsCircling(a, groups, j)
    ensures IsCircling(Operate(a, op), groups, j)
  {
    if CanOperate(a, op) && op.action == Pass {
      var p :| 0 <= p < j < |groups| && a.current == groups[p] && a.next == groups[p + 1];
      var q := if p + 1 == j then i else p + 1;
      assert groups[q] == a.next && a.next in groups;
      forall u | 0 <= u < q ensures groups[u] != groups[q] {
        assert groups[..j][u] != groups[..j][q];
      }
      IndexOfFirst(groups, q);
      assert Operate(a, op).current == groups[q] && Operate(a, op).next == groups[q + 1];
    }
  }

  lemma {:induction false} RepeatedChainNeverPasses(setting: string, user: string, ops: seq<Operation>, i: nat, j: nat)
    requires NO_GROUP !in GroupsOf(setting)
    requires
      var groups := GroupsOf(setting);
      i < j < |groups| && groups[i] == groups[j] && AreDistinct(groups[..j])
    ensures IsCircling(Run(NewAudit(setting, user), ops), GroupsOf(setting), j)
  {
    var groups, start := GroupsOf(setting), NewAudit(setting, user);
    if ops == [] {
      assert start.current == groups[0] && start.next == groups[0 + 1];
    } else {
      RepeatedChainNeverPasses(setting, user, Front(ops), i, j);
      RunKeepsChain(start, Front(ops));
      StoredGroups(setting, user);
      PassCircles(Run(start, Front(ops)), Last(ops), groups, i, j);
    }
  }

  lemma PassedChainIsDistinct(setting: string, user: string, ops: seq<Operation>)
    requires NO_GROUP !in GroupsOf(setting)
    ensures Run(NewAudit(setting, user), ops).status == Tables.PASSED ==> AreDistinct(GroupsOf(setting))
  {
    if !AreDistinct(GroupsOf(setting)) {
      var i, j := FirstRepeat(GroupsOf(setting));
      RepeatedChainNeverPasses(setting, user, ops, i, j);
    }
  }

  /** An application can be passed at all exactly when its chain names no group twice. */
  lemma PassableExactly(setting: string, user: string)
    requires NO_GROUP !in GroupsOf(setting)
    ensures (exists ops :: Run(NewAudit(setting, user), ops).status == Tables.PASSED)
       <==> AreDistinct(GroupsOf(setting))
  {
    if AreDistinct(GroupsOf(setting)) {
      SuperPassesAdvance(setting, user, |GroupsOf(setting)|);
    } else {
      forall ops ensures Run(NewAudit(setting, user), ops).status != Tables.PASSED {
        PassedChainIsDistinct(setting, user, ops);
      }
    }
  }
}
