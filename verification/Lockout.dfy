/** Login attempts against one existing account: the failure counter, the lock that it sets
    and the time after which the lock falls off. */
module Lockout {
  import opened Wrappers

  /** The two fields of the user record the lock depends on. */
  datatype Account = Account(failedLoginCount: int, lastLoginFailedAt: Option<int>)

  datatype Limits = Limits(lockCount: int, lockTime: int)

  /** One attempt: the clock when the lock is looked at, the clock when the attempt ends, and
      whether the password is right. */
  datatype Attempt = Attempt(at: int, doneAt: int, passwordOk: bool)

  datatype Outcome = Success | BadPassword | Locked

  /** What `Users.save` makes of the counter. */
  function Clamp(count: int): int {
    if count > 127 then 127 else if count < 0 then 0 else count
  }

  predicate IsLockedAt(a: Account, l: Limits, now: int) {
    a.failedLoginCount != 0 && a.lastLoginFailedAt.Some? && a.failedLoginCount >= l.lockCount
    && a.lastLoginFailedAt.value + l.lockTime > now
  }

  /** The counter the password check starts from: 0 once the lock has run out. */
  function CountBefore(a: Account, l: Limits): int {
    if a.failedLoginCount != 0 && a.lastLoginFailedAt.Some? && a.failedLoginCount >= l.lockCount then 0
    else a.failedLoginCount
  }

  function Authenticate(a: Account, l: Limits, e: Attempt): (Account, Outcome) {
    if IsLockedAt(a, l, e.at) then (a, Locked)
    else if e.passwordOk then (a.(failedLoginCount := 0), Success)
    else (Account(Clamp(CountBefore(a, l) + 1), Some(e.doneAt)), BadPassword)
  }

  function Run(a: Account, l: Limits, events: seq<Attempt>): Account
    decreases |events|
  {
    if events == [] then a else Run(Authenticate(a, l, events[0]).0, l, events[1..])
  }

  /** The password checks that failed at a time in the half-open window. */
  function FailuresIn(a: Account, l: Limits, events: seq<Attempt>, from: int, end: int): nat
    decreases |events|
  {
    if events == [] then 0
    else
      var (a', outcome) := Authenticate(a, l, events[0]);
      (if outcome == BadPassword && from <= events[0].doneAt < end then 1 else 0)
        + FailuresIn(a', l, events[1..], from, end)
  }

  predicate NoSuccessIn(a: Account, l: Limits, events: seq<Attempt>, from: int, end: int)
    decreases |events|
  {
    events != [] ==>
      var (a', outcome) := Authenticate(a, l, events[0]);
      (outcome == Success ==> !(from <= events[0].doneAt < end)) && NoSuccessIn(a', l, events[1..], from, end)
  }

  /** The clock never goes back, from one reading to the next. */
  predicate ClockRuns(clock: int, events: seq<Attempt>)
    decreases |events|
  {
    events != [] ==>
      clock <= events[0].at <= events[0].doneAt && ClockRuns(events[0].doneAt, events[1..])
  }

  // ---- the record and its methods --------------------------------------------------------

  class User {
    var failedLoginCount: int
    var lastLoginFailedAt: Option<int>

    ghost function Value(): Account
      reads this
    {
      Account(failedLoginCount, lastLoginFailedAt)
    }

    constructor ()
      ensures Value() == Account(0, None)
    {
      failedLoginCount, lastLoginFailedAt := 0, None;
    }

    /** `Users.save`, as far as the counter goes. */
    method Save()
      modifies `failedLoginCount
      ensures failedLoginCount == Clamp(old(failedLoginCount))
    {
      failedLoginCount := if failedLoginCount < 127 then failedLoginCount else 127;
      failedLoginCount := if failedLoginCount > 0 then failedLoginCount else 0;
    }

    /** `ArcheryAuth.challenge`: a right password clears the counter. */
    method Challenge(passwordOk: bool) returns (ok: bool)
      modifies `failedLoginCount
      ensures ok == passwordOk
      ensures failedLoginCount == if passwordOk then 0 else old(failedLoginCount)
    {
      if passwordOk {
        failedLoginCount := 0;
        Save();
      }
      return passwordOk;
    }

    /** `ArcheryAuth.authenticate` for a user that exists. */
    method TryLogin(l: Limits, e: Attempt) returns (outcome: Outcome)
      modifies this
      ensures (Value(), outcome) == Authenticate(old(Value()), l, e)
    {
      if failedLoginCount != 0 && lastLoginFailedAt.Some? {
        if failedLoginCount >= l.lockCount {
          if lastLoginFailedAt.value + l.lockTime > e.at {
            return Locked;
          } else {
            failedLoginCount := 0;
            Save();
          }
        }
      }
      var ok := Challenge(e.passwordOk);
      if ok {
        return Success;
      }
      failedLoginCount := failedLoginCount + 1;
      lastLoginFailedAt := Some(e.doneAt);
      Save();
      return BadPassword;
    }
  }

  // ---- the invariant ---------------------------------------------------------------------

  const FRESH := Account(0, None)

  /** How many failures set the lock. */
  function Threshold(l: Limits): int {
    if l.lockCount < 1 then 1 else l.lockCount
  }

  /** The counter never passes the threshold, and a failure left its time. */
  predicate IsSound(a: Account, l: Limits, clock: int) {
    && 0 <= a.failedLoginCount <= Threshold(l)
    && (a.failedLoginCount != 0 ==> a.lastLoginFailedAt.Some?)
    && (a.lastLoginFailedAt.Some? ==> a.lastLoginFailedAt.value <= clock)
  }

  lemma StepKeepsSound(a: Account, l: Limits, clock: int, e: Attempt)
    requires IsSound(a, l, clock) && clock <= e.at <= e.doneAt
    ensures IsSound(Authenticate(a, l, e).0, l, e.doneAt)
    ensures l.lockCount <= 127 && Authenticate(a, l, e).1 == BadPassword
        ==> Authenticate(a, l, e).0.failedLoginCount == CountBefore(a, l) + 1
  {
  }

  function EndClock(clock: int, events: seq<Attempt>): int
    decreases |events|
  {
    if events == [] then clock else EndClock(events[0].doneAt, events[1..])
  }

  /** In every run the counter stays within the threshold. */
  lemma {:induction false} RunKeepsSound(a: Account, l: Limits, clock: int, events: seq<Attempt>)
    requires IsSound(a, l, clock) && ClockRuns(clock, events)
    ensures IsSound(Run(a, l, events), l, EndClock(clock, events))
    decreases |events|
  {
    if events != [] {
      StepKeepsSound(a, l, clock, events[0]);
      RunKeepsSound(Authenticate(a, l, events[0]).0, l, events[0].doneAt, events[1..]);
    }
  }

  // ---- the rate bound --------------------------------------------------------------------

  /** Failures left before the lock, in a window that starts at `from`. */
  function FailuresLeft(a: Account, l: Limits, from: int): int {
    if a.lastLoginFailedAt.Some? && a.lastLoginFailedAt.value >= from then Threshold(l) - a.failedLoginCount
    else Threshold(l)
  }

  lemma {:induction false} NoFailuresAfter(a: Account, l: Limits, clock: int, events: seq<Attempt>, from: int, end: int)
    requires ClockRuns(clock, events) && end <= clock
    ensures FailuresIn(a, l, events, from, end) == 0
    decreases |events|
  {
    if events != [] {
      NoFailuresAfter(Authenticate(a, l, events[0]).0, l, events[0].doneAt, events[1..], from, end);
    }
  }

  /** No window up to the lock's length holds more failures than the lock allows, from any
      state that a run can reach. */
  lemma {:induction false} WindowBound(a: Account, l: Limits, clock: int, events: seq<Attempt>, from: int, end: int)
    requires l.lockCount <= 127 && IsSound(a, l, clock) && ClockRuns(clock, events)
    requires end <= from + l.lockTime && NoSuccessIn(a, l, events, from, end)
    ensures FailuresIn(a, l, events, from, end) <= FailuresLeft(a, l, from)
    decreases |events|
  {
    if events != [] {
      var e, rest := events[0], events[1..];
      var (a', outcome) := Authenticate(a, l, e);
      StepKeepsSound(a, l, clock, e);
      WindowBound(a', l, e.doneAt, rest, from, end);
      if e.doneAt >= end {
        NoFailuresAfter(a', l, e.doneAt, rest, from, end);
      }
    }
  }

  /** Of the failures in a window of some lengths of the lock, each length holds its share. */
  lemma {:induction false} FailuresSplit(a: Account, l: Limits, events: seq<Attempt>, from: int, middle: int, end: int)
    requires from <= middle <= end
    ensures FailuresIn(a, l, events, from, end)
         == FailuresIn(a, l, events, from, middle) + FailuresIn(a, l, events, middle, end)
    decreases |events|
  {
    if events != [] {
      FailuresSplit(Authenticate(a, l, events[0]).0, l, events[1..], from, middle, end);
    }
  }

  lemma {:induction false} NoSuccessWithin(a: Account, l: Limits, events: seq<Attempt>, from: int, end: int,
                                           from': int, end': int)
    requires NoSuccessIn(a, l, events, from, end) && from <= from' && end' <= end
    ensures NoSuccessIn(a, l, events, from', end')
    decreases |events|
  {
    if events != [] {
      NoSuccessWithin(Authenticate(a, l, events[0]).0, l, events[1..], from, end, from', end');
    }
  }

  lemma {:induction false} EmptyWindow(a: Account, l: Limits, events: seq<Attempt>, from: int)
    ensures FailuresIn(a, l, events, from, from) == 0
    decreases |events|
  {
    if events != [] {
      EmptyWindow(Authenticate(a, l, events[0]).0, l, events[1..], from);
    }
  }

  /** The number of lock times in `d` seconds, rounded up. */
  function LockTimes(l: Limits, d: int): nat
    requires l.lockTime > 0
    decreases d
  {
    if d <= 0 then 0 else 1 + LockTimes(l, d - l.lockTime)
  }

  lemma {:induction false} LockTimesRoundUp(l: Limits, d: nat)
    requires l.lockTime > 0
    ensures var n := LockTimes(l, d); (n - 1) * l.lockTime < d <= n * l.lockTime || d == n == 0
    decreases d
  {
    if d > 0 {
      var n := LockTimes(l, d);
      assert (n - 1) * l.lockTime == n * l.lockTime - l.lockTime;
      if d > l.lockTime {
        LockTimesRoundUp(l, d - l.lockTime);
        assert (n - 2) * l.lockTime == n * l.lockTime - 2 * l.lockTime;
      } else {
        assert LockTimes(l, d - l.lockTime) == 0 && n == 1;
      }
    }
  }

  lemma TimesOneMore(t: nat, n: nat)
    ensures t * (1 + n) == t + t * n
  {
  }

  /** From a fresh account, `d` seconds without a success hold at most the threshold times the lock
      times in `d`, rounded up, failed password checks. */
  lemma {:induction false} RateBound(l: Limits, clock: int, events: seq<Attempt>, from: int, d: nat)
    requires l.lockCount <= 127 && l.lockTime > 0 && ClockRuns(clock, events)
    requires NoSuccessIn(FRESH, l, events, from, from + d)
    ensures FailuresIn(FRESH, l, events, from, from + d) <= Threshold(l) * LockTimes(l, d)
    decreases d
  {
    if d == 0 {
      EmptyWindow(FRESH, l, events, from);
    } else {
      TimesOneMore(Threshold(l), LockTimes(l, d - l.lockTime));
      if d <= l.lockTime {
        WindowBound(FRESH, l, clock, events, from, from + d);
      } else {
        var middle := from + l.lockTime;
        NoSuccessWithin(FRESH, l, events, from, from + d, from, middle);
        WindowBound(FRESH, l, clock, events, from, middle);
        NoSuccessWithin(FRESH, l, events, from, from + d, middle, from + d);
        RateBound(l, clock, events, middle, d - l.lockTime);
        FailuresSplit(FRESH, l, events, from, middle, from + d);
      }
    }
  }

  /** Wrong passwords until the lock is set, again and again as soon as it falls off; `left` of
      them remain at the time `at`. */
  function Bursts(l: Limits, at: int, left: nat, end: int): seq<Attempt>
    requires l.lockTime > 0
    decreases end - at, left
  {
    if at >= end then []
    else if left > 0 then [Attempt(at, at, false)] + Bursts(l, at, left - 1, end)
    else Bursts(l, at + l.lockTime, Threshold(l), end)
  }

  /** The account with `left` failures remaining until the lock is set. */
  predicate HasLeft(a: Account, l: Limits, at: int, left: nat) {
    if left == Threshold(l) then CountBefore(a, l) == 0 && !IsLockedAt(a, l, at)
    else left < Threshold(l) && a == Account(Threshold(l) - left, Some(at))
  }

  lemma BurstStep(a: Account, l: Limits, at: int, left: nat)
    requires l.lockCount <= 127 && l.lockTime > 0 && HasLeft(a, l, at, left) && left > 0
    ensures
      var (a', outcome) := Authenticate(a, l, Attempt(at, at, false));
      outcome == BadPassword && HasLeft(a', l, at, left - 1)
  {
  }

  lemma {:induction false} BurstsChecked(a: Account, l: Limits, at: int, left: nat, end: int, from: int)
    requires l.lockCount <= 127 && l.lockTime > 0 && HasLeft(a, l, at, left) && from <= at
    ensures
      var events := Bursts(l, at, left, end);
      && ClockRuns(at, events) && NoSuccessIn(a, l, events, from, end)
      && FailuresIn(a, l, events, from, end)
         == if at >= end then 0 else left + Threshold(l) * LockTimes(l, end - at - l.lockTime)
    decreases end - at, left
  {
    if at >= end {
    } else if left > 0 {
      var e := Attempt(at, at, false);
      var rest := Bursts(l, at, left - 1, end);
      BurstStep(a, l, at, left);
      BurstsChecked(Authenticate(a, l, e).0, l, at, left - 1, end, from);
      assert Bursts(l, at, left, end)[0] == e && Bursts(l, at, left, end)[1..] == rest;
    } else {
      var next := at + l.lockTime;
      BurstsChecked(a, l, next, Threshold(l), end, from);
      if next < end {
        TimesOneMore(Threshold(l), LockTimes(l, end - next - l.lockTime));
      }
    }
  }

  /** The bound is attained for every number of seconds. */
  lemma BoundAttained(l: Limits, d: nat)
    requires l.lockCount <= 127 && l.lockTime > 0
    ensures
      var events := Bursts(l, 0, Threshold(l), d);
      && ClockRuns(0, events) && NoSuccessIn(FRESH, l, events, 0, d)
      && FailuresIn(FRESH, l, events, 0, d) == Threshold(l) * LockTimes(l, d)
  {
    BurstsChecked(FRESH, l, 0, Threshold(l), d, 0);
    if d > 0 {
      TimesOneMore(Threshold(l), LockTimes(l, d - l.lockTime));
    }
  }

  lemma ProductGrows(x: int, y: int, z: int)
    requires x <= y && z >= 0
    ensures x * z <= y * z
  {
    assert y * z - x * z == (y - x) * z;
  }

  lemma LockTimesBound(l: Limits, d: nat)
    requires l.lockTime > 0
    ensures LockTimes(l, d) <= d / l.lockTime + 1
  {
    var n, q := LockTimes(l, d), d / l.lockTime;
    LockTimesRoundUp(l, d);
    assert d < (q + 1) * l.lockTime by {
      assert d == q * l.lockTime + d % l.lockTime;
      assert (q + 1) * l.lockTime == q * l.lockTime + l.lockTime;
    }
    if n - 1 >= q + 1 {
      ProductGrows(q + 1, n - 1, l.lockTime);
    }
  }

  /** So they hold at most the threshold times one more than the full lock times in `d`. */
  lemma RateBoundRounded(l: Limits, clock: int, events: seq<Attempt>, from: int, d: nat)
    requires l.lockCount <= 127 && l.lockTime > 0 && ClockRuns(clock, events)
    requires NoSuccessIn(FRESH, l, events, from, from + d)
    ensures FailuresIn(FRESH, l, events, from, from + d) <= Threshold(l) * (d / l.lockTime + 1)
  {
    RateBound(l, clock, events, from, d);
    LockTimesBound(l, d);
    ProductGrows(LockTimes(l, d), d / l.lockTime + 1, Threshold(l));
  }

  // ---- the lock falls off ----------------------------------------------------------------

  predicate AllLocked(a: Account, l: Limits, events: seq<Attempt>)
    decreases |events|
  {
    events != [] ==>
      var (a', outcome) := Authenticate(a, l, events[0]);
      outcome == Locked && AllLocked(a', l, events[1..])
  }

  /** However many attempts are made while the lock holds, with a right password or not, each is
      turned away and none changes the record; so the first right password at or after the last
      failure plus the lock time succeeds and clears the counter. */
  lemma {:induction false} LockExpiresByItself(a: Account, l: Limits, tries: seq<Attempt>, e: Attempt)
    requires a.lastLoginFailedAt.Some? && a.failedLoginCount != 0 && a.failedLoginCount >= l.lockCount
    requires forall i | 0 <= i < |tries| :: tries[i].at < a.lastLoginFailedAt.value + l.lockTime
    requires e.passwordOk && e.at >= a.lastLoginFailedAt.value + l.lockTime
    ensures AllLocked(a, l, tries) && Run(a, l, tries) == a
    ensures Authenticate(Run(a, l, tries), l, e) == (Account(0, a.lastLoginFailedAt), Success)
    decreases |tries|
  {
    if tries != [] {
      LockExpiresByItself(a, l, tries[1..], e);
    }
  }

  // ---- a success starts anew -------------------------------------------------------------

  /** A right password is turned away only while the lock holds: else it succeeds and clears the
      counter, whatever it was. */
  lemma RightPasswordClears(a: Account, l: Limits, e: Attempt)
    requires e.passwordOk
    requires
      || a.failedLoginCount == 0 || a.failedLoginCount < l.lockCount
      || a.lastLoginFailedAt.None? || a.lastLoginFailedAt.value + l.lockTime <= e.at
    ensures Authenticate(a, l, e) == (Account(0, a.lastLoginFailedAt), Success)
  {
  }

  /** A wrong password is counted unless the lock holds: as the first one once the lock has run out,
      else as one more, and its time is kept. */
  lemma WrongPasswordCounts(a: Account, l: Limits, clock: int, e: Attempt)
    requires IsSound(a, l, clock) && l.lockCount <= 127 && !e.passwordOk
    requires
      || a.failedLoginCount == 0 || a.failedLoginCount < l.lockCount
      || a.lastLoginFailedAt.value + l.lockTime <= e.at
    ensures
      var count := if 0 < a.failedLoginCount && l.lockCount <= a.failedLoginCount then 1 else a.failedLoginCount + 1;
      Authenticate(a, l, e) == (Account(count, Some(e.doneAt)), BadPassword)
  {
  }

  /** The password checks that failed. */
  function Failures(a: Account, l: Limits, events: seq<Attempt>): nat
    decreases |events|
  {
    if events == [] then 0
    else
      var (a', outcome) := Authenticate(a, l, events[0]);
      (if outcome == BadPassword then 1 else 0) + Failures(a', l, events[1..])
  }

  lemma {:induction false} CountIsFailures(a: Account, l: Limits, events: seq<Attempt>)
    requires a.failedLoginCount >= 0
    ensures 0 <= Run(a, l, events).failedLoginCount <= a.failedLoginCount + Failures(a, l, events)
    decreases |events|
  {
    if events != [] {
      CountIsFailures(Authenticate(a, l, events[0]).0, l, events[1..]);
    }
  }

  /** Between a success and the next attempt that the lock turns away there are at least as many
      failed password checks as set the lock, whatever came before the success. */
  lemma LockNeedsFailures(a: Account, l: Limits, success: Attempt, events: seq<Attempt>, e: Attempt)
    requires Authenticate(a, l, success).1 == Success
    requires Authenticate(Run(Authenticate(a, l, success).0, l, events), l, e).1 == Locked
    ensures Failures(Authenticate(a, l, success).0, l, events) >= Threshold(l)
  {
    CountIsFailures(Authenticate(a, l, success).0, l, events);
  }

  // ---- which limits bound the rate -------------------------------------------------------

  /** Some number of wrong passwords at one instant. */
  function Hammer(n: nat): (events: seq<Attempt>)
    ensures |events| == n
  {
    if n == 0 then [] else [Attempt(0, 0, false)] + Hammer(n - 1)
  }

  lemma {:induction false} HammerChecked(a: Account, l: Limits, n: nat)
    requires l.lockTime > 0 && 0 <= a.failedLoginCount <= 127 && l.lockCount > 127
    ensures ClockRuns(0, Hammer(n)) && NoSuccessIn(a, l, Hammer(n), 0, l.lockTime)
    ensures FailuresIn(a, l, Hammer(n), 0, l.lockTime) == n
    decreases n
  {
    if n > 0 {
      var e := Attempt(0, 0, false);
      assert Hammer(n)[1..] == Hammer(n - 1);
      assert Authenticate(a, l, e) == (Account(Clamp(a.failedLoginCount + 1), Some(0)), BadPassword);
      HammerChecked(Authenticate(a, l, e).0, l, n - 1);
    }
  }

  /** A run from a fresh account without a success in the window that starts at `from`. */
  predicate IsQuietRun(l: Limits, clock: int, events: seq<Attempt>, from: int) {
    ClockRuns(clock, events) && NoSuccessIn(FRESH, l, events, from, from + l.lockTime)
  }

  function WindowFailures(l: Limits, events: seq<Attempt>, from: int): nat {
    FailuresIn(FRESH, l, events, from, from + l.lockTime)
  }

  /** No such run has more failures than `bound` in that window. */
  ghost predicate IsBoundedBy(l: Limits, bound: int) {
    forall clock, events, from | IsQuietRun(l, clock, events, from) :: WindowFailures(l, events, from) <= bound
  }

  /** The counter is stored up to 127, so the lock bounds the rate exactly for lock counts up to
      127; above, it never takes hold. */
  lemma RateBoundedExactly(l: Limits)
    requires l.lockTime > 0
    ensures (exists bound :: IsBoundedBy(l, bound)) <==> l.lockCount <= 127
  {
    if l.lockCount <= 127 {
      forall clock, events, from | IsQuietRun(l, clock, events, from)
        ensures WindowFailures(l, events, from) <= Threshold(l)
      {
        WindowBound(FRESH, l, clock, events, from, from + l.lockTime);
      }
      assert IsBoundedBy(l, Threshold(l));
    } else {
      forall bound ensures !IsBoundedBy(l, bound) {
        var n := if bound < 0 then 0 else bound + 1;
        HammerChecked(FRESH, l, n);
        assert IsQuietRun(l, 0, Hammer(n), 0) && WindowFailures(l, Hammer(n), 0) > bound;
      }
    }
  }
}
