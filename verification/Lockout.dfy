/**
 Account lockout: authenticate_user and record_failed_login of app/modules/auth/service.py, in the order
 the login route composes them. Times are integer milliseconds. Password verification, the account's
 verification flag and its status are inputs of each attempt.
 */
module Lockout {
  import opened Options

  type Positive = n: int | n > 0 witness 1

  /** The configured threshold and lockout period. */
  datatype Policy = Policy(maxAttempts: Positive, lockoutMs: Positive)

  datatype Account = Account(loginAttempts: nat, lockedUntil: Option<int>, lastLogin: Option<int>)

  datatype Outcome = Success | AccountLocked | InvalidCredentials | NotVerified | Inactive

  /** `active`: the status is active, or deletion is pending within its grace period. */
  datatype Attempt = Attempt(now: int, passwordOk: bool, emailVerified: bool, active: bool)

  datatype Event = Login(attempt: Attempt) | AdminDelete(now: int)

  function Judge(a: Account, t: Attempt): Outcome {
    if a.lockedUntil.Some? && a.lockedUntil.value > t.now then AccountLocked
    else if !t.passwordOk then InvalidCredentials
    else if !t.emailVerified then NotVerified
    else if !t.active then Inactive
    else Success
  }

  /** The outcomes after which the route records a failed login. */
  predicate Recorded(o: Outcome) {
    o == InvalidCredentials || o == NotVerified
  }

  /** The account refuses every attempt until its lock has run out. */
  predicate LockedAt(a: Account, now: int) {
    a.lockedUntil.Some? && now < a.lockedUntil.value
  }

  /** What an attempt must bring to be let in, and what makes it count as a failure; neither looks at the account. */
  predicate RightCredentials(t: Attempt) {
    t.passwordOk && t.emailVerified && t.active
  }

  predicate WrongCredentials(t: Attempt) {
    !t.passwordOk || !t.emailVerified
  }

  function FailedOnce(p: Policy, a: Account, now: int): Account {
    var attempts := a.loginAttempts + 1;
    Account(attempts, if attempts >= p.maxAttempts then Some(now + p.lockoutMs) else a.lockedUntil, a.lastLogin)
  }

  function After(p: Policy, a: Account, e: Event): Account {
    match e
    case AdminDelete(_) => Account(0, None, None)
    case Login(t) =>
      var outcome := Judge(a, t);
      if outcome == Success then Account(0, None, Some(t.now))
      else if Recorded(outcome) then FailedOnce(p, a, t.now)
      else a
  }

  // ---- the service ---------------------------------------------------------------------------------

  class UserRow {
    const policy: Policy
    var loginAttempts: nat
    var lockedUntil: Option<int>
    var lastLogin: Option<int>

    constructor (policy: Policy)
      ensures this.policy == policy && State() == Account(0, None, None)
    {
      this.policy := policy;
      loginAttempts, lockedUntil, lastLogin := 0, None, None;
    }

    function State(): Account
      reads this
    {
      Account(loginAttempts, lockedUntil, lastLogin)
    }

    method AuthenticateUser(t: Attempt) returns (outcome: Outcome)
      modifies this
      ensures outcome == Judge(old(State()), t)
      ensures outcome == AccountLocked <==> LockedAt(old(State()), t.now)
      ensures outcome == Success <==> !LockedAt(old(State()), t.now) && RightCredentials(t)
      ensures outcome == InvalidCredentials <==> !LockedAt(old(State()), t.now) && !t.passwordOk
      ensures State() == if outcome == Success then Account(0, None, Some(t.now)) else old(State())
    {
      if lockedUntil.Some? {
        if lockedUntil.value > t.now {
          return AccountLocked;
        }
      }
      if !t.passwordOk {
        return InvalidCredentials;
      }
      if !t.emailVerified {
        return NotVerified;
      }
      if !t.active {
        return Inactive;
      }
      loginAttempts := 0;
      lockedUntil := None;
      lastLogin := Some(t.now);
      return Success;
    }

    method RecordFailedLogin(now: int)
      modifies this
      ensures State() == FailedOnce(policy, old(State()), now)
    {
      loginAttempts := loginAttempts + 1;
      if loginAttempts >= policy.maxAttempts {
        lockedUntil := Some(now + policy.lockoutMs);
      }
    }

    /** The login route: authenticate; a wrong password or an unverified email is recorded, a lock is not. */
    method LoginRoute(t: Attempt) returns (outcome: Outcome)
      modifies this
      ensures outcome == Judge(old(State()), t)
      ensures State() == After(policy, old(State()), Login(t))
      ensures outcome == Success <==> !LockedAt(old(State()), t.now) && RightCredentials(t)
      ensures !LockedAt(old(State()), t.now) && WrongCredentials(t) ==> loginAttempts == old(loginAttempts) + 1
      ensures LockedAt(old(State()), t.now) ==> State() == old(State())
    {
      outcome := AuthenticateUser(t);
      match outcome
      case InvalidCredentials => RecordFailedLogin(t.now);
      case NotVerified => RecordFailedLogin(t.now);
      case _ =>
    }
  }

  // ---- one attempt ---------------------------------------------------------------------------------

  /**
   What an attempt does to the account, told from the attempt and the lock alone. Right credentials on an
   unlocked account reset it; a wrong password, or a right one with an unverified email, adds one failure and
   locks from the threshold on; a locked account, and an inactive one given right credentials, stay as they are.
   */
  lemma AttemptEffect(p: Policy, a: Account, t: Attempt)
    ensures
      var a' := After(p, a, Login(t));
      && (!LockedAt(a, t.now) && RightCredentials(t) ==> a' == Account(0, None, Some(t.now)))
      && (!LockedAt(a, t.now) && WrongCredentials(t) ==>
            && a'.loginAttempts == a.loginAttempts + 1 && a'.lastLogin == a.lastLogin
            && (a.loginAttempts + 1 >= p.maxAttempts ==> a'.lockedUntil == Some(t.now + p.lockoutMs))
            && (a.loginAttempts + 1 < p.maxAttempts ==> a'.lockedUntil == a.lockedUntil))
      && (LockedAt(a, t.now) || (t.passwordOk && t.emailVerified && !t.active) ==> a' == a)
  {
  }

  /** An administrator's deletion unlocks at once and forgets all failures. */
  lemma DeletionUnlocks(p: Policy, a: Account, deleted: int, t: Attempt)
    ensures Judge(After(p, a, AdminDelete(deleted)), t) == Success <==> RightCredentials(t)
    ensures After(p, a, AdminDelete(deleted)).loginAttempts == 0
  {
  }

  /** The answer, likewise. */
  lemma AttemptAnswer(a: Account, t: Attempt)
    ensures Judge(a, t) == Success <==> !LockedAt(a, t.now) && RightCredentials(t)
    ensures Judge(a, t) == AccountLocked <==> LockedAt(a, t.now)
    ensures Judge(a, t) == InvalidCredentials <==> !LockedAt(a, t.now) && !t.passwordOk
    ensures Judge(a, t) == NotVerified <==> !LockedAt(a, t.now) && t.passwordOk && !t.emailVerified
    ensures Judge(a, t) == Inactive <==> !LockedAt(a, t.now) && t.passwordOk && t.emailVerified && !t.active
  {
  }

  // ---- whole histories -----------------------------------------------------------------------------

  function TimeOf(e: Event): int {
    match e
    case Login(t) => t.now
    case AdminDelete(now) => now
  }

  function Run(p: Policy, a: Account, events: seq<Event>): Account {
    if events == [] then a else After(p, Run(p, a, events[..|events| - 1]), events[|events| - 1])
  }

  ghost predicate Timed(events: seq<Event>) {
    forall i, j | 0 <= i < j < |events| :: TimeOf(events[i]) <= TimeOf(events[j])
  }

  /** No event of the stretch is an admin delete, or right credentials on an account that is not locked. */
  ghost predicate NoReset(p: Policy, a: Account, events: seq<Event>) {
    events == [] || (
      var n := |events| - 1;
      && NoReset(p, a, events[..n])
      && events[n].Login?
      && (LockedAt(Run(p, a, events[..n]), events[n].attempt.now) || !RightCredentials(events[n].attempt)))
  }

  predicate FailsAt(a: Account, e: Event) {
    e.Login? && !LockedAt(a, e.attempt.now) && WrongCredentials(e.attempt)
  }

  /** The times at which wrong credentials met an account that was not locked. */
  function Failures(p: Policy, a: Account, events: seq<Event>): seq<int> {
    if events == [] then []
    else
      var n := |events| - 1;
      var before := Failures(p, a, events[..n]);
      if FailsAt(Run(p, a, events[..n]), events[n]) then before + [events[n].attempt.now] else before
  }

  ghost predicate Spaced(p: Policy, failures: seq<int>) {
    forall i | p.maxAttempts <= i < |failures| :: failures[i] >= failures[i - 1] + p.lockoutMs
  }

  lemma {:induction false} StretchInvariant(p: Policy, a: Account, events: seq<Event>)
    requires a.loginAttempts == 0 && Timed(events) && NoReset(p, a, events)
    ensures
      var failures := Failures(p, a, events);
      var account := Run(p, a, events);
      && account.loginAttempts == |failures|
      && (|failures| >= p.maxAttempts ==> account.lockedUntil == Some(failures[|failures| - 1] + p.lockoutMs))
      && (|failures| < p.maxAttempts ==> account.lockedUntil == a.lockedUntil)
      && Spaced(p, failures)
  {
    if events != [] {
      StretchInvariant(p, a, events[..|events| - 1]);
    }
  }

  lemma {:induction false} SpacingAdds(p: Policy, failures: seq<int>, i: nat)
    requires Spaced(p, failures) && p.maxAttempts <= i <= |failures|
    ensures failures[i - 1] - failures[p.maxAttempts - 1] >= (i - p.maxAttempts) * p.lockoutMs
  {
    if i > p.maxAttempts {
      SpacingAdds(p, failures, i - 1);
    }
  }

  /**
   In a stretch that starts at zero attempts and contains no reset, the i-th failure, from the
   MAX-th on, comes at least (i - MAX) lockout periods after the MAX-th. Guesses are metered, not just
   delayed once.
   */
  lemma LockoutBound(p: Policy, a: Account, events: seq<Event>, i: nat)
    requires a.loginAttempts == 0 && Timed(events) && NoReset(p, a, events)
    requires p.maxAttempts <= i <= |Failures(p, a, events)|
    ensures
      var failures := Failures(p, a, events);
      failures[i - 1] >= failures[p.maxAttempts - 1] + (i - p.maxAttempts) * p.lockoutMs
  {
    StretchInvariant(p, a, events);
    SpacingAdds(p, Failures(p, a, events), i);
  }

  /**
   After such a stretch, from an unlocked account, right credentials open it exactly when fewer than MAX
   failures were recorded or a full lockout period has passed since the last one. Until then the attempt
   is refused as locked and changes nothing.
   */
  lemma LoginOpensExactly(p: Policy, a: Account, events: seq<Event>, t: Attempt)
    requires a.loginAttempts == 0 && a.lockedUntil.None? && Timed(events) && NoReset(p, a, events)
    requires t.passwordOk && t.emailVerified && t.active
    ensures
      var failures := Failures(p, a, events);
      var account := Run(p, a, events);
      var open := |failures| < p.maxAttempts || t.now >= failures[|failures| - 1] + p.lockoutMs;
      && (Judge(account, t) == Success <==> open)
      && (!open ==> Judge(account, t) == AccountLocked && After(p, account, Login(t)) == account)
      && (open ==> After(p, account, Login(t)) == Account(0, None, Some(t.now)))
  {
    StretchInvariant(p, a, events);
  }

  // ---- guessing is metered -----------------------------------------------------------------------------

  /** Nothing but wrong passwords, told from the attempts alone. */
  ghost predicate OnlyGuesses(events: seq<Event>) {
    forall e | e in events :: e.Login? && !e.attempt.passwordOk
  }

  lemma {:induction false} GuessesDoNotReset(p: Policy, a: Account, events: seq<Event>)
    requires OnlyGuesses(events)
    ensures NoReset(p, a, events)
  {
    if events != [] {
      var n := |events| - 1;
      assert events[n] in events && forall e | e in events[..n] :: e in events;
      GuessesDoNotReset(p, a, events[..n]);
    }
  }

  /** How many of the guesses had their password verified by time `until`. */
  function Verified(p: Policy, a: Account, events: seq<Event>, until: int): nat {
    if events == [] then 0
    else
      var n := |events| - 1;
      var e, before := events[n], Run(p, a, events[..n]);
      var tested := e.Login? && e.attempt.now <= until && !LockedAt(before, e.attempt.now);
      Verified(p, a, events[..n], until) + if tested then 1 else 0
  }

  lemma GuessesBefore(events: seq<Event>)
    requires events != [] && Timed(events) && OnlyGuesses(events)
    ensures
      var before, last := events[..|events| - 1], events[|events| - 1];
      Timed(before) && OnlyGuesses(before) && last.Login? && forall e | e in events :: TimeOf(e) <= TimeOf(last)
  {
    assert events[|events| - 1] in events;
    assert forall e | e in events[..|events| - 1] :: e in events;
  }

  lemma {:induction false} VerifiedAreFailures(p: Policy, a: Account, events: seq<Event>, until: int)
    requires OnlyGuesses(events) && Timed(events)
    ensures Verified(p, a, events, until) <= |Failures(p, a, events)|
    ensures Verified(p, a, events, until) > 0 ==>
      Failures(p, a, events)[Verified(p, a, events, until) - 1] <= until
  {
    if events == [] {
    } else {
      hide Verified, Failures, OnlyGuesses, Timed, Run, LockedAt;
      var n := |events| - 1;
      GuessesBefore(events);
      if TimeOf(events[n]) <= until {
        AllBeforeAreVerified(p, a, events, TimeOf(events[n]), until);
        LastFailure(p, a, events);
        var failures := Failures(p, a, events);
        assert failures != [] ==> failures[|failures| - 1] in failures;
      } else {
        VerifiedAreFailures(p, a, events[..n], until);
        OneMoreEvent(p, a, events, until);
      }
    }
  }

  lemma OneMoreEvent(p: Policy, a: Account, events: seq<Event>, until: int)
    requires events != []
    ensures
      var n := |events| - 1;
      && Failures(p, a, events[..n]) <= Failures(p, a, events)
      && (TimeOf(events[n]) > until ==> Verified(p, a, events, until) == Verified(p, a, events[..n], until))
  {
    hide LockedAt, Run, FailsAt;
  }

  lemma {:induction false} LastFailure(p: Policy, a: Account, events: seq<Event>)
    requires Timed(events)
    ensures forall t | t in Failures(p, a, events) :: events != [] && t <= TimeOf(events[|events| - 1])
  {
    if events != [] {
      LastFailure(p, a, events[..|events| - 1]);
    }
  }

  lemma {:induction false} AllBeforeAreVerified(p: Policy, a: Account, events: seq<Event>, now: int, until: int)
    requires OnlyGuesses(events) && now <= until && forall e | e in events :: TimeOf(e) <= now
    ensures Verified(p, a, events, until) == |Failures(p, a, events)|
  {
    if events != [] {
      var n := |events| - 1;
      assert events[n] in events && forall e | e in events[..n] :: e in events;
      AllBeforeAreVerified(p, a, events[..n], now, until);
    }
  }

  /**
   However many wrong passwords are tried and however fast, at most MAX are verified before one lockout
   period has passed since the MAX-th, at most MAX + 1 before two have, and so on.
   */
  lemma GuessingIsMetered(p: Policy, a: Account, events: seq<Event>, periods: nat)
    requires a.loginAttempts == 0 && Timed(events) && OnlyGuesses(events)
    requires |Failures(p, a, events)| >= p.maxAttempts
    ensures
      var since := Failures(p, a, events)[p.maxAttempts - 1];
      Verified(p, a, events, since + (periods + 1) * p.lockoutMs - 1) <= p.maxAttempts + periods
  {
    GuessesDoNotReset(p, a, events);
    var failures := Failures(p, a, events);
    var until := failures[p.maxAttempts - 1] + (periods + 1) * p.lockoutMs - 1;
    VerifiedAreFailures(p, a, events, until);
    var tested := Verified(p, a, events, until);
    if tested > p.maxAttempts + periods {
      LockoutBound(p, a, events, tested);
      MorePeriods(tested - p.maxAttempts, periods + 1, p.lockoutMs);
      assert false;
    }
  }

  lemma MorePeriods(x: int, y: int, period: int)
    requires x >= y && period > 0
    ensures x * period >= y * period
  {
  }
}
