/**
 That sessions stay alive: with Redis reachable, a refresh token works until it expires or something ends its
 session, whatever other requests come in between, and so does any chain of refreshes.
 */
module TokenLiveness {
  import opened Options
  import opened TokenStore
  import opened AuthSessions
  import opened StoreAgreement
  import opened SessionSafety
  import opened TokenReuse

  function ReplyAt(l: Lifetimes, steps: seq<Step>, k: nat): Reply
    requires k < |steps|
  {
    Execute(Run(Initial(l), steps[..k]), steps[k]).1
  }

  /** The request replaces, spends or revokes the user's token; a logout by another user may name it too. */
  predicate Ends(request: Request, t: Token) {
    match request
    case Login(user) => user == t.user
    case Refresh(token, active) => token == t && active
    case Logout(user, _, refresh) => user == t.user || refresh == t
    case Authorize(_, _) => false
    case RevokeSession(user) => user == t.user
  }

  /** Redis holds the token until it expires, and neither store holds a mark against it. */
  ghost predicate Held(s: Sessions, t: Token) {
    var key := RefreshKey(t.user);
    && t in s.issued && t.kind == RefreshToken && Unlisted(s.stores, t)
    && key in s.stores.redis && s.stores.redis[key].value == Stored(t) && s.stores.redis[key].expiresAt >= t.exp
  }

  lemma IssueHolds(s: Sessions, env: Env, user: UserId)
    requires WellFormed(s) && env.up
    ensures
      var t := NewRefreshToken(s, user, env.now);
      Held(IssueTokens(s, env, user), t) && NoFallbackCopy(IssueTokens(s, env, user).stores, t)
  {
    NewIsUnknown(s, env, user);
  }

  lemma IssuedIsHeld(s: Sessions, step: Step)
    requires WellFormed(s) && step.env.up && Execute(s, step).1.Issued?
    ensures
      var t := Execute(s, step).1.refresh;
      Held(After(s, step), t) && NoFallbackCopy(After(s, step).stores, t)
  {
    hide Held, NoFallbackCopy, IsTokenBlacklisted, GetRefreshToken, StoreRefreshToken, BlacklistRemaining, WellFormed;
    match step.request
    case Login(user) => IssueHolds(s, step.env, user);
    case Refresh(token, active) =>
      var s1 := IsTokenBlacklisted(s.stores, step.env, token).0;
      var s2 := GetRefreshToken(s1, step.env, token.user).0;
      SpentWellFormed(s, step.env, token);
      IssueHolds(s.(stores := BlacklistRemaining(s2, step.env, token)), step.env, token.user);
    case _ =>
  }

  lemma CheckHolds(s: Sessions, env: Env, token: Token, t: Token)
    requires Held(s, t) && env.now < t.exp
    ensures Held(s.(stores := IsTokenBlacklisted(s.stores, env, token).0), t)
  {
  }

  lemma RefreshHolds(s: Sessions, env: Env, token: Token, active: bool, t: Token)
    requires Held(s, t) && env.up && env.now < t.exp && !(token == t && active)
    ensures Held(RefreshAccessToken(s, env, token, active).0, t)
  {
    CheckHolds(s, env, token, t);
    var checked := IsTokenBlacklisted(s.stores, env, token).0;
    if token.user == t.user {
      assert GetRefreshToken(checked, env, token.user) == (checked, Some(Stored(t)));
    }
  }

  lemma StepHolds(s: Sessions, step: Step, t: Token)
    requires Held(s, t) && step.env.up && step.env.now < t.exp && !Ends(step.request, t)
    ensures Held(After(s, step), t)
  {
    match step.request
    case Login(user) =>
    case Refresh(token, active) => RefreshHolds(s, step.env, token, active, t);
    case Logout(user, access, refresh) =>
    case Authorize(token, active) => CheckHolds(s, step.env, token, t);
    case RevokeSession(user) =>
  }

  lemma {:induction false} RunHolds(l: Lifetimes, steps: seq<Step>, i: nat, j: nat, t: Token)
    requires i <= j <= |steps| && Held(StateAt(l, steps, i), t)
    requires forall k | i <= k < j :: steps[k].env.up && steps[k].env.now < t.exp && !Ends(steps[k].request, t)
    ensures Held(StateAt(l, steps, j), t)
    decreases j
  {
    hide Held, After, Ends;
    if i < j {
      RunHolds(l, steps, i, j - 1, t);
      StateAtNext(l, steps, j - 1);
      StepHolds(StateAt(l, steps, j - 1), steps[j - 1], t);
    }
  }

  lemma HeldRedeems(s: Sessions, step: Step, t: Token, active: bool)
    requires Held(s, t) && step.env.up && step.request == Refresh(t, active)
    ensures Redeems(s, step, t) <==> active && step.env.now < t.exp
  {
    var checked := IsTokenBlacklisted(s.stores, step.env, t).0;
    assert checked.redis == s.stores.redis;
  }

  /**
   With Redis reachable from its issue on, a refresh token, whether a login or a refresh returned it, is
   redeemed exactly until it expires, through any requests that do not end its session: other users' of any
   kind, this user's older tokens, refreshes refused for the account, checks of access tokens.
   */
  lemma StaysRedeemable(l: Lifetimes, steps: seq<Step>, i: nat, j: nat, active: bool)
    requires Timed(steps) && i < j < |steps| && ReplyAt(l, steps, i).Issued?
    requires forall k | i <= k <= j :: steps[k].env.up
    requires forall k | i < k < j :: !Ends(steps[k].request, ReplyAt(l, steps, i).refresh)
    requires steps[j].request == Refresh(ReplyAt(l, steps, i).refresh, active)
    ensures ReplyAt(l, steps, j).Issued? <==> active && steps[j].env.now < ReplyAt(l, steps, i).refresh.exp
  {
    hide Held, Ends, Run, WellFormed, NoFallbackCopy;
    var t := ReplyAt(l, steps, i).refresh;
    RunWellFormed(l, steps, i, i);
    IssuedIsHeld(StateAt(l, steps, i), steps[i]);
    StateAtNext(l, steps, i);
    if steps[j].env.now < t.exp {
      RunHolds(l, steps, i + 1, j, t);
      HeldRedeems(StateAt(l, steps, j), steps[j], t, active);
    } else {
      ExpiredIsRefused(StateAt(l, steps, j), steps[j], t);
    }
  }

  /** What does end a session: a login, the token's own redemption, a logout or a revocation, done in Redis. */
  ghost predicate Supersedes(s: Sessions, step: Step, t: Token) {
    match step.request
    case Login(user) => user == t.user
    case Refresh(token, _) => Redeems(s, step, t)
    case Logout(user, _, _) => user == t.user
    case Authorize(_, _) => false
    case RevokeSession(user) => user == t.user
  }

  lemma SupersededIsShadowed(s: Sessions, step: Step, t: Token)
    requires WellFormed(s) && t in s.issued && NoFallbackCopy(s.stores, t)
    requires step.env.up && Supersedes(s, step, t)
    ensures Shadowed(After(s, step).stores, t)
  {
  }

  lemma AbsentIsRefused(s: Sessions, step: Step, t: Token)
    requires Shadowed(s.stores, t) && NoFallbackCopy(s.stores, t)
    ensures !Redeems(s, step, t)
  {
  }

  /**
   And the session is then over for that token: issued through Redis and superseded through Redis, it is
   never redeemed again, whatever requests and outages come before, between and after.
   */
  lemma SupersededIsRefused(l: Lifetimes, steps: seq<Step>, i: nat, k: nat, j: nat)
    requires Timed(steps) && i < k < j < |steps| && ReplyAt(l, steps, i).Issued?
    requires steps[i].env.up && steps[k].env.up
    requires Supersedes(StateAt(l, steps, k), steps[k], ReplyAt(l, steps, i).refresh)
    ensures !Redeems(StateAt(l, steps, j), steps[j], ReplyAt(l, steps, i).refresh)
  {
    hide Run, WellFormed, Shadowed, NoFallbackCopy, Supersedes, Redeems;
    var t := ReplyAt(l, steps, i).refresh;
    if steps[j].env.now >= t.exp {
      ExpiredIsRefused(StateAt(l, steps, j), steps[j], t);
    } else {
      RunWellFormed(l, steps, i, i);
      IssuedIsHeld(StateAt(l, steps, i), steps[i]);
      StateAtNext(l, steps, i);
      assert t in StateAt(l, steps, i + 1).issued && t.kind == RefreshToken by {
        HeldIsIssued(StateAt(l, steps, i + 1), t);
      }
      ExpiresInTime(l, steps, i + 1, t, steps[i].env.now);
      assert forall m | i < m < j :: steps[i].env.now <= steps[m].env.now <= steps[j].env.now;
      RunPersists(l, steps, i + 1, k, t);
      PersistsGives(StateAt(l, steps, i + 1).stores, StateAt(l, steps, k).stores, t);
      RunWellFormed(l, steps, i + 1, k);
      RunWellFormed(l, steps, i + 1, k + 1);
      SupersededIsShadowed(StateAt(l, steps, k), steps[k], t);
      StateAtNext(l, steps, k);
      StepPersists(StateAt(l, steps, k), steps[k], t);
      PersistsGives(StateAt(l, steps, k).stores, StateAt(l, steps, k + 1).stores, t);
      RunPersists(l, steps, k + 1, j, t);
      PersistsGives(StateAt(l, steps, k + 1).stores, StateAt(l, steps, j).stores, t);
      AbsentIsRefused(StateAt(l, steps, j), steps[j], t);
    }
  }

  lemma HeldIsIssued(s: Sessions, t: Token)
    requires Held(s, t)
    ensures t in s.issued && t.kind == RefreshToken
  {
  }

  /**
   A chain of refreshes of any length, begun by a login after any run, never breaks with Redis reachable:
   as long as each request presents the token the previous one returned, within its lifetime, each succeeds.
   */
  lemma {:induction false} ChainSucceeds(l: Lifetimes, steps: seq<Step>, i: nat, k: nat)
    requires Timed(steps) && i <= k < |steps| && steps[i].request.Login?
    requires forall m | i <= m < |steps| :: steps[m].env.up
    requires forall m {:trigger steps[m]} | i < m < |steps| && ReplyAt(l, steps, m - 1).Issued? ::
      var token := ReplyAt(l, steps, m - 1).refresh;
      steps[m].request == Refresh(token, true) && steps[m].env.now < token.exp
    ensures ReplyAt(l, steps, k).Issued?
    decreases k
  {
    if i < k {
      ChainSucceeds(l, steps, i, k - 1);
      assert steps[k].env.up;
      StaysRedeemable(l, steps, k - 1, k, true);
    }
  }

  // ---- sessions an administrator revokes -----------------------------------------------------------------

  /**
   Revocation alone, without a mark, at any instant of the token's life: done with Redis up it is final; done
   in an outage it is undone exactly by a Redis that comes back still holding the token, unmarked.
   */
  lemma RevokedReuseExactly(l: Lifetimes, steps: seq<Step>, i: nat, j: nat, token: Token, active: bool)
    requires Timed(steps) && i < j < |steps|
    requires token in StateAt(l, steps, i).issued && token.kind == RefreshToken
    requires steps[i].request == RevokeSession(token.user) && steps[j].request == Refresh(token, active)
    ensures
      var before, now := StateAt(l, steps, j).stores, steps[j].env.now;
      Redeems(StateAt(l, steps, j), steps[j], token) <==>
        active && now < token.exp && !steps[i].env.up && steps[j].env.up && RedisAnswers(before, token, now)
  {
    hide Run, Redeems, Persists, WellFormed, Shadowed, RedisAnswers;
    var revoke, s := steps[i].env, StateAt(l, steps, j);
    assert revoke.now <= steps[j].env.now;
    StateAtNext(l, steps, i);
    RunWellFormed(l, steps, i, i + 1);
    RunWellFormed(l, steps, i + 1, j);
    RevocationLeaves(StateAt(l, steps, i), revoke, token);
    assert i > 0 ==> steps[i - 1].env.now <= revoke.now;
    ExpiresInTime(l, steps, i, token, revoke.now);
    if steps[j].env.now < token.exp {
      assert forall k | i + 1 <= k < j :: revoke.now <= steps[k].env.now <= steps[j].env.now;
      RunPersists(l, steps, i + 1, j, token);
      PersistsGives(StateAt(l, steps, i + 1).stores, s.stores, token);
      AcceptedFrom(s, steps[j], token, active, revoke.up);
    } else {
      ExpiredIsRefused(s, steps[j], token);
    }
  }

  lemma RevocationLeaves(s: Sessions, env: Env, t: Token)
    ensures
      var s' := After(s, Step(env, RevokeSession(t.user))).stores;
      NoFallbackCopy(s', t) && (env.up ==> Shadowed(s', t))
  {
  }
}
