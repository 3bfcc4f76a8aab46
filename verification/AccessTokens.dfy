/**
 Access tokens and logout. The logout route names no access token, so an access token works until it expires
 however often its owner logs out; logout_user, given one, revokes it.
 */
module AccessTokens {
  import opened Options
  import opened TokenStore
  import opened AuthSessions
  import opened StoreAgreement
  import opened SessionSafety

  /** No logout of the run names `access`, as none that comes through the route does. */
  predicate NeverNamed(steps: seq<Step>, access: Token) {
    forall step | step in steps :: step.request.Logout? ==> step.request.access != Some(access)
  }

  lemma RevokeUnlisted(s: Sessions, stores: Stores, env: Env, token: Token, kind: TokenKind, t: Token)
    requires Unlisted(stores, t) && (token != t || kind != t.kind)
    ensures Unlisted(Revoke(s, stores, env, token, kind), t)
  {
  }

  lemma StepUnlisted(s: Sessions, step: Step, t: Token)
    requires Unlisted(s.stores, t) && t.kind == AccessToken
    requires step.request.Logout? ==> step.request.access != Some(t)
    ensures Unlisted(After(s, step).stores, t)
  {
    hide BlacklistRemaining;
    var env := step.env;
    match step.request
    case Login(user) =>
    case Refresh(token, active) =>
      if Redeems(s, step, token) {
        var s1 := IsTokenBlacklisted(s.stores, env, token).0;
        var s2 := GetRefreshToken(s1, env, token.user).0;
        RevokeUnlisted(s, s2, env, token, RefreshToken, t);
      }
    case Logout(user, access, refresh) =>
      if access.Some? {
        RevokeUnlisted(s, s.stores, env, access.value, AccessToken, t);
      }
      RevokeUnlisted(s, RevokeAccess(s, env, access), env, refresh, RefreshToken, t);
    case Authorize(token, active) =>
    case RevokeSession(user) =>
  }

  lemma {:induction false} RunUnlisted(l: Lifetimes, steps: seq<Step>, access: Token)
    requires NeverNamed(steps, access) && access.kind == AccessToken
    ensures Unlisted(Run(Initial(l), steps).stores, access)
  {
    if steps != [] {
      var n := |steps| - 1;
      assert steps[n] in steps && forall step | step in steps[..n] :: step in steps;
      RunUnlisted(l, steps[..n], access);
      hide Unlisted;
      StepUnlisted(Run(Initial(l), steps[..n]), steps[n], access);
    }
  }

  /**
   After any run whose logouts all come through the route, any number of them by this very user, an access
   token is accepted exactly until it expires or its account is closed.
   */
  lemma RouteLogoutSparesAccess(l: Lifetimes, steps: seq<Step>, access: Token, env: Env, active: bool)
    requires NeverNamed(steps, access) && access.kind == AccessToken
    ensures
      var s := Run(Initial(l), steps);
      Execute(s, Step(env, Authorize(access, active))).1 == Done <==>
        access in s.issued && env.now < access.exp && active
  {
    RunUnlisted(l, steps, access);
  }

  /**
   The access token a login or a refresh returns is the user's, lives its configured lifetime, and is accepted
   exactly until then while the account is usable, if no logout names it; later refreshes and rotations of the
   session do not matter.
   */
  lemma IssuedAccessWorks(l: Lifetimes, steps: seq<Step>, i: nat, env: Env, active: bool)
    requires i < |steps| && Execute(StateAt(l, steps, i), steps[i]).1.Issued?
    requires NeverNamed(steps, Execute(StateAt(l, steps, i), steps[i]).1.access)
    ensures
      var reply := Execute(StateAt(l, steps, i), steps[i]).1;
      && LivesFrom(reply.access, reply.refresh.user, AccessToken, steps[i].env.now, l.access)
      && (Execute(Run(Initial(l), steps), Step(env, Authorize(reply.access, active))).1 == Done <==>
          env.now < reply.access.exp && active)
  {
    hide Run;
    RunWellFormed(l, steps, i, i);
    StateAtNext(l, steps, i);
    RunWellFormed(l, steps, i + 1, |steps|);
    assert steps[..|steps|] == steps;
    var access := Execute(StateAt(l, steps, i), steps[i]).1.access;
    assert access.kind == AccessToken && access in StateAt(l, steps, i + 1).issued;
    RouteLogoutSparesAccess(l, steps, access, env, active);
  }

  /** The mark a logout left is read back: in the store it was written to, or by a resync with a whole second left. */
  predicate MarkRead(logout: Env, next: Env, until: int) {
    if logout.up then next.up && next.now < until
    else if next.up then next.now <= until - 1000
    else next.now < until
  }

  /**
   A logout that does name the access token revokes it: the next request with it is refused, within its
   lifetime, exactly when a whole second of it was left and the mark is read back.
   */
  lemma NamedLogoutRevokes(l: Lifetimes, steps: seq<Step>, access: Token, refresh: Token, logout: Env, next: Env)
    requires NeverNamed(steps, access) && access.kind == AccessToken && access in Run(Initial(l), steps).issued
    requires logout.now <= next.now < access.exp
    ensures
      var s := After(Run(Initial(l), steps), Step(logout, Logout(access.user, Some(access), refresh)));
      var remaining := (access.exp - logout.now) / 1000;
      Execute(s, Step(next, Authorize(access, true))).1 == Rejected <==>
        remaining > 0 && MarkRead(logout, next, logout.now + remaining * 1000)
  {
    RunUnlisted(l, steps, access);
    hide Run;
    MarkedByLogout(Run(Initial(l), steps), access, refresh, logout);
  }

  lemma MarkedByLogout(s: Sessions, access: Token, refresh: Token, logout: Env)
    requires Unlisted(s.stores, access) && access.kind == AccessToken && access in s.issued && logout.now < access.exp
    ensures
      var after := After(s, Step(logout, Logout(access.user, Some(access), refresh)));
      var key, remaining := BlacklistKey(access), (access.exp - logout.now) / 1000;
      var mark := Entry(Marker, logout.now + remaining * 1000);
      && after.issued == s.issued
      && (key in after.stores.redis <==> remaining > 0 && logout.up)
      && (key in after.stores.fallback <==> remaining > 0 && !logout.up)
      && (key in after.stores.redis ==> after.stores.redis[key] == mark)
      && (key in after.stores.fallback ==> after.stores.fallback[key] == mark)
  {
  }
}
