/**
 Login, refresh-token rotation and logout (app/modules/auth/service.py) over the token store, as a
 transition system: one request at a time, each with its own clock reading and Redis availability.
 */
module AuthSessions {
  import opened Options
  import opened TokenStore

  type Seconds = n: int | n > 0 witness 1

  /** The configured lifetimes of both kinds of token. */
  datatype Lifetimes = Lifetimes(access: Seconds, refresh: Seconds)

  /** The settings' defaults: 15 minutes and 7 days. */
  const DEFAULTS := Lifetimes(15 * 60, 7 * 24 * 60 * 60)

  /** `issued` holds the tokens this server has signed; ids below `nextId` are taken. */
  datatype Sessions = Sessions(lifetimes: Lifetimes, stores: Stores, issued: set<Token>, nextId: nat)

  function Initial(lifetimes: Lifetimes): Sessions {
    Sessions(lifetimes, Stores(map[], map[]), {}, 0)
  }

  /**
   `active` says whether the account may be used. A logout names an access token or, as the logout route
   does with its empty string, none.
   */
  datatype Request =
    | Login(user: UserId)
    | Refresh(token: Token, active: bool)
    | Logout(user: UserId, access: Option<Token>, refresh: Token)
    | Authorize(token: Token, active: bool)
    | RevokeSession(user: UserId)

  datatype Reply = Issued(access: Token, refresh: Token) | Done | Rejected

  datatype Step = Step(env: Env, request: Request)

  /** The exp claim of a token signed now: seconds, so the milliseconds are dropped. */
  function ExpiryClaim(now: int, ttl: int): int {
    (now + ttl * 1000) / 1000 * 1000
  }

  function NewAccessToken(s: Sessions, user: UserId, now: int): Token {
    Token(AccessToken, s.nextId, user, ExpiryClaim(now, s.lifetimes.access))
  }

  function NewRefreshToken(s: Sessions, user: UserId, now: int): Token {
    Token(RefreshToken, s.nextId + 1, user, ExpiryClaim(now, s.lifetimes.refresh))
  }

  /** The signature is ours, the type is the expected one, and the token has not expired. */
  predicate Verifies(s: Sessions, token: Token, kind: TokenKind, now: int) {
    token in s.issued && token.kind == kind && now < token.exp
  }

  /** Blacklist a token for the whole seconds it still has, if there are any. */
  function BlacklistRemaining(stores: Stores, env: Env, token: Token): Stores {
    var remaining := (token.exp - env.now) / 1000;
    if remaining > 0 then BlacklistToken(stores, env, token, remaining) else stores
  }

  function NewTokens(s: Sessions, user: UserId, now: int): Reply {
    Issued(NewAccessToken(s, user, now), NewRefreshToken(s, user, now))
  }

  /** Sign an access and a refresh token for `user` and store the refresh token. */
  function IssueTokens(s: Sessions, env: Env, user: UserId): Sessions {
    var refresh := NewRefreshToken(s, user, env.now);
    Sessions(
      s.lifetimes,
      StoreRefreshToken(s.stores, env, user, refresh, s.lifetimes.refresh),
      s.issued + {NewAccessToken(s, user, env.now), refresh},
      s.nextId + 2)
  }

  function RefreshAccessToken(s: Sessions, env: Env, token: Token, active: bool): (Sessions, Reply) {
    var (afterCheck, revoked) := IsTokenBlacklisted(s.stores, env, token);
    if revoked || !Verifies(s, token, RefreshToken, env.now) then (s.(stores := afterCheck), Rejected)
    else
      var (afterGet, stored) := GetRefreshToken(afterCheck, env, token.user);
      if stored != Some(Stored(token)) || !active then (s.(stores := afterGet), Rejected)
      else
        var spent := s.(stores := BlacklistRemaining(afterGet, env, token));
        (IssueTokens(spent, env, token.user), NewTokens(s, token.user, env.now))
  }

  /** Logout's treatment of one of its tokens: blacklisted if it verifies, ignored if not. */
  function Revoke(s: Sessions, stores: Stores, env: Env, token: Token, kind: TokenKind): Stores {
    if Verifies(s, token, kind, env.now) then BlacklistRemaining(stores, env, token) else stores
  }

  function RevokeAccess(s: Sessions, env: Env, access: Option<Token>): Stores {
    if access.Some? then Revoke(s, s.stores, env, access.value, AccessToken) else s.stores
  }

  function LogoutUser(s: Sessions, env: Env, user: UserId, access: Option<Token>, refresh: Token): Sessions {
    var revoked := Revoke(s, RevokeAccess(s, env, access), env, refresh, RefreshToken);
    s.(stores := DeleteRefreshToken(revoked, env, user))
  }

  function Execute(s: Sessions, step: Step): (Sessions, Reply) {
    var env := step.env;
    match step.request
    case Login(user) => (IssueTokens(s, env, user), NewTokens(s, user, env.now))
    case Refresh(token, active) => RefreshAccessToken(s, env, token, active)
    case Logout(user, access, refresh) => (LogoutUser(s, env, user, access, refresh), Done)
    case Authorize(token, active) =>
      var (stores, revoked) := IsTokenBlacklisted(s.stores, env, token);
      (s.(stores := stores), if revoked || !Verifies(s, token, AccessToken, env.now) || !active then Rejected else Done)
    case RevokeSession(user) => (s.(stores := DeleteRefreshToken(s.stores, env, user)), Done)
  }

  function After(s: Sessions, step: Step): Sessions {
    Execute(s, step).0
  }

  function Run(s: Sessions, steps: seq<Step>): Sessions {
    if steps == [] then s else After(Run(s, steps[..|steps| - 1]), steps[|steps| - 1])
  }

  /** The clock never goes back from one request to the next. */
  ghost predicate Timed(steps: seq<Step>) {
    forall i, j | 0 <= i < j < |steps| :: steps[i].env.now <= steps[j].env.now
  }

  predicate Redeems(s: Sessions, step: Step, token: Token) {
    step.request.Refresh? && step.request.token == token && Execute(s, step).1.Issued?
  }

  /** How many refresh requests of the run exchanged `token` for new tokens. */
  function Redemptions(lifetimes: Lifetimes, steps: seq<Step>, token: Token): nat {
    if steps == [] then 0
    else
      var before := steps[..|steps| - 1];
      var redeems := Redeems(Run(Initial(lifetimes), before), steps[|steps| - 1], token);
      Redemptions(lifetimes, before, token) + if redeems then 1 else 0
  }
}
