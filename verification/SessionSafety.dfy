/**
 What revocation guarantees over whole runs of the session system, for every pattern of Redis outages and
 all token lifetimes: a logged-out refresh token is not redeemed again up to two seconds before its expiry,
 and every token is redeemed at most once when Redis, once reachable, stays reachable.
 */
module SessionSafety {
  import opened Options
  import opened TokenStore
  import opened AuthSessions
  import opened StoreAgreement

  ghost function StateAt(l: Lifetimes, steps: seq<Step>, k: nat): Sessions
    requires k <= |steps|
  {
    Run(Initial(l), steps[..k])
  }

  lemma StateAtNext(l: Lifetimes, steps: seq<Step>, k: nat)
    requires k < |steps|
    ensures StateAt(l, steps, k + 1) == After(StateAt(l, steps, k), steps[k])
  {
    assert steps[..k + 1][..k] == steps[..k];
  }

  // ---- ids ---------------------------------------------------------------------------------------

  ghost predicate Known(key: Key, value: Value, issued: set<Token>) {
    match key
    case BlacklistKey(token) => token in issued
    case RefreshKey(user) => value.Stored? && value.token in issued
  }

  ghost predicate KnownEntries(s: Stores, issued: set<Token>) {
    && (forall key | key in s.redis :: Known(key, s.redis[key].value, issued))
    && (forall key | key in s.fallback :: Known(key, s.fallback[key].value, issued))
  }

  /** No two signed tokens share an id, ids are below the counter, and both dictionaries speak of signed tokens only. */
  ghost predicate WellFormed(s: Sessions) {
    && (forall t | t in s.issued :: t.id < s.nextId)
    && (forall t, u | t in s.issued && u in s.issued && t.id == u.id :: t == u)
    && KnownEntries(s.stores, s.issued)
  }

  lemma PutKnown(s: Stores, env: Env, key: Key, value: Value, ttl: int, issued: set<Token>)
    requires KnownEntries(s, issued) && Known(key, value, issued)
    ensures KnownEntries(Put(s, env, key, value, ttl), issued)
  {
  }

  lemma ReadsKnown(s: Stores, env: Env, token: Token, user: UserId, issued: set<Token>)
    requires KnownEntries(s, issued)
    ensures KnownEntries(IsTokenBlacklisted(s, env, token).0, issued)
    ensures KnownEntries(GetRefreshToken(s, env, user).0, issued)
  {
  }

  lemma IssueWellFormed(s: Sessions, env: Env, user: UserId)
    requires WellFormed(s)
    ensures WellFormed(IssueTokens(s, env, user)) && s.issued <= IssueTokens(s, env, user).issued
  {
    var s' := IssueTokens(s, env, user);
    var token := NewRefreshToken(s, user, env.now);
    assert KnownEntries(s.stores, s'.issued);
    PutKnown(s.stores, env, RefreshKey(user), Stored(token), s.lifetimes.refresh, s'.issued);
  }

  lemma BlacklistKnown(s: Stores, env: Env, token: Token, issued: set<Token>)
    requires KnownEntries(s, issued) && token in issued
    ensures KnownEntries(BlacklistRemaining(s, env, token), issued)
  {
    PutKnown(s, env, BlacklistKey(token), Marker, (token.exp - env.now) / 1000, issued);
  }

  lemma DeleteKnown(s: Stores, env: Env, user: UserId, issued: set<Token>)
    requires KnownEntries(s, issued)
    ensures KnownEntries(DeleteRefreshToken(s, env, user), issued)
  {
  }

  lemma RevokeKnown(s: Sessions, stores: Stores, env: Env, token: Token, kind: TokenKind)
    requires KnownEntries(stores, s.issued)
    ensures KnownEntries(Revoke(s, stores, env, token, kind), s.issued)
  {
    if token in s.issued {
      BlacklistKnown(stores, env, token, s.issued);
    }
  }

  lemma AccessKnown(s: Sessions, env: Env, access: Option<Token>)
    requires KnownEntries(s.stores, s.issued)
    ensures KnownEntries(RevokeAccess(s, env, access), s.issued)
  {
    if access.Some? {
      RevokeKnown(s, s.stores, env, access.value, AccessToken);
    }
  }

  lemma StepWellFormed(s: Sessions, step: Step)
    requires WellFormed(s)
    ensures
      var s' := After(s, step);
      WellFormed(s') && s.issued <= s'.issued && s'.lifetimes == s.lifetimes
  {
    hide KnownEntries, BlacklistRemaining, IsTokenBlacklisted, GetRefreshToken, StoreRefreshToken, DeleteRefreshToken,
      Revoke, RevokeAccess;
    var env := step.env;
    match step.request
    case Login(user) => IssueWellFormed(s, env, user);
    case Refresh(token, active) =>
      ReadsKnown(s.stores, env, token, token.user, s.issued);
      var s1 := IsTokenBlacklisted(s.stores, env, token).0;
      ReadsKnown(s1, env, token, token.user, s.issued);
      var s2 := GetRefreshToken(s1, env, token.user).0;
      if token in s.issued {
        BlacklistKnown(s2, env, token, s.issued);
        IssueWellFormed(s.(stores := BlacklistRemaining(s2, env, token)), env, token.user);
      }
    case Logout(user, access, refresh) =>
      AccessKnown(s, env, access);
      var s1 := RevokeAccess(s, env, access);
      RevokeKnown(s, s1, env, refresh, RefreshToken);
      DeleteKnown(Revoke(s, s1, env, refresh, RefreshToken), env, user, s.issued);
    case Authorize(token, active) => ReadsKnown(s.stores, env, token, token.user, s.issued);
    case RevokeSession(user) => DeleteKnown(s.stores, env, user, s.issued);
  }

  lemma {:induction false} RunWellFormed(l: Lifetimes, steps: seq<Step>, i: nat, j: nat)
    requires i <= j <= |steps|
    ensures
      var s := StateAt(l, steps, j);
      WellFormed(s) && StateAt(l, steps, i).issued <= s.issued && s.lifetimes == l
    decreases j
  {
    if j == 0 {
      assert steps[..0] == [];
    } else {
      hide WellFormed, After, Run;
      RunWellFormed(l, steps, if i < j then i else j - 1, j - 1);
      StateAtNext(l, steps, j - 1);
      StepWellFormed(StateAt(l, steps, j - 1), steps[j - 1]);
    }
  }

  // ---- blacklist entries and stored copies survive every later request ---------------------------

  lemma BlacklistKeeps(s: Stores, env: Env, token: Token, t: Token, d: int)
    requires env.now <= d - 1000 && d <= t.exp - 999
    ensures Keeps(s, BlacklistRemaining(s, env, token), t, d)
  {
  }

  lemma StepKeeps(s: Sessions, step: Step, t: Token, d: int)
    requires WellFormed(s) && t in s.issued
    requires step.env.now <= d - 1000 && d <= t.exp - 999
    ensures Keeps(s.stores, After(s, step).stores, t, d)
  {
    hide FallbackGuard, RedisGuard, NoFallbackCopy, IsTokenBlacklisted, GetRefreshToken, StoreRefreshToken,
      DeleteRefreshToken, BlacklistRemaining;
    var env := step.env;
    match step.request
    case Login(user) =>
      StoreKeeps(s.stores, env, user, NewRefreshToken(s, user, env.now), s.lifetimes.refresh, t, d);
    case Refresh(token, active) =>
      CheckKeeps(s.stores, env, token, t, d);
      var s1 := IsTokenBlacklisted(s.stores, env, token).0;
      GetKeeps(s1, env, token.user, t, d);
      var s2 := GetRefreshToken(s1, env, token.user).0;
      BlacklistKeeps(s2, env, token, t, d);
      StoreKeeps(BlacklistRemaining(s2, env, token), env, token.user,
        NewRefreshToken(s, token.user, env.now), s.lifetimes.refresh, t, d);
    case Logout(user, access, refresh) =>
      var s1 := RevokeAccess(s, env, access);
      if access.Some? {
        BlacklistKeeps(s.stores, env, access.value, t, d);
      }
      BlacklistKeeps(s1, env, refresh, t, d);
      DeleteKeeps(Revoke(s, s1, env, refresh, RefreshToken), env, user, t, d);
    case Authorize(token, active) =>
      CheckKeeps(s.stores, env, token, t, d);
    case RevokeSession(user) =>
      DeleteKeeps(s.stores, env, user, t, d);
  }

  lemma {:induction false} RunKeeps(l: Lifetimes, steps: seq<Step>, i: nat, j: nat, t: Token, d: int)
    requires i <= j <= |steps| && Timed(steps)
    requires t in StateAt(l, steps, i).issued && d <= t.exp - 999
    requires j > i ==> steps[j - 1].env.now <= d - 1000
    ensures Keeps(StateAt(l, steps, i).stores, StateAt(l, steps, j).stores, t, d)
    decreases j
  {
    hide FallbackGuard, RedisGuard, NoFallbackCopy, After, Run;
    if i < j {
      assert i < j - 1 ==> steps[j - 2].env.now <= steps[j - 1].env.now;
      RunKeeps(l, steps, i, j - 1, t, d);
      RunWellFormed(l, steps, i, j - 1);
      StateAtNext(l, steps, j - 1);
      StepKeeps(StateAt(l, steps, j - 1), steps[j - 1], t, d);
    }
  }

  // ---- logout ------------------------------------------------------------------------------------

  lemma LogoutRevokes(s: Sessions, env: Env, access: Option<Token>, t: Token)
    requires t in s.issued && t.kind == RefreshToken && env.now <= t.exp - 2000
    ensures
      var s' := LogoutUser(s, env, t.user, access, t).stores;
      FallbackGuard(s', t, t.exp - 999) || (RedisGuard(s', t, t.exp - 999) && NoFallbackCopy(s', t))
  {
  }

  /** A token revoked in this way is refused: by the blacklist, or because no copy of it is stored. */
  lemma RevokedIsRefused(s: Sessions, step: Step, t: Token, d: int)
    requires step.env.now <= d - 1000
    requires FallbackGuard(s.stores, t, d) || (RedisGuard(s.stores, t, d) && NoFallbackCopy(s.stores, t))
    ensures !Redeems(s, step, t)
  {
  }

  /**
   Whatever Redis does, after a user logs out presenting their refresh token, no later refresh request up
   to two seconds before the token's own expiry redeems it. Either store alone is not enough: a logout
   during an outage leaves the token in Redis, one with Redis up leaves nothing in the fallback blacklist.
   */
  lemma LogoutIsFinal(l: Lifetimes, steps: seq<Step>, i: nat, j: nat, access: Option<Token>, token: Token)
    requires Timed(steps) && i < j < |steps|
    requires token in StateAt(l, steps, i).issued && token.kind == RefreshToken
    requires steps[i].request == Logout(token.user, access, token)
    requires steps[j].env.now <= token.exp - 2000
    ensures !Redeems(StateAt(l, steps, j), steps[j], token)
  {
    var d := token.exp - 999;
    assert steps[i].env.now <= steps[j].env.now;
    StateAtNext(l, steps, i);
    RunWellFormed(l, steps, i, i + 1);
    LogoutRevokes(StateAt(l, steps, i), steps[i].env, access, token);
    assert j > i + 1 ==> steps[j - 1].env.now <= steps[j].env.now;
    RunKeeps(l, steps, i + 1, j, token, d);
    RevokedIsRefused(StateAt(l, steps, j), steps[j], token, d);
  }

  // ---- single use when Redis, once reachable, stays reachable -------------------------------------

  ghost predicate StaysReachable(steps: seq<Step>) {
    forall i, j | 0 <= i < j < |steps| :: steps[i].env.up ==> steps[j].env.up
  }

  /** How one user's entries in the two dictionaries relate, in such a run, after requests up to `env`. */
  ghost predicate SlotAligned(s: Stores, env: Env, user: UserId, ttl: Seconds) {
    var key := RefreshKey(user);
    && (!env.up ==> s.redis == map[])
    && (key in s.fallback ==> s.fallback[key].expiresAt <= env.now + ttl * 1000)
    && (key in s.fallback && key in s.redis ==> s.redis[key].expiresAt > s.fallback[key].expiresAt - 1000)
  }

  /** A spent token is not in Redis, and a copy left in the fallback is shadowed by a Redis entry. */
  ghost predicate Spent(s: Stores, t: Token) {
    var key := RefreshKey(t.user);
    && (key in s.redis ==> s.redis[key].value != Stored(t))
    && (key in s.fallback && s.fallback[key].value == Stored(t) ==> key in s.redis)
  }

  ghost predicate SpentKept(s: Stores, s': Stores, t: Token) {
    Spent(s, t) ==> Spent(s', t)
  }

  lemma CheckAligned(s: Stores, env: Env, token: Token, t: Token, ttl: Seconds)
    requires SlotAligned(s, env, t.user, ttl)
    ensures
      var s' := IsTokenBlacklisted(s, env, token).0;
      SlotAligned(s', env, t.user, ttl) && SpentKept(s, s', t)
  {
  }

  lemma GetAligned(s: Stores, env: Env, user: UserId, t: Token, ttl: Seconds)
    requires SlotAligned(s, env, t.user, ttl)
    ensures
      var s' := GetRefreshToken(s, env, user).0;
      SlotAligned(s', env, t.user, ttl) && SpentKept(s, s', t)
  {
  }

  lemma BlacklistAligned(s: Stores, env: Env, token: Token, t: Token, ttl: Seconds)
    requires SlotAligned(s, env, t.user, ttl)
    ensures
      var s' := BlacklistRemaining(s, env, token);
      SlotAligned(s', env, t.user, ttl) && SpentKept(s, s', t)
  {
  }

  lemma StoreAligned(s: Stores, env: Env, user: UserId, token: Token, t: Token, ttl: Seconds)
    requires SlotAligned(s, env, t.user, ttl)
    ensures
      var s' := StoreRefreshToken(s, env, user, token, ttl);
      && SlotAligned(s', env, t.user, ttl)
      && (token != t ==> SpentKept(s, s', t))
      && (user == t.user && token != t ==> Spent(s', t))
  {
  }

  lemma RefreshAligned(s: Sessions, env: Env, token: Token, active: bool, t: Token)
    requires WellFormed(s) && SlotAligned(s.stores, env, t.user, s.lifetimes.refresh)
    ensures
      var (s', reply) := RefreshAccessToken(s, env, token, active);
      && SlotAligned(s'.stores, env, t.user, s.lifetimes.refresh)
      && (t in s.issued ==> SpentKept(s.stores, s'.stores, t))
      && (reply.Issued? && token == t ==> t in s.issued && Spent(s'.stores, t))
  {
    CheckAligned(s.stores, env, token, t, s.lifetimes.refresh);
    var s1 := IsTokenBlacklisted(s.stores, env, token).0;
    GetAligned(s1, env, token.user, t, s.lifetimes.refresh);
    var s2 := GetRefreshToken(s1, env, token.user).0;
    BlacklistAligned(s2, env, token, t, s.lifetimes.refresh);
    var s3 := BlacklistRemaining(s2, env, token);
    var successor := NewRefreshToken(s, token.user, env.now);
    assert t in s.issued ==> successor != t;
    StoreAligned(s3, env, token.user, successor, t, s.lifetimes.refresh);
    if token !in s.issued {
      assert RefreshAccessToken(s, env, token, active).0.stores == s1;
    }
  }

  lemma StepAligned(s: Sessions, step: Step, t: Token)
    requires WellFormed(s) && SlotAligned(s.stores, step.env, t.user, s.lifetimes.refresh)
    ensures SlotAligned(After(s, step).stores, step.env, t.user, s.lifetimes.refresh)
    ensures t in s.issued ==> SpentKept(s.stores, After(s, step).stores, t)
    ensures Redeems(s, step, t) ==> t in s.issued && Spent(After(s, step).stores, t)
  {
    hide BlacklistRemaining, IsTokenBlacklisted, GetRefreshToken, StoreRefreshToken;
    var env := step.env;
    match step.request
    case Login(user) =>
      StoreAligned(s.stores, env, user, NewRefreshToken(s, user, env.now), t, s.lifetimes.refresh);
    case Refresh(token, active) => RefreshAligned(s, env, token, active, t);
    case Logout(user, access, refresh) =>
      if access.Some? {
        BlacklistAligned(s.stores, env, access.value, t, s.lifetimes.refresh);
      }
      BlacklistAligned(RevokeAccess(s, env, access), env, refresh, t, s.lifetimes.refresh);
    case Authorize(token, active) =>
      CheckAligned(s.stores, env, token, t, s.lifetimes.refresh);
    case RevokeSession(user) =>
  }

  lemma SpentIsRefused(s: Sessions, step: Step, t: Token)
    requires SlotAligned(s.stores, step.env, t.user, s.lifetimes.refresh) && Spent(s.stores, t)
    ensures !Redeems(s, step, t)
  {
    CheckAligned(s.stores, step.env, t, t, s.lifetimes.refresh);
  }

  lemma {:induction false} SingleUseInvariant(l: Lifetimes, steps: seq<Step>, t: Token)
    requires Timed(steps) && StaysReachable(steps)
    ensures Redemptions(l, steps, t) <= 1
    ensures
      var s := Run(Initial(l), steps);
      Redemptions(l, steps, t) == 1 ==> t in s.issued && Spent(s.stores, t)
    ensures steps != [] ==> SlotAligned(Run(Initial(l), steps).stores, steps[|steps| - 1].env, t.user, l.refresh)
  {
    if steps != [] {
      var n := |steps| - 1;
      var before := steps[..n];
      SingleUseInvariant(l, before, t);
      RunWellFormed(l, before, 0, n);
      assert before[..n] == before;
      var s := Run(Initial(l), before);
      if n > 0 {
        assert before[n - 1] == steps[n - 1];
        assert steps[n - 1].env.up ==> steps[n].env.up;
      }
      assert SlotAligned(s.stores, steps[n].env, t.user, l.refresh);
      StepWellFormed(s, steps[n]);
      StepAligned(s, steps[n], t);
      if Redemptions(l, before, t) == 1 {
        SpentIsRefused(s, steps[n], t);
      }
    }
  }

  /**
   From empty stores, if Redis is unreachable for an initial stretch (possibly empty) and reachable from
   then on, every refresh token is redeemed at most once.
   */
  lemma SingleUse(l: Lifetimes, steps: seq<Step>, token: Token)
    requires Timed(steps) && StaysReachable(steps)
    ensures Redemptions(l, steps, token) <= 1
  {
    SingleUseInvariant(l, steps, token);
  }

  // ---- a fresh token works -------------------------------------------------------------------------

  /** What it takes to redeem, by the very next request, a token just issued from state `before`. */
  predicate Redeemable(before: Sessions, issue: Env, next: Env, token: Token) {
    && next.now < token.exp
    && (issue.up ==> next.up)
    && (!issue.up ==> next.now <= issue.now + before.lifetimes.refresh * 1000 - 1000)
    && (!issue.up && next.up ==> !Live(before.stores.redis, RefreshKey(token.user), next.now))
  }

  lemma ChecksOfUnlisted(s: Stores, env: Env, token: Token, user: UserId)
    requires Unlisted(s, token)
    ensures
      var (s', revoked) := IsTokenBlacklisted(s, env, token);
      !revoked && GetRefreshToken(s', env, user).1 == GetRefreshToken(s, env, user).1
  {
    var s1 := IsTokenBlacklisted(s, env, token).0;
    assert s1.redis == s.redis;
    assert Usable(s1.fallback, RefreshKey(user), env.now) == Usable(s.fallback, RefreshKey(user), env.now);
  }

  lemma StoredIsFound(s: Sessions, issue: Env, next: Env, user: UserId, token: Token)
    requires issue.now <= next.now && token == NewRefreshToken(s, user, issue.now)
    requires RefreshKey(user) in s.stores.redis ==> s.stores.redis[RefreshKey(user)].value != Stored(token)
    requires RefreshKey(user) in s.stores.fallback ==> s.stores.fallback[RefreshKey(user)].value != Stored(token)
    ensures
      var stored := StoreRefreshToken(s.stores, issue, user, token, s.lifetimes.refresh);
      next.now < token.exp && GetRefreshToken(stored, next, user).1 == Some(Stored(token)) <==>
        Redeemable(s, issue, next, token)
  {
  }

  lemma IssuedThenRefresh(s: Sessions, issue: Env, next: Env, user: UserId, active: bool)
    requires WellFormed(s) && issue.now <= next.now
    ensures
      var token := NewRefreshToken(s, user, issue.now);
      Redeems(IssueTokens(s, issue, user), Step(next, Refresh(token, active)), token) <==>
        active && Redeemable(s, issue, next, token)
  {
    hide Redeemable, GetRefreshToken, IsTokenBlacklisted, StoreRefreshToken, WellFormed;
    var token := NewRefreshToken(s, user, issue.now);
    NewIsUnknown(s, issue, user);
    ChecksOfUnlisted(StoreRefreshToken(s.stores, issue, user, token, s.lifetimes.refresh), next, token, user);
    StoredIsFound(s, issue, next, user, token);
  }

  /** The token is the user's and lives its configured lifetime from `now`, less the truncated milliseconds. */
  predicate LivesFrom(token: Token, user: UserId, kind: TokenKind, now: int, seconds: Seconds) {
    token.user == user && token.kind == kind && token.exp <= now + seconds * 1000 < token.exp + 1000
  }

  /**
   The token a login returns can be redeemed by the very next request exactly when that request falls
   within its lifetime and reads the store the login wrote. After an outage login, a reachable Redis
   must hold no older live token of this user, which would shadow the fallback.
   */
  lemma LoginThenRefresh(l: Lifetimes, steps: seq<Step>, login: Env, next: Env, user: UserId, active: bool)
    requires login.now <= next.now
    ensures
      var s, step := Run(Initial(l), steps), Step(login, Login(user));
      && Execute(s, step).1.Issued?
      && var token := Execute(s, step).1.refresh;
      && LivesFrom(token, user, RefreshToken, login.now, l.refresh)
      && (Redeems(After(s, step), Step(next, Refresh(token, active)), token) <==>
          active && Redeemable(s, login, next, token))
  {
    hide Run, Redeemable, Redeems, StoreRefreshToken, WellFormed;
    RunWellFormed(l, steps, 0, |steps|);
    assert steps[..|steps|] == steps;
    IssuedThenRefresh(Run(Initial(l), steps), login, next, user, active);
  }

  /** So can the token a refresh returns, under the very same condition: a rotation hands the session on. */
  lemma RotationThenRefresh(l: Lifetimes, steps: seq<Step>, step: Step, old_: Token, next: Env, active: bool)
    requires Redeems(Run(Initial(l), steps), step, old_) && step.env.now <= next.now
    ensures
      var s := Run(Initial(l), steps);
      var token := Execute(s, step).1.refresh;
      && LivesFrom(token, old_.user, RefreshToken, step.env.now, l.refresh)
      && (Redeems(After(s, step), Step(next, Refresh(token, active)), token) <==>
          active && Redeemable(s, step.env, next, token))
  {
    hide Run, WellFormed, Redeemable, GetRefreshToken, IsTokenBlacklisted, StoreRefreshToken, BlacklistRemaining;
    RunWellFormed(l, steps, 0, |steps|);
    assert steps[..|steps|] == steps;
    var s, env := Run(Initial(l), steps), step.env;
    var s1 := IsTokenBlacklisted(s.stores, env, old_).0;
    var s2 := GetRefreshToken(s1, env, old_.user).0;
    var spent := s.(stores := BlacklistRemaining(s2, env, old_));
    SpentWellFormed(s, env, old_);
    IssuedThenRefresh(spent, env, next, old_.user, active);
    SameRedeemable(s, env, next, old_, NewRefreshToken(s, old_.user, env.now));
  }

  lemma SpentWellFormed(s: Sessions, env: Env, token: Token)
    requires WellFormed(s) && token in s.issued
    ensures
      var s1 := IsTokenBlacklisted(s.stores, env, token).0;
      WellFormed(s.(stores := BlacklistRemaining(GetRefreshToken(s1, env, token.user).0, env, token)))
  {
    hide IsTokenBlacklisted, GetRefreshToken, BlacklistRemaining, KnownEntries;
    ReadsKnown(s.stores, env, token, token.user, s.issued);
    var s1 := IsTokenBlacklisted(s.stores, env, token).0;
    ReadsKnown(s1, env, token, token.user, s.issued);
    BlacklistKnown(GetRefreshToken(s1, env, token.user).0, env, token, s.issued);
  }

  lemma SameRedeemable(s: Sessions, env: Env, next: Env, spent: Token, token: Token)
    ensures
      var s1 := IsTokenBlacklisted(s.stores, env, spent).0;
      var after := s.(stores := BlacklistRemaining(GetRefreshToken(s1, env, spent.user).0, env, spent));
      Redeemable(after, env, next, token) <==> Redeemable(s, env, next, token)
  {
  }

  /** Neither store knows a token before it is signed, and storing it does not revoke it. */
  lemma NewIsUnknown(s: Sessions, env: Env, user: UserId)
    requires WellFormed(s)
    ensures
      var token, key := NewRefreshToken(s, user, env.now), RefreshKey(user);
      && token !in s.issued
      && (key in s.stores.redis ==> s.stores.redis[key].value != Stored(token))
      && (key in s.stores.fallback ==> s.stores.fallback[key].value != Stored(token))
      && Unlisted(StoreRefreshToken(s.stores, env, user, token, s.lifetimes.refresh), token)
  {
    assert Known(RefreshKey(user), Stored(NewRefreshToken(s, user, env.now)), s.issued) ==>
      NewRefreshToken(s, user, env.now) in s.issued;
  }

  /** Redis up, down, up: the login during the outage returns a token that the next request refuses. */
  lemma ShadowedLogin() returns (login: Step, outage: Step, next: Step, token: Token)
    ensures [login.env, outage.env, next.env] == [Env(0, true), Env(1000, false), Env(2000, true)]
    ensures login.request == outage.request == Login(7) && next.request == Refresh(token, true)
    ensures
      var s := Run(Initial(DEFAULTS), [login]);
      && Execute(s, outage).1.refresh == token && next.env.now < token.exp
      && Execute(After(s, outage), next).1 == Rejected
  {
    login, outage := Step(Env(0, true), Login(7)), Step(Env(1000, false), Login(7));
    var s := After(Initial(DEFAULTS), login);
    assert [login][..0] == [] && Run(Initial(DEFAULTS), []) == Initial(DEFAULTS);
    assert Run(Initial(DEFAULTS), [login]) == s;
    token := NewRefreshToken(s, 7, 1000);
    next := Step(Env(2000, true), Refresh(token, true));
    assert Live(s.stores.redis, RefreshKey(7), 2000);
    LoginThenRefresh(DEFAULTS, [login], outage.env, next.env, 7, true);
  }

  // ---- rotation --------------------------------------------------------------------------------------

  /** A refresh never hands back the token it was given, nor any other token signed before. */
  lemma RefreshRotates(l: Lifetimes, steps: seq<Step>, step: Step, token: Token)
    requires Redeems(Run(Initial(l), steps), step, token)
    ensures
      var s := Run(Initial(l), steps);
      var returned := Execute(s, step).1.refresh;
      && token in s.issued && returned !in s.issued && returned != token
      && returned.user == token.user && returned.id !in set t | t in s.issued :: t.id
  {
    RunWellFormed(l, steps, 0, |steps|);
    assert steps[..|steps|] == steps;
  }

  /** And a refresh does succeed, for every user and all lifetimes: right after the first login. */
  lemma FirstRefreshSucceeds(l: Lifetimes, env: Env, user: UserId) returns (token: Token)
    ensures
      var s := After(Initial(l), Step(env, Login(user)));
      Redeems(s, Step(env, Refresh(token, true)), token)
  {
    token := NewRefreshToken(Initial(l), user, env.now);
    LoginThenRefresh(l, [], env, env, user, true);
  }
}
