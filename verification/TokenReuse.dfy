/**
 When a refresh token that was already redeemed, or logged out, is accepted again, over whole runs with arbitrary
 outages and at every instant of the token's life. There are two ways, and each does arise: a fallback copy
 outlives a redemption made in Redis, or a Redis copy outlives the revocation mark made in an outage.
 */
module TokenReuse {
  import opened Options
  import opened TokenStore
  import opened AuthSessions
  import opened StoreAgreement
  import opened SessionSafety

  // ---- what the redemption leaves in the two stores, for the rest of the token's life -----------------

  /** No copy of the token is in Redis, and one in the fallback is shadowed by a Redis entry that outlives the token. */
  ghost predicate Shadowed(s: Stores, t: Token) {
    var key := RefreshKey(t.user);
    && (key in s.redis ==> s.redis[key].value != Stored(t))
    && (NoFallbackCopy(s, t) || (key in s.redis && s.redis[key].expiresAt >= t.exp))
  }

  ghost predicate Persists(s: Stores, s': Stores, t: Token) {
    (Shadowed(s, t) ==> Shadowed(s', t)) && (NoFallbackCopy(s, t) ==> NoFallbackCopy(s', t))
  }

  lemma CheckPersists(s: Stores, env: Env, token: Token, t: Token)
    ensures Persists(s, IsTokenBlacklisted(s, env, token).0, t)
  {
  }

  lemma GetPersists(s: Stores, env: Env, user: UserId, t: Token)
    requires env.now < t.exp
    ensures Persists(s, GetRefreshToken(s, env, user).0, t)
  {
  }

  lemma BlacklistPersists(s: Stores, env: Env, token: Token, t: Token)
    ensures Persists(s, BlacklistRemaining(s, env, token), t)
  {
  }

  lemma StorePersists(s: Stores, env: Env, user: UserId, token: Token, ttl: Seconds, t: Token)
    requires token != t && t.exp <= env.now + ttl * 1000
    ensures Persists(s, StoreRefreshToken(s, env, user, token, ttl), t)
  {
  }

  lemma DeletePersists(s: Stores, env: Env, user: UserId, t: Token)
    ensures Persists(s, DeleteRefreshToken(s, env, user), t)
  {
  }

  lemma StepPersists(s: Sessions, step: Step, t: Token)
    requires WellFormed(s) && t in s.issued
    requires step.env.now < t.exp <= step.env.now + s.lifetimes.refresh * 1000
    ensures Persists(s.stores, After(s, step).stores, t)
  {
    hide Shadowed, NoFallbackCopy, IsTokenBlacklisted, GetRefreshToken, StoreRefreshToken, DeleteRefreshToken,
      BlacklistRemaining;
    var env, ttl := step.env, s.lifetimes.refresh;
    match step.request
    case Login(user) =>
      StorePersists(s.stores, env, user, NewRefreshToken(s, user, env.now), ttl, t);
    case Refresh(token, active) =>
      CheckPersists(s.stores, env, token, t);
      var s1 := IsTokenBlacklisted(s.stores, env, token).0;
      GetPersists(s1, env, token.user, t);
      var s2 := GetRefreshToken(s1, env, token.user).0;
      BlacklistPersists(s2, env, token, t);
      var successor := NewRefreshToken(s, token.user, env.now);
      StorePersists(BlacklistRemaining(s2, env, token), env, token.user, successor, ttl, t);
    case Logout(user, access, refresh) =>
      var s1 := RevokeAccess(s, env, access);
      if access.Some? {
        BlacklistPersists(s.stores, env, access.value, t);
      }
      BlacklistPersists(s1, env, refresh, t);
      DeletePersists(Revoke(s, s1, env, refresh, RefreshToken), env, user, t);
    case Authorize(token, active) =>
      CheckPersists(s.stores, env, token, t);
    case RevokeSession(user) =>
      DeletePersists(s.stores, env, user, t);
  }

  lemma {:induction false} RunPersists(l: Lifetimes, steps: seq<Step>, i: nat, j: nat, t: Token)
    requires i <= j <= |steps| && Timed(steps) && t in StateAt(l, steps, i).issued
    requires forall k | i <= k < j :: steps[k].env.now < t.exp <= steps[k].env.now + l.refresh * 1000
    ensures Persists(StateAt(l, steps, i).stores, StateAt(l, steps, j).stores, t)
    decreases j
  {
    hide Shadowed, NoFallbackCopy, After, Run;
    if i < j {
      RunPersists(l, steps, i, j - 1, t);
      RunWellFormed(l, steps, i, j - 1);
      StateAtNext(l, steps, j - 1);
      StepPersists(StateAt(l, steps, j - 1), steps[j - 1], t);
    }
  }

  /** A refresh token expires within one lifetime of every later instant. */
  lemma {:induction false} ExpiresInTime(l: Lifetimes, steps: seq<Step>, k: nat, t: Token, now: int)
    requires k <= |steps| && Timed(steps) && t in StateAt(l, steps, k).issued && t.kind == RefreshToken
    requires k > 0 ==> steps[k - 1].env.now <= now
    ensures t.exp <= now + l.refresh * 1000
  {
    if k > 0 {
      var before := StateAt(l, steps, k - 1);
      StateAtNext(l, steps, k - 1);
      RunWellFormed(l, steps, k - 1, k - 1);
      if t in before.issued {
        assert k > 1 ==> steps[k - 2].env.now <= steps[k - 1].env.now;
        ExpiresInTime(l, steps, k - 1, t, now);
      } else {
        OnlyIssueSigns(before, steps[k - 1], t);
      }
    }
  }

  lemma OnlyIssueSigns(s: Sessions, step: Step, t: Token)
    requires t !in s.issued && t in After(s, step).issued && t.kind == RefreshToken
    ensures t.exp == ExpiryClaim(step.env.now, s.lifetimes.refresh)
  {
  }

  // ---- exactly when a redeemed token is accepted again -------------------------------------------------

  lemma RedemptionLeaves(s: Sessions, step: Step, t: Token)
    requires WellFormed(s) && Redeems(s, step, t) && t.exp <= step.env.now + s.lifetimes.refresh * 1000
    ensures
      var s' := After(s, step).stores;
      && t in s.issued && t.kind == RefreshToken
      && (if step.env.up then Shadowed(s', t) else NoFallbackCopy(s', t))
  {
  }

  lemma RedemptionRevokes(s: Sessions, step: Step, t: Token)
    requires WellFormed(s) && Redeems(s, step, t) && step.env.now <= t.exp - 2000
    ensures
      var s' := After(s, step).stores;
      if step.env.up then RedisGuard(s', t, t.exp - 999) else FallbackGuard(s', t, t.exp - 999)
  {
  }

  /** First redeemed through Redis: the fallback still answers with the token and knows no revocation. */
  predicate FallbackAnswers(s: Stores, t: Token, now: int) {
    && !Live(s.fallback, BlacklistKey(t), now)
    && Usable(s.fallback, RefreshKey(t.user), now) && s.fallback[RefreshKey(t.user)].value == Stored(t)
  }

  /** First redeemed in an outage: Redis still answers with the token, and no store reports the revocation. */
  predicate RedisAnswers(s: Stores, t: Token, now: int) {
    && !Live(s.redis, BlacklistKey(t), now) && !Usable(s.fallback, BlacklistKey(t), now)
    && Live(s.redis, RefreshKey(t.user), now) && s.redis[RefreshKey(t.user)].value == Stored(t)
  }

  lemma AcceptedFrom(s: Sessions, step: Step, t: Token, active: bool, throughRedis: bool)
    requires step.request == Refresh(t, active) && t in s.issued && t.kind == RefreshToken
    requires if throughRedis then Shadowed(s.stores, t) else NoFallbackCopy(s.stores, t)
    ensures Redeems(s, step, t) <==>
      && active && step.env.now < t.exp && step.env.up != throughRedis
      && if throughRedis then FallbackAnswers(s.stores, t, step.env.now) else RedisAnswers(s.stores, t, step.env.now)
  {
  }

  /** A mark left at least two seconds before expiry is reported until two seconds before expiry. */
  lemma MarkIsSeen(l: Lifetimes, steps: seq<Step>, i: nat, j: nat, token: Token)
    requires Timed(steps) && i < j < |steps| && !steps[i].env.up && steps[j].env.up
    requires Redeems(StateAt(l, steps, i), steps[i], token) && steps[j].env.now <= token.exp - 2000
    ensures !RedisAnswers(StateAt(l, steps, j).stores, token, steps[j].env.now)
  {
    hide Run, Redeems, RedisAnswers, WellFormed;
    var d := token.exp - 999;
    assert steps[i].env.now <= steps[j].env.now;
    RunWellFormed(l, steps, i, i);
    RedemptionRevokes(StateAt(l, steps, i), steps[i], token);
    RedeemedVerifies(StateAt(l, steps, i), steps[i], token);
    StateAtNext(l, steps, i);
    RunWellFormed(l, steps, i, i + 1);
    assert j > i + 1 ==> steps[j - 1].env.now <= steps[j].env.now;
    RunKeeps(l, steps, i + 1, j, token, d);
    GuardIsSeen(StateAt(l, steps, j).stores, token, steps[j].env.now, d);
  }

  lemma GuardIsSeen(s: Stores, t: Token, now: int, d: int)
    requires FallbackGuard(s, t, d) && now <= d - 1000
    ensures !RedisAnswers(s, t, now)
  {
  }

  lemma RedeemedVerifies(s: Sessions, step: Step, t: Token)
    requires Redeems(s, step, t)
    ensures t in s.issued && t.kind == RefreshToken && step.env.now < t.exp
  {
  }

  /**
   Under arbitrary outages and at any instant, a redeemed token is accepted again in exactly two cases, each
   across a change of Redis's availability. Redeemed through Redis: only in an outage, while the fallback
   holds the copy it was given in an earlier outage and no mark of its own. Redeemed in an outage: only in
   the last two seconds before expiry, with Redis back, holding an earlier copy, and the mark gone or, the
   remaining lifetime having been truncated to whole seconds, never made.
   */
  lemma ReuseExactly(l: Lifetimes, steps: seq<Step>, i: nat, j: nat, token: Token, active: bool)
    requires Timed(steps) && i < j < |steps|
    requires Redeems(StateAt(l, steps, i), steps[i], token)
    requires steps[j].request == Refresh(token, active)
    ensures
      var before, now := StateAt(l, steps, j).stores, steps[j].env.now;
      Redeems(StateAt(l, steps, j), steps[j], token) <==>
        && active && now < token.exp && steps[j].env.up != steps[i].env.up
        && if steps[i].env.up then FallbackAnswers(before, token, now)
           else now > token.exp - 2000 && RedisAnswers(before, token, now)
  {
    hide Run, Redeems, Persists, WellFormed, FallbackAnswers, RedisAnswers;
    var first := steps[i].env;
    assert first.now <= steps[j].env.now;
    RedeemedVerifies(StateAt(l, steps, i), steps[i], token);
    assert i > 0 ==> steps[i - 1].env.now <= first.now;
    ExpiresInTime(l, steps, i, token, first.now);
    RunWellFormed(l, steps, i, i);
    RedemptionLeaves(StateAt(l, steps, i), steps[i], token);
    StateAtNext(l, steps, i);
    RunWellFormed(l, steps, i, i + 1);
    RunWellFormed(l, steps, i + 1, j);
    if steps[j].env.now < token.exp {
      assert forall k | i + 1 <= k < j :: first.now <= steps[k].env.now <= steps[j].env.now;
      RunPersists(l, steps, i + 1, j, token);
      AcceptedFrom(StateAt(l, steps, j), steps[j], token, active, first.up) by {
        assert Persists(StateAt(l, steps, i + 1).stores, StateAt(l, steps, j).stores, token);
        PersistsGives(StateAt(l, steps, i + 1).stores, StateAt(l, steps, j).stores, token);
      }
      if !first.up && steps[j].env.up && steps[j].env.now <= token.exp - 2000 {
        MarkIsSeen(l, steps, i, j, token);
      }
    } else {
      ExpiredIsRefused(StateAt(l, steps, j), steps[j], token);
    }
  }

  lemma LogoutLeaves(s: Sessions, env: Env, access: Option<Token>, t: Token)
    ensures
      var s' := LogoutUser(s, env, t.user, access, t).stores;
      NoFallbackCopy(s', t) && (env.up ==> Shadowed(s', t))
  {
  }

  /**
   What logout_user leaves open, at any instant: a token logged out with Redis up is never accepted again;
   one logged out in an outage only in the last two seconds before expiry, with Redis back, still holding it,
   and no store reporting a mark.
   */
  lemma LoggedOutReuseExactly(
    l: Lifetimes, steps: seq<Step>, i: nat, j: nat, access: Option<Token>, token: Token, active: bool)
    requires Timed(steps) && i < j < |steps|
    requires token in StateAt(l, steps, i).issued && token.kind == RefreshToken
    requires steps[i].request == Logout(token.user, access, token)
    requires steps[j].request == Refresh(token, active)
    ensures
      var before, now := StateAt(l, steps, j).stores, steps[j].env.now;
      Redeems(StateAt(l, steps, j), steps[j], token) <==>
        && active && token.exp - 2000 < now < token.exp
        && !steps[i].env.up && steps[j].env.up && RedisAnswers(before, token, now)
  {
    hide Run, Redeems, Persists, WellFormed, Shadowed, RedisAnswers;
    var out, s := steps[i].env, StateAt(l, steps, j);
    assert out.now <= steps[j].env.now;
    StateAtNext(l, steps, i);
    RunWellFormed(l, steps, i, i + 1);
    RunWellFormed(l, steps, i + 1, j);
    LogoutLeaves(StateAt(l, steps, i), out, access, token);
    assert i > 0 ==> steps[i - 1].env.now <= out.now;
    ExpiresInTime(l, steps, i, token, out.now);
    if steps[j].env.now < token.exp {
      assert forall k | i + 1 <= k < j :: out.now <= steps[k].env.now <= steps[j].env.now;
      RunPersists(l, steps, i + 1, j, token);
      PersistsGives(StateAt(l, steps, i + 1).stores, s.stores, token);
      AcceptedFrom(s, steps[j], token, active, out.up);
      if steps[j].env.now <= token.exp - 2000 {
        LogoutIsFinal(l, steps, i, j, access, token);
      }
    } else {
      ExpiredIsRefused(s, steps[j], token);
    }
  }

  lemma PersistsGives(s: Stores, s': Stores, t: Token)
    requires Persists(s, s', t)
    ensures Shadowed(s, t) ==> Shadowed(s', t)
    ensures NoFallbackCopy(s, t) ==> NoFallbackCopy(s', t)
  {
  }

  lemma ExpiredIsRefused(s: Sessions, step: Step, t: Token)
    requires step.env.now >= t.exp
    ensures !Redeems(s, step, t)
  {
  }

  // ---- both cases arise ---------------------------------------------------------------------------------

  lemma RunNext(steps: seq<Step>, step: Step, t: Token)
    ensures Run(Initial(DEFAULTS), steps + [step]) == After(Run(Initial(DEFAULTS), steps), step)
    ensures Redemptions(DEFAULTS, steps + [step], t) ==
      Redemptions(DEFAULTS, steps, t) + if Redeems(Run(Initial(DEFAULTS), steps), step, t) then 1 else 0
  {
    assert (steps + [step])[..|steps|] == steps;
  }

  const WEEK_MS := 7 * 24 * 60 * 60 * 1000
  const WITNESS := Token(RefreshToken, 1, 7, WEEK_MS)

  /** Only the fallback holds the token: what a login during an outage leaves. */
  ghost predicate OnlyInFallback(s: Sessions) {
    && WITNESS in s.issued
    && s.stores.fallback == map[RefreshKey(7) := Entry(Stored(WITNESS), WEEK_MS)]
  }

  lemma OutageLogin()
    ensures
      var s := After(Initial(DEFAULTS), Step(Env(0, false), Login(7)));
      OnlyInFallback(s) && s.stores.redis == map[]
  {
  }

  lemma FallbackCopyRedeems(s: Sessions, env: Env)
    requires OnlyInFallback(s) && 0 <= env.now <= 2000
    requires env.up ==> s.stores.redis == map[]
    ensures Redeems(s, Step(env, Refresh(WITNESS, true)), WITNESS)
    ensures env.up ==> OnlyInFallback(After(s, Step(env, Refresh(WITNESS, true))))
  {
    var s1 := IsTokenBlacklisted(s.stores, env, WITNESS).0;
    assert s1.fallback == s.stores.fallback;
  }

  /** The first case: issued in one outage, redeemed after recovery, accepted again in the next. */
  lemma SecondOutageReuse() returns (steps: seq<Step>)
    ensures Timed(steps) && |steps| == 3
    ensures [steps[0].env.up, steps[1].env.up, steps[2].env.up] == [false, true, false]
    ensures Redemptions(DEFAULTS, steps, WITNESS) == 2
  {
    var s0 := Step(Env(0, false), Login(7));
    var s1 := Step(Env(1000, true), Refresh(WITNESS, true));
    var s2 := Step(Env(2000, false), Refresh(WITNESS, true));
    steps := [s0] + [s1] + [s2];
    RunNext([], s0, WITNESS);
    RunNext([s0], s1, WITNESS);
    RunNext([s0] + [s1], s2, WITNESS);
    assert [] + [s0] == [s0];
    NothingRedeemed(WITNESS);
    hide Run, Redemptions, After;
    OutageLogin();
    FallbackCopyRedeems(After(Initial(DEFAULTS), s0), s1.env);
    FallbackCopyRedeems(After(After(Initial(DEFAULTS), s0), s1), s2.env);
  }

  lemma NothingRedeemed(t: Token)
    ensures Run(Initial(DEFAULTS), []) == Initial(DEFAULTS) && Redemptions(DEFAULTS, [], t) == 0
  {
  }

  const LATE_WITNESS := Token(RefreshToken, 3, 7, WEEK_MS)

  /** The token of a second outage login, less than a second after the first one. */
  lemma TwoOutageLogins()
    ensures
      var s := After(After(Initial(DEFAULTS), Step(Env(0, false), Login(7))), Step(Env(999, false), Login(7)));
      && {WITNESS, LATE_WITNESS} <= s.issued && s.lifetimes == DEFAULTS
      && s.stores == Stores(map[], map[RefreshKey(7) := Entry(Stored(LATE_WITNESS), WEEK_MS + 999)])
  {
    var s := After(Initial(DEFAULTS), Step(Env(0, false), Login(7)));
    assert s.stores == Stores(map[], map[RefreshKey(7) := Entry(Stored(WITNESS), WEEK_MS)]);
    assert Pruned(s.stores.fallback, 999) == s.stores.fallback;
  }

  /** Both stores hold the token; this is what a refused refresh with the older token makes of it. */
  ghost predicate InBothStores(s: Sessions) {
    && LATE_WITNESS in s.issued && s.lifetimes == DEFAULTS
    && s.stores.redis == map[RefreshKey(7) := Entry(Stored(LATE_WITNESS), WEEK_MS + 998)]
    && s.stores.fallback == map[RefreshKey(7) := Entry(Stored(LATE_WITNESS), WEEK_MS + 999)]
  }

  lemma OldTokenResyncs(s: Sessions)
    requires {WITNESS, LATE_WITNESS} <= s.issued && s.lifetimes == DEFAULTS
    requires s.stores == Stores(map[], map[RefreshKey(7) := Entry(Stored(LATE_WITNESS), WEEK_MS + 999)])
    ensures
      var step := Step(Env(1998, true), Refresh(WITNESS, true));
      InBothStores(After(s, step)) && !Redeems(s, step, LATE_WITNESS)
  {
    var env := Env(1998, true);
    var s1 := IsTokenBlacklisted(s.stores, env, WITNESS).0;
    assert s1 == s.stores;
    var s2 := GetRefreshToken(s1, env, 7).0;
    assert s2.redis == map[RefreshKey(7) := Entry(Stored(LATE_WITNESS), WEEK_MS + 998)];
    assert s2.fallback == s.stores.fallback;
  }

  /** Redeemed from the fallback half a second before expiry: no whole second is left to blacklist it for. */
  lemma LastSecondRedeems(s: Sessions)
    requires InBothStores(s)
    ensures
      var step := Step(Env(WEEK_MS - 500, false), Refresh(LATE_WITNESS, true));
      var s' := After(s, step);
      && Redeems(s, step, LATE_WITNESS) && LATE_WITNESS in s'.issued && s'.stores.redis == s.stores.redis
      && Unlisted(s'.stores, LATE_WITNESS)
  {
    var env := Env(WEEK_MS - 500, false);
    var s1 := IsTokenBlacklisted(s.stores, env, LATE_WITNESS).0;
    assert s1 == s.stores;
    assert Usable(s1.fallback, RefreshKey(7), env.now);
    assert GetRefreshToken(s1, env, 7) == (s1, Some(Stored(LATE_WITNESS)));
  }

  lemma RedisCopyRedeems(s: Sessions)
    requires LATE_WITNESS in s.issued && Unlisted(s.stores, LATE_WITNESS)
    requires s.stores.redis == map[RefreshKey(7) := Entry(Stored(LATE_WITNESS), WEEK_MS + 998)]
    ensures Redeems(s, Step(Env(WEEK_MS - 200, true), Refresh(LATE_WITNESS, true)), LATE_WITNESS)
  {
  }

  /** Two logins in an outage, then a refused refresh with the older token once Redis is back. */
  function UntilResync(): seq<Step> {
    [Step(Env(0, false), Login(7))] + [Step(Env(999, false), Login(7))]
      + [Step(Env(1998, true), Refresh(WITNESS, true))]
  }

  lemma UntilResyncHolds()
    ensures InBothStores(Run(Initial(DEFAULTS), UntilResync()))
    ensures Redemptions(DEFAULTS, UntilResync(), LATE_WITNESS) == 0
  {
    hide Run, Redemptions, After, Redeems, InBothStores;
    var s0, s1 := Step(Env(0, false), Login(7)), Step(Env(999, false), Login(7));
    RunNext([], s0, LATE_WITNESS);
    RunNext([s0], s1, LATE_WITNESS);
    RunNext([s0] + [s1], Step(Env(1998, true), Refresh(WITNESS, true)), LATE_WITNESS);
    assert [] + [s0] == [s0];
    NothingRedeemed(LATE_WITNESS);
    LoginDoesNotRedeem(Initial(DEFAULTS), s0, LATE_WITNESS);
    LoginDoesNotRedeem(After(Initial(DEFAULTS), s0), s1, LATE_WITNESS);
    TwoOutageLogins();
    OldTokenResyncs(After(After(Initial(DEFAULTS), s0), s1));
  }

  /** The second case: resynced to Redis, redeemed in an outage in its last second, accepted again by Redis. */
  lemma LastSecondReuse() returns (steps: seq<Step>)
    ensures Timed(steps) && |steps| == 5
    ensures !steps[3].env.up && steps[4].env.up && steps[4].env.now < LATE_WITNESS.exp < steps[3].env.now + 1000
    ensures Redemptions(DEFAULTS, steps, LATE_WITNESS) == 2
  {
    hide Run, Redemptions, After, Redeems, InBothStores;
    var prefix := UntilResync();
    var s3 := Step(Env(WEEK_MS - 500, false), Refresh(LATE_WITNESS, true));
    var s4 := Step(Env(WEEK_MS - 200, true), Refresh(LATE_WITNESS, true));
    steps := prefix + [s3] + [s4];
    RunNext(prefix, s3, LATE_WITNESS);
    RunNext(prefix + [s3], s4, LATE_WITNESS);
    UntilResyncHolds();
    var s := Run(Initial(DEFAULTS), prefix);
    LastSecondRedeems(s);
    InBothRedis(s);
    RedisCopyRedeems(After(s, s3));
  }

  lemma InBothRedis(s: Sessions)
    requires InBothStores(s)
    ensures s.stores.redis == map[RefreshKey(7) := Entry(Stored(LATE_WITNESS), WEEK_MS + 998)]
  {
  }

  lemma LastSecondLogout(s: Sessions)
    requires InBothStores(s)
    ensures
      var s' := After(s, Step(Env(WEEK_MS - 500, false), Logout(7, None, LATE_WITNESS)));
      LATE_WITNESS in s'.issued && s'.stores.redis == s.stores.redis && Unlisted(s'.stores, LATE_WITNESS)
  {
  }

  /** That case of a logout arises too: logged out in an outage in the token's last second, then accepted by Redis. */
  lemma LoggedOutReuse() returns (steps: seq<Step>)
    ensures Timed(steps) && |steps| == 5
    ensures steps[3].request == Logout(7, None, LATE_WITNESS) && !steps[3].env.up
    ensures steps[4].env.up && steps[4].env.now < LATE_WITNESS.exp
    ensures Redeems(Run(Initial(DEFAULTS), steps[..4]), steps[4], LATE_WITNESS)
  {
    hide Run, After, Redeems, InBothStores;
    var prefix := UntilResync();
    var s3 := Step(Env(WEEK_MS - 500, false), Logout(7, None, LATE_WITNESS));
    var s4 := Step(Env(WEEK_MS - 200, true), Refresh(LATE_WITNESS, true));
    steps := prefix + [s3] + [s4];
    RunNext(prefix, s3, LATE_WITNESS);
    assert steps[..4] == prefix + [s3];
    UntilResyncHolds();
    var s := Run(Initial(DEFAULTS), prefix);
    LastSecondLogout(s);
    InBothRedis(s);
    RedisCopyRedeems(After(s, s3));
  }

  lemma LoginDoesNotRedeem(s: Sessions, step: Step, t: Token)
    requires step.request.Login?
    ensures !Redeems(s, step, t)
  {
  }
}
