/**
 The two dictionaries answer as one. A blacklist entry, wherever it was written, is reported by every later
 check that reaches Redis until its last second, through any number of resyncs and prunings.
 */
module StoreAgreement {
  import opened Options
  import opened TokenStore

  datatype Call =
    | Store(user: UserId, token: Token, ttl: int)
    | Get(user: UserId)
    | Delete(user: UserId)
    | Blacklist(token: Token, ttl: int)
    | Check(token: Token)

  datatype TimedCall = At(env: Env, call: Call)

  function Apply(s: Stores, c: TimedCall): Stores {
    match c.call
    case Store(user, token, ttl) => StoreRefreshToken(s, c.env, user, token, ttl)
    case Get(user) => GetRefreshToken(s, c.env, user).0
    case Delete(user) => DeleteRefreshToken(s, c.env, user)
    case Blacklist(token, ttl) => BlacklistToken(s, c.env, token, ttl)
    case Check(token) => IsTokenBlacklisted(s, c.env, token).0
  }

  function ApplyAll(s: Stores, calls: seq<TimedCall>): Stores
    decreases |calls|
  {
    if calls == [] then s else ApplyAll(Apply(s, calls[0]), calls[1..])
  }

  // ---- what a revoked token leaves behind --------------------------------------------------------

  /** The fallback remembers, until `d`, that `t` is revoked. */
  ghost predicate FallbackGuard(s: Stores, t: Token, d: int) {
    BlacklistKey(t) in s.fallback && s.fallback[BlacklistKey(t)].expiresAt >= d
  }

  /** Redis remembers that `t` is revoked; an entry copied from the fallback may have lost almost a second. */
  ghost predicate RedisGuard(s: Stores, t: Token, d: int) {
    BlacklistKey(t) in s.redis && s.redis[BlacklistKey(t)].expiresAt > d - 1000
  }

  ghost predicate NoFallbackCopy(s: Stores, t: Token) {
    RefreshKey(t.user) in s.fallback ==> s.fallback[RefreshKey(t.user)].value != Stored(t)
  }

  ghost predicate Keeps(s: Stores, s': Stores, t: Token, d: int) {
    && (FallbackGuard(s, t, d) ==> FallbackGuard(s', t, d))
    && (RedisGuard(s, t, d) ==> RedisGuard(s', t, d))
    && (NoFallbackCopy(s, t) ==> NoFallbackCopy(s', t))
  }

  lemma CheckKeeps(s: Stores, env: Env, token: Token, t: Token, d: int)
    requires env.now <= d - 1000
    ensures Keeps(s, IsTokenBlacklisted(s, env, token).0, t, d)
  {
  }

  lemma GetKeeps(s: Stores, env: Env, user: UserId, t: Token, d: int)
    requires env.now <= d - 1000
    ensures Keeps(s, GetRefreshToken(s, env, user).0, t, d)
  {
  }

  lemma StoreKeeps(s: Stores, env: Env, user: UserId, token: Token, ttl: int, t: Token, d: int)
    requires env.now <= d - 1000 && token != t
    ensures Keeps(s, StoreRefreshToken(s, env, user, token, ttl), t, d)
  {
  }

  lemma DeleteKeeps(s: Stores, env: Env, user: UserId, t: Token, d: int)
    ensures Keeps(s, DeleteRefreshToken(s, env, user), t, d)
  {
  }

  // ---- agreement -----------------------------------------------------------------------------------

  /** The call does not replace a blacklist entry of `t` by one ending before `d`. */
  predicate DoesNotShorten(c: TimedCall, t: Token, d: int) {
    c.call.Blacklist? && c.call.token == t ==> c.call.ttl > 0 && c.env.now + c.call.ttl * 1000 >= d
  }

  ghost predicate Guarded(s: Stores, t: Token, d: int) {
    FallbackGuard(s, t, d) || RedisGuard(s, t, d)
  }

  lemma CallGuards(s: Stores, c: TimedCall, t: Token, d: int)
    requires Guarded(s, t, d) && c.env.now <= d - 1000 && DoesNotShorten(c, t, d)
    ensures Guarded(Apply(s, c), t, d)
  {
    match c.call
    case Store(user, token, ttl) =>
    case Get(user) => GetKeeps(s, c.env, user, t, d);
    case Delete(user) =>
    case Blacklist(token, ttl) =>
    case Check(token) => CheckKeeps(s, c.env, token, t, d);
  }

  lemma {:induction false} CallsGuard(s: Stores, calls: seq<TimedCall>, t: Token, d: int)
    requires Guarded(s, t, d)
    requires forall c | c in calls :: c.env.now <= d - 1000 && DoesNotShorten(c, t, d)
    ensures Guarded(ApplyAll(s, calls), t, d)
    decreases |calls|
  {
    if calls != [] {
      CallGuards(s, calls[0], t, d);
      CallsGuard(Apply(s, calls[0]), calls[1..], t, d);
    }
  }

  /**
   Blacklisted for `ttl` seconds, with Redis up or down; then any calls at all, with Redis up or down at
   each, that do not cut the entry short. A check that reaches Redis up to one second before the end says
   yes, before and after its own resync.
   */
  lemma BlacklistedIsReported(s: Stores, write: Env, token: Token, ttl: int, calls: seq<TimedCall>, read: Env)
    requires ttl > 0 && read.up
    requires read.now <= write.now + ttl * 1000 - 1000
    requires forall c | c in calls :: c.env.now <= read.now && DoesNotShorten(c, token, write.now + ttl * 1000)
    ensures
      var s' := ApplyAll(BlacklistToken(s, write, token, ttl), calls);
      && IsTokenBlacklisted(s', read, token).1
      && IsTokenBlacklisted(IsTokenBlacklisted(s', read, token).0, read, token).1
  {
    var d := write.now + ttl * 1000;
    var s1 := BlacklistToken(s, write, token, ttl);
    CallsGuard(s1, calls, token, d);
    var s' := ApplyAll(s1, calls);
    CallGuards(s', At(read, Check(token)), token, d);
  }

  ghost predicate Unlisted(s: Stores, t: Token) {
    BlacklistKey(t) !in s.redis && BlacklistKey(t) !in s.fallback
  }

  /** A token no call ever blacklisted is never reported, whatever else was stored, read or deleted. */
  lemma {:induction false} UnlistedIsNotReported(s: Stores, calls: seq<TimedCall>, token: Token, read: Env)
    requires Unlisted(s, token)
    requires forall c | c in calls :: !(c.call.Blacklist? && c.call.token == token)
    ensures !IsTokenBlacklisted(ApplyAll(s, calls), read, token).1
    decreases |calls|
  {
    if calls != [] {
      assert Unlisted(Apply(s, calls[0]), token);
      UnlistedIsNotReported(Apply(s, calls[0]), calls[1..], token, read);
    }
  }

  // ---- resyncs ---------------------------------------------------------------------------------------

  /** Redis holds what the fallback held, for at most a second less. */
  ghost predicate Copied(before: Stores, after: Stores, key: Key, now: int) {
    && key in before.fallback && Live(after.redis, key, now)
    && after.redis[key].value == before.fallback[key].value
    && before.fallback[key].expiresAt - 1000 < after.redis[key].expiresAt <= before.fallback[key].expiresAt
  }

  /**
   A read that reaches Redis and finds its key in the fallback alone, with a whole second left, copies it: from
   then on Redis answers by itself. Any other read leaves Redis as it was.
   */
  lemma ReadsResync(s: Stores, env: Env, token: Token, user: UserId)
    ensures
      var key, after := BlacklistKey(token), IsTokenBlacklisted(s, env, token).0;
      if env.up && !Live(s.redis, key, env.now) && Usable(s.fallback, key, env.now)
      then Copied(s, after, key, env.now) else after.redis == s.redis
    ensures
      var key, after := RefreshKey(user), GetRefreshToken(s, env, user).0;
      if env.up && !Live(s.redis, key, env.now) && Usable(s.fallback, key, env.now)
      then Copied(s, after, key, env.now) else after.redis == s.redis
  {
  }

  // ---- key texts -----------------------------------------------------------------------------------

  /** The text of a key, given the text of user ids and tokens. */
  function KeyText(key: Key, userText: UserId -> string, tokenText: Token -> string): string {
    match key
    case RefreshKey(user) => "refresh_token:" + userText(user)
    case BlacklistKey(token) => "blacklist:" + tokenText(token)
  }

  /** Distinct keys have distinct texts, so one dictionary can serve both purposes. */
  lemma KeyTextsDistinct(a: Key, b: Key, userText: UserId -> string, tokenText: Token -> string)
    requires forall u, v | userText(u) == userText(v) :: u == v
    requires forall t, u | tokenText(t) == tokenText(u) :: t == u
    requires KeyText(a, userText, tokenText) == KeyText(b, userText, tokenText)
    ensures a == b
  {
    var x := KeyText(a, userText, tokenText);
    assert a.RefreshKey? ==> x[0] == 'r';
    assert a.BlacklistKey? ==> x[0] == 'b';
    if a.RefreshKey? {
      assert x[14..] == userText(a.user) == userText(b.user);
    } else {
      assert x[10..] == tokenText(a.token) == tokenText(b.token);
    }
  }
}
