/**
 The token store of app/redis_client.py: Redis, with an in-process fallback dictionary used while Redis
 is unreachable and copied back ("resynced") on the first read after recovery.

 Times are integer milliseconds; TTLs are whole seconds. Whether Redis answers, and what the clock says,
 is fixed for the duration of one request and passed in as an `Env`.
 */
module TokenStore {
  import opened Options

  type UserId = nat

  datatype TokenKind = AccessToken | RefreshToken

  /** A signed token: its unique id (jti), its owner and the instant it expires, in milliseconds. */
  datatype Token = Token(kind: TokenKind, id: nat, user: UserId, exp: int)

  datatype Key = RefreshKey(user: UserId) | BlacklistKey(token: Token)

  /** Stored values: the token text under a refresh key, the marker "1" under a blacklist key. */
  datatype Value = Stored(token: Token) | Marker

  datatype Entry = Entry(value: Value, expiresAt: int)

  type Table = map<Key, Entry>

  datatype Stores = Stores(redis: Table, fallback: Table)

  datatype Env = Env(now: int, up: bool)

  predicate Live(t: Table, key: Key, now: int) {
    key in t && t[key].expiresAt > now
  }

  /** Whole seconds an entry has left, as int(expires_at - now) computes them for an unexpired entry. */
  function SecondsLeft(expiresAt: int, now: int): int {
    (expiresAt - now) / 1000
  }

  /** A fallback entry that a TTL-reporting read would still hand out: at least one whole second left. */
  predicate Usable(t: Table, key: Key, now: int) {
    Live(t, key, now) && SecondsLeft(t[key].expiresAt, now) > 0
  }

  // ---- the two dictionaries -------------------------------------------------------------------

  function SetEx(t: Table, key: Key, value: Value, ttl: int, now: int): Table {
    t[key := Entry(value, now + ttl * 1000)]
  }

  function Pruned(t: Table, now: int): Table {
    map key | key in t && t[key].expiresAt > now :: t[key]
  }

  function FallbackSet(t: Table, key: Key, value: Value, ttl: int, now: int): Table {
    if ttl <= 0 then Pruned(t, now) - {key} else SetEx(Pruned(t, now), key, value, ttl, now)
  }

  /** The fallback after a TTL-reporting read: pruned, and without an entry in its last second. */
  function AfterTtlRead(t: Table, key: Key, now: int): Table {
    if Usable(t, key, now) then Pruned(t, now) else Pruned(t, now) - {key}
  }

  // ---- the operations on both stores ------------------------------------------------------------

  /** setex on Redis; an unreachable Redis, or one refusing a non-positive TTL, means the fallback. */
  function Put(s: Stores, env: Env, key: Key, value: Value, ttl: int): Stores {
    if env.up && ttl > 0 then s.(redis := SetEx(s.redis, key, value, ttl, env.now))
    else s.(fallback := FallbackSet(s.fallback, key, value, ttl, env.now))
  }

  /** A read of the fallback behind a Redis miss: what it finds is copied to Redis with its remaining TTL. */
  function ReadThrough(s: Stores, env: Env, key: Key): Stores {
    var fallback := AfterTtlRead(s.fallback, key, env.now);
    if Usable(s.fallback, key, env.now) then
      var entry := s.fallback[key];
      Stores(SetEx(s.redis, key, entry.value, SecondsLeft(entry.expiresAt, env.now), env.now), fallback)
    else
      Stores(s.redis, fallback)
  }

  function StoreRefreshToken(s: Stores, env: Env, user: UserId, token: Token, ttl: int): Stores {
    Put(s, env, RefreshKey(user), Stored(token), ttl)
  }

  function GetRefreshToken(s: Stores, env: Env, user: UserId): (Stores, Option<Value>) {
    var key := RefreshKey(user);
    var fromFallback := if Usable(s.fallback, key, env.now) then Some(s.fallback[key].value) else None;
    if !env.up then (s.(fallback := AfterTtlRead(s.fallback, key, env.now)), fromFallback)
    else if Live(s.redis, key, env.now) then (s, Some(s.redis[key].value))
    else (ReadThrough(s, env, key), fromFallback)
  }

  function DeleteRefreshToken(s: Stores, env: Env, user: UserId): Stores {
    var key := RefreshKey(user);
    Stores(if env.up then s.redis - {key} else s.redis, s.fallback - {key})
  }

  function BlacklistToken(s: Stores, env: Env, token: Token, ttl: int): Stores {
    Put(s, env, BlacklistKey(token), Marker, ttl)
  }

  function IsTokenBlacklisted(s: Stores, env: Env, token: Token): (Stores, bool) {
    var key := BlacklistKey(token);
    if !env.up then (s.(fallback := Pruned(s.fallback, env.now)), Live(s.fallback, key, env.now))
    else if Live(s.redis, key, env.now) then (s, true)
    else (ReadThrough(s, env, key), Usable(s.fallback, key, env.now))
  }
}
