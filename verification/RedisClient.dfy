/**
 The functions of app/redis_client.py as methods that update the two dictionaries in place, each proved
 to make exactly the state change that TokenStore describes.
 */
module RedisClient {
  import opened Options
  import opened TokenStore

  class Client {
    var redis: Table
    var fallback: Table

    constructor ()
      ensures State() == Stores(map[], map[])
    {
      redis, fallback := map[], map[];
    }

    function State(): Stores
      reads this
    {
      Stores(redis, fallback)
    }

    method FallbackPruneExpired(now: int)
      modifies this`fallback
      ensures fallback == Pruned(old(fallback), now)
    {
      var expired := set key | key in fallback && fallback[key].expiresAt <= now;
      ghost var before := fallback;
      var left := expired;
      while left != {}
        invariant left <= expired
        invariant fallback == before - (expired - left)
        decreases left
      {
        var key :| key in left;
        fallback := fallback - {key};
        left := left - {key};
      }
    }

    method FallbackSetValue(key: Key, value: Value, ttl: int, now: int)
      modifies this`fallback
      ensures fallback == FallbackSet(old(fallback), key, value, ttl, now)
    {
      FallbackPruneExpired(now);
      if ttl <= 0 {
        fallback := fallback - {key};
        return;
      }
      var expiresAt := now + ttl * 1000;
      fallback := fallback[key := Entry(value, expiresAt)];
    }

    method FallbackGet(key: Key, now: int) returns (value: Option<Value>)
      modifies this`fallback
      ensures fallback == Pruned(old(fallback), now)
      ensures value == if Live(old(fallback), key, now) then Some(old(fallback)[key].value) else None
    {
      FallbackPruneExpired(now);
      if key !in fallback {
        return None;
      }
      return Some(fallback[key].value);
    }

    method FallbackGetWithTtl(key: Key, now: int) returns (value: Option<Value>, ttl: int)
      modifies this`fallback
      ensures fallback == AfterTtlRead(old(fallback), key, now)
      ensures value.Some? == Usable(old(fallback), key, now)
      ensures value.Some? ==>
        value.value == old(fallback)[key].value && ttl == SecondsLeft(old(fallback)[key].expiresAt, now) > 0
    {
      FallbackPruneExpired(now);
      if key !in fallback {
        assert fallback - {key} == fallback;
        return None, 0;
      }
      var entry := fallback[key];
      ttl := (entry.expiresAt - now) / 1000;
      if ttl <= 0 {
        fallback := fallback - {key};
        return None, 0;
      }
      return Some(entry.value), ttl;
    }

    /** False when the client raises: Redis is unreachable, or it rejects the expiry time. */
    method RedisSetEx(env: Env, key: Key, value: Value, ttl: int) returns (ok: bool)
      modifies this`redis
      ensures ok == (env.up && ttl > 0)
      ensures redis == if ok then SetEx(old(redis), key, value, ttl, env.now) else old(redis)
    {
      ok := env.up && ttl > 0;
      if ok {
        redis := redis[key := Entry(value, env.now + ttl * 1000)];
      }
    }

    method BestEffortResync(env: Env, key: Key, value: Value, ttl: int)
      modifies this`redis
      ensures redis == if env.up && ttl > 0 then SetEx(old(redis), key, value, ttl, env.now) else old(redis)
    {
      if ttl <= 0 {
        return;
      }
      var _ := RedisSetEx(env, key, value, ttl);
    }

    method Store(env: Env, user: UserId, token: Token, ttl: int)
      modifies this
      ensures State() == StoreRefreshToken(old(State()), env, user, token, ttl)
    {
      var key := RefreshKey(user);
      var ok := RedisSetEx(env, key, Stored(token), ttl);
      if !ok {
        FallbackSetValue(key, Stored(token), ttl, env.now);
      }
    }

    method Get(env: Env, user: UserId) returns (token: Option<Value>)
      modifies this
      ensures (State(), token) == GetRefreshToken(old(State()), env, user)
    {
      var key := RefreshKey(user);
      var ttl: int;
      if !env.up {
        token, ttl := FallbackGetWithTtl(key, env.now);
        return;
      }
      if key in redis && redis[key].expiresAt > env.now {
        return Some(redis[key].value);
      }
      token, ttl := FallbackGetWithTtl(key, env.now);
      if token.None? {
        return;
      }
      BestEffortResync(env, key, token.value, ttl);
    }

    method Delete(env: Env, user: UserId)
      modifies this
      ensures State() == DeleteRefreshToken(old(State()), env, user)
    {
      var key := RefreshKey(user);
      if env.up {
        redis := redis - {key};
      }
      fallback := fallback - {key};
    }

    method Blacklist(env: Env, token: Token, ttl: int)
      modifies this
      ensures State() == BlacklistToken(old(State()), env, token, ttl)
    {
      var key := BlacklistKey(token);
      var ok := RedisSetEx(env, key, Marker, ttl);
      if !ok {
        FallbackSetValue(key, Marker, ttl, env.now);
      }
    }

    method IsBlacklisted(env: Env, token: Token) returns (revoked: bool)
      modifies this
      ensures (State(), revoked) == IsTokenBlacklisted(old(State()), env, token)
    {
      var key := BlacklistKey(token);
      if !env.up {
        var entry := FallbackGet(key, env.now);
        return entry.Some?;
      }
      if key in redis && redis[key].expiresAt > env.now {
        return true;
      }
      var value, ttl := FallbackGetWithTtl(key, env.now);
      if value.None? {
        return false;
      }
      BestEffortResync(env, key, value.value, ttl);
      return true;
    }
  }
}
