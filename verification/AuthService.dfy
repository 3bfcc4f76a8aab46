/** The service functions of app/modules/auth/service.py that touch tokens, over a RedisClient.Client. */
module AuthService {
  import opened Options
  import opened TokenStore
  import opened AuthSessions
  import RedisClient

  class Service {
    const client: RedisClient.Client
    const lifetimes: Lifetimes
    var issued: set<Token>
    var nextId: nat

    constructor (lifetimes: Lifetimes)
      ensures fresh(client) && State() == Initial(lifetimes)
    {
      this.lifetimes := lifetimes;
      client := new RedisClient.Client();
      issued, nextId := {}, 0;
    }

    function State(): Sessions
      reads this, client
    {
      Sessions(lifetimes, client.State(), issued, nextId)
    }

    method SignAndStore(env: Env, user: UserId) returns (access: Token, refresh: Token)
      modifies this, client
      ensures State() == IssueTokens(old(State()), env, user)
      ensures Issued(access, refresh) == NewTokens(old(State()), user, env.now)
    {
      access := Token(AccessToken, nextId, user, ExpiryClaim(env.now, lifetimes.access));
      refresh := Token(RefreshToken, nextId + 1, user, ExpiryClaim(env.now, lifetimes.refresh));
      issued := issued + {access, refresh};
      nextId := nextId + 2;
      client.Store(env, user, refresh, lifetimes.refresh);
    }

    method RefreshAccessTokenOf(env: Env, token: Token, active: bool) returns (reply: Reply)
      modifies this, client
      ensures (State(), reply) == RefreshAccessToken(old(State()), env, token, active)
    {
      var revoked := client.IsBlacklisted(env, token);
      if revoked {
        return Rejected;
      }
      if !(token in issued && token.kind == RefreshToken && env.now < token.exp) {
        return Rejected;
      }
      var stored := client.Get(env, token.user);
      if stored != Some(Stored(token)) {
        return Rejected;
      }
      if !active {
        return Rejected;
      }
      var remaining := (token.exp - env.now) / 1000;
      if remaining > 0 {
        client.Blacklist(env, token, remaining);
      }
      var access, refresh := SignAndStore(env, token.user);
      return Issued(access, refresh);
    }

    method Logout(env: Env, user: UserId, access: Option<Token>, refresh: Token)
      modifies client
      ensures State() == LogoutUser(old(State()), env, user, access, refresh)
    {
      if access.Some? && access.value in issued && access.value.kind == AccessToken && env.now < access.value.exp {
        var remaining := (access.value.exp - env.now) / 1000;
        if remaining > 0 {
          client.Blacklist(env, access.value, remaining);
        }
      }
      if refresh in issued && refresh.kind == RefreshToken && env.now < refresh.exp {
        var remaining := (refresh.exp - env.now) / 1000;
        if remaining > 0 {
          client.Blacklist(env, refresh, remaining);
        }
      }
      client.Delete(env, user);
    }

    /** The dependency that protects routes: blacklist first, then the token itself, then the account. */
    method GetCurrentUser(env: Env, token: Token, active: bool) returns (reply: Reply)
      modifies client
      ensures (State(), reply) == Execute(old(State()), Step(env, Authorize(token, active)))
    {
      var revoked := client.IsBlacklisted(env, token);
      if revoked {
        return Rejected;
      }
      if !(token in issued && token.kind == AccessToken && env.now < token.exp) {
        return Rejected;
      }
      if !active {
        return Rejected;
      }
      return Done;
    }
  }
}
