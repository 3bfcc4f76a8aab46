/**
 What the limiter guarantees over whole histories. A `Genuine` history is one a limiter can produce:
 RateLimit.SlidingWindowRateLimiter keeps its own history genuine.
 */
module RateLimitBounds {
  import opened RateLimit

  /** How many of the times lie in (low, high]. */
  function CountIn(times: seq<int>, low: int, high: int): nat {
    if times == [] then 0
    else
      var n := |times| - 1;
      CountIn(times[..n], low, high) + if low < times[n] <= high then 1 else 0
  }

  lemma {:induction false} CountInBelowLater(times: seq<int>, low: int, high: int, cutoff: int)
    requires cutoff <= low
    ensures CountIn(times, low, high) <= |Later(times, cutoff)|
    ensures (forall t | t in times :: t <= high) ==> CountIn(times, low, high) == |Later(times, low)|
  {
    if times != [] {
      var init := times[..|times| - 1];
      CountInBelowLater(init, low, high, cutoff);
      assert forall t | t in init :: t in times;
      assert times[|times| - 1] in times;
    }
  }

  /** Every window of length `window`, wherever it starts, holds at most `maxRequests` allowed hits of a key. */
  lemma {:induction false} WindowBound(maxRequests: int, window: int, h: seq<Check>, key: string, start: int)
    requires maxRequests > 0 && window > 0 && Genuine(maxRequests, window, h)
    ensures CountIn(AllowedHits(h, key), start, start + window) <= maxRequests
  {
    if h != [] {
      var n := |h| - 1;
      WindowBound(maxRequests, window, h[..n], key, start);
      if h[n].key == key && h[n].allowed {
        var before := AllowedHits(h[..n], key);
        assert AllowedHits(h, key)[..|before|] == before;
        if start < h[n].time <= start + window {
          CountInBelowLater(before, start, start + window, h[n].time - window);
        }
      }
    }
  }

  // ---- what the answer is --------------------------------------------------------------------------

  /** A check is allowed exactly when fewer than `maxRequests` allowed hits of its key lie in (now - W, now]. */
  lemma AllowedExactly(maxRequests: int, window: int, h: seq<Check>, key: string, now: int)
    requires maxRequests > 0 && Genuine(maxRequests, window, h) && (h != [] ==> h[|h| - 1].time <= now)
    ensures Decide(maxRequests, window, h, key, now).allowed <==>
      CountIn(AllowedHits(h, key), now - window, now) < maxRequests
  {
    hide Genuine;
    GenuineIsChronological(maxRequests, window, h);
    HitsChronological(h, key);
    CountInBelowLater(AllowedHits(h, key), now - window, now, now - window);
  }

  /** Position `i` of the history is a denial of `key` in (now - W, now] with no allowed hit of it behind. */
  ghost predicate CountsAgainst(h: seq<Check>, key: string, low: int, i: nat) {
    && i < |h| && h[i].key == key && !h[i].allowed && h[i].time > low
    && forall j | i < j < |h| :: !(h[j].key == key && h[j].allowed)
  }

  ghost function Denials(h: seq<Check>, key: string, low: int): set<nat> {
    set i: nat | i < |h| && CountsAgainst(h, key, low, i)
  }

  /** Whether the last check joins the denials, or an allowed hit clears them. */
  lemma DenialsGrow(h: seq<Check>, key: string, low: int, i: nat)
    requires h != []
    ensures
      var n := |h| - 1;
      i in Denials(h, key, low) <==>
        && !(h[n].key == key && h[n].allowed)
        && (i in Denials(h[..n], key, low) || (i == n && h[n].key == key && h[n].time > low))
  {
    var n := |h| - 1;
    if i < n {
      assert h[..n][i] == h[i] && forall j | i < j < n :: h[..n][j] == h[j];
      if CountsAgainst(h[..n], key, low, i) && !(h[n].key == key && h[n].allowed) {
        assert CountsAgainst(h, key, low, i);
      }
      if CountsAgainst(h, key, low, i) {
        assert CountsAgainst(h[..n], key, low, i);
      }
    }
  }

  lemma {:induction false} DenialsAreCounted(h: seq<Check>, key: string, low: int)
    ensures |Later(DenialsInARow(h, key), low)| == |Denials(h, key, low)|
  {
    if h == [] {
      assert Denials(h, key, low) == {};
    } else {
      var n := |h| - 1;
      DenialsAreCounted(h[..n], key, low);
      forall i: nat
        ensures i in Denials(h, key, low) <==>
          && !(h[n].key == key && h[n].allowed)
          && (i in Denials(h[..n], key, low) || (i == n && h[n].key == key && h[n].time > low))
      {
        DenialsGrow(h, key, low, i);
      }
      assert n !in Denials(h[..n], key, low);
      hide Denials;
      if h[n].key == key && h[n].allowed {
        assert Denials(h, key, low) == {};
      } else if h[n].key == key && h[n].time > low {
        assert Denials(h, key, low) == Denials(h[..n], key, low) + {n};
      } else {
        assert Denials(h, key, low) == Denials(h[..n], key, low);
      }
    }
  }

  /**
   The answer of a denied check: the whole seconds until the oldest hit it counted leaves the window, at least
   one, or the number of denials in the window since the last allowed hit, this one included, if that is more.
   */
  lemma RetryAfterExactly(maxRequests: int, window: int, h: seq<Check>, key: string, now: int)
    requires maxRequests > 0 && Genuine(maxRequests, window, h) && (h != [] ==> h[|h| - 1].time <= now)
    requires !Decide(maxRequests, window, h, key, now).allowed
    ensures
      var oldest := Later(AllowedHits(h, key), now - window)[0];
      var leaves := (oldest + window - now) / 1000;
      var denials := |Denials(h, key, now - window)| + 1;
      && oldest in AllowedHits(h, key) && oldest > now - window
      && (forall t | t in AllowedHits(h, key) && t > now - window :: oldest <= t)
      && Decide(maxRequests, window, h, key, now).retryAfterSeconds ==
         if leaves >= denials && leaves >= 1 then leaves else denials
  {
    hide Genuine;
    GenuineIsChronological(maxRequests, window, h);
    HitsChronological(h, key);
    LaterMembers(AllowedHits(h, key), now - window);
    var hits := Later(AllowedHits(h, key), now - window);
    assert hits[0] in hits;
    forall t | t in AllowedHits(h, key) && t > now - window
      ensures hits[0] <= t
    {
      LaterHas(AllowedHits(h, key), now - window, t);
    }
    DenialsAreCounted(h, key, now - window);
  }

  lemma {:induction false} LaterHas(times: seq<int>, cutoff: int, t: int)
    requires t in times && t > cutoff
    ensures t in Later(times, cutoff)
  {
    var n := |times| - 1;
    if times[n] != t {
      LaterHas(times[..n], cutoff, t);
    }
  }

  // ---- keys do not influence each other ------------------------------------------------------------

  function OnKey(h: seq<Check>, key: string): seq<Check> {
    if h == [] then []
    else
      var n := |h| - 1;
      if h[n].key == key then OnKey(h[..n], key) + [h[n]] else OnKey(h[..n], key)
  }

  lemma {:induction false} OnKeySame(h: seq<Check>, key: string)
    ensures AllowedHits(OnKey(h, key), key) == AllowedHits(h, key)
    ensures DenialsInARow(OnKey(h, key), key) == DenialsInARow(h, key)
    ensures forall c | c in OnKey(h, key) :: c in h
  {
    if h != [] {
      var n := |h| - 1;
      OnKeySame(h[..n], key);
      if h[n].key == key {
        assert OnKey(h, key)[..|OnKey(h[..n], key)|] == OnKey(h[..n], key);
      }
    }
  }

  /** The answer to a check depends on the earlier checks of the same key and on nothing else. */
  lemma KeysIndependent(maxRequests: int, window: int, h: seq<Check>, key: string, now: int)
    ensures Decide(maxRequests, window, h, key, now) == Decide(maxRequests, window, OnKey(h, key), key, now)
  {
    OnKeySame(h, key);
  }

  /** The checks of one key form, by themselves, a history that a limiter serving only this key would have. */
  lemma {:induction false} ProjectionGenuine(maxRequests: int, window: int, h: seq<Check>, key: string)
    requires Genuine(maxRequests, window, h)
    ensures Genuine(maxRequests, window, OnKey(h, key))
  {
    if h != [] {
      var n := |h| - 1;
      ProjectionGenuine(maxRequests, window, h[..n], key);
      if h[n].key == key {
        var before := OnKey(h[..n], key);
        OnKeySame(h[..n], key);
        GenuineIsChronological(maxRequests, window, h);
        assert before != [] ==> before[|before| - 1] in h[..n];
        KeysIndependent(maxRequests, window, h[..n], key, h[n].time);
        GenuineExtended(maxRequests, window, before, h[n]);
      }
    }
  }

  // ---- denials ---------------------------------------------------------------------------------------

  ghost predicate NoHits(more: seq<Check>, key: string) {
    forall c | c in more :: c.key == key ==> !c.allowed
  }

  lemma {:induction false} NoHitsAdded(h: seq<Check>, more: seq<Check>, key: string)
    requires NoHits(more, key)
    ensures AllowedHits(h + more, key) == AllowedHits(h, key)
  {
    if more == [] {
      assert h + more == h;
    } else {
      var n := |more| - 1;
      assert (h + more)[..|h + more| - 1] == h + more[..n];
      assert more[n] in more && forall c | c in more[..n] :: c in more;
      NoHitsAdded(h, more[..n], key);
    }
  }

  /** The history without its denied checks, wherever they stood. */
  function OnlyAllowed(h: seq<Check>): seq<Check> {
    if h == [] then []
    else
      var n := |h| - 1;
      if h[n].allowed then OnlyAllowed(h[..n]) + [h[n]] else OnlyAllowed(h[..n])
  }

  lemma {:induction false} OnlyAllowedSame(h: seq<Check>, key: string)
    ensures AllowedHits(OnlyAllowed(h), key) == AllowedHits(h, key)
    ensures forall c | c in OnlyAllowed(h) :: c in h
  {
    if h != [] {
      var n := |h| - 1;
      OnlyAllowedSame(h[..n], key);
      if h[n].allowed {
        assert OnlyAllowed(h)[..|OnlyAllowed(h[..n])|] == OnlyAllowed(h[..n]);
      }
    }
  }

  /**
   Denied checks consume no capacity. Take every one of them out of a limiter's history: what is left is a
   history the limiter would have had without them, each allowed check allowed as before, and every later
   check is decided alike.
   */
  lemma {:induction false} DenialsAreFree(maxRequests: int, window: int, h: seq<Check>, key: string, now: int)
    ensures Genuine(maxRequests, window, h) ==> Genuine(maxRequests, window, OnlyAllowed(h))
    ensures
      Decide(maxRequests, window, OnlyAllowed(h), key, now).allowed == Decide(maxRequests, window, h, key, now).allowed
  {
    OnlyAllowedSame(h, key);
    if h != [] {
      var n := |h| - 1;
      DenialsAreFree(maxRequests, window, h[..n], h[n].key, h[n].time);
      if Genuine(maxRequests, window, h) && h[n].allowed {
        var before := OnlyAllowed(h[..n]);
        OnlyAllowedSame(h[..n], key);
        GenuineIsChronological(maxRequests, window, h);
        assert before != [] ==> before[|before| - 1] in h[..n];
        GenuineExtended(maxRequests, window, before, h[n]);
      }
    }
  }

  /**
   Retry-After can be trusted: once denied at `now` with answer r, a check at now + r + 1 seconds or later,
   with no allowed hit in between (whatever else was checked or denied), is allowed.
   */
  lemma RetryAfterHonoured(maxRequests: int, window: int, h: seq<Check>, key: string, now: int,
                           more: seq<Check>, later: int)
    requires maxRequests > 0 && window > 0 && Genuine(maxRequests, window, h)
    requires h != [] ==> h[|h| - 1].time <= now
    requires !Decide(maxRequests, window, h, key, now).allowed
    requires NoHits(more, key)
    requires later >= now + (Decide(maxRequests, window, h, key, now).retryAfterSeconds + 1) * 1000
    ensures Decide(maxRequests, window, h + [Check(key, now, false)] + more, key, later).allowed
  {
    hide Genuine, Later, CountIn, AllowedHits, DenialsInARow;
    var all := AllowedHits(h, key);
    var hits := Later(all, now - window);
    NoHitsAdded(h, [Check(key, now, false)] + more, key);
    assert h + [Check(key, now, false)] + more == h + ([Check(key, now, false)] + more);
    GenuineIsChronological(maxRequests, window, h);
    HitsChronological(h, key);
    WindowBound(maxRequests, window, h, key, now - window);
    CountInBelowLater(all, now - window, now, now - window);
    OldestExpires(maxRequests, window, h, key, now, later);
    LaterLater(all, now - window, later - window);
    PopLeft(hits, later - window);
    LaterNoLonger(hits[1..], later - window);
  }

  /** By then the oldest hit that counted against the denied check has left the window. */
  lemma OldestExpires(maxRequests: int, window: int, h: seq<Check>, key: string, now: int, later: int)
    requires maxRequests > 0
    requires !Decide(maxRequests, window, h, key, now).allowed
    requires later >= now + (Decide(maxRequests, window, h, key, now).retryAfterSeconds + 1) * 1000
    ensures
      var hits := Later(AllowedHits(h, key), now - window);
      hits != [] && hits[0] <= later - window
  {
    var hits := Later(AllowedHits(h, key), now - window);
    var base := Max(1, (window - (now - hits[0])) / 1000);
    assert base <= Decide(maxRequests, window, h, key, now).retryAfterSeconds;
  }

  lemma {:induction false} LaterNoLonger(times: seq<int>, cutoff: int)
    ensures |Later(times, cutoff)| <= |times|
  {
    if times != [] {
      LaterNoLonger(times[..|times| - 1], cutoff);
    }
  }
}
