/**
 The sliding-window limiter of app/security/rate_limit.py. Times are integer milliseconds of a monotonic
 clock. The specification never forgets: it keeps every check ever made and counts allowed hits in the
 window (now - W, now]. The class prunes, evicts and re-creates its deques and decides the same.
 */
module RateLimit {
  import opened Options

  /** One finished check. */
  datatype Check = Check(key: string, time: int, allowed: bool)

  datatype Decision = Decision(allowed: bool, retryAfterSeconds: int)

  // ---- the specification, over the full history ------------------------------------------------

  /** The times later than `cutoff`, in order. */
  function Later(times: seq<int>, cutoff: int): seq<int> {
    if times == [] then []
    else
      var n := |times| - 1;
      if times[n] > cutoff then Later(times[..n], cutoff) + [times[n]] else Later(times[..n], cutoff)
  }

  function AllowedHits(h: seq<Check>, key: string): seq<int> {
    if h == [] then []
    else
      var n := |h| - 1;
      if h[n].key == key && h[n].allowed then AllowedHits(h[..n], key) + [h[n].time] else AllowedHits(h[..n], key)
  }

  /** The denials of `key` since its last allowed hit. */
  function DenialsInARow(h: seq<Check>, key: string): seq<int> {
    if h == [] then []
    else
      var n := |h| - 1;
      if h[n].key != key then DenialsInARow(h[..n], key)
      else if h[n].allowed then []
      else DenialsInARow(h[..n], key) + [h[n].time]
  }

  function Max(a: int, b: int): int {
    if a >= b then a else b
  }

  /** What a limiter that keeps every hit forever answers to a check of `key` at `now`. */
  function Decide(maxRequests: int, window: int, h: seq<Check>, key: string, now: int): Decision {
    var hits := Later(AllowedHits(h, key), now - window);
    if |hits| < maxRequests || hits == [] then Decision(true, 0)
    else
      var base := Max(1, (window - (now - hits[0])) / 1000);
      var denials := |Later(DenialsInARow(h, key), now - window)| + 1;
      Decision(false, Max(base, denials))
  }

  ghost predicate Chronological(h: seq<Check>) {
    forall i, j | 0 <= i < j < |h| :: h[i].time <= h[j].time
  }

  ghost predicate Sorted(times: seq<int>) {
    forall i, j | 0 <= i < j < |times| :: times[i] <= times[j]
  }

  /** The history of a limiter: times do not decrease, and every answer is the one `Decide` gives. */
  ghost predicate Genuine(maxRequests: int, window: int, h: seq<Check>) {
    h == [] || (
      var n := |h| - 1;
      && Genuine(maxRequests, window, h[..n])
      && (n > 0 ==> h[n - 1].time <= h[n].time)
      && h[n].allowed == Decide(maxRequests, window, h[..n], h[n].key, h[n].time).allowed)
  }

  lemma {:induction false} GenuineIsChronological(maxRequests: int, window: int, h: seq<Check>)
    requires Genuine(maxRequests, window, h)
    ensures Chronological(h)
  {
    if h != [] {
      var n := |h| - 1;
      GenuineIsChronological(maxRequests, window, h[..n]);
      assert forall i | 0 <= i < n :: h[i] == h[..n][i];
      assert n > 0 ==> h[..n][n - 1].time <= h[n].time;
    }
  }

  // ---- facts about Later -------------------------------------------------------------------------

  lemma {:induction false} LaterAppend(a: seq<int>, b: seq<int>, cutoff: int)
    ensures Later(a + b, cutoff) == Later(a, cutoff) + Later(b, cutoff)
  {
    if b == [] {
      assert a + b == a;
    } else {
      var n := |b| - 1;
      assert (a + b)[..|a + b| - 1] == a + b[..n];
      LaterAppend(a, b[..n], cutoff);
    }
  }

  lemma {:induction false} LaterLater(times: seq<int>, low: int, high: int)
    requires low <= high
    ensures Later(Later(times, low), high) == Later(times, high)
  {
    if times != [] {
      var n := |times| - 1;
      LaterLater(times[..n], low, high);
      var last := if times[n] > low then [times[n]] else [];
      LaterAppend(Later(times[..n], low), last, high);
      if times[n] > low {
        assert [times[n]][..0] == [];
      }
    }
  }

  lemma {:induction false} LaterAll(times: seq<int>, cutoff: int)
    requires forall t | t in times :: t > cutoff
    ensures Later(times, cutoff) == times
  {
    if times != [] {
      var n := |times| - 1;
      assert forall t | t in times[..n] :: t in times;
      LaterAll(times[..n], cutoff);
      assert times[n] in times && times == times[..n] + [times[n]];
    }
  }

  lemma SortedAppend(times: seq<int>, t: int)
    requires Sorted(times) && forall u | u in times :: u <= t
    ensures Sorted(times + [t])
  {
    assert forall i | 0 <= i < |times| :: times[i] in times;
  }

  lemma {:induction false} LaterMembers(times: seq<int>, cutoff: int)
    ensures forall t | t in Later(times, cutoff) :: t > cutoff && t in times
    ensures Sorted(times) ==> Sorted(Later(times, cutoff))
  {
    if times != [] {
      var init := times[..|times| - 1];
      LaterMembers(init, cutoff);
      assert forall t | t in init :: t in times;
      if Sorted(times) {
        SortedAppend(Later(init, cutoff), times[|times| - 1]);
      }
    }
  }

  /** Dropping an expired head does not change what is later: the popleft step. */
  lemma PopLeft(times: seq<int>, cutoff: int)
    requires times != [] && times[0] <= cutoff
    ensures Later(times[1..], cutoff) == Later(times, cutoff)
  {
    LaterAppend([times[0]], times[1..], cutoff);
    assert [times[0]] + times[1..] == times && [times[0]][..0] == [];
  }

  lemma {:induction false} HitsChronological(h: seq<Check>, key: string)
    requires Chronological(h)
    ensures Sorted(AllowedHits(h, key)) && Sorted(DenialsInARow(h, key))
    ensures forall t | t in AllowedHits(h, key) || t in DenialsInARow(h, key) :: h != [] && t <= h[|h| - 1].time
  {
    if h != [] {
      var n := |h| - 1;
      HitsChronological(h[..n], key);
      SortedAppend(AllowedHits(h[..n], key), h[n].time);
      SortedAppend(DenialsInARow(h[..n], key), h[n].time);
    }
  }

  // ---- pruned deques against full lists --------------------------------------------------------------

  /** A pruned deque and the full list agree on all that a window starting at or after `from` can see. */
  ghost predicate Tracked(deque: seq<int>, full: seq<int>, from: int) {
    Sorted(deque) && forall cutoff | cutoff >= from :: Later(deque, cutoff) == Later(full, cutoff)
  }

  lemma PrunedIsTracked(full: seq<int>, cutoff: int)
    requires Sorted(full)
    ensures Tracked(Later(full, cutoff), full, cutoff)
  {
    LaterMembers(full, cutoff);
    forall c | c >= cutoff
      ensures Later(Later(full, cutoff), c) == Later(full, c)
    {
      LaterLater(full, cutoff, c);
    }
  }

  lemma AppendIsTracked(full: seq<int>, cutoff: int, now: int)
    requires Sorted(full) && forall t | t in full :: t <= now
    ensures Tracked(Later(full, cutoff) + [now], full + [now], cutoff)
  {
    PrunedIsTracked(full, cutoff);
    LaterMembers(full, cutoff);
    SortedAppend(Later(full, cutoff), now);
    forall c | c >= cutoff
      ensures Later(Later(full, cutoff) + [now], c) == Later(full + [now], c)
    {
      LaterAppend(Later(full, cutoff), [now], c);
      LaterAppend(full, [now], c);
    }
  }

  function Deque(buckets: map<string, seq<int>>, key: string): seq<int> {
    if key in buckets then buckets[key] else []
  }

  /** The dictionary with `deque` at `key`, or without `key` when the deque is empty. */
  function Recorded(buckets: map<string, seq<int>>, key: string, deque: seq<int>): map<string, seq<int>> {
    if deque == [] then buckets - {key} else buckets[key := deque]
  }

  lemma RecordedAgain(buckets: map<string, seq<int>>, key: string, a: seq<int>, b: seq<int>)
    ensures Recorded(Recorded(buckets, key, a), key, b) == Recorded(buckets, key, b)
    ensures Recorded(buckets[key := a], key, b) == Recorded(buckets, key, b)
    ensures Deque(Recorded(buckets, key, a), key) == a
  {
  }

  ghost predicate NoneEmpty(buckets: map<string, seq<int>>) {
    forall key | key in buckets :: buckets[key] != []
  }

  ghost predicate Tracks(hits: map<string, seq<int>>, violations: map<string, seq<int>>, h: seq<Check>, from: int) {
    forall key ::
      && Tracked(Deque(hits, key), AllowedHits(h, key), from)
      && Tracked(Deque(violations, key), DenialsInARow(h, key), from)
  }

  lemma TracksLater(hits: map<string, seq<int>>, violations: map<string, seq<int>>, h: seq<Check>, from: int, to: int)
    requires Tracks(hits, violations, h, from) && from <= to
    ensures Tracks(hits, violations, h, to)
  {
    forall key
      ensures Tracked(Deque(hits, key), AllowedHits(h, key), to)
      ensures Tracked(Deque(violations, key), DenialsInARow(h, key), to)
    {
      assert Tracked(Deque(hits, key), AllowedHits(h, key), from);
    }
  }

  lemma OtherKeys(h: seq<Check>, check: Check, key: string)
    requires key != check.key
    ensures AllowedHits(h + [check], key) == AllowedHits(h, key)
    ensures DenialsInARow(h + [check], key) == DenialsInARow(h, key)
  {
    assert (h + [check])[..|h|] == h;
  }

  /** The checked key's new deques track the longer history. */
  lemma CheckedKeyTracked(maxRequests: int, window: int, h: seq<Check>, check: Check, cutoff: int,
                          hits: seq<int>, denials: seq<int>)
    requires Genuine(maxRequests, window, h) && (h != [] ==> h[|h| - 1].time <= check.time)
    requires hits == Later(AllowedHits(h, check.key), cutoff) + (if check.allowed then [check.time] else [])
    requires denials == if check.allowed then [] else Later(DenialsInARow(h, check.key), cutoff) + [check.time]
    ensures Tracked(hits, AllowedHits(h + [check], check.key), cutoff)
    ensures Tracked(denials, DenialsInARow(h + [check], check.key), cutoff)
  {
    assert (h + [check])[..|h|] == h;
    GenuineIsChronological(maxRequests, window, h);
    var allHits, allDenials := AllowedHits(h, check.key), DenialsInARow(h, check.key);
    HitsChronological(h, check.key);
    if check.allowed {
      AppendIsTracked(allHits, cutoff, check.time);
    } else {
      assert allHits + [] == allHits && Later(allHits, cutoff) + [] == Later(allHits, cutoff);
      PrunedIsTracked(allHits, cutoff);
      AppendIsTracked(allDenials, cutoff, check.time);
    }
  }

  lemma CheckTracks(hits: map<string, seq<int>>, violations: map<string, seq<int>>, h: seq<Check>, check: Check,
                    cutoff: int, bucket: seq<int>, denials: seq<int>)
    requires Tracks(hits, violations, h, cutoff)
    requires Tracked(bucket, AllowedHits(h + [check], check.key), cutoff)
    requires Tracked(denials, DenialsInARow(h + [check], check.key), cutoff)
    ensures Tracks(Recorded(hits, check.key, bucket), Recorded(violations, check.key, denials), h + [check], cutoff)
  {
    var hits', violations' := Recorded(hits, check.key, bucket), Recorded(violations, check.key, denials);
    forall key
      ensures Tracked(Deque(hits', key), AllowedHits(h + [check], key), cutoff)
      ensures Tracked(Deque(violations', key), DenialsInARow(h + [check], key), cutoff)
    {
      if key != check.key {
        OtherKeys(h, check, key);
        assert Tracked(Deque(hits, key), AllowedHits(h, key), cutoff);
        assert Deque(hits', key) == Deque(hits, key) && Deque(violations', key) == Deque(violations, key);
      } else {
        RecordedAgain(hits, key, bucket, bucket);
        RecordedAgain(violations, key, denials, denials);
      }
    }
  }

  /** What the limiter's fields say about each other and about the history. */
  ghost predicate Faithful(maxRequests: int, window: int, hits: map<string, seq<int>>,
                           violations: map<string, seq<int>>, h: seq<Check>) {
    && Genuine(maxRequests, window, h)
    && NoneEmpty(hits) && NoneEmpty(violations)
    && (h == [] ==> hits == map[] && violations == map[])
    && (h != [] ==> Tracks(hits, violations, h, h[|h| - 1].time - window))
  }

  lemma FaithfulAt(maxRequests: int, window: int, hits: map<string, seq<int>>, violations: map<string, seq<int>>,
                   h: seq<Check>, key: string, now: int)
    requires Faithful(maxRequests, window, hits, violations, h)
    requires h != [] ==> h[|h| - 1].time <= now
    ensures Tracks(hits, violations, h, now - window)
    ensures Sorted(Deque(hits, key)) && Sorted(Deque(violations, key))
    ensures Later(Deque(hits, key), now - window) == Later(AllowedHits(h, key), now - window)
    ensures Later(Deque(violations, key), now - window) == Later(DenialsInARow(h, key), now - window)
  {
    if h != [] {
      TracksLater(hits, violations, h, h[|h| - 1].time - window, now - window);
    }
    assert Tracked(Deque(hits, key), AllowedHits(h, key), now - window);
    assert Tracked(Deque(violations, key), DenialsInARow(h, key), now - window);
  }

  lemma NoneEmptyRecorded(buckets: map<string, seq<int>>, key: string, deque: seq<int>)
    requires NoneEmpty(buckets)
    ensures NoneEmpty(Recorded(buckets, key, deque))
  {
  }

  lemma GenuineExtended(maxRequests: int, window: int, h: seq<Check>, check: Check)
    requires Genuine(maxRequests, window, h) && (h != [] ==> h[|h| - 1].time <= check.time)
    requires check.allowed == Decide(maxRequests, window, h, check.key, check.time).allowed
    ensures Genuine(maxRequests, window, h + [check])
  {
    assert (h + [check])[..|h|] == h;
  }

  /** Recording the outcome of a check keeps the fields faithful. */
  lemma CheckKeepsFaithful(maxRequests: int, window: int, hits: map<string, seq<int>>,
                           violations: map<string, seq<int>>, h: seq<Check>, check: Check)
    requires Faithful(maxRequests, window, hits, violations, h)
    requires h != [] ==> h[|h| - 1].time <= check.time
    requires check.allowed == Decide(maxRequests, window, h, check.key, check.time).allowed
    ensures
      var kept := Later(AllowedHits(h, check.key), check.time - window);
      var denials := Later(DenialsInARow(h, check.key), check.time - window);
      Faithful(maxRequests, window,
        Recorded(hits, check.key, if check.allowed then kept + [check.time] else kept),
        Recorded(violations, check.key, if check.allowed then [] else denials + [check.time]),
        h + [check])
  {
    hide Genuine, Tracks, Tracked, Later, Decide, NoneEmpty, Recorded;
    var cutoff := check.time - window;
    var kept, denied := Later(AllowedHits(h, check.key), cutoff), Later(DenialsInARow(h, check.key), cutoff);
    var bucket := if check.allowed then kept + [check.time] else kept;
    var denials := if check.allowed then [] else denied + [check.time];
    FaithfulAt(maxRequests, window, hits, violations, h, check.key, check.time);
    assert bucket == kept + (if check.allowed then [check.time] else []);
    CheckedKeyTracked(maxRequests, window, h, check, cutoff, bucket, denials);
    CheckTracks(hits, violations, h, check, cutoff, bucket, denials);
    GenuineExtended(maxRequests, window, h, check);
    NoneEmptyRecorded(hits, check.key, bucket);
    NoneEmptyRecorded(violations, check.key, denials);
  }

  // ---- the limiter ---------------------------------------------------------------------------------

  class SlidingWindowRateLimiter {
    const maxRequests: int
    const windowSeconds: int
    var hits: map<string, seq<int>>
    var violations: map<string, seq<int>>
    ghost var history: seq<Check>

    /** The constructor that raises ValueError on non-positive arguments: here, no limiter. */
    static method Create(maxRequests: int, windowSeconds: int) returns (r: Option<SlidingWindowRateLimiter>)
      ensures r.Some? == (maxRequests > 0 && windowSeconds > 0)
      ensures r.Some? ==> fresh(r.value) && r.value.Valid() && r.value.history == []
      ensures r.Some? ==> r.value.maxRequests == maxRequests && r.value.windowSeconds == windowSeconds
    {
      if maxRequests <= 0 || windowSeconds <= 0 {
        return None;
      }
      var limiter := new SlidingWindowRateLimiter(maxRequests, windowSeconds);
      return Some(limiter);
    }

    constructor (maxRequests: int, windowSeconds: int)
      requires maxRequests > 0 && windowSeconds > 0
      ensures Valid() && history == []
      ensures this.maxRequests == maxRequests && this.windowSeconds == windowSeconds
    {
      this.maxRequests, this.windowSeconds := maxRequests, windowSeconds;
      hits, violations, history := map[], map[], [];
    }

    function Window(): int {
      windowSeconds * 1000
    }

    ghost function Clock(): int
      reads this
      requires history != []
    {
      history[|history| - 1].time
    }

    ghost predicate Valid()
      reads this
    {
      && maxRequests > 0 && windowSeconds > 0
      && Faithful(maxRequests, Window(), hits, violations, history)
    }

    static method Prune(deque: seq<int>, cutoff: int) returns (pruned: seq<int>)
      requires Sorted(deque)
      ensures pruned == Later(deque, cutoff)
    {
      pruned := deque;
      while pruned != [] && pruned[0] <= cutoff
        invariant Sorted(pruned)
        invariant Later(pruned, cutoff) == Later(deque, cutoff)
      {
        PopLeft(pruned, cutoff);
        pruned := pruned[1..];
      }
      LaterAll(pruned, cutoff);
    }

    /** The body of check(): prune both deques of `key`, evict empty ones, count, and record the outcome. */
    method PruneAndDecide(key: string, now: int) returns (allowed: bool, retryAfterSeconds: int)
      requires maxRequests > 0
      requires Sorted(Deque(hits, key)) && Sorted(Deque(violations, key))
      modifies this`hits, this`violations
      ensures
        var kept := Later(old(Deque(hits, key)), now - Window());
        var denials := Later(old(Deque(violations, key)), now - Window());
        && allowed == (|kept| < maxRequests)
        && (allowed ==> retryAfterSeconds == 0)
        && (!allowed ==> retryAfterSeconds == Max(Max(1, (Window() - (now - kept[0])) / 1000), |denials| + 1))
        && hits == Recorded(old(hits), key, if allowed then kept + [now] else kept)
        && violations == Recorded(old(violations), key, if allowed then [] else denials + [now])
    {
      var cutoff := now - windowSeconds * 1000;
      var bucket := if key in hits then hits[key] else [];
      var violationBucket := if key in violations then violations[key] else [];
      bucket := Prune(bucket, cutoff);
      violationBucket := Prune(violationBucket, cutoff);
      hits := hits[key := bucket];
      violations := violations[key := violationBucket];
      if bucket == [] {
        hits := hits - {key};
      }
      if violationBucket == [] {
        violations := violations - {key};
      }
      RecordedAgain(old(hits), key, bucket, bucket);
      RecordedAgain(old(violations), key, violationBucket, violationBucket);
      assert hits == Recorded(old(hits), key, bucket) && violations == Recorded(old(violations), key, violationBucket);
      RecordedAgain(old(hits), key, bucket, bucket + [now]);
      RecordedAgain(old(violations), key, violationBucket, violationBucket + [now]);
      RecordedAgain(old(violations), key, violationBucket, []);

      if |bucket| >= maxRequests {
        var denials := (if key in violations then violations[key] else []) + [now];
        violations := violations[key := denials];
        var base := Max(1, (windowSeconds * 1000 - (now - bucket[0])) / 1000);
        var penalty := |denials|;
        return false, Max(base, penalty);
      }
      var hitsNow := (if key in hits then hits[key] else []) + [now];
      hits := hits[key := hitsNow];
      violations := violations - {key};
      return true, 0;
    }

    /**
     The answer is the one the full history dictates, the check becomes part of that history, every other
     key keeps its deques, and the deques stay faithful to the history, sorted and never empty.
     */
    method CheckKey(key: string, now: int) returns (allowed: bool, retryAfterSeconds: int)
      requires Valid()
      requires history != [] ==> Clock() <= now
      modifies this
      ensures Valid()
      ensures Decision(allowed, retryAfterSeconds) == Decide(maxRequests, Window(), old(history), key, now)
      ensures history == old(history) + [Check(key, now, allowed)]
      ensures exists bucket, denials ::
        hits == Recorded(old(hits), key, bucket) && violations == Recorded(old(violations), key, denials)
    {
      hide Faithful, Later;
      FaithfulAt(maxRequests, Window(), hits, violations, history, key, now);
      allowed, retryAfterSeconds := PruneAndDecide(key, now);
      ghost var check := Check(key, now, allowed);
      CheckKeepsFaithful(maxRequests, Window(), old(hits), old(violations), history, check);
      history := history + [check];
    }

    method Reset()
      requires Valid()
      modifies this
      ensures Valid() && hits == map[] && violations == map[] && history == []
    {
      hits, violations, history := map[], map[], [];
    }
  }
}
