/**
 invalidate_search_cache of app/modules/search/service.py: scan the keys under the prefix and delete them
 in batches of at most 200. Redis may stop answering at any call.
 */
module SearchCache {
  import opened Options
  import SearchKey

  const PATTERN := "search:v1:"
  const BATCH_SIZE := 200

  function Elements(s: seq<string>): set<string> {
    set k | k in s
  }

  /** The keys that match the pattern, of those present. */
  function Cached(keys: set<string>): set<string> {
    set k | k in keys && PATTERN <= k
  }

  /** Removing `b` after `a`: what is left, and how many went. */
  lemma RemovedTwice<T>(all: set<T>, a: set<T>, b: set<T>)
    ensures all - a - b == all - (a + b)
    ensures |all * (a + b)| == |all * a| + |(all - a) * b|
  {
    var first, second := all * a, (all - a) * b;
    assert first !! second && all * (a + b) == first + second;
    assert |first + second| == |first| + |second|;
  }

  /**
   How many delete calls are answered before the first fault, if there is one. `scanFault` numbers the call
   for the next name that fails, the last being the one that ends the scan; `deleteFault` the delete call.
   The i-th scan call comes after i / 200 deletes.
   */
  function FaultAfter(n: nat, scanFault: Option<nat>, deleteFault: Option<nat>): (r: Option<nat>)
    ensures r.Some? ==> r.value * BATCH_SIZE <= n
  {
    var s := if scanFault.Some? && scanFault.value <= n then Some(scanFault.value / BATCH_SIZE) else None;
    var d := if deleteFault.Some? && deleteFault.value < (n + BATCH_SIZE - 1) / BATCH_SIZE then deleteFault else None;
    if s.None? then d else if d.None? then s else if s.value <= d.value then s else d
  }

  /** The keys left and the count answered: the whole prefix gone, or whole batches gone and 0 answered. */
  function Outcome(keys: set<string>, scan: seq<string>, fault: Option<nat>): (set<string>, nat)
    requires fault.Some? ==> fault.value * BATCH_SIZE <= |scan|
  {
    if fault.None? then (keys - Cached(keys), |Cached(keys)|)
    else (keys - Elements(scan[..fault.value * BATCH_SIZE]), 0)
  }

  /** What a scan yields: matching names only, every matching key at least once, repeats and stale names allowed. */
  ghost predicate ScanOf(keys: set<string>, scan: seq<string>) {
    && (forall k | k in scan :: PATTERN <= k)
    && (forall k | k in keys && PATTERN <= k :: k in scan)
  }

  class Redis {
    var keys: set<string>

    /** DEL: removes the named keys and reports how many were there; a repeated name counts once. */
    method Delete(batch: seq<string>) returns (removed: nat)
      requires 0 < |batch| <= BATCH_SIZE
      modifies this
      ensures keys == old(keys) - Elements(batch)
      ensures removed == |old(keys) * Elements(batch)|
    {
      var present := keys * Elements(batch);
      keys := keys - Elements(batch);
      return |present|;
    }

    /**
     Without a fault exactly the matching keys disappear, and the result is how many there were. After a
     fault the batches deleted so far stay deleted and the answer is 0. Every Delete call meets the limit.
     */
    method Invalidate(scan: seq<string>, scanFault: Option<nat>, deleteFault: Option<nat>) returns (deleted: nat)
      requires ScanOf(keys, scan)
      modifies this
      ensures (keys, deleted) == Outcome(old(keys), scan, FaultAfter(|scan|, scanFault, deleteFault))
    {
      hide Elements, Cached, FaultAfter, Progress;
      deleted := 0;
      var batch, i, calls := [], 0, 0;
      ghost var done := 0;
      Nothing(keys);
      while true
        invariant done == calls * BATCH_SIZE && done + |batch| == i <= |scan| && |batch| < BATCH_SIZE
        invariant batch == scan[done..i]
        invariant scanFault.Some? ==> scanFault.value >= i
        invariant deleteFault.Some? ==> deleteFault.value >= calls
        invariant Progress(old(keys), keys, scan[..done], deleted)
        decreases |scan| - i
      {
        if scanFault == Some(i) {
          FaultHere(|scan|, scanFault, deleteFault, i, calls);
          StoppedAt(old(keys), keys, scan, done, deleted);
          return 0;
        }
        if i == |scan| {
          break;
        }
        batch := batch + [scan[i]];
        i := i + 1;
        if |batch| >= BATCH_SIZE {
          if deleteFault == Some(calls) {
            FaultHere(|scan|, scanFault, deleteFault, i, calls);
            StoppedAt(old(keys), keys, scan, done, deleted);
            return 0;
          }
          assert scan[..done] + batch == scan[..i];
          Flushed(old(keys), keys, scan[..done], deleted, batch);
          var removed := Delete(batch);
          deleted := deleted + removed;
          batch, calls, done := [], calls + 1, i;
        }
      }
      assert scan[..done] + batch == scan;
      if batch != [] {
        if deleteFault == Some(calls) {
          FaultHere(|scan|, scanFault, deleteFault, i, calls);
          StoppedAt(old(keys), keys, scan, done, deleted);
          return 0;
        }
        Flushed(old(keys), keys, scan[..done], deleted, batch);
        var removed := Delete(batch);
        deleted := deleted + removed;
        calls := calls + 1;
      } else {
        assert scan[..done] == scan;
      }
      NoFault(|scan|, scanFault, deleteFault, calls);
      assert Progress(old(keys), keys, scan, deleted);
      WholeScanRemoved(old(keys), keys, scan, deleted);
    }
  }

  /** Every key a search is cached under is under the prefix, so an invalidation without a fault removes it. */
  lemma EveryAnswerIsDropped(keys: set<string>, scan: seq<string>, search: SearchKey.Search)
    ensures PATTERN <= SearchKey.BuildSearchCacheKey(search)
    ensures SearchKey.BuildSearchCacheKey(search) !in Outcome(keys, scan, None).0
  {
    var key := SearchKey.BuildSearchCacheKey(search);
    assert SearchKey.SEARCH_CACHE_KEY_PREFIX + ":" == PATTERN;
    assert PATTERN <= key;
  }

  // ---- what the answer is worth --------------------------------------------------------------------------

  /** Faults or not, only keys under the prefix disappear, and never more are reported than are gone. */
  lemma OnlyThePrefixGoes(keys: set<string>, scan: seq<string>, scanFault: Option<nat>, deleteFault: Option<nat>)
    requires ScanOf(keys, scan)
    ensures
      var (left, answer) := Outcome(keys, scan, FaultAfter(|scan|, scanFault, deleteFault));
      left <= keys && keys - left <= Cached(keys) && answer <= |keys - left|
  {
    var fault := FaultAfter(|scan|, scanFault, deleteFault);
    var left := Outcome(keys, scan, fault).0;
    if fault.None? {
      assert keys - left == Cached(keys);
    } else {
      assert forall k | k in scan[..fault.value * BATCH_SIZE] :: k in scan;
    }
  }

  /**
   The answer is the number of keys removed, if the scan's first name is a present key, exactly when no
   fault occurs or one occurs before the first delete has been answered.
   */
  lemma AnswerIsRight(keys: set<string>, scan: seq<string>, scanFault: Option<nat>, deleteFault: Option<nat>)
    requires ScanOf(keys, scan) && (scan != [] ==> scan[0] in keys)
    ensures
      var fault := FaultAfter(|scan|, scanFault, deleteFault);
      var (left, answer) := Outcome(keys, scan, fault);
      answer == |keys - left| <==> fault in {None, Some(0)}
  {
    var fault := FaultAfter(|scan|, scanFault, deleteFault);
    var left := Outcome(keys, scan, fault).0;
    if fault.None? {
      assert keys - left == Cached(keys);
    } else if fault == Some(0) {
      assert left == keys && keys - left == {};
    } else {
      assert scan[0] in scan[..fault.value * BATCH_SIZE] && scan[0] in keys - left;
    }
  }

  /** The other case arises: one key yielded 200 times, deleted, and then the scan breaks off. */
  lemma DeletedButNotCounted() returns (keys: set<string>, scan: seq<string>)
    ensures ScanOf(keys, scan) && keys != {}
    ensures Outcome(keys, scan, FaultAfter(|scan|, Some(|scan|), None)) == ({}, 0)
  {
    var key := PATTERN + "q";
    keys, scan := {key}, seq(BATCH_SIZE, _ => PATTERN + "q");
    assert scan[0] == key;
    assert scan[..BATCH_SIZE] == scan && key in scan;
    assert FaultAfter(BATCH_SIZE, Some(BATCH_SIZE), None) == Some(1);
    assert keys - Elements(scan) == {};
  }

  // ---- the accounting -----------------------------------------------------------------------------------

  /** After the names in `done` were deleted: what is left of `all`, and how many were removed. */
  ghost predicate Progress(all: set<string>, left: set<string>, done: seq<string>, deleted: nat) {
    left == all - Elements(done) && deleted == |all * Elements(done)|
  }

  lemma Nothing(all: set<string>)
    ensures Progress(all, all, [], 0)
  {
    assert all * Elements([]) == {};
  }

  lemma StoppedAt(all: set<string>, left: set<string>, scan: seq<string>, done: nat, deleted: nat)
    requires done <= |scan| && Progress(all, left, scan[..done], deleted)
    ensures left == all - Elements(scan[..done])
  {
  }

  /** At scan call `i`, or at delete call `calls` after `i` names, everything earlier was answered. */
  lemma FaultHere(n: nat, scanFault: Option<nat>, deleteFault: Option<nat>, i: nat, calls: nat)
    requires i <= n && calls * BATCH_SIZE <= i
    requires scanFault.Some? ==> scanFault.value >= i
    requires deleteFault.Some? ==> deleteFault.value >= calls
    requires
      || (scanFault == Some(i) && i < (calls + 1) * BATCH_SIZE)
      || (deleteFault == Some(calls) && calls * BATCH_SIZE < n)
    ensures FaultAfter(n, scanFault, deleteFault) == Some(calls)
  {
  }

  lemma NoFault(n: nat, scanFault: Option<nat>, deleteFault: Option<nat>, calls: nat)
    requires scanFault.Some? ==> scanFault.value > n
    requires deleteFault.Some? ==> deleteFault.value >= calls
    requires n <= calls * BATCH_SIZE
    ensures FaultAfter(n, scanFault, deleteFault).None?
  {
  }

  lemma Flushed(all: set<string>, left: set<string>, done: seq<string>, deleted: nat, batch: seq<string>)
    requires Progress(all, left, done, deleted)
    ensures Progress(all, left - Elements(batch), done + batch, deleted + |left * Elements(batch)|)
  {
    assert Elements(done + batch) == Elements(done) + Elements(batch);
    hide Elements;
    RemovedTwice(all, Elements(done), Elements(batch));
  }

  lemma WholeScanRemoved(all: set<string>, left: set<string>, scan: seq<string>, deleted: nat)
    requires ScanOf(all, scan) && Progress(all, left, scan, deleted)
    ensures (left, deleted) == (all - Cached(all), |Cached(all)|)
  {
    WholeScan(all, scan);
  }

  lemma WholeScan(all: set<string>, scan: seq<string>)
    requires ScanOf(all, scan)
    ensures all * Elements(scan) == Cached(all)
    ensures all - Elements(scan) == all - Cached(all)
  {
  }
}
