/**
 The moderation queue of app/modules/moderation/service.py: backfill of missing cases on any database, also
 one older than the case table, and the paged, ordered listing.
 */
module ModerationQueue {
  import opened Options
  import opened Sorting
  import opened Catalog
  import opened Lifecycle
  import opened LifecycleSafety

  // ---- backfill --------------------------------------------------------------------------------------------

  ghost predicate Increasing(ids: seq<nat>) {
    forall i, j | 0 <= i < j < |ids| :: ids[i] < ids[j]
  }

  lemma {:induction false} InsertMissingFacts(cases: seq<Case>, t: ContentType, ids: seq<nat>, now: int)
    requires CasesUnique(cases) && Increasing(ids)
    ensures cases <= InsertMissing(cases, t, ids, now) && CasesUnique(InsertMissing(cases, t, ids, now))
    ensures forall t', id: nat :: (CaseStatusOf(InsertMissing(cases, t, ids, now), t', id) ==
      if t' == t && id in ids && CaseStatusOf(cases, t, id).None? then Some(CasePending)
      else CaseStatusOf(cases, t', id))
  {
    if ids == [] {
      assert InsertMissing(cases, t, ids, now) == cases;
    } else {
      var n := |ids| - 1;
      InsertMissingFacts(cases, t, ids[..n], now);
      var before := InsertMissing(cases, t, ids[..n], now);
      assert ids[n] !in ids[..n] && ids == ids[..n] + [ids[n]];
      assert CaseStatusOf(before, t, ids[n]) == CaseStatusOf(cases, t, ids[n]);
      if FindCase(cases, t, ids[n]).None? {
        var c := NewCase(t, ids[n], None, now);
        assert InsertMissing(cases, t, ids, now) == before + [c];
        forall t', id: nat
          ensures CasesUnique(before + [c])
          ensures CaseStatusOf(before + [c], t', id) ==
            if t' == t && id in ids && CaseStatusOf(cases, t, id).None? then Some(CasePending)
            else CaseStatusOf(cases, t', id)
        {
          AppendedCase(before, c, t', id);
        }
      }
    }
  }

  lemma {:induction false} PendingIncreasing(nanos: seq<Nano>, ratings: seq<Rating>, comments: seq<Comment>)
    ensures Increasing(PendingNanos(nanos))
    ensures Increasing(PendingRatings(ratings)) && Increasing(PendingComments(comments))
    decreases |nanos| + |ratings| + |comments|
  {
    if nanos != [] {
      PendingIncreasing(nanos[..|nanos| - 1], ratings, comments);
      PendingNanosAre(nanos[..|nanos| - 1]);
      Members(PendingNanos(nanos[..|nanos| - 1]));
    } else if ratings != [] {
      PendingIncreasing(nanos, ratings[..|ratings| - 1], comments);
      PendingRatingsAre(ratings[..|ratings| - 1]);
      Members(PendingRatings(ratings[..|ratings| - 1]));
    } else if comments != [] {
      PendingIncreasing(nanos, ratings, comments[..|comments| - 1]);
      PendingCommentsAre(comments[..|comments| - 1]);
      Members(PendingComments(comments[..|comments| - 1]));
    }
  }

  lemma Members(ids: seq<nat>)
    ensures forall i | 0 <= i < |ids| :: ids[i] in ids
  {
  }

  /** The content is of a kind the filter admits and is awaiting review. */
  ghost predicate Awaits(db: Database, filter: Option<ContentType>, t: ContentType, id: nat) {
    && (filter.None? || filter == Some(t))
    && match t
       case NanoContent => id < |db.nanos| && db.nanos[id].status == PendingReview
       case RatingContent => id < |db.ratings| && db.ratings[id].status == Pending
       case CommentContent => id < |db.comments| && db.comments[id].status == Pending
       case FlagContent => false
  }

  /** Backfill keeps cases and their uniqueness, and adds a pending case to exactly the awaiting content without one. */
  lemma BackfillFacts(db: Database, filter: Option<ContentType>, now: int)
    requires CasesUnique(db.cases)
    ensures db.cases <= Backfilled(db, filter, now) && CasesUnique(Backfilled(db, filter, now))
    ensures forall t, id: nat :: (CaseStatusOf(Backfilled(db, filter, now), t, id) ==
      if CaseStatusOf(db.cases, t, id).None? && Awaits(db, filter, t, id) then Some(CasePending)
      else CaseStatusOf(db.cases, t, id))
  {
    hide CasesUnique, CaseStatusOf, InsertMissing;
    PendingIncreasing(db.nanos, db.ratings, db.comments);
    PendingNanosAre(db.nanos);
    PendingRatingsAre(db.ratings);
    PendingCommentsAre(db.comments);
    var c1 := BackfilledFor(db.cases, filter, NanoContent, PendingNanos(db.nanos), now);
    InsertMissingFacts(db.cases, NanoContent, PendingNanos(db.nanos), now);
    var c2 := BackfilledFor(c1, filter, RatingContent, PendingRatings(db.ratings), now);
    InsertMissingFacts(c1, RatingContent, PendingRatings(db.ratings), now);
    InsertMissingFacts(c2, CommentContent, PendingComments(db.comments), now);
  }

  /** A second backfill inserts nothing. */
  lemma BackfillIdempotent(db: Database, filter: Option<ContentType>, now: int, later: int)
    requires CasesUnique(db.cases)
    ensures
      var db' := db.(cases := Backfilled(db, filter, now));
      Backfilled(db', filter, later) == db'.cases
  {
    var db' := db.(cases := Backfilled(db, filter, now));
    BackfillFacts(db, filter, now);
    PendingNanosAre(db.nanos);
    PendingRatingsAre(db.ratings);
    PendingCommentsAre(db.comments);
    HasCases(db', filter, NanoContent, PendingNanos(db.nanos), later);
    HasCases(db', filter, RatingContent, PendingRatings(db.ratings), later);
    HasCases(db', filter, CommentContent, PendingComments(db.comments), later);
  }

  lemma HasCases(db: Database, filter: Option<ContentType>, t: ContentType, ids: seq<nat>, now: int)
    requires forall id | id in ids :: (filter.None? || filter == Some(t)) ==> CaseStatusOf(db.cases, t, id).Some?
    ensures filter.None? || filter == Some(t) ==> InsertMissing(db.cases, t, ids, now) == db.cases
  {
    if filter.None? || filter == Some(t) {
      NothingMissing(db.cases, t, ids, now);
    }
  }

  /**
   Opening the queue for all cases or for pending ones puts a case to everything of the listed kinds that awaits
   review; opening it for any other status changes nothing.
   */
  lemma OpeningBackfills(db: Database, now: int, filter: Option<ContentType>, status: Option<CaseStatus>)
    requires CasesUnique(db.cases)
    ensures
      var (db', http) := Execute(db, now, OpenQueue(filter, status));
      && http == Ok && db' == db.(cases := db'.cases)
      && (status.Some? && status.value != CasePending ==> db' == db)
      && (status.None? || status.value == CasePending ==>
            && (filter.None? || filter.value == NanoContent ==> forall n | 0 <= n < |db.nanos| ::
                  db.nanos[n].status == PendingReview ==> CaseStatusOf(db'.cases, NanoContent, n).Some?)
            && (filter.None? || filter.value == RatingContent ==> forall r | 0 <= r < |db.ratings| ::
                  db.ratings[r].status == Pending ==> CaseStatusOf(db'.cases, RatingContent, r).Some?)
            && (filter.None? || filter.value == CommentContent ==> forall c | 0 <= c < |db.comments| ::
                  db.comments[c].status == Pending ==> CaseStatusOf(db'.cases, CommentContent, c).Some?))
  {
    hide Backfilled;
    BackfillFacts(db, filter, now);
  }

  // ---- the listing -----------------------------------------------------------------------------------------

  datatype Item = Item(id: nat, c: Case)

  predicate Matches(c: Case, contentType: Option<ContentType>, status: Option<CaseStatus>) {
    (contentType.None? || c.contentType == contentType.value) && (status.None? || c.status == status.value)
  }

  function Matching(cases: seq<Case>, contentType: Option<ContentType>, status: Option<CaseStatus>): seq<Item> {
    if cases == [] then []
    else
      var n := |cases| - 1;
      if Matches(cases[n], contentType, status) then Matching(cases[..n], contentType, status) + [Item(n, cases[n])]
      else Matching(cases[..n], contentType, status)
  }

  /** ORDER BY created_at, id. */
  function OlderFirst(): (Item, Item) -> bool {
    (a: Item, b: Item) => a.c.createdAt < b.c.createdAt || (a.c.createdAt == b.c.createdAt && a.id <= b.id)
  }

  function Queue(cases: seq<Case>, contentType: Option<ContentType>, status: Option<CaseStatus>): seq<Item> {
    Sort(Matching(cases, contentType, status), OlderFirst())
  }

  function Min(a: int, b: int): int {
    if a <= b then a else b
  }

  /** OFFSET (page - 1) * limit LIMIT limit. */
  function Page(queue: seq<Item>, page: nat, limit: nat): seq<Item>
    requires page >= 1
  {
    var from := Min((page - 1) * limit, |queue|);
    var to := Min(page * limit, |queue|);
    assert 0 <= (page - 1) * limit <= page * limit by { Product(page, limit); }
    queue[from..to]
  }

  lemma Product(page: nat, limit: nat)
    requires page >= 1
    ensures 0 <= (page - 1) * limit <= page * limit && page * limit == (page - 1) * limit + limit
  {
  }

  function TotalPages(total: nat, limit: nat): nat {
    if limit > 0 then (total + limit - 1) / limit else 1
  }

  datatype Listing = Listing(items: seq<Item>, totalResults: nat, totalPages: nat, hasNextPage: bool, hasPrevPage: bool)

  method GetModerationQueue(
    cases: seq<Case>, contentType: Option<ContentType>, status: Option<CaseStatus>, page: nat, limit: nat)
    returns (l: Listing)
    requires page >= 1 && limit >= 1
    ensures
      var queue := Queue(cases, contentType, status);
      && l.items == Page(queue, page, limit) && l.totalResults == |queue| && l.totalPages == TotalPages(|queue|, limit)
      && l.hasNextPage == (Page(queue, page + 1, limit) != []) && l.hasPrevPage == (page > 1)
  {
    var queue := Queue(cases, contentType, status);
    var rows := Page(queue, page, limit);
    var totalPages := (|queue| + limit - 1) / limit;
    var items := [];
    for i := 0 to |rows|
      invariant items == rows[..i]
    {
      items := items + [Item(rows[i].id, rows[i].c)];
    }
    assert rows[..|rows|] == rows;
    HasNextExactly(queue, page, limit);
    return Listing(items, |queue|, totalPages, page < totalPages, page > 1);
  }

  /** has_next_page, computed from the page count, is true exactly when the next page has items. */
  lemma HasNextExactly(queue: seq<Item>, page: nat, limit: nat)
    requires page >= 1 && limit >= 1
    ensures page < TotalPages(|queue|, limit) <==> Page(queue, page + 1, limit) != []
  {
    var total := |queue|;
    var pages := TotalPages(total, limit);
    Ceiling(total, limit);
    Product(page + 1, limit);
    if page < pages {
      Times(page, pages - 1, limit);
    } else {
      Times(pages, page, limit);
    }
  }

  lemma Ceiling(total: nat, limit: nat)
    requires limit >= 1
    ensures
      var pages := TotalPages(total, limit);
      pages * limit >= total && (pages == 0 <==> total == 0) && (pages > 0 ==> (pages - 1) * limit < total)
  {
    var a := total + limit - 1;
    assert a == limit * (a / limit) + a % limit;
    var pages := a / limit;
    assert pages * limit == limit * pages;
    if pages > 0 {
      Product(pages, limit);
    }
  }

  lemma Times(a: nat, b: nat, limit: nat)
    requires a <= b
    ensures a * limit <= b * limit
  {
  }

  function Pages(queue: seq<Item>, count: nat, limit: nat): seq<Item> {
    if count == 0 then [] else Pages(queue, count - 1, limit) + Page(queue, count, limit)
  }

  lemma {:induction false} PagesArePrefix(queue: seq<Item>, count: nat, limit: nat)
    ensures 0 <= count * limit && Pages(queue, count, limit) == queue[..Min(count * limit, |queue|)]
  {
    if count > 0 {
      PagesArePrefix(queue, count - 1, limit);
      Product(count, limit);
    }
  }

  lemma {:induction false} MatchingFacts(cases: seq<Case>, contentType: Option<ContentType>, status: Option<CaseStatus>)
    ensures
      var items := Matching(cases, contentType, status);
      && (forall x :: x in items <==> x.id < |cases| && x.c == cases[x.id] && Matches(x.c, contentType, status))
      && (forall i, j | 0 <= i < j < |items| :: items[i].id < items[j].id)
  {
    if cases != [] {
      var n := |cases| - 1;
      MatchingFacts(cases[..n], contentType, status);
      var before := Matching(cases[..n], contentType, status);
      assert forall i | 0 <= i < |before| :: before[i] in before;
      assert forall x :: x in before + [Item(n, cases[n])] <==> x in before || x == Item(n, cases[n]);
    }
  }

  lemma PagesAreQueue(queue: seq<Item>, limit: nat)
    requires limit >= 1
    ensures Pages(queue, TotalPages(|queue|, limit), limit) == queue
  {
    Ceiling(|queue|, limit);
    PagesArePrefix(queue, TotalPages(|queue|, limit), limit);
    assert queue[..|queue|] == queue;
  }

  lemma QueueItems(cases: seq<Case>, contentType: Option<ContentType>, status: Option<CaseStatus>)
    ensures
      var queue := Queue(cases, contentType, status);
      && SortedBy(queue, OlderFirst()) && multiset(queue) == multiset(Matching(cases, contentType, status))
      && (forall x :: x in queue <==> x.id < |cases| && x.c == cases[x.id] && Matches(x.c, contentType, status))
      && (forall i, j | 0 <= i < j < |queue| :: queue[i] != queue[j])
  {
    var matching, queue := Matching(cases, contentType, status), Queue(cases, contentType, status);
    SortSorted(matching, OlderFirst());
    MatchingFacts(cases, contentType, status);
    hide Sort, Matching, Matches;
    assert forall x :: x in queue <==> x in multiset(queue);
    NoRepeats(matching);
    NoRepeatsKept(queue);
  }

  predicate Older(a: Item, b: Item) {
    a.c.createdAt < b.c.createdAt || (a.c.createdAt == b.c.createdAt && a.id < b.id)
  }

  predicate Listed(x: Item, cases: seq<Case>, contentType: Option<ContentType>, status: Option<CaseStatus>) {
    && x.id < |cases| && x.c == cases[x.id]
    && (contentType.Some? ==> x.c.contentType == contentType.value)
    && (status.Some? ==> x.c.status == status.value)
  }

  /**
   The pages 1 to total_pages of an unchanged queue, put together, are the whole queue: every matching case,
   each once, in order of creation time and id.
   */
  lemma PagesCoverQueue(cases: seq<Case>, contentType: Option<ContentType>, status: Option<CaseStatus>, limit: nat)
    requires limit >= 1
    ensures
      var queue := Queue(cases, contentType, status);
      var all := Pages(queue, TotalPages(|queue|, limit), limit);
      && (forall i, j | 0 <= i < j < |all| :: Older(all[i], all[j]))
      && multiset(all) == multiset(Matching(cases, contentType, status))
      && (forall x :: x in all <==> Listed(x, cases, contentType, status))
      && (forall i, j | 0 <= i < j < |all| :: all[i] != all[j])
  {
    var queue := Queue(cases, contentType, status);
    QueueItems(cases, contentType, status);
    PagesAreQueue(queue, limit);
    MatchesMeans(contentType, status);
    hide Queue, Pages, TotalPages, Matches;
    StrictlyOlder(cases, queue);
  }

  lemma MatchesMeans(contentType: Option<ContentType>, status: Option<CaseStatus>)
    ensures forall c :: Matches(c, contentType, status) <==>
      && (contentType.Some? ==> c.contentType == contentType.value)
      && (status.Some? ==> c.status == status.value)
  {
  }

  /** Different items of one table have different ids, so the order is strict. */
  lemma StrictlyOlder(cases: seq<Case>, s: seq<Item>)
    requires SortedBy(s, OlderFirst())
    requires forall x | x in s :: x.id < |cases| && x.c == cases[x.id]
    requires forall i, j | 0 <= i < j < |s| :: s[i] != s[j]
    ensures forall i, j | 0 <= i < j < |s| :: Older(s[i], s[j])
  {
    forall i, j | 0 <= i < j < |s|
      ensures Older(s[i], s[j])
    {
      assert OlderFirst()(s[i], s[j]);
      assert s[i] in s && s[j] in s;
    }
  }

  lemma {:induction false} NoRepeats(s: seq<Item>)
    requires forall i, j | 0 <= i < j < |s| :: s[i].id < s[j].id
    ensures forall x :: multiset(s)[x] <= 1
  {
    if s != [] {
      var n := |s| - 1;
      NoRepeats(s[..n]);
      assert s == s[..n] + [s[n]];
      assert s[n] !in s[..n];
    }
  }

  lemma NoRepeatsKept(s: seq<Item>)
    requires forall x :: multiset(s)[x] <= 1
    ensures forall i, j | 0 <= i < j < |s| :: s[i] != s[j]
  {
    forall i, j | 0 <= i < j < |s|
      ensures s[i] != s[j]
    {
      assert s == s[..j] + [s[j]] + s[j + 1..];
      assert multiset(s) == multiset(s[..j]) + multiset([s[j]]) + multiset(s[j + 1..]);
      assert s[i] in s[..j];
      assert s[i] in multiset(s[..j]) && s[j] in multiset([s[j]]);
      assert multiset(s)[s[i]] <= 1;
      assert multiset(s)[s[i]] >= multiset(s[..j])[s[i]] + multiset([s[j]])[s[i]];
    }
  }
}
