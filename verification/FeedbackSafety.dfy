/**
 Ratings, comments and category assignments in every reachable state: the rating cache is exact whichever
 of the two sync routines wrote it, stored texts are clean, and categories are ranked without gaps.
 */
module FeedbackSafety {
  import opened Options
  import opened Text
  import opened Catalog
  import opened Lifecycle
  import opened Categories
  import Ratings
  import Sanitiser

  // ---- the rating cache ------------------------------------------------------------------------------------

  ghost predicate RatingsOk(db: Database) {
    && (forall r | 0 <= r < |db.ratings| :: db.ratings[r].nano < |db.nanos| && 1 <= db.ratings[r].score <= 5)
    && (forall r, q | 0 <= r < q < |db.ratings| ::
          !(db.ratings[r].nano == db.ratings[q].nano && db.ratings[r].user == db.ratings[q].user))
  }

  ghost predicate CacheExact(db: Database) {
    forall n | 0 <= n < |db.nanos| ::
      var scores := ApprovedScores(db.ratings, n);
      db.nanos[n].ratingCount == |scores| && db.nanos[n].averageCents == Ratings.AverageCents(scores)
  }

  // The same values read off the table without going through a list of scores.

  ghost function ApprovedRows(ratings: seq<Rating>, n: nat): set<nat> {
    set r: nat | r < |ratings| && ratings[r].nano == n && ratings[r].status == Approved
  }

  ghost function RowsScored(ratings: seq<Rating>, n: nat, score: int): set<nat> {
    set r: nat | r < |ratings| && ratings[r].nano == n && ratings[r].status == Approved && ratings[r].score == score
  }

  ghost function ApprovedTotal(ratings: seq<Rating>, n: nat): int {
    |RowsScored(ratings, n, 1)| + 2 * |RowsScored(ratings, n, 2)| + 3 * |RowsScored(ratings, n, 3)|
    + 4 * |RowsScored(ratings, n, 4)| + 5 * |RowsScored(ratings, n, 5)|
  }

  /** count is the number of approved rows, and cents the cent nearest to their mean score, a tie going up. */
  ghost predicate IsMeanOf(cents: int, count: nat, ratings: seq<Rating>, n: nat) {
    && count == |ApprovedRows(ratings, n)|
    && (count == 0 ==> cents == 0)
    && (count > 0 ==>
          2 * count * cents - count <= 200 * ApprovedTotal(ratings, n) < 2 * count * cents + count)
  }

  lemma OneMoreRow(before: set<nat>, after: set<nat>, m: nat, added: bool)
    requires m !in before
    requires forall r: nat :: r in after <==> r in before || (added && r == m)
    ensures |after| == |before| + if added then 1 else 0
  {
    assert after == if added then before + {m} else before;
  }

  lemma {:induction false} ScoresAreRows(ratings: seq<Rating>, n: nat)
    ensures |ApprovedScores(ratings, n)| == |ApprovedRows(ratings, n)|
  {
    if ratings == [] {
      assert ApprovedRows(ratings, n) == {};
    } else {
      var m := |ratings| - 1;
      ScoresAreRows(ratings[..m], n);
      OneMoreRow(ApprovedRows(ratings[..m], n), ApprovedRows(ratings, n), m,
                 ratings[m].nano == n && ratings[m].status == Approved);
    }
  }

  lemma {:induction false} CountsAreRows(ratings: seq<Rating>, n: nat, score: int)
    ensures Ratings.Count(ApprovedScores(ratings, n), score) == |RowsScored(ratings, n, score)|
  {
    if ratings == [] {
      assert RowsScored(ratings, n, score) == {};
    } else {
      var m := |ratings| - 1;
      CountsAreRows(ratings[..m], n, score);
      OneMoreRow(RowsScored(ratings[..m], n, score), RowsScored(ratings, n, score), m,
                 ratings[m].nano == n && ratings[m].status == Approved && ratings[m].score == score);
      var scores := ApprovedScores(ratings[..m], n);
      assert (scores + [ratings[m].score])[..|scores|] == scores;
    }
  }

  /** The list the sync routines aggregate gives the count and mean of the approved rows. */
  lemma CacheValuesAreMean(ratings: seq<Rating>, n: nat)
    requires forall r | 0 <= r < |ratings| :: 1 <= ratings[r].score <= 5
    ensures
      var scores := ApprovedScores(ratings, n);
      IsMeanOf(Ratings.AverageCents(scores), |scores|, ratings, n)
  {
    hide ApprovedScores, ApprovedRows, RowsScored, Ratings.Sum, Ratings.Count, Ratings.QuantizeHalfUp;
    var scores := ApprovedScores(ratings, n);
    ApprovedAreScores(ratings, n);
    Ratings.WeightedSum(scores);
    ScoresAreRows(ratings, n);
    CountsAreRows(ratings, n, 1);
    CountsAreRows(ratings, n, 2);
    CountsAreRows(ratings, n, 3);
    CountsAreRows(ratings, n, 4);
    CountsAreRows(ratings, n, 5);
    assert Ratings.Sum(scores) == ApprovedTotal(ratings, n);
    if scores != [] {
      Ratings.QuantizeNearest(Ratings.Sum(scores), |scores|);
    }
  }

  lemma {:induction false} OtherNanosScores(ratings: seq<Rating>, r: nat, rating: Rating, n: nat)
    requires r < |ratings| && rating.nano == ratings[r].nano != n
    ensures ApprovedScores(ratings[r := rating], n) == ApprovedScores(ratings, n)
  {
    var m := |ratings| - 1;
    if r == m {
      assert ratings[r := rating][..m] == ratings[..m];
    } else {
      assert ratings[r := rating][..m] == ratings[..m][r := rating];
      OtherNanosScores(ratings[..m], r, rating, n);
    }
  }

  lemma {:induction false} NoScoresYet(ratings: seq<Rating>, n: nat)
    requires forall r | 0 <= r < |ratings| :: ratings[r].nano != n
    ensures ApprovedScores(ratings, n) == []
  {
    if ratings != [] {
      NoScoresYet(ratings[..|ratings| - 1], n);
    }
  }

  lemma UpdatedIsExact(db: Database, db': Database, r: nat, rating: Rating)
    requires CacheExact(db) && r < |db.ratings| && rating.nano == db.ratings[r].nano
    requires db'.ratings == db.ratings[r := rating] && db'.nanos == Synced(db.nanos, db'.ratings, rating.nano)
    ensures CacheExact(db')
  {
    forall n | 0 <= n < |db'.nanos| && n != rating.nano
      ensures ApprovedScores(db'.ratings, n) == ApprovedScores(db.ratings, n)
    {
      OtherNanosScores(db.ratings, r, rating, n);
    }
  }

  lemma AppendedIsExact(db: Database, db': Database, rating: Rating)
    requires CacheExact(db) && rating.status == Pending
    requires db'.ratings == db.ratings + [rating] && db'.nanos == Synced(db.nanos, db'.ratings, rating.nano)
    ensures CacheExact(db')
  {
    assert db'.ratings[..|db.ratings|] == db.ratings;
    forall n | 0 <= n < |db'.nanos|
      ensures ApprovedScores(db'.ratings, n) == ApprovedScores(db.ratings, n)
    {
    }
  }

  /** Steps that leave ratings and cached values alone. */
  lemma UntouchedIsExact(db: Database, db': Database)
    requires CacheExact(db) && db'.ratings == db.ratings && |db'.nanos| == |db.nanos|
    requires forall n | 0 <= n < |db.nanos| ::
      db'.nanos[n].ratingCount == db.nanos[n].ratingCount && db'.nanos[n].averageCents == db.nanos[n].averageCents
    ensures CacheExact(db')
  {
  }

  lemma UploadIsExact(db: Database, creator: UserId, title: string)
    requires CacheExact(db) && RatingsOk(db)
    ensures CacheExact(db.(nanos := db.nanos + [Uploaded(creator, title)]))
  {
    NoScoresYet(db.ratings, |db.nanos|);
  }

  lemma RatingReplaced(db: Database, db': Database, r: nat, rating: Rating)
    requires RatingsOk(db) && r < |db.ratings| && db'.ratings == db.ratings[r := rating] && |db'.nanos| == |db.nanos|
    requires rating.nano == db.ratings[r].nano && rating.user == db.ratings[r].user
    requires 1 <= rating.score <= 5 || rating.score == db.ratings[r].score
    ensures RatingsOk(db')
  {
  }

  lemma RatingAdded(db: Database, db': Database, rating: Rating)
    requires RatingsOk(db) && db'.ratings == db.ratings + [rating] && |db'.nanos| == |db.nanos|
    requires rating.nano < |db.nanos| && 1 <= rating.score <= 5
    requires FindRating(db.ratings, rating.nano, rating.user).None?
    ensures RatingsOk(db')
  {
  }

  lemma SyncedKeepsLength(db: Database)
    ensures forall ratings, n: nat :: |Synced(db.nanos, ratings, n)| == |db.nanos|
  {
  }

  lemma RatingsUntouched(db: Database, db': Database)
    requires RatingsOk(db) && db'.ratings == db.ratings && |db'.nanos| >= |db.nanos|
    ensures RatingsOk(db')
  {
  }

  lemma StepKeepsRatings(db: Database, step: Step)
    requires RatingsOk(db)
    ensures RatingsOk(After(db, step))
  {
    hide Complete, Upsert, Strip, Sanitiser.Accept, Reassigned, Backfilled, Decided, Synced, FindRating,
      RatingsOk;
    SyncedKeepsLength(db);
    var now, db' := step.now, After(db, step);
    match step.request
    case CreateRating(n, user, score) =>
      if CreateRatingOf(db, now, n, user, score).1 == Ok {
        RatingAdded(db, db', Rating(n, user, score, Pending, None));
      } else {
        RatingsUntouched(db, db');
      }
    case UpdateRating(n, user, score) =>
      if UpdateRatingOf(db, now, n, user, score).1 == Ok {
        var r := FindRating(db.ratings, n, user).value;
        RatingReplaced(db, db', r, db'.ratings[r]);
      } else {
        RatingsUntouched(db, db');
      }
    case ModerateRating(n, r, moderator, approve, reason) =>
      if ModerateRatingOf(db, now, n, r, moderator, approve, reason).1 == Ok {
        RatingReplaced(db, db', r, db'.ratings[r]);
      } else {
        RatingsUntouched(db, db');
      }
    case ReviewCase(review) =>
      if ReviewCaseOf(db, now, review).1 == Ok {
        var c := db.cases[review.case_];
        if c.contentType == RatingContent && c.contentId < |db.ratings| {
          RatingReplaced(db, db', c.contentId, db'.ratings[c.contentId]);
        } else {
          RatingsUntouched(db, db');
        }
      } else {
        RatingsUntouched(db, db');
      }
    case _ => RatingsUntouched(db, db');
  }

  lemma StepKeepsCache(db: Database, step: Step)
    requires RatingsOk(db) && CacheExact(db)
    ensures CacheExact(After(db, step))
  {
    hide Complete, Upsert, Strip, Sanitiser.Accept, Reassigned, Backfilled, Decided, ApprovedScores,
      Ratings.AverageCents, CacheExact, Synced, FindRating, HasComment, FlagComment, CommentOk, Edited, Stamp, Allowed;
    var now, db' := step.now, After(db, step);
    match step.request
    case Upload(creator, title) => UploadIsExact(db, creator, title);
    case CreateRating(n, user, score) =>
      if CreateRatingOf(db, now, n, user, score).1 == Ok {
        AppendedIsExact(db, db', Rating(n, user, score, Pending, None));
      }
    case UpdateRating(n, user, score) =>
      if UpdateRatingOf(db, now, n, user, score).1 == Ok {
        var r := FindRating(db.ratings, n, user).value;
        UpdatedIsExact(db, db', r, db'.ratings[r]);
      }
    case ModerateRating(n, r, moderator, approve, reason) =>
      if ModerateRatingOf(db, now, n, r, moderator, approve, reason).1 == Ok {
        UpdatedIsExact(db, db', r, db'.ratings[r]);
      }
    case ReviewCase(review) =>
      if ReviewCaseOf(db, now, review).1 == Ok {
        var c := db.cases[review.case_];
        if c.contentType == RatingContent && c.contentId < |db.ratings| && review.decision in {Approve, Reject} {
          UpdatedIsExact(db, db', c.contentId, db'.ratings[c.contentId]);
        } else {
          UntouchedIsExact(db, db');
        }
      }
    case _ => UntouchedIsExact(db, db');
  }

  /**
   After every committed step of every run, each nano's rating count is the number of its approved ratings
   and its average is their exact mean rounded half-up to cents, zero when there are none.
   */
  lemma RatingCacheExact(categories: seq<string>, steps: seq<Step>)
    ensures
      var db := Run(Empty(categories), steps);
      && RatingsOk(db)
      && forall n | 0 <= n < |db.nanos| :: IsMeanOf(db.nanos[n].averageCents, db.nanos[n].ratingCount, db.ratings, n)
  {
    hide IsMeanOf, Run;
    var db := Run(Empty(categories), steps);
    RunKeepsCache(categories, steps);
    forall n | 0 <= n < |db.nanos|
      ensures IsMeanOf(db.nanos[n].averageCents, db.nanos[n].ratingCount, db.ratings, n)
    {
      CacheValuesAreMean(db.ratings, n);
    }
  }

  lemma {:induction false} RunKeepsCache(categories: seq<string>, steps: seq<Step>)
    ensures RatingsOk(Run(Empty(categories), steps)) && CacheExact(Run(Empty(categories), steps))
  {
    if steps != [] {
      var before := Run(Empty(categories), steps[..|steps| - 1]);
      RunKeepsCache(categories, steps[..|steps| - 1]);
      StepKeepsRatings(before, steps[|steps| - 1]);
      StepKeepsCache(before, steps[|steps| - 1]);
    }
  }

  // ---- stored texts ------------------------------------------------------------------------------------------

  ghost predicate TextsOk(db: Database) {
    && (forall c | 0 <= c < |db.comments| :: Sanitiser.Storable(db.comments[c].content))
    && (forall f | 0 <= f < |db.flags| :: db.flags[f].comment.Some? ==> Sanitiser.Storable(db.flags[f].comment.value))
  }

  lemma StepKeepsTexts(db: Database, step: Step)
    requires TextsOk(db)
    ensures TextsOk(After(db, step))
  {
    hide Complete, Upsert, Strip, Sanitiser.Accept, Sanitiser.Storable, Reassigned, Backfilled, Decided, Synced;
    match step.request
    case CreateComment(n, user, content) =>
      if CommentOk(content) { Sanitiser.AcceptedIsStorable(content); }
    case UpdateComment(n, c, actor, content) =>
      if CommentOk(content) { Sanitiser.AcceptedIsStorable(content); }
    case CreateFlag(n, user, note) =>
      if FlagComment(note).Some? {
        StripIdempotent(note.value);
        Sanitiser.AcceptedIsStorable(FlagComment(note).value);
      }
    case _ =>
  }

  /** Every stored comment has 1 to 1000 characters and no markup or carriage return; flag comments too. */
  lemma {:induction false} StoredTextsClean(categories: seq<string>, steps: seq<Step>)
    ensures TextsOk(Run(Empty(categories), steps))
  {
    if steps != [] {
      StoredTextsClean(categories, steps[..|steps| - 1]);
      StepKeepsTexts(Run(Empty(categories), steps[..|steps| - 1]), steps[|steps| - 1]);
    }
  }

  // ---- categories ----------------------------------------------------------------------------------------------

  /** The nano's rows are at most five distinct known categories, ranked 0, 1, 2, ... */
  ghost predicate RankedAs(db: Database, n: nat, ids: seq<CategoryId>) {
    && Of(db.assignments, n) == Ranked(n, ids) && Distinct(ids) && |ids| <= 5
    && forall i | 0 <= i < |ids| :: ids[i] < |db.categories|
  }

  ghost predicate IsRanked(db: Database, n: nat) {
    exists ids :: RankedAs(db, n, ids)
  }

  ghost predicate CategoriesRanked(db: Database) {
    forall n: nat :: IsRanked(db, n)
  }

  lemma StepKeepsCategories(db: Database, step: Step)
    requires CategoriesRanked(db)
    ensures CategoriesRanked(After(db, step))
  {
    hide Complete, Upsert, Strip, Sanitiser.Accept, Reassigned, Backfilled, Decided, Synced, Of, Ranked,
      Distinct, Deduplicated;
    var db' := After(db, step);
    assert db'.categories == db.categories;
    forall n: nat
      ensures IsRanked(db', n)
    {
      assert IsRanked(db, n);
      var ids :| RankedAs(db, n, ids);
      if db'.assignments == db.assignments {
        assert RankedAs(db', n, ids);
      } else {
        var edited, requested := step.request.nano, step.request.patch.categories.value;
        ReassignedFacts(db.assignments, edited, requested, n);
        DeduplicatedFacts(requested);
        var unique := Deduplicated(requested);
        assert forall i | 0 <= i < |unique| :: unique[i] in requested;
        assert RankedAs(db', n, if n == edited then unique else ids);
      }
    }
  }

  /**
   In every reachable state each nano's categories are at most five, distinct, ranked from 0 without gaps,
   and its search document shows the one ranked first.
   */
  lemma {:induction false} CategoriesStayRanked(categories: seq<string>, steps: seq<Step>, n: nat)
    ensures
      var db := Run(Empty(categories), steps);
      && CategoriesRanked(db)
      && exists ids :: RankedAs(db, n, ids) &&
           DocumentCategory(db.assignments, db.categories, n) == if ids == [] then None else Some(db.categories[ids[0]])
  {
    var db := Run(Empty(categories), steps);
    if steps == [] {
      forall m: nat
        ensures IsRanked(db, m)
      {
        assert RankedAs(db, m, []);
      }
    } else {
      CategoriesStayRanked(categories, steps[..|steps| - 1], n);
      StepKeepsCategories(Run(Empty(categories), steps[..|steps| - 1]), steps[|steps| - 1]);
    }
    assert IsRanked(db, n);
    var ids :| RankedAs(db, n, ids);
    DocumentShowsFirst(db.assignments, db.categories, n, ids);
  }

  // ---- the document built later --------------------------------------------------------------------------------

  /** The step is an accepted edit of the categories of nano `n`. */
  predicate EditsCategories(db: Database, step: Step, n: nat) {
    && step.request.EditMetadata? && step.request.nano == n && step.request.patch.categories.Set?
    && Execute(db, step.now, step.request).1 == Ok
  }

  ghost predicate NoCategoryEdit(db: Database, steps: seq<Step>, n: nat) {
    steps == [] || (
      var m := |steps| - 1;
      NoCategoryEdit(db, steps[..m], n) && !EditsCategories(Run(db, steps[..m]), steps[m], n))
  }

  lemma StepKeepsOwnCategories(db: Database, step: Step, n: nat)
    requires !EditsCategories(db, step, n)
    ensures
      var db' := After(db, step);
      Of(db'.assignments, n) == Of(db.assignments, n) && db'.categories == db.categories
  {
    hide Complete, Upsert, Strip, Sanitiser.Accept, Reassigned, Backfilled, Decided, Synced, Of;
    var db' := After(db, step);
    if db'.assignments != db.assignments {
      ReassignedFacts(db.assignments, step.request.nano, step.request.patch.categories.value, n);
    }
  }

  lemma {:induction false} RunKeepsOwnCategories(db: Database, steps: seq<Step>, n: nat)
    requires NoCategoryEdit(db, steps, n)
    ensures
      var db' := Run(db, steps);
      Of(db'.assignments, n) == Of(db.assignments, n) && db'.categories == db.categories
  {
    if steps != [] {
      var m := |steps| - 1;
      RunKeepsOwnCategories(db, steps[..m], n);
      hide After, Of;
      StepKeepsOwnCategories(Run(db, steps[..m]), steps[m], n);
    }
  }

  /**
   After an accepted edit of a nano's categories, every search document built later carries the name of the
   first category requested, none for an empty list, until the nano's categories are edited again.
   */
  lemma RequestedCategoryStays(db: Database, edit: Step, n: nat, steps: seq<Step>)
    requires EditsCategories(db, edit, n) && NoCategoryEdit(After(db, edit), steps, n)
    ensures
      var later, requested := Run(After(db, edit), steps), edit.request.patch.categories.value;
      && (forall i | 0 <= i < |requested| :: requested[i] < |db.categories|)
      && DocumentCategory(later.assignments, later.categories, n) ==
         if requested == [] then None else Some(db.categories[requested[0]])
  {
    hide Run, NoCategoryEdit, Of, Ranked, Deduplicated, Distinct, DocumentCategory;
    var requested := edit.request.patch.categories.value;
    ReassignedFacts(db.assignments, n, requested, n);
    DeduplicatedFacts(requested);
    RunKeepsOwnCategories(After(db, edit), steps, n);
    var unique, later := Deduplicated(requested), Run(After(db, edit), steps);
    assert forall i | 0 <= i < |unique| :: unique[i] in requested;
    DocumentShowsFirst(later.assignments, later.categories, n, unique);
  }
}
