/**
 What holds in every state the marketplace can reach, and what no request can do. Publishing and moderation
 write the same rows through several routes; these results are about all of them together.
 */
module LifecycleSafety {
  import opened Options
  import opened Text
  import opened Catalog
  import opened Lifecycle
  import Categories
  import Sanitiser

  // ---- cases follow content ----------------------------------------------------------------------------

  ghost predicate CasesUnique(cases: seq<Case>) {
    forall i, j | 0 <= i < j < |cases| :: !IsFor(cases[j], cases[i].contentType, cases[i].contentId)
  }

  /** Awaiting a decision: pending, deferred or escalated. */
  ghost predicate Open(s: Option<CaseStatus>) {
    s in {Some(CasePending), Some(CaseDeferred), Some(CaseEscalated)}
  }

  function FlagStatusFor(s: CaseStatus): FlagStatus {
    match s
    case CasePending => FlagPending
    case CaseApproved => FlagResolved
    case CaseRejected => FlagClosed
    case CaseDeferred => FlagReviewed
    case CaseEscalated => FlagReviewed
  }

  /** A case carries exactly the decision metadata its status calls for. */
  ghost predicate DecisionFieldsMatch(c: Case) {
    && (c.status == CasePending <==> c.decidedAt.None?)
    && (c.status == CasePending <==> c.decidedBy.None?)
    && (c.status == CasePending ==> c.reason.None?)
    && (c.deferredUntil.Some? ==> c.status == CaseDeferred)
    && (c.escalationNote.Some? ==> c.status == CaseEscalated)
  }

  ghost predicate CasesFollowContent(db: Database) {
    && CasesUnique(db.cases)
    && (forall i | 0 <= i < |db.cases| :: DecisionFieldsMatch(db.cases[i]))
    && (forall n | 0 <= n < |db.nanos| ::
          db.nanos[n].status == PendingReview ==> Open(CaseStatusOf(db.cases, NanoContent, n)))
    && (forall r | 0 <= r < |db.ratings| ::
          db.ratings[r].status == Pending ==> Open(CaseStatusOf(db.cases, RatingContent, r)))
    && (forall c | 0 <= c < |db.comments| ::
          db.comments[c].status == Pending ==> Open(CaseStatusOf(db.cases, CommentContent, c)))
    && (forall f | 0 <= f < |db.flags| ::
          var s := CaseStatusOf(db.cases, FlagContent, f);
          s.Some? && db.flags[f].status == FlagStatusFor(s.value))
  }

  /** Replacing a case by one about the same content changes the status of that content only. */
  lemma ReplacedCase(cases: seq<Case>, i: nat, c: Case, t: ContentType, id: nat)
    requires CasesUnique(cases) && i < |cases| && IsFor(c, cases[i].contentType, cases[i].contentId)
    ensures CasesUnique(cases[i := c])
    ensures CaseStatusOf(cases[i := c], t, id) == if IsFor(c, t, id) then Some(c.status) else CaseStatusOf(cases, t, id)
  {
    var found, found' := FindCase(cases, t, id), FindCase(cases[i := c], t, id);
    assert forall j | 0 <= j < |cases| :: IsFor(cases[i := c][j], t, id) <==> IsFor(cases[j], t, id);
    if found.Some? {
      assert IsFor(cases[i := c][found.value], t, id);
    }
  }

  lemma AppendedCase(cases: seq<Case>, c: Case, t: ContentType, id: nat)
    requires CasesUnique(cases) && FindCase(cases, c.contentType, c.contentId).None?
    ensures CasesUnique(cases + [c])
    ensures CaseStatusOf(cases + [c], t, id) == if IsFor(c, t, id) then Some(c.status) else CaseStatusOf(cases, t, id)
  {
    assert (cases + [c])[..|cases|] == cases;
  }

  /** Upsert leaves one case per content, opens this one, and touches no other. */
  lemma UpsertFacts(cases: seq<Case>, t: ContentType, id: nat, reporter: Option<UserId>, now: int)
    requires CasesUnique(cases)
    ensures
      var cases' := Upsert(cases, t, id, reporter, now);
      && CasesUnique(cases')
      && (forall t', id' :: CaseStatusOf(cases', t', id') ==
            if t' == t && id' == id then Some(CasePending) else CaseStatusOf(cases, t', id'))
      && ((forall i | 0 <= i < |cases| :: DecisionFieldsMatch(cases[i])) ==>
            forall i | 0 <= i < |cases'| :: DecisionFieldsMatch(cases'[i]))
  {
    var cases' := Upsert(cases, t, id, reporter, now);
    var found := FindCase(cases, t, id);
    forall t', id'
      ensures CaseStatusOf(cases', t', id') ==
        if t' == t && id' == id then Some(CasePending) else CaseStatusOf(cases, t', id')
      ensures CasesUnique(cases')
    {
      if found.Some? {
        ReplacedCase(cases, found.value, Reopened(cases[found.value], reporter), t', id');
      } else {
        AppendedCase(cases, NewCase(t, id, reporter, now), t', id');
      }
    }
  }

  lemma DecidedFacts(cases: seq<Case>, r: Review, now: int)
    requires CasesUnique(cases) && r.case_ < |cases|
    ensures
      var c := cases[r.case_];
      var cases' := cases[r.case_ := Decided(c, r, now)];
      && CasesUnique(cases')
      && (forall t, id :: CaseStatusOf(cases', t, id) ==
            if IsFor(c, t, id) then Some(CaseStatusAfter(r.decision)) else CaseStatusOf(cases, t, id))
      && ((forall i | 0 <= i < |cases| :: DecisionFieldsMatch(cases[i])) ==>
            forall i | 0 <= i < |cases'| :: DecisionFieldsMatch(cases'[i]))
  {
    forall t, id
      ensures CasesUnique(cases[r.case_ := Decided(cases[r.case_], r, now)])
      ensures CaseStatusOf(cases[r.case_ := Decided(cases[r.case_], r, now)], t, id) ==
        if IsFor(cases[r.case_], t, id) then Some(CaseStatusAfter(r.decision)) else CaseStatusOf(cases, t, id)
    {
      ReplacedCase(cases, r.case_, Decided(cases[r.case_], r, now), t, id);
    }
  }

  // ---- backfill has nothing to do ------------------------------------------------------------------------

  lemma {:induction false} PendingNanosAre(nanos: seq<Nano>)
    ensures forall n: nat :: n in PendingNanos(nanos) <==> n < |nanos| && nanos[n].status == PendingReview
  {
    if nanos != [] {
      PendingNanosAre(nanos[..|nanos| - 1]);
    }
  }

  lemma {:induction false} PendingRatingsAre(ratings: seq<Rating>)
    ensures forall r: nat :: r in PendingRatings(ratings) <==> r < |ratings| && ratings[r].status == Pending
  {
    if ratings != [] {
      PendingRatingsAre(ratings[..|ratings| - 1]);
    }
  }

  lemma {:induction false} PendingCommentsAre(comments: seq<Comment>)
    ensures forall c: nat :: c in PendingComments(comments) <==> c < |comments| && comments[c].status == Pending
  {
    if comments != [] {
      PendingCommentsAre(comments[..|comments| - 1]);
    }
  }

  lemma {:induction false} NothingMissing(cases: seq<Case>, t: ContentType, ids: seq<nat>, now: int)
    requires forall id | id in ids :: FindCase(cases, t, id).Some?
    ensures InsertMissing(cases, t, ids, now) == cases
  {
    if ids != [] {
      assert ids[|ids| - 1] in ids && forall id | id in ids[..|ids| - 1] :: id in ids;
      NothingMissing(cases, t, ids[..|ids| - 1], now);
    }
  }

  /** Where every pending item has a case, opening the queue inserts nothing. */
  lemma NeedsNoBackfill(db: Database, filter: Option<ContentType>, now: int)
    requires CasesFollowContent(db)
    ensures Backfilled(db, filter, now) == db.cases
  {
    PendingNanosAre(db.nanos);
    PendingRatingsAre(db.ratings);
    PendingCommentsAre(db.comments);
    assert forall n | n in PendingNanos(db.nanos) :: CaseStatusOf(db.cases, NanoContent, n).Some?;
    assert forall r | r in PendingRatings(db.ratings) :: CaseStatusOf(db.cases, RatingContent, r).Some?;
    assert forall c | c in PendingComments(db.comments) :: CaseStatusOf(db.cases, CommentContent, c).Some?;
    NothingMissing(db.cases, NanoContent, PendingNanos(db.nanos), now);
    NothingMissing(db.cases, RatingContent, PendingRatings(db.ratings), now);
    NothingMissing(db.cases, CommentContent, PendingComments(db.comments), now);
  }

  // ---- case invariant, request by request -------------------------------------------------------------------

  lemma UpsertKeepsCases(db: Database, db': Database, t: ContentType, id: nat, reporter: Option<UserId>, now: int)
    requires CasesFollowContent(db) && db'.cases == Upsert(db.cases, t, id, reporter, now)
    requires |db.nanos| <= |db'.nanos| && forall n | 0 <= n < |db'.nanos| ::
      db'.nanos[n].status == PendingReview ==>
        (t == NanoContent && id == n) || (n < |db.nanos| && db.nanos[n].status == PendingReview)
    requires |db.ratings| <= |db'.ratings| && forall r | 0 <= r < |db'.ratings| ::
      db'.ratings[r].status == Pending ==>
        (t == RatingContent && id == r) || (r < |db.ratings| && db.ratings[r].status == Pending)
    requires |db.comments| <= |db'.comments| && forall c | 0 <= c < |db'.comments| ::
      db'.comments[c].status == Pending ==>
        (t == CommentContent && id == c) || (c < |db.comments| && db.comments[c].status == Pending)
    requires |db.flags| <= |db'.flags| && forall f | 0 <= f < |db'.flags| ::
      if t == FlagContent && id == f then db'.flags[f].status == FlagPending
      else f < |db.flags| && db'.flags[f].status == db.flags[f].status
    ensures CasesFollowContent(db')
  {
    UpsertFacts(db.cases, t, id, reporter, now);
    forall f | 0 <= f < |db'.flags|
      ensures
        var s := CaseStatusOf(db'.cases, FlagContent, f);
        s.Some? && db'.flags[f].status == FlagStatusFor(s.value)
    {
      var s := CaseStatusOf(db'.cases, FlagContent, f);
      if t == FlagContent && id == f {
        assert s == Some(CasePending);
      } else {
        assert db'.flags[f].status == db.flags[f].status;
        assert s == CaseStatusOf(db.cases, FlagContent, f);
        assert s.Some?;
      }
    }
  }

  lemma SyncedKeepsRest(nanos: seq<Nano>, ratings: seq<Rating>, n: nat)
    ensures |Synced(nanos, ratings, n)| == |nanos|
    ensures forall i | 0 <= i < |nanos| ::
        var after := Synced(nanos, ratings, n)[i];
        after == nanos[i].(averageCents := after.averageCents, ratingCount := after.ratingCount)
    ensures forall i | 0 <= i < |nanos| && i != n :: Synced(nanos, ratings, n)[i] == nanos[i]
  {
  }

  lemma ReviewKeepsCases(db: Database, now: int, r: Review)
    requires CasesFollowContent(db)
    ensures CasesFollowContent(ReviewCaseOf(db, now, r).0)
  {
    hide CasesUnique, DecisionFieldsMatch, CaseStatusOf, Synced, Complete, Decided;
    var (db', http) := ReviewCaseOf(db, now, r);
    if http == Ok {
      DecidedFacts(db.cases, r, now);
      var c := db.cases[r.case_];
      if c.contentType == RatingContent && c.contentId < |db.ratings| {
        SyncedKeepsRest(db.nanos, db'.ratings, db.ratings[c.contentId].nano);
      }
    }
  }

  lemma UntouchedKeepsCases(db: Database, db': Database)
    requires CasesFollowContent(db) && db'.cases == db.cases
    requires |db'.flags| == |db.flags| && forall f | 0 <= f < |db.flags| :: db'.flags[f].status == db.flags[f].status
    requires forall n | 0 <= n < |db'.nanos| ::
      db'.nanos[n].status == PendingReview ==> n < |db.nanos| && db.nanos[n].status == PendingReview
    requires forall r | 0 <= r < |db'.ratings| ::
      db'.ratings[r].status == Pending ==> r < |db.ratings| && db.ratings[r].status == Pending
    requires forall c | 0 <= c < |db'.comments| ::
      db'.comments[c].status == Pending ==> c < |db.comments| && db.comments[c].status == Pending
    ensures CasesFollowContent(db')
  {
  }

  lemma NanoStepKeepsCases(db: Database, step: Step)
    requires CasesFollowContent(db)
    requires step.request.Upload? || step.request.EditMetadata? || step.request.ChangeStatus?
      || step.request.Takedown? || step.request.Delete?
    ensures CasesFollowContent(After(db, step))
  {
    hide CasesFollowContent, Upsert, Complete, Categories.Reassigned;
    var now, db' := step.now, After(db, step);
    if step.request.ChangeStatus? && step.request.target == PendingReview && db' != db {
      UpsertKeepsCases(db, db', NanoContent, step.request.nano, None, now);
    } else {
      UntouchedKeepsCases(db, db');
    }
  }

  lemma RatingStepKeepsCases(db: Database, step: Step)
    requires CasesFollowContent(db)
    requires step.request.CreateRating? || step.request.UpdateRating? || step.request.ModerateRating?
    ensures CasesFollowContent(After(db, step))
  {
    hide CasesFollowContent, Upsert, Synced;
    var now, db', n := step.now, After(db, step), step.request.nano;
    if Execute(db, now, step.request).1 == Ok {
      SyncedKeepsRest(db.nanos, db'.ratings, n);
      match step.request
      case CreateRating(_, _, _) => UpsertKeepsCases(db, db', RatingContent, |db.ratings|, None, now);
      case UpdateRating(_, user, _) =>
        UpsertKeepsCases(db, db', RatingContent, FindRating(db.ratings, n, user).value, None, now);
      case _ => UntouchedKeepsCases(db, db');
    }
  }

  lemma TextStepKeepsCases(db: Database, step: Step)
    requires CasesFollowContent(db)
    requires step.request.CreateComment? || step.request.UpdateComment? || step.request.ModerateComment?
      || step.request.CreateFlag?
    ensures CasesFollowContent(After(db, step))
  {
    hide CasesFollowContent, Upsert, Strip, Sanitiser.Accept;
    var now, db' := step.now, After(db, step);
    if Execute(db, now, step.request).1 == Ok {
      match step.request
      case CreateComment(_, _, _) => UpsertKeepsCases(db, db', CommentContent, |db.comments|, None, now);
      case UpdateComment(_, c, _, _) => UpsertKeepsCases(db, db', CommentContent, c, None, now);
      case CreateFlag(_, user, _) => UpsertKeepsCases(db, db', FlagContent, |db.flags|, Some(user), now);
      case _ => UntouchedKeepsCases(db, db');
    }
  }

  lemma StepKeepsCases(db: Database, step: Step)
    requires CasesFollowContent(db)
    ensures CasesFollowContent(After(db, step))
  {
    hide CasesFollowContent, After;
    match step.request
    case Upload(_, _) => NanoStepKeepsCases(db, step);
    case EditMetadata(_, _, _) => NanoStepKeepsCases(db, step);
    case ChangeStatus(_, _, _) => NanoStepKeepsCases(db, step);
    case Takedown(_) => NanoStepKeepsCases(db, step);
    case Delete(_, _) => NanoStepKeepsCases(db, step);
    case CreateRating(_, _, _) => RatingStepKeepsCases(db, step);
    case UpdateRating(_, _, _) => RatingStepKeepsCases(db, step);
    case ModerateRating(_, _, _, _, _) => RatingStepKeepsCases(db, step);
    case CreateComment(_, _, _) => TextStepKeepsCases(db, step);
    case UpdateComment(_, _, _, _) => TextStepKeepsCases(db, step);
    case ModerateComment(_, _, _, _, _) => TextStepKeepsCases(db, step);
    case CreateFlag(_, _, _) => TextStepKeepsCases(db, step);
    case ReviewCase(review) =>
      ReviewKeepsCases(db, step.now, review);
      assert After(db, step) == ReviewCaseOf(db, step.now, review).0 by { ExecutesReview(db, step); }
    case OpenQueue(contentType, status) => QueueKeepsCases(db, step);
  }

  lemma ExecutesReview(db: Database, step: Step)
    requires step.request.ReviewCase?
    ensures After(db, step) == ReviewCaseOf(db, step.now, step.request.review).0
  {
  }

  lemma QueueKeepsCases(db: Database, step: Step)
    requires step.request.OpenQueue? && CasesFollowContent(db)
    ensures After(db, step) == db
  {
    hide Backfilled;
    NeedsNoBackfill(db, step.request.contentType, step.now);
  }

  lemma {:induction false} RunKeepsCases(categories: seq<string>, steps: seq<Step>)
    ensures CasesFollowContent(Run(Empty(categories), steps))
  {
    if steps != [] {
      RunKeepsCases(categories, steps[..|steps| - 1]);
      StepKeepsCases(Run(Empty(categories), steps[..|steps| - 1]), steps[|steps| - 1]);
    }
  }
}
