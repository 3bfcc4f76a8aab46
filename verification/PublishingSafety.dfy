/**
 Publication over whole runs: what is published is complete and dated, dates are written once, metadata
 changes only in draft, and a nano's status moves only along the documented state machine, except where a
 case review overrides it.
 */
module PublishingSafety {
  import opened Options
  import opened Text
  import opened Catalog
  import opened Lifecycle
  import Categories
  import Sanitiser
  import opened LifecycleSafety

  // ---- published means complete --------------------------------------------------------------------------

  ghost predicate PublicationOk(nanos: seq<Nano>) {
    forall n | 0 <= n < |nanos| ::
      nanos[n].status == Published ==> Complete(nanos[n].metadata) && nanos[n].publishedAt.Some?
  }

  /** The requests whose effect on nanos is at most a recomputed rating cache. */
  predicate IsFeedback(request: Request) {
    || request.CreateRating? || request.UpdateRating? || request.ModerateRating?
    || request.CreateComment? || request.UpdateComment? || request.ModerateComment?
    || request.CreateFlag? || request.OpenQueue?
  }

  ghost predicate SameButCache(before: seq<Nano>, after: seq<Nano>) {
    && |before| == |after|
    && forall n | 0 <= n < |before| ::
         after[n] == before[n].(averageCents := after[n].averageCents, ratingCount := after[n].ratingCount)
  }

  lemma FeedbackKeepsNanos(db: Database, step: Step)
    requires IsFeedback(step.request)
    ensures SameButCache(db.nanos, After(db, step).nanos)
  {
    hide Complete, Upsert, Strip, Sanitiser.Accept, Backfilled, Synced;
    var db' := After(db, step);
    if step.request.CreateRating? || step.request.UpdateRating? || step.request.ModerateRating? {
      SyncedKeepsRest(db.nanos, db'.ratings, step.request.nano);
    }
  }

  /** A review changes at most the nano its case is about, and the cache of the one whose rating it decided. */
  lemma ReviewKeepsNanos(db: Database, now: int, r: Review)
    ensures
      var db' := ReviewCaseOf(db, now, r).0;
      if r.case_ < |db.cases| && db.cases[r.case_].contentType == NanoContent
      then |db'.nanos| == |db.nanos| &&
        forall n | 0 <= n < |db.nanos| && n != db.cases[r.case_].contentId :: db'.nanos[n] == db.nanos[n]
      else SameButCache(db.nanos, db'.nanos)
  {
    hide Complete, Decided, Synced;
    var db' := ReviewCaseOf(db, now, r).0;
    if r.case_ < |db.cases| {
      var c := db.cases[r.case_];
      if c.contentType == RatingContent && c.contentId < |db.ratings| {
        SyncedKeepsRest(db.nanos, db'.ratings, db.ratings[c.contentId].nano);
      }
    }
  }

  lemma StepKeepsPublication(db: Database, step: Step)
    requires PublicationOk(db.nanos)
    ensures PublicationOk(After(db, step).nanos)
  {
    hide Complete, Upsert, Categories.Reassigned, Decided, Synced;
    if IsFeedback(step.request) {
      FeedbackKeepsNanos(db, step);
    } else if step.request.ReviewCase? {
      ReviewKeepsNanos(db, step.now, step.request.review);
    }
  }

  /** In every reachable state, by both publishing routes, a published nano has complete metadata and a date. */
  lemma {:induction false} PublishedIsComplete(categories: seq<string>, steps: seq<Step>)
    ensures PublicationOk(Run(Empty(categories), steps).nanos)
  {
    if steps != [] {
      PublishedIsComplete(categories, steps[..|steps| - 1]);
      StepKeepsPublication(Run(Empty(categories), steps[..|steps| - 1]), steps[|steps| - 1]);
    }
  }

  // ---- what later states keep ------------------------------------------------------------------------------

  /** Nanos stay, keep their creator, and keep their dates once set. */
  ghost predicate Evolves(before: seq<Nano>, after: seq<Nano>) {
    && |before| <= |after|
    && forall n | 0 <= n < |before| ::
         && after[n].creator == before[n].creator
         && (before[n].publishedAt.Some? ==> after[n].publishedAt == before[n].publishedAt)
         && (before[n].archivedAt.Some? ==> after[n].archivedAt == before[n].archivedAt)
  }

  lemma StepEvolves(db: Database, step: Step)
    ensures Evolves(db.nanos, After(db, step).nanos)
  {
    hide Complete, Upsert, Categories.Reassigned, Decided, Synced;
    if IsFeedback(step.request) {
      FeedbackKeepsNanos(db, step);
    } else if step.request.ReviewCase? {
      ReviewKeepsNanos(db, step.now, step.request.review);
    }
  }

  /** publishedAt and archivedAt are write-once over whole runs, from any database. */
  lemma {:induction false} StampsWriteOnce(db: Database, steps: seq<Step>, i: nat, j: nat)
    requires i <= j <= |steps|
    ensures Evolves(Run(db, steps[..i]).nanos, Run(db, steps[..j]).nanos)
    decreases j
  {
    if i < j {
      StampsWriteOnce(db, steps, i, j - 1);
      assert steps[..j][..j - 1] == steps[..j - 1];
      StepEvolves(Run(db, steps[..j - 1]), steps[j - 1]);
    }
  }

  /** A step that changes a nano's metadata is its creator's edit of a draft, which stays a draft. */
  lemma MetadataOnlyInDraft(db: Database, step: Step, n: nat)
    requires n < |db.nanos| <= |After(db, step).nanos|
    requires After(db, step).nanos[n].metadata != db.nanos[n].metadata
    ensures db.nanos[n].status == Draft && After(db, step).nanos[n].status == Draft
    ensures step.request.EditMetadata? && step.request.nano == n && step.request.user == db.nanos[n].creator
  {
    hide Complete, Upsert, Categories.Reassigned, Decided, Synced;
    if IsFeedback(step.request) {
      FeedbackKeepsNanos(db, step);
    } else if step.request.ReviewCase? {
      ReviewKeepsNanos(db, step.now, step.request.review);
    }
  }

  // ---- the state machine -----------------------------------------------------------------------------------

  ghost predicate IsReviewOf(db: Database, request: Request, n: nat) {
    && request.ReviewCase? && request.review.case_ < |db.cases|
    && IsFor(db.cases[request.review.case_], NanoContent, n)
  }

  /**
   Outside case reviews every route moves a nano along the documented transitions only; a nano reaches
   published through someone who moderates, and leaves it for draft within a day of publication.
   */
  lemma StatusFollowsTable(db: Database, step: Step, n: nat)
    requires n < |db.nanos| <= |After(db, step).nanos|
    requires !IsReviewOf(db, step.request, n)
    ensures
      var before, after := db.nanos[n], After(db, step).nanos[n];
      after.status != before.status ==>
        && Allowed(before.status, after.status)
        && (after.status == Published ==> step.request.ChangeStatus? && step.request.actor.Moderates())
        && (before.status == Published && after.status == Draft ==>
              before.publishedAt.Some? && step.now <= before.publishedAt.value + UNPUBLISH_WINDOW_MS)
  {
    hide Complete, Upsert, Categories.Reassigned, Decided, Synced;
    if IsFeedback(step.request) {
      FeedbackKeepsNanos(db, step);
    } else if step.request.ReviewCase? {
      ReviewKeepsNanos(db, step.now, step.request.review);
    }
  }

  /**
   A case review looks at the decision and the metadata, not at the nano's status: whatever the status was,
   an approval of a complete nano publishes it, a rejection makes it a draft, and nothing else moves it.
   */
  lemma ReviewIgnoresStatus(db: Database, step: Step, n: nat)
    requires n < |db.nanos| <= |After(db, step).nanos| && IsReviewOf(db, step.request, n)
    ensures
      var before, after := db.nanos[n], After(db, step).nanos[n];
      var decision := step.request.review.decision;
      after.status ==
        if decision == Approve && Complete(before.metadata) then Published
        else if decision == Reject then Draft
        else before.status
  {
  }

  ghost predicate Retired(s: NanoStatus) {
    s == Archived || s == Deleted
  }

  /** No step of the run reviews the case of nano `n`. */
  ghost predicate Unreviewed(db: Database, steps: seq<Step>, n: nat) {
    steps == [] || (
      var m := |steps| - 1;
      Unreviewed(db, steps[..m], n) && !IsReviewOf(Run(db, steps[..m]), steps[m].request, n))
  }

  /**
   Left alone by case reviews, an archived or deleted nano never comes back, over runs of any length: it is
   never published or editable again, and once deleted it stays deleted.
   */
  lemma {:induction false} RetiredStaysRetired(db: Database, steps: seq<Step>, n: nat)
    requires n < |db.nanos| && Retired(db.nanos[n].status) && Unreviewed(db, steps, n)
    ensures
      var db' := Run(db, steps);
      && n < |db'.nanos| && Retired(db'.nanos[n].status) && db'.nanos[n].metadata == db.nanos[n].metadata
      && (db.nanos[n].status == Deleted ==> db'.nanos[n].status == Deleted)
  {
    if steps != [] {
      var m := |steps| - 1;
      RetiredStaysRetired(db, steps[..m], n);
      var before := Run(db, steps[..m]);
      StepEvolves(before, steps[m]);
      StatusFollowsTable(before, steps[m], n);
      hide After;
      if After(before, steps[m]).nanos[n].metadata != before.nanos[n].metadata {
        MetadataOnlyInDraft(before, steps[m], n);
      }
    }
  }

  /**
   So "deleted" is final exactly against everything but case reviews: a deleted nano leaves that status in
   a step if and only if the step reviews its case with a rejection, or with an approval that its metadata
   supports.
   */
  lemma DeletedLeftExactly(db: Database, step: Step, n: nat)
    requires n < |db.nanos| <= |After(db, step).nanos| && db.nanos[n].status == Deleted
    ensures After(db, step).nanos[n].status != Deleted <==>
      && IsReviewOf(db, step.request, n)
      && (step.request.review.decision == Reject ||
          (step.request.review.decision == Approve && Complete(db.nanos[n].metadata)))
  {
    if IsReviewOf(db, step.request, n) {
      ReviewIgnoresStatus(db, step, n);
    } else {
      StatusFollowsTable(db, step, n);
    }
  }

  lemma RunNext(db: Database, steps: seq<Step>, step: Step)
    ensures Run(db, steps + [step]) == After(Run(db, steps), step)
  {
    assert (steps + [step])[..|steps|] == steps;
  }

  /** Upload, submit, withdraw, delete: the case opened by the submission outlives the nano. */
  function DeletionRun(): seq<Step> {
    var author := Actor(1, Creator);
    [Step(0, Upload(1, "Excel"))]
      + [Step(1, ChangeStatus(0, author, PendingReview))]
      + [Step(2, ChangeStatus(0, author, Draft))]
      + [Step(3, Delete(0, 1))]
  }

  /** Rejecting that case turns the deleted nano into a draft again. */
  lemma DeletedIsNotTerminal()
    ensures
      var db := Run(Empty([]), DeletionRun());
      var db' := After(db, Step(4, ReviewCase(Review(0, Reject, 2, None, None))));
      && |db.nanos| == |db'.nanos| == 1
      && db.nanos[0].status == Deleted && db'.nanos[0].status == Draft
  {
    hide Run, After;
    var author := Actor(1, Creator);
    var s0, s1 := Step(0, Upload(1, "Excel")), Step(1, ChangeStatus(0, author, PendingReview));
    var s2, s3 := Step(2, ChangeStatus(0, author, Draft)), Step(3, Delete(0, 1));
    RunNext(Empty([]), [], s0);
    RunNext(Empty([]), [s0], s1);
    RunNext(Empty([]), [s0] + [s1], s2);
    RunNext(Empty([]), [s0] + [s1] + [s2], s3);
    assert [] + [s0] == [s0];
    RunNothing(Empty([]));
    var submitted := After(After(Empty([]), s0), s1);
    SubmissionOpensCase();
    var deleted := After(After(submitted, s2), s3);
    DeletionKeepsCase(submitted);
    RejectionRevives(deleted);
  }

  lemma SubmissionOpensCase()
    ensures
      var uploaded := After(Empty([]), Step(0, Upload(1, "Excel")));
      var submitted := After(uploaded, Step(1, ChangeStatus(0, Actor(1, Creator), PendingReview)));
      && |submitted.nanos| == 1 && submitted.nanos[0].creator == 1 && submitted.nanos[0].status == PendingReview
      && submitted.cases == [NewCase(NanoContent, 0, None, 1)]
  {
    hide Complete, Strip, Backfilled, ApprovedScores;
    var uploaded := After(Empty([]), Step(0, Upload(1, "Excel")));
    assert uploaded.nanos == [Uploaded(1, "Excel")] && uploaded.cases == [];
    SubmissionOf(uploaded);
  }

  lemma SubmissionOf(uploaded: Database)
    requires |uploaded.nanos| == 1 && uploaded.nanos[0].creator == 1 && uploaded.nanos[0].status == Draft
    requires uploaded.cases == []
    ensures
      var submitted := After(uploaded, Step(1, ChangeStatus(0, Actor(1, Creator), PendingReview)));
      && |submitted.nanos| == 1 && submitted.nanos[0].creator == 1 && submitted.nanos[0].status == PendingReview
      && submitted.cases == [NewCase(NanoContent, 0, None, 1)]
  {
    hide Complete, Strip, Backfilled, ApprovedScores;
  }

  lemma RejectionRevives(deleted: Database)
    requires |deleted.nanos| == 1 && deleted.cases == [NewCase(NanoContent, 0, None, 1)]
    ensures
      var revived := After(deleted, Step(4, ReviewCase(Review(0, Reject, 2, None, None))));
      |revived.nanos| == 1 && revived.nanos[0].status == Draft
  {
    hide Complete, Strip, Backfilled, ApprovedScores, FindCase;
  }

  lemma DeletionKeepsCase(submitted: Database)
    requires |submitted.nanos| == 1 && submitted.nanos[0].creator == 1 && submitted.nanos[0].status == PendingReview
    ensures
      var deleted := After(After(submitted, Step(2, ChangeStatus(0, Actor(1, Creator), Draft))), Step(3, Delete(0, 1)));
      |deleted.nanos| == 1 && deleted.nanos[0].status == Deleted && deleted.cases == submitted.cases
  {
    hide Complete, Strip, Backfilled, ApprovedScores, FindCase;
  }

  lemma RunNothing(db: Database)
    ensures Run(db, []) == db
  {
  }

  // ---- takedown ----------------------------------------------------------------------------------------------

  /** A takedown leaves the tables as they were exactly for a nano out of public view that has an archive date. */
  lemma TakedownChangesNothingExactly(db: Database, now: int, n: nat)
    requires n < |db.nanos|
    ensures After(db, Step(now, Takedown(n))) == db <==> db.nanos[n].status != Published && db.nanos[n].archivedAt.Some?
  {
    var nano := db.nanos[n];
    var status := if nano.status == Published then Archived else nano.status;
    var stamped := nano.(status := status, archivedAt := Stamp(nano.archivedAt, now));
    assert After(db, Step(now, Takedown(n))).nanos[n] == stamped;
    if status == nano.status && nano.archivedAt.Some? {
      assert db.nanos[n := nano] == db.nanos;
    }
  }

  /** A date a takedown stamps on a nano that was never archived is the one it keeps, whenever it is archived later. */
  lemma TakedownDateStays(db: Database, now: int, n: nat, steps: seq<Step>)
    requires n < |db.nanos| && db.nanos[n].archivedAt.None?
    ensures
      var later := Run(After(db, Step(now, Takedown(n))), steps);
      n < |later.nanos| && later.nanos[n].archivedAt == Some(now)
  {
    var stamped := After(db, Step(now, Takedown(n)));
    StampsWriteOnce(stamped, steps, 0, |steps|);
    assert steps[..0] == [] && steps[..|steps|] == steps;
  }

  /** A draft taken down at 1 and archived by its creator at 9 carries the archive date 1. */
  lemma TakedownStampsDraft()
    ensures
      var draft := After(Empty([]), Step(0, Upload(1, "Excel")));
      var stamped := After(draft, Step(1, Takedown(0)));
      var archived := After(stamped, Step(9, ChangeStatus(0, Actor(1, Creator), Archived)));
      && |draft.nanos| == |stamped.nanos| == |archived.nanos| == 1
      && draft.nanos[0].status == stamped.nanos[0].status == Draft && stamped != draft
      && archived.nanos[0].status == Archived && archived.nanos[0].archivedAt == Some(1)
  {
    hide After;
    var draft := After(Empty([]), Step(0, Upload(1, "Excel")));
    UploadDrafts();
    StampsAndArchives(draft);
  }

  lemma UploadDrafts()
    ensures After(Empty([]), Step(0, Upload(1, "Excel"))).nanos == [Uploaded(1, "Excel")]
  {
  }

  lemma StampsAndArchives(draft: Database)
    requires draft.nanos == [Uploaded(1, "Excel")]
    ensures
      var stamped := After(draft, Step(1, Takedown(0)));
      var archived := After(stamped, Step(9, ChangeStatus(0, Actor(1, Creator), Archived)));
      && stamped.nanos == [Uploaded(1, "Excel").(archivedAt := Some(1))]
      && archived.nanos == [Uploaded(1, "Excel").(archivedAt := Some(1), status := Archived)]
  {
    hide Complete, Strip, Upsert;
  }

  // ---- refusals --------------------------------------------------------------------------------------------

  /** Whatever the request, anything but success leaves every table as it was. */
  lemma RefusedChangesNothing(db: Database, step: Step)
    ensures Execute(db, step.now, step.request).1 != Ok ==> After(db, step) == db
  {
    hide Complete, Upsert, Strip, Sanitiser.Accept, Categories.Reassigned, Backfilled, Decided, Synced;
  }

  /** The steps of a run that were answered with success, each in its turn. */
  function Accepted(db: Database, steps: seq<Step>): seq<Step> {
    if steps == [] then []
    else
      var m := |steps| - 1;
      var before := Accepted(db, steps[..m]);
      if Execute(Run(db, steps[..m]), steps[m].now, steps[m].request).1 == Ok then before + [steps[m]] else before
  }

  /** The whole state is the work of the accepted requests: the refused ones can be struck from any run. */
  lemma {:induction false} RefusalsLeaveNoTrace(db: Database, steps: seq<Step>)
    ensures Run(db, Accepted(db, steps)) == Run(db, steps)
    ensures Accepted(db, Accepted(db, steps)) == Accepted(db, steps)
  {
    if steps != [] {
      var m := |steps| - 1;
      var before := Accepted(db, steps[..m]);
      RefusalsLeaveNoTrace(db, steps[..m]);
      RefusedChangesNothing(Run(db, steps[..m]), steps[m]);
      hide Execute;
      if Accepted(db, steps) != before {
        assert (before + [steps[m]])[..|before|] == before;
      }
    }
  }

  /**
   A refused case review is answered 404 or 400, never 422: 404 when there is no such case, 400 exactly when
   it approves an existing nano whose metadata is incomplete.
   */
  lemma ReviewRefusals(db: Database, now: int, r: Review)
    ensures
      var http := Execute(db, now, ReviewCase(r)).1;
      && http in {Ok, NotFound, BadRequest}
      && (http == NotFound <==> r.case_ >= |db.cases|)
      && (http == BadRequest <==>
          && r.case_ < |db.cases| && db.cases[r.case_].contentType == NanoContent
          && db.cases[r.case_].contentId < |db.nanos| && r.decision == Approve
          && !Complete(db.nanos[db.cases[r.case_].contentId].metadata))
  {
    hide Complete, Synced, Decided;
  }
}
