/**
 Exactly which status changes, edits and deletions of a nano succeed, told from the actor, the nano, the target
 and the clock, and what they leave: app/modules/nanos/service.py. And that the publishing routes do publish.
 */
module StatusChanges {
  import opened Options
  import opened Text
  import opened Catalog
  import opened Lifecycle
  import Categories
  import LifecycleSafety
  import PublishingSafety

  // ---- status changes --------------------------------------------------------------------------------------

  /** The ten moves of the state machine. */
  predicate IsMove(from: NanoStatus, to: NanoStatus) {
    || (from == Draft && (to == PendingReview || to == Published || to == Archived || to == Deleted))
    || (from == PendingReview && (to == Draft || to == Published || to == Archived))
    || (from == Published && (to == Archived || to == Draft))
    || (from == Archived && to == Deleted)
  }

  /** Creators do everything but publish; who moderates may publish, and decides on others' submissions only. */
  predicate Entitled(nano: Nano, actor: Actor, target: NanoStatus) {
    var moderates := actor.role == Moderator || actor.role == Admin;
    if nano.creator == actor.user then target != Published || moderates
    else moderates && nano.status == PendingReview && (target == Published || target == Draft)
  }

  /** Unpublishing within 24 hours of publication, publishing with complete metadata. */
  predicate ConditionsMet(nano: Nano, target: NanoStatus, now: int) {
    && (nano.status == Published && target == Draft ==>
          nano.publishedAt.Some? && now <= nano.publishedAt.value + 86400000)
    && (target == Published ==>
          && Strip(nano.metadata.title) != "" && nano.metadata.language != ""
          && nano.metadata.description.Some? && Strip(nano.metadata.description.value) != ""
          && nano.metadata.durationMinutes.Some? && nano.metadata.durationMinutes.value > 0)
  }

  function FirstTime(old_: Option<int>, reached: bool, now: int): Option<int> {
    if reached && old_.None? then Some(now) else old_
  }

  /** Who is refused, what is refused, and what succeeds. */
  lemma ChangeStatusExactly(db: Database, now: int, n: nat, actor: Actor, target: NanoStatus)
    ensures
      var http := Execute(db, now, ChangeStatus(n, actor, target)).1;
      && (http == NotFound <==> n >= |db.nanos|)
      && (http == Forbidden <==> n < |db.nanos| && !Entitled(db.nanos[n], actor, target))
      && (http == Ok <==>
          && n < |db.nanos| && Entitled(db.nanos[n], actor, target)
          && (db.nanos[n].status == target ||
              (IsMove(db.nanos[n].status, target) && ConditionsMet(db.nanos[n], target, now))))
      && http in {NotFound, Forbidden, BadRequest, Ok}
  {
    hide Strip, Upsert;
  }

  /**
   After a success the nano has the target status, dated the first time it is published or archived, and is
   otherwise the same; entering review opens its case; nothing else changes.
   */
  lemma ChangeStatusEffect(db: Database, now: int, n: nat, actor: Actor, target: NanoStatus)
    requires Execute(db, now, ChangeStatus(n, actor, target)).1 == Ok
    ensures
      var nano, db' := db.nanos[n], Execute(db, now, ChangeStatus(n, actor, target)).0;
      var moved := nano.status != target;
      && db'.nanos == db.nanos[n := nano.(
           status := target,
           publishedAt := FirstTime(nano.publishedAt, moved && target == Published, now),
           archivedAt := FirstTime(nano.archivedAt, moved && target == Archived, now))]
      && db' == db.(nanos := db'.nanos, cases := db'.cases)
      && (if moved && target == PendingReview
          then LifecycleSafety.CasesUnique(db.cases) ==> CaseStatusOf(db'.cases, NanoContent, n) == Some(CasePending)
          else db'.cases == db.cases)
  {
    hide Strip, Upsert, Complete;
    if db.nanos[n].status == target {
      assert db.nanos[n := db.nanos[n]] == db.nanos;
    } else if target == PendingReview && LifecycleSafety.CasesUnique(db.cases) {
      LifecycleSafety.UpsertFacts(db.cases, NanoContent, n, None, now);
    }
  }

  lemma CompleteMeans(nano: Nano, now: int)
    ensures nano.status == Draft ==> (ConditionsMet(nano, Published, now) <==> Complete(nano.metadata))
  {
    hide Strip;
  }

  /** Submitting and approving publishes every complete draft, whichever of the two routes the moderator takes. */
  lemma SubmitThenApprove(db: Database, submitted: int, approved: int, n: nat, creator: Actor, moderator: Actor)
    requires n < |db.nanos| && db.nanos[n].status == Draft && ConditionsMet(db.nanos[n], Published, approved)
    requires db.nanos[n].creator == creator.user && moderator.Moderates()
    requires LifecycleSafety.CasesUnique(db.cases)
    ensures
      var review := After(db, Step(submitted, ChangeStatus(n, creator, PendingReview)));
      var published := db.nanos[n].(
        status := Published, publishedAt := FirstTime(db.nanos[n].publishedAt, true, approved));
      && Execute(db, submitted, ChangeStatus(n, creator, PendingReview)).1 == Ok
      && (var direct := Execute(review, approved, ChangeStatus(n, moderator, Published));
          direct.1 == Ok && direct.0.nanos == db.nanos[n := published])
      && FindCase(review.cases, NanoContent, n).Some?
      && (forall reason, until ::
            var decided := Execute(review, approved, ReviewCase(
              Review(FindCase(review.cases, NanoContent, n).value, Approve, moderator.user, reason, until)));
            decided.1 == Ok && decided.0.nanos == db.nanos[n := published])
  {
    hide Strip, Upsert, Complete, FindCase;
    assert Complete(db.nanos[n].metadata) by { CompleteMeans(db.nanos[n], approved); }
    var review := After(db, Step(submitted, ChangeStatus(n, creator, PendingReview)));
    LifecycleSafety.UpsertFacts(db.cases, NanoContent, n, None, submitted);
    assert CaseStatusOf(review.cases, NanoContent, n) == Some(CasePending);
    var waiting := db.nanos[n].(status := PendingReview);
    assert review.nanos == db.nanos[n := waiting];
    var published := db.nanos[n].(
      status := Published, publishedAt := FirstTime(db.nanos[n].publishedAt, true, approved));
    assert review.nanos[n := published] == db.nanos[n := published];
  }

  // ---- uploads, edits, deletion --------------------------------------------------------------------------------

  /** An upload appends one draft of the creator's, titled as given up to 200 characters, neither rated nor dated. */
  lemma UploadStarts(db: Database, now: int, creator: UserId, title: string)
    ensures
      var (db', http) := Execute(db, now, Upload(creator, title));
      && http == Ok && db' == db.(nanos := db'.nanos) && |db'.nanos| == |db.nanos| + 1
      && db'.nanos[..|db.nanos|] == db.nanos
      && var nano := db'.nanos[|db.nanos|];
      && nano.creator == creator && nano.status == Draft && nano.publishedAt.None? && nano.archivedAt.None?
      && nano.ratingCount == 0 && nano.averageCents == 0
      && nano.metadata.title <= title && |nano.metadata.title| == (if |title| < 200 then |title| else 200)
      && !Complete(nano.metadata) && nano.metadata.language == "de"
  {
    hide Strip;
  }

  /** A field after an edit: the given value, or what it was. */
  predicate Holds<T(==)>(f: Field<T>, before: T, after: T) {
    (f.Set? ==> after == f.value) && (!f.Set? ==> after == before)
  }

  predicate HoldsOrNone<T(==)>(f: Field<T>, before: Option<T>, after: Option<T>) {
    (f.Set? ==> after == Some(f.value)) && (f.Null? ==> after == None) && (f.Absent? ==> after == before)
  }

  /** Every given field is stored, an explicit null clears description and duration, and every other field stays. */
  lemma EditStores(db: Database, now: int, n: nat, user: UserId, p: Patch)
    requires Execute(db, now, EditMetadata(n, user, p)).1 == Ok
    ensures
      var db' := Execute(db, now, EditMetadata(n, user, p)).0;
      && db' == db.(nanos := db'.nanos, assignments := db'.assignments)
      && n < |db.nanos| && db'.nanos == db.nanos[n := db.nanos[n].(metadata := db'.nanos[n].metadata)]
      && (var m, m' := db.nanos[n].metadata, db'.nanos[n].metadata;
          && Holds(p.title, m.title, m'.title) && HoldsOrNone(p.description, m.description, m'.description)
          && HoldsOrNone(p.durationMinutes, m.durationMinutes, m'.durationMinutes)
          && Holds(p.language, m.language, m'.language) && Holds(p.level, m.level, m'.level)
          && Holds(p.format, m.format, m'.format) && Holds(p.license, m.license, m'.license))
      && (!p.categories.Set? ==> db'.assignments == db.assignments)
      && (p.categories.Set? ==>
            Categories.Of(db'.assignments, n) == Categories.Ranked(n, Categories.Deduplicated(p.categories.value)))
  {
    hide Categories.Of, Categories.Deduplicated, Categories.Reassigned;
    if p.categories.Set? {
      Categories.ReassignedFacts(db.assignments, n, p.categories.value, n);
    }
  }

  predicate LengthIn(f: Field<string>, low: nat, high: nat) {
    f.Set? ==> low <= |f.value| <= high
  }

  /** An edit succeeds exactly for the creator of a draft, within the limits, with known categories, nothing nulled. */
  lemma EditExactly(db: Database, now: int, n: nat, user: UserId, p: Patch)
    ensures Execute(db, now, EditMetadata(n, user, p)).1 == Ok <==>
      && LengthIn(p.title, 1, 200) && LengthIn(p.description, 0, 2000) && LengthIn(p.language, 2, 2)
      && (p.durationMinutes.Set? ==> 1 <= p.durationMinutes.value <= 1440)
      && (p.categories.Set? ==>
            |p.categories.value| <= 5 && forall id | id in p.categories.value :: id < |db.categories|)
      && n < |db.nanos| && db.nanos[n].creator == user && db.nanos[n].status == Draft
      && !(p.title.Null? || p.language.Null? || p.level.Null?)
      && !(p.format.Null? || p.license.Null? || p.categories.Null?)
  {
    hide Categories.Reassigned;
    if p.categories.Set? {
      var ids := p.categories.value;
      assert forall i | 0 <= i < |ids| :: ids[i] in ids;
    }
  }

  /** A deletion succeeds exactly for the creator of a draft or archived nano, and changes its status only. */
  lemma DeleteExactly(db: Database, now: int, n: nat, user: UserId)
    ensures
      var (db', http) := Execute(db, now, Delete(n, user));
      && (http == Ok <==>
          && n < |db.nanos| && db.nanos[n].creator == user
          && (db.nanos[n].status == Draft || db.nanos[n].status == Archived))
      && (http == Ok ==> db' == db.(nanos := db.nanos[n := db.nanos[n].(status := Deleted)]))
  {
  }
}
