/**
 The committed effect of every request that touches nanos, feedback, flags or moderation cases, as a
 function of the database: app/modules/nanos/service.py and app/modules/moderation/service.py. A request
 that is refused leaves the database as it was.
 */
module Lifecycle {
  import opened Options
  import opened Text
  import opened Catalog
  import Categories
  import Ratings
  import Sanitiser

  datatype Http = Ok | NotFound | Forbidden | BadRequest | Conflict | Unprocessable

  /** A field of a partial update: not mentioned, explicitly null, or given. */
  datatype Field<T> = Absent | Null | Set(value: T)

  datatype Patch = Patch(
    title: Field<string>,
    description: Field<string>,
    durationMinutes: Field<int>,
    language: Field<string>,
    level: Field<Level>,
    format: Field<Format>,
    license: Field<License>,
    categories: Field<seq<CategoryId>>)

  datatype Decision = Approve | Reject | Defer | Escalate

  datatype Review = Review(
    case_: nat, decision: Decision, moderator: UserId, reason: Option<string>, deferredUntil: Option<int>)

  datatype Request =
    | Upload(creator: UserId, title: string)
    | EditMetadata(nano: nat, user: UserId, patch: Patch)
    | ChangeStatus(nano: nat, actor: Actor, target: NanoStatus)
    | Takedown(nano: nat)
    | Delete(nano: nat, user: UserId)
    | CreateRating(nano: nat, user: UserId, score: int)
    | UpdateRating(nano: nat, user: UserId, score: int)
    | ModerateRating(nano: nat, rating: nat, moderator: UserId, approve: bool, reason: Option<string>)
    | CreateComment(nano: nat, user: UserId, content: string)
    | UpdateComment(nano: nat, comment: nat, actor: Actor, content: string)
    | ModerateComment(nano: nat, comment: nat, moderator: UserId, approve: bool, reason: Option<string>)
    | CreateFlag(nano: nat, user: UserId, note: Option<string>)
    | ReviewCase(review: Review)
    | OpenQueue(contentType: Option<ContentType>, status: Option<CaseStatus>)

  // ---- moderation cases --------------------------------------------------------------------------------

  function NewCase(contentType: ContentType, contentId: nat, reporter: Option<UserId>, now: int): Case {
    Case(contentType, contentId, reporter, CasePending, None, None, None, None, None, now)
  }

  /** A case reset to pending, without the metadata of earlier decisions. */
  function Reopened(c: Case, reporter: Option<UserId>): Case {
    Case(c.contentType, c.contentId, if reporter.Some? then reporter else c.reporter,
         CasePending, None, None, None, None, None, c.createdAt)
  }

  function Upsert(cases: seq<Case>, contentType: ContentType, contentId: nat, reporter: Option<UserId>, now: int)
    : seq<Case>
  {
    match FindCase(cases, contentType, contentId)
    case None => cases + [NewCase(contentType, contentId, reporter, now)]
    case Some(i) => cases[i := Reopened(cases[i], reporter)]
  }

  function CaseStatusAfter(d: Decision): CaseStatus {
    match d
    case Approve => CaseApproved
    case Reject => CaseRejected
    case Defer => CaseDeferred
    case Escalate => CaseEscalated
  }

  function Decided(c: Case, r: Review, now: int): Case {
    Case(c.contentType, c.contentId, c.reporter, CaseStatusAfter(r.decision), r.reason, Some(r.moderator), Some(now),
         if r.decision == Defer then r.deferredUntil else None,
         if r.decision == Escalate then r.reason else None,
         c.createdAt)
  }

  /** Pending cases for those of the ids that have no case yet. */
  function InsertMissing(cases: seq<Case>, contentType: ContentType, ids: seq<nat>, now: int): seq<Case> {
    cases + Missing(cases, contentType, ids, now)
  }

  function Missing(cases: seq<Case>, contentType: ContentType, ids: seq<nat>, now: int): seq<Case> {
    if ids == [] then []
    else
      var n := |ids| - 1;
      var before := Missing(cases, contentType, ids[..n], now);
      if FindCase(cases, contentType, ids[n]).None? then before + [NewCase(contentType, ids[n], None, now)] else before
  }

  function PendingNanos(nanos: seq<Nano>): seq<nat> {
    if nanos == [] then []
    else
      var n := |nanos| - 1;
      if nanos[n].status == PendingReview then PendingNanos(nanos[..n]) + [n] else PendingNanos(nanos[..n])
  }

  function PendingRatings(ratings: seq<Rating>): seq<nat> {
    if ratings == [] then []
    else
      var n := |ratings| - 1;
      if ratings[n].status == Pending then PendingRatings(ratings[..n]) + [n] else PendingRatings(ratings[..n])
  }

  function PendingComments(comments: seq<Comment>): seq<nat> {
    if comments == [] then []
    else
      var n := |comments| - 1;
      if comments[n].status == Pending then PendingComments(comments[..n]) + [n] else PendingComments(comments[..n])
  }

  /** The part of a backfill for one content type: nothing unless the queue is opened for it, or for all. */
  function BackfilledFor(
    cases: seq<Case>, filter: Option<ContentType>, contentType: ContentType, ids: seq<nat>, now: int)
    : seq<Case>
  {
    if filter in {None, Some(contentType)} then InsertMissing(cases, contentType, ids, now) else cases
  }

  function Backfilled(db: Database, filter: Option<ContentType>, now: int): seq<Case> {
    var c1 := BackfilledFor(db.cases, filter, NanoContent, PendingNanos(db.nanos), now);
    var c2 := BackfilledFor(c1, filter, RatingContent, PendingRatings(db.ratings), now);
    BackfilledFor(c2, filter, CommentContent, PendingComments(db.comments), now)
  }

  // ---- nanos -------------------------------------------------------------------------------------------

  function Uploaded(creator: UserId, title: string): Nano {
    var short := if |title| > 200 then title[..200] else title;
    Nano(creator, Metadata(short, None, None, "de", Basic, MixedFormat, Proprietary), Draft, None, None, 0, 0)
  }

  predicate TitleOk(f: Field<string>) { f.Set? ==> 1 <= |f.value| <= 200 }
  predicate DescriptionOk(f: Field<string>) { f.Set? ==> |f.value| <= 2000 }
  predicate DurationOk(f: Field<int>) { f.Set? ==> 0 < f.value <= 1440 }
  predicate LanguageOk(f: Field<string>) { f.Set? ==> |f.value| == 2 }
  predicate CategoriesOk(f: Field<seq<CategoryId>>) { f.Set? ==> |f.value| <= 5 }

  /** The limits of the request schema. */
  predicate WithinLimits(p: Patch) {
    TitleOk(p.title) && DescriptionOk(p.description) && DurationOk(p.durationMinutes) && LanguageOk(p.language)
    && CategoriesOk(p.categories)
  }

  /** Fields that must not be set to null. */
  predicate NullsAllowed(p: Patch) {
    !p.title.Null? && !p.language.Null? && !p.level.Null? && !p.format.Null? && !p.license.Null? && !p.categories.Null?
  }

  function Given<T>(f: Field<T>, old_: T): T {
    match f
    case Set(v) => v
    case _ => old_
  }

  function GivenOrNone<T>(f: Field<T>, old_: Option<T>): Option<T> {
    match f
    case Set(v) => Some(v)
    case Null => None
    case Absent => old_
  }

  function Edited(m: Metadata, p: Patch): Metadata {
    Metadata(Given(p.title, m.title), GivenOrNone(p.description, m.description),
             GivenOrNone(p.durationMinutes, m.durationMinutes), Given(p.language, m.language),
             Given(p.level, m.level), Given(p.format, m.format), Given(p.license, m.license))
  }

  predicate CategoriesExist(db: Database, f: Field<seq<CategoryId>>) {
    f.Set? ==> forall i | 0 <= i < |f.value| :: f.value[i] < |db.categories|
  }

  function EditMetadataOf(db: Database, n: nat, user: UserId, p: Patch): (Database, Http) {
    if !WithinLimits(p) then (db, Unprocessable)
    else if n >= |db.nanos| then (db, NotFound)
    else if db.nanos[n].creator != user then (db, Forbidden)
    else if db.nanos[n].status != Draft || !NullsAllowed(p) || !CategoriesExist(db, p.categories) then (db, BadRequest)
    else
      var nano := db.nanos[n].(metadata := Edited(db.nanos[n].metadata, p));
      var assignments :=
        if p.categories.Set? then Categories.Reassigned(db.assignments, n, p.categories.value) else db.assignments;
      (db.(nanos := db.nanos[n := nano], assignments := assignments), Ok)
  }

  /** The documented state machine. */
  predicate Allowed(from: NanoStatus, to: NanoStatus) {
    match from
    case Draft => to in {PendingReview, Published, Archived, Deleted}
    case PendingReview => to in {Draft, Published, Archived}
    case Published => to in {Archived, Draft}
    case Archived => to == Deleted
    case Deleted => false
  }

  const UNPUBLISH_WINDOW_MS := 24 * 3600 * 1000

  function Stamp(old_: Option<int>, now: int): Option<int> {
    if old_.None? then Some(now) else old_
  }

  function ChangeStatusOf(db: Database, now: int, n: nat, actor: Actor, target: NanoStatus): (Database, Http) {
    if n >= |db.nanos| then (db, NotFound)
    else
      var nano := db.nanos[n];
      var isCreator := nano.creator == actor.user;
      if !isCreator && !actor.Moderates() then (db, Forbidden)
      else if !isCreator && nano.status != PendingReview then (db, Forbidden)
      else if !isCreator && target !in {Published, Draft} then (db, Forbidden)
      else if isCreator && !actor.Moderates() && target == Published then (db, Forbidden)
      else if nano.status == target then (db, Ok)
      else if !Allowed(nano.status, target) then (db, BadRequest)
      else if nano.status == Published && target == Draft
        && (nano.publishedAt.None? || now - nano.publishedAt.value > UNPUBLISH_WINDOW_MS) then (db, BadRequest)
      else if target == Published && !Complete(nano.metadata) then (db, BadRequest)
      else
        var changed := nano.(
          status := target,
          publishedAt := if target == Published then Stamp(nano.publishedAt, now) else nano.publishedAt,
          archivedAt := if target == Archived then Stamp(nano.archivedAt, now) else nano.archivedAt);
        var cases := if target == PendingReview then Upsert(db.cases, NanoContent, n, None, now) else db.cases;
        (db.(nanos := db.nanos[n := changed], cases := cases), Ok)
  }

  function TakedownOf(db: Database, now: int, n: nat): (Database, Http) {
    if n >= |db.nanos| then (db, NotFound)
    else
      var nano := db.nanos[n];
      var status := if nano.status == Published then Archived else nano.status;
      (db.(nanos := db.nanos[n := nano.(status := status, archivedAt := Stamp(nano.archivedAt, now))]), Ok)
  }

  function DeleteOf(db: Database, n: nat, user: UserId): (Database, Http) {
    if n >= |db.nanos| then (db, NotFound)
    else if db.nanos[n].creator != user then (db, Forbidden)
    else if db.nanos[n].status !in {Draft, Archived} then (db, BadRequest)
    else (db.(nanos := db.nanos[n := db.nanos[n].(status := Deleted)]), Ok)
  }

  // ---- feedback ----------------------------------------------------------------------------------------

  /** The nano with its rating cache recomputed from the approved ratings. */
  function Synced(nanos: seq<Nano>, ratings: seq<Rating>, n: nat): seq<Nano> {
    if n >= |nanos| then nanos
    else
      var scores := ApprovedScores(ratings, n);
      nanos[n := nanos[n].(averageCents := Ratings.AverageCents(scores), ratingCount := |scores|)]
  }

  lemma {:induction false} ApprovedAreScores(ratings: seq<Rating>, n: nat)
    requires forall r | 0 <= r < |ratings| :: 1 <= ratings[r].score <= 5
    ensures Ratings.AllScores(ApprovedScores(ratings, n))
  {
    if ratings != [] {
      ApprovedAreScores(ratings[..|ratings| - 1], n);
    }
  }

  function CreateRatingOf(db: Database, now: int, n: nat, user: UserId, score: int): (Database, Http) {
    if !(1 <= score <= 5) then (db, Unprocessable)
    else if n >= |db.nanos| then (db, NotFound)
    else if db.nanos[n].status != Published then (db, BadRequest)
    else if FindRating(db.ratings, n, user).Some? then (db, Conflict)
    else
      var ratings := db.ratings + [Rating(n, user, score, Pending, None)];
      (db.(nanos := Synced(db.nanos, ratings, n), ratings := ratings,
           cases := Upsert(db.cases, RatingContent, |db.ratings|, None, now)), Ok)
  }

  function UpdateRatingOf(db: Database, now: int, n: nat, user: UserId, score: int): (Database, Http) {
    if !(1 <= score <= 5) then (db, Unprocessable)
    else if n >= |db.nanos| then (db, NotFound)
    else if db.nanos[n].status != Published then (db, BadRequest)
    else match FindRating(db.ratings, n, user)
      case None => (db, NotFound)
      case Some(r) =>
        var ratings := db.ratings[r := db.ratings[r].(score := score, status := Pending, verdict := None)];
        (db.(nanos := Synced(db.nanos, ratings, n), ratings := ratings,
             cases := Upsert(db.cases, RatingContent, r, None, now)), Ok)
  }

  function StatusFor(approve: bool): FeedbackStatus {
    if approve then Approved else Hidden
  }

  function ModerateRatingOf(
    db: Database, now: int, n: nat, r: nat, moderator: UserId, approve: bool, reason: Option<string>)
    : (Database, Http)
  {
    if n >= |db.nanos| then (db, NotFound)
    else if db.nanos[n].status != Published then (db, BadRequest)
    else if r >= |db.ratings| || db.ratings[r].nano != n then (db, NotFound)
    else
      var rating := db.ratings[r].(status := StatusFor(approve), verdict := Some(Verdict(now, moderator, reason)));
      var ratings := db.ratings[r := rating];
      (db.(nanos := Synced(db.nanos, ratings, n), ratings := ratings), Ok)
  }

  /** The limits of the comment request schema. */
  predicate CommentOk(content: string) {
    1 <= |content| <= 1000 && Strip(content) != ""
  }

  function CreateCommentOf(db: Database, now: int, n: nat, user: UserId, content: string): (Database, Http) {
    if !CommentOk(content) then (db, Unprocessable)
    else if n >= |db.nanos| then (db, NotFound)
    else if db.nanos[n].status != Published then (db, BadRequest)
    else if HasComment(db.comments, n, user) then (db, Conflict)
    else match Sanitiser.Accept(content)
      case None => (db, Unprocessable)
      case Some(text) =>
        (db.(comments := db.comments + [Comment(n, user, text, Pending, None)],
             cases := Upsert(db.cases, CommentContent, |db.comments|, None, now)), Ok)
  }

  function UpdateCommentOf(db: Database, now: int, n: nat, c: nat, actor: Actor, content: string): (Database, Http) {
    if !CommentOk(content) then (db, Unprocessable)
    else if n >= |db.nanos| then (db, NotFound)
    else if db.nanos[n].status != Published then (db, BadRequest)
    else if c >= |db.comments| || db.comments[c].nano != n then (db, NotFound)
    else if db.comments[c].user != actor.user && !actor.Moderates() then (db, Forbidden)
    else match Sanitiser.Accept(content)
      case None => (db, Unprocessable)
      case Some(text) =>
        (db.(comments := db.comments[c := db.comments[c].(content := text, status := Pending, verdict := None)],
             cases := Upsert(db.cases, CommentContent, c, None, now)), Ok)
  }

  function ModerateCommentOf(
    db: Database, now: int, n: nat, c: nat, moderator: UserId, approve: bool, reason: Option<string>)
    : (Database, Http)
  {
    if n >= |db.nanos| then (db, NotFound)
    else if db.nanos[n].status != Published then (db, BadRequest)
    else if c >= |db.comments| || db.comments[c].nano != n then (db, NotFound)
    else
      var comment := db.comments[c].(status := StatusFor(approve), verdict := Some(Verdict(now, moderator, reason)));
      (db.(comments := db.comments[c := comment]), Ok)
  }

  /** The flag comment as the request schema hands it on: trimmed, a blank one dropped. */
  function FlagComment(comment: Option<string>): Option<string> {
    if comment.None? || Strip(comment.value) == "" then None else Some(Strip(comment.value))
  }

  /** What create_nano_flag checks itself; an earlier flag by the same user is not among it. */
  function FlagRefusal(db: Database, n: nat, user: UserId, comment: Option<string>): Option<Http> {
    var given := FlagComment(comment);
    if comment.Some? && |comment.value| > 500 then Some(Unprocessable)
    else if n >= |db.nanos| then Some(NotFound)
    else if db.nanos[n].status != Published then Some(BadRequest)
    else if db.nanos[n].creator == user then Some(Forbidden)
    else if given.Some? && Sanitiser.Accept(given.value).None? then Some(Unprocessable)
    else None
  }

  /** INSERT into the flag table, refused by its declared constraint: one flag per nano and user. */
  function InsertFlag(flags: seq<Flag>, flag: Flag): Option<seq<Flag>> {
    if HasFlag(flags, flag.nano, flag.user) then None else Some(flags + [flag])
  }

  function CreateFlagOf(db: Database, now: int, n: nat, user: UserId, comment: Option<string>): (Database, Http) {
    var refusal := FlagRefusal(db, n, user, comment);
    if refusal.Some? then (db, refusal.value)
    else
      var given := FlagComment(comment);
      var text := if given.Some? then Sanitiser.Accept(given.value) else None;
      match InsertFlag(db.flags, Flag(n, user, text, FlagPending, None, None))
      case None => (db, Conflict)
      case Some(flags) => (db.(flags := flags, cases := Upsert(db.cases, FlagContent, |db.flags|, Some(user), now)), Ok)
  }

  // ---- case review -------------------------------------------------------------------------------------

  function FlagStatusAfter(d: Decision): FlagStatus {
    match d
    case Approve => FlagResolved
    case Reject => FlagClosed
    case Defer => FlagReviewed
    case Escalate => FlagReviewed
  }

  /** The content a decided case is about, after the decision; a missing row is left alone. */
  function ApplyDecision(db: Database, now: int, c: Case, r: Review): (Database, Http) {
    var id := c.contentId;
    match c.contentType
    case NanoContent =>
      if id >= |db.nanos| then (db, Ok)
      else
        var nano := db.nanos[id];
        if r.decision == Approve then
          if !Complete(nano.metadata) then (db, BadRequest)
          else
            var published := nano.(status := Published, publishedAt := Stamp(nano.publishedAt, now));
            (db.(nanos := db.nanos[id := published]), Ok)
        else if r.decision == Reject then (db.(nanos := db.nanos[id := nano.(status := Draft)]), Ok)
        else (db, Ok)
    case RatingContent =>
      if id >= |db.ratings| || r.decision in {Defer, Escalate} then (db, Ok)
      else
        var rating := db.ratings[id].(
          status := StatusFor(r.decision == Approve), verdict := Some(Verdict(now, r.moderator, r.reason)));
        var ratings := db.ratings[id := rating];
        (db.(nanos := Synced(db.nanos, ratings, rating.nano), ratings := ratings), Ok)
    case CommentContent =>
      if id >= |db.comments| || r.decision in {Defer, Escalate} then (db, Ok)
      else
        var comment := db.comments[id].(
          status := StatusFor(r.decision == Approve), verdict := Some(Verdict(now, r.moderator, r.reason)));
        (db.(comments := db.comments[id := comment]), Ok)
    case FlagContent =>
      if id >= |db.flags| then (db, Ok)
      else
        var flag := db.flags[id].(
          status := FlagStatusAfter(r.decision), reviewedAt := Some(now), moderator := Some(r.moderator));
        (db.(flags := db.flags[id := flag]), Ok)
  }

  function ReviewCaseOf(db: Database, now: int, r: Review): (Database, Http) {
    if r.case_ >= |db.cases| then (db, NotFound)
    else
      var c := db.cases[r.case_];
      var (after, http) := ApplyDecision(db, now, c, r);
      if http != Ok then (db, http) else (after.(cases := db.cases[r.case_ := Decided(c, r, now)]), Ok)
  }

  // ---- requests ----------------------------------------------------------------------------------------

  function Execute(db: Database, now: int, request: Request): (Database, Http) {
    match request
    case Upload(creator, title) => (db.(nanos := db.nanos + [Uploaded(creator, title)]), Ok)
    case EditMetadata(n, user, patch) => EditMetadataOf(db, n, user, patch)
    case ChangeStatus(n, actor, target) => ChangeStatusOf(db, now, n, actor, target)
    case Takedown(n) => TakedownOf(db, now, n)
    case Delete(n, user) => DeleteOf(db, n, user)
    case CreateRating(n, user, score) => CreateRatingOf(db, now, n, user, score)
    case UpdateRating(n, user, score) => UpdateRatingOf(db, now, n, user, score)
    case ModerateRating(n, r, moderator, approve, reason) => ModerateRatingOf(db, now, n, r, moderator, approve, reason)
    case CreateComment(n, user, content) => CreateCommentOf(db, now, n, user, content)
    case UpdateComment(n, c, actor, content) => UpdateCommentOf(db, now, n, c, actor, content)
    case ModerateComment(n, c, moderator, approve, reason) =>
      ModerateCommentOf(db, now, n, c, moderator, approve, reason)
    case CreateFlag(n, user, note) => CreateFlagOf(db, now, n, user, note)
    case ReviewCase(review) => ReviewCaseOf(db, now, review)
    case OpenQueue(contentType, status) =>
      (if status in {None, Some(CasePending)} then db.(cases := Backfilled(db, contentType, now)) else db, Ok)
  }

  datatype Step = Step(now: int, request: Request)

  function After(db: Database, step: Step): Database {
    Execute(db, step.now, step.request).0
  }

  function Run(db: Database, steps: seq<Step>): Database {
    if steps == [] then db else After(Run(db, steps[..|steps| - 1]), steps[|steps| - 1])
  }

  /** Empty tables, with a catalogue of categories. */
  function Empty(categories: seq<string>): Database {
    Database([], [], [], [], [], [], categories)
  }
}
