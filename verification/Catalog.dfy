/**
 The rows the publishing and moderation services share (app/models/__init__.py). Tables are sequences of
 rows; a row's number is its primary key, and rows are never removed. Times are integer milliseconds.
 */
module Catalog {
  import opened Options
  import opened Text

  type UserId = nat
  type CategoryId = nat

  datatype Role = Consumer | Creator | Moderator | Admin

  datatype Actor = Actor(user: UserId, role: Role) {
    predicate Moderates() {
      role == Moderator || role == Admin
    }
  }

  datatype NanoStatus = Draft | PendingReview | Published | Archived | Deleted

  datatype Level = Basic | Intermediate | Advanced

  datatype Format = VideoFormat | TextFormat | QuizFormat | InteractiveFormat | MixedFormat

  datatype License = CcBy | CcBySa | Cc0 | Proprietary

  datatype Metadata = Metadata(
    title: string,
    description: Option<string>,
    durationMinutes: Option<int>,
    language: string,
    level: Level,
    format: Format,
    license: License)

  datatype Nano = Nano(
    creator: UserId,
    metadata: Metadata,
    status: NanoStatus,
    publishedAt: Option<int>,
    archivedAt: Option<int>,
    averageCents: int,
    ratingCount: nat)

  datatype FeedbackStatus = Pending | Approved | Hidden

  /** The latest decision on a piece of feedback: when, by whom, why. */
  datatype Verdict = Verdict(at: int, moderator: UserId, reason: Option<string>)

  datatype Rating = Rating(nano: nat, user: UserId, score: int, status: FeedbackStatus, verdict: Option<Verdict>)

  datatype Comment = Comment(nano: nat, user: UserId, content: string, status: FeedbackStatus, verdict: Option<Verdict>)

  datatype FlagStatus = FlagPending | FlagReviewed | FlagResolved | FlagClosed

  datatype Flag = Flag(
    nano: nat, user: UserId, comment: Option<string>, status: FlagStatus,
    reviewedAt: Option<int>, moderator: Option<UserId>)

  datatype ContentType = NanoContent | RatingContent | CommentContent | FlagContent

  datatype CaseStatus = CasePending | CaseApproved | CaseRejected | CaseDeferred | CaseEscalated

  datatype Case = Case(
    contentType: ContentType,
    contentId: nat,
    reporter: Option<UserId>,
    status: CaseStatus,
    reason: Option<string>,
    decidedBy: Option<UserId>,
    decidedAt: Option<int>,
    deferredUntil: Option<int>,
    escalationNote: Option<string>,
    createdAt: int)

  datatype Assignment = Assignment(nano: nat, category: CategoryId, rank: int)

  /** `categories` holds the category names. */
  datatype Database = Database(
    nanos: seq<Nano>,
    ratings: seq<Rating>,
    comments: seq<Comment>,
    flags: seq<Flag>,
    cases: seq<Case>,
    assignments: seq<Assignment>,
    categories: seq<string>)

  /** The metadata a nano needs before it may be published. */
  predicate Complete(m: Metadata) {
    && Strip(m.title) != ""
    && m.description.Some? && Strip(m.description.value) != ""
    && m.durationMinutes.Some? && m.durationMinutes.value > 0
    && m.language != ""
  }

  predicate IsFor(c: Case, contentType: ContentType, contentId: nat) {
    c.contentType == contentType && c.contentId == contentId
  }

  /** The case about a piece of content: SELECT by (content_type, content_id). */
  function FindCase(cases: seq<Case>, contentType: ContentType, contentId: nat): (r: Option<nat>)
    ensures r.Some? ==> r.value < |cases| && IsFor(cases[r.value], contentType, contentId)
    ensures r.None? ==> forall i | 0 <= i < |cases| :: !IsFor(cases[i], contentType, contentId)
  {
    if cases == [] then None
    else if IsFor(cases[|cases| - 1], contentType, contentId) then Some(|cases| - 1)
    else FindCase(cases[..|cases| - 1], contentType, contentId)
  }

  function CaseStatusOf(cases: seq<Case>, contentType: ContentType, contentId: nat): Option<CaseStatus> {
    match FindCase(cases, contentType, contentId)
    case None => None
    case Some(i) => Some(cases[i].status)
  }

  function FindRating(ratings: seq<Rating>, nano: nat, user: UserId): (r: Option<nat>)
    ensures r.Some? ==> r.value < |ratings| && ratings[r.value].nano == nano && ratings[r.value].user == user
    ensures r.None? ==> forall i | 0 <= i < |ratings| :: !(ratings[i].nano == nano && ratings[i].user == user)
  {
    if ratings == [] then None
    else
      var n := |ratings| - 1;
      if ratings[n].nano == nano && ratings[n].user == user then Some(n) else FindRating(ratings[..n], nano, user)
  }

  predicate HasComment(comments: seq<Comment>, nano: nat, user: UserId) {
    exists i | 0 <= i < |comments| :: comments[i].nano == nano && comments[i].user == user
  }

  predicate HasFlag(flags: seq<Flag>, nano: nat, user: UserId) {
    exists i | 0 <= i < |flags| :: flags[i].nano == nano && flags[i].user == user
  }

  /** The approved scores of a nano, in table order. */
  function ApprovedScores(ratings: seq<Rating>, nano: nat): seq<int> {
    if ratings == [] then []
    else
      var n := |ratings| - 1;
      var before := ApprovedScores(ratings[..n], nano);
      if ratings[n].nano == nano && ratings[n].status == Approved then before + [ratings[n].score] else before
  }
}
