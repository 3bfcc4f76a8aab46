/**
 What ratings and comments say about their past: a row's content is what was last written to it, and its
 status and verdict are those of the last accepted decision since then, by whichever of the two moderation
 routes (app/modules/nanos/service.py, app/modules/moderation/service.py).
 */
module FeedbackHistory {
  import opened Options
  import opened Text
  import opened Catalog
  import opened Lifecycle
  import FeedbackSafety
  import Sanitiser

  // ---- histories of one row ------------------------------------------------------------------------------

  /** What one step does to one row. */
  datatype Effect<T> = Writes(content: T) | Decides(approve: bool, verdict: Verdict) | Nothing

  datatype Standing<T> = Unwritten | Standing(content: T, decision: Option<(bool, Verdict)>)

  function Next<T>(before: Standing<T>, e: Effect<T>): Standing<T> {
    match e
    case Writes(content) => Standing(content, None)
    case Decides(approve, verdict) =>
      if before.Unwritten? then Unwritten else before.(decision := Some((approve, verdict)))
    case Nothing => before
  }

  /** Where a history leaves the row: the last content, and the last decision after it. */
  function Outcome<T>(h: seq<Effect<T>>): Standing<T> {
    if h == [] then Unwritten else Next(Outcome(h[..|h| - 1]), h[|h| - 1])
  }

  /** Position k is an approval (or a rejection), and no write and no opposite decision follows it. */
  ghost predicate LastWord<T(!new)>(h: seq<Effect<T>>, k: nat, approve: bool) {
    && k < |h| && h[k].Decides? && h[k].approve == approve
    && forall m | k < m < |h| :: !h[m].Writes? && (h[m].Decides? ==> h[m].approve == approve)
  }

  ghost predicate LastDecided<T(!new)>(h: seq<Effect<T>>, approve: bool) {
    exists k :: LastWord(h, k, approve)
  }

  lemma {:induction false} OutcomeIsLastWord<T(!new)>(h: seq<Effect<T>>, approve: bool)
    requires Outcome(h).Standing?
    ensures Outcome(h).decision.Some? && Outcome(h).decision.value.0 == approve <==> LastDecided(h, approve)
  {
    var n := |h| - 1;
    var last := h[n];
    if last.Decides? {
      if last.approve == approve {
        assert LastWord(h, n, approve);
      } else {
        assert forall k | LastWord(h, k, approve) :: k == n;
      }
    } else if last.Nothing? {
      OutcomeIsLastWord(h[..n], approve);
      if k: nat :| LastWord(h[..n], k, approve) {
        assert h[k] == h[..n][k] && forall m | k < m < n :: h[m] == h[..n][m];
        assert LastWord(h, k, approve);
      }
      if k: nat :| LastWord(h, k, approve) {
        assert k != n && h[k] == h[..n][k] && forall m | k < m < n :: h[m] == h[..n][m];
        assert LastWord(h[..n], k, approve);
      }
    }
  }

  function StatusOf(decision: Option<(bool, Verdict)>): FeedbackStatus {
    match decision
    case None => Pending
    case Some((true, _)) => Approved
    case Some((false, _)) => Hidden
  }

  function VerdictOf(decision: Option<(bool, Verdict)>): Option<Verdict> {
    if decision.None? then None else Some(decision.value.1)
  }

  // ---- ratings -----------------------------------------------------------------------------------------------

  predicate Succeeds(db: Database, step: Step) {
    Execute(db, step.now, step.request).1 == Ok
  }

  /** A review of the case about content `id` that approves or rejects it. */
  predicate ReviewDecides(db: Database, request: Request, t: ContentType, id: nat) {
    && request.ReviewCase? && request.review.case_ < |db.cases| && IsFor(db.cases[request.review.case_], t, id)
    && request.review.decision in {Approve, Reject}
  }

  function ReviewVerdict(step: Step): Verdict
    requires step.request.ReviewCase?
  {
    Verdict(step.now, step.request.review.moderator, step.request.review.reason)
  }

  /** Nano, author and score of a rating. */
  type RatingContents = (nat, UserId, int)

  function RatingEffect(db: Database, step: Step, r: nat): Effect<RatingContents> {
    if !Succeeds(db, step) then Nothing
    else
      match step.request
      case CreateRating(n, user, score) => if r == |db.ratings| then Writes((n, user, score)) else Nothing
      case UpdateRating(n, user, score) =>
        if r < |db.ratings| && db.ratings[r].nano == n && db.ratings[r].user == user
        then Writes((n, user, score)) else Nothing
      case ModerateRating(n, q, moderator, approve, reason) =>
        if q == r then Decides(approve, Verdict(step.now, moderator, reason)) else Nothing
      case ReviewCase(review) =>
        if r < |db.ratings| && ReviewDecides(db, step.request, RatingContent, r)
        then Decides(review.decision == Approve, ReviewVerdict(step)) else Nothing
      case _ => Nothing
  }

  function RatingHistory(categories: seq<string>, steps: seq<Step>, r: nat): seq<Effect<RatingContents>> {
    if steps == [] then []
    else
      var n := |steps| - 1;
      RatingHistory(categories, steps[..n], r) + [RatingEffect(Run(Empty(categories), steps[..n]), steps[n], r)]
  }

  function RatingAfter(before: Option<Rating>, e: Effect<RatingContents>): Option<Rating> {
    match e
    case Writes((n, user, score)) => Some(Rating(n, user, score, Pending, None))
    case Decides(approve, verdict) =>
      if before.None? then None
      else Some(before.value.(status := if approve then Approved else Hidden, verdict := Some(verdict)))
    case Nothing => before
  }

  function RatingRow(db: Database, r: nat): Option<Rating> {
    if r < |db.ratings| then Some(db.ratings[r]) else None
  }

  /** One step changes one rating's row exactly as its effect on that row says, and no other way. */
  lemma RatingStep(db: Database, step: Step, r: nat)
    requires FeedbackSafety.RatingsOk(db)
    ensures RatingRow(After(db, step), r) == RatingAfter(RatingRow(db, r), RatingEffect(db, step, r))
  {
    hide Complete, Upsert, Strip, Sanitiser.Accept, Backfilled, Decided, Synced, CommentOk, FlagComment, Edited, Stamp,
      Allowed, HasComment, HasFlag;
  }

  function RatingFrom(s: Standing<RatingContents>): Option<Rating> {
    if s.Unwritten? then None
    else Some(Rating(s.content.0, s.content.1, s.content.2, StatusOf(s.decision), VerdictOf(s.decision)))
  }

  lemma RatingNext(before: Standing<RatingContents>, e: Effect<RatingContents>)
    ensures RatingFrom(Next(before, e)) == RatingAfter(RatingFrom(before), e)
  {
  }

  lemma RatingHistoryGrows(categories: seq<string>, steps: seq<Step>, r: nat)
    requires steps != []
    ensures
      var n := |steps| - 1;
      var e := RatingEffect(Run(Empty(categories), steps[..n]), steps[n], r);
      Outcome(RatingHistory(categories, steps, r)) == Next(Outcome(RatingHistory(categories, steps[..n], r)), e)
  {
    hide RatingEffect, Run, Next;
    var h := RatingHistory(categories, steps, r);
    assert h[..|h| - 1] == RatingHistory(categories, steps[..|steps| - 1], r);
  }

  /** In every reachable state the whole row of a rating is what its history leaves. */
  lemma {:induction false} RatingIsItsHistory(categories: seq<string>, steps: seq<Step>, r: nat)
    ensures |RatingHistory(categories, steps, r)| == |steps|
    ensures RatingRow(Run(Empty(categories), steps), r) == RatingFrom(Outcome(RatingHistory(categories, steps, r)))
  {
    if steps != [] {
      hide After, RatingEffect, FeedbackSafety.RatingsOk, Outcome, Next, RatingFrom, RatingAfter, RatingRow;
      var n := |steps| - 1;
      var before := Run(Empty(categories), steps[..n]);
      RatingIsItsHistory(categories, steps[..n], r);
      FeedbackSafety.RunKeepsCache(categories, steps[..n]);
      var e := RatingEffect(before, steps[n], r);
      RatingStep(before, steps[n], r);
      RatingNext(Outcome(RatingHistory(categories, steps[..n], r)), e);
      RatingHistoryGrows(categories, steps, r);
    }
  }

  /**
   A rating is approved exactly when the last accepted decision on it since it was last written was an
   approval, hidden exactly when it was a rejection, and pending exactly when there was none.
   */
  lemma RatingStatusIsLastWord(categories: seq<string>, steps: seq<Step>, r: nat)
    requires r < |Run(Empty(categories), steps).ratings|
    ensures
      var rating, h := Run(Empty(categories), steps).ratings[r], RatingHistory(categories, steps, r);
      && (rating.status == Approved <==> LastDecided(h, true))
      && (rating.status == Hidden <==> LastDecided(h, false))
      && (rating.status == Pending <==> !LastDecided(h, true) && !LastDecided(h, false))
  {
    hide Run, Outcome, RatingHistory, LastDecided;
    RatingIsItsHistory(categories, steps, r);
    OutcomeIsLastWord(RatingHistory(categories, steps, r), true);
    OutcomeIsLastWord(RatingHistory(categories, steps, r), false);
  }

  // ---- comments ----------------------------------------------------------------------------------------------

  /** Nano, author and stored text of a comment. */
  type CommentContents = (nat, UserId, string)

  function StoredText(content: string): string {
    Sanitiser.EscapeEach(Sanitiser.NewlinesOnce(Strip(content)))
  }

  function CommentEffect(db: Database, step: Step, c: nat): Effect<CommentContents> {
    if !Succeeds(db, step) then Nothing
    else
      match step.request
      case CreateComment(n, user, content) =>
        if c == |db.comments| then Writes((n, user, StoredText(content))) else Nothing
      case UpdateComment(n, d, actor, content) =>
        if d == c < |db.comments| then Writes((n, db.comments[c].user, StoredText(content))) else Nothing
      case ModerateComment(n, d, moderator, approve, reason) =>
        if d == c then Decides(approve, Verdict(step.now, moderator, reason)) else Nothing
      case ReviewCase(review) =>
        if c < |db.comments| && ReviewDecides(db, step.request, CommentContent, c)
        then Decides(review.decision == Approve, ReviewVerdict(step)) else Nothing
      case _ => Nothing
  }

  function CommentHistory(categories: seq<string>, steps: seq<Step>, c: nat): seq<Effect<CommentContents>> {
    if steps == [] then []
    else
      var n := |steps| - 1;
      CommentHistory(categories, steps[..n], c) + [CommentEffect(Run(Empty(categories), steps[..n]), steps[n], c)]
  }

  function CommentAfter(before: Option<Comment>, e: Effect<CommentContents>): Option<Comment> {
    match e
    case Writes((n, user, text)) => Some(Comment(n, user, text, Pending, None))
    case Decides(approve, verdict) =>
      if before.None? then None
      else Some(before.value.(status := if approve then Approved else Hidden, verdict := Some(verdict)))
    case Nothing => before
  }

  function CommentRow(db: Database, c: nat): Option<Comment> {
    if c < |db.comments| then Some(db.comments[c]) else None
  }

  lemma AcceptedText(content: string)
    ensures Sanitiser.Accept(content).Some? ==> Sanitiser.Accept(content).value == StoredText(content)
  {
    hide Strip;
    Sanitiser.NormalizeIsOnePass(Strip(content));
    Sanitiser.EscapeIsPerCharacter(Sanitiser.NewlinesOnce(Strip(content)));
  }

  /** One step changes one comment's row exactly as its effect on that row says, and no other way. */
  lemma CommentStep(db: Database, step: Step, c: nat)
    ensures CommentRow(After(db, step), c) == CommentAfter(CommentRow(db, c), CommentEffect(db, step, c))
  {
    hide Complete, Upsert, Strip, Sanitiser.Accept, Backfilled, Decided, Synced, CommentOk, FlagComment, Edited, Stamp,
      Allowed, HasComment, HasFlag, StoredText, FindRating;
    if step.request.CreateComment? || step.request.UpdateComment? {
      AcceptedText(step.request.content);
    }
  }

  function CommentFrom(s: Standing<CommentContents>): Option<Comment> {
    if s.Unwritten? then None
    else Some(Comment(s.content.0, s.content.1, s.content.2, StatusOf(s.decision), VerdictOf(s.decision)))
  }

  lemma CommentNext(before: Standing<CommentContents>, e: Effect<CommentContents>)
    ensures CommentFrom(Next(before, e)) == CommentAfter(CommentFrom(before), e)
  {
  }

  lemma CommentHistoryGrows(categories: seq<string>, steps: seq<Step>, c: nat)
    requires steps != []
    ensures
      var n := |steps| - 1;
      var e := CommentEffect(Run(Empty(categories), steps[..n]), steps[n], c);
      Outcome(CommentHistory(categories, steps, c)) == Next(Outcome(CommentHistory(categories, steps[..n], c)), e)
  {
    hide CommentEffect, Run, Next;
    var h := CommentHistory(categories, steps, c);
    assert h[..|h| - 1] == CommentHistory(categories, steps[..|steps| - 1], c);
  }

  /** In every reachable state the whole row of a comment is what its history leaves. */
  lemma {:induction false} CommentIsItsHistory(categories: seq<string>, steps: seq<Step>, c: nat)
    ensures |CommentHistory(categories, steps, c)| == |steps|
    ensures CommentRow(Run(Empty(categories), steps), c) == CommentFrom(Outcome(CommentHistory(categories, steps, c)))
  {
    if steps != [] {
      hide After, CommentEffect, Outcome, Next, CommentFrom, CommentAfter, CommentRow;
      var n := |steps| - 1;
      var before := Run(Empty(categories), steps[..n]);
      var e := CommentEffect(before, steps[n], c);
      CommentIsItsHistory(categories, steps[..n], c);
      CommentStep(before, steps[n], c);
      CommentNext(Outcome(CommentHistory(categories, steps[..n], c)), e);
      CommentHistoryGrows(categories, steps, c);
    }
  }

  /** The same three equivalences for comments. */
  lemma CommentStatusIsLastWord(categories: seq<string>, steps: seq<Step>, c: nat)
    requires c < |Run(Empty(categories), steps).comments|
    ensures
      var comment, h := Run(Empty(categories), steps).comments[c], CommentHistory(categories, steps, c);
      && (comment.status == Approved <==> LastDecided(h, true))
      && (comment.status == Hidden <==> LastDecided(h, false))
      && (comment.status == Pending <==> !LastDecided(h, true) && !LastDecided(h, false))
  {
    hide Run, Outcome, CommentHistory, LastDecided;
    CommentIsItsHistory(categories, steps, c);
    OutcomeIsLastWord(CommentHistory(categories, steps, c), true);
    OutcomeIsLastWord(CommentHistory(categories, steps, c), false);
  }
}
