/**
 What moderation and feedback requests accept, and what a case and its content look like afterwards:
 app/modules/moderation/service.py and the feedback part of app/modules/nanos/service.py.
 */
module Decisions {
  import opened Options
  import opened Text
  import opened Catalog
  import opened Lifecycle
  import FeedbackHistory
  import LifecycleSafety
  import Sanitiser

  predicate Live(db: Database, n: nat) {
    n < |db.nanos| && db.nanos[n].status == Published
  }

  predicate RatedBy(db: Database, n: nat, user: UserId) {
    exists r | 0 <= r < |db.ratings| :: db.ratings[r].nano == n && db.ratings[r].user == user
  }

  predicate CommentedBy(db: Database, n: nat, user: UserId) {
    exists c | 0 <= c < |db.comments| :: db.comments[c].nano == n && db.comments[c].user == user
  }

  predicate FlaggedBy(db: Database, n: nat, user: UserId) {
    exists f | 0 <= f < |db.flags| :: db.flags[f].nano == n && db.flags[f].user == user
  }

  // ---- what is accepted --------------------------------------------------------------------------------------

  /** A rating is accepted once per user, updated only if there is one, and decided only on its own nano. */
  lemma RatingsAccepted(
    db: Database, now: int, n: nat, user: UserId, score: int, r: nat, approve: bool, reason: Option<string>)
    ensures Execute(db, now, CreateRating(n, user, score)).1 == Ok <==>
      1 <= score <= 5 && Live(db, n) && !RatedBy(db, n, user)
    ensures Execute(db, now, UpdateRating(n, user, score)).1 == Ok <==>
      1 <= score <= 5 && Live(db, n) && RatedBy(db, n, user)
    ensures Execute(db, now, ModerateRating(n, r, user, approve, reason)).1 == Ok <==>
      Live(db, n) && r < |db.ratings| && db.ratings[r].nano == n
  {
    hide Upsert, Synced;
  }

  /** A text that is not blank and whose stored form fits. */
  predicate Storable(content: string) {
    1 <= |content| <= 1000 && Strip(content) != "" && |FeedbackHistory.StoredText(content)| <= 1000
  }

  lemma AcceptedIsStorable(content: string)
    ensures Sanitiser.Accept(content).Some? <==> |FeedbackHistory.StoredText(content)| <= 1000
    ensures Sanitiser.Accept(content).Some? ==> Sanitiser.Accept(content).value == FeedbackHistory.StoredText(content)
  {
    hide Strip;
    Sanitiser.NormalizeIsOnePass(Strip(content));
    Sanitiser.EscapeIsPerCharacter(Sanitiser.NewlinesOnce(Strip(content)));
  }

  /** A comment is accepted once per user; its author and moderators may replace it. */
  lemma CommentsAccepted(
    db: Database, now: int, n: nat, actor: Actor, content: string, c: nat, approve: bool, reason: Option<string>)
    ensures Execute(db, now, CreateComment(n, actor.user, content)).1 == Ok <==>
      Storable(content) && Live(db, n) && !CommentedBy(db, n, actor.user)
    ensures Execute(db, now, UpdateComment(n, c, actor, content)).1 == Ok <==>
      && Storable(content) && Live(db, n) && c < |db.comments| && db.comments[c].nano == n
      && (db.comments[c].user == actor.user || actor.role == Moderator || actor.role == Admin)
    ensures Execute(db, now, ModerateComment(n, c, actor.user, approve, reason)).1 == Ok <==>
      Live(db, n) && c < |db.comments| && db.comments[c].nano == n
  {
    hide Upsert, Strip, Sanitiser.Accept, FeedbackHistory.StoredText;
    AcceptedIsStorable(content);
  }

  /** Text without markup, carriage returns or outer whitespace is stored as it was written. */
  lemma {:induction false} PlainTextIsKept(s: string)
    requires forall c | c in s :: c !in {'&', '<', '>', '\r'}
    requires Strip(s) == s
    ensures FeedbackHistory.StoredText(s) == s
  {
    PlainTextUnchanged(s);
  }

  lemma {:induction false} PlainTextUnchanged(s: string)
    requires forall c | c in s :: c !in {'&', '<', '>', '\r'}
    ensures Sanitiser.NewlinesOnce(s) == s && Sanitiser.EscapeEach(s) == s
  {
    if s != [] {
      assert s[0] in s && forall c | c in s[1..] :: c in s;
      PlainTextUnchanged(s[1..]);
    }
  }

  /** A flag is accepted once per user, on another's published nano, and opens a case naming its reporter. */
  lemma FlagsAccepted(db: Database, now: int, n: nat, user: UserId, note: Option<string>)
    ensures
      var (db', http) := Execute(db, now, CreateFlag(n, user, note));
      var blank := note.None? || Strip(note.value) == "";
      && (http == Ok <==>
          && (note.Some? ==> |note.value| <= 500) && Live(db, n) && db.nanos[n].creator != user
          && (blank || |FeedbackHistory.StoredText(note.value)| <= 1000) && !FlaggedBy(db, n, user))
      && (http == Ok ==>
          && db'.flags == db.flags + [Flag(n, user,
               if blank then None else Some(FeedbackHistory.StoredText(note.value)), FlagPending, None, None)]
          && db' == db.(flags := db'.flags, cases := db'.cases))
  {
    hide Upsert, Strip, Sanitiser.Accept, FeedbackHistory.StoredText;
    if note.Some? {
      StripIdempotent(note.value);
      SameStoredText(note.value);
      AcceptedIsStorable(Strip(note.value));
    }
  }

  lemma SameStoredText(s: string)
    ensures FeedbackHistory.StoredText(Strip(s)) == FeedbackHistory.StoredText(s)
  {
    hide Strip;
    StripIdempotent(s);
  }

  // ---- cases --------------------------------------------------------------------------------------------------

  /** The case content enters review with: pending, nothing decided, its reporter kept unless a new one is named. */
  predicate Waiting(c: Case, before: Option<Case>, reporter: Option<UserId>, now: int) {
    && c.status == CasePending && c.reason.None? && c.decidedBy.None? && c.decidedAt.None?
    && c.deferredUntil.None? && c.escalationNote.None?
    && (reporter.Some? ==> c.reporter == reporter)
    && (reporter.None? ==> c.reporter == if before.Some? then before.value.reporter else None)
    && c.createdAt == if before.Some? then before.value.createdAt else now
  }

  lemma UpsertRow(cases: seq<Case>, t: ContentType, id: nat, reporter: Option<UserId>, now: int)
    ensures
      var found, cases' := FindCase(cases, t, id), Upsert(cases, t, id, reporter, now);
      && (found.Some? ==>
          && |cases'| == |cases| && (forall i | 0 <= i < |cases| && i != found.value :: cases'[i] == cases[i])
          && IsFor(cases'[found.value], t, id)
          && Waiting(cases'[found.value], Some(cases[found.value]), reporter, now))
      && (found.None? ==>
          && |cases'| == |cases| + 1 && cases'[..|cases|] == cases
          && IsFor(cases'[|cases|], t, id) && Waiting(cases'[|cases|], None, reporter, now))
  {
  }

  /**
   An accepted review is recorded on its case: the status its decision calls for, who decided, when and why, the
   date of a deferral and the note of an escalation only there. Every other case stays as it is.
   */
  lemma ReviewIsRecorded(db: Database, now: int, r: Review)
    requires Execute(db, now, ReviewCase(r)).1 == Ok
    ensures
      var before, cases' := db.cases[r.case_], Execute(db, now, ReviewCase(r)).0.cases;
      && |cases'| == |db.cases| && (forall i | 0 <= i < |cases'| && i != r.case_ :: cases'[i] == db.cases[i])
      && var c := cases'[r.case_];
      && c.contentType == before.contentType && c.contentId == before.contentId
      && c.reporter == before.reporter && c.createdAt == before.createdAt
      && (c.status == CaseApproved <==> r.decision == Approve) && (c.status == CaseRejected <==> r.decision == Reject)
      && (c.status == CaseDeferred <==> r.decision == Defer) && (c.status == CaseEscalated <==> r.decision == Escalate)
      && c.decidedBy == Some(r.moderator) && c.decidedAt == Some(now) && c.reason == r.reason
      && c.deferredUntil == (if r.decision == Defer then r.deferredUntil else None)
      && c.escalationNote == (if r.decision == Escalate then r.reason else None)
  {
    hide Complete, Synced;
  }

  // ---- content --------------------------------------------------------------------------------------------------

  /** Both moderation routes, one row each: the decision, the moderator's verdict, and nothing else of the table. */
  lemma RatingDecided(db: Database, now: int, n: nat, r: nat, moderator: UserId, approve: bool, reason: Option<string>)
    requires Execute(db, now, ModerateRating(n, r, moderator, approve, reason)).1 == Ok
    ensures
      var db' := Execute(db, now, ModerateRating(n, r, moderator, approve, reason)).0;
      && db'.ratings == db.ratings[r := db.ratings[r].(
           status := if approve then Approved else Hidden, verdict := Some(Verdict(now, moderator, reason)))]
      && db' == db.(nanos := db'.nanos, ratings := db'.ratings)
  {
    hide Synced;
  }

  lemma CommentDecided(db: Database, now: int, n: nat, c: nat, moderator: UserId, approve: bool, reason: Option<string>)
    requires Execute(db, now, ModerateComment(n, c, moderator, approve, reason)).1 == Ok
    ensures Execute(db, now, ModerateComment(n, c, moderator, approve, reason)).0 ==
      db.(comments := db.comments[c := db.comments[c].(
        status := if approve then Approved else Hidden, verdict := Some(Verdict(now, moderator, reason)))])
  {
  }

  /** An approval publishes, dated the first time; a rejection makes a draft; other decisions and nanos do nothing. */
  predicate NanosDecided(before: seq<Nano>, after: seq<Nano>, n: nat, decision: Decision, now: int) {
    if n < |before| && decision == Approve then
      after == before[n := before[n].(
        status := Published,
        publishedAt := if before[n].publishedAt.None? then Some(now) else before[n].publishedAt)]
    else if n < |before| && decision == Reject then after == before[n := before[n].(status := Draft)]
    else after == before
  }

  /**
   What a review does to the content of its case. Feedback: approved or hidden with the verdict, untouched by
   a deferral or escalation. Nanos: published, dated the first time, or back to draft. Flags: resolved,
   closed or reviewed, always with the moderator and the time. Content of other kinds stays as it is.
   */
  lemma ContentDecided(db: Database, now: int, r: Review)
    requires Execute(db, now, ReviewCase(r)).1 == Ok
    ensures
      var c, db' := db.cases[r.case_], Execute(db, now, ReviewCase(r)).0;
      var id, final := c.contentId, r.decision == Approve || r.decision == Reject;
      var verdict := Some(Verdict(now, r.moderator, r.reason));
      && (db'.ratings ==
          if c.contentType == RatingContent && id < |db.ratings| && final then
            db.ratings[id := db.ratings[id].(
              status := if r.decision == Approve then Approved else Hidden, verdict := verdict)]
          else db.ratings)
      && (db'.comments ==
          if c.contentType == CommentContent && id < |db.comments| && final then
            db.comments[id := db.comments[id].(
              status := if r.decision == Approve then Approved else Hidden, verdict := verdict)]
          else db.comments)
      && (db'.flags ==
          if c.contentType == FlagContent && id < |db.flags| then
            db.flags[id := db.flags[id].(
              status := if r.decision == Approve then FlagResolved
                        else if r.decision == Reject then FlagClosed
                        else FlagReviewed,
              reviewedAt := Some(now), moderator := Some(r.moderator))]
          else db.flags)
      && (c.contentType == NanoContent ==> NanosDecided(db.nanos, db'.nanos, id, r.decision, now))
      && db'.assignments == db.assignments && db'.categories == db.categories
  {
    hide Complete, Synced, Decided;
  }
}
