/**
 The service functions of app/modules/nanos/service.py and app/modules/moderation/service.py as methods over
 one set of tables, updated in place. Each is proved to make exactly the change Lifecycle describes, and to
 leave every table as it was when it answers with an error.
 */
module Marketplace {
  import opened Options
  import opened Text
  import opened Catalog
  import opened Lifecycle
  import Categories
  import Ratings
  import Sanitiser

  class Session {
    var nanos: seq<Nano>
    var ratings: seq<Rating>
    var comments: seq<Comment>
    var flags: seq<Flag>
    var cases: seq<Case>
    var assignments: seq<Assignment>
    var categories: seq<string>

    function State(): Database
      reads this
    {
      Database(nanos, ratings, comments, flags, cases, assignments, categories)
    }

    // ---- helpers of the moderation service -----------------------------------------------------------------

    method UpsertModerationCase(contentType: ContentType, contentId: nat, reporter: Option<UserId>, now: int)
      modifies this`cases
      ensures cases == Upsert(old(cases), contentType, contentId, reporter, now)
    {
      var found := FindCase(cases, contentType, contentId);
      if found.None? {
        cases := cases + [Case(contentType, contentId, reporter, CasePending, None, None, None, None, None, now)];
      } else {
        var c := cases[found.value];
        c := c.(status := CasePending);
        c := c.(reason := None);
        c := c.(decidedBy := None);
        c := c.(decidedAt := None);
        c := c.(deferredUntil := None);
        c := c.(escalationNote := None);
        if reporter.Some? {
          c := c.(reporter := reporter);
        }
        cases := cases[found.value := c];
      }
    }

    method InsertMissingCases(contentType: ContentType, ids: seq<nat>, now: int) returns (inserted: nat)
      modifies this`cases
      ensures cases == InsertMissing(old(cases), contentType, ids, now)
      ensures inserted == |cases| - |old(cases)|
    {
      var rows := [];
      for i := 0 to |ids|
        invariant cases == old(cases) && rows == Missing(old(cases), contentType, ids[..i], now)
      {
        assert ids[..i + 1][..i] == ids[..i];
        if FindCase(cases, contentType, ids[i]).None? {
          rows := rows + [NewCase(contentType, ids[i], None, now)];
        }
      }
      assert ids[..|ids|] == ids;
      cases := cases + rows;
      return |rows|;
    }

    method OpenQueueFor(contentType: Option<ContentType>, status: Option<CaseStatus>, now: int) returns (http: Http)
      modifies this`cases
      ensures (State(), http) == Execute(old(State()), now, OpenQueue(contentType, status))
    {
      if status in {None, Some(CasePending)} {
        if contentType in {None, Some(NanoContent)} {
          var _ := InsertMissingCases(NanoContent, PendingNanos(nanos), now);
        }
        if contentType in {None, Some(RatingContent)} {
          var _ := InsertMissingCases(RatingContent, PendingRatings(ratings), now);
        }
        if contentType in {None, Some(CommentContent)} {
          var _ := InsertMissingCases(CommentContent, PendingComments(comments), now);
        }
      }
      return Ok;
    }

    /** The moderation service's own recomputation of the cache: count and average only. */
    method SyncAfterReview(n: nat)
      modifies this`nanos
      ensures nanos == Synced(old(nanos), ratings, n)
    {
      if n >= |nanos| {
        return;
      }
      var scores := ApprovedScores(ratings, n);
      var count := |scores|;
      if count == 0 {
        nanos := nanos[n := nanos[n].(averageCents := 0, ratingCount := 0)];
      } else {
        var average := Ratings.QuantizeHalfUp(Ratings.Sum(scores), count);
        nanos := nanos[n := nanos[n].(averageCents := average, ratingCount := count)];
      }
    }

    /** The nanos service's: through the full aggregation. Both write the same values. */
    method SyncNanoRatingCache(n: nat) returns (aggregation: Ratings.Aggregation)
      requires n < |nanos| && Ratings.AllScores(ApprovedScores(ratings, n))
      modifies this`nanos
      ensures nanos == Synced(old(nanos), ratings, n)
      ensures aggregation.averageCents == nanos[n].averageCents && aggregation.count == nanos[n].ratingCount
    {
      aggregation := Ratings.CalculateAggregation(ApprovedScores(ratings, n));
      nanos := nanos[n := nanos[n].(averageCents := aggregation.averageCents, ratingCount := aggregation.count)];
    }

    // ---- nanos -----------------------------------------------------------------------------------------------

    method UploadNano(creator: UserId, title: string, now: int) returns (http: Http)
      modifies this`nanos
      ensures (State(), http) == Execute(old(State()), now, Upload(creator, title))
    {
      var short := title;
      if |short| > 200 {
        short := short[..200];
      }
      var metadata := Metadata(short, None, None, "de", Basic, MixedFormat, Proprietary);
      nanos := nanos + [Nano(creator, metadata, Draft, None, None, 0, 0)];
      return Ok;
    }

    /** The scalar fields, one by one; false when one of them is set to null that must not be. */
    static method PatchMetadata(before: Metadata, p: Patch) returns (ok: bool, m: Metadata)
      ensures ok == NullsAllowed(p.(categories := Absent))
      ensures ok ==> m == Edited(before, p)
    {
      m := before;
      match p.title { case Absent => case Null => return false, m; case Set(v) => m := m.(title := v); }
      match p.description {
        case Absent =>
        case Null => m := m.(description := None);
        case Set(v) => m := m.(description := Some(v));
      }
      match p.durationMinutes {
        case Absent =>
        case Null => m := m.(durationMinutes := None);
        case Set(v) => m := m.(durationMinutes := Some(v));
      }
      match p.language { case Absent => case Null => return false, m; case Set(v) => m := m.(language := v); }
      match p.level { case Absent => case Null => return false, m; case Set(v) => m := m.(level := v); }
      match p.format { case Absent => case Null => return false, m; case Set(v) => m := m.(format := v); }
      match p.license { case Absent => case Null => return false, m; case Set(v) => m := m.(license := v); }
      return true, m;
    }

    method UpdateNanoMetadata(n: nat, user: UserId, p: Patch) returns (http: Http)
      modifies this`nanos, this`assignments
      ensures (State(), http) == EditMetadataOf(old(State()), n, user, p)
    {
      hide Edited, Categories.Deduplicated, Categories.Without, Categories.Ranked;
      if !WithinLimits(p) { return Unprocessable; }
      if n >= |nanos| { return NotFound; }
      if nanos[n].creator != user { return Forbidden; }
      if nanos[n].status != Draft { return BadRequest; }
      var ok, m := PatchMetadata(nanos[n].metadata, p);
      if !ok { return BadRequest; }
      var table := assignments;
      match p.categories {
        case Absent =>
        case Null => return BadRequest;
        case Set(requested) =>
          var unique := Categories.Deduplicate(requested);
          var missing := exists i :: 0 <= i < |unique| && unique[i] >= |categories|;
          Categories.DeduplicatedFacts(requested);
          SameMembers(requested, unique);
          if missing { return BadRequest; }
          table := Categories.AssignCategories(table, n, unique);
      }
      nanos := nanos[n := nanos[n].(metadata := m)];
      assignments := table;
      return Ok;
    }

    lemma SameMembers(a: seq<CategoryId>, b: seq<CategoryId>)
      requires forall id :: id in a <==> id in b
      ensures (forall i | 0 <= i < |a| :: a[i] < |categories|) <==> (forall i | 0 <= i < |b| :: b[i] < |categories|)
    {
      assert forall i | 0 <= i < |a| :: a[i] in b;
      assert forall i | 0 <= i < |b| :: b[i] in a;
    }

    /** The list both completeness validators build; empty exactly for complete metadata. */
    static method MissingFields(m: Metadata) returns (missing: seq<string>)
      ensures "title" in missing <==> Strip(m.title) == ""
      ensures "description" in missing <==> m.description.None? || Strip(m.description.value) == ""
      ensures "duration_minutes" in missing <==> m.durationMinutes.None? || m.durationMinutes.value <= 0
      ensures "language" in missing <==> m.language == ""
      ensures missing == [] <==> Complete(m)
    {
      hide Strip;
      missing := [];
      if m.title == "" || Strip(m.title) == "" {
        StripEmpty();
        missing := missing + ["title"];
      }
      if m.description.None? || m.description.value == "" || Strip(m.description.value) == "" {
        StripEmpty();
        missing := missing + ["description"];
      }
      if m.durationMinutes.None? || m.durationMinutes.value <= 0 {
        missing := missing + ["duration_minutes"];
      }
      if m.language == "" {
        missing := missing + ["language"];
      }
    }

    static lemma StripEmpty()
      ensures Strip("") == ""
    {
    }

    method UpdateNanoStatus(n: nat, actor: Actor, target: NanoStatus, now: int) returns (http: Http)
      modifies this`nanos, this`cases
      ensures (State(), http) == ChangeStatusOf(old(State()), now, n, actor, target)
    {
      if n >= |nanos| { return NotFound; }
      var nano := nanos[n];
      var oldStatus := nano.status;
      var isCreator := nano.creator == actor.user;
      var isModerator := actor.role == Admin || actor.role == Moderator;
      if !isCreator && !isModerator { return Forbidden; }
      if !isCreator && isModerator && oldStatus != PendingReview { return Forbidden; }
      if !isCreator && isModerator && target != Published && target != Draft { return Forbidden; }
      if isCreator && !isModerator && target == Published { return Forbidden; }
      if oldStatus == target { return Ok; }
      if !Allowed(oldStatus, target) { return BadRequest; }
      if oldStatus == Published && target == Draft {
        if nano.publishedAt.None? { return BadRequest; }
        if now - nano.publishedAt.value > UNPUBLISH_WINDOW_MS { return BadRequest; }
      }
      if target == Published {
        var missing := MissingFields(nano.metadata);
        if missing != [] { return BadRequest; }
      }
      nano := nano.(status := target);
      if target == Published && nano.publishedAt.None? {
        nano := nano.(publishedAt := Some(now));
      }
      if target == Archived && nano.archivedAt.None? {
        nano := nano.(archivedAt := Some(now));
      }
      nanos := nanos[n := nano];
      if target == PendingReview {
        UpsertModerationCase(NanoContent, n, None, now);
      }
      return Ok;
    }

    /** Reports whether the nano was already out of public view, and when it was removed. */
    method AdminTakedownNano(n: nat, now: int) returns (http: Http, alreadyRemoved: bool, takenDownAt: int)
      modifies this`nanos
      ensures (State(), http) == TakedownOf(old(State()), now, n)
      ensures http == Ok ==>
        && alreadyRemoved == (old(nanos)[n].status != Published)
        && nanos[n].status != Published && nanos[n].archivedAt.Some?
        && takenDownAt == if alreadyRemoved then nanos[n].archivedAt.value else now
    {
      alreadyRemoved, takenDownAt := false, now;
      if n >= |nanos| { return NotFound, alreadyRemoved, takenDownAt; }
      var nano := nanos[n];
      alreadyRemoved := nano.status != Published;
      if !alreadyRemoved {
        nano := nano.(status := Archived);
        if nano.archivedAt.None? {
          nano := nano.(archivedAt := Some(takenDownAt));
        }
      } else {
        if nano.archivedAt.None? {
          nano := nano.(archivedAt := Some(now));
        }
        takenDownAt := nano.archivedAt.value;
      }
      nanos := nanos[n := nano];
      return Ok, alreadyRemoved, takenDownAt;
    }

    method DeleteNano(n: nat, user: UserId) returns (http: Http)
      modifies this`nanos
      ensures (State(), http) == DeleteOf(old(State()), n, user)
    {
      if n >= |nanos| { return NotFound; }
      if nanos[n].creator != user { return Forbidden; }
      if nanos[n].status != Draft && nanos[n].status != Archived { return BadRequest; }
      nanos := nanos[n := nanos[n].(status := Deleted)];
      return Ok;
    }

    // ---- feedback --------------------------------------------------------------------------------------------

    ghost predicate ScoresInRange()
      reads this
    {
      forall r | 0 <= r < |ratings| :: 1 <= ratings[r].score <= 5
    }

    method CreateNanoRating(n: nat, user: UserId, score: int, now: int) returns (http: Http)
      requires ScoresInRange()
      modifies this`nanos, this`ratings, this`cases
      ensures (State(), http) == CreateRatingOf(old(State()), now, n, user, score) && ScoresInRange()
    {
      if !(1 <= score <= 5) { return Unprocessable; }
      if n >= |nanos| { return NotFound; }
      if nanos[n].status != Published { return BadRequest; }
      if FindRating(ratings, n, user).Some? { return Conflict; }
      var id := |ratings|;
      ratings := ratings + [Rating(n, user, score, Pending, None)];
      ApprovedAreScores(ratings, n);
      var _ := SyncNanoRatingCache(n);
      UpsertModerationCase(RatingContent, id, None, now);
      return Ok;
    }

    method UpdateNanoRating(n: nat, user: UserId, score: int, now: int) returns (http: Http)
      requires ScoresInRange()
      modifies this`nanos, this`ratings, this`cases
      ensures (State(), http) == UpdateRatingOf(old(State()), now, n, user, score) && ScoresInRange()
    {
      if !(1 <= score <= 5) { return Unprocessable; }
      if n >= |nanos| { return NotFound; }
      if nanos[n].status != Published { return BadRequest; }
      var found := FindRating(ratings, n, user);
      if found.None? { return NotFound; }
      var r := found.value;
      var rating := ratings[r];
      rating := rating.(score := score);
      rating := rating.(status := Pending);
      rating := rating.(verdict := None);
      ratings := ratings[r := rating];
      ApprovedAreScores(ratings, n);
      var _ := SyncNanoRatingCache(n);
      UpsertModerationCase(RatingContent, r, None, now);
      return Ok;
    }

    method ModerateNanoRating(n: nat, r: nat, moderator: UserId, approve: bool, reason: Option<string>, now: int)
      returns (http: Http)
      requires ScoresInRange()
      modifies this`nanos, this`ratings
      ensures (State(), http) == ModerateRatingOf(old(State()), now, n, r, moderator, approve, reason)
      ensures ScoresInRange()
    {
      if n >= |nanos| { return NotFound; }
      if nanos[n].status != Published { return BadRequest; }
      if r >= |ratings| || ratings[r].nano != n { return NotFound; }
      var rating := ratings[r];
      rating := rating.(status := if approve then Approved else Hidden);
      rating := rating.(verdict := Some(Verdict(now, moderator, reason)));
      ratings := ratings[r := rating];
      ApprovedAreScores(ratings, n);
      var _ := SyncNanoRatingCache(n);
      return Ok;
    }

    method CreateNanoComment(n: nat, user: UserId, content: string, now: int) returns (http: Http)
      modifies this`comments, this`cases
      ensures (State(), http) == CreateCommentOf(old(State()), now, n, user, content)
    {
      if !CommentOk(content) { return Unprocessable; }
      if n >= |nanos| { return NotFound; }
      if nanos[n].status != Published { return BadRequest; }
      if HasComment(comments, n, user) { return Conflict; }
      var sanitized := Sanitiser.Sanitize(content);
      if |sanitized| > Sanitiser.MAX_COMMENT_LENGTH { return Unprocessable; }
      var id := |comments|;
      comments := comments + [Comment(n, user, sanitized, Pending, None)];
      UpsertModerationCase(CommentContent, id, None, now);
      return Ok;
    }

    method UpdateNanoComment(n: nat, c: nat, actor: Actor, content: string, now: int) returns (http: Http)
      modifies this`comments, this`cases
      ensures (State(), http) == UpdateCommentOf(old(State()), now, n, c, actor, content)
    {
      if !CommentOk(content) { return Unprocessable; }
      if n >= |nanos| { return NotFound; }
      if nanos[n].status != Published { return BadRequest; }
      if c >= |comments| || comments[c].nano != n { return NotFound; }
      if comments[c].user != actor.user && !(actor.role == Admin || actor.role == Moderator) { return Forbidden; }
      var sanitized := Sanitiser.Sanitize(content);
      if |sanitized| > Sanitiser.MAX_COMMENT_LENGTH { return Unprocessable; }
      var comment := comments[c];
      comment := comment.(content := sanitized);
      comment := comment.(status := Pending);
      comment := comment.(verdict := None);
      comments := comments[c := comment];
      UpsertModerationCase(CommentContent, c, None, now);
      return Ok;
    }

    method ModerateNanoComment(n: nat, c: nat, moderator: UserId, approve: bool, reason: Option<string>, now: int)
      returns (http: Http)
      modifies this`comments
      ensures (State(), http) == ModerateCommentOf(old(State()), now, n, c, moderator, approve, reason)
    {
      if n >= |nanos| { return NotFound; }
      if nanos[n].status != Published { return BadRequest; }
      if c >= |comments| || comments[c].nano != n { return NotFound; }
      var comment := comments[c];
      comment := comment.(status := if approve then Approved else Hidden);
      comment := comment.(verdict := Some(Verdict(now, moderator, reason)));
      comments := comments[c := comment];
      return Ok;
    }

    /** The flush of a new flag; the table's constraint refuses a second one of the same user and nano. */
    method FlushFlag(flag: Flag) returns (inserted: bool)
      modifies this`flags
      ensures inserted == !HasFlag(old(flags), flag.nano, flag.user)
      ensures flags == if inserted then old(flags) + [flag] else old(flags)
    {
      inserted := !HasFlag(flags, flag.nano, flag.user);
      if inserted {
        flags := flags + [flag];
      }
    }

    method CreateNanoFlag(n: nat, user: UserId, note: Option<string>, now: int) returns (http: Http)
      modifies this`flags, this`cases
      ensures (State(), http) == CreateFlagOf(old(State()), now, n, user, note)
    {
      if note.Some? && |note.value| > 500 { return Unprocessable; }
      var given := FlagComment(note);
      if n >= |nanos| { return NotFound; }
      if nanos[n].status != Published { return BadRequest; }
      if nanos[n].creator == user { return Forbidden; }
      var sanitized: Option<string> := None;
      if given.Some? {
        sanitized := Some(Sanitiser.Sanitize(given.value));
        if |sanitized.value| > Sanitiser.MAX_COMMENT_LENGTH { return Unprocessable; }
      }
      var id := |flags|;
      var inserted := FlushFlag(Flag(n, user, sanitized, FlagPending, None, None));
      if !inserted { return Conflict; }
      UpsertModerationCase(FlagContent, id, Some(user), now);
      return Ok;
    }

    // ---- case review -----------------------------------------------------------------------------------------

    /** The uncommitted change to the content; on an error the caller rolls back. */
    method ApplyDecisionToContent(c: Case, r: Review, now: int) returns (http: Http)
      modifies this`nanos, this`ratings, this`comments, this`flags
      ensures (State(), http) == ApplyDecision(old(State()), now, c, r)
    {
      var id := c.contentId;
      match c.contentType {
      case NanoContent =>
        if id >= |nanos| { return Ok; }
        var nano := nanos[id];
        if r.decision == Approve {
          var missing := MissingFields(nano.metadata);
          if missing != [] { return BadRequest; }
          nano := nano.(status := Published);
          if nano.publishedAt.None? {
            nano := nano.(publishedAt := Some(now));
          }
        } else if r.decision == Reject {
          nano := nano.(status := Draft);
        }
        nanos := nanos[id := nano];
        assert r.decision in {Defer, Escalate} ==> nanos == old(nanos);
      case RatingContent =>
        if id >= |ratings| { return Ok; }
        var rating := ratings[id];
        if r.decision == Approve {
          rating := rating.(status := Approved, verdict := Some(Verdict(now, r.moderator, r.reason)));
          ratings := ratings[id := rating];
          SyncAfterReview(rating.nano);
        } else if r.decision == Reject {
          rating := rating.(status := Hidden, verdict := Some(Verdict(now, r.moderator, r.reason)));
          ratings := ratings[id := rating];
          SyncAfterReview(rating.nano);
        }
      case CommentContent =>
        if id >= |comments| { return Ok; }
        var comment := comments[id];
        if r.decision == Approve {
          comment := comment.(status := Approved, verdict := Some(Verdict(now, r.moderator, r.reason)));
        } else if r.decision == Reject {
          comment := comment.(status := Hidden, verdict := Some(Verdict(now, r.moderator, r.reason)));
        }
        comments := comments[id := comment];
        assert r.decision in {Defer, Escalate} ==> comments == old(comments);
      case FlagContent =>
        if id >= |flags| { return Ok; }
        var flag := flags[id];
        if r.decision == Approve {
          flag := flag.(status := FlagResolved);
        } else if r.decision == Reject {
          flag := flag.(status := FlagClosed);
        } else {
          flag := flag.(status := FlagReviewed);
        }
        flag := flag.(reviewedAt := Some(now), moderator := Some(r.moderator));
        flags := flags[id := flag];
      }
      return Ok;
    }

    /** The case is updated before its content is; a refused publication undoes that too. */
    method ReviewModerationCase(r: Review, now: int) returns (http: Http)
      modifies this
      ensures (State(), http) == ReviewCaseOf(old(State()), now, r)
    {
      if r.case_ >= |cases| { return NotFound; }
      var committed := cases;
      var c := cases[r.case_];
      c := c.(status := CaseStatusAfter(r.decision));
      c := c.(reason := r.reason);
      c := c.(decidedBy := Some(r.moderator));
      c := c.(decidedAt := Some(now));
      c := c.(escalationNote := if r.decision == Escalate then r.reason else None);
      c := c.(deferredUntil := if r.decision == Defer then r.deferredUntil else None);
      cases := cases[r.case_ := c];
      ghost var pending := State();
      http := ApplyDecisionToContent(c, r, now);
      DecisionFrame(old(State()), pending, now, committed[r.case_], c, r);
      if http != Ok {
        cases := committed;
      }
    }

    /** The content change does not depend on the case table nor on the decision fields of the case. */
    lemma DecisionFrame(db: Database, pending: Database, now: int, before: Case, after: Case, r: Review)
      requires pending == db.(cases := pending.cases) && IsFor(after, before.contentType, before.contentId)
      ensures
        var (x, http) := ApplyDecision(db, now, before, r);
        ApplyDecision(pending, now, after, r) == (x.(cases := pending.cases), http) && x.cases == db.cases
      ensures ApplyDecision(db, now, before, r).1 != Ok ==> ApplyDecision(db, now, before, r).0 == db
    {
    }
  }
}
