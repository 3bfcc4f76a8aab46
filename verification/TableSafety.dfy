/**
 Ratings, comments and flags as tables (app/models/__init__.py): the uniqueness the schema declares follows, for
 ratings and comments, from the services' own checks; for flags the service checks nothing and the declared
 constraint refuses the second row. A row carries a verdict exactly when it has been decided.
 */
module TableSafety {
  import opened Options
  import opened Text
  import opened Catalog
  import opened Lifecycle
  import Sanitiser
  import FeedbackSafety

  /** Every comment is about an existing nano, is its author's only one there, and shows a verdict iff decided. */
  ghost predicate CommentsOk(db: Database) {
    && (forall c | 0 <= c < |db.comments| :: db.comments[c].nano < |db.nanos|)
    && (forall c, d | 0 <= c < d < |db.comments| ::
          !(db.comments[c].nano == db.comments[d].nano && db.comments[c].user == db.comments[d].user))
    && (forall c | 0 <= c < |db.comments| :: db.comments[c].status == Pending <==> db.comments[c].verdict.None?)
  }

  /** The same for flags; nobody flags a nano of their own. */
  ghost predicate FlagsOk(db: Database) {
    && (forall f | 0 <= f < |db.flags| ::
          db.flags[f].nano < |db.nanos| && db.nanos[db.flags[f].nano].creator != db.flags[f].user)
    && (forall f, g | 0 <= f < g < |db.flags| ::
          !(db.flags[f].nano == db.flags[g].nano && db.flags[f].user == db.flags[g].user))
    && (forall f | 0 <= f < |db.flags| ::
          && (db.flags[f].status == FlagPending <==> db.flags[f].reviewedAt.None?)
          && (db.flags[f].reviewedAt.None? <==> db.flags[f].moderator.None?))
  }

  ghost predicate VerdictsOk(db: Database) {
    forall r | 0 <= r < |db.ratings| :: db.ratings[r].status == Pending <==> db.ratings[r].verdict.None?
  }

  /** No request removes a nano or changes its creator. */
  ghost predicate NanosRemain(db: Database, db': Database) {
    |db.nanos| <= |db'.nanos| && forall n | 0 <= n < |db.nanos| :: db'.nanos[n].creator == db.nanos[n].creator
  }

  lemma StepKeepsNanos(db: Database, step: Step)
    ensures NanosRemain(db, After(db, step))
  {
    hide Complete, Upsert, Sanitiser.Accept, Backfilled, Decided, FindRating, ApprovedScores, CommentOk, FlagComment,
      NanosRemain, HasComment, HasFlag, Stamp, Allowed, Edited;
    var db' := After(db, step);
    if |db'.nanos| == |db.nanos| {
      SameNanos(db, db', step);
    } else {
      assert step.request.Upload?;
      NanoAdded(db, db');
    }
  }

  lemma SameNanos(db: Database, db': Database, step: Step)
    requires db' == After(db, step) && |db'.nanos| == |db.nanos|
    ensures NanosRemain(db, db')
  {
    hide Complete, Upsert, Sanitiser.Accept, Backfilled, Decided, FindRating, ApprovedScores, CommentOk, FlagComment,
      HasComment, HasFlag, Stamp, Allowed, Edited;
  }

  lemma NanoAdded(db: Database, db': Database)
    requires |db'.nanos| == |db.nanos| + 1 && db'.nanos[..|db.nanos|] == db.nanos
    ensures NanosRemain(db, db')
  {
  }

  lemma CommentAdded(db: Database, db': Database, comment: Comment)
    requires CommentsOk(db) && NanosRemain(db, db') && db'.comments == db.comments + [comment]
    requires comment.nano < |db.nanos| && !HasComment(db.comments, comment.nano, comment.user)
    requires comment.status == Pending <==> comment.verdict.None?
    ensures CommentsOk(db')
  {
  }

  lemma CommentReplaced(db: Database, db': Database, c: nat, comment: Comment)
    requires CommentsOk(db) && NanosRemain(db, db') && c < |db.comments| && db'.comments == db.comments[c := comment]
    requires comment.nano == db.comments[c].nano && comment.user == db.comments[c].user
    requires comment.status == Pending <==> comment.verdict.None?
    ensures CommentsOk(db')
  {
  }

  lemma CommentsUntouched(db: Database, db': Database)
    requires CommentsOk(db) && NanosRemain(db, db') && db'.comments == db.comments
    ensures CommentsOk(db')
  {
  }

  lemma StepKeepsComments(db: Database, step: Step)
    requires CommentsOk(db) && NanosRemain(db, After(db, step))
    ensures CommentsOk(After(db, step))
  {
    hide Complete, Upsert, Sanitiser.Accept, Backfilled, Decided, Synced, FindRating, CommentOk, FlagComment,
      CommentsOk, NanosRemain, HasComment;
    var now, db' := step.now, After(db, step);
    match step.request
    case CreateComment(n, user, content) =>
      if CreateCommentOf(db, now, n, user, content).1 == Ok {
        CommentAdded(db, db', db'.comments[|db.comments|]);
      } else {
        CommentsUntouched(db, db');
      }
    case UpdateComment(n, c, actor, content) =>
      if UpdateCommentOf(db, now, n, c, actor, content).1 == Ok {
        CommentReplaced(db, db', c, db'.comments[c]);
      } else {
        CommentsUntouched(db, db');
      }
    case ModerateComment(n, c, moderator, approve, reason) =>
      if ModerateCommentOf(db, now, n, c, moderator, approve, reason).1 == Ok {
        CommentReplaced(db, db', c, db'.comments[c]);
      } else {
        CommentsUntouched(db, db');
      }
    case ReviewCase(review) =>
      if db'.comments != db.comments {
        var c := db.cases[review.case_].contentId;
        CommentReplaced(db, db', c, db'.comments[c]);
      } else {
        CommentsUntouched(db, db');
      }
    case _ => CommentsUntouched(db, db');
  }

  lemma FlagAdded(db: Database, db': Database, flag: Flag)
    requires FlagsOk(db) && NanosRemain(db, db') && db'.flags == db.flags + [flag]
    requires flag.nano < |db.nanos| && db.nanos[flag.nano].creator != flag.user
    requires !HasFlag(db.flags, flag.nano, flag.user)
    requires flag.status == FlagPending && flag.reviewedAt.None? && flag.moderator.None?
    ensures FlagsOk(db')
  {
  }

  lemma FlagReplaced(db: Database, db': Database, f: nat, flag: Flag)
    requires FlagsOk(db) && NanosRemain(db, db') && f < |db.flags| && db'.flags == db.flags[f := flag]
    requires flag.nano == db.flags[f].nano && flag.user == db.flags[f].user
    requires flag.status != FlagPending && flag.reviewedAt.Some? && flag.moderator.Some?
    ensures FlagsOk(db')
  {
  }

  lemma FlagsUntouched(db: Database, db': Database)
    requires FlagsOk(db) && NanosRemain(db, db') && db'.flags == db.flags
    ensures FlagsOk(db')
  {
  }

  lemma StepKeepsFlags(db: Database, step: Step)
    requires FlagsOk(db) && NanosRemain(db, After(db, step))
    ensures FlagsOk(After(db, step))
  {
    hide Complete, Upsert, Sanitiser.Accept, Backfilled, Decided, Synced, FindRating, CommentOk, FlagComment,
      FlagsOk, NanosRemain, HasFlag;
    var now, db' := step.now, After(db, step);
    match step.request
    case CreateFlag(n, user, note) =>
      if CreateFlagOf(db, now, n, user, note).1 == Ok {
        FlagAdded(db, db', db'.flags[|db.flags|]);
      } else {
        FlagsUntouched(db, db');
      }
    case ReviewCase(review) =>
      if db'.flags != db.flags {
        var f := db.cases[review.case_].contentId;
        FlagReplaced(db, db', f, db'.flags[f]);
      } else {
        FlagsUntouched(db, db');
      }
    case _ => FlagsUntouched(db, db');
  }

  lemma VerdictReplaced(db: Database, db': Database, r: nat, rating: Rating)
    requires VerdictsOk(db) && r < |db.ratings| && db'.ratings == db.ratings[r := rating]
    requires rating.status == Pending <==> rating.verdict.None?
    ensures VerdictsOk(db')
  {
  }

  lemma StepKeepsVerdicts(db: Database, step: Step)
    requires VerdictsOk(db)
    ensures VerdictsOk(After(db, step))
  {
    hide Complete, Upsert, Sanitiser.Accept, Backfilled, Decided, Synced, FindRating, CommentOk, FlagComment;
    var now, db' := step.now, After(db, step);
    match step.request
    case UpdateRating(n, user, score) =>
      if UpdateRatingOf(db, now, n, user, score).1 == Ok {
        var r := FindRating(db.ratings, n, user).value;
        VerdictReplaced(db, db', r, db'.ratings[r]);
      }
    case ModerateRating(n, r, moderator, approve, reason) =>
      if ModerateRatingOf(db, now, n, r, moderator, approve, reason).1 == Ok {
        VerdictReplaced(db, db', r, db'.ratings[r]);
      }
    case ReviewCase(review) =>
      if db'.ratings != db.ratings {
        var r := db.cases[review.case_].contentId;
        VerdictReplaced(db, db', r, db'.ratings[r]);
      }
    case _ =>
  }

  /**
   In every reachable state each user has at most one rating, one comment and one flag per nano, nobody flags
   their own nano, and a piece of feedback shows a verdict exactly when it is no longer pending.
   */
  lemma {:induction false} TablesStayConsistent(categories: seq<string>, steps: seq<Step>)
    ensures
      var db := Run(Empty(categories), steps);
      FeedbackSafety.RatingsOk(db) && CommentsOk(db) && FlagsOk(db) && VerdictsOk(db)
  {
    hide After, CommentsOk, FlagsOk, VerdictsOk, NanosRemain;
    if steps == [] {
      TablesStartEmpty(categories);
    } else {
      var before, step := Run(Empty(categories), steps[..|steps| - 1]), steps[|steps| - 1];
      TablesStayConsistent(categories, steps[..|steps| - 1]);
      FeedbackSafety.StepKeepsRatings(before, step);
      StepKeepsNanos(before, step);
      StepKeepsComments(before, step);
      StepKeepsFlags(before, step);
      StepKeepsVerdicts(before, step);
    }
  }

  lemma TablesStartEmpty(categories: seq<string>)
    ensures
      var db := Empty(categories);
      FeedbackSafety.RatingsOk(db) && CommentsOk(db) && FlagsOk(db) && VerdictsOk(db)
  {
  }

  /**
   Only the declared constraint stops a second flag: straight after an accepted one, the same request passes
   every check of the service, is refused by the insert, and is answered with a conflict.
   */
  lemma OnlyConstraintStopsSecondFlag(db: Database, now: int, again: int, n: nat, user: UserId, note: Option<string>)
    requires CreateFlagOf(db, now, n, user, note).1 == Ok
    ensures
      var db' := CreateFlagOf(db, now, n, user, note).0;
      && FlagRefusal(db', n, user, note).None?
      && InsertFlag(db'.flags, db'.flags[|db.flags|]).None?
      && CreateFlagOf(db', again, n, user, note) == (db', Conflict)
  {
    hide Upsert, Sanitiser.Accept, FlagComment;
    var db' := CreateFlagOf(db, now, n, user, note).0;
    var flag := db'.flags[|db.flags|];
    assert flag.nano == n && flag.user == user && HasFlag(db'.flags, n, user);
  }
}
