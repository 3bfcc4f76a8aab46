/**
 create_or_get_chat_session of app/modules/chat/service.py under concurrency: any number of calls about one
 nano, interleaved at their database statements, over a table with a unique constraint on
 (nano, creator, participant).
 */
module ChatSessions {
  import opened Options

  type UserId = nat
  type NanoId = nat

  datatype Session = Session(nano: NanoId, creator: UserId, participant: UserId, updatedAt: int)

  datatype Nano = Nano(id: NanoId, creator: UserId, published: bool)

  datatype Reply = Found(session: nat, reused: bool) | Forbidden | NotFound

  /** Where a call stands: before its first read, between read and insert, after a conflict, or finished. */
  datatype Progress = Reading | Inserting | Conflicted | Finished(reply: Reply)

  datatype Call = Call(user: UserId, progress: Progress)

  /** The session table (row number = session id) and all calls in flight. */
  datatype System = System(rows: seq<Session>, calls: seq<Call>)

  predicate Joins(s: Session, nano: Nano, participant: UserId) {
    s.nano == nano.id && s.creator == nano.creator && s.participant == participant
  }

  /** The participant's query: the row for this nano, its creator and this user. */
  function Lookup(rows: seq<Session>, nano: Nano, user: UserId): (r: Option<nat>)
    ensures r.Some? ==> r.value < |rows| && Joins(rows[r.value], nano, user)
    ensures r.None? ==> forall i | 0 <= i < |rows| :: !Joins(rows[i], nano, user)
  {
    if rows == [] then None
    else if Joins(rows[|rows| - 1], nano, user) then Some(|rows| - 1)
    else Lookup(rows[..|rows| - 1], nano, user)
  }

  /** The creator's query: the most recently updated session about the nano. */
  function LookupLatest(rows: seq<Session>, nano: Nano): (r: Option<nat>)
    ensures r.Some? ==> r.value < |rows| && rows[r.value].nano == nano.id && rows[r.value].creator == nano.creator
    ensures r.Some? ==> forall i | 0 <= i < |rows| && rows[i].nano == nano.id && rows[i].creator == nano.creator ::
      rows[i].updatedAt <= rows[r.value].updatedAt
    ensures r.None? ==> forall i | 0 <= i < |rows| :: !(rows[i].nano == nano.id && rows[i].creator == nano.creator)
  {
    if rows == [] then None
    else
      var n := |rows| - 1;
      var before := LookupLatest(rows[..n], nano);
      if rows[n].nano == nano.id && rows[n].creator == nano.creator
        && (before.None? || rows[before.value].updatedAt < rows[n].updatedAt)
      then Some(n) else before
  }

  function Select(rows: seq<Session>, nano: Nano, user: UserId): Option<nat> {
    if user == nano.creator then LookupLatest(rows, nano) else Lookup(rows, nano, user)
  }

  /** One database statement of one call, at time `now`. */
  function Advance(rows: seq<Session>, call: Call, nano: Nano, now: int): (seq<Session>, Progress) {
    match call.progress
    case Reading =>
      if !nano.published then (rows, Finished(NotFound))
      else
        var existing := Select(rows, nano, call.user);
        if existing.None? && call.user == nano.creator then (rows, Finished(Forbidden))
        else if existing.Some? then (rows, Finished(Found(existing.value, true)))
        else (rows, Inserting)
    case Inserting =>
      if Lookup(rows, nano, call.user).Some? then (rows, Conflicted)
      else (rows + [Session(nano.id, nano.creator, call.user, now)], Finished(Found(|rows|, false)))
    case Conflicted =>
      var existing := Select(rows, nano, call.user);
      if existing.None? then (rows, Finished(NotFound)) else (rows, Finished(Found(existing.value, true)))
    case Finished(_) => (rows, call.progress)
  }

  /** A scheduling decision: which call moves next, and when. Indices of no call are ignored. */
  datatype Turn = Turn(call: nat, now: int)

  function Step(s: System, nano: Nano, turn: Turn): (s': System)
    ensures |s'.calls| == |s.calls|
  {
    if turn.call >= |s.calls| then s
    else
      var call := s.calls[turn.call];
      var (rows, progress) := Advance(s.rows, call, nano, turn.now);
      System(rows, s.calls[turn.call := call.(progress := progress)])
  }

  function Run(s: System, nano: Nano, schedule: seq<Turn>): (s': System)
    ensures |s'.calls| == |s.calls|
  {
    if schedule == [] then s
    else Step(Run(s, nano, schedule[..|schedule| - 1]), nano, schedule[|schedule| - 1])
  }

  // ---- invariants ------------------------------------------------------------------------------------

  /** The unique constraint, and the check constraint that the two parties differ. */
  ghost predicate Constrained(rows: seq<Session>) {
    && (forall i, j | 0 <= i < j < |rows| ::
          !(rows[i].nano == rows[j].nano && rows[i].creator == rows[j].creator &&
            rows[i].participant == rows[j].participant))
    && (forall i | 0 <= i < |rows| :: rows[i].creator != rows[i].participant)
  }

  /** What the progress of one call says about the table now, and about the one the calls started from. */
  ghost predicate CallOk(start: seq<Session>, rows: seq<Session>, call: Call, nano: Nano) {
    match call.progress
    case Reading => true
    case Inserting => call.user != nano.creator && nano.published
    case Conflicted => call.user != nano.creator && nano.published && Lookup(rows, nano, call.user).Some?
    case Finished(Found(id, _)) =>
      && nano.published && id < |rows| && rows[id].nano == nano.id && rows[id].creator == nano.creator
      && (call.user != nano.creator ==> rows[id].participant == call.user)
    case Finished(Forbidden) => nano.published && call.user == nano.creator && LookupLatest(start, nano).None?
    case Finished(NotFound) => !nano.published
  }

  /** How many calls of `user` finished reporting that they created the session. */
  function Creations(calls: seq<Call>, user: UserId): nat {
    if calls == [] then 0
    else
      var c := calls[|calls| - 1];
      Creations(calls[..|calls| - 1], user)
        + if c.user == user && c.progress.Finished? && c.progress.reply.Found? && !c.progress.reply.reused then 1 else 0
  }

  ghost predicate Invariant(start: System, s: System, nano: Nano) {
    && Constrained(s.rows)
    && |s.calls| == |start.calls|
    && (forall i | 0 <= i < |s.calls| ::
          s.calls[i].user == start.calls[i].user && CallOk(start.rows, s.rows, s.calls[i], nano))
    && start.rows <= s.rows
    && (forall user :: user != nano.creator ==>
          Creations(s.calls, user) == (if Lookup(s.rows, nano, user).Some? then 1 else 0)
                                    - (if Lookup(start.rows, nano, user).Some? then 1 else 0))
    && Creations(s.calls, nano.creator) == 0
    && (forall i | |start.rows| <= i < |s.rows| :: Joins(s.rows[i], nano, s.rows[i].participant))
  }

  lemma {:induction false} CreationsUpdated(calls: seq<Call>, i: nat, c: Call, user: UserId)
    requires i < |calls| && c.user == calls[i].user
    ensures Creations(calls[i := c], user) ==
      Creations(calls, user) - Creations([calls[i]], user) + Creations([c], user)
  {
    var n := |calls| - 1;
    assert [calls[i]][..0] == [] && [c][..0] == [];
    if i == n {
      assert calls[i := c][..n] == calls[..n];
    } else {
      assert calls[i := c][..n] == calls[..n][i := c];
      CreationsUpdated(calls[..n], i, c, user);
    }
  }

  lemma CreationOne(c: Call, user: UserId)
    ensures Creations([c], user) ==
      if c.user == user && c.progress.Finished? && c.progress.reply.Found? && !c.progress.reply.reused then 1 else 0
  {
    assert [c][..0] == [];
  }

  lemma LookupGrown(rows: seq<Session>, row: Session, nano: Nano, user: UserId)
    ensures Lookup(rows + [row], nano, user).Some? <==> Lookup(rows, nano, user).Some? || Joins(row, nano, user)
  {
    assert (rows + [row])[..|rows|] == rows;
  }

  /** A statement inserts at most one row, for its own user, and only where the constraint allows it. */
  lemma AdvanceFacts(start: seq<Session>, rows: seq<Session>, call: Call, nano: Nano, now: int)
    requires Constrained(rows) && start <= rows && CallOk(start, rows, call, nano)
    ensures
      var (rows', progress) := Advance(rows, call, nano, now);
      && Constrained(rows') && rows <= rows' && CallOk(start, rows', call.(progress := progress), nano)
      && (forall user :: Lookup(rows', nano, user).Some? <==>
            Lookup(rows, nano, user).Some? || (rows' != rows && user == call.user))
      && (rows' != rows ==> |rows'| == |rows| + 1 && Joins(rows'[|rows|], nano, call.user))
      && (rows' != rows ==> rows'[|rows|].updatedAt == now)
      && (rows' != rows ==> call.user != nano.creator && Lookup(rows, nano, call.user).None?)
      && (rows' != rows ==> progress == Finished(Found(|rows|, false)))
      && (rows' == rows && progress != call.progress && progress.Finished? && progress.reply.Found? ==>
            progress.reply.reused)
  {
    var (rows', progress) := Advance(rows, call, nano, now);
    if rows' != rows {
      var row := rows'[|rows|];
      assert rows' == rows + [row];
      forall user
        ensures Lookup(rows', nano, user).Some? <==> Lookup(rows, nano, user).Some? || user == call.user
      {
        LookupGrown(rows, row, nano, user);
      }
    }
  }

  lemma StepKeepsInvariant(start: System, s: System, nano: Nano, turn: Turn)
    requires Invariant(start, s, nano)
    ensures Invariant(start, Step(s, nano, turn), nano)
  {
    if turn.call < |s.calls| {
      hide Advance;
      var i, call := turn.call, s.calls[turn.call];
      var (rows, progress) := Advance(s.rows, call, nano, turn.now);
      var s' := Step(s, nano, turn);
      var call' := call.(progress := progress);
      forall user
        ensures Creations(s'.calls, user) == Creations(s.calls, user)
          + if progress.Finished? && progress != call.progress && rows != s.rows && call.user == user then 1 else 0
      {
        CreationsUpdated(s.calls, i, call', user);
        CreationOne(call, user);
        CreationOne(call', user);
      }
      AdvanceFacts(start.rows, s.rows, call, nano, turn.now);
    }
  }

  ghost predicate Fresh(start: System) {
    Constrained(start.rows) && forall c | c in start.calls :: c.progress == Reading
  }

  lemma {:induction false} FreshCreations(calls: seq<Call>, user: UserId)
    requires forall c | c in calls :: c.progress == Reading
    ensures Creations(calls, user) == 0
  {
    if calls != [] {
      assert calls[|calls| - 1] in calls && forall c | c in calls[..|calls| - 1] :: c in calls;
      FreshCreations(calls[..|calls| - 1], user);
    }
  }

  lemma {:induction false} RunKeepsInvariant(start: System, nano: Nano, schedule: seq<Turn>)
    requires Fresh(start)
    ensures Invariant(start, Run(start, nano, schedule), nano)
  {
    if schedule == [] {
      forall user
        ensures Creations(start.calls, user) == 0
      {
        FreshCreations(start.calls, user);
      }
      assert forall i | 0 <= i < |start.calls| :: start.calls[i] in start.calls;
    } else {
      var before := schedule[..|schedule| - 1];
      RunKeepsInvariant(start, nano, before);
      StepKeepsInvariant(start, Run(start, nano, before), nano, schedule[|schedule| - 1]);
    }
  }

  // ---- the results ------------------------------------------------------------------------------------

  /** Row `id` is the one session of this participant about the nano. */
  ghost predicate IsTheSession(rows: seq<Session>, nano: Nano, user: UserId, id: nat) {
    id < |rows| && forall i | 0 <= i < |rows| :: Joins(rows[i], nano, user) <==> i == id
  }

  /**
   Under every interleaving, once any call of a participant about a published nano has finished, exactly
   one session of that participant exists, that call returned it, and so did every other finished call of
   theirs. No call fails.
   */
  lemma AllCallsAgree(start: System, nano: Nano, schedule: seq<Turn>, i: nat, j: nat)
    requires Fresh(start) && nano.published
    requires i < |start.calls| && j < |start.calls| && start.calls[i].user == start.calls[j].user != nano.creator
    requires Run(start, nano, schedule).calls[i].progress.Finished?
    requires Run(start, nano, schedule).calls[j].progress.Finished?
    ensures
      var s := Run(start, nano, schedule);
      var reply, other := s.calls[i].progress.reply, s.calls[j].progress.reply;
      && reply.Found? && other.Found? && reply.session == other.session
      && IsTheSession(s.rows, nano, start.calls[i].user, reply.session)
  {
    RunKeepsInvariant(start, nano, schedule);
    var s := Run(start, nano, schedule);
    assert CallOk(start.rows, s.rows, s.calls[i], nano) && CallOk(start.rows, s.rows, s.calls[j], nano);
    var a, b := s.calls[i].progress.reply.session, s.calls[j].progress.reply.session;
    assert Joins(s.rows[a], nano, start.calls[i].user) && Joins(s.rows[b], nano, start.calls[i].user);
  }

  /**
   At most one call of a participant reports `reused` false; exactly one does when a call has finished and
   there was no session before, none when there was.
   */
  lemma AtMostOneCreates(start: System, nano: Nano, schedule: seq<Turn>, user: UserId)
    requires Fresh(start) && user != nano.creator
    ensures
      var s := Run(start, nano, schedule);
      var finished := exists i | 0 <= i < |s.calls| :: s.calls[i].user == user && s.calls[i].progress.Finished?;
      && Creations(s.calls, user) <= 1
      && (Lookup(start.rows, nano, user).Some? ==> Creations(s.calls, user) == 0)
      && (nano.published && finished && Lookup(start.rows, nano, user).None? ==> Creations(s.calls, user) == 1)
  {
    RunKeepsInvariant(start, nano, schedule);
    var s := Run(start, nano, schedule);
    if i :| 0 <= i < |s.calls| && s.calls[i].user == user && s.calls[i].progress.Finished? && nano.published {
      assert CallOk(start.rows, s.rows, s.calls[i], nano);
      var id := s.calls[i].progress.reply.session;
      assert Joins(s.rows[id], nano, user);
    }
  }

  /** A creator's call about a published nano that had a session at the start returns one and is never refused. */
  lemma CreatorFindsSession(start: System, nano: Nano, schedule: seq<Turn>, i: nat)
    requires Fresh(start) && nano.published && i < |start.calls| && start.calls[i].user == nano.creator
    requires Run(start, nano, schedule).calls[i].progress.Finished?
    requires LookupLatest(start.rows, nano).Some?
    ensures
      var s := Run(start, nano, schedule);
      var reply := s.calls[i].progress.reply;
      reply.Found? && reply.reused && reply.session < |s.rows|
        && s.rows[reply.session].nano == nano.id && s.rows[reply.session].creator == nano.creator
  {
    RunKeepsInvariant(start, nano, schedule);
    var s := Run(start, nano, schedule);
    assert CallOk(start.rows, s.rows, s.calls[i], nano);
    if !s.calls[i].progress.reply.reused {
      CreationCounted(s.calls, i);
    }
  }

  lemma {:induction false} CreationCounted(calls: seq<Call>, i: nat)
    requires i < |calls| && calls[i].progress.Finished?
    requires calls[i].progress.reply.Found? && !calls[i].progress.reply.reused
    ensures Creations(calls, calls[i].user) > 0
  {
    if i < |calls| - 1 {
      CreationCounted(calls[..|calls| - 1], i);
    }
  }

  /** The creator's own calls never create a session, and nobody creates one for an unpublished nano. */
  lemma CreatorNeverCreates(start: System, nano: Nano, schedule: seq<Turn>)
    requires Fresh(start)
    ensures
      var s := Run(start, nano, schedule);
      && Creations(s.calls, nano.creator) == 0
      && start.rows <= s.rows
      && (forall i | |start.rows| <= i < |s.rows| ::
            nano.published && Joins(s.rows[i], nano, s.rows[i].participant) && s.rows[i].participant != nano.creator)
  {
    RunKeepsInvariant(start, nano, schedule);
    UnpublishedUnchanged(start, nano, schedule);
  }

  lemma {:induction false} UnpublishedUnchanged(start: System, nano: Nano, schedule: seq<Turn>)
    requires Fresh(start)
    ensures !nano.published ==> Run(start, nano, schedule).rows == start.rows
  {
    if schedule != [] {
      var before := schedule[..|schedule| - 1];
      UnpublishedUnchanged(start, nano, before);
      RunKeepsInvariant(start, nano, before);
      var s := Run(start, nano, before);
      assert forall i | 0 <= i < |s.calls| :: CallOk(start.rows, s.rows, s.calls[i], nano);
    }
  }

  // ---- calls finish -----------------------------------------------------------------------------------

  /** How many statements a call still needs at most. */
  function StatementsLeft(p: Progress): nat {
    match p
    case Reading => 3
    case Inserting => 2
    case Conflicted => 1
    case Finished(_) => 0
  }

  function TurnsOf(schedule: seq<Turn>, i: nat): nat {
    if schedule == [] then 0
    else
      var n := |schedule| - 1;
      TurnsOf(schedule[..n], i) + if schedule[n].call == i then 1 else 0
  }

  /** No call waits for another: three turns of its own finish it, however the others are scheduled. */
  lemma {:induction false} ThreeTurnsFinish(start: System, nano: Nano, schedule: seq<Turn>, i: nat)
    requires i < |start.calls|
    ensures StatementsLeft(Run(start, nano, schedule).calls[i].progress) + TurnsOf(schedule, i) <= 3
      || Run(start, nano, schedule).calls[i].progress.Finished?
  {
    if schedule != [] {
      ThreeTurnsFinish(start, nano, schedule[..|schedule| - 1], i);
    }
  }
}
