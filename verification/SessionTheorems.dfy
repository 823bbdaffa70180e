/**
 What holds of an exam session in every run of the protocol: any number of requests by any users, arriving at
 any time and interleaved in any order with each other and with the timers.
 */
module SessionTheorems {
  import opened Counting
  import opened ExamData
  import opened RedisStore
  import opened SessionProtocol
  import opened SessionFlow
  import opened SessionAccounting
  import opened SessionKeys
  import opened SessionGrace
  import opened SessionSnapshots

  ghost predicate Inv(s: Session, now: nat) {
    && Flow(s) && Accounts(s) && Keys(s, now) && Grace(s, now) && Snapshots(s) && AcceptedInTime(s, now)
  }

  lemma NextKeepsInv(s: Session, before: nat, now: nat, a: Action)
    requires Inv(s, before) && before <= now && Enabled(s, now, a)
    ensures Inv(Next(s, now, a), now)
  {
    NextKeepsFlow(s, now, a);
    NextKeepsAccounts(s, now, a);
    NextKeepsKeys(s, before, now, a);
    NextKeepsGrace(s, before, now, a);
    NextKeepsSnapshots(s, now, a);
    NextAcceptsInTime(s, before, now, a);
  }

  lemma TimeKeepsInv(s: Session, now: nat, later: nat)
    requires Inv(s, now) && now <= later
    ensures Inv(s, later)
  {
    KeysLater(s, now, later);
    GraceLater(s, now, later);
    AcceptsLater(s, now, later);
  }

  lemma NextKeepsId(s: Session, now: nat, a: Action)
    requires Enabled(s, now, a)
    ensures Next(s, now, a).id == s.id
  {
  }

  lemma {:induction false} RunKeepsInv(s: Session, now: nat, events: seq<Event>, s': Session, now': nat)
    requires Inv(s, now) && Runs(s, now, events, s', now')
    ensures Inv(s', now') && s'.id == s.id && now <= now'
    decreases |events|
  {
    if events == [] {
      TimeKeepsInv(s, now, now');
    } else {
      var e := events[0];
      NextKeepsInv(s, now, e.now, e.action);
      NextKeepsId(s, e.now, e.action);
      RunKeepsInv(Next(s, e.now, e.action), e.now, events[1..], s', now');
    }
  }

  lemma ReachableInv(s: Session, now: nat)
    requires Reachable(s, now)
    ensures Inv(s, now)
  {
    var events :| Runs(Opened(s.id), s.id.startedAt, events, s, now);
    FlowOpened(s.id);
    RunKeepsInv(Opened(s.id), s.id.startedAt, events, s, now);
  }

  // ---- Attempts ------------------------------------------------------------------------------------------

  /** Some submission of the run commits while an expiry handler stands between its check and its write. */
  ghost predicate Races(s: Session, events: seq<Event>)
    decreases |events|
  {
    events != [] && Enabled(s, events[0].now, events[0].action) &&
    (|| (events[0].action.Advance? && s.procs[events[0].action.i].Commit? && Open(s) && Marking(s.procs))
     || Races(Next(s, events[0].now, events[0].action), events[1..]))
  }

  lemma PerformMarksRace(s: Session, now: nat, p: Proc)
    requires !p.Finished?
    ensures Perform(s, now, p).0.log.raced <==> s.log.raced || (p.Commit? && Open(s) && Marking(s.procs))
  {
  }

  lemma NextRaces(s: Session, now: nat, a: Action)
    requires Enabled(s, now, a)
    ensures Next(s, now, a).log.raced <==>
            s.log.raced || (a.Advance? && s.procs[a.i].Commit? && Open(s) && Marking(s.procs))
  {
    if a.Advance? {
      PerformMarksRace(s, now, s.procs[a.i]);
    }
  }

  lemma {:induction false} RunRaces(s: Session, now: nat, events: seq<Event>, s': Session, now': nat)
    requires Runs(s, now, events, s', now')
    ensures s'.log.raced <==> s.log.raced || Races(s, events)
    decreases |events|
  {
    if events == [] {
    } else {
      NextRaces(s, events[0].now, events[0].action);
      RunRaces(Next(s, events[0].now, events[0].action), events[0].now, events[1..], s', now');
    }
  }

  /** The attempts of a session are accounted for exactly, and there are never more than two. */
  lemma ExactAccounting(s: Session, now: nat)
    requires Reachable(s, now)
    ensures |s.attempts| == Held(Submitted(s)) + s.log.overwritten + s.log.unwound
    ensures |s.attempts| <= 2
    ensures |s.attempts| == 2 <==> s.log.overwritten == 1 && (Submitted(s) || s.log.unwound == 1)
    ensures s.row.Some? ==> s.log.unwound == 0
  {
    ReachableInv(s, now);
  }

  /** Without that race there is at most one attempt; with it, the row is overwritten, or is about to be. */
  lemma OneAttemptUnlessRaced(id: Identity, events: seq<Event>, s: Session, now: nat)
    requires Runs(Opened(id), id.startedAt, events, s, now)
    ensures !Races(Opened(id), events) ==> |s.attempts| <= 1 && s.log.overwritten == 0
    ensures Races(Opened(id), events) && s.row.Some? ==>
              s.log.overwritten == 1 || (Submitted(s) && Marking(s.procs))
  {
    FlowOpened(id);
    RunKeepsInv(Opened(id), id.startedAt, events, s, now);
    RunRaces(Opened(id), id.startedAt, events, s, now);
  }

  /** When a run is over and the row is still there, the race alone decides between one attempt and two. */
  lemma AttemptsWhenOver(id: Identity, events: seq<Event>, s: Session, now: nat)
    requires Runs(Opened(id), id.startedAt, events, s, now) && s.row.Some?
    requires forall later, a :: now <= later && !FromClient(a) ==> !Enabled(s, later, a)
    ensures Submitted(s)
    ensures |s.attempts| == if Races(Opened(id), events) then 2 else 1
  {
    FlowOpened(id);
    RunKeepsInv(Opened(id), id.startedAt, events, s, now);
    RunRaces(Opened(id), id.startedAt, events, s, now);
    if Open(s) {
      var later, a := OpenMoves(s, now);
    }
    if Marking(s.procs) {
      var i :| 0 <= i < |s.procs| && s.procs[i].ExpiryMark?;
      assert Enabled(s, now, Advance(i));
    }
  }

  // ---- No session is stranded ----------------------------------------------------------------------------

  /** Something will still happen to the session without any client. */
  ghost predicate Driven(s: Session) {
    || !s.start.Settled?
    || s.key.Some? || s.keyEvents > 0
    || s.grace.Some? || s.graceEvents > 0
    || (exists i :: 0 <= i < |s.procs| && Drives(s.procs[i]))
  }

  predicate Drives(p: Proc) {
    p.ExpiryCheck? || p.ExpiryMark? || p.ExpiryOpenGrace? || p.GraceCheck? || (p.Commit? && (p.auto || p.lateFlag))
  }

  lemma NeverStranded(s: Session, now: nat)
    requires Reachable(s, now) && Open(s)
    ensures Driven(s)
    ensures s.start.Failed? || Batons(s) == 1
  {
    ReachableInv(s, now);
    OpenIsDriven(s);
  }

  lemma OpenIsDriven(s: Session)
    requires Flow(s) && Open(s)
    ensures Driven(s)
  {
    if Tally(EARLY, s.procs) > 0 {
      var i := TallyWitness(EARLY, s.procs);
      assert Drives(s.procs[i]);
    } else if Tally(OPENING, s.procs) > 0 {
      var i := TallyWitness(OPENING, s.procs);
      assert Drives(s.procs[i]);
    } else if Tally(CLOSING, s.procs) > 0 {
      var i := TallyWitness(CLOSING, s.procs);
      assert Drives(s.procs[i]);
    }
  }

  predicate FromClient(a: Action) {
    a.Autosave? || a.Submit? || a.LateSubmit?
  }

  /** The work that is left without new requests. */
  function Rank(s: Session): nat {
    (match s.start case Pending => 12 case Failed => 1 case Settled => 0)
    + 10 * Held(s.key.Some?) + 9 * s.keyEvents + 5 * Held(s.grace.Some?) + 4 * s.graceEvents
    + Tally(WORK, s.procs)
  }

  lemma PerformWorks(s: Session, now: nat, p: Proc)
    requires !p.Finished?
    ensures var (t, q) := Perform(s, now, p);
            Rank(t) + Work(q) < Rank(s) + Work(p) && t.procs == s.procs
  {
  }

  lemma NextWorks(s: Session, now: nat, a: Action)
    requires Enabled(s, now, a) && !FromClient(a)
    ensures Rank(Next(s, now, a)) < Rank(s)
  {
    match a
    case Advance(i) =>
      var (t, q) := Perform(s, now, s.procs[i]);
      PerformWorks(s, now, s.procs[i]);
      TallyUpdate(WORK, s.procs, i, q);
    case DeliverKeyEvent => TallyAppend(WORK, s.procs, ExpiryCheck);
    case DeliverGraceEvent => TallyAppend(WORK, s.procs, GraceCheck);
    case _ =>
  }

  /** An unsubmitted session has a step of its own to take, if only the clock moves on. */
  lemma OpenMoves(s: Session, now: nat) returns (later: nat, a: Action)
    requires Flow(s) && Open(s)
    ensures now <= later && Enabled(s, later, a) && !FromClient(a)
  {
    OpenIsDriven(s);
    later, a := now, Compensate;
    if s.start.Pending? {
      a := WriteKey(Stored);
    } else if s.start.Failed? {
    } else if s.key.Some? {
      later, a := now + s.key.value.deadline, ExpireKey;
    } else if s.keyEvents > 0 {
      a := DeliverKeyEvent;
    } else if s.grace.Some? {
      later, a := now + s.grace.value.deadline, ExpireGrace;
    } else if s.graceEvents > 0 {
      a := DeliverGraceEvent;
    } else {
      var i :| 0 <= i < |s.procs| && Drives(s.procs[i]);
      a := Advance(i);
    }
  }

  ghost predicate Unattended(events: seq<Event>) {
    forall i :: 0 <= i < |events| ==> !FromClient(events[i].action)
  }

  /** With no new requests a run is never longer than the work left when it begins. */
  lemma {:induction false} UnattendedRunsEnd(s: Session, now: nat, events: seq<Event>, s': Session, now': nat)
    requires Runs(s, now, events, s', now') && Unattended(events)
    ensures |events| + Rank(s') <= Rank(s)
    decreases |events|
  {
    if events == [] {
    } else {
      NextWorks(s, events[0].now, events[0].action);
      UnattendedRunsEnd(Next(s, events[0].now, events[0].action), events[0].now, events[1..], s', now');
    }
  }

  /** A run that cannot go on, however long one waits, has submitted its session. */
  lemma QuietIsSubmitted(s: Session, now: nat)
    requires Reachable(s, now)
    requires forall later, a :: now <= later && !FromClient(a) ==> !Enabled(s, later, a)
    ensures s.row.None? || Terminal(s.row.value.status)
  {
    ReachableInv(s, now);
    if Open(s) {
      var later, a := OpenMoves(s, now);
    }
  }

  lemma {:induction false} OpenDrains(s: Session, now: nat) returns (events: seq<Event>, s': Session, now': nat)
    requires Flow(s)
    ensures Unattended(events) && Runs(s, now, events, s', now') && !Open(s')
    decreases Rank(s)
  {
    if !Open(s) {
      events, s', now' := [], s, now;
    } else {
      var later, a := OpenMoves(s, now);
      NextKeepsFlow(s, later, a);
      NextWorks(s, later, a);
      events, s', now' := OpenDrains(Next(s, later, a), later);
      var first := Event(later, a);
      assert ([first] + events)[1..] == events;
      events := [first] + events;
    }
  }

  /** From every state the timers alone can bring the session to a terminal status. */
  lemma EverySessionEnds(s: Session, now: nat)
    requires Reachable(s, now)
    ensures exists events, s', now' :: Unattended(events) && Runs(s, now, events, s', now') && !Open(s')
  {
    ReachableInv(s, now);
    var events, s', now' := OpenDrains(s, now);
  }

  // ---- The deadline --------------------------------------------------------------------------------------

  lemma {:induction false} RunKeyForward(s: Session, now: nat, events: seq<Event>, s': Session, now': nat)
    requires Keys(s, now) && Runs(s, now, events, s', now')
    ensures KeyForward(s, s')
    decreases |events|
  {
    if events == [] {
    } else {
      NextKeyForward(s, events[0].now, events[0].action);
      NextKeepsKeys(s, now, events[0].now, events[0].action);
      RunKeyForward(Next(s, events[0].now, events[0].action), events[0].now, events[1..], s', now');
    }
  }

  /** Whenever the key is seen it has the same deadline and identity; once gone it never returns. */
  lemma DeadlineIsFixed(s: Session, now: nat, events: seq<Event>, s': Session, now': nat)
    requires Reachable(s, now) && Runs(s, now, events, s', now')
    ensures s.key.Some? && s'.key.Some? ==>
              && s'.key.value.deadline == s.key.value.deadline
              && s'.key.value.value == s.key.value.value.(answers := s'.key.value.value.answers)
    ensures !s.start.Pending? && s.key.None? ==> s'.key.None?
    ensures s.key.Some? ==> s.key.value.deadline >= s.id.startedAt + 1000 * s.id.durationSeconds
  {
    ReachableInv(s, now);
    RunKeepsInv(s, now, events, s', now');
    RunKeyForward(s, now, events, s', now');
  }

  // ---- Snapshots and the grace window --------------------------------------------------------------------

  /** Accepted by Redis while the key of this session was live. */
  ghost predicate AcceptedLive(s: Session, answers: Answers) {
    exists i :: 0 <= i < |s.log.accepted| && s.log.accepted[i].answers == answers
             && s.log.deadline.Some? && s.log.accepted[i].at < s.log.deadline.value
  }

  ghost predicate Provenance(s: Session, answers: Answers, bound: nat) {
    || answers == map[]
    || AcceptedLive(s, answers)
    || (exists i :: 0 <= i < bound && i < |s.attempts| && s.attempts[i].answers == answers)
  }

  lemma SnapshotProvenance(s: Session, now: nat)
    requires Reachable(s, now)
    ensures s.row.Some? && s.row.value.snapshot.Some? ==>
              Provenance(s, s.row.value.snapshot.value, |s.attempts|)
    ensures s.grace.Some? ==> Provenance(s, s.grace.value.value, |s.attempts|)
    ensures forall i :: 0 <= i < |s.attempts| && s.attempts[i].auto ==> Provenance(s, s.attempts[i].answers, i)
  {
    ReachableInv(s, now);
    forall answers, bound | Justified(s, answers, bound)
      ensures Provenance(s, answers, bound)
    {
      if i :| 0 <= i < |s.log.accepted| && s.log.accepted[i].answers == answers {
        assert AcceptedLive(s, answers);
      }
    }
  }

  /**
   Late attempts are covered by consumptions of the grace key, and those by grace windows, of which there is at
   most one; every consumption is by the owner and inside the 120 seconds of its window.
   */
  lemma GraceDiscipline(s: Session, now: nat)
    requires Reachable(s, now)
    ensures LateAttempts(s.attempts) <= |s.log.consumed| <= |s.log.windows| <= 1
    ensures forall i :: 0 <= i < |s.log.consumed| ==>
              && s.log.consumed[i].userId == s.id.userId
              && s.log.windows[i] <= s.log.consumed[i].at < s.log.windows[i] + 120_000
  {
    ReachableInv(s, now);
    assert forall i :: 0 <= i < |s.log.consumed| ==> InWindow(s.id, s.log.windows[i], s.log.consumed[i]);
  }

  /** In some step of the run, request `i` was a late submission and passed its check on an expired row. */
  ghost predicate Checked(s: Session, events: seq<Event>, i: nat, userId: string)
    decreases |events|
  {
    events != [] && Enabled(s, events[0].now, events[0].action) &&
    (|| (events[0].action == Advance(i) && s.procs[i].LateCheck? && s.procs[i].userId == userId
         && Allowed(s.row, userId, EXPIRED))
     || Checked(Next(s, events[0].now, events[0].action), events[1..], i, userId))
  }

  /** A request is about to take the grace key only if it was so already, or passes its check in this step. */
  lemma ConsumesAfterCheck(s: Session, now: nat, a: Action, i: nat)
    requires Enabled(s, now, a) && i < |Next(s, now, a).procs| && Next(s, now, a).procs[i].LateConsume?
    ensures var userId := Next(s, now, a).procs[i].userId;
            || (i < |s.procs| && s.procs[i] == Next(s, now, a).procs[i])
            || (a == Advance(i) && s.procs[i].LateCheck? && s.procs[i].userId == userId
                && Allowed(s.row, userId, EXPIRED))
  {
  }

  lemma {:induction false} RunChecks(s: Session, now: nat, events: seq<Event>, s': Session, now': nat, i: nat)
    requires Runs(s, now, events, s', now') && i < |s'.procs| && s'.procs[i].LateConsume?
    ensures || (i < |s.procs| && s.procs[i].LateConsume? && s.procs[i].userId == s'.procs[i].userId)
            || Checked(s, events, i, s'.procs[i].userId)
    decreases |events|
  {
    if events == [] {
    } else {
      var t := Next(s, events[0].now, events[0].action);
      RunChecks(t, events[0].now, events[1..], s', now', i);
      if i < |t.procs| && t.procs[i].LateConsume? {
        ConsumesAfterCheck(s, events[0].now, events[0].action, i);
      }
    }
  }

  lemma GraceTaken(s: Session, before: nat, now: nat, a: Action)
    requires Inv(s, before) && before <= now && Enabled(s, now, a) && Live(s.grace, now).Some?
    ensures || Next(s, now, a).grace == s.grace
            || (a.Advance? && s.procs[a.i].LateConsume? && s.procs[a.i].userId == s.id.userId)
  {
    if a.Advance? {
      assert ProcGrace(s, s.procs[a.i]);
      TallyUpdate(OPENING, s.procs, a.i, Finished);
    }
  }

  /**
   An open grace window is taken away only by its expiry, or by a late submission of the owner that has found the
   session expired.
   */
  lemma OnlyTheOwnerTakesGrace(id: Identity, events: seq<Event>, s: Session, before: nat, now: nat, a: Action)
    requires Runs(Opened(id), id.startedAt, events, s, before) && before <= now && Enabled(s, now, a)
    requires Live(s.grace, now).Some?
    ensures || Next(s, now, a).grace == s.grace
            || (a.Advance? && s.procs[a.i].LateConsume? && s.procs[a.i].userId == id.userId
                && Checked(Opened(id), events, a.i, id.userId))
  {
    FlowOpened(id);
    RunKeepsInv(Opened(id), id.startedAt, events, s, before);
    GraceTaken(s, before, now, a);
    if a.Advance? && s.procs[a.i].LateConsume? {
      RunChecks(Opened(id), id.startedAt, events, s, before, a.i);
    }
  }
}
