/** The grace window: who may take it, when, and how often. */
module SessionGrace {
  import opened Counting
  import opened SessionProtocol
  import opened SessionFlow

  function Lateness(): Attempt -> nat {
    (attempt: Attempt) => Held(attempt.lateFlag)
  }

  function LateAttempts(attempts: seq<Attempt>): nat {
    Count(attempts, Lateness())
  }

  /** The key was taken by the owner, while the window that opened at `start` was still open. */
  predicate InWindow(id: Identity, start: nat, c: Consumption) {
    c.userId == id.userId && start <= c.at < start + 1000 * GRACE_WINDOW_SECONDS
  }

  predicate ProcGrace(s: Session, p: Proc) {
    p.LateConsume? ==> p.userId == s.id.userId
  }

  /** The log of windows and consumptions is in order, and accounts for the grace key. */
  ghost predicate GraceFacts(s: Session, now: nat) {
    && (s.row.Some? ==> s.row.value.id == s.id)
    && |s.log.windows| <= 1
    && (|s.log.windows| == 1 ==> s.log.windows[0] <= now)
    && (s.grace.Some? ==> |s.log.windows| == 1
                          && s.grace.value.deadline == s.log.windows[0] + 1000 * GRACE_WINDOW_SECONDS)
    && |s.log.consumed| + Held(s.grace.Some?) <= |s.log.windows|
    && (|s.log.consumed| == 1 ==> InWindow(s.id, s.log.windows[0], s.log.consumed[0]))
  }

  ghost predicate Grace(s: Session, now: nat) {
    && GraceFacts(s, now)
    && |s.log.windows| + Early(s) + Tally(OPENING, s.procs) <= 1
    && LateAttempts(s.attempts) + Tally(LATE, s.procs) <= |s.log.consumed|
    && (forall i :: 0 <= i < |s.procs| ==> ProcGrace(s, s.procs[i]))
  }

  lemma GraceLater(s: Session, now: nat, later: nat)
    requires Grace(s, now) && now <= later
    ensures Grace(s, later)
  {
    assert GraceFacts(s, later);
  }

  lemma PerformKeepsGrace(s: Session, now: nat, p: Proc)
    requires GraceFacts(s, now) && ProcGrace(s, p) && !p.Finished? && (p.ExpiryOpenGrace? ==> s.log.windows == [])
    ensures var (t, q) := Perform(s, now, p);
            GraceFacts(t, now) && ProcGrace(t, q) && t.id == s.id
  {
  }

  lemma PerformCountsGrace(s: Session, now: nat, p: Proc)
    requires !p.Finished?
    ensures var (t, q) := Perform(s, now, p);
      && |t.log.windows| + EarlyStore(t) + Weight(EARLY, q) + Weight(OPENING, q)
         <= |s.log.windows| + EarlyStore(s) + Weight(EARLY, p) + Weight(OPENING, p)
      && LateAttempts(t.attempts) + Weight(LATE, q) + |s.log.consumed|
         <= LateAttempts(s.attempts) + Weight(LATE, p) + |t.log.consumed|
  {
    var (t, q) := Perform(s, now, p);
    if |t.attempts| > |s.attempts| {
      CountAppend(s.attempts, t.attempts[|s.attempts|], Lateness());
    }
  }

  lemma AdvanceKeepsGrace(s: Session, now: nat, i: nat)
    requires Grace(s, now) && i < |s.procs| && !s.procs[i].Finished?
    ensures Grace(AdvanceStep(s, now, i), now)
  {
    var p := s.procs[i];
    var (t, q) := Perform(s, now, p);
    var s' := AdvanceStep(s, now, i);
    TallyUpdate(EARLY, s.procs, i, q);
    TallyUpdate(OPENING, s.procs, i, q);
    TallyUpdate(LATE, s.procs, i, q);
    assert ProcGrace(s, p);
    PerformKeepsGrace(s, now, p);
    PerformCountsGrace(s, now, p);
    assert Early(s') == EarlyStore(t) + Tally(EARLY, s'.procs);
    assert forall j :: 0 <= j < |s'.procs| && j != i ==> s'.procs[j] == s.procs[j] && ProcGrace(s, s.procs[j]);
  }

  lemma ArriveKeepsGrace(s: Session, t: Session, now: nat, p: Proc)
    requires Grace(s, now) && t.procs == s.procs && t.id == s.id && t.row == s.row && t.log == s.log
    requires t.grace == s.grace && t.attempts == s.attempts
    requires EarlyStore(t) + Weight(EARLY, p) == EarlyStore(s)
    requires Weight(OPENING, p) == 0 && Weight(LATE, p) == 0 && !p.LateConsume?
    ensures Grace(Arrive(t, p), now)
  {
    TallyAppend(EARLY, s.procs, p);
    TallyAppend(OPENING, s.procs, p);
    TallyAppend(LATE, s.procs, p);
  }

  lemma NextKeepsGrace(s: Session, before: nat, now: nat, a: Action)
    requires Grace(s, before) && before <= now && Enabled(s, now, a)
    ensures Grace(Next(s, now, a), now)
  {
    assert Grace(s, now);
    match a
    case Autosave(userId, answers) => ArriveKeepsGrace(s, s, now, AutosaveCheck(userId, answers));
    case Submit(userId, answers) => ArriveKeepsGrace(s, s, now, SubmitCheck(userId, answers));
    case LateSubmit(userId, answers) => ArriveKeepsGrace(s, s, now, LateCheck(userId, answers));
    case DeliverKeyEvent => ArriveKeepsGrace(s, s.(keyEvents := s.keyEvents - 1), now, ExpiryCheck);
    case DeliverGraceEvent => ArriveKeepsGrace(s, s.(graceEvents := s.graceEvents - 1), now, GraceCheck);
    case Advance(i) => AdvanceKeepsGrace(s, now, i);
    case ExpireGrace => assert Early(Next(s, now, a)) == Early(s);
    case _ => StartKeepsGrace(s, now, a);
  }

  lemma StartKeepsGrace(s: Session, now: nat, a: Action)
    requires Grace(s, now) && Enabled(s, now, a) && (a.WriteKey? || a.Compensate? || a.ExpireKey?)
    ensures Grace(Next(s, now, a), now)
  {
    assert Early(Next(s, now, a)) <= Early(s);
  }
}
