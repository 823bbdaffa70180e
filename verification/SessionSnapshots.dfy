/** Where the answers in a stored snapshot, and so in an automatic submission, can come from. */
module SessionSnapshots {
  import opened Wrappers
  import opened ExamData
  import opened SessionProtocol

  /** Empty, or accepted by SET KEEPTTL XX, or the answers of one of the first `bound` attempts. */
  ghost predicate Justified(s: Session, answers: Answers, bound: nat) {
    || answers == map[]
    || (exists i :: 0 <= i < |s.log.accepted| && s.log.accepted[i].answers == answers)
    || (exists i :: 0 <= i < bound && i < |s.attempts| && s.attempts[i].answers == answers)
  }

  ghost predicate ProcSnapshots(s: Session, p: Proc) {
    match p
    case AutosaveMirror(answers) => Justified(s, answers, |s.attempts|)
    case ExpiryMark(snapshot) => Justified(s, SnapshotOr(snapshot), |s.attempts|)
    case ExpiryOpenGrace(snapshot) => Justified(s, SnapshotOr(snapshot), |s.attempts|)
    case Commit(answers, auto, _) => auto ==> Justified(s, answers, |s.attempts|)
    case _ => true
  }

  ghost predicate Snapshots(s: Session) {
    && (s.row.Some? ==> Justified(s, SnapshotOr(s.row.value.snapshot), |s.attempts|))
    && (s.grace.Some? ==> Justified(s, s.grace.value.value, |s.attempts|))
    && (forall i :: 0 <= i < |s.attempts| && s.attempts[i].auto ==> Justified(s, s.attempts[i].answers, i))
    && (forall i :: 0 <= i < |s.procs| ==> ProcSnapshots(s, s.procs[i]))
  }

  lemma JustifiedForward(s: Session, s': Session, answers: Answers, bound: nat)
    requires s.log.accepted <= s'.log.accepted && s.attempts <= s'.attempts
    requires Justified(s, answers, bound)
    ensures forall higher :: higher >= bound ==> Justified(s', answers, higher)
  {
    if i :| 0 <= i < |s.log.accepted| && s.log.accepted[i].answers == answers {
      assert s'.log.accepted[i].answers == answers;
    } else if answers != map[] {
      var i :| 0 <= i < bound && i < |s.attempts| && s.attempts[i].answers == answers;
      assert s'.attempts[i].answers == answers;
    }
  }

  lemma ProcForward(s: Session, s': Session, p: Proc)
    requires s.log.accepted <= s'.log.accepted && s.attempts <= s'.attempts
    requires ProcSnapshots(s, p)
    ensures ProcSnapshots(s', p)
  {
    match p
    case AutosaveMirror(answers) => JustifiedForward(s, s', answers, |s.attempts|);
    case ExpiryMark(snapshot) => JustifiedForward(s, s', SnapshotOr(snapshot), |s.attempts|);
    case ExpiryOpenGrace(snapshot) => JustifiedForward(s, s', SnapshotOr(snapshot), |s.attempts|);
    case Commit(answers, auto, _) =>
      if auto {
        JustifiedForward(s, s', answers, |s.attempts|);
      }
    case _ =>
  }

  predicate Extends(s: Session, t: Session) {
    s.log.accepted <= t.log.accepted && s.attempts <= t.attempts
  }

  lemma PerformExtends(s: Session, now: nat, p: Proc)
    requires !p.Finished?
    ensures Extends(s, Perform(s, now, p).0)
  {
  }

  lemma HistoryGrows(s: Session, now: nat, a: Action)
    requires Enabled(s, now, a)
    ensures Extends(s, Next(s, now, a))
  {
    if a.Advance? {
      PerformExtends(s, now, s.procs[a.i]);
    }
  }

  /** The request that made the step, and the row and grace snapshots it may have replaced. */
  lemma ActorSnapshots(s: Session, now: nat, i: nat)
    requires Snapshots(s) && i < |s.procs| && !s.procs[i].Finished?
    ensures var s' := AdvanceStep(s, now, i);
      && ProcSnapshots(s', s'.procs[i])
      && (s'.row.Some? ==> Justified(s', SnapshotOr(s'.row.value.snapshot), |s'.attempts|))
      && (s'.grace.Some? ==> Justified(s', s'.grace.value.value, |s'.attempts|))
      && (forall k :: |s.attempts| <= k < |s'.attempts| && s'.attempts[k].auto ==>
            Justified(s', s'.attempts[k].answers, k))
  {
    var p := s.procs[i];
    var s' := AdvanceStep(s, now, i);
    HistoryGrows(s, now, Advance(i));
    assert ProcSnapshots(s, p);
    ProcForward(s, s', p);
    if s.row.Some? {
      JustifiedForward(s, s', SnapshotOr(s.row.value.snapshot), |s.attempts|);
    }
    if s.grace.Some? {
      JustifiedForward(s, s', s.grace.value.value, |s.attempts|);
    }
    match p
    case AutosaveWrite(answers, _) =>
      if s'.procs[i].AutosaveMirror? {
        assert s'.log.accepted[|s.log.accepted|].answers == answers;
      }
    case Commit(answers, auto, _) =>
      if |s'.attempts| > |s.attempts| {
        assert s'.attempts[|s.attempts|].answers == answers;
        if auto {
          JustifiedForward(s, s', answers, |s.attempts|);
        }
      }
    case _ =>
  }

  lemma StoreSnapshots(s: Session, now: nat, a: Action)
    requires Snapshots(s) && Enabled(s, now, a)
    ensures var s' := Next(s, now, a);
      && (a.Advance? ==> ProcSnapshots(s', s'.procs[a.i]))
      && (s'.row.Some? ==> Justified(s', SnapshotOr(s'.row.value.snapshot), |s'.attempts|))
      && (s'.grace.Some? ==> Justified(s', s'.grace.value.value, |s'.attempts|))
      && (forall k :: |s.attempts| <= k < |s'.attempts| && s'.attempts[k].auto ==>
            Justified(s', s'.attempts[k].answers, k))
  {
    if a.Advance? {
      ActorSnapshots(s, now, a.i);
    } else {
      var s' := Next(s, now, a);
      if s.row.Some? {
        JustifiedForward(s, s', SnapshotOr(s.row.value.snapshot), |s.attempts|);
      }
      if s.grace.Some? {
        JustifiedForward(s, s', s.grace.value.value, |s.attempts|);
      }
    }
  }

  /** An answer map is accepted only before the deadline of the key it is written under. */
  predicate InTime(deadline: Option<nat>, accepted: Accepted, now: nat) {
    deadline.Some? && accepted.at < deadline.value && accepted.at <= now
  }

  ghost predicate AcceptedInTime(s: Session, now: nat) {
    && (forall i :: 0 <= i < |s.log.accepted| ==> InTime(s.log.deadline, s.log.accepted[i], now))
    && (s.key.Some? ==> s.log.deadline == Some(s.key.value.deadline))
    && (s.start.Pending? ==> s.log.deadline.None?)
  }

  lemma AcceptsLater(s: Session, now: nat, later: nat)
    requires AcceptedInTime(s, now) && now <= later
    ensures AcceptedInTime(s, later)
  {
    forall i | 0 <= i < |s.log.accepted|
      ensures InTime(s.log.deadline, s.log.accepted[i], later)
    {
      assert InTime(s.log.deadline, s.log.accepted[i], now);
    }
  }

  lemma PerformAcceptsInTime(s: Session, now: nat, p: Proc)
    requires AcceptedInTime(s, now) && !p.Finished?
    ensures AcceptedInTime(Perform(s, now, p).0, now)
  {
    var t := Perform(s, now, p).0;
    forall i | 0 <= i < |t.log.accepted|
      ensures InTime(t.log.deadline, t.log.accepted[i], now)
    {
      assert i < |s.log.accepted| ==> InTime(s.log.deadline, s.log.accepted[i], now);
    }
  }

  lemma NextAcceptsInTime(s: Session, before: nat, now: nat, a: Action)
    requires AcceptedInTime(s, before) && before <= now && Enabled(s, now, a)
    ensures AcceptedInTime(Next(s, now, a), now)
  {
    var s' := Next(s, now, a);
    AcceptsLater(s, before, now);
    if a.Advance? {
      PerformAcceptsInTime(s, now, s.procs[a.i]);
      assert s'.log == Perform(s, now, s.procs[a.i]).0.log;
    } else {
      assert s'.log.accepted == s.log.accepted;
      forall i | 0 <= i < |s'.log.accepted|
        ensures InTime(s'.log.deadline, s'.log.accepted[i], now)
      {
        assert InTime(s.log.deadline, s.log.accepted[i], now);
      }
    }
  }

  lemma NextKeepsSnapshots(s: Session, now: nat, a: Action)
    requires Snapshots(s) && Enabled(s, now, a)
    ensures Snapshots(Next(s, now, a))
  {
    var s' := Next(s, now, a);
    HistoryGrows(s, now, a);
    StoreSnapshots(s, now, a);
    forall k | 0 <= k < |s.attempts| && s.attempts[k].auto
      ensures Justified(s', s'.attempts[k].answers, k)
    {
      JustifiedForward(s, s', s.attempts[k].answers, k);
    }
    forall j | 0 <= j < |s'.procs|
      ensures ProcSnapshots(s', s'.procs[j])
    {
      if j < |s.procs| && s'.procs[j] == s.procs[j] {
        ProcForward(s, s', s.procs[j]);
      }
    }
  }
}
