/** What a late submission scores that sends no answers: those that an autosave brought to Redis last. */
module SessionLateAnswers {
  import opened ExamData
  import opened SessionProtocol
  import opened SessionFlow
  import opened SessionAutosaves

  /** These are the answers accepted last, and will stay so. */
  predicate Kept(s: Session, answers: Answers) {
    answers == LastAccepted(s) && Gone(s)
  }

  /** A late submission scores answers of this kind: kept ones, or some that were sent. */
  predicate Scorable(s: Session, answers: Answers, sent: set<Answers>) {
    Kept(s, answers) || (answers != map[] && answers in sent)
  }

  predicate ProcKeeps(s: Session, p: Proc, sent: set<Answers>) {
    && (p.ExpiryMark? || p.ExpiryOpenGrace? ==> Kept(s, p.snapshot.UnwrapOr(map[])))
    && (p.LateCheck? || p.LateConsume? ==> p.answers == map[] || p.answers in sent)
    && (p.Commit? && p.lateFlag ==> Scorable(s, p.answers, sent))
  }

  /** Until somebody submits, handler, grace key and late requests carry such answers. */
  ghost predicate Keeps(s: Session, sent: set<Answers>) {
    && (s.attempts == [] && s.grace.Some? ==> Kept(s, s.grace.value.value))
    && (s.attempts == [] ==> forall j :: 0 <= j < |s.procs| ==> ProcKeeps(s, s.procs[j], sent))
    && (s.attempts != [] && s.attempts[0].lateFlag ==> Scorable(s, s.attempts[0].answers, sent))
  }

  function SentBy(a: Action, sent: set<Answers>): set<Answers> {
    if a.LateSubmit? then sent + {a.answers} else sent
  }

  /** No autosave is between acceptance and row when the expiry handler reads the row. */
  predicate ReadsFresh(s: Session, a: Action) {
    a.Advance? && a.i < |s.procs| && s.procs[a.i].ExpiryCheck? ==> Mirrors(s) == 0
  }

  /** Autosaves take turns, and the expiry handler reads a current row. */
  ghost predicate TakeTurnsFresh(s: Session, events: seq<Event>)
    decreases |events|
  {
    if events == [] then Mirrors(s) <= 1
    else
      && Enabled(s, events[0].now, events[0].action)
      && TakesTurns(s, events[0].action) && ReadsFresh(s, events[0].action)
      && TakeTurnsFresh(Next(s, events[0].now, events[0].action), events[1..])
  }

  /** When the expiry handler is called the countdown is over. */
  lemma ExpiryCheckIsLate(s: Session, i: nat)
    requires Flow(s) && i < |s.procs| && s.procs[i].ExpiryCheck?
    ensures Gone(s)
  {
    TallyUpdate(EARLY, s.procs, i, Finished);
  }

  // ---- Each step -----------------------------------------------------------------------------------------

  /** What one call does to what is kept, and what the call after it carries. */
  lemma CallKeeps(s: Session, now: nat, p: Proc)
    requires !p.Finished?
    ensures var (t, q) := Perform(s, now, p);
      && s.attempts <= t.attempts && (Gone(s) ==> Gone(t) && t.log.accepted == s.log.accepted)
      && (t.attempts != s.attempts ==>
            p.Commit? && |t.attempts| == |s.attempts| + 1 && t.log.accepted == s.log.accepted
            && t.attempts[|s.attempts|].lateFlag == p.lateFlag && t.attempts[|s.attempts|].answers == p.answers)
      && (t.grace.Some? ==> t.grace == s.grace || (p.ExpiryOpenGrace? && t.grace.value.value == SnapshotOr(p.snapshot)))
  {
  }

  lemma CallCarries(s: Session, now: nat, p: Proc)
    requires !p.Finished?
    ensures var (t, q) := Perform(s, now, p);
      && (q.ExpiryMark? ==> p.ExpiryCheck? && t == s && s.row.Some? && q.snapshot == s.row.value.snapshot)
      && (q.ExpiryOpenGrace? ==> p.ExpiryMark? && q.snapshot == p.snapshot)
      && !q.LateCheck? && (q.LateConsume? ==> p.LateCheck? && q.answers == p.answers)
      && (q.Commit? && q.lateFlag ==>
            && p.LateConsume? && s.grace.Some?
            && q.answers == if p.answers == map[] then s.grace.value.value else p.answers)
  {
  }

  lemma ActorKeeps(s: Session, now: nat, i: nat, sent: set<Answers>)
    requires Flow(s) && Saves(s) && Keeps(s, sent) && s.attempts == [] && i < |s.procs| && !s.procs[i].Finished?
    requires ReadsFresh(s, Advance(i))
    ensures var (t, q) := Perform(s, now, s.procs[i]); t.attempts == [] ==> ProcKeeps(t, q, sent)
  {
    CallKeeps(s, now, s.procs[i]);
    CallCarries(s, now, s.procs[i]);
    assert ProcKeeps(s, s.procs[i], sent);
    if s.procs[i].ExpiryCheck? {
      ExpiryCheckIsLate(s, i);
    }
  }

  lemma AdvanceKeeps(s: Session, now: nat, i: nat, sent: set<Answers>)
    requires Flow(s) && Saves(s) && Keeps(s, sent) && i < |s.procs| && !s.procs[i].Finished?
    requires ReadsFresh(s, Advance(i)) && Mirrors(AdvanceStep(s, now, i)) <= 1
    ensures Keeps(AdvanceStep(s, now, i), sent)
  {
    var s' := AdvanceStep(s, now, i);
    CallKeeps(s, now, s.procs[i]);
    if s.attempts == [] {
      ActorKeeps(s, now, i, sent);
      assert ProcKeeps(s, s.procs[i], sent);
      forall j | 0 <= j < |s'.procs| && s'.attempts == []
        ensures ProcKeeps(s', s'.procs[j], sent)
      {
        assert ProcKeeps(s, s.procs[j], sent);
      }
    }
  }

  lemma RequestKeeps(s: Session, now: nat, a: Action, sent: set<Answers>)
    requires Keeps(s, sent) && Enabled(s, now, a)
    requires a.Autosave? || a.Submit? || a.LateSubmit? || a.DeliverKeyEvent? || a.DeliverGraceEvent?
    ensures Keeps(Next(s, now, a), SentBy(a, sent))
  {
    var s' := Next(s, now, a);
    forall j | 0 <= j < |s'.procs| && s'.attempts == []
      ensures ProcKeeps(s', s'.procs[j], SentBy(a, sent))
    {
      if j < |s.procs| {
        assert ProcKeeps(s, s.procs[j], sent);
      }
    }
  }

  lemma StoreKeeps(s: Session, now: nat, a: Action, sent: set<Answers>)
    requires Keeps(s, sent) && Enabled(s, now, a)
    requires a.WriteKey? || a.Compensate? || a.ExpireKey? || a.ExpireGrace?
    ensures Keeps(Next(s, now, a), sent)
  {
    var s' := Next(s, now, a);
    forall j | 0 <= j < |s'.procs| && s'.attempts == []
      ensures ProcKeeps(s', s'.procs[j], sent)
    {
      assert ProcKeeps(s, s.procs[j], sent);
    }
  }

  lemma NextKeeps(s: Session, now: nat, a: Action, sent: set<Answers>)
    requires Flow(s) && Saves(s) && Keeps(s, sent) && Enabled(s, now, a)
    requires ReadsFresh(s, a) && Mirrors(Next(s, now, a)) <= 1
    ensures Keeps(Next(s, now, a), SentBy(a, sent))
  {
    match a
    case Advance(i) => AdvanceKeeps(s, now, i, sent);
    case WriteKey(_) => StoreKeeps(s, now, a, sent);
    case Compensate => StoreKeeps(s, now, a, sent);
    case ExpireKey => StoreKeeps(s, now, a, sent);
    case ExpireGrace => StoreKeeps(s, now, a, sent);
    case _ => RequestKeeps(s, now, a, sent);
  }

  function Sent(events: seq<Event>, sent: set<Answers>): set<Answers> {
    if events == [] then sent else Sent(events[1..], SentBy(events[0].action, sent))
  }

  lemma {:induction false} RunKeeps(
      s: Session, now: nat, events: seq<Event>, s': Session, now': nat, sent: set<Answers>)
    requires Flow(s) && Saves(s) && Keeps(s, sent) && Runs(s, now, events, s', now')
    requires TakeTurnsFresh(s, events)
    ensures Keeps(s', Sent(events, sent))
    decreases |events|
  {
    if events == [] {
    } else {
      var e := events[0];
      NextKeeps(s, e.now, e.action, sent);
      NextSaves(s, e.now, e.action);
      NextKeepsFlow(s, e.now, e.action);
      RunKeeps(Next(s, e.now, e.action), e.now, events[1..], s', now', SentBy(e.action, sent));
    }
  }

  lemma {:induction false} SentNothing(events: seq<Event>, sent: set<Answers>)
    requires forall a :: a in sent ==> a == map[]
    requires forall e :: e in events && e.action.LateSubmit? ==> e.action.answers == map[]
    ensures forall a :: a in Sent(events, sent) ==> a == map[]
  {
    if events == [] {
    } else {
      SentNothing(events[1..], SentBy(events[0].action, sent));
    }
  }

  /** A run of the session in which they do. */
  ghost predicate RunsFresh(id: Identity, events: seq<Event>, s: Session, now: nat) {
    Runs(Opened(id), id.startedAt, events, s, now) && TakeTurnsFresh(Opened(id), events)
  }

  /** In such a run a first attempt that is late has answers that were sent, or those accepted last. */
  lemma LateScoresSentOrAccepted(id: Identity, events: seq<Event>, s: Session, now: nat)
    requires RunsFresh(id, events, s, now)
    requires |s.attempts| > 0 && s.attempts[0].lateFlag
    ensures || s.attempts[0].answers == LastAccepted(s)
            || (s.attempts[0].answers != map[] && s.attempts[0].answers in Sent(events, {}))
  {
    FlowOpened(id);
    RunKeeps(Opened(id), id.startedAt, events, s, now, {});
  }

  /** So if late submissions send no answers, it has the answers that were accepted last. */
  lemma EmptyLateScoresAccepted(id: Identity, events: seq<Event>, s: Session, now: nat)
    requires RunsFresh(id, events, s, now)
    requires forall e :: e in events && e.action.LateSubmit? ==> e.action.answers == map[]
    requires |s.attempts| > 0 && s.attempts[0].lateFlag
    ensures s.attempts[0].answers == LastAccepted(s)
  {
    LateScoresSentOrAccepted(id, events, s, now);
    SentNothing(events, {});
  }
}
