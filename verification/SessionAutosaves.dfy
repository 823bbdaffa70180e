/** What an automatic submission scores: the last answers that an autosave brought to Redis, if autosaves take turns. */
module SessionAutosaves {
  import opened Counting
  import opened Wrappers
  import opened ExamData
  import opened SessionProtocol
  import opened SessionFlow
  import opened SessionWitnesses
  import opened RedisStore

  /** An autosave that Redis has accepted and the row does not hold yet. */
  function Mirroring(): Proc -> nat {
    (p: Proc) => Held(p.AutosaveMirror?)
  }

  function Mirrors(s: Session): nat {
    Count(s.procs, Mirroring())
  }

  /** The answers accepted last, or none. */
  function LastAccepted(s: Session): Answers {
    var n := |s.log.accepted|;
    if n == 0 then map[] else s.log.accepted[n - 1].answers
  }

  /** The countdown is over, and nothing will be accepted any more. */
  predicate Gone(s: Session) {
    s.key.None? && !s.start.Pending?
  }

  predicate ProcSaves(s: Session, p: Proc) {
    && (p.AutosaveMirror? ==> p.answers == LastAccepted(s))
    && (p.Commit? && p.auto ==> p.answers == LastAccepted(s) && Gone(s))
  }

  /** Until somebody submits, row and requests follow what was accepted; a first attempt that is automatic has it. */
  ghost predicate Saves(s: Session) {
    && (s.attempts == [] && s.row.Some? && Mirrors(s) == 0 ==>
          SnapshotOr(s.row.value.snapshot) == LastAccepted(s))
    && (s.attempts == [] ==> forall j :: 0 <= j < |s.procs| ==> ProcSaves(s, s.procs[j]))
    && (s.attempts != [] && s.attempts[0].auto ==> s.attempts[0].answers == LastAccepted(s) && Gone(s))
  }

  /** No two autosaves are between acceptance and row at once, and none is when the row is read for submission. */
  predicate TakesTurns(s: Session, a: Action) {
    && Mirrors(s) <= 1
    && (a.Advance? && a.i < |s.procs| && s.procs[a.i].GraceCheck? ==> Mirrors(s) == 0)
  }

  ghost predicate TakeTurns(s: Session, events: seq<Event>)
    decreases |events|
  {
    if events == [] then Mirrors(s) <= 1
    else
      && Enabled(s, events[0].now, events[0].action) && TakesTurns(s, events[0].action)
      && TakeTurns(Next(s, events[0].now, events[0].action), events[1..])
  }

  lemma NoMirror(s: Session, j: nat)
    requires Mirrors(s) == 0 && j < |s.procs|
    ensures !s.procs[j].AutosaveMirror?
  {
    CountUpdate(s.procs, j, Finished, Mirroring());
  }

  /** When the grace window is over the countdown is. */
  lemma GraceCheckIsLate(s: Session, i: nat)
    requires Flow(s) && i < |s.procs| && s.procs[i].GraceCheck?
    ensures Gone(s)
  {
    TallyUpdate(CLOSING, s.procs, i, Finished);
  }

  // ---- Each step -----------------------------------------------------------------------------------------

  /** A step that accepts nothing, and submits nothing, keeps what holds of the other requests. */
  lemma OthersSave(s: Session, s': Session, j: nat)
    requires Saves(s) && s.attempts == [] && j < |s.procs|
    requires s'.log.accepted == s.log.accepted && (Gone(s) ==> Gone(s'))
    ensures ProcSaves(s', s.procs[j])
  {
    assert ProcSaves(s, s.procs[j]);
  }

  lemma AcceptSaves(s: Session, now: nat, i: nat)
    requires Saves(s) && i < |s.procs| && s.procs[i].AutosaveWrite? && Mirrors(AdvanceStep(s, now, i)) <= 1
    ensures Saves(AdvanceStep(s, now, i))
  {
    var s' := AdvanceStep(s, now, i);
    CountUpdate(s.procs, i, s'.procs[i], Mirroring());
    if s.attempts == [] {
      forall j | 0 <= j < |s'.procs|
        ensures ProcSaves(s', s'.procs[j])
      {
        assert ProcSaves(s, s.procs[j]);
        if j != i && s'.procs[i].AutosaveMirror? {
          NoMirror(s, j);
        }
      }
    }
  }

  lemma MirrorSaves(s: Session, now: nat, i: nat)
    requires Saves(s) && i < |s.procs| && s.procs[i].AutosaveMirror?
    ensures Saves(AdvanceStep(s, now, i))
  {
    var s' := AdvanceStep(s, now, i);
    if s.attempts == [] {
      assert ProcSaves(s, s.procs[i]);
      forall j | 0 <= j < |s'.procs|
        ensures ProcSaves(s', s'.procs[j])
      {
        if j != i {
          OthersSave(s, s', j);
        }
      }
    }
  }

  lemma CommitSaves(s: Session, now: nat, i: nat)
    requires Saves(s) && i < |s.procs| && s.procs[i].Commit?
    ensures Saves(AdvanceStep(s, now, i))
  {
    var s' := AdvanceStep(s, now, i);
    CountUpdate(s.procs, i, s'.procs[i], Mirroring());
    if s.attempts == [] {
      assert ProcSaves(s, s.procs[i]);
      forall j | 0 <= j < |s'.procs| && s'.attempts == []
        ensures ProcSaves(s', s'.procs[j])
      {
        if j != i {
          OthersSave(s, s', j);
        }
      }
    }
  }

  lemma GraceSaves(s: Session, now: nat, i: nat)
    requires Flow(s) && Saves(s) && i < |s.procs| && s.procs[i].GraceCheck? && Mirrors(s) == 0
    ensures Saves(AdvanceStep(s, now, i))
  {
    var s' := AdvanceStep(s, now, i);
    GraceCheckIsLate(s, i);
    CountUpdate(s.procs, i, s'.procs[i], Mirroring());
    if s.attempts == [] {
      forall j | 0 <= j < |s'.procs|
        ensures ProcSaves(s', s'.procs[j])
      {
        if j != i {
          OthersSave(s, s', j);
        }
      }
    }
  }

  predicate NeitherSavesNorSubmits(p: Proc) {
    !p.Finished? && !p.AutosaveWrite? && !p.AutosaveMirror? && !p.Commit? && !p.GraceCheck?
  }

  lemma QuietCall(s: Session, now: nat, p: Proc)
    requires NeitherSavesNorSubmits(p)
    ensures var (t, q) := Perform(s, now, p);
      && t.log.accepted == s.log.accepted && t.attempts == s.attempts && (Gone(s) ==> Gone(t))
      && (t.row.Some? ==> s.row.Some? && t.row.value.snapshot == s.row.value.snapshot)
      && !q.AutosaveMirror? && !(q.Commit? && q.auto)
  {
  }

  lemma QuietSaves(s: Session, now: nat, i: nat)
    requires Saves(s) && i < |s.procs| && NeitherSavesNorSubmits(s.procs[i])
    ensures Saves(AdvanceStep(s, now, i))
  {
    var s' := AdvanceStep(s, now, i);
    QuietCall(s, now, s.procs[i]);
    CountUpdate(s.procs, i, s'.procs[i], Mirroring());
    if s.attempts == [] {
      forall j | 0 <= j < |s'.procs|
        ensures ProcSaves(s', s'.procs[j])
      {
        if j != i {
          OthersSave(s, s', j);
        }
      }
    }
  }

  lemma ArriveSaves(s: Session, t: Session, p: Proc)
    requires Saves(s) && !p.AutosaveMirror? && !p.Commit?
    requires t.procs == s.procs && t.log == s.log && t.attempts == s.attempts && t.row == s.row && (Gone(s) ==> Gone(t))
    ensures Saves(Arrive(t, p))
  {
    var s' := Arrive(t, p);
    CountAppend(s.procs, p, Mirroring());
    if s.attempts == [] {
      forall j | 0 <= j < |s'.procs|
        ensures ProcSaves(s', s'.procs[j])
      {
        if j < |s.procs| {
          OthersSave(s, s', j);
        }
      }
    }
  }

  lemma StoreSaves(s: Session, now: nat, a: Action)
    requires Saves(s) && Enabled(s, now, a) && (a.WriteKey? || a.Compensate? || a.ExpireKey? || a.ExpireGrace?)
    ensures Saves(Next(s, now, a))
  {
    var s' := Next(s, now, a);
    if s.attempts == [] {
      forall j | 0 <= j < |s'.procs|
        ensures ProcSaves(s', s'.procs[j])
      {
        OthersSave(s, s', j);
      }
    }
  }

  lemma NextSaves(s: Session, now: nat, a: Action)
    requires Flow(s) && Saves(s) && Enabled(s, now, a) && TakesTurns(s, a) && Mirrors(Next(s, now, a)) <= 1
    ensures Saves(Next(s, now, a))
  {
    match a
    case Autosave(userId, answers) => ArriveSaves(s, s, AutosaveCheck(userId, answers));
    case Submit(userId, answers) => ArriveSaves(s, s, SubmitCheck(userId, answers));
    case LateSubmit(userId, answers) => ArriveSaves(s, s, LateCheck(userId, answers));
    case DeliverKeyEvent => ArriveSaves(s, s.(keyEvents := s.keyEvents - 1), ExpiryCheck);
    case DeliverGraceEvent => ArriveSaves(s, s.(graceEvents := s.graceEvents - 1), GraceCheck);
    case Advance(i) =>
      var p := s.procs[i];
      if p.AutosaveWrite? {
        AcceptSaves(s, now, i);
      } else if p.AutosaveMirror? {
        MirrorSaves(s, now, i);
      } else if p.Commit? {
        CommitSaves(s, now, i);
      } else if p.GraceCheck? {
        GraceSaves(s, now, i);
      } else {
        QuietSaves(s, now, i);
      }
    case _ => StoreSaves(s, now, a);
  }

  lemma {:induction false} RunSaves(s: Session, now: nat, events: seq<Event>, s': Session, now': nat)
    requires Flow(s) && Saves(s) && Runs(s, now, events, s', now') && TakeTurns(s, events)
    ensures Saves(s')
    decreases |events|
  {
    if events == [] {
    } else {
      var e := events[0];
      NextSaves(s, e.now, e.action);
      NextKeepsFlow(s, e.now, e.action);
      RunSaves(Next(s, e.now, e.action), e.now, events[1..], s', now');
    }
  }

  /** In a run whose autosaves take turns, a first attempt that is automatic has the last accepted answers. */
  lemma LastAcceptedIsScored(id: Identity, events: seq<Event>, s: Session, now: nat)
    requires Runs(Opened(id), id.startedAt, events, s, now) && TakeTurns(Opened(id), events)
    ensures |s.attempts| > 0 && s.attempts[0].auto ==> s.attempts[0].answers == LastAccepted(s)
  {
    FlowOpened(id);
    RunSaves(Opened(id), id.startedAt, events, s, now);
  }

  // ---- Exactly when --------------------------------------------------------------------------------------

  /** The check of an automatic submission, before anybody has submitted. */
  predicate Reads(s: Session, a: Action) {
    a.Advance? && a.i < |s.procs| && s.procs[a.i].GraceCheck? && Open(s) && s.attempts == []
  }

  /** The row holds the answers accepted last. */
  predicate Current(s: Session) {
    s.row.Some? && SnapshotOr(s.row.value.snapshot) == LastAccepted(s)
  }

  function Noted(s: Session, a: Action, read: Option<bool>): Option<bool> {
    if Reads(s, a) then Some(Current(s)) else read
  }

  /** Whether the row was current at the last such check of the run. */
  ghost function LastRead(s: Session, events: seq<Event>, read: Option<bool>): Option<bool>
    decreases |events|
  {
    if events == [] || !Enabled(s, events[0].now, events[0].action) then read
    else
      var e := events[0];
      LastRead(Next(s, e.now, e.action), events[1..], Noted(s, e.action, read))
  }

  /** These answers are the last accepted exactly if the row was current when it was read, and stay so. */
  predicate Decided(s: Session, read: Option<bool>, answers: Answers) {
    Gone(s) && read.Some? && (answers == LastAccepted(s) <==> read.value)
  }

  predicate ProcDecided(s: Session, read: Option<bool>, p: Proc) {
    p.Commit? && p.auto ==> Decided(s, read, p.answers)
  }

  ghost predicate AllDecided(s: Session, read: Option<bool>) {
    && (s.attempts == [] ==> forall j :: 0 <= j < |s.procs| ==> ProcDecided(s, read, s.procs[j]))
    && (s.attempts != [] && s.attempts[0].auto ==> Decided(s, read, s.attempts[0].answers))
  }

  lemma LoneCheck(s: Session, i: nat, j: nat)
    requires Flow(s) && i < |s.procs| && j < |s.procs| && i != j && s.procs[i].GraceCheck?
    ensures !(s.procs[j].Commit? && s.procs[j].auto)
  {
    CountTwo(s.procs, if i < j then i else j, if i < j then j else i, Weighing(CLOSING));
  }

  /** What one call does to answers that are decided, and which answers it carries on. */
  lemma CallDecides(s: Session, now: nat, p: Proc)
    requires !p.Finished?
    ensures var (t, q) := Perform(s, now, p);
      && s.attempts <= t.attempts && (Gone(s) ==> Gone(t) && t.log.accepted == s.log.accepted)
      && (t.attempts != s.attempts ==>
            p.Commit? && |t.attempts| == |s.attempts| + 1 && t.log.accepted == s.log.accepted
            && t.attempts[|s.attempts|].auto == p.auto && t.attempts[|s.attempts|].answers == p.answers)
      && (q.Commit? && q.auto ==> p.GraceCheck? && t == s && Open(s) && q.answers == SnapshotOr(s.row.value.snapshot))
  {
  }

  lemma AdvanceDecides(s: Session, now: nat, i: nat, read: Option<bool>)
    requires Flow(s) && AllDecided(s, read) && i < |s.procs| && !s.procs[i].Finished?
    ensures AllDecided(AdvanceStep(s, now, i), Noted(s, Advance(i), read))
  {
    var s', read' := AdvanceStep(s, now, i), Noted(s, Advance(i), read);
    CallDecides(s, now, s.procs[i]);
    if s.procs[i].GraceCheck? {
      GraceCheckIsLate(s, i);
    }
    if s.attempts == [] {
      assert ProcDecided(s, read, s.procs[i]);
      forall j | 0 <= j < |s'.procs| && s'.attempts == []
        ensures ProcDecided(s', read', s'.procs[j])
      {
        assert ProcDecided(s, read, s.procs[j]);
        if j != i && s.procs[i].GraceCheck? {
          LoneCheck(s, i, j);
        }
      }
    }
  }

  lemma NextDecides(s: Session, now: nat, a: Action, read: Option<bool>)
    requires Flow(s) && AllDecided(s, read) && Enabled(s, now, a)
    ensures AllDecided(Next(s, now, a), Noted(s, a, read))
  {
    if a.Advance? {
      AdvanceDecides(s, now, a.i, read);
    } else {
      var s' := Next(s, now, a);
      forall j | 0 <= j < |s'.procs| && s'.attempts == []
        ensures ProcDecided(s', read, s'.procs[j])
      {
        if j < |s.procs| {
          assert ProcDecided(s, read, s.procs[j]);
        }
      }
    }
  }

  lemma {:induction false} RunDecides(
      s: Session, now: nat, events: seq<Event>, s': Session, now': nat, read: Option<bool>)
    requires Flow(s) && AllDecided(s, read) && Runs(s, now, events, s', now')
    ensures AllDecided(s', LastRead(s, events, read))
    decreases |events|
  {
    if events == [] {
    } else {
      var e := events[0];
      NextDecides(s, e.now, e.action, read);
      NextKeepsFlow(s, e.now, e.action);
      RunDecides(Next(s, e.now, e.action), e.now, events[1..], s', now', Noted(s, e.action, read));
    }
  }

  /** In any run, a first attempt that is automatic has them exactly if the row was current when it was read. */
  lemma LastAcceptedIsScoredExactly(id: Identity, events: seq<Event>, s: Session, now: nat)
    requires Runs(Opened(id), id.startedAt, events, s, now) && |s.attempts| > 0 && s.attempts[0].auto
    ensures s.attempts[0].answers == LastAccepted(s) <==> LastRead(Opened(id), events, None) == Some(true)
  {
    FlowOpened(id);
    RunDecides(Opened(id), id.startedAt, events, s, now, None);
  }

  // ---- A run in which accepted answers are not scored ----------------------------------------------------

  /** An autosave that is accepted, and whose write to the row is still waiting when the grace window has passed. */
  function SlowAutosave(id: Identity, answers: Answers, k: nat): Event {
    var now := if k < 5 then id.startedAt else if k < 10 then Expiry(id) else Expiry(id) + 120_000;
    var action :=
      if k == 0 then WriteKey(Stored) else if k == 1 then Autosave(id.userId, answers) else if k < 5 then Advance(0)
      else if k == 5 then ExpireKey else if k == 6 then DeliverKeyEvent else if k < 10 then Advance(1)
      else if k == 10 then ExpireGrace else if k == 11 then DeliverGraceEvent else Advance(2);
    Event(now, action)
  }

  /** The session after the first `k` of these events. */
  function SlowScene(id: Identity, answers: Answers, k: nat): Session {
    var expiry := Expiry(id);
    var scored := Attempt(id.userId, id.examId, map[], true, false);
    var data := if k < 5 then FreshData(id) else FreshData(id).(answers := answers);
    Session(id,
      Some(Row(id, if k < 9 then ACTIVE else if k < 14 then EXPIRED else AUTO_SUBMITTED,
               if k < 14 then None else Some(map[]))),
      if k == 0 then Pending else Settled,
      if 1 <= k < 6 then Some(Entry(data, expiry)) else None,
      Held(k == 6),
      if k == 10 then Some(Entry(map[], expiry + 120_000)) else None,
      Held(k == 11),
      if k < 14 then [] else [scored],
      SlowRequests(id, answers, k),
      Log(if k == 0 then None else Some(expiry), if k < 5 then [] else [Accepted(answers, id.startedAt)],
          if k < 10 then [] else [expiry], [], 0, 0, false))
  }

  function SlowRequests(id: Identity, answers: Answers, k: nat): seq<Proc> {
    (if k < 2 then [] else if k == 2 then [AutosaveCheck(id.userId, answers)]
     else if k == 3 then [AutosaveRead(answers)]
     else if k == 4 then [AutosaveWrite(answers, FreshData(id))] else [AutosaveMirror(answers)])
    + (if k < 7 then [] else if k == 7 then [ExpiryCheck] else if k == 8 then [ExpiryMark(None)]
       else if k == 9 then [ExpiryOpenGrace(None)] else [Finished])
    + (if k < 12 then [] else if k == 12 then [GraceCheck] else if k == 13 then [Commit(map[], true, false)]
       else [DeleteKey])
  }

  ghost predicate SlowLeads(id: Identity, answers: Answers, k: nat) {
    var now := if k == 0 then id.startedAt else SlowAutosave(id, answers, k - 1).now;
    Leads(SlowScene(id, answers, k), now, SlowAutosave(id, answers, k), SlowScene(id, answers, k + 1))
  }

  lemma StartingScenes(id: Identity, answers: Answers, k: nat)
    requires id.durationSeconds > 0 && k < 2
    ensures SlowLeads(id, answers, k)
  {
  }

  lemma SavingScenes(id: Identity, answers: Answers, k: nat)
    requires id.durationSeconds > 0 && 2 <= k < 5
    ensures SlowLeads(id, answers, k)
  {
  }

  lemma ExpiringScenes(id: Identity, answers: Answers, k: nat)
    requires id.durationSeconds > 0 && 5 <= k < 8
    ensures SlowLeads(id, answers, k)
  {
  }

  lemma OpeningGraceScenes(id: Identity, answers: Answers, k: nat)
    requires id.durationSeconds > 0 && 8 <= k < 10
    ensures SlowLeads(id, answers, k)
  {
  }

  lemma ClosingGraceScenes(id: Identity, answers: Answers, k: nat)
    requires id.durationSeconds > 0 && 10 <= k < 12
    ensures SlowLeads(id, answers, k)
  {
  }

  lemma CheckingScene(id: Identity, answers: Answers)
    requires id.durationSeconds > 0
    ensures SlowLeads(id, answers, 12)
  {
  }

  lemma SubmittingScene(id: Identity, answers: Answers)
    requires id.durationSeconds > 0
    ensures SlowLeads(id, answers, 13)
  {
  }

  lemma SlowSceneLeads(id: Identity, answers: Answers, k: nat)
    requires id.durationSeconds > 0 && k < 14
    ensures SlowLeads(id, answers, k)
  {
    if k < 2 {
      StartingScenes(id, answers, k);
    } else if k < 5 {
      SavingScenes(id, answers, k);
    } else if k < 8 {
      ExpiringScenes(id, answers, k);
    } else if k < 10 {
      OpeningGraceScenes(id, answers, k);
    } else if k < 12 {
      ClosingGraceScenes(id, answers, k);
    } else if k == 12 {
      CheckingScene(id, answers);
    } else {
      SubmittingScene(id, answers);
    }
  }

  lemma SlowRun(id: Identity, answers: Answers) returns (now: nat)
    requires id.durationSeconds > 0
    ensures Reachable(SlowScene(id, answers, 14), now)
  {
    var events := seq(14, k requires 0 <= k < 14 => SlowAutosave(id, answers, k));
    var states := seq(15, k requires 0 <= k < 15 => SlowScene(id, answers, k));
    forall j | 0 <= j < 14
      ensures Leads(states[j], TimeAt(id.startedAt, events, j), events[j], states[j + 1])
    {
      SlowSceneLeads(id, answers, j);
    }
    ChainRuns(id.startedAt, events, states, 14);
    now := TimeAt(id.startedAt, events, 14);
    SlowSceneOpens(id, answers);
  }

  lemma SlowSceneOpens(id: Identity, answers: Answers)
    ensures SlowScene(id, answers, 0) == Opened(id) && SlowScene(id, answers, 14).id == id
  {
  }

  /** Without turns accepted answers may be lost: every exam has a run that accepts them and scores none. */
  lemma AcceptedMayBeLost(id: Identity, answers: Answers)
    requires id.durationSeconds > 0
    ensures exists s: Session, now: nat ::
              && s.id == id && Reachable(s, now) && LastAccepted(s) == answers
              && s.attempts == [Attempt(id.userId, id.examId, map[], true, false)]
  {
    var now := SlowRun(id, answers);
    assert LastAccepted(SlowScene(id, answers, 14)) == answers;
  }
}
