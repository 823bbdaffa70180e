/**
 The life of one exam session, as the interleaving of every request and timer that touches it.

 A `Session` is the slice of both stores that belongs to one session id: its `test_sessions` row, its
 `exam:session:` and `exam:grace:` keys with their undelivered expiry notifications, the attempts it produced,
 and one program counter per request in flight. Each awaited SQL or Redis call, and each transaction, is one
 `Action`; `Next` performs it. Requests may interleave in any order, arrive at any time and name any user.

 `Log` records history that no step reads. It is what the safety properties are stated about.
 */
module SessionProtocol {
  import opened Wrappers
  import opened ExamData
  import opened RedisStore

  const GRACE_WINDOW_SECONDS: nat := 120

  datatype Status = ACTIVE | EXPIRED | SUBMITTED | AUTO_SUBMITTED

  /** The columns of a session row that are written once, when the row is inserted. */
  datatype Identity = Identity(
    sessionId: string, userId: string, examId: string, certId: string, sessionToken: string,
    startedAt: nat, durationSeconds: int)

  datatype Row = Row(id: Identity, status: Status, snapshot: Option<Answers>)

  /** The JSON under `exam:session:{id}`. */
  datatype SessionData = SessionData(
    sessionId: string, userId: string, examId: string, certId: string, startedAt: nat, answers: Answers)

  datatype Attempt = Attempt(userId: string, examId: string, answers: Answers, auto: bool, lateFlag: bool)

  /** Where `startExam` stands once its transaction has committed. */
  datatype Start = Pending | Failed | Settled

  /** The next awaited call of a request in flight. */
  datatype Proc =
    | Finished
    | AutosaveCheck(userId: string, answers: Answers)
    | AutosaveRead(answers: Answers)
    | AutosaveWrite(answers: Answers, seen: SessionData)
    | AutosaveMirror(answers: Answers)
    | SubmitCheck(userId: string, answers: Answers)
    | LateCheck(userId: string, answers: Answers)
    | LateConsume(userId: string, answers: Answers)
    | Commit(answers: Answers, auto: bool, lateFlag: bool)
    | DeleteKey
    | ExpiryCheck
    | ExpiryMark(snapshot: Option<Answers>)
    | ExpiryOpenGrace(snapshot: Option<Answers>)
    | GraceCheck

  datatype Accepted = Accepted(answers: Answers, at: nat)

  datatype Consumption = Consumption(userId: string, at: nat)

  datatype Log = Log(
    deadline: Option<nat>,       // deadline of the session key, once it was written
    accepted: seq<Accepted>,     // answers that SET KEEPTTL XX stored
    windows: seq<nat>,           // when each grace window was opened
    consumed: seq<Consumption>,  // grace keys taken by GETDEL
    overwritten: nat,            // EXPIRED writes that landed on a terminal row
    unwound: nat,                // compensations that deleted a terminal row
    raced: bool)                 // a submission committed between an expiry check and its write

  datatype Session = Session(
    id: Identity, row: Option<Row>, start: Start,
    key: Slot<SessionData>, keyEvents: nat,
    grace: Slot<Answers>, graceEvents: nat,
    attempts: seq<Attempt>, procs: seq<Proc>, log: Log)

  /** How the `SET` of `startExam` ends: it throws in the last two cases. */
  datatype Reply = Stored | StoredButLost | Refused

  datatype Action =
    | Autosave(userId: string, answers: Answers)
    | Submit(userId: string, answers: Answers)
    | LateSubmit(userId: string, answers: Answers)
    | WriteKey(reply: Reply)
    | Compensate
    | ExpireKey
    | ExpireGrace
    | DeliverKeyEvent
    | DeliverGraceEvent
    | Advance(i: nat)

  predicate Terminal(status: Status) {
    status == SUBMITTED || status == AUTO_SUBMITTED
  }

  /** The state right after the transaction of `startExam`. */
  function Opened(id: Identity): Session {
    Session(id, Some(Row(id, ACTIVE, None)), Pending, None, 0, None, 0, [], [],
            Log(None, [], [], [], 0, 0, false))
  }

  function FreshData(id: Identity): SessionData {
    SessionData(id.sessionId, id.userId, id.examId, id.certId, id.startedAt, map[])
  }

  function SnapshotOr(snapshot: Option<Answers>): Answers {
    if snapshot.Some? then snapshot.value else map[]
  }

  predicate Marking(procs: seq<Proc>) {
    exists i :: 0 <= i < |procs| && procs[i].ExpiryMark?
  }

  /** `getOwnedSession` with a single allowed status. */
  predicate Allowed(row: Option<Row>, userId: string, status: Status) {
    row.Some? && row.value.id.userId == userId && row.value.status == status
  }

  function Touch(s: Session, now: nat): Session {
    s.(key := Live(s.key, now), keyEvents := s.keyEvents + Fired(s.key, now))
  }

  function TouchGrace(s: Session, now: nat): Session {
    s.(grace := Live(s.grace, now), graceEvents := s.graceEvents + Fired(s.grace, now))
  }

  /** `TestSessionService.start`, and the outcome of its `SET`. */
  function WriteKeyStep(s: Session, now: nat, reply: Reply): Session {
    if reply.Refused? || s.id.durationSeconds <= 0 then s.(start := Failed)
    else
      var t := Touch(s, now);
      var written := SetEx(FreshData(s.id), s.id.durationSeconds, now);
      t.(key := written, start := if reply.Stored? then Settled else Failed,
         log := s.log.(deadline := Some(written.value.deadline)))
  }

  /** The compensating transaction of `startExam`, on the session's side. */
  function CompensateStep(s: Session): Session {
    var terminal := s.row.Some? && Terminal(s.row.value.status);
    s.(row := None, start := Settled, log := s.log.(unwound := s.log.unwound + (if terminal then 1 else 0)))
  }

  /** The conditional UPDATE and the INSERT of `scoreAndPersist`: the next call, and the new state. */
  function CommitStep(s: Session, answers: Answers, auto: bool, lateFlag: bool): (Session, Proc) {
    if s.row.None? || Terminal(s.row.value.status) then (s, Finished)
    else
      var row := s.row.value;
      (s.(row := Some(row.(status := if auto then AUTO_SUBMITTED else SUBMITTED, snapshot := Some(answers))),
          attempts := s.attempts + [Attempt(row.id.userId, row.id.examId, answers, auto, lateFlag)],
          log := s.log.(raced := s.log.raced || Marking(s.procs))),
       DeleteKey)
  }

  /** The GETDEL of `consumeGrace`. */
  function LateConsumeStep(s: Session, now: nat, userId: string, answers: Answers): (Session, Proc) {
    var t := TouchGrace(s, now);
    if t.grace.None? then (t, Finished)
    else
      (t.(grace := None, log := s.log.(consumed := s.log.consumed + [Consumption(userId, now)])),
       Commit(if answers != map[] then answers else t.grace.value.value, false, true))
  }

  function AutosaveWriteStep(s: Session, now: nat, answers: Answers, seen: SessionData): (Session, Proc) {
    var t := Touch(s, now);
    var written := SetKeepTtl(s.key, seen.(answers := answers), now);
    if written.None? then (t, Finished)
    else
      (t.(key := written, log := s.log.(accepted := s.log.accepted + [Accepted(answers, now)])),
       AutosaveMirror(answers))
  }

  /** The unconditional UPDATE of the expiry handler. */
  function ExpiryMarkStep(s: Session, snapshot: Option<Answers>): (Session, Proc) {
    if s.row.None? then (s, ExpiryOpenGrace(snapshot))
    else
      (s.(row := Some(s.row.value.(status := EXPIRED)),
          log := s.log.(overwritten := s.log.overwritten + (if Terminal(s.row.value.status) then 1 else 0))),
       ExpiryOpenGrace(snapshot))
  }

  function ExpiryOpenGraceStep(s: Session, now: nat, snapshot: Option<Answers>): (Session, Proc) {
    (TouchGrace(s, now).(grace := SetEx(SnapshotOr(snapshot), GRACE_WINDOW_SECONDS, now),
                         log := s.log.(windows := s.log.windows + [now])),
     Finished)
  }

  /** One awaited call of the request whose next call is `proc`: what it does, and the call after it. */
  function Perform(s: Session, now: nat, proc: Proc): (Session, Proc)
    requires !proc.Finished?
  {
    match proc
    case AutosaveCheck(userId, answers) =>
      (s, if Allowed(s.row, userId, ACTIVE) then AutosaveRead(answers) else Finished)
    case AutosaveRead(answers) =>
      var t := Touch(s, now);
      (t, if t.key.Some? then AutosaveWrite(answers, t.key.value.value) else Finished)
    case AutosaveWrite(answers, seen) =>
      AutosaveWriteStep(s, now, answers, seen)
    case AutosaveMirror(answers) =>
      (if s.row.Some? then s.(row := Some(s.row.value.(snapshot := Some(answers)))) else s, Finished)
    case SubmitCheck(userId, answers) =>
      (s, if Allowed(s.row, userId, ACTIVE) then Commit(answers, false, false) else Finished)
    case LateCheck(userId, answers) =>
      (s, if Allowed(s.row, userId, EXPIRED) then LateConsume(userId, answers) else Finished)
    case LateConsume(userId, answers) =>
      LateConsumeStep(s, now, userId, answers)
    case Commit(answers, auto, lateFlag) =>
      CommitStep(s, answers, auto, lateFlag)
    case DeleteKey =>
      (Touch(s, now).(key := None), Finished)
    case ExpiryCheck =>
      (s, if s.row.Some? && s.row.value.status == ACTIVE then ExpiryMark(s.row.value.snapshot) else Finished)
    case ExpiryMark(snapshot) =>
      ExpiryMarkStep(s, snapshot)
    case ExpiryOpenGrace(snapshot) =>
      ExpiryOpenGraceStep(s, now, snapshot)
    case GraceCheck =>
      (s, if s.row.Some? && !Terminal(s.row.value.status) then Commit(SnapshotOr(s.row.value.snapshot), true, false)
          else Finished)
  }

  function AdvanceStep(s: Session, now: nat, i: nat): Session
    requires i < |s.procs| && !s.procs[i].Finished?
  {
    var (t, proc) := Perform(s, now, s.procs[i]);
    t.(procs := s.procs[i := proc])
  }

  function Arrive(s: Session, proc: Proc): Session {
    s.(procs := s.procs + [proc])
  }

  predicate Enabled(s: Session, now: nat, a: Action) {
    match a
    case Autosave(_, _) => true
    case Submit(_, _) => true
    case LateSubmit(_, _) => true
    case WriteKey(_) => s.start.Pending?
    case Compensate => s.start.Failed?
    case ExpireKey => Overdue(s.key, now)
    case ExpireGrace => Overdue(s.grace, now)
    case DeliverKeyEvent => s.keyEvents > 0
    case DeliverGraceEvent => s.graceEvents > 0
    case Advance(i) => i < |s.procs| && !s.procs[i].Finished?
  }

  function Next(s: Session, now: nat, a: Action): Session
    requires Enabled(s, now, a)
  {
    match a
    case Autosave(userId, answers) => Arrive(s, AutosaveCheck(userId, answers))
    case Submit(userId, answers) => Arrive(s, SubmitCheck(userId, answers))
    case LateSubmit(userId, answers) => Arrive(s, LateCheck(userId, answers))
    case WriteKey(reply) => WriteKeyStep(s, now, reply)
    case Compensate => CompensateStep(s)
    case ExpireKey => Touch(s, now)
    case ExpireGrace => TouchGrace(s, now)
    case DeliverKeyEvent => Arrive(s.(keyEvents := s.keyEvents - 1), ExpiryCheck)
    case DeliverGraceEvent => Arrive(s.(graceEvents := s.graceEvents - 1), GraceCheck)
    case Advance(i) => AdvanceStep(s, now, i)
  }

  /** An action at a moment of the clock. */
  datatype Event = Event(now: nat, action: Action)

  /** `s'` is reached from `s` at `now` by performing `events`, whose clock never runs backwards. */
  ghost predicate Runs(s: Session, now: nat, events: seq<Event>, s': Session, now': nat)
    decreases |events|
  {
    if events == [] then s' == s && now <= now'
    else
      && now <= events[0].now
      && Enabled(s, events[0].now, events[0].action)
      && Runs(Next(s, events[0].now, events[0].action), events[0].now, events[1..], s', now')
  }

  /** `s` is a state of the session `id` in some run, `now` on the clock. */
  ghost predicate Reachable(s: Session, now: nat) {
    exists events :: Runs(Opened(s.id), s.id.startedAt, events, s, now)
  }
}
