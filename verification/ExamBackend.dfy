/**
 All sessions together, and the requests that start them: `startExam` up to the commit of its transaction, the
 access codes it consumes, and the sessions it opens. From there on each session follows `SessionProtocol`.
 */
module ExamBackend {
  import opened ExamData
  import opened SessionProtocol

  /** The next awaited call of a `startExam` that has not committed yet. */
  datatype Starter =
    | Done
    | FindExam(userId: string, secret: string, examId: string)
    | FindCodes(userId: string, secret: string, examId: string, durationSeconds: int)
    | CompareCode(userId: string, secret: string, examId: string, durationSeconds: int, candidates: seq<string>)
    | FindActive(userId: string, examId: string, durationSeconds: int, codeId: string)
    | ConsumeCode(userId: string, examId: string, durationSeconds: int, codeId: string, startedAt: nat)

  datatype State = State(
    exams: map<string, Exam>, codes: map<string, AccessCode>, sessions: map<string, Session>, starters: seq<Starter>)

  datatype Step =
    | SaveExam(examId: string, exam: Exam)
    | AssignCode(codeId: string, code: AccessCode)
    | StartExam(userId: string, secret: string, examId: string)
    | Continue(i: nat)
    | QueryCodes(i: nat, found: seq<string>)
    | Commit(i: nat, sessionId: string)
    | OnSession(sessionId: string, action: Action)

  function Initial(): State {
    State(map[], map[], map[], [])
  }

  predicate Candidate(code: AccessCode, userId: string, examId: string) {
    code.userId == userId && code.examId == examId && !code.used
  }

  /** The unused codes of this user and exam, newest first. */
  ghost predicate IsCandidateList(codes: map<string, AccessCode>, userId: string, examId: string, found: seq<string>) {
    && (forall i, j :: 0 <= i < j < |found| ==> found[i] != found[j])
    && (forall c :: c in found <==> c in codes && Candidate(codes[c], userId, examId))
    && (forall i, j :: 0 <= i < j < |found| ==> codes[found[i]].createdAt >= codes[found[j]].createdAt)
  }

  /** This session is active, for this user and exam. */
  predicate IsActive(st: State, sessionId: string, userId: string, examId: string) {
    && sessionId in st.sessions && st.sessions[sessionId].row.Some?
    && var row := st.sessions[sessionId].row.value;
       row.status == ACTIVE && row.id.userId == userId && row.id.examId == examId
  }

  predicate HasActive(st: State, userId: string, examId: string) {
    exists sid :: sid in st.sessions && IsActive(st, sid, userId, examId)
  }

  /** The calls of `startExam` that neither query the codes nor write. */
  function ContinueStarter(st: State, now: nat, p: Starter): Starter {
    match p
    case FindExam(userId, secret, examId) =>
      if examId in st.exams && st.exams[examId].published
      then FindCodes(userId, secret, examId, st.exams[examId].durationMinutes * 60) else Done
    case CompareCode(userId, secret, examId, durationSeconds, candidates) =>
      if candidates == [] || candidates[0] !in st.codes then Done
      else
        var code := st.codes[candidates[0]];
        if now <= code.expiresAt && code.secret == secret
        then FindActive(userId, examId, durationSeconds, candidates[0])
        else CompareCode(userId, secret, examId, durationSeconds, candidates[1..])
    case FindActive(userId, examId, durationSeconds, codeId) =>
      if HasActive(st, userId, examId) then Done else ConsumeCode(userId, examId, durationSeconds, codeId, now)
    case _ => p
  }

  ghost predicate Permitted(st: State, now: nat, step: Step) {
    match step
    case SaveExam(_, _) => true
    case AssignCode(codeId, code) => codeId !in st.codes && !code.used
    case StartExam(_, _, _) => true
    case Continue(i) => i < |st.starters| && !st.starters[i].FindCodes? && !st.starters[i].ConsumeCode?
    case QueryCodes(i, found) =>
      && i < |st.starters| && st.starters[i].FindCodes?
      && IsCandidateList(st.codes, st.starters[i].userId, st.starters[i].examId, found)
    case Commit(i, sessionId) =>
      i < |st.starters| && st.starters[i].ConsumeCode? && sessionId !in st.sessions
    case OnSession(sessionId, action) =>
      sessionId in st.sessions && Enabled(st.sessions[sessionId], now, action)
  }

  predicate Consumable(st: State, codeId: string) {
    codeId in st.codes && !st.codes[codeId].used
  }

  /** The transaction of `startExam`: the conditional UPDATE of the code, then the session row. */
  function CommitStarter(st: State, i: nat, sessionId: string): State
    requires i < |st.starters| && st.starters[i].ConsumeCode?
  {
    var p := st.starters[i];
    var done := st.(starters := st.starters[i := Done]);
    if !Consumable(st, p.codeId) then done
    else
      var code := st.codes[p.codeId];
      var id := Identity(sessionId, p.userId, p.examId, code.certId, p.codeId, p.startedAt, p.durationSeconds);
      done.(codes := st.codes[p.codeId := code.(used := true)], sessions := st.sessions[sessionId := Opened(id)])
  }

  /** An action of one session; the compensation also frees the code. */
  function StepSession(st: State, now: nat, sessionId: string, action: Action): State
    requires sessionId in st.sessions && Enabled(st.sessions[sessionId], now, action)
  {
    var s := st.sessions[sessionId];
    var next := st.(sessions := st.sessions[sessionId := Next(s, now, action)]);
    if action.Compensate? && s.id.sessionToken in st.codes
    then next.(codes := st.codes[s.id.sessionToken := st.codes[s.id.sessionToken].(used := false)])
    else next
  }

  ghost function Take(st: State, now: nat, step: Step): State
    requires Permitted(st, now, step)
  {
    match step
    case SaveExam(examId, exam) => st.(exams := st.exams[examId := exam])
    case AssignCode(codeId, code) => st.(codes := st.codes[codeId := code])
    case StartExam(userId, secret, examId) =>
      st.(starters := st.starters + [FindExam(userId, secret, examId)])
    case Continue(i) => st.(starters := st.starters[i := ContinueStarter(st, now, st.starters[i])])
    case QueryCodes(i, found) =>
      var p := st.starters[i];
      st.(starters := st.starters[i := CompareCode(p.userId, p.secret, p.examId, p.durationSeconds, found)])
    case Commit(i, sessionId) => CommitStarter(st, i, sessionId)
    case OnSession(sessionId, action) => StepSession(st, now, sessionId, action)
  }

  datatype Timed = Timed(now: nat, step: Step)

  ghost predicate RunsTo(st: State, now: nat, steps: seq<Timed>, st': State, now': nat)
    decreases |steps|
  {
    if steps == [] then st' == st && now <= now'
    else
      && now <= steps[0].now
      && Permitted(st, steps[0].now, steps[0].step)
      && RunsTo(Take(st, steps[0].now, steps[0].step), steps[0].now, steps[1..], st', now')
  }

  ghost predicate Occurs(st: State, now: nat) {
    exists steps :: RunsTo(Initial(), 0, steps, st, now)
  }
}
