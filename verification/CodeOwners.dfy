/** Who sits what: every session belongs to the user, exam and certificate of a code whose secret that user gave. */
module CodeOwners {
  import opened SessionProtocol
  import opened SessionTheorems
  import opened ExamBackend
  import opened AccessCodes

  /**
   What has been shown so far: which user gave the secret of which code before it expired, and which exams were
   found published, with the seconds they then allowed.
   */
  datatype Shown = Shown(secrets: set<(string, string)>, exams: set<(string, int)>)

  function Watch(st: State, now: nat, step: Step, shown: Shown): Shown {
    if !step.Continue? || step.i >= |st.starters| then shown
    else match st.starters[step.i]
      case FindExam(_, _, examId) =>
        if examId in st.exams && st.exams[examId].published
        then shown.(exams := shown.exams + {(examId, st.exams[examId].durationMinutes * 60)}) else shown
      case CompareCode(userId, secret, _, _, candidates) =>
        if candidates != [] && candidates[0] in st.codes && st.codes[candidates[0]].secret == secret
           && now <= st.codes[candidates[0]].expiresAt
        then shown.(secrets := shown.secrets + {(userId, candidates[0])}) else shown
      case _ => shown
  }

  ghost function Watched(st: State, now: nat, steps: seq<Timed>, st': State, now': nat, shown: Shown): Shown
    requires RunsTo(st, now, steps, st', now')
    decreases |steps|
  {
    if steps == [] then shown
    else
      var t, step := steps[0].now, steps[0].step;
      Watched(Take(st, t, step), t, steps[1..], st', now', Watch(st, t, step, shown))
  }

  predicate CodeOf(st: State, codeId: string, userId: string, examId: string) {
    codeId in st.codes && st.codes[codeId].userId == userId && st.codes[codeId].examId == examId
  }

  predicate Entitled(st: State, p: Starter, shown: Shown) {
    match p
    case FindCodes(_, _, examId, durationSeconds) => (examId, durationSeconds) in shown.exams
    case CompareCode(userId, _, examId, durationSeconds, candidates) =>
      && (examId, durationSeconds) in shown.exams
      && forall c :: c in candidates ==> CodeOf(st, c, userId, examId)
    case FindActive(userId, examId, durationSeconds, codeId) =>
      && (examId, durationSeconds) in shown.exams
      && CodeOf(st, codeId, userId, examId) && (userId, codeId) in shown.secrets
    case ConsumeCode(userId, examId, durationSeconds, codeId, _) =>
      && (examId, durationSeconds) in shown.exams
      && CodeOf(st, codeId, userId, examId) && (userId, codeId) in shown.secrets
    case _ => true
  }

  predicate Rightful(st: State, id: Identity, shown: Shown) {
    && (id.examId, id.durationSeconds) in shown.exams
    && CodeOf(st, id.sessionToken, id.userId, id.examId) && st.codes[id.sessionToken].certId == id.certId
    && (id.userId, id.sessionToken) in shown.secrets
  }

  ghost predicate AllRightful(st: State, shown: Shown) {
    && (forall i :: 0 <= i < |st.starters| ==> Entitled(st, st.starters[i], shown))
    && (forall sid :: sid in st.sessions ==> Rightful(st, st.sessions[sid].id, shown))
  }

  /** No code is removed or changes hands, and what has been shown stays shown. */
  ghost predicate Onward(st: State, shown: Shown, st': State, shown': Shown) {
    && shown.secrets <= shown'.secrets && shown.exams <= shown'.exams
    && forall c :: c in st.codes ==> && CodeOf(st', c, st.codes[c].userId, st.codes[c].examId)
                                     && st'.codes[c].certId == st.codes[c].certId
  }

  lemma TakeGoesOnward(st: State, now: nat, step: Step, shown: Shown)
    requires Permitted(st, now, step)
    ensures Onward(st, shown, Take(st, now, step), Watch(st, now, step, shown))
  {
  }

  lemma EntitledLater(st: State, p: Starter, shown: Shown, st': State, shown': Shown)
    requires Entitled(st, p, shown) && Onward(st, shown, st', shown')
    ensures Entitled(st', p, shown')
  {
  }

  lemma RightfulLater(st: State, id: Identity, shown: Shown, st': State, shown': Shown)
    requires Rightful(st, id, shown) && Onward(st, shown, st', shown')
    ensures Rightful(st', id, shown')
  {
  }

  lemma ContinueEntitles(st: State, now: nat, i: nat, shown: Shown)
    requires i < |st.starters| && Entitled(st, st.starters[i], shown)
    ensures Entitled(st, ContinueStarter(st, now, st.starters[i]), Watch(st, now, Continue(i), shown))
  {
  }

  /** The starter that a step moves, and any new one. */
  lemma StartersStayEntitled(st: State, now: nat, step: Step, shown: Shown, j: nat)
    requires AllRightful(st, shown) && Permitted(st, now, step) && j < |Take(st, now, step).starters|
    ensures Entitled(Take(st, now, step), Take(st, now, step).starters[j], Watch(st, now, step, shown))
  {
    var st', shown' := Take(st, now, step), Watch(st, now, step, shown);
    TakeGoesOnward(st, now, step, shown);
    if j < |st.starters| {
      EntitledLater(st, st.starters[j], shown, st', shown');
      if step == Continue(j) {
        ContinueEntitles(st, now, j, shown);
      }
    }
  }

  lemma SessionsStayRightful(st: State, now: nat, step: Step, shown: Shown, sid: string)
    requires AllRightful(st, shown) && Permitted(st, now, step) && sid in Take(st, now, step).sessions
    ensures Rightful(Take(st, now, step), Take(st, now, step).sessions[sid].id, Watch(st, now, step, shown))
  {
    var st', shown' := Take(st, now, step), Watch(st, now, step, shown);
    TakeGoesOnward(st, now, step, shown);
    if sid in st.sessions {
      SessionKeepsId(st, now, step, sid);
      RightfulLater(st, st.sessions[sid].id, shown, st', shown');
    } else {
      assert step == Step.Commit(step.i, sid);
      assert Entitled(st, st.starters[step.i], shown);
    }
  }

  lemma SessionKeepsId(st: State, now: nat, step: Step, sid: string)
    requires Permitted(st, now, step) && sid in st.sessions
    ensures sid in Take(st, now, step).sessions && Take(st, now, step).sessions[sid].id == st.sessions[sid].id
  {
    if step.OnSession? && step.sessionId == sid {
      NextKeepsId(st.sessions[sid], now, step.action);
    }
  }

  lemma TakeKeepsRightful(st: State, now: nat, step: Step, shown: Shown)
    requires AllRightful(st, shown) && Permitted(st, now, step)
    ensures AllRightful(Take(st, now, step), Watch(st, now, step, shown))
  {
    var st', shown' := Take(st, now, step), Watch(st, now, step, shown);
    forall j | 0 <= j < |st'.starters|
      ensures Entitled(st', st'.starters[j], shown')
    {
      StartersStayEntitled(st, now, step, shown, j);
    }
    forall sid | sid in st'.sessions
      ensures Rightful(st', st'.sessions[sid].id, shown')
    {
      SessionsStayRightful(st, now, step, shown, sid);
    }
  }

  lemma {:induction false} RunKeepsRightful(
      st: State, now: nat, steps: seq<Timed>, st': State, now': nat, shown: Shown)
    requires AllRightful(st, shown) && RunsTo(st, now, steps, st', now')
    ensures AllRightful(st', Watched(st, now, steps, st', now', shown))
    decreases |steps|
  {
    if steps == [] {
    } else {
      var t, step := steps[0].now, steps[0].step;
      TakeKeepsRightful(st, t, step, shown);
      RunKeepsRightful(Take(st, t, step), t, steps[1..], st', now', Watch(st, t, step, shown));
    }
  }

  /**
   In every run, the row of a session names the user, exam and certificate of the code it carries; that user gave
   the secret of that code before it expired; and the exam was found published, for as long as the row allows.
   */
  lemma SessionsAreRightful(steps: seq<Timed>, st: State, now: nat, sid: string)
    requires RunsTo(Initial(), 0, steps, st, now) && sid in st.sessions && st.sessions[sid].row.Some?
    ensures var id := st.sessions[sid].row.value.id;
            var shown := Watched(Initial(), 0, steps, st, now, Shown({}, {}));
            && id.sessionToken in st.codes
            && st.codes[id.sessionToken].userId == id.userId && st.codes[id.sessionToken].examId == id.examId
            && st.codes[id.sessionToken].certId == id.certId
            && (id.userId, id.sessionToken) in shown.secrets
            && (id.examId, id.durationSeconds) in shown.exams
  {
    RunKeepsRightful(Initial(), 0, steps, st, now, Shown({}, {}));
    EverySessionFollowsProtocol(st, now, sid);
    ReachableInv(st.sessions[sid], now);
  }
}
