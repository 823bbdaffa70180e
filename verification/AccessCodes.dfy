/** Access codes and session rows stay in step, and every session of the backend follows its protocol. */
module AccessCodes {
  import opened SessionProtocol
  import opened SessionTheorems
  import opened SessionWitnesses
  import opened ExamBackend

  /** The row of this session carries the id of this code. */
  predicate Carries(st: State, sessionId: string, codeId: string) {
    && sessionId in st.sessions && st.sessions[sessionId].row.Some?
    && st.sessions[sessionId].row.value.id.sessionToken == codeId
  }

  /** Which code each session row carries in `session_token`. */
  function Carried(st: State): map<string, string> {
    map sid | sid in st.sessions && st.sessions[sid].row.Some? :: st.sessions[sid].row.value.id.sessionToken
  }

  function Used(st: State): set<string> {
    set c | c in st.codes && st.codes[c].used
  }

  ghost predicate Injective(m: map<string, string>) {
    forall a, b :: a in m && b in m && m[a] == m[b] ==> a == b
  }

  ghost predicate InStep(st: State) {
    Injective(Carried(st)) && Carried(st).Values == Used(st)
  }

  ghost predicate SessionsReachable(st: State, now: nat) {
    forall sid :: sid in st.sessions ==> Reachable(st.sessions[sid], now)
  }

  /** No request has a start time that lies ahead. */
  ghost predicate Punctual(st: State, now: nat) {
    forall i :: 0 <= i < |st.starters| && st.starters[i].ConsumeCode? ==> st.starters[i].startedAt <= now
  }

  ghost predicate BackendInv(st: State, now: nat) {
    InStep(st) && SessionsReachable(st, now) && Punctual(st, now)
  }

  lemma {:induction false} RunsLonger(s: Session, now: nat, events: seq<Event>, s': Session, mid: nat, later: nat)
    requires Runs(s, now, events, s', mid) && mid <= later
    ensures Runs(s, now, events, s', later)
    decreases |events|
  {
    if events == [] {
    } else {
      RunsLonger(Next(s, events[0].now, events[0].action), events[0].now, events[1..], s', mid, later);
    }
  }

  lemma ReachableLater(s: Session, now: nat, later: nat)
    requires Reachable(s, now) && now <= later
    ensures Reachable(s, later)
  {
    var events :| Runs(Opened(s.id), s.id.startedAt, events, s, now);
    RunsLonger(Opened(s.id), s.id.startedAt, events, s, now, later);
  }

  lemma ReachableNext(s: Session, before: nat, now: nat, a: Action)
    requires Reachable(s, before) && before <= now && Enabled(s, now, a)
    ensures Reachable(Next(s, now, a), now)
  {
    var events :| Runs(Opened(s.id), s.id.startedAt, events, s, before);
    Extend(Opened(s.id), s.id.startedAt, events, s, before, now, a);
    NextKeepsId(s, now, a);
  }

  lemma TakeKeepsReachable(st: State, before: nat, now: nat, step: Step)
    requires SessionsReachable(st, before) && Punctual(st, before) && before <= now && Permitted(st, now, step)
    ensures SessionsReachable(Take(st, now, step), now) && Punctual(Take(st, now, step), now)
  {
    var st' := Take(st, now, step);
    TakeIsPunctual(st, before, now, step);
    forall sid | sid in st'.sessions
      ensures Reachable(st'.sessions[sid], now)
    {
      if sid in st.sessions {
        KnownStaysReachable(st, before, now, step, sid);
      } else {
        NewIsReachable(st, before, now, step, sid);
      }
    }
  }

  lemma TakeIsPunctual(st: State, before: nat, now: nat, step: Step)
    requires Punctual(st, before) && before <= now && Permitted(st, now, step)
    ensures Punctual(Take(st, now, step), now)
  {
  }

  lemma KnownStaysReachable(st: State, before: nat, now: nat, step: Step, sid: string)
    requires SessionsReachable(st, before) && before <= now && Permitted(st, now, step) && sid in st.sessions
    ensures sid in Take(st, now, step).sessions && Reachable(Take(st, now, step).sessions[sid], now)
  {
    if step.OnSession? && step.sessionId == sid {
      ReachableNext(st.sessions[sid], before, now, step.action);
    } else {
      ReachableLater(st.sessions[sid], before, now);
    }
  }

  lemma NewIsReachable(st: State, before: nat, now: nat, step: Step, sid: string)
    requires Punctual(st, before) && before <= now && Permitted(st, now, step)
    requires sid !in st.sessions && sid in Take(st, now, step).sessions
    ensures Reachable(Take(st, now, step).sessions[sid], now)
  {
    var opened' := Take(st, now, step).sessions[sid];
    assert Runs(Opened(opened'.id), opened'.id.startedAt, [], opened', now);
  }

  /** Only the compensation removes a row, and nothing else changes which code it carries. */
  lemma RowStays(s: Session, now: nat, a: Action)
    requires Enabled(s, now, a)
    ensures a.Compensate? ==> Next(s, now, a).row.None?
    ensures !a.Compensate? ==> (Next(s, now, a).row.Some? <==> s.row.Some?)
    ensures !a.Compensate? && s.row.Some? ==> Next(s, now, a).row.value.id == s.row.value.id
    ensures Next(s, now, a).id == s.id
  {
  }

  lemma RemovingKeepsStep(m: map<string, string>, sid: string)
    requires Injective(m) && sid in m
    ensures Injective(m - {sid}) && (m - {sid}).Values == m.Values - {m[sid]}
  {
    forall c | c in m.Values - {m[sid]}
      ensures c in (m - {sid}).Values
    {
      var other :| other in m && m[other] == c;
      assert other in m - {sid};
    }
  }

  lemma AddingKeepsStep(m: map<string, string>, sid: string, c: string)
    requires Injective(m) && sid !in m && c !in m.Values
    ensures Injective(m[sid := c]) && m[sid := c].Values == m.Values + {c}
  {
    var m' := m[sid := c];
    assert sid in m' && m'[sid] == c;
    forall d | d in m.Values
      ensures d in m'.Values
    {
      var other :| other in m && m[other] == d;
      assert other in m' && m'[other] == d;
    }
  }

  lemma FailedStartHasRow(s: Session, now: nat)
    requires Reachable(s, now) && s.start.Failed?
    ensures s.row.Some? && s.row.value.id == s.id
  {
    ReachableInv(s, now);
  }

  lemma CompensationRemoves(st: State, now: nat, sid: string)
    requires sid in st.sessions && st.sessions[sid].row.Some? && Enabled(st.sessions[sid], now, Compensate)
    ensures Carried(StepSession(st, now, sid, Compensate)) == Carried(st) - {sid}
    ensures Used(StepSession(st, now, sid, Compensate)) == Used(st) - {st.sessions[sid].id.sessionToken}
  {
  }

  lemma CompensationKeepsCodes(st: State, now: nat, sid: string)
    requires InStep(st) && sid in st.sessions && Enabled(st.sessions[sid], now, Compensate)
    requires Reachable(st.sessions[sid], now)
    ensures InStep(StepSession(st, now, sid, Compensate))
  {
    FailedStartHasRow(st.sessions[sid], now);
    CompensationRemoves(st, now, sid);
    RemovingKeepsStep(Carried(st), sid);
  }

  lemma SessionStepKeepsCodes(st: State, now: nat, sid: string, a: Action)
    requires InStep(st) && sid in st.sessions && Enabled(st.sessions[sid], now, a)
    requires Reachable(st.sessions[sid], now)
    ensures InStep(StepSession(st, now, sid, a))
  {
    if a.Compensate? {
      CompensationKeepsCodes(st, now, sid);
    } else {
      ActionKeepsCarried(st, now, sid, a);
    }
  }

  lemma ActionKeepsCarried(st: State, now: nat, sid: string, a: Action)
    requires sid in st.sessions && Enabled(st.sessions[sid], now, a) && !a.Compensate?
    ensures Carried(StepSession(st, now, sid, a)) == Carried(st) && StepSession(st, now, sid, a).codes == st.codes
  {
    RowStays(st.sessions[sid], now, a);
  }

  lemma CommitAdds(st: State, now: nat, i: nat, sid: string)
    requires Permitted(st, now, Step.Commit(i, sid)) && Consumable(st, st.starters[i].codeId)
    ensures Carried(CommitStarter(st, i, sid)) == Carried(st)[sid := st.starters[i].codeId]
    ensures Used(CommitStarter(st, i, sid)) == Used(st) + {st.starters[i].codeId}
  {
  }

  lemma CommitKeepsCodes(st: State, now: nat, i: nat, sid: string)
    requires InStep(st) && Permitted(st, now, Step.Commit(i, sid))
    ensures InStep(CommitStarter(st, i, sid))
  {
    if Consumable(st, st.starters[i].codeId) {
      CommitAdds(st, now, i, sid);
      AddingKeepsStep(Carried(st), sid, st.starters[i].codeId);
    } else {
      assert Carried(CommitStarter(st, i, sid)) == Carried(st);
    }
  }

  lemma TakeKeepsInv(st: State, before: nat, now: nat, step: Step)
    requires BackendInv(st, before) && before <= now && Permitted(st, now, step)
    ensures BackendInv(Take(st, now, step), now)
  {
    TakeKeepsReachable(st, before, now, step);
    forall sid | sid in st.sessions
      ensures Reachable(st.sessions[sid], now)
    {
      ReachableLater(st.sessions[sid], before, now);
    }
    match step
    case OnSession(sid, a) => SessionStepKeepsCodes(st, now, sid, a);
    case Commit(i, sid) => CommitKeepsCodes(st, now, i, sid);
    case _ => OtherStepsKeepCodes(st, now, step);
  }

  lemma OtherStepsKeepCodes(st: State, now: nat, step: Step)
    requires InStep(st) && Permitted(st, now, step) && !step.OnSession? && !step.Commit?
    ensures InStep(Take(st, now, step))
  {
    assert Carried(Take(st, now, step)) == Carried(st) && Used(Take(st, now, step)) == Used(st);
  }

  lemma {:induction false} RunKeepsBackendInv(st: State, now: nat, steps: seq<Timed>, st': State, now': nat)
    requires BackendInv(st, now) && RunsTo(st, now, steps, st', now')
    ensures BackendInv(st', now')
    decreases |steps|
  {
    if steps == [] {
      forall sid | sid in st.sessions
        ensures Reachable(st.sessions[sid], now')
      {
        ReachableLater(st.sessions[sid], now, now');
      }
    } else {
      TakeKeepsInv(st, now, steps[0].now, steps[0].step);
      RunKeepsBackendInv(Take(st, steps[0].now, steps[0].step), steps[0].now, steps[1..], st', now');
    }
  }

  /**
   In every state of every run, failed starts and their compensation included, an access code is used exactly
   when one session row carries its id, and no two rows carry the same.
   */
  lemma UsedExactlyWhenCarried(st: State, now: nat, codeId: string)
    requires Occurs(st, now) && codeId in st.codes
    ensures st.codes[codeId].used <==> exists sid :: Carries(st, sid, codeId)
    ensures forall a, b :: Carries(st, a, codeId) && Carries(st, b, codeId) ==> a == b
  {
    var steps :| RunsTo(Initial(), 0, steps, st, now);
    RunKeepsBackendInv(Initial(), 0, steps, st, now);
    var m := Carried(st);
    assert forall sid :: Carries(st, sid, codeId) <==> sid in m && m[sid] == codeId;
    assert st.codes[codeId].used <==> codeId in m.Values;
  }

  /** Whatever else the backend does, each of its sessions is in a state of the session protocol. */
  lemma EverySessionFollowsProtocol(st: State, now: nat, sid: string)
    requires Occurs(st, now) && sid in st.sessions
    ensures Reachable(st.sessions[sid], now)
  {
    var steps :| RunsTo(Initial(), 0, steps, st, now);
    RunKeepsBackendInv(Initial(), 0, steps, st, now);
  }
}
