/** One active session per user and exam: when the guard of `startExam` keeps it, and when it does not. */
module ActiveSessions {
  import opened ExamData
  import opened SessionProtocol
  import opened ExamBackend

  ghost predicate OneActive(st: State) {
    forall a, b, userId, examId :: IsActive(st, a, userId, examId) && IsActive(st, b, userId, examId) ==> a == b
  }

  /** Two active rows of one user and exam are the same row. */
  lemma OneActiveMeans(st: State)
    ensures OneActive(st)
       <==> forall a, b ::
              a in st.sessions && b in st.sessions && st.sessions[a].row.Some? && st.sessions[b].row.Some? ==>
                var x, y := st.sessions[a].row.value, st.sessions[b].row.value;
                x.status == ACTIVE && y.status == ACTIVE && x.id.userId == y.id.userId && x.id.examId == y.id.examId
                ==> a == b
  {
    if OneActive(st) {
      forall a, b | a in st.sessions && b in st.sessions && st.sessions[a].row.Some? && st.sessions[b].row.Some?
        ensures var x, y := st.sessions[a].row.value, st.sessions[b].row.value;
                x.status == ACTIVE && y.status == ACTIVE && x.id.userId == y.id.userId && x.id.examId == y.id.examId
                ==> a == b
      {
        var x, y := st.sessions[a].row.value, st.sessions[b].row.value;
        assert x.status == ACTIVE ==> IsActive(st, a, x.id.userId, x.id.examId);
        assert y.status == ACTIVE ==> IsActive(st, b, y.id.userId, y.id.examId);
      }
    }
  }

  /** The commit of a start whose user has an active session for the exam by now. */
  predicate Doubles(st: State, step: Step) {
    && step.Commit? && step.i < |st.starters| && st.starters[step.i].ConsumeCode?
    && var p := st.starters[step.i];
       Consumable(st, p.codeId) && HasActive(st, p.userId, p.examId)
  }

  // ---- Each step -----------------------------------------------------------------------------------------

  /** No action makes a row active, or another's. */
  lemma ActionKeepsInactive(s: Session, now: nat, a: Action)
    requires Enabled(s, now, a)
    ensures var s' := Next(s, now, a);
            s'.row.Some? && s'.row.value.status == ACTIVE ==> s.row.Some? && s.row.value.status == ACTIVE
                                                              && s'.row.value.id == s.row.value.id
  {
    if a.Advance? {
      PerformKeepsInactive(s, now, s.procs[a.i]);
    }
  }

  lemma PerformKeepsInactive(s: Session, now: nat, p: Proc)
    requires !p.Finished?
    ensures var t := Perform(s, now, p).0;
            t.row.Some? && t.row.value.status == ACTIVE ==> s.row.Some? && s.row.value.status == ACTIVE
                                                            && t.row.value.id == s.row.value.id
  {
  }

  /** Only a commit makes a session active, and then its own. */
  lemma ActiveBefore(st: State, now: nat, step: Step, sid: string, userId: string, examId: string)
    requires Permitted(st, now, step) && IsActive(Take(st, now, step), sid, userId, examId)
    ensures || IsActive(st, sid, userId, examId)
            || (step.Commit? && step.sessionId == sid && Consumable(st, st.starters[step.i].codeId)
                && st.starters[step.i].userId == userId && st.starters[step.i].examId == examId)
  {
    if step.OnSession? && step.sessionId == sid {
      ActionKeepsInactive(st.sessions[sid], now, step.action);
    }
  }

  /** What a commit that consumes its code leaves active. */
  lemma CommitActivates(st: State, now: nat, step: Step)
    requires Permitted(st, now, step) && step.Commit? && Consumable(st, st.starters[step.i].codeId)
    ensures IsActive(Take(st, now, step), step.sessionId, st.starters[step.i].userId, st.starters[step.i].examId)
    ensures forall sid, userId, examId :: IsActive(st, sid, userId, examId) ==>
              sid != step.sessionId && IsActive(Take(st, now, step), sid, userId, examId)
  {
  }

  /** From a state with at most one, a step leaves at most one exactly when it is not a doubling commit. */
  lemma StepKeepsOneExactly(st: State, now: nat, step: Step)
    requires OneActive(st) && Permitted(st, now, step)
    ensures OneActive(Take(st, now, step)) <==> !Doubles(st, step)
  {
    var st' := Take(st, now, step);
    if Doubles(st, step) {
      var p := st.starters[step.i];
      var sid :| sid in st.sessions && IsActive(st, sid, p.userId, p.examId);
      CommitActivates(st, now, step);
    } else {
      forall a, b, userId, examId | IsActive(st', a, userId, examId) && IsActive(st', b, userId, examId)
        ensures a == b
      {
        ActiveBefore(st, now, step, a, userId, examId);
        ActiveBefore(st, now, step, b, userId, examId);
      }
    }
  }

  // ---- Every run -----------------------------------------------------------------------------------------

  /** At most one active session per user and exam, before and after every step. */
  ghost predicate OneActiveThroughout(st: State, steps: seq<Timed>)
    decreases |steps|
  {
    && OneActive(st)
    && (steps != [] ==> Permitted(st, steps[0].now, steps[0].step)
                        && OneActiveThroughout(Take(st, steps[0].now, steps[0].step), steps[1..]))
  }

  /** No step of the run is a doubling commit. */
  ghost predicate NeverDoubles(st: State, steps: seq<Timed>)
    decreases |steps|
  {
    steps != [] ==> && Permitted(st, steps[0].now, steps[0].step) && !Doubles(st, steps[0].step)
                    && NeverDoubles(Take(st, steps[0].now, steps[0].step), steps[1..])
  }

  lemma {:induction false} OneActiveFrom(st: State, now: nat, steps: seq<Timed>, st': State, now': nat)
    requires OneActive(st) && RunsTo(st, now, steps, st', now')
    ensures OneActiveThroughout(st, steps) <==> NeverDoubles(st, steps)
    decreases |steps|
  {
    if steps == [] {
    } else {
      var next := Take(st, steps[0].now, steps[0].step);
      StepKeepsOneExactly(st, steps[0].now, steps[0].step);
      if OneActive(next) {
        OneActiveFrom(next, steps[0].now, steps[1..], st', now');
      }
    }
  }

  /**
   A run keeps one active session per user and exam exactly when no start commits while there is one: the guard of
   `startExam` looks earlier.
   */
  lemma OneActiveExactly(steps: seq<Timed>, st: State, now: nat)
    requires RunsTo(Initial(), 0, steps, st, now)
    ensures OneActiveThroughout(Initial(), steps) <==> NeverDoubles(Initial(), steps)
  {
    OneActiveFrom(Initial(), 0, steps, st, now);
  }

  // ---- Where the guard is enough -------------------------------------------------------------------------

  /** Two starts of one user for one exam are both between their guard and their commit. */
  predicate Overlap(st: State) {
    exists i, j :: 0 <= i < j < |st.starters| && Contend(st.starters[i], st.starters[j])
  }

  predicate Contend(p: Starter, q: Starter) {
    p.ConsumeCode? && q.ConsumeCode? && p.userId == q.userId && p.examId == q.examId
  }

  ghost predicate NeverOverlaps(st: State, steps: seq<Timed>)
    decreases |steps|
  {
    && !Overlap(st)
    && (steps != [] ==> Permitted(st, steps[0].now, steps[0].step)
                        && NeverOverlaps(Take(st, steps[0].now, steps[0].step), steps[1..]))
  }

  /** What the guard has seen still holds. */
  ghost predicate Cleared(st: State) {
    forall i :: 0 <= i < |st.starters| && st.starters[i].ConsumeCode? ==>
      !HasActive(st, st.starters[i].userId, st.starters[i].examId)
  }

  lemma StepKeepsCleared(st: State, now: nat, step: Step)
    requires Cleared(st) && !Overlap(st) && Permitted(st, now, step)
    ensures Cleared(Take(st, now, step)) && !Doubles(st, step)
  {
    var st' := Take(st, now, step);
    forall i | 0 <= i < |st'.starters| && st'.starters[i].ConsumeCode?
      ensures !HasActive(st', st'.starters[i].userId, st'.starters[i].examId)
    {
      var p := st'.starters[i];
      if HasActive(st', p.userId, p.examId) {
        var sid :| sid in st'.sessions && IsActive(st', sid, p.userId, p.examId);
        ActiveBefore(st, now, step, sid, p.userId, p.examId);
      }
    }
  }

  lemma {:induction false} ClearedRunsNeverDouble(st: State, now: nat, steps: seq<Timed>, st': State, now': nat)
    requires Cleared(st) && RunsTo(st, now, steps, st', now') && NeverOverlaps(st, steps)
    ensures NeverDoubles(st, steps)
    decreases |steps|
  {
    if steps == [] {
    } else {
      StepKeepsCleared(st, steps[0].now, steps[0].step);
      ClearedRunsNeverDouble(Take(st, steps[0].now, steps[0].step), steps[0].now, steps[1..], st', now');
    }
  }

  /** In particular it does when starts of one user for one exam follow one another. */
  lemma OneActiveWithoutOverlap(steps: seq<Timed>, st: State, now: nat)
    requires RunsTo(Initial(), 0, steps, st, now) && NeverOverlaps(Initial(), steps)
    ensures OneActiveThroughout(Initial(), steps)
  {
    ClearedRunsNeverDouble(Initial(), 0, steps, st, now);
    OneActiveExactly(steps, st, now);
  }

  // ---- A run with two ------------------------------------------------------------------------------------

  const FIRST := "first"
  const SECOND := "second"

  function Code(userId: string, examId: string, secret: string): AccessCode {
    AccessCode(userId, examId, "", secret, 0, 0, false)
  }

  /** A user with two codes for an exam starts it with both; each start passes its guard before the other commits. */
  function Script(userId: string, exam: Exam): seq<Step> {
    [SaveExam(exam.id, exam), AssignCode(FIRST, Code(userId, exam.id, FIRST)),
     AssignCode(SECOND, Code(userId, exam.id, SECOND)),
     StartExam(userId, FIRST, exam.id), StartExam(userId, SECOND, exam.id), Continue(0), Continue(1),
     QueryCodes(0, [FIRST, SECOND]), QueryCodes(1, [SECOND, FIRST]), Continue(0), Continue(1), Continue(0), Continue(1),
     Step.Commit(0, FIRST), Step.Commit(1, SECOND)]
  }

  /** The start with this secret, after `n` of its calls. */
  function Started(userId: string, exam: Exam, secret: string, other: string, n: nat): Starter {
    var duration := exam.durationMinutes * 60;
    if n == 0 then FindExam(userId, secret, exam.id)
    else if n == 1 then FindCodes(userId, secret, exam.id, duration)
    else if n == 2 then CompareCode(userId, secret, exam.id, duration, [secret, other])
    else if n == 3 then FindActive(userId, exam.id, duration, secret)
    else if n == 4 then ConsumeCode(userId, exam.id, duration, secret, 0)
    else Done
  }

  function Sat(userId: string, exam: Exam, secret: string): Session {
    Opened(Identity(secret, userId, exam.id, "", secret, 0, exam.durationMinutes * 60))
  }

  /** The state after the first `k` steps of the script. */
  function Scene(userId: string, exam: Exam, k: nat): State {
    var first := Code(userId, exam.id, FIRST).(used := k >= 14);
    var second := Code(userId, exam.id, SECOND).(used := k >= 15);
    var n0 := if k < 6 then 0 else if k < 8 then 1 else if k < 10 then 2 else if k < 12 then 3
              else if k < 14 then 4 else 5;
    var n1 := if k < 7 then 0 else if k < 9 then 1 else if k < 11 then 2 else if k < 13 then 3
              else if k < 15 then 4 else 5;
    State(
      if k < 1 then map[] else map[exam.id := exam],
      if k < 2 then map[] else if k < 3 then map[FIRST := first] else map[FIRST := first, SECOND := second],
      if k < 14 then map[] else if k < 15 then map[FIRST := Sat(userId, exam, FIRST)]
      else map[FIRST := Sat(userId, exam, FIRST), SECOND := Sat(userId, exam, SECOND)],
      (if k < 4 then [] else [Started(userId, exam, FIRST, SECOND, n0)])
      + (if k < 5 then [] else [Started(userId, exam, SECOND, FIRST, n1)]))
  }

  ghost predicate Leads(st: State, step: Step, next: State) {
    Permitted(st, 0, step) && Take(st, 0, step) == next
  }

  lemma ArrivingScenes(userId: string, exam: Exam, k: nat)
    requires exam.published && k < 7
    ensures Leads(Scene(userId, exam, k), Script(userId, exam)[k], Scene(userId, exam, k + 1))
  {
  }

  lemma QueryingScenes(userId: string, exam: Exam, k: nat)
    requires exam.published && 7 <= k < 9
    ensures Leads(Scene(userId, exam, k), Script(userId, exam)[k], Scene(userId, exam, k + 1))
  {
  }

  lemma CheckingScenes(userId: string, exam: Exam, k: nat)
    requires exam.published && 9 <= k < 13
    ensures Leads(Scene(userId, exam, k), Script(userId, exam)[k], Scene(userId, exam, k + 1))
  {
  }

  lemma FirstCommits(userId: string, exam: Exam)
    requires exam.published
    ensures Leads(Scene(userId, exam, 13), Script(userId, exam)[13], Scene(userId, exam, 14))
  {
  }

  lemma SecondCommits(userId: string, exam: Exam)
    requires exam.published
    ensures Leads(Scene(userId, exam, 14), Script(userId, exam)[14], Scene(userId, exam, 15))
  {
  }

  function AtOnce(steps: seq<Step>): seq<Timed> {
    if steps == [] then [] else [Timed(0, steps[0])] + AtOnce(steps[1..])
  }

  lemma RunBefore(st: State, step: Step, next: State, steps: seq<Step>, last: State)
    requires Leads(st, step, next) && RunsTo(next, 0, AtOnce(steps), last, 0)
    ensures RunsTo(st, 0, AtOnce([step] + steps), last, 0)
  {
    assert ([step] + steps)[1..] == steps;
    assert AtOnce([step] + steps)[1..] == AtOnce(steps);
  }

  /** States that follow one another are a run, from any of them on. */
  lemma {:induction false} ChainRuns(steps: seq<Step>, states: seq<State>, k: nat)
    requires k <= |steps| && |states| == |steps| + 1
    requires forall j :: 0 <= j < |steps| ==> Leads(states[j], steps[j], states[j + 1])
    ensures RunsTo(states[k], 0, AtOnce(steps[k..]), states[|steps|], 0)
    decreases |steps| - k
  {
    if k == |steps| {
      assert steps[k..] == [];
    } else {
      ChainRuns(steps, states, k + 1);
      RunBefore(states[k], steps[k], states[k + 1], steps[k + 1..], states[|steps|]);
      assert steps[k..] == [steps[k]] + steps[k + 1..];
    }
  }

  /** "One active session per user and exam" is not what the code guarantees, for any user and published exam. */
  lemma TwoActive(userId: string, exam: Exam)
    requires exam.published
    ensures exists st: State, a, b :: Occurs(st, 0) && a != b
                                      && IsActive(st, a, userId, exam.id) && IsActive(st, b, userId, exam.id)
  {
    var steps, states := Script(userId, exam), seq(16, k requires 0 <= k < 16 => Scene(userId, exam, k));
    forall k | 0 <= k < 15
      ensures Leads(states[k], steps[k], states[k + 1])
    {
      if k < 7 {
        ArrivingScenes(userId, exam, k);
      } else if k < 9 {
        QueryingScenes(userId, exam, k);
      } else if k < 13 {
        CheckingScenes(userId, exam, k);
      } else if k == 13 {
        FirstCommits(userId, exam);
      } else {
        SecondCommits(userId, exam);
      }
    }
    ChainRuns(steps, states, 0);
    assert steps[0..] == steps;
    assert states[0] == Initial();
    assert Occurs(states[15], 0);
    assert IsActive(states[15], FIRST, userId, exam.id) && IsActive(states[15], SECOND, userId, exam.id);
  }
}
