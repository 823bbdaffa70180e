/** What each request of an exam session makes of the two stores when it runs alone, written out field by field. */
module ExamOutcomes {
  import opened Wrappers
  import opened ExamData
  import opened RedisStore
  import opened SessionProtocol
  import opened SoloRuns

  datatype Stores = Stores(
    row: Option<Row>, attempts: seq<Attempt>,
    key: Slot<SessionData>, keyEvents: nat, grace: Slot<Answers>, graceEvents: nat)

  /** A slice of the stores as the protocol sees it. */
  function Seen(id: Identity, s: Stores): Session {
    Quiet(Session(id, s.row, Settled, s.key, s.keyEvents, s.grace, s.graceEvents, s.attempts, [],
                  Log(None, [], [], [], 0, 0, false)))
  }

  /** What the transaction of a submission makes of a slice. */
  lemma CommitSeen(id: Identity, s: Stores, now: nat, answers: Answers, auto: bool, lateFlag: bool)
    requires s.row.Some? && !Terminal(s.row.value.status)
    ensures var row := s.row.value;
            var status := if auto then AUTO_SUBMITTED else SUBMITTED;
            var attempt := Attempt(row.id.userId, row.id.examId, answers, auto, lateFlag);
            Seen(id, s.(row := Some(row.(status := status, snapshot := Some(answers))),
                        attempts := s.attempts + [attempt]))
            == Quiet(Perform(Seen(id, s), now, Commit(answers, auto, lateFlag)).0)
  {
  }

  lemma SeenInjective(id: Identity)
    ensures forall s, t :: Seen(id, s) == Seen(id, t) ==> s == t
  {
    forall s, t | Seen(id, s) == Seen(id, t)
      ensures s == t
    {
      assert Seen(id, s).row == s.row && Seen(id, t).row == t.row;
    }
  }

  /** One if this key has run out unannounced, and so is announced by the next command that touches it. */
  function Announced<V>(slot: Slot<V>, now: nat): nat {
    if slot.Some? && slot.value.deadline <= now then 1 else 0
  }

  /** The row is this user's, and in this status. */
  predicate Owned(row: Option<Row>, userId: string, status: Status) {
    row.Some? && row.value.id.userId == userId && row.value.status == status
  }

  predicate Running<V>(slot: Slot<V>, now: nat) {
    slot.Some? && now < slot.value.deadline
  }

  // ---- Autosave ------------------------------------------------------------------------------------------

  lemma AutosaveOutcome(id: Identity, s: Stores, now: nat, userId: string, answers: Answers)
    ensures Solo(Seen(id, s), now, AutosaveCheck(userId, answers))
         == Seen(id, if !Owned(s.row, userId, ACTIVE) then s
                     else if !Running(s.key, now) then s.(key := None, keyEvents := s.keyEvents + Announced(s.key, now))
                     else s.(row := Some(s.row.value.(snapshot := Some(answers))),
                             key := Some(Entry(s.key.value.value.(answers := answers), s.key.value.deadline))))
  {
    SoloStep(Seen(id, s), now, AutosaveCheck(userId, answers));
    if Owned(s.row, userId, ACTIVE) {
      SoloStep(Seen(id, s), now, AutosaveRead(answers));
      if Running(s.key, now) {
        AutosaveKept(id, s, now, answers);
      }
    }
  }

  lemma AutosaveKept(id: Identity, s: Stores, now: nat, answers: Answers)
    requires s.row.Some? && Running(s.key, now)
    ensures Solo(Seen(id, s), now, AutosaveWrite(answers, s.key.value.value))
         == Seen(id, s.(row := Some(s.row.value.(snapshot := Some(answers))),
                        key := Some(Entry(s.key.value.value.(answers := answers), s.key.value.deadline))))
  {
    var t := s.(key := Some(Entry(s.key.value.value.(answers := answers), s.key.value.deadline)));
    SoloStep(Seen(id, s), now, AutosaveWrite(answers, s.key.value.value));
    SoloStep(Seen(id, t), now, AutosaveMirror(answers));
  }

  // ---- Submission ----------------------------------------------------------------------------------------

  /** A submission leaves the row submitted, one new attempt, and no countdown; or everything as it was. */
  lemma CommitOutcome(id: Identity, s: Stores, now: nat, answers: Answers, auto: bool, lateFlag: bool)
    ensures s.row.Some? && (s.row.value.status == ACTIVE || s.row.value.status == EXPIRED) ==>
              var row := s.row.value;
              Solo(Seen(id, s), now, Commit(answers, auto, lateFlag))
              == Seen(id, s.(row := Some(row.(status := if auto then AUTO_SUBMITTED else SUBMITTED,
                                              snapshot := Some(answers))),
                             attempts := s.attempts + [Attempt(row.id.userId, row.id.examId, answers, auto, lateFlag)],
                             key := None, keyEvents := s.keyEvents + Announced(s.key, now)))
    ensures s.row.None? || s.row.value.status == SUBMITTED || s.row.value.status == AUTO_SUBMITTED ==>
              Solo(Seen(id, s), now, Commit(answers, auto, lateFlag)) == Seen(id, s)
  {
    SoloStep(Seen(id, s), now, Commit(answers, auto, lateFlag));
    if s.row.Some? && (s.row.value.status == ACTIVE || s.row.value.status == EXPIRED) {
      var row := s.row.value;
      var t := s.(row := Some(row.(status := if auto then AUTO_SUBMITTED else SUBMITTED, snapshot := Some(answers))),
                  attempts := s.attempts + [Attempt(row.id.userId, row.id.examId, answers, auto, lateFlag)]);
      CommitSeen(id, s, now, answers, auto, lateFlag);
      SoloStep(Seen(id, t), now, DeleteKey);
    }
  }

  lemma SubmitOutcome(id: Identity, s: Stores, now: nat, userId: string, answers: Answers)
    ensures Solo(Seen(id, s), now, SubmitCheck(userId, answers))
         == if Owned(s.row, userId, ACTIVE) then Solo(Seen(id, s), now, Commit(answers, false, false)) else Seen(id, s)
  {
    SoloStep(Seen(id, s), now, SubmitCheck(userId, answers));
  }

  /** A late submission takes the grace key and submits what it sent, or what was under the key if it sent nothing. */
  lemma LateOutcome(id: Identity, s: Stores, now: nat, userId: string, answers: Answers)
    ensures !Owned(s.row, userId, EXPIRED) ==> Solo(Seen(id, s), now, LateCheck(userId, answers)) == Seen(id, s)
    ensures Owned(s.row, userId, EXPIRED) && !Running(s.grace, now) ==>
              Solo(Seen(id, s), now, LateCheck(userId, answers))
              == Seen(id, s.(grace := None, graceEvents := s.graceEvents + Announced(s.grace, now)))
    ensures Owned(s.row, userId, EXPIRED) && Running(s.grace, now) ==>
              Solo(Seen(id, s), now, LateCheck(userId, answers))
              == Solo(Seen(id, s.(grace := None)), now,
                      Commit(if answers == map[] then s.grace.value.value else answers, false, true))
  {
    SoloStep(Seen(id, s), now, LateCheck(userId, answers));
    if Owned(s.row, userId, EXPIRED) {
      SoloStep(Seen(id, s), now, LateConsume(userId, answers));
    }
  }

  // ---- Expiry --------------------------------------------------------------------------------------------

  /** An active row expires, and its snapshot is under the grace key for 120 seconds; any other slice stays. */
  lemma ExpiryOutcome(id: Identity, s: Stores, now: nat)
    ensures Solo(Seen(id, s), now, ExpiryCheck)
         == Seen(id, if s.row.None? || s.row.value.status != ACTIVE then s
                     else s.(row := Some(s.row.value.(status := EXPIRED)),
                             grace := Some(Entry(s.row.value.snapshot.UnwrapOr(map[]), now + 120_000)),
                             graceEvents := s.graceEvents + Announced(s.grace, now)))
  {
    SoloStep(Seen(id, s), now, ExpiryCheck);
    if s.row.Some? && s.row.value.status == ACTIVE {
      var t := s.(row := Some(s.row.value.(status := EXPIRED)));
      SoloStep(Seen(id, s), now, ExpiryMark(s.row.value.snapshot));
      SoloStep(Seen(id, t), now, ExpiryOpenGrace(s.row.value.snapshot));
    }
  }

  /** An unsubmitted row is submitted from its own snapshot. */
  lemma GraceOutcome(id: Identity, s: Stores, now: nat)
    ensures Solo(Seen(id, s), now, GraceCheck)
         == if s.row.Some? && (s.row.value.status == ACTIVE || s.row.value.status == EXPIRED)
            then Solo(Seen(id, s), now, Commit(s.row.value.snapshot.UnwrapOr(map[]), true, false)) else Seen(id, s)
  {
    SoloStep(Seen(id, s), now, GraceCheck);
  }
}
