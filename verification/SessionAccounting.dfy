/**
 Attempts per session: what the conditional UPDATE of `scoreAndPersist` does and does not guarantee.

 The attempts of a session are exactly its terminal status, plus the terminal marks that were later erased: by
 the unconditional EXPIRED write of the expiry handler, or by the compensation of `startExam`. The handler can
 erase at most once, and only when a submission commits between its status check and its write.
 */
module SessionAccounting {
  import opened Counting
  import opened SessionProtocol
  import opened SessionFlow

  predicate Submitted(s: Session) {
    s.row.Some? && Terminal(s.row.value.status)
  }

  ghost predicate Accounts(s: Session) {
    && |s.attempts| == Held(Submitted(s)) + s.log.overwritten + s.log.unwound
    && s.log.overwritten <= 1 && s.log.unwound <= 1
    && (s.log.unwound > 0 ==> s.row.None? && s.start.Settled?)
    && (s.row.None? ==> s.start.Settled?)
    && (s.log.overwritten > 0 ==> s.log.raced)
    && (s.log.raced && s.row.Some? ==> s.log.overwritten == 1 || (Marking(s.procs) && Submitted(s)))
    && (Marking(s.procs) && s.row.Some? && !s.log.raced ==> s.row.value.status == ACTIVE)
  }

  lemma MarkingIsEarly(s: Session)
    requires Marking(s.procs)
    ensures Early(s) > 0
  {
    var i :| 0 <= i < |s.procs| && s.procs[i].ExpiryMark?;
    TallyUpdate(EARLY, s.procs, i, Finished);
  }

  lemma MarkingUpdate(procs: seq<Proc>, i: nat, q: Proc)
    requires i < |procs|
    ensures Marking(procs[i := q]) ==> q.ExpiryMark? || Marking(procs)
    ensures q.ExpiryMark? ==> Marking(procs[i := q])
    ensures Marking(procs) && !procs[i].ExpiryMark? ==> Marking(procs[i := q])
    ensures procs[i].ExpiryMark? ==> Marking(procs)
  {
    var after := procs[i := q];
    if q.ExpiryMark? {
      assert after[i].ExpiryMark?;
    }
    if Marking(procs) && !procs[i].ExpiryMark? {
      var j :| 0 <= j < |procs| && procs[j].ExpiryMark?;
      assert after[j].ExpiryMark?;
    }
    if Marking(after) && !q.ExpiryMark? {
      var j :| 0 <= j < |after| && after[j].ExpiryMark?;
      assert procs[j].ExpiryMark?;
    }
  }

  /** The part of `Accounts` that one awaited call decides, the requests in flight apart. */
  lemma PerformAccounts(s: Session, now: nat, p: Proc)
    requires Accounts(s) && !p.Finished? && (p.ExpiryMark? ==> Marking(s.procs) && s.log.overwritten == 0)
    ensures var (t, q) := Perform(s, now, p);
      && |t.attempts| == Held(Submitted(t)) + t.log.overwritten + t.log.unwound
      && t.start == s.start && t.log.unwound == s.log.unwound
      && (t.row.None? <==> s.row.None?)
      && s.log.overwritten <= t.log.overwritten <= 1
      && (t.log.overwritten > s.log.overwritten ==> p.ExpiryMark?)
      && (t.log.overwritten > 0 ==> t.log.raced)
      && (p.ExpiryMark? && t.log.raced && t.row.Some? ==> t.log.overwritten == 1)
      && (p.ExpiryMark? ==> !q.ExpiryMark?)
  {
  }

  lemma PerformRaces(s: Session, now: nat, p: Proc)
    requires Accounts(s) && !p.Finished? && !p.ExpiryMark?
    ensures var (t, q) := Perform(s, now, p);
      && t.log.overwritten == s.log.overwritten
      && (t.log.raced && t.row.Some? ==> t.log.overwritten == 1 || (Marking(s.procs) && Submitted(t)))
      && (Marking(s.procs) && t.row.Some? && !t.log.raced ==> t.row.value.status == ACTIVE)
      && (q.ExpiryMark? && t.row.Some? ==> t.row.value.status == ACTIVE)
  {
  }

  lemma AdvanceKeepsAccounts(s: Session, now: nat, i: nat)
    requires Flow(s) && Accounts(s) && i < |s.procs| && !s.procs[i].Finished?
    ensures Accounts(AdvanceStep(s, now, i))
  {
    var p := s.procs[i];
    var (t, q) := Perform(s, now, p);
    var s' := AdvanceStep(s, now, i);
    MarkingUpdate(s.procs, i, q);
    if p.ExpiryMark? {
      MarkingIsEarly(s);
      PerformAccounts(s, now, p);
      AdvanceKeepsFlow(s, now, i);
      TallyUpdate(EARLY, s.procs, i, q);
      if Marking(s'.procs) {
        MarkingIsEarly(s');
      }
    } else {
      PerformAccounts(s, now, p);
      PerformRaces(s, now, p);
    }
  }

  lemma NextKeepsAccounts(s: Session, now: nat, a: Action)
    requires Flow(s) && Accounts(s) && Enabled(s, now, a)
    ensures Accounts(Next(s, now, a))
  {
    match a
    case Advance(i) => AdvanceKeepsAccounts(s, now, i);
    case _ =>
      var s' := Next(s, now, a);
      assert forall i :: 0 <= i < |s.procs| ==> s'.procs[i] == s.procs[i];
      assert Marking(s'.procs) <==> Marking(s.procs);
  }
}
