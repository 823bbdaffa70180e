/**
 The counting invariant of the session protocol.

 The countdown of a session is one baton. `startExam` holds it first; then the session key, its expiry
 notification, the expiry handler, the grace key, its notification, and finally the request that is about to
 submit. It is never duplicated, and it is dropped only when the row is already submitted or gone. Everything
 else about the protocol - accounting, liveness, immutable deadlines - rests on this.
 */
module SessionFlow {
  import opened Counting
  import opened SessionProtocol

  /**
   What is summed over the requests in flight: those that hold the baton early, while opening the grace window,
   or while closing the session; those about to submit late; and the work that is left in each.
   */
  datatype Gauge = EARLY | OPENING | CLOSING | LATE | WORK

  function Weight(g: Gauge, p: Proc): nat {
    match g
    case EARLY => if p.ExpiryCheck? || p.ExpiryMark? then 1 else 0
    case OPENING => if p.ExpiryOpenGrace? then 1 else 0
    case CLOSING => if p.GraceCheck? || (p.Commit? && (p.auto || p.lateFlag)) then 1 else 0
    case LATE => if p.Commit? && p.lateFlag then 1 else 0
    case WORK => Work(p)
  }

  function Work(p: Proc): nat {
    match p
    case Finished => 0
    case AutosaveCheck(_, _) => 4
    case AutosaveRead(_) => 3
    case AutosaveWrite(_, _) => 2
    case AutosaveMirror(_) => 1
    case SubmitCheck(_, _) => 3
    case LateCheck(_, _) => 2
    case LateConsume(_, _) => 1
    case Commit(_, _, _) => 2
    case DeleteKey => 1
    case ExpiryCheck => 8
    case ExpiryMark(_) => 7
    case ExpiryOpenGrace(_) => 6
    case GraceCheck => 3
  }

  function Weighing(g: Gauge): Proc -> nat {
    p => Weight(g, p)
  }

  function Tally(g: Gauge, procs: seq<Proc>): nat {
    Count(procs, Weighing(g))
  }

  lemma TallyAppend(g: Gauge, procs: seq<Proc>, p: Proc)
    ensures Tally(g, procs + [p]) == Tally(g, procs) + Weight(g, p)
  {
    CountAppend(procs, p, Weighing(g));
  }

  lemma TallyUpdate(g: Gauge, procs: seq<Proc>, i: nat, p: Proc)
    requires i < |procs|
    ensures Tally(g, procs[i := p]) + Weight(g, procs[i]) == Tally(g, procs) + Weight(g, p)
    ensures Weight(g, procs[i]) <= Tally(g, procs)
  {
    CountUpdate(procs, i, p, Weighing(g));
  }

  /** A request that is counted is somewhere among those in flight. */
  lemma TallyWitness(g: Gauge, procs: seq<Proc>) returns (i: nat)
    requires Tally(g, procs) > 0
    ensures i < |procs| && Weight(g, procs[i]) > 0
  {
    i := CountWitness(procs, Weighing(g));
  }

  /** The baton has not passed the EXPIRED write; `procs` apart, and all of it. */
  function EarlyStore(s: Session): nat {
    Held(s.start.Pending?) + Held(s.key.Some?) + s.keyEvents
  }

  function Early(s: Session): nat {
    EarlyStore(s) + Tally(EARLY, s.procs)
  }

  /** The grace window is open, or closing. */
  function ClosingStore(s: Session): nat {
    Held(s.grace.Some?) + s.graceEvents
  }

  function Closing(s: Session): nat {
    ClosingStore(s) + Tally(CLOSING, s.procs)
  }

  function Batons(s: Session): nat {
    Early(s) + Tally(OPENING, s.procs) + Closing(s)
  }

  /** The row exists and nobody has submitted it. */
  predicate Open(s: Session) {
    s.row.Some? && !Terminal(s.row.value.status)
  }

  /** A request in flight is consistent with where the baton is. */
  predicate ProcFlow(s: Session, p: Proc) {
    && (p.DeleteKey? && Open(s) ==> Early(s) == 0)
    && (p.LateConsume? ==> Early(s) == 0)
  }

  ghost predicate Flow(s: Session) {
    && Batons(s) <= 1
    && (Open(s) && !s.start.Failed? ==> Batons(s) == 1)
    && (s.row.Some? && s.row.value.status == EXPIRED ==> Early(s) == 0)
    && (s.log.overwritten > 0 ==> Early(s) == 0)
    && (forall i :: 0 <= i < |s.procs| ==> ProcFlow(s, s.procs[i]))
  }

  lemma FlowOpened(id: Identity)
    ensures Flow(Opened(id))
  {
  }

  /** The batons in the stores, and in the hands of one request. */
  function Stored(s: Session): nat {
    EarlyStore(s) + ClosingStore(s)
  }

  function Hands(p: Proc): nat {
    Weight(EARLY, p) + Weight(OPENING, p) + Weight(CLOSING, p)
  }

  /** What one awaited call does to the baton, the requests other than its own apart. */
  ghost predicate Moves(s: Session, p: Proc, t: Session, q: Proc) {
    && t.start == s.start
    && EarlyStore(t) + Weight(EARLY, q) <= EarlyStore(s) + Weight(EARLY, p)
    && Stored(t) + Hands(q) <= Stored(s) + Hands(p)
    && (Open(t) && !s.start.Failed? ==> Stored(t) + Hands(q) == Stored(s) + Hands(p))
    && (Open(t) ==> Open(s) || (p.ExpiryMark? && s.row.Some?))
    && (t.row.Some? && t.row.value.status == EXPIRED ==>
          p.ExpiryMark? || (s.row.Some? && s.row.value.status == EXPIRED))
    && (t.log.overwritten > 0 ==> p.ExpiryMark? || s.log.overwritten > 0)
    && (p.ExpiryMark? ==> EarlyStore(t) == EarlyStore(s) && Hands(q) == 1 && Weight(EARLY, q) == 0)
    && (q.DeleteKey? ==> !Open(t))
    && (q.LateConsume? ==> s.row.Some? && s.row.value.status == EXPIRED)
  }

  predicate FromTimer(p: Proc) {
    p.ExpiryCheck? || p.ExpiryMark? || p.ExpiryOpenGrace? || p.GraceCheck? || p.Commit?
  }

  predicate FromAutosave(p: Proc) {
    p.AutosaveCheck? || p.AutosaveRead? || p.AutosaveWrite? || p.AutosaveMirror?
  }

  lemma AutosaveWriteMoves(s: Session, now: nat, p: Proc)
    requires p.AutosaveWrite?
    ensures var (t, q) := Perform(s, now, p); Moves(s, p, t, q)
  {
  }

  lemma AutosaveMoves(s: Session, now: nat, i: nat)
    requires Flow(s) && i < |s.procs| && FromAutosave(s.procs[i])
    ensures var (t, q) := Perform(s, now, s.procs[i]); Moves(s, s.procs[i], t, q)
  {
    if s.procs[i].AutosaveWrite? {
      AutosaveWriteMoves(s, now, s.procs[i]);
    }
  }

  lemma SubmitMoves(s: Session, now: nat, i: nat)
    requires Flow(s) && i < |s.procs| && !s.procs[i].Finished?
    requires !FromTimer(s.procs[i]) && !FromAutosave(s.procs[i])
    ensures var (t, q) := Perform(s, now, s.procs[i]); Moves(s, s.procs[i], t, q)
  {
    assert ProcFlow(s, s.procs[i]);
  }

  lemma ExpiryMoves(s: Session, now: nat, i: nat)
    requires Flow(s) && i < |s.procs| && (s.procs[i].ExpiryCheck? || s.procs[i].ExpiryMark?)
    ensures var (t, q) := Perform(s, now, s.procs[i]); Moves(s, s.procs[i], t, q)
  {
    TallyUpdate(EARLY, s.procs, i, Finished);
  }

  lemma ClosingMoves(s: Session, now: nat, i: nat)
    requires Flow(s) && i < |s.procs| && (s.procs[i].GraceCheck? || s.procs[i].Commit?)
    ensures var (t, q) := Perform(s, now, s.procs[i]); Moves(s, s.procs[i], t, q)
  {
  }

  lemma TimerMoves(s: Session, now: nat, i: nat)
    requires Flow(s) && i < |s.procs| && FromTimer(s.procs[i])
    ensures var (t, q) := Perform(s, now, s.procs[i]); Moves(s, s.procs[i], t, q)
  {
    match s.procs[i]
    case ExpiryOpenGrace(_) => TallyUpdate(OPENING, s.procs, i, Finished);
    case GraceCheck => ClosingMoves(s, now, i);
    case Commit(_, _, _) => ClosingMoves(s, now, i);
    case _ => ExpiryMoves(s, now, i);
  }

  /** Any step that moves the baton so keeps the invariant. */
  lemma MovesKeepFlow(s: Session, i: nat, t: Session, q: Proc, s': Session)
    requires Flow(s) && i < |s.procs| && Moves(s, s.procs[i], t, q)
    requires s' == t.(procs := s.procs[i := q])
    ensures Flow(s')
  {
    var p := s.procs[i];
    TallyUpdate(EARLY, s.procs, i, q);
    TallyUpdate(OPENING, s.procs, i, q);
    TallyUpdate(CLOSING, s.procs, i, q);
    assert Early(s') <= Early(s) && (p.ExpiryMark? ==> Early(s') == 0);
    forall j | 0 <= j < |s'.procs|
      ensures ProcFlow(s', s'.procs[j])
    {
      assert j != i ==> ProcFlow(s, s.procs[j]);
    }
  }

  lemma AdvanceKeepsFlow(s: Session, now: nat, i: nat)
    requires Flow(s) && i < |s.procs| && !s.procs[i].Finished?
    ensures Flow(AdvanceStep(s, now, i))
  {
    var (t, q) := Perform(s, now, s.procs[i]);
    if FromTimer(s.procs[i]) {
      TimerMoves(s, now, i);
    } else if FromAutosave(s.procs[i]) {
      AutosaveMoves(s, now, i);
    } else {
      SubmitMoves(s, now, i);
    }
    MovesKeepFlow(s, i, t, q, AdvanceStep(s, now, i));
  }

  lemma ArriveKeepsFlow(s: Session, t: Session, p: Proc)
    requires Flow(s) && t.row == s.row && t.start == s.start && t.log == s.log && t.procs == s.procs
    requires EarlyStore(t) + Weight(EARLY, p) == EarlyStore(s) && Stored(t) + Hands(p) == Stored(s)
    requires !p.DeleteKey? && !p.LateConsume?
    ensures Flow(Arrive(t, p))
  {
    var s' := Arrive(t, p);
    TallyAppend(EARLY, s.procs, p);
    TallyAppend(OPENING, s.procs, p);
    TallyAppend(CLOSING, s.procs, p);
    forall j | 0 <= j < |s'.procs|
      ensures ProcFlow(s', s'.procs[j])
    {
      assert j < |s.procs| ==> ProcFlow(s, s.procs[j]);
    }
  }

  lemma NextKeepsFlow(s: Session, now: nat, a: Action)
    requires Flow(s) && Enabled(s, now, a)
    ensures Flow(Next(s, now, a))
  {
    match a
    case Autosave(userId, answers) => ArriveKeepsFlow(s, s, AutosaveCheck(userId, answers));
    case Submit(userId, answers) => ArriveKeepsFlow(s, s, SubmitCheck(userId, answers));
    case LateSubmit(userId, answers) => ArriveKeepsFlow(s, s, LateCheck(userId, answers));
    case DeliverKeyEvent => ArriveKeepsFlow(s, s.(keyEvents := s.keyEvents - 1), ExpiryCheck);
    case DeliverGraceEvent => ArriveKeepsFlow(s, s.(graceEvents := s.graceEvents - 1), GraceCheck);
    case Advance(i) => AdvanceKeepsFlow(s, now, i);
    case _ => StoreKeepsFlow(s, now, a);
  }

  /** The actions that are no request's: the start's second half, and the server's own expiry of keys. */
  lemma StoreKeepsFlow(s: Session, now: nat, a: Action)
    requires Flow(s) && Enabled(s, now, a) && (a.WriteKey? || a.Compensate? || a.ExpireKey? || a.ExpireGrace?)
    ensures Flow(Next(s, now, a))
  {
    var s' := Next(s, now, a);
    assert Early(s') <= Early(s);
    forall j | 0 <= j < |s'.procs|
      ensures ProcFlow(s', s'.procs[j])
    {
      assert ProcFlow(s, s.procs[j]);
    }
  }
}
