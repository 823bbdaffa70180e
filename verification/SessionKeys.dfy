/** The session key: its deadline and identity, over every interleaving of autosaves with expiry. */
module SessionKeys {
  import opened Wrappers
  import opened SessionProtocol

  /** The JSON under the key belongs to this session. */
  predicate Identifies(id: Identity, data: SessionData) {
    data.(answers := map[]) == FreshData(id)
  }

  predicate ProcKeys(s: Session, p: Proc) {
    p.AutosaveWrite? ==> Identifies(s.id, p.seen) && s.log.deadline.Some?
  }

  ghost predicate KeyFacts(s: Session, now: nat) {
    && s.id.startedAt <= now
    && (s.row.Some? ==> s.row.value.id == s.id)
    && (s.start.Pending? ==> s.log.deadline.None?)
    && (s.log.deadline.Some? ==> s.log.deadline.value >= s.id.startedAt + 1000 * s.id.durationSeconds)
    && (s.key.Some? ==> s.log.deadline == Some(s.key.value.deadline) && Identifies(s.id, s.key.value.value))
  }

  ghost predicate Keys(s: Session, now: nat) {
    && KeyFacts(s, now)
    && (forall i :: 0 <= i < |s.procs| ==> ProcKeys(s, s.procs[i]))
  }

  lemma PerformKeepsKeys(s: Session, now: nat, p: Proc)
    requires KeyFacts(s, now) && ProcKeys(s, p) && !p.Finished?
    ensures var (t, q) := Perform(s, now, p);
            KeyFacts(t, now) && ProcKeys(t, q) && t.id == s.id && t.log.deadline == s.log.deadline
  {
  }

  lemma NextKeepsKeys(s: Session, before: nat, now: nat, a: Action)
    requires Keys(s, before) && before <= now && Enabled(s, now, a)
    ensures Keys(Next(s, now, a), now)
  {
    var s' := Next(s, now, a);
    match a
    case Advance(i) =>
      assert KeyFacts(s, now) && ProcKeys(s, s.procs[i]);
      PerformKeepsKeys(s, now, s.procs[i]);
      assert forall j :: 0 <= j < |s'.procs| && j != i ==> s'.procs[j] == s.procs[j];
    case _ =>
      assert forall j :: 0 <= j < |s.procs| ==> s'.procs[j] == s.procs[j] && ProcKeys(s, s.procs[j]);
  }

  lemma KeysLater(s: Session, now: nat, later: nat)
    requires Keys(s, now) && now <= later
    ensures Keys(s, later)
  {
    assert KeyFacts(s, later);
  }

  /** What no step undoes: the key, once written, keeps its deadline, and once gone stays gone. */
  predicate KeyForward(s: Session, s': Session) {
    && s'.id == s.id
    && (!s.start.Pending? ==> !s'.start.Pending?)
    && (s.log.deadline.Some? ==> s'.log.deadline == s.log.deadline)
    && (!s.start.Pending? && s.key.None? ==> s'.key.None?)
  }

  lemma PerformKeyForward(s: Session, now: nat, p: Proc)
    requires !p.Finished?
    ensures KeyForward(s, Perform(s, now, p).0)
  {
  }

  lemma NextKeyForward(s: Session, now: nat, a: Action)
    requires Enabled(s, now, a) && (s.start.Pending? ==> s.log.deadline.None?)
    ensures KeyForward(s, Next(s, now, a))
  {
    if a.Advance? {
      PerformKeyForward(s, now, s.procs[a.i]);
    }
  }
}
