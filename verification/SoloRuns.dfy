/** One request run from its first awaited call to its last, with nothing in between. */
module SoloRuns {
  import opened Wrappers
  import opened SessionProtocol
  import opened SessionFlow
  import opened SessionTheorems

  /** The rows and keys alone: no requests in flight, no history. */
  function Quiet(s: Session): Session {
    s.(procs := [], log := Log(None, [], [], [], 0, 0, false))
  }

  function Solo(s: Session, now: nat, p: Proc): Session
    decreases Rank(s) + Work(p)
  {
    if p.Finished? then s
    else
      PerformWorks(s, now, p);
      var (t, q) := Perform(s, now, p);
      Solo(Quiet(t), now, q)
  }

  /** How a solo run begins, and how it ends. */
  lemma SoloStep(s: Session, now: nat, p: Proc)
    requires !p.Finished?
    ensures var (t, q) := Perform(s, now, p);
            Solo(s, now, p) == Solo(Quiet(t), now, q) && (q.Finished? ==> Solo(s, now, p) == Quiet(t))
  {
  }

  lemma PerformQuiet(s: Session, now: nat, p: Proc)
    requires !p.Finished?
    ensures Quiet(Perform(s, now, p).0) == Quiet(Perform(Quiet(s), now, p).0)
    ensures Perform(s, now, p).1 == Perform(Quiet(s), now, p).1
  {
  }

  lemma NextMatchesPerform(s: Session, now: nat, i: nat)
    requires i < |s.procs| && !s.procs[i].Finished?
    ensures Quiet(Next(s, now, Advance(i))) == Quiet(Perform(s, now, s.procs[i]).0)
    ensures |Next(s, now, Advance(i)).procs| == |s.procs|
    ensures Next(s, now, Advance(i)).procs[i] == Perform(s, now, s.procs[i]).1
  {
  }

  /** A solo run is a run of the protocol, whatever other requests are in flight meanwhile. */
  lemma {:induction false} SoloIsARun(s: Session, now: nat, i: nat) returns (events: seq<Event>, s': Session)
    requires i < |s.procs|
    ensures Runs(s, now, events, s', now) && Quiet(s') == Solo(Quiet(s), now, s.procs[i])
    decreases Rank(Quiet(s)) + Work(s.procs[i])
  {
    var p := s.procs[i];
    if p.Finished? {
      events, s' := [], s;
    } else {
      var t := Next(s, now, Advance(i));
      NextMatchesPerform(s, now, i);
      PerformQuiet(s, now, p);
      PerformWorks(Quiet(s), now, p);
      events, s' := SoloIsARun(t, now, i);
      var first := Event(now, Advance(i));
      assert ([first] + events)[1..] == events;
      events := [first] + events;
    }
  }
}
