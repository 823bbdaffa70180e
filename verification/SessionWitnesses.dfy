/** Runs that show how far the guarantees of the session protocol go. */
module SessionWitnesses {
  import opened Counting
  import opened Wrappers
  import opened RedisStore
  import opened SessionProtocol

  lemma {:induction false} Extend(s: Session, now: nat, events: seq<Event>, t: Session, mid: nat, later: nat, a: Action)
    requires Runs(s, now, events, t, mid) && mid <= later && Enabled(t, later, a)
    ensures Runs(s, now, events + [Event(later, a)], Next(t, later, a), later)
    decreases |events|
  {
    if events == [] {
      assert (events + [Event(later, a)])[1..] == [];
    } else {
      assert (events + [Event(later, a)])[1..] == events[1..] + [Event(later, a)];
      Extend(Next(s, events[0].now, events[0].action), events[0].now, events[1..], t, mid, later, a);
    }
  }

  /**
   A submission that commits between the handler's status check and its EXPIRED write: the row becomes EXPIRED
   again, a grace window opens, and when that has passed the session is submitted a second time.
   */
  function Script(id: Identity): seq<Event> {
    var t := id.startedAt;
    var expiry := Expiry(id);
    var over := expiry + 120_000;
    [Event(t, WriteKey(Stored)), Event(t, Submit(id.userId, map[])), Event(t, Advance(0)),
     Event(expiry, ExpireKey), Event(expiry, DeliverKeyEvent), Event(expiry, Advance(1)),
     Event(expiry, Advance(0)), Event(expiry, Advance(1)), Event(expiry, Advance(1)),
     Event(over, ExpireGrace), Event(over, DeliverGraceEvent), Event(over, Advance(2)), Event(over, Advance(2))]
  }

  function Expiry(id: Identity): nat {
    if id.durationSeconds > 0 then id.startedAt + 1000 * id.durationSeconds else id.startedAt
  }

  /** The rows, keys and requests after the first `k` events of the script. */
  function Scene(id: Identity, k: nat): Session
    requires k <= 13
  {
    var t := Expiry(id);
    var manual := Attempt(id.userId, id.examId, map[], false, false);
    var status := if k < 7 then ACTIVE else if k == 7 then SUBMITTED else if k < 13 then EXPIRED else AUTO_SUBMITTED;
    Session(id,
      Some(Row(id, status, if k < 7 then None else Some(map[]))),
      if k == 0 then Pending else Settled,
      if 1 <= k < 4 then Some(Entry(FreshData(id), t)) else None,
      Held(k == 4),
      if k == 9 then Some(Entry(map[], t + 120_000)) else None,
      Held(k == 10),
      (if k < 7 then [] else [manual]) + (if k < 13 then [] else [manual.(auto := true)]),
      Requests(id, k),
      Log(if k == 0 then None else Some(t), [], if k < 9 then [] else [t], [], Held(k >= 8), 0, k >= 7))
  }

  function Requests(id: Identity, k: nat): seq<Proc> {
    (if k < 2 then [] else if k == 2 then [SubmitCheck(id.userId, map[])]
     else if k < 7 then [Commit(map[], false, false)] else [DeleteKey])
    + (if k < 5 then [] else if k == 5 then [ExpiryCheck] else if k < 8 then [ExpiryMark(None)]
       else if k == 8 then [ExpiryOpenGrace(None)] else [Finished])
    + (if k < 11 then [] else if k == 11 then [GraceCheck] else if k == 12 then [Commit(map[], true, false)]
       else [DeleteKey])
  }

  ghost predicate Follows(id: Identity, k: nat) {
    && k < 13
    && var e := Script(id)[k];
       Enabled(Scene(id, k), e.now, e.action) && Next(Scene(id, k), e.now, e.action) == Scene(id, k + 1)
  }

  lemma OpeningScenes(id: Identity, k: nat)
    requires id.durationSeconds > 0 && k < 5
    ensures Follows(id, k)
  {
  }

  lemma RacingScenes(id: Identity, k: nat)
    requires id.durationSeconds > 0 && 5 <= k < 9
    ensures Follows(id, k)
  {
    assert k == 6 ==> Scene(id, k).procs[1].ExpiryMark?;
  }

  lemma ClosingScenes(id: Identity, k: nat)
    requires id.durationSeconds > 0 && 9 <= k < 13
    ensures Follows(id, k)
  {
  }

  lemma SceneFollows(id: Identity, k: nat)
    requires id.durationSeconds > 0 && k < 13
    ensures Follows(id, k)
  {
    if k < 5 {
      OpeningScenes(id, k);
    } else if k < 9 {
      RacingScenes(id, k);
    } else {
      ClosingScenes(id, k);
    }
  }

  function TimeAt(start: nat, events: seq<Event>, k: nat): nat
    requires k <= |events|
  {
    if k == 0 then start else events[k - 1].now
  }

  predicate Leads(s: Session, now: nat, e: Event, t: Session) {
    now <= e.now && Enabled(s, e.now, e.action) && Next(s, e.now, e.action) == t
  }

  lemma ExtendBy(s: Session, now: nat, events: seq<Event>, t: Session, mid: nat, e: Event, u: Session)
    requires Runs(s, now, events, t, mid) && Leads(t, mid, e, u)
    ensures Runs(s, now, events + [e], u, e.now)
  {
    Extend(s, now, events, t, mid, e.now, e.action);
  }

  /** States that follow one another are a run. */
  lemma {:induction false} ChainRuns(start: nat, events: seq<Event>, states: seq<Session>, k: nat)
    requires k <= |events| && |states| == |events| + 1
    requires forall j :: 0 <= j < |events| ==> Leads(states[j], TimeAt(start, events, j), events[j], states[j + 1])
    ensures Runs(states[0], start, events[..k], states[k], TimeAt(start, events, k))
    decreases k
  {
    if k == 0 {
      assert events[..0] == [];
    } else {
      var before := events[..k - 1];
      ChainRuns(start, events, states, k - 1);
      ExtendBy(states[0], start, before, states[k - 1], TimeAt(start, events, k - 1), events[k - 1], states[k]);
      assert events[..k] == before + [events[k - 1]];
    }
  }

  lemma SceneLeads(id: Identity, k: nat)
    requires id.durationSeconds > 0 && k < 13
    ensures Leads(Scene(id, k), TimeAt(id.startedAt, Script(id), k), Script(id)[k], Scene(id, k + 1))
  {
    SceneFollows(id, k);
    ScriptInTime(id, k);
  }

  lemma ScriptInTime(id: Identity, k: nat)
    requires k < 13
    ensures TimeAt(id.startedAt, Script(id), k) <= Script(id)[k].now
  {
  }

  /** "One attempt per session" is not what the code guarantees: every exam has a run with two. */
  lemma TwoAttempts(id: Identity)
    requires id.durationSeconds > 0
    ensures exists s: Session, now: nat :: s.id == id && Reachable(s, now) && |s.attempts| == 2
  {
    var events, states := Script(id), seq(14, k requires 0 <= k < 14 => Scene(id, k));
    forall j | 0 <= j < 13
      ensures Leads(states[j], TimeAt(id.startedAt, events, j), events[j], states[j + 1])
    {
      SceneLeads(id, j);
    }
    ChainRuns(id.startedAt, events, states, 13);
    assert states[0] == Opened(id);
    assert states[13].id == id && Reachable(states[13], TimeAt(id.startedAt, events, 13));
  }
}
