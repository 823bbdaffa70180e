/**
 One-time tokens of `auth.service.ts`: e-mail verification and password reset. A row of `auth_tokens` is
 identified by its serial id, its index here; comparing a bcrypt hash is comparing the secret it was made from.
 `usedBy` is the `used_at` column, annotated with the statement that set it.
 */
module AuthTokens {
  import opened Counting
  import opened Wrappers

  const CANDIDATES: nat := 50

  datatype Purpose = EMAIL_VERIFICATION | PASSWORD_RESET

  datatype Use = Consumed | Superseded

  datatype AuthToken = AuthToken(
    userId: string, purpose: Purpose, secret: string, expiresAt: nat, usedBy: Option<Use>)

  datatype Proc =
    | Finished
    | FindCandidates(secret: string, purpose: Purpose)
    | Compare(secret: string, candidates: seq<nat>)
    | MarkUsed(id: nat)
    | Supersede(userId: string, purpose: Purpose, secret: string, ttlMs: nat)
    | Create(userId: string, purpose: Purpose, secret: string, ttlMs: nat)

  datatype State = State(rows: seq<AuthToken>, procs: seq<Proc>, consumed: seq<nat>)

  datatype Action =
    | Consume(secret: string, purpose: Purpose)
    | Issue(userId: string, purpose: Purpose, secret: string, ttlMs: nat)
    | Advance(i: nat)

  function IsUnused(purpose: Purpose): AuthToken -> nat {
    (row: AuthToken) => if row.purpose == purpose && row.usedBy.None? then 1 else 0
  }

  /** Unused rows of this purpose that are newer than row `i`. */
  function Newer(rows: seq<AuthToken>, i: nat, purpose: Purpose): nat
    requires i < |rows|
  {
    Count(rows[i + 1..], IsUnused(purpose))
  }

  ghost function UnusedFrom(rows: seq<AuthToken>, k: nat, purpose: Purpose): set<nat> {
    set j: nat | k <= j < |rows| && rows[j].purpose == purpose && rows[j].usedBy.None?
  }

  lemma {:induction false} UnusedCounts(rows: seq<AuthToken>, k: nat, purpose: Purpose)
    requires k <= |rows|
    ensures Count(rows[k..], IsUnused(purpose)) == |UnusedFrom(rows, k, purpose)|
    decreases |rows| - k
  {
    if k == |rows| {
      assert UnusedFrom(rows, k, purpose) == {};
    } else {
      UnusedCounts(rows, k + 1, purpose);
      UnusedNext(rows, k, purpose);
      assert rows[k..][1..] == rows[k + 1..];
    }
  }

  lemma UnusedNext(rows: seq<AuthToken>, k: nat, purpose: Purpose)
    requires k < |rows|
    ensures |UnusedFrom(rows, k, purpose)|
         == IsUnused(purpose)(rows[k]) + |UnusedFrom(rows, k + 1, purpose)|
  {
    var unused := if rows[k].purpose == purpose && rows[k].usedBy.None? then {k} else {};
    assert UnusedFrom(rows, k, purpose) == UnusedFrom(rows, k + 1, purpose) + unused;
  }

  /** The same as a number of rows. */
  lemma NewerCounts(rows: seq<AuthToken>, i: nat, purpose: Purpose)
    requires i < |rows|
    ensures Newer(rows, i, purpose)
         == |set j: nat | i < j < |rows| && rows[j].purpose == purpose && rows[j].usedBy.None?|
  {
    UnusedCounts(rows, i + 1, purpose);
    assert UnusedFrom(rows, i + 1, purpose)
        == set j: nat | i < j < |rows| && rows[j].purpose == purpose && rows[j].usedBy.None?;
  }

  predicate IsCandidate(rows: seq<AuthToken>, i: nat, purpose: Purpose) {
    i < |rows| && rows[i].purpose == purpose && rows[i].usedBy.None? && Newer(rows, i, purpose) < CANDIDATES
  }

  /** The result of the candidate query: unused rows of the purpose, newest first, at most fifty. */
  ghost predicate AreCandidates(rows: seq<AuthToken>, purpose: Purpose, ids: seq<nat>) {
    && (forall i: nat :: i in ids <==> IsCandidate(rows, i, purpose))
    && (forall a, b :: 0 <= a < b < |ids| ==> ids[a] > ids[b])
  }

  function SupersedeAll(rows: seq<AuthToken>, userId: string, purpose: Purpose): (r: seq<AuthToken>)
    ensures |r| == |rows|
  {
    seq(|rows|, i requires 0 <= i < |rows| =>
      if rows[i].userId == userId && rows[i].purpose == purpose && rows[i].usedBy.None?
      then rows[i].(usedBy := Some(Superseded)) else rows[i])
  }

  ghost predicate Enabled(s: State, a: Action) {
    match a
    case Advance(i) => i < |s.procs| && !s.procs[i].Finished?
    case _ => true
  }

  /** One awaited call; `ids` is what the candidate query returned, where the call is that query. */
  ghost predicate Performs(s: State, now: nat, p: Proc, t: State, q: Proc) {
    match p
    case Finished => false
    case FindCandidates(secret, purpose) =>
      t == s && q.Compare? && q.secret == secret && AreCandidates(s.rows, purpose, q.candidates)
    case Compare(secret, candidates) =>
      && t == s
      && q == (if candidates == [] || candidates[0] >= |s.rows| then Finished
               else if s.rows[candidates[0]].expiresAt >= now && s.rows[candidates[0]].secret == secret
               then MarkUsed(candidates[0]) else Compare(secret, candidates[1..]))
    case MarkUsed(id) =>
      && q == Finished
      && t == (if id < |s.rows| && s.rows[id].usedBy.None?
               then s.(rows := s.rows[id := s.rows[id].(usedBy := Some(Consumed))], consumed := s.consumed + [id])
               else s)
    case Supersede(userId, purpose, secret, ttlMs) =>
      q == Create(userId, purpose, secret, ttlMs) && t == s.(rows := SupersedeAll(s.rows, userId, purpose))
    case Create(userId, purpose, secret, ttlMs) =>
      q == Finished && t == s.(rows := s.rows + [AuthToken(userId, purpose, secret, now + ttlMs, None)])
  }

  // ---- A request alone -----------------------------------------------------------------------------------

  function Stage(p: Proc): nat {
    match p
    case Finished => 0
    case MarkUsed(_) => 1
    case Create(_, _, _, _) => 1
    case Compare(_, _) => 2
    case Supersede(_, _, _, _) => 2
    case FindCandidates(_, _) => 3
  }

  function Length(p: Proc): nat {
    if p.Compare? then |p.candidates| else 0
  }

  predicate Nearer(q: Proc, p: Proc) {
    Stage(q) < Stage(p) || (Stage(q) == Stage(p) && Length(q) < Length(p))
  }

  /** The request `p`, run to its end with nothing in between, leads from `s` to `t`. */
  ghost predicate Alone(s: State, now: nat, p: Proc, t: State)
    decreases Stage(p), Length(p)
  {
    if p.Finished? then t == s
    else exists mid, q :: Nearer(q, p) && Performs(s, now, p, mid, q) && Alone(mid, now, q, t)
  }

  /** A row that a request with this secret may consume. */
  ghost predicate Redeemable(rows: seq<AuthToken>, i: nat, secret: string, purpose: Purpose, now: nat) {
    && i < |rows| && rows[i].purpose == purpose && rows[i].usedBy.None?
    && Newer(rows, i, purpose) < 50
    && rows[i].expiresAt >= now && rows[i].secret == secret
  }

  function ConsumedRow(s: State, i: nat): State
    requires i < |s.rows|
  {
    s.(rows := s.rows[i := s.rows[i].(usedBy := Some(Consumed))], consumed := s.consumed + [i])
  }

  /** What comparing the candidates one by one leads to: the first that fits is consumed. */
  ghost predicate FirstConsumed(s: State, now: nat, secret: string, candidates: seq<nat>, t: State) {
    if candidates == [] then t == s
    else
      candidates[0] < |s.rows| && s.rows[candidates[0]].usedBy.None?
      && if s.rows[candidates[0]].expiresAt >= now && s.rows[candidates[0]].secret == secret
         then t == ConsumedRow(s, candidates[0]) else FirstConsumed(s, now, secret, candidates[1..], t)
  }

  lemma MarkAlone(s: State, now: nat, id: nat, t: State)
    requires id < |s.rows| && s.rows[id].usedBy.None?
    ensures Alone(s, now, MarkUsed(id), t) <==> t == ConsumedRow(s, id)
  {
    assert Performs(s, now, MarkUsed(id), ConsumedRow(s, id), Finished);
    assert Alone(ConsumedRow(s, id), now, Finished, ConsumedRow(s, id));
    assert Nearer(Finished, MarkUsed(id));
  }

  lemma {:induction false} CompareAlone(s: State, now: nat, secret: string, candidates: seq<nat>, t: State)
    requires forall c :: c in candidates ==> c < |s.rows| && s.rows[c].usedBy.None?
    ensures Alone(s, now, Compare(secret, candidates), t) <==> FirstConsumed(s, now, secret, candidates, t)
    decreases |candidates|
  {
    var p := Compare(secret, candidates);
    if candidates == [] {
      assert Performs(s, now, p, s, Finished) && Nearer(Finished, p);
      assert Alone(s, now, Finished, t) <==> t == s;
    } else {
      var c := candidates[0];
      assert c in candidates;
      if s.rows[c].expiresAt >= now && s.rows[c].secret == secret {
        MarkAlone(s, now, c, t);
        assert Performs(s, now, p, s, MarkUsed(c)) && Nearer(MarkUsed(c), p);
      } else {
        assert forall d :: d in candidates[1..] ==> d in candidates;
        CompareAlone(s, now, secret, candidates[1..], t);
        assert Performs(s, now, p, s, Compare(secret, candidates[1..])) && Nearer(Compare(secret, candidates[1..]), p);
      }
    }
  }

  /** Among candidates newest first, the first that fits is the newest that fits. */
  lemma {:induction false} FirstIsNewest(s: State, now: nat, secret: string, candidates: seq<nat>, t: State, i: nat)
    requires forall c :: c in candidates ==> c < |s.rows| && s.rows[c].usedBy.None?
    requires forall a, b :: 0 <= a < b < |candidates| ==> candidates[a] > candidates[b]
    requires i in candidates && s.rows[i].expiresAt >= now && s.rows[i].secret == secret
    requires forall c :: c in candidates && s.rows[c].expiresAt >= now && s.rows[c].secret == secret ==> c <= i
    ensures FirstConsumed(s, now, secret, candidates, t) <==> t == ConsumedRow(s, i)
    decreases |candidates|
  {
    var c := candidates[0];
    assert c in candidates;
    if s.rows[c].expiresAt >= now && s.rows[c].secret == secret {
      assert i == c;
    } else {
      assert i in candidates[1..] && forall d :: d in candidates[1..] ==> d in candidates;
      FirstIsNewest(s, now, secret, candidates[1..], t, i);
    }
  }

  lemma {:induction false} NoneFits(s: State, now: nat, secret: string, candidates: seq<nat>, t: State)
    requires forall c :: c in candidates ==> c < |s.rows| && s.rows[c].usedBy.None?
    requires forall c :: c in candidates ==> !(s.rows[c].expiresAt >= now && s.rows[c].secret == secret)
    ensures FirstConsumed(s, now, secret, candidates, t) <==> t == s
    decreases |candidates|
  {
    if candidates == [] {
    } else {
      assert candidates[0] in candidates && forall d :: d in candidates[1..] ==> d in candidates;
      NoneFits(s, now, secret, candidates[1..], t);
    }
  }

  ghost predicate ConsumesNewest(s: State, now: nat, secret: string, purpose: Purpose, t: State) {
    && ((forall i: nat :: !Redeemable(s.rows, i, secret, purpose, now)) ==> t == s)
    && (forall i: nat :: Redeemable(s.rows, i, secret, purpose, now)
                         && (forall j: nat :: Redeemable(s.rows, j, secret, purpose, now) ==> j <= i)
                         ==> t == ConsumedRow(s, i))
  }

  lemma FirstMeansNewest(s: State, now: nat, secret: string, purpose: Purpose, candidates: seq<nat>, t: State)
    requires AreCandidates(s.rows, purpose, candidates) && FirstConsumed(s, now, secret, candidates, t)
    ensures ConsumesNewest(s, now, secret, purpose, t)
  {
    assert forall i: nat :: Redeemable(s.rows, i, secret, purpose, now)
                       <==> i in candidates && s.rows[i].expiresAt >= now && s.rows[i].secret == secret;
    if forall i: nat :: !Redeemable(s.rows, i, secret, purpose, now) {
      NoneFits(s, now, secret, candidates, t);
    }
    forall i: nat | Redeemable(s.rows, i, secret, purpose, now)
                    && forall j: nat :: Redeemable(s.rows, j, secret, purpose, now) ==> j <= i
      ensures t == ConsumedRow(s, i)
    {
      FirstIsNewest(s, now, secret, candidates, t, i);
    }
  }

  /** With nothing in between, a request consumes the newest row that is redeemable, or changes nothing. */
  lemma ConsumeAlone(s: State, now: nat, secret: string, purpose: Purpose, t: State)
    requires Alone(s, now, FindCandidates(secret, purpose), t)
    ensures ConsumesNewest(s, now, secret, purpose, t)
  {
    var p := FindCandidates(secret, purpose);
    var mid, q :| Nearer(q, p) && Performs(s, now, p, mid, q) && Alone(mid, now, q, t);
    assert q == Compare(secret, q.candidates) && mid == s;
    CompareAlone(s, now, secret, q.candidates, t);
    FirstMeansNewest(s, now, secret, purpose, q.candidates, t);
  }

  /** Whichever way the candidates are found, this is what comparing them leads to. */
  lemma AloneByCandidates(s: State, now: nat, secret: string, purpose: Purpose, candidates: seq<nat>, t: State)
    requires AreCandidates(s.rows, purpose, candidates) && FirstConsumed(s, now, secret, candidates, t)
    ensures Alone(s, now, FindCandidates(secret, purpose), t)
  {
    var p := FindCandidates(secret, purpose);
    CompareAlone(s, now, secret, candidates, t);
    assert Nearer(Compare(secret, candidates), p) && Performs(s, now, p, s, Compare(secret, candidates));
  }

  /** The rows after a request that consumes, run alone. */
  ghost predicate Consumes(rows: seq<AuthToken>, now: nat, secret: string, purpose: Purpose, after: seq<AuthToken>) {
    exists consumed ::
      Alone(State(rows, [], []), now, FindCandidates(secret, purpose), State(after, [], consumed))
  }

  lemma NoneConsumed(rows: seq<AuthToken>, now: nat, secret: string, purpose: Purpose, candidates: seq<nat>)
    requires AreCandidates(rows, purpose, candidates)
    requires forall k :: 0 <= k < |candidates| ==> !Redeemable(rows, candidates[k], secret, purpose, now)
    ensures forall i: nat :: !Redeemable(rows, i, secret, purpose, now)
    ensures Consumes(rows, now, secret, purpose, rows)
  {
    var s := State(rows, [], []);
    forall i: nat
      ensures !Redeemable(rows, i, secret, purpose, now)
    {
      assert IsCandidate(rows, i, purpose) ==> i in candidates;
    }
    forall c | c in candidates
      ensures !(rows[c].expiresAt >= now && rows[c].secret == secret)
    {
      assert IsCandidate(rows, c, purpose);
    }
    NoneFits(s, now, secret, candidates, s);
    AloneByCandidates(s, now, secret, purpose, candidates, s);
  }

  lemma NewestConsumed(rows: seq<AuthToken>, now: nat, secret: string, purpose: Purpose, candidates: seq<nat>, k: nat)
    requires AreCandidates(rows, purpose, candidates) && k < |candidates|
    requires forall j :: 0 <= j < k ==> !Redeemable(rows, candidates[j], secret, purpose, now)
    requires candidates[k] < |rows| && rows[candidates[k]].expiresAt >= now && rows[candidates[k]].secret == secret
    ensures Redeemable(rows, candidates[k], secret, purpose, now)
    ensures forall i: nat :: Redeemable(rows, i, secret, purpose, now) ==> i <= candidates[k]
    ensures Consumes(rows, now, secret, purpose,
                     rows[candidates[k] := rows[candidates[k]].(usedBy := Some(Consumed))])
  {
    var s, id := State(rows, [], []), candidates[k];
    assert id in candidates;
    forall i: nat | Redeemable(rows, i, secret, purpose, now)
      ensures i <= id
    {
      assert IsCandidate(rows, i, purpose);
      var at :| 0 <= at < |candidates| && candidates[at] == i;
    }
    forall c | c in candidates && rows[c].expiresAt >= now && rows[c].secret == secret
      ensures c <= id
    {
      assert IsCandidate(rows, c, purpose);
      assert Redeemable(rows, c, secret, purpose, now);
    }
    FirstIsNewest(s, now, secret, candidates, ConsumedRow(s, id), id);
    AloneByCandidates(s, now, secret, purpose, candidates, ConsumedRow(s, id));
    assert ConsumedRow(s, id) == State(rows[id := rows[id].(usedBy := Some(Consumed))], [], [id]);
  }

  /** An issue supersedes the unused tokens of the user and purpose, and appends one that lasts from its insert on. */
  lemma IssueAlone(s: State, now: nat, userId: string, purpose: Purpose, secret: string, ttlMs: nat, t: State)
    requires Alone(s, now, Supersede(userId, purpose, secret, ttlMs), t)
    ensures |t.rows| == |s.rows| + 1 && t == s.(rows := t.rows)
    ensures t.rows[|s.rows|] == AuthToken(userId, purpose, secret, now + ttlMs, None)
    ensures forall i :: 0 <= i < |s.rows| ==>
              t.rows[i] == if s.rows[i].userId == userId && s.rows[i].purpose == purpose && s.rows[i].usedBy.None?
                           then s.rows[i].(usedBy := Some(Superseded)) else s.rows[i]
  {
    var p := Supersede(userId, purpose, secret, ttlMs);
    var mid, q :| Nearer(q, p) && Performs(s, now, p, mid, q) && Alone(mid, now, q, t);
    var last, r :| Nearer(r, q) && Performs(mid, now, q, last, r) && Alone(last, now, r, t);
  }

  lemma IssueLeads(s: State, now: nat, userId: string, purpose: Purpose, secret: string, ttlMs: nat)
    ensures Alone(s, now, Supersede(userId, purpose, secret, ttlMs),
                  s.(rows := SupersedeAll(s.rows, userId, purpose)
                             + [AuthToken(userId, purpose, secret, now + ttlMs, None)]))
  {
    var p, q := Supersede(userId, purpose, secret, ttlMs), Create(userId, purpose, secret, ttlMs);
    var mid := s.(rows := SupersedeAll(s.rows, userId, purpose));
    var t := mid.(rows := mid.rows + [AuthToken(userId, purpose, secret, now + ttlMs, None)]);
    assert Performs(mid, now, q, t, Finished) && Nearer(Finished, q) && Alone(t, now, Finished, t);
    assert Alone(mid, now, q, t);
    assert Performs(s, now, p, mid, q) && Nearer(q, p);
    assert Alone(s, now, p, t);
  }

  // ---- Every interleaving --------------------------------------------------------------------------------

  ghost predicate Steps(s: State, now: nat, a: Action, s': State) {
    && Enabled(s, a)
    && match a
       case Consume(secret, purpose) => s' == s.(procs := s.procs + [FindCandidates(secret, purpose)])
       case Issue(userId, purpose, secret, ttlMs) =>
         s' == s.(procs := s.procs + [Supersede(userId, purpose, secret, ttlMs)])
       case Advance(i) =>
         && |s'.procs| == |s.procs|
         && Performs(s, now, s.procs[i], s'.(procs := s.procs), s'.procs[i])
         && s'.procs == s.procs[i := s'.procs[i]]
  }

  datatype Event = Event(now: nat, action: Action, after: State)

  /** The states of a run, each with the action that led to it. */
  ghost predicate Runs(s: State, events: seq<Event>)
    decreases |events|
  {
    events == [] || (Steps(s, events[0].now, events[0].action, events[0].after) && Runs(events[0].after, events[1..]))
  }

  function IsId(id: nat): nat -> nat {
    (other: nat) => if other == id then 1 else 0
  }

  predicate OnceEach(s: State, id: nat) {
    Count(s.consumed, IsId(id)) == if id < |s.rows| && s.rows[id].usedBy == Some(Consumed) then 1 else 0
  }

  lemma StepKeepsOnce(s: State, now: nat, a: Action, s': State, id: nat)
    requires OnceEach(s, id) && Steps(s, now, a, s')
    ensures OnceEach(s', id)
    ensures |s.rows| <= |s'.rows|
    ensures forall k :: 0 <= k < |s.rows| && s.rows[k].usedBy.Some? ==> s'.rows[k].usedBy == s.rows[k].usedBy
  {
    if a.Advance? && s.procs[a.i].MarkUsed? {
      CountAppend(s.consumed, s.procs[a.i].id, IsId(id));
    }
  }

  /** Every token is consumed at most once, whatever is interleaved, and a superseded one never. */
  lemma {:induction false} ConsumedAtMostOnce(s: State, events: seq<Event>, id: nat)
    requires OnceEach(s, id) && Runs(s, events)
    ensures var last := if events == [] then s else events[|events| - 1].after;
      && Count(last.consumed, IsId(id)) <= 1
      && (Count(last.consumed, IsId(id)) == 1 <==> id < |last.rows| && last.rows[id].usedBy == Some(Consumed))
      && (id < |s.rows| && s.rows[id].usedBy.Some? ==>
            Count(last.consumed, IsId(id)) == Count(s.consumed, IsId(id)))
    decreases |events|
  {
    if events == [] {
    } else {
      var e := events[0];
      StepKeepsOnce(s, e.now, e.action, e.after, id);
      ConsumedAtMostOnce(e.after, events[1..], id);
    }
  }

  // ---- Who consumes --------------------------------------------------------------------------------------

  /** The rows whose secret a request has presented before they expired, this step included. */
  function Presented(s: State, now: nat, a: Action, shown: set<nat>): set<nat> {
    if a.Advance? && a.i < |s.procs| && s.procs[a.i].Compare? && |s.procs[a.i].candidates| > 0
    then
      var id, secret := s.procs[a.i].candidates[0], s.procs[a.i].secret;
      if id < |s.rows| && s.rows[id].secret == secret && now <= s.rows[id].expiresAt then shown + {id} else shown
    else shown
  }

  function PresentedIn(s: State, events: seq<Event>, shown: set<nat>): set<nat>
    decreases |events|
  {
    if events == [] then shown
    else PresentedIn(events[0].after, events[1..], Presented(s, events[0].now, events[0].action, shown))
  }

  ghost predicate ByTheirSecrets(s: State, shown: set<nat>) {
    && (forall id :: id in s.consumed ==> id in shown)
    && (forall j :: 0 <= j < |s.procs| && s.procs[j].MarkUsed? ==> s.procs[j].id in shown)
  }

  lemma StepBySecret(s: State, now: nat, a: Action, s': State, shown: set<nat>)
    requires ByTheirSecrets(s, shown) && Steps(s, now, a, s')
    ensures ByTheirSecrets(s', Presented(s, now, a, shown))
  {
    var shown' := Presented(s, now, a, shown);
    forall j | 0 <= j < |s'.procs| && s'.procs[j].MarkUsed?
      ensures s'.procs[j].id in shown'
    {
      assert j < |s.procs| ==> s'.procs[j] == s.procs[j] || a == Advance(j);
    }
  }

  /** A token is consumed only by requests for it: its secret was presented before it expired. */
  lemma {:induction false} ConsumedByItsSecret(s: State, events: seq<Event>, shown: set<nat>)
    requires ByTheirSecrets(s, shown) && Runs(s, events)
    ensures var last := if events == [] then s else events[|events| - 1].after;
            forall id :: id in last.consumed ==> id in PresentedIn(s, events, shown)
    decreases |events|
  {
    if events == [] {
    } else {
      var e := events[0];
      StepBySecret(s, e.now, e.action, e.after, shown);
      ConsumedByItsSecret(e.after, events[1..], Presented(s, e.now, e.action, shown));
    }
  }
}
