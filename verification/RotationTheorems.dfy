/** Conservation and monotone revocation of refresh tokens, in every interleaving. */
module RotationTheorems {
  import opened Counting
  import opened Wrappers
  import opened RefreshTokens

  // ---- What is counted -----------------------------------------------------------------------------------

  function IsLive(o: Subject): Token -> nat {
    (t: Token) => Held(t.owner == o && t.revokedBy.None?)
  }

  function IsRetired(o: Subject): Token -> nat {
    (t: Token) => Held(t.owner == o && t.revokedBy == Some(Revocation))
  }

  function IsChild(jti: nat): Token -> nat {
    (t: Token) => Held(t.parent == Some(jti))
  }

  /** A request that will still insert a token for this subject. */
  function IsPending(o: Subject): Proc -> nat {
    (p: Proc) => Held((p.Insert? || p.FindOwner?) && p.owner == o)
  }

  /** A rotation of this token that has not inserted its successor. */
  function IsRotating(jti: nat): Proc -> nat {
    (p: Proc) => Held((p.Insert? && p.parent == Some(jti)) || (p.FindOwner? && p.jti == jti))
  }

  function IsOwn(o: Subject): Subject -> nat {
    (owner: Subject) => Held(owner == o)
  }

  function IsAbandonedBy(o: Subject): Abandoned -> nat {
    (a: Abandoned) => Held(a.owner == o)
  }

  function IsAbandonedOf(jti: nat): Abandoned -> nat {
    (a: Abandoned) => Held(a.jti == jti)
  }

  function LiveTokens(s: State, o: Subject): nat {
    Count(s.tokens, IsLive(o))
  }

  function Pending(s: State, o: Subject): nat {
    Count(s.procs, IsPending(o))
  }

  function Retired(s: State, o: Subject): nat {
    Count(s.tokens, IsRetired(o))
  }

  function Dropped(s: State, o: Subject): nat {
    Count(s.abandoned, IsAbandonedBy(o))
  }

  function Logins(s: State, o: Subject): nat {
    Count(s.logins, IsOwn(o))
  }

  /** Every login lives on in exactly one place: a live token, a rotation in flight, or a revocation. */
  predicate Conserved(s: State, o: Subject) {
    Logins(s, o) == LiveTokens(s, o) + Pending(s, o) + Retired(s, o) + Dropped(s, o)
  }

  /** The successors of a token: inserted, about to be, or given up. */
  function Successors(s: State, jti: nat): nat {
    Count(s.tokens, IsChild(jti)) + Count(s.procs, IsRotating(jti)) + Count(s.abandoned, IsAbandonedOf(jti))
  }

  predicate OneSuccessor(s: State, jti: nat) {
    Successors(s, jti) == Held(jti < |s.tokens| && s.tokens[jti].revokedBy == Some(Rotation))
  }

  // ---- Bulk revocation -----------------------------------------------------------------------------------

  lemma {:induction false} RevokeOwnedCounts(tokens: seq<Token>, owner: Subject, o: Subject)
    ensures var r := RevokeOwned(tokens, owner);
      && Count(r, IsLive(o)) == (if o == owner then 0 else Count(tokens, IsLive(o)))
      && Count(r, IsRetired(o))
         == Count(tokens, IsRetired(o)) + (if o == owner then Count(tokens, IsLive(o)) else 0)
  {
    if tokens == [] {
    } else {
      assert RevokeOwned(tokens, owner)[1..] == RevokeOwned(tokens[1..], owner);
      RevokeOwnedCounts(tokens[1..], owner, o);
    }
  }

  lemma {:induction false} RevokeOwnedChildren(tokens: seq<Token>, owner: Subject, jti: nat)
    ensures Count(RevokeOwned(tokens, owner), IsChild(jti)) == Count(tokens, IsChild(jti))
  {
    if tokens == [] {
    } else {
      assert RevokeOwned(tokens, owner)[1..] == RevokeOwned(tokens[1..], owner);
      RevokeOwnedChildren(tokens[1..], owner, jti);
    }
  }

  // ---- Each step -----------------------------------------------------------------------------------------

  /** What one awaited call does to the places a login can be in. */
  predicate Moves(s: State, p: Proc, t: State, q: Proc, o: Subject) {
    && t.logins == s.logins && t.procs == s.procs
    && LiveTokens(t, o) + Retired(t, o) + Dropped(t, o) + IsPending(o)(q)
       == LiveTokens(s, o) + Retired(s, o) + Dropped(s, o) + IsPending(o)(p)
    && Retired(s, o) <= Retired(t, o) && Dropped(s, o) <= Dropped(t, o)
  }

  lemma StampCounts(tokens: seq<Token>, jti: nat, o: Subject)
    requires jti < |tokens|
    ensures var stamped := tokens[jti := tokens[jti].(hashed := true)];
      && Count(stamped, IsLive(o)) == Count(tokens, IsLive(o))
      && Count(stamped, IsRetired(o)) == Count(tokens, IsRetired(o))
  {
    CountUpdate(tokens, jti, tokens[jti].(hashed := true), IsLive(o));
    CountUpdate(tokens, jti, tokens[jti].(hashed := true), IsRetired(o));
  }

  lemma RotationCounts(tokens: seq<Token>, jti: nat, o: Subject)
    requires jti < |tokens| && tokens[jti].revokedBy.None?
    ensures var rotated := tokens[jti := Revoked(tokens[jti], Rotation)];
      && Count(rotated, IsLive(o)) + Held(tokens[jti].owner == o) == Count(tokens, IsLive(o))
      && Count(rotated, IsRetired(o)) == Count(tokens, IsRetired(o))
  {
    CountUpdate(tokens, jti, Revoked(tokens[jti], Rotation), IsLive(o));
    CountUpdate(tokens, jti, Revoked(tokens[jti], Rotation), IsRetired(o));
  }

  lemma InsertMoves(s: State, now: nat, p: Proc, o: Subject)
    requires p.Insert?
    ensures var (t, q) := Perform(s, now, p); Moves(s, p, t, q, o)
  {
    var made := Token(p.owner, now + REFRESH_TTL_MS, false, None, p.parent);
    CountAppend(s.tokens, made, IsLive(o));
    CountAppend(s.tokens, made, IsRetired(o));
  }

  lemma RevokeMoves(s: State, now: nat, p: Proc, o: Subject)
    requires p.Revoke?
    ensures var (t, q) := Perform(s, now, p); Moves(s, p, t, q, o)
  {
    if p.jti < |s.tokens| && s.tokens[p.jti].revokedBy.None? {
      RotationCounts(s.tokens, p.jti, o);
    }
  }

  lemma PerformMoves(s: State, now: nat, p: Proc, o: Subject)
    requires !p.Finished?
    ensures var (t, q) := Perform(s, now, p); Moves(s, p, t, q, o)
  {
    match p
    case FindOwner(owner, jti) => CountAppend(s.abandoned, Abandoned(owner, jti), IsAbandonedBy(o));
    case Insert(_, _) => InsertMoves(s, now, p, o);
    case Find(_, _) =>
    case Revoke(_) => RevokeMoves(s, now, p, o);
    case StoreHash(jti) =>
      if jti < |s.tokens| {
        StampCounts(s.tokens, jti, o);
      }
    case RevokeAll(owner) => RevokeOwnedCounts(s.tokens, owner, o);
  }

  lemma AdvanceConserves(s: State, now: nat, i: nat, o: Subject)
    requires Conserved(s, o) && Enabled(s, Advance(i))
    ensures Conserved(Next(s, now, Advance(i)), o)
  {
    PerformMoves(s, now, s.procs[i], o);
    CountUpdate(s.procs, i, Perform(s, now, s.procs[i]).1, IsPending(o));
  }

  lemma LogoutConserves(s: State, now: nat, jti: nat, o: Subject)
    requires Conserved(s, o) && jti < |s.tokens|
    ensures Conserved(Next(s, now, Logout(jti)), o)
  {
    CountUpdate(s.tokens, jti, Revoked(s.tokens[jti], Revocation), IsLive(o));
    CountUpdate(s.tokens, jti, Revoked(s.tokens[jti], Revocation), IsRetired(o));
  }

  lemma NextConserves(s: State, now: nat, a: Action, o: Subject)
    requires Conserved(s, o) && Enabled(s, a)
    ensures Conserved(Next(s, now, a), o)
  {
    match a
    case Advance(i) => AdvanceConserves(s, now, i, o);
    case Logout(jti) => LogoutConserves(s, now, jti, o);
    case Login(owner) =>
      CountAppend(s.procs, Insert(owner, None), IsPending(o));
      CountAppend(s.logins, owner, IsOwn(o));
    case Refresh(jti, genuine) => CountAppend(s.procs, Find(jti, genuine), IsPending(o));
    case PasswordReplaced(userId) => CountAppend(s.procs, RevokeAll(Student(userId)), IsPending(o));
    case SetActive(_, _) =>
  }

  /** What one awaited call does to the successors of a token, and to the token. */
  predicate Mints(s: State, p: Proc, t: State, q: Proc, jti: nat) {
    && t.procs == s.procs
    && Successors(t, jti) + IsRotating(jti)(q) + Held(jti < |s.tokens| && s.tokens[jti].revokedBy == Some(Rotation))
       == Successors(s, jti) + IsRotating(jti)(p) + Held(jti < |t.tokens| && t.tokens[jti].revokedBy == Some(Rotation))
  }

  lemma RevokeMints(s: State, now: nat, p: Proc, jti: nat)
    requires p.Revoke?
    ensures var (t, q) := Perform(s, now, p); Mints(s, p, t, q, jti)
  {
    if p.jti < |s.tokens| {
      CountUpdate(s.tokens, p.jti, Revoked(s.tokens[p.jti], Rotation), IsChild(jti));
    }
  }

  lemma InsertMints(s: State, now: nat, p: Proc, jti: nat)
    requires p.Insert?
    ensures var (t, q) := Perform(s, now, p); Mints(s, p, t, q, jti)
  {
    CountAppend(s.tokens, Token(p.owner, now + REFRESH_TTL_MS, false, None, p.parent), IsChild(jti));
  }

  lemma PerformMints(s: State, now: nat, p: Proc, jti: nat)
    requires !p.Finished?
    ensures var (t, q) := Perform(s, now, p); Mints(s, p, t, q, jti)
  {
    match p
    case Revoke(_) => RevokeMints(s, now, p, jti);
    case FindOwner(owner, k) => CountAppend(s.abandoned, Abandoned(owner, k), IsAbandonedOf(jti));
    case Insert(_, _) => InsertMints(s, now, p, jti);
    case StoreHash(k) =>
      if k < |s.tokens| {
        CountUpdate(s.tokens, k, s.tokens[k].(hashed := true), IsChild(jti));
      }
    case RevokeAll(owner) => RevokeOwnedChildren(s.tokens, owner, jti);
    case Find(_, _) =>
  }

  lemma NextMintsOnce(s: State, now: nat, a: Action, jti: nat)
    requires OneSuccessor(s, jti) && Enabled(s, a)
    ensures OneSuccessor(Next(s, now, a), jti)
  {
    var s' := Next(s, now, a);
    match a
    case Advance(i) =>
      PerformMints(s, now, s.procs[i], jti);
      CountUpdate(s.procs, i, s'.procs[i], IsRotating(jti));
    case Logout(k) => CountUpdate(s.tokens, k, s'.tokens[k], IsChild(jti));
    case Login(owner) => CountAppend(s.procs, Insert(owner, None), IsRotating(jti));
    case Refresh(k, genuine) => CountAppend(s.procs, Find(k, genuine), IsRotating(jti));
    case PasswordReplaced(userId) => CountAppend(s.procs, RevokeAll(Student(userId)), IsRotating(jti));
    case SetActive(_, _) =>
  }

  /** What no step undoes: rows stay, keep owner and parent, and once revoked keep how. */
  ghost predicate Forward(s: State, s': State) {
    && |s.tokens| <= |s'.tokens|
    && (forall j :: 0 <= j < |s.tokens| ==>
          && s'.tokens[j].owner == s.tokens[j].owner
          && s'.tokens[j].parent == s.tokens[j].parent
          && (s.tokens[j].revokedBy.Some? ==> s'.tokens[j].revokedBy == s.tokens[j].revokedBy))
  }

  lemma NextForward(s: State, now: nat, a: Action)
    requires Enabled(s, a)
    ensures Forward(s, Next(s, now, a))
  {
  }

  lemma {:induction false} RunForward(s: State, events: seq<Event>, s': State)
    requires Runs(s, events, s')
    ensures Forward(s, s')
    decreases |events|
  {
    if events == [] {
    } else {
      NextForward(s, events[0].now, events[0].action);
      RunForward(Next(s, events[0].now, events[0].action), events[1..], s');
    }
  }

  // ---- The theorems --------------------------------------------------------------------------------------

  lemma {:induction false} RunConserves(s: State, events: seq<Event>, s': State, o: Subject)
    requires Conserved(s, o) && Runs(s, events, s')
    ensures Conserved(s', o)
    decreases |events|
  {
    if events == [] {
    } else {
      NextConserves(s, events[0].now, events[0].action, o);
      RunConserves(Next(s, events[0].now, events[0].action), events[1..], s', o);
    }
  }

  lemma {:induction false} RunMintsOnce(s: State, events: seq<Event>, s': State, jti: nat)
    requires OneSuccessor(s, jti) && Runs(s, events, s')
    ensures OneSuccessor(s', jti)
    decreases |events|
  {
    if events == [] {
    } else {
      NextMintsOnce(s, events[0].now, events[0].action, jti);
      RunMintsOnce(Next(s, events[0].now, events[0].action), events[1..], s', jti);
    }
  }

  /** Live tokens and rotations in flight never exceed the logins of the subject; the rest is accounted for. */
  lemma RotationConserves(s: State, o: Subject)
    requires Reachable(s)
    ensures Conserved(s, o)
    ensures LiveTokens(s, o) + Pending(s, o) <= Logins(s, o)
  {
    var events :| Runs(Initial(), events, s);
    RunConserves(Initial(), events, s, o);
  }

  /** A token that won its rotation has exactly one successor, in the table or on its way; any other has none. */
  lemma EachTokenMintsOnce(s: State, jti: nat)
    requires Reachable(s)
    ensures Successors(s, jti) == Held(jti < |s.tokens| && s.tokens[jti].revokedBy == Some(Rotation))
    ensures forall a, b :: 0 <= a < b < |s.tokens| && s.tokens[a].parent == Some(jti) ==>
              s.tokens[b].parent != Some(jti)
  {
    var events :| Runs(Initial(), events, s);
    RunMintsOnce(Initial(), events, s, jti);
    forall a, b | 0 <= a < b < |s.tokens| && s.tokens[a].parent == Some(jti) && s.tokens[b].parent == Some(jti)
      ensures false
    {
      CountTwo(s.tokens, a, b, IsChild(jti));
    }
  }

  /** A revoke-all step leaves the subject without live tokens. */
  lemma RevokeAllIsComplete(s: State, now: nat, i: nat)
    requires Enabled(s, Advance(i)) && s.procs[i].RevokeAll?
    ensures var o := s.procs[i].owner; var s' := Next(s, now, Advance(i));
      && LiveTokens(s', o) == 0
      && forall j :: 0 <= j < |s'.tokens| && s'.tokens[j].owner == o ==> s'.tokens[j].revokedBy.Some?
  {
    RevokeOwnedCounts(s.tokens, s.procs[i].owner, s.procs[i].owner);
  }

  /** A revoked token stays revoked the way it was: in particular one not revoked by a rotation never mints. */
  lemma RevocationIsForever(s: State, events: seq<Event>, s': State, jti: nat)
    requires Reachable(s) && Runs(s, events, s') && jti < |s.tokens| && s.tokens[jti].revokedBy.Some?
    ensures jti < |s'.tokens| && s'.tokens[jti].revokedBy == s.tokens[jti].revokedBy
    ensures s.tokens[jti].revokedBy == Some(Revocation) ==> Successors(s', jti) == 0
  {
    RunForward(s, events, s');
    var before :| Runs(Initial(), before, s);
    RunMintsOnce(Initial(), before, s, jti);
    RunMintsOnce(s, events, s', jti);
  }

  lemma {:induction false} CountsGrow(s: State, events: seq<Event>, s': State, o: Subject)
    requires Runs(s, events, s')
    ensures Retired(s, o) <= Retired(s', o) && Dropped(s, o) <= Dropped(s', o)
    decreases |events|
  {
    if events == [] {
    } else {
      var e := events[0];
      var t := Next(s, e.now, e.action);
      NextCountsGrow(s, e.now, e.action, o);
      CountsGrow(t, events[1..], s', o);
    }
  }

  lemma NextCountsGrow(s: State, now: nat, a: Action, o: Subject)
    requires Enabled(s, a)
    ensures var s' := Next(s, now, a); Retired(s, o) <= Retired(s', o) && Dropped(s, o) <= Dropped(s', o)
  {
    var s' := Next(s, now, a);
    match a
    case Logout(jti) => CountUpdate(s.tokens, jti, s'.tokens[jti], IsRetired(o));
    case Advance(i) => PerformMoves(s, now, s.procs[i], o);
    case _ =>
  }

  /**
   What can be live after a revoke-all: only what logs in later, and the rotations that had already won when it
   ran.
   */
  lemma LiveAfterRevokeAll(s: State, now: nat, i: nat, events: seq<Event>, s': State)
    requires Reachable(s) && Enabled(s, Advance(i)) && s.procs[i].RevokeAll?
    requires Runs(Next(s, now, Advance(i)), events, s')
    ensures var o := s.procs[i].owner;
            LiveTokens(s', o) + Pending(s', o) <= Pending(s, o) + (Logins(s', o) - Logins(s, o))
  {
    var o := s.procs[i].owner;
    var t := Next(s, now, Advance(i));
    SweepCounts(s, now, i);
    RunConserves(t, events, s', o);
    CountsGrow(t, events, s', o);
  }

  lemma SweepKeepsOthers(s: State, now: nat, i: nat, o: Subject)
    requires Enabled(s, Advance(i)) && s.procs[i].RevokeAll?
    ensures Pending(Next(s, now, Advance(i)), o) == Pending(s, o)
    ensures Logins(Next(s, now, Advance(i)), o) == Logins(s, o)
  {
    CountUpdate(s.procs, i, Finished, IsPending(o));
  }

  /** What a revoke-all leaves to count for its subject. */
  lemma SweepCounts(s: State, now: nat, i: nat)
    requires Reachable(s) && Enabled(s, Advance(i)) && s.procs[i].RevokeAll?
    ensures var o, t := s.procs[i].owner, Next(s, now, Advance(i));
      && Conserved(t, o) && LiveTokens(t, o) == 0 && Pending(t, o) == Pending(s, o) && Logins(t, o) == Logins(s, o)
  {
    var o := s.procs[i].owner;
    RotationConserves(s, o);
    NextConserves(s, now, Advance(i), o);
    RevokeAllIsComplete(s, now, i);
    SweepKeepsOthers(s, now, i, o);
  }

  // ---- When a token outlives a revoke-all ----------------------------------------------------------------

  /** Without another login, some continuation of `t` has a live token of the subject. */
  ghost predicate Revives(t: State, o: Subject) {
    exists events, s' :: Runs(t, events, s') && Logins(s', o) == Logins(t, o) && LiveTokens(s', o) > 0
  }

  lemma RevivesBefore(t: State, e: Event, o: Subject)
    requires Enabled(t, e.action) && Logins(Next(t, e.now, e.action), o) == Logins(t, o)
    requires Revives(Next(t, e.now, e.action), o)
    ensures Revives(t, o)
  {
    var events, s' :| && Runs(Next(t, e.now, e.action), events, s') && LiveTokens(s', o) > 0
                      && Logins(s', o) == Logins(Next(t, e.now, e.action), o);
    assert ([e] + events)[1..] == events;
    assert Runs(t, [e] + events, s');
  }

  lemma InsertRevives(t: State, j: nat, o: Subject)
    requires j < |t.procs| && t.procs[j].Insert? && t.procs[j].owner == o
    ensures Revives(t, o)
  {
    var s' := Next(t, 0, Advance(j));
    CountAppend(t.tokens, Token(o, REFRESH_TTL_MS, false, None, t.procs[j].parent), IsLive(o));
    assert Runs(s', [], s') && Revives(s', o);
    RevivesBefore(t, Event(0, Advance(j)), o);
  }

  /** A login or a won rotation in flight can finish, whether or not the account is active now. */
  lemma PendingRevives(t: State, o: Subject)
    requires Pending(t, o) > 0
    ensures Revives(t, o)
  {
    var j := CountWitness(t.procs, IsPending(o));
    if t.procs[j].Insert? {
      InsertRevives(t, j, o);
    } else {
      var activated := Next(t, 0, SetActive(o, true));
      InsertRevives(Next(activated, 0, Advance(j)), j, o);
      RevivesBefore(activated, Event(0, Advance(j)), o);
      RevivesBefore(t, Event(0, SetActive(o, true)), o);
    }
  }

  /**
   "No live token after reuse detection" holds of a revoke-all exactly when none of the subject's logins or won
   rotations stands between its revocation and its insert.
   */
  lemma OutlivesRevokeAllExactly(s: State, now: nat, i: nat)
    requires Reachable(s) && Enabled(s, Advance(i)) && s.procs[i].RevokeAll?
    ensures Revives(Next(s, now, Advance(i)), s.procs[i].owner) <==> Pending(s, s.procs[i].owner) > 0
  {
    var o, t := s.procs[i].owner, Next(s, now, Advance(i));
    CountUpdate(s.procs, i, Finished, IsPending(o));
    if Pending(s, o) > 0 {
      PendingRevives(t, o);
    } else if Revives(t, o) {
      var events, s' :| Runs(t, events, s') && Logins(s', o) == Logins(t, o) && LiveTokens(s', o) > 0;
      LiveAfterRevokeAll(s, now, i, events, s');
    }
  }

  // ---- What single requests come to ----------------------------------------------------------------------

  /** A logout ends its token: one live token fewer for the owner, as many for others, and never a successor. */
  lemma LogoutEndsToken(s: State, now: nat, jti: nat, o: Subject, events: seq<Event>, s': State)
    requires Reachable(s) && jti < |s.tokens| && s.tokens[jti].revokedBy.None?
    requires Runs(Next(s, now, Logout(jti)), events, s')
    ensures var t := Next(s, now, Logout(jti));
      && t.tokens[jti].revokedBy.Some?
      && LiveTokens(t, o) == LiveTokens(s, o) - if o == s.tokens[jti].owner then 1 else 0
    ensures Successors(s', jti) == 0
  {
    var t := Next(s, now, Logout(jti));
    CountUpdate(s.tokens, jti, t.tokens[jti], IsLive(o));
    var before :| Runs(Initial(), before, s);
    RunMintsOnce(Initial(), before, s, jti);
    NextMintsOnce(s, now, Logout(jti), jti);
    RunForward(t, events, s');
    RunMintsOnce(t, events, s', jti);
  }

  /** A request that finds its token revoked, or loses the race for it, leaves the owner without live tokens. */
  lemma ReuseSweeps(s: State, now: nat, i: nat)
    requires Enabled(s, Advance(i)) && (s.procs[i].Find? || s.procs[i].Revoke?)
    requires s.procs[i].jti < |s.tokens| && s.tokens[s.procs[i].jti].revokedBy.Some?
    requires s.procs[i].Find? ==> now <= s.tokens[s.procs[i].jti].expiresAt
    ensures var t, o := Next(s, now, Advance(i)), s.tokens[s.procs[i].jti].owner;
      && Enabled(t, Advance(i))
      && LiveTokens(Next(t, now, Advance(i)), o) == 0
      && forall j :: 0 <= j < |s.tokens| && s.tokens[j].owner == o ==>
           Next(t, now, Advance(i)).tokens[j].revokedBy.Some?
  {
    RevokeAllIsComplete(Next(s, now, Advance(i)), now, i);
  }

  /** So does the new password of a student. */
  lemma NewPasswordSweeps(s: State, now: nat, userId: string)
    ensures var t, i := Next(s, now, PasswordReplaced(userId)), |s.procs|;
            Enabled(t, Advance(i)) && LiveTokens(Next(t, now, Advance(i)), Student(userId)) == 0
  {
    RevokeAllIsComplete(Next(s, now, PasswordReplaced(userId)), now, |s.procs|);
  }

  /** A login brings one live token, for a week. */
  lemma LoginMints(s: State, now: nat, o: Subject)
    ensures var t, i := Next(s, now, Login(o)), |s.procs|;
      && Enabled(t, Advance(i))
      && var u := Next(t, now, Advance(i));
         && LiveTokens(u, o) == LiveTokens(s, o) + 1
         && u.tokens == s.tokens + [Token(o, now + 7 * 24 * 60 * 60 * 1000, false, None, None)]
         && Enabled(u, Advance(i))
         && Next(u, now, Advance(i)).tokens == s.tokens + [Token(o, now + 7 * 24 * 60 * 60 * 1000, true, None, None)]
  {
    CountAppend(s.tokens, Token(o, now + REFRESH_TTL_MS, false, None, None), IsLive(o));
  }

  // ---- A run in which a token outlives reuse detection ---------------------------------------------------

  lemma {:induction false} Extend(s: State, events: seq<Event>, t: State, e: Event)
    requires Runs(s, events, t) && Enabled(t, e.action)
    ensures Runs(s, events + [e], Next(t, e.now, e.action))
    decreases |events|
  {
    if events == [] {
      assert (events + [e])[1..] == [];
    } else {
      assert (events + [e])[1..] == events[1..] + [e];
      Extend(Next(s, events[0].now, events[0].action), events[1..], t, e);
    }
  }

  function First(o: Subject, revokedBy: Option<Cause>, hashed: bool): Token {
    Token(o, REFRESH_TTL_MS, hashed, revokedBy, None)
  }

  /** One login, whose token is presented twice. */
  function Script(o: Subject): seq<Action> {
    [Login(o), Advance(0), Advance(0), Refresh(0, true), Advance(1), Advance(1), Refresh(0, true), Advance(2)]
  }

  function Scene(o: Subject, k: nat): State {
    var token := First(o, if k < 6 then None else Some(Rotation), k >= 3);
    var login := if k == 1 then Insert(o, None) else if k == 2 then StoreHash(0) else Finished;
    var rotation := if k == 4 then Find(0, true) else if k == 5 then Revoke(0) else FindOwner(o, 0);
    var reuse := if k == 7 then Find(0, true) else RevokeAll(o);
    State(
      if k < 2 then [] else [token], {},
      (if k < 1 then [] else [login]) + (if k < 4 then [] else [rotation]) + (if k < 7 then [] else [reuse]),
      if k < 1 then [] else [o], [])
  }

  lemma SceneFollows(o: Subject, k: nat)
    requires k < 8
    ensures Enabled(Scene(o, k), Script(o)[k]) && Next(Scene(o, k), 0, Script(o)[k]) == Scene(o, k + 1)
  {
  }

  /** One rotation of the token has won, and the other request has seen it revoked. */
  lemma ReuseRace(o: Subject) returns (events: seq<Event>, s: State)
    ensures Runs(Initial(), events, s)
    ensures s == State([First(o, Some(Rotation), true)], {}, [Finished, FindOwner(o, 0), RevokeAll(o)], [o], [])
  {
    events, s := [], Scene(o, 0);
    for k := 0 to 8
      invariant Runs(Initial(), events, s) && s == Scene(o, k)
    {
      var e := Event(0, Script(o)[k]);
      SceneFollows(o, k);
      Extend(Initial(), events, s, e);
      events, s := events + [e], Scene(o, k + 1);
    }
  }

  /** "No live token after reuse detection" is not guaranteed: the rotation that had already won still mints. */
  lemma LiveTokenAfterReuse(o: Subject)
    ensures exists before, s: State, after, s', i: nat ::
              && Runs(Initial(), before, s) && Enabled(s, Advance(i)) && s.procs[i] == RevokeAll(o)
              && Runs(Next(s, 0, Advance(i)), after, s') && Logins(s', o) == Logins(s, o)
              && LiveTokens(s', o) == 1
  {
    var before, s := ReuseRace(o);
    var swept := Next(s, 0, Advance(2));
    assert swept == State([First(o, Some(Rotation), true)], {}, [Finished, FindOwner(o, 0), Finished], [o], []);
    var mint := Event(0, Advance(1));
    Extend(swept, [], swept, mint);
    var t := Next(swept, 0, Advance(1));
    Extend(swept, [] + [mint], t, mint);
    var s' := Next(t, 0, Advance(1));
    assert s'.tokens == [First(o, Some(Rotation), true), Token(o, REFRESH_TTL_MS, false, None, Some(0))];
    CountAppend([s'.tokens[0]], s'.tokens[1], IsLive(o));
    assert [s'.tokens[0]] + [s'.tokens[1]] == s'.tokens;
    assert s.procs[2] == RevokeAll(o) && Enabled(s, Advance(2));
    assert Runs(swept, [] + [mint] + [mint], s');
  }
}
