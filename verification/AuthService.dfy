/** `auth.service.ts`, statement by statement: the token methods, run alone. */
module AuthService {
  import opened Counting
  import opened Wrappers
  import opened RefreshTokens
  import One = AuthTokens

  datatype Failure = BadRequest | Unauthorized

  function Work(p: Proc): nat {
    match p
    case Finished => 0
    case Find(_, _) => 5
    case Revoke(_) => 4
    case FindOwner(_, _) => 3
    case Insert(_, _) => 2
    case StoreHash(_) => 1
    case RevokeAll(_) => 1
  }

  /** A request of the rotation protocol, run to its end with nothing in between. */
  function Solo(s: State, now: nat, p: Proc): State
    decreases Work(p)
  {
    if p.Finished? then s
    else var (t, q) := Perform(s, now, p); Solo(t, now, q)
  }

  lemma SoloStep(s: State, now: nat, p: Proc)
    requires !p.Finished?
    ensures var (t, q) := Perform(s, now, p);
            Solo(s, now, p) == Solo(t, now, q) && (q.Finished? ==> Solo(s, now, p) == t)
  {
  }

  lemma {:induction false} CountSuffix(rows: seq<One.AuthToken>, a: nat, b: nat, purpose: One.Purpose)
    requires a <= b <= |rows|
    ensures Count(rows[b..], One.IsUnused(purpose)) <= Count(rows[a..], One.IsUnused(purpose))
    decreases b - a
  {
    if a == b {
    } else {
      CountSuffix(rows, a + 1, b, purpose);
      assert rows[a..][1..] == rows[a + 1..];
    }
  }

  /** The ids of the unused rows of the purpose from row `k` on, newest first. */
  ghost predicate Collected(rows: seq<One.AuthToken>, purpose: One.Purpose, ids: seq<nat>, k: nat) {
    && k <= |rows| && |ids| == Count(rows[k..], One.IsUnused(purpose))
    && (forall i: nat :: i in ids <==> k <= i < |rows| && rows[i].purpose == purpose && rows[i].usedBy.None?)
    && (forall a, b :: 0 <= a < b < |ids| ==> ids[a] > ids[b])
  }

  lemma CollectNext(rows: seq<One.AuthToken>, purpose: One.Purpose, ids: seq<nat>, k: nat)
    requires k < |rows| && Collected(rows, purpose, ids, k + 1)
    ensures var unused := rows[k].purpose == purpose && rows[k].usedBy.None?;
            Collected(rows, purpose, if unused then ids + [k] else ids, k)
  {
    assert rows[k..][1..] == rows[k + 1..];
    assert forall a :: 0 <= a < |ids| ==> ids[a] in ids;
  }

  /** Once there are fifty, or no rows are left, these are the candidates. */
  lemma CollectedAll(rows: seq<One.AuthToken>, purpose: One.Purpose, ids: seq<nat>, k: nat)
    requires Collected(rows, purpose, ids, k) && |ids| <= One.CANDIDATES && (k == 0 || |ids| == One.CANDIDATES)
    ensures One.AreCandidates(rows, purpose, ids)
  {
    forall i: nat
      ensures i in ids <==> One.IsCandidate(rows, i, purpose)
    {
      if i < k {
        CountSuffix(rows, i + 1, k, purpose);
      } else if i < |rows| {
        CountSuffix(rows, k, i, purpose);
        assert rows[i..][1..] == rows[i + 1..];
      }
    }
  }

  class AuthService {
    var tokens: seq<Token>
    var inactive: set<Subject>
    var authTokens: seq<One.AuthToken>
    /** The students and the password each hash was made from. */
    var passwords: map<string, string>
    var now: nat

    constructor ()
      ensures tokens == [] && inactive == {} && authTokens == [] && passwords == map[]
    {
      tokens, inactive, authTokens, passwords, now := [], {}, [], map[], 0;
    }

    ghost function Store(): State
      reads this
    {
      State(tokens, inactive, [], [], [])
    }

    /** Only the refresh tokens changed, and as the request leaves them when it runs alone. */
    twostate predicate Ran(p: Proc)
      reads this
    {
      && tokens == Solo(old(Store()), now, p).tokens
      && inactive == old(inactive) && authTokens == old(authTokens) && passwords == old(passwords) && now == old(now)
    }

    /** From the rows `before`, every unrevoked row of the owner was revoked, and no other row changed. */
    predicate Swept(before: seq<Token>, owner: Subject)
      reads this
    {
      && |tokens| == |before|
      && forall j :: 0 <= j < |before| ==>
           tokens[j] == if before[j].owner == owner && before[j].revokedBy.None?
                        then before[j].(revokedBy := Some(Revocation)) else before[j]
    }

    method RevokeAllRefreshTokens(owner: Subject)
      modifies this
      ensures Ran(RevokeAll(owner))
      ensures Swept(old(tokens), owner)
    {
      var updated: seq<Token> := [];
      for i := 0 to |tokens|
        invariant tokens == old(tokens) && inactive == old(inactive)
        invariant authTokens == old(authTokens) && passwords == old(passwords) && now == old(now)
        invariant updated == RevokeOwned(tokens, owner)[..i]
      {
        updated := updated + [if tokens[i].owner == owner then Revoked(tokens[i], Revocation) else tokens[i]];
      }
      tokens := updated;
    }

    method IssueRefreshToken(owner: Subject, parent: Option<nat>) returns (jti: nat)
      modifies this
      ensures Ran(Insert(owner, parent))
      ensures jti == old(|tokens|) && |tokens| == jti + 1 && tokens[..jti] == old(tokens)
      ensures tokens[jti] == Token(owner, now + 604_800_000, true, None, parent)
    {
      jti := |tokens|;
      SoloStep(Store(), now, Insert(owner, parent));
      tokens := tokens + [Token(owner, now + REFRESH_TTL_MS, false, None, parent)];
      SoloStep(Store(), now, StoreHash(jti));
      tokens := tokens[jti := tokens[jti].(hashed := true)];
    }

    /** The presented token can be rotated: stored, unexpired, unrevoked, and the one the hash was made from. */
    predicate Rotatable(jti: nat, genuine: bool)
      reads this
    {
      jti < |tokens| && tokens[jti].expiresAt >= now && tokens[jti].revokedBy.None? && tokens[jti].hashed && genuine
    }

    method Refresh(jti: nat, genuine: bool) returns (r: Result<nat, Failure>)
      modifies this
      ensures Ran(Find(jti, genuine))
      ensures r.Ok? <==> old(Rotatable(jti, genuine) && tokens[jti].owner !in inactive)
      ensures var t := old(tokens);
        if jti >= |t| || t[jti].expiresAt < now then r.Err? && tokens == t
        else if t[jti].revokedBy.Some? then r.Err? && Swept(t, t[jti].owner)
        else if !genuine || !t[jti].hashed then r.Err? && tokens == t
        else
          var rotated := t[jti := t[jti].(revokedBy := Some(Rotation))];
          if t[jti].owner in inactive then r.Err? && tokens == rotated
          else
            && r == Ok(|t|)
            && tokens == rotated + [Token(t[jti].owner, now + 604_800_000, true, None, Some(jti))]
    {
      SoloStep(Store(), now, Find(jti, genuine));
      if jti >= |tokens| || tokens[jti].expiresAt < now {
        return Err(Unauthorized);
      }
      var stored := tokens[jti];
      if stored.revokedBy.Some? {
        RevokeAllRefreshTokens(stored.owner);
        return Err(Unauthorized);
      }
      if !genuine || !stored.hashed {
        return Err(Unauthorized);
      }
      SoloStep(Store(), now, Revoke(jti));
      tokens := tokens[jti := Revoked(tokens[jti], Rotation)];
      SoloStep(Store(), now, FindOwner(stored.owner, jti));
      if stored.owner in inactive {
        return Err(Unauthorized);
      }
      var issued := IssueRefreshToken(stored.owner, Some(jti));
      r := Ok(issued);
    }

    method Logout(jti: nat)
      modifies this
      ensures jti < old(|tokens|) ==> tokens == Next(old(Store()), now, RefreshTokens.Logout(jti)).tokens
      ensures var t := old(tokens);
        && (jti < |t| && t[jti].revokedBy.None? ==> tokens == t[jti := t[jti].(revokedBy := Some(Revocation))])
        && (jti >= |t| || t[jti].revokedBy.Some? ==> tokens == t)
      ensures inactive == old(inactive)
      ensures authTokens == old(authTokens) && passwords == old(passwords) && now == old(now)
    {
      if jti < |tokens| {
        tokens := tokens[jti := Revoked(tokens[jti], Revocation)];
      }
    }

    method FindCandidates(purpose: One.Purpose) returns (ids: seq<nat>)
      ensures One.AreCandidates(authTokens, purpose, ids)
    {
      ids := [];
      var k := |authTokens|;
      while k > 0 && |ids| < One.CANDIDATES
        invariant 0 <= k <= |authTokens| && |ids| <= One.CANDIDATES
        invariant Collected(authTokens, purpose, ids, k)
      {
        k := k - 1;
        CollectNext(authTokens, purpose, ids, k);
        if authTokens[k].purpose == purpose && authTokens[k].usedBy.None? {
          ids := ids + [k];
        }
      }
      CollectedAll(authTokens, purpose, ids, k);
    }

    /**
     Succeeds exactly when a matching row of the purpose is unused, unexpired and has fewer than fifty newer
     unused rows of its purpose; it then consumes the newest such row and changes nothing else.
     */
    method ConsumeAuthToken(secret: string, purpose: One.Purpose) returns (r: Result<string, Failure>)
      modifies this
      ensures r.Err? ==> forall i: nat :: !One.Redeemable(old(authTokens), i, secret, purpose, now)
      ensures r.Ok? ==> exists i: nat ::
                && One.Redeemable(old(authTokens), i, secret, purpose, now)
                && (forall j: nat :: One.Redeemable(old(authTokens), j, secret, purpose, now) ==> j <= i)
                && r.value == old(authTokens)[i].userId
                && authTokens == old(authTokens)[i := old(authTokens)[i].(usedBy := Some(One.Consumed))]
      ensures r.Err? ==> authTokens == old(authTokens)
      ensures One.Consumes(old(authTokens), now, secret, purpose, authTokens)
      ensures tokens == old(tokens) && inactive == old(inactive) && passwords == old(passwords) && now == old(now)
    {
      var candidates := FindCandidates(purpose);
      for k := 0 to |candidates|
        invariant unchanged(this)
        invariant forall j :: 0 <= j < k ==> !One.Redeemable(authTokens, candidates[j], secret, purpose, now)
      {
        assert candidates[k] in candidates;
        var row := authTokens[candidates[k]];
        if row.expiresAt < now {
          continue;
        }
        if row.secret == secret {
          var id := candidates[k];
          One.NewestConsumed(authTokens, now, secret, purpose, candidates, k);
          authTokens := authTokens[id := row.(usedBy := Some(One.Consumed))];
          return Ok(row.userId);
        }
      }
      One.NoneConsumed(authTokens, now, secret, purpose, candidates);
      r := Err(BadRequest);
    }

    /** `issueAuthToken`: at most one unused token of a purpose is left to the user, the new one. */
    method IssueAuthToken(userId: string, purpose: One.Purpose, secret: string, ttlMs: nat)
      modifies this
      ensures authTokens == One.SupersedeAll(old(authTokens), userId, purpose)
                            + [One.AuthToken(userId, purpose, secret, now + ttlMs, None)]
      ensures forall i :: 0 <= i < old(|authTokens|) ==>
                var before := old(authTokens)[i];
                authTokens[i] == if before.userId == userId && before.purpose == purpose && before.usedBy.None?
                                 then before.(usedBy := Some(One.Superseded)) else before
      ensures One.Alone(One.State(old(authTokens), [], []), now, One.Supersede(userId, purpose, secret, ttlMs),
                        One.State(authTokens, [], []))
      ensures forall i :: 0 <= i < |authTokens| - 1 ==>
                (authTokens[i].userId == userId && authTokens[i].purpose == purpose ==> authTokens[i].usedBy.Some?)
      ensures tokens == old(tokens) && inactive == old(inactive) && passwords == old(passwords) && now == old(now)
    {
      One.IssueLeads(One.State(authTokens, [], []), now, userId, purpose, secret, ttlMs);
      authTokens := One.SupersedeAll(authTokens, userId, purpose);
      authTokens := authTokens + [One.AuthToken(userId, purpose, secret, now + ttlMs, None)];
    }

    /** One redeemed token, the new password, and no session left; or nothing. */
    method ResetPassword(secret: string, newPassword: string) returns (r: Result<string, Failure>)
      modifies this
      ensures r.Err? <==> forall i: nat :: !One.Redeemable(old(authTokens), i, secret, One.PASSWORD_RESET, now)
      ensures r.Ok? ==> exists i: nat ::
                && One.Redeemable(old(authTokens), i, secret, One.PASSWORD_RESET, now)
                && r.value == old(authTokens)[i].userId
                && authTokens == old(authTokens)[i := old(authTokens)[i].(usedBy := Some(One.Consumed))]
      ensures r.Ok? ==>
                && passwords == (if r.value in old(passwords) then old(passwords)[r.value := newPassword]
                                 else old(passwords))
                && Swept(old(tokens), Student(r.value))
      ensures r.Err? ==> tokens == old(tokens) && authTokens == old(authTokens) && passwords == old(passwords)
      ensures inactive == old(inactive) && now == old(now)
    {
      r := ConsumeAuthToken(secret, One.PASSWORD_RESET);
      if r.Ok? {
        if r.value in passwords {
          passwords := passwords[r.value := newPassword];
        }
        SoloStep(Store(), now, RevokeAll(Student(r.value)));
        RevokeAllRefreshTokens(Student(r.value));
      }
    }

    /** A new password for an active student who knows the current one, and no session left; or nothing. */
    method ChangePassword(userId: string, currentPassword: string, newPassword: string) returns (r: Result<(), Failure>)
      modifies this
      ensures r == Err(BadRequest) <==> currentPassword == newPassword
      ensures r.Ok? <==>
                && currentPassword != newPassword && Student(userId) !in old(inactive)
                && userId in old(passwords) && old(passwords)[userId] == currentPassword
      ensures r.Ok? ==>
                && passwords == old(passwords)[userId := newPassword]
                && Swept(old(tokens), Student(userId))
      ensures r.Err? ==> tokens == old(tokens) && passwords == old(passwords)
      ensures authTokens == old(authTokens) && inactive == old(inactive) && now == old(now)
    {
      if currentPassword == newPassword {
        return Err(BadRequest);
      }
      if userId !in passwords || Student(userId) in inactive {
        return Err(Unauthorized);
      }
      if passwords[userId] != currentPassword {
        return Err(Unauthorized);
      }
      passwords := passwords[userId := newPassword];
      SoloStep(Store(), now, RevokeAll(Student(userId)));
      RevokeAllRefreshTokens(Student(userId));
      r := Ok(());
    }
  }
}
