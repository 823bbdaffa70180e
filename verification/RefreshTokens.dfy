/**
 Refresh-token rotation of `auth.service.ts` as the interleaving of its database calls. A row of
 `refresh_tokens` is identified by its serial id, its index here. `revokedBy` is the `revoked_at` column,
 annotated with the statement that set it; `parent` is the row whose rotation minted this one.
 */
module RefreshTokens {
  import opened Wrappers

  datatype Subject = Student(id: string) | Admin(id: string)

  datatype Cause = Rotation | Revocation

  datatype Token = Token(
    owner: Subject, expiresAt: nat, hashed: bool, revokedBy: Option<Cause>, parent: Option<nat>)

  /** The next awaited call of a request in flight. */
  datatype Proc =
    | Finished
    | Find(jti: nat, genuine: bool)
    | Revoke(jti: nat)
    | FindOwner(owner: Subject, jti: nat)
    | Insert(owner: Subject, parent: Option<nat>)
    | StoreHash(jti: nat)
    | RevokeAll(owner: Subject)

  /** A rotation that revoked its token and then found the account inactive. */
  datatype Abandoned = Abandoned(owner: Subject, jti: nat)

  datatype State = State(
    tokens: seq<Token>, inactive: set<Subject>, procs: seq<Proc>,
    logins: seq<Subject>, abandoned: seq<Abandoned>)

  /**
   A refresh presents a token this service signed, so its payload names the owner of a row that exists;
   `genuine` is whether the raw token is the one whose hash that row will hold. A password reset or change
   arrives here when its own checks are behind it.
   */
  datatype Action =
    | Login(owner: Subject)
    | Refresh(jti: nat, genuine: bool)
    | Logout(jti: nat)
    | PasswordReplaced(userId: string)
    | SetActive(owner: Subject, active: bool)
    | Advance(i: nat)

  const REFRESH_TTL_MS: nat := 604_800_000

  function Initial(): State {
    State([], {}, [], [], [])
  }

  predicate Enabled(s: State, a: Action) {
    match a
    case Login(_) => true
    case Refresh(jti, _) => jti < |s.tokens|
    case Logout(jti) => jti < |s.tokens|
    case PasswordReplaced(_) => true
    case SetActive(_, _) => true
    case Advance(i) => i < |s.procs| && !s.procs[i].Finished?
  }

  function Revoked(t: Token, cause: Cause): Token {
    if t.revokedBy.None? then t.(revokedBy := Some(cause)) else t
  }

  /** `UPDATE … SET revoked_at WHERE owner AND revoked_at IS NULL`. */
  function RevokeOwned(tokens: seq<Token>, owner: Subject): (r: seq<Token>)
    ensures |r| == |tokens|
    ensures forall i :: 0 <= i < |tokens| ==>
              r[i] == if tokens[i].owner == owner then Revoked(tokens[i], Revocation) else tokens[i]
  {
    seq(|tokens|, i requires 0 <= i < |tokens| =>
      if tokens[i].owner == owner then Revoked(tokens[i], Revocation) else tokens[i])
  }

  function Perform(s: State, now: nat, p: Proc): (State, Proc)
    requires !p.Finished?
  {
    match p
    case Find(jti, genuine) =>
      (s, if jti >= |s.tokens| || s.tokens[jti].expiresAt < now then Finished
          else if s.tokens[jti].revokedBy.Some? then RevokeAll(s.tokens[jti].owner)
          else if genuine && s.tokens[jti].hashed then Revoke(jti) else Finished)
    case Revoke(jti) =>
      if jti >= |s.tokens| then (s, Finished)
      else if s.tokens[jti].revokedBy.Some? then (s, RevokeAll(s.tokens[jti].owner))
      else (s.(tokens := s.tokens[jti := Revoked(s.tokens[jti], Rotation)]), FindOwner(s.tokens[jti].owner, jti))
    case FindOwner(owner, jti) =>
      if owner in s.inactive then (s.(abandoned := s.abandoned + [Abandoned(owner, jti)]), Finished)
      else (s, Insert(owner, Some(jti)))
    case Insert(owner, parent) =>
      (s.(tokens := s.tokens + [Token(owner, now + REFRESH_TTL_MS, false, None, parent)]), StoreHash(|s.tokens|))
    case StoreHash(jti) =>
      (if jti < |s.tokens| then s.(tokens := s.tokens[jti := s.tokens[jti].(hashed := true)]) else s, Finished)
    case RevokeAll(owner) =>
      (s.(tokens := RevokeOwned(s.tokens, owner)), Finished)
  }

  function Arrive(s: State, p: Proc): State {
    s.(procs := s.procs + [p])
  }

  function Next(s: State, now: nat, a: Action): State
    requires Enabled(s, a)
  {
    match a
    case Login(owner) => Arrive(s, Insert(owner, None)).(logins := s.logins + [owner])
    case Refresh(jti, genuine) => Arrive(s, Find(jti, genuine))
    case Logout(jti) => s.(tokens := s.tokens[jti := Revoked(s.tokens[jti], Revocation)])
    case PasswordReplaced(userId) => Arrive(s, RevokeAll(Student(userId)))
    case SetActive(owner, active) =>
      s.(inactive := if active then s.inactive - {owner} else s.inactive + {owner})
    case Advance(i) =>
      var (t, q) := Perform(s, now, s.procs[i]);
      t.(procs := s.procs[i := q])
  }

  datatype Event = Event(now: nat, action: Action)

  /** `s'` is reached from `s` by performing `events`. */
  ghost predicate Runs(s: State, events: seq<Event>, s': State)
    decreases |events|
  {
    if events == [] then s' == s
    else Enabled(s, events[0].action) && Runs(Next(s, events[0].now, events[0].action), events[1..], s')
  }

  ghost predicate Reachable(s: State) {
    exists events :: Runs(Initial(), events, s)
  }
}
