/** `test-session.service.ts` over the shared keyspace, and the keyspace bridge of `redis.module.ts`. */
module TestSessions {
  import opened Wrappers
  import opened ExamData
  import opened RedisStore
  import opened SessionProtocol

  const EXAM_SESSION_PREFIX := "exam:session:"
  const EXAM_GRACE_PREFIX := "exam:grace:"

  datatype Json = SessionJson(data: SessionData) | GraceJson(snapshot: Answers)

  function SessionKey(sessionId: string): string {
    EXAM_SESSION_PREFIX + sessionId
  }

  function GraceKey(sessionId: string): string {
    EXAM_GRACE_PREFIX + sessionId
  }

  datatype Notice = SessionNotice(sessionId: string) | GraceNotice(sessionId: string) | OtherNotice

  /** What the subscriber makes of the name of an expired key. */
  function Route(key: string): Notice {
    if StartsWith(key, EXAM_SESSION_PREFIX) then SessionNotice(key[|EXAM_SESSION_PREFIX|..])
    else if StartsWith(key, EXAM_GRACE_PREFIX) then GraceNotice(key[|EXAM_GRACE_PREFIX|..])
    else OtherNotice
  }

  /** Every expiry notification reaches the handler of its own kind and session, and no other. */
  lemma RouteInvertsKeys(key: string, sessionId: string)
    ensures Route(key) == SessionNotice(sessionId) <==> key == SessionKey(sessionId)
    ensures Route(key) == GraceNotice(sessionId) <==> key == GraceKey(sessionId)
  {
    var n, m := |EXAM_SESSION_PREFIX|, |EXAM_GRACE_PREFIX|;
    assert StartsWith(key, EXAM_SESSION_PREFIX) ==> key == EXAM_SESSION_PREFIX + key[n..];
    assert StartsWith(key, EXAM_GRACE_PREFIX) ==> key == EXAM_GRACE_PREFIX + key[m..];
    assert SessionKey(sessionId)[..n] == EXAM_SESSION_PREFIX && SessionKey(sessionId)[n..] == sessionId;
    assert GraceKey(sessionId)[..m] == EXAM_GRACE_PREFIX && GraceKey(sessionId)[m..] == sessionId;
    assert GraceKey(sessionId)[5] == 'g' && EXAM_SESSION_PREFIX[5] == 's';
  }

  /** The names of the keys. */
  lemma KeysAreNamed(sessionId: string)
    ensures Route("exam:session:" + sessionId) == SessionNotice(sessionId)
    ensures Route("exam:grace:" + sessionId) == GraceNotice(sessionId)
  {
    RouteInvertsKeys("exam:session:" + sessionId, sessionId);
    RouteInvertsKeys("exam:grace:" + sessionId, sessionId);
  }

  lemma KeysAreDistinct(a: string, b: string)
    ensures SessionKey(a) != GraceKey(b)
    ensures a != b ==> SessionKey(a) != SessionKey(b) && GraceKey(a) != GraceKey(b)
  {
    RouteInvertsKeys(SessionKey(a), a);
    RouteInvertsKeys(SessionKey(b), b);
    RouteInvertsKeys(GraceKey(a), a);
    RouteInvertsKeys(GraceKey(b), b);
  }

  predicate Apart(a: string, b: string) {
    && SessionKey(a) != GraceKey(b) && GraceKey(a) != SessionKey(b)
    && (a != b ==> SessionKey(a) != SessionKey(b) && GraceKey(a) != GraceKey(b))
  }

  lemma KeysApart(sessionId: string)
    ensures forall other {:trigger SessionKey(other)} {:trigger GraceKey(other)} :: Apart(sessionId, other)
  {
    forall other: string
      ensures Apart(sessionId, other)
    {
      KeysAreDistinct(sessionId, other);
      KeysAreDistinct(other, sessionId);
    }
  }

  function SessionSlot(slot: Slot<Json>): Slot<SessionData> {
    if slot.Some? && slot.value.value.SessionJson?
    then Some(Entry(slot.value.value.data, slot.value.deadline)) else None
  }

  function GraceSlot(slot: Slot<Json>): Slot<Answers> {
    if slot.Some? && slot.value.value.GraceJson?
    then Some(Entry(slot.value.value.snapshot, slot.value.deadline)) else None
  }

  class TestSessionService {
    const redis: RedisService<Json>

    constructor (redis: RedisService<Json>)
      ensures this.redis == redis
    {
      this.redis := redis;
    }

    ghost function SessionOf(sessionId: string): Slot<SessionData>
      reads this, redis
    {
      SessionSlot(redis.SlotOf(SessionKey(sessionId)))
    }

    ghost function GraceOf(sessionId: string): Slot<Answers>
      reads this, redis
    {
      GraceSlot(redis.SlotOf(GraceKey(sessionId)))
    }

    /** Only session JSON lives under session keys, and only snapshots under grace keys. */
    ghost predicate Valid()
      reads this, redis
    {
      forall sid ::
        && (redis.SlotOf(SessionKey(sid)).Some? ==> redis.SlotOf(SessionKey(sid)).value.value.SessionJson?)
        && (redis.SlotOf(GraceKey(sid)).Some? ==> redis.SlotOf(GraceKey(sid)).value.value.GraceJson?)
    }

    /** Only these two keys changed, and their overdue entries were announced once. */
    twostate predicate Left(sessionId: string, session: Slot<SessionData>, grace: Slot<Answers>,
                            keyEvents: nat, graceEvents: nat)
      reads this, redis
    {
      && Valid()
      && redis.now == old(redis.now)
      && SessionOf(sessionId) == session
      && GraceOf(sessionId) == grace
      && redis.published[SessionKey(sessionId)] == old(redis.published[SessionKey(sessionId)]) + keyEvents
      && redis.published[GraceKey(sessionId)] == old(redis.published[GraceKey(sessionId)]) + graceEvents
      && (forall other :: other != sessionId ==>
            && SessionOf(other) == old(SessionOf(other))
            && GraceOf(other) == old(GraceOf(other))
            && redis.published[SessionKey(other)] == old(redis.published[SessionKey(other)])
            && redis.published[GraceKey(other)] == old(redis.published[GraceKey(other)]))
    }

    /** `answer` is what becomes of the command: it may be carried out without the caller learning of it. */
    method Start(id: Identity, answer: Reply) returns (reply: Result<(), string>)
      requires Valid()
      modifies redis
      ensures reply.Ok? <==> answer.Stored? && id.durationSeconds > 0
      ensures !answer.Refused? && id.durationSeconds > 0 ==>
                Left(id.sessionId, SetEx(FreshData(id), id.durationSeconds, old(redis.now)), old(GraceOf(id.sessionId)),
                     Fired(old(SessionOf(id.sessionId)), old(redis.now)), 0)
      ensures answer.Refused? || id.durationSeconds <= 0 ==> unchanged(redis)
    {
      reply := Err("connection refused");
      if !answer.Refused? {
        reply := redis.SetJson(SessionKey(id.sessionId), SessionJson(FreshData(id)), id.durationSeconds);
      }
      if reply.Ok? && answer.StoredButLost? {
        reply := Err("connection lost");
      }
      KeysApart(id.sessionId);
    }

    method GetSession(sessionId: string) returns (found: Option<SessionData>)
      requires Valid()
      modifies redis
      ensures Left(sessionId, Live(old(SessionOf(sessionId)), old(redis.now)), old(GraceOf(sessionId)),
                   Fired(old(SessionOf(sessionId)), old(redis.now)), 0)
      ensures found == match Live(old(SessionOf(sessionId)), old(redis.now))
                       case None => None case Some(e) => Some(e.value)
    {
      var json := redis.GetJson(SessionKey(sessionId));
      KeysApart(sessionId);
      found := if json.Some? then Some(json.value.data) else None;
    }

    /** The write of `autosave`, after its read saw `seen`. */
    method Overwrite(sessionId: string, seen: SessionData, answers: Answers) returns (saved: bool)
      requires Valid()
      modifies redis
      ensures saved <==> Live(old(SessionOf(sessionId)), old(redis.now)).Some?
      ensures Left(sessionId, SetKeepTtl(old(SessionOf(sessionId)), seen.(answers := answers), old(redis.now)),
                   old(GraceOf(sessionId)), Fired(old(SessionOf(sessionId)), old(redis.now)), 0)
    {
      var json := SessionJson(seen.(answers := answers));
      saved := redis.SetJsonKeepTtl(SessionKey(sessionId), json);
      KeysApart(sessionId);
    }

    method DeleteSession(sessionId: string)
      requires Valid()
      modifies redis
      ensures Left(sessionId, None, old(GraceOf(sessionId)), Fired(old(SessionOf(sessionId)), old(redis.now)), 0)
    {
      redis.Del(SessionKey(sessionId));
      KeysApart(sessionId);
    }

    method StartGrace(sessionId: string, snapshot: Answers)
      requires Valid()
      modifies redis
      ensures Left(sessionId, old(SessionOf(sessionId)), SetEx(snapshot, GRACE_WINDOW_SECONDS, old(redis.now)),
                   0, Fired(old(GraceOf(sessionId)), old(redis.now)))
    {
      var reply := redis.SetJson(GraceKey(sessionId), GraceJson(snapshot), GRACE_WINDOW_SECONDS);
      KeysApart(sessionId);
    }

    method ConsumeGrace(sessionId: string) returns (snapshot: Option<Answers>)
      requires Valid()
      modifies redis
      ensures Left(sessionId, old(SessionOf(sessionId)), None, 0, Fired(old(GraceOf(sessionId)), old(redis.now)))
      ensures snapshot == match Live(old(GraceOf(sessionId)), old(redis.now))
                          case None => None case Some(e) => Some(e.value)
    {
      var json := redis.GetDelJson(GraceKey(sessionId));
      KeysApart(sessionId);
      snapshot := if json.Some? then Some(json.value.snapshot) else None;
    }
  }
}
