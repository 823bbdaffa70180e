/**
 The key-value store behind `redis.service.ts`, one key at a time.

 A key is a `Slot`: absent, or an entry with an absolute deadline in milliseconds. A key whose deadline has
 passed is dead: every command that touches it first removes it and publishes its expiry notification, and
 the server may also do so by itself at any moment. Each command is a function on one slot; the class
 `RedisService` runs the commands on the whole keyspace and is proved against these functions.
 */
module RedisStore {
  import opened Wrappers

  datatype Entry<+V> = Entry(value: V, deadline: nat)

  type Slot<+V> = Option<Entry<V>>

  predicate Overdue<V>(slot: Slot<V>, now: nat) {
    slot.Some? && slot.value.deadline <= now
  }

  /** What a command sees of the key. */
  function Live<V>(slot: Slot<V>, now: nat): Slot<V> {
    if Overdue(slot, now) then None else slot
  }

  /** How many expiry notifications touching the key publishes: one if it was overdue. */
  function Fired<V>(slot: Slot<V>, now: nat): nat {
    if Overdue(slot, now) then 1 else 0
  }

  /** `SET key value EX ttl`; the server refuses a time-to-live that is not positive. */
  function SetEx<V>(value: V, ttlSeconds: nat, now: nat): Slot<V> {
    Some(Entry(value, now + ttlSeconds * 1000))
  }

  /** `SET key value KEEPTTL XX`. */
  function SetKeepTtl<V>(slot: Slot<V>, value: V, now: nat): Slot<V> {
    match Live(slot, now)
    case None => None
    case Some(entry) => Some(Entry(value, entry.deadline))
  }

  /** The keyspace, its clock, and the notifications published so far. */
  class RedisService<V> {
    var data: map<string, Entry<V>>
    var published: multiset<string>
    var now: nat

    constructor ()
      ensures data == map[] && published == multiset{} && now == 0
    {
      data, published, now := map[], multiset{}, 0;
    }

    ghost function SlotOf(key: string): (slot: Slot<V>)
      reads this
    {
      if key in data then Some(data[key]) else None
    }

    /** Only `key` was touched: its slot became `slot`, and its overdue entry was announced. */
    twostate predicate Touched(key: string, slot: Slot<V>)
      reads this
    {
      && now == old(now)
      && SlotOf(key) == slot
      && published[key] == old(published[key]) + Fired(old(SlotOf(key)), now)
      && (forall other :: other != key ==> SlotOf(other) == old(SlotOf(other)))
      && (forall other :: other != key ==> published[other] == old(published[other]))
    }

    method Evict(key: string)
      modifies this
      ensures Touched(key, Live(old(SlotOf(key)), now))
      ensures key in old(data) && old(data)[key].deadline <= now ==>
                data == old(data) - {key} && published == old(published) + multiset{key}
      ensures (key in old(data) ==> now < old(data)[key].deadline) ==> unchanged(this)
    {
      if key in data && data[key].deadline <= now {
        data := data - {key};
        published := published + multiset{key};
      }
    }

    method SetJson(key: string, value: V, ttlSeconds: int) returns (reply: Result<(), string>)
      modifies this
      ensures reply.Ok? <==> ttlSeconds > 0
      ensures reply.Ok? ==> Touched(key, SetEx(value, ttlSeconds, now))
      ensures reply.Ok? ==> data == old(data)[key := Entry(value, now + 1000 * ttlSeconds)]
      ensures reply.Ok? && key in old(data) && old(data)[key].deadline <= now ==>
                published == old(published) + multiset{key}
      ensures reply.Ok? && (key in old(data) ==> now < old(data)[key].deadline) ==> published == old(published)
      ensures reply.Err? ==> unchanged(this)
    {
      if ttlSeconds <= 0 {
        return Err("invalid expire time in 'set' command");
      }
      Evict(key);
      data := data[key := Entry(value, now + ttlSeconds * 1000)];
      assert data == old(data)[key := Entry(value, now + 1000 * ttlSeconds)];
      reply := Ok(());
    }

    method SetJsonKeepTtl(key: string, value: V) returns (written: bool)
      modifies this
      ensures written <==> Live(old(SlotOf(key)), now).Some?
      ensures Touched(key, SetKeepTtl(old(SlotOf(key)), value, now))
      ensures written <==> key in old(data) && now < old(data)[key].deadline
      ensures written ==> data == old(data)[key := Entry(value, old(data)[key].deadline)]
      ensures !written ==> key !in data && data == old(data) - {key}
    {
      Evict(key);
      written := key in data;
      if written {
        data := data[key := data[key].(value := value)];
      } else {
        assert data == old(data) - {key};
      }
    }

    method GetJson(key: string) returns (found: Option<V>)
      modifies this
      ensures Touched(key, Live(old(SlotOf(key)), now))
      ensures found == match Live(old(SlotOf(key)), now) case None => None case Some(entry) => Some(entry.value)
      ensures found == if key in old(data) && now < old(data)[key].deadline then Some(old(data)[key].value) else None
      ensures data == if found.Some? || key !in old(data) then old(data) else old(data) - {key}
    {
      Evict(key);
      found := if key in data then Some(data[key].value) else None;
    }

    method GetDelJson(key: string) returns (found: Option<V>)
      modifies this
      ensures Touched(key, None)
      ensures found == match Live(old(SlotOf(key)), now) case None => None case Some(entry) => Some(entry.value)
      ensures found == if key in old(data) && now < old(data)[key].deadline then Some(old(data)[key].value) else None
      ensures data == old(data) - {key}
    {
      Evict(key);
      found := if key in data then Some(data[key].value) else None;
      data := data - {key};
      assert data == old(data) - {key};
    }

    method Del(key: string)
      modifies this
      ensures Touched(key, None)
      ensures data == old(data) - {key}
      ensures published == old(published)
                           + if key in old(data) && old(data)[key].deadline <= now then multiset{key} else multiset{}
    {
      Evict(key);
      data := data - {key};
      assert data == old(data) - {key};
    }

    /** Remaining time-to-live in milliseconds, -2 for an absent key. */
    method Pttl(key: string) returns (ms: int)
      modifies this
      ensures Touched(key, Live(old(SlotOf(key)), now))
      ensures ms > 0 <==> Live(old(SlotOf(key)), now).Some?
      ensures ms > 0 <==> key in old(data) && now < old(data)[key].deadline
      ensures ms > 0 ==> ms == old(SlotOf(key)).value.deadline - now
      ensures ms <= 0 ==> ms == -2
    {
      Evict(key);
      ms := if key in data then data[key].deadline - now else -2;
    }
  }
}
