/** The Redis commands the stores use, over a database whose keys may carry an expiry. */
module RedisCommands {
  import opened Common

  /** A count written by INCR, or the end time written by SET. */
  datatype Value = Count(n: int) | Until(at: real)

  datatype Cell = Cell(value: Value, expiry: Option<real>)

  type Db = map<string, Cell>

  /** What TTL answers, as far as anyone asks: no key, a key that never expires, or one that will. */
  datatype TtlReply = Missing | Persistent | Expiring

  /** A cell whose expiry has been reached is gone, whether or not it was swept. */
  predicate Live(db: Db, name: string, now: real) {
    name in db && (db[name].expiry.None? || now < db[name].expiry.value)
  }

  /** INCR: creates at 1 without an expiry, keeps an existing expiry, refuses a non-integer. */
  function Incr(db: Db, name: string, now: real): Result<(Db, int)> {
    if !Live(db, name, now) then Ok((db[name := Cell(Count(1), None)], 1))
    else match db[name].value
      case Count(n) => Ok((db[name := db[name].(value := Count(n + 1))], n + 1))
      case Until(_) => Err
  }

  function Ttl(db: Db, name: string, now: real): TtlReply {
    if !Live(db, name, now) then Missing
    else if db[name].expiry.None? then Persistent
    else Expiring
  }

  function Expire(db: Db, name: string, seconds: int, now: real): Db {
    if Live(db, name, now) then db[name := db[name].(expiry := Some(now + seconds as real))] else db
  }

  function SetEx(db: Db, name: string, value: Value, seconds: int, now: real): Db {
    db[name := Cell(value, Some(now + seconds as real))]
  }

  function Get(db: Db, name: string, now: real): Option<Value> {
    if Live(db, name, now) then Some(db[name].value) else None
  }

  function Del(db: Db, names: set<string>): Db {
    db - names
  }
}

/** Where a limiter keeps its counts and locks: the two implementations of the store protocol. */
module AttemptStores {
  import opened Common
  import R = RedisCommands

  datatype Counter = Counter(failures: int, expiresAt: real)

  /** The state of a store. Both kinds answer the same five operations. */
  datatype Store =
    | Memory(counters: map<string, Counter>, locks: map<string, real>)
    | Redis(prefix: string, db: R.Db)
  {
    function AddFailure(key: string, window: real, now: real): Result<(Store, int)> {
      match this
      case Memory(counters, locks) =>
        var counter := if key in counters && now < counters[key].expiresAt
                       then counters[key] else Counter(0, now + window);
        var failures := counter.failures + 1;
        Ok((Memory(counters[key := counter.(failures := failures)], locks), failures))
      case Redis(prefix, db) =>
        var name := CountKey(prefix, key);
        match R.Incr(db, name, now)
        case Err => Err
        case Ok((db1, count)) =>
          var db2 := if R.Ttl(db1, name, now).Persistent?
                     then R.Expire(db1, name, RedisWindow(window), now) else db1;
          Ok((Redis(prefix, db2), count))
    }

    function ResetFailures(key: string): Store {
      match this
      case Memory(counters, locks) => Memory(counters - {key}, locks)
      case Redis(prefix, db) => Redis(prefix, R.Del(db, {CountKey(prefix, key)}))
    }

    function Lock(key: string, until: real, now: real): Store {
      match this
      case Memory(counters, locks) => Memory(counters, locks[key := until])
      case Redis(prefix, db) =>
        var ttl := Max(1, Truncate(until - now) + 1);
        Redis(prefix, R.SetEx(db, LockKey(prefix, key), R.Until(until), ttl, now))
    }

    /** When the lock on `key` ends; 0.0 when there is none. */
    function LockedUntil(key: string, now: real): real {
      match this
      case Memory(_, locks) => if key in locks then locks[key] else 0.0
      case Redis(prefix, db) =>
        match R.Get(db, LockKey(prefix, key), now)
        case None => 0.0
        case Some(Until(at)) => at
        case Some(Count(n)) => n as real
    }

    function Clear(key: string): Store {
      match this
      case Memory(counters, locks) => Memory(counters - {key}, locks - {key})
      case Redis(prefix, db) => Redis(prefix, R.Del(db, {CountKey(prefix, key), LockKey(prefix, key)}))
    }
  }

  const EMPTY_MEMORY := Memory(map[], map[])

  function EmptyRedis(prefix: string): Store {
    Redis(prefix, map[])
  }

  function CountKey(prefix: string, key: string): string {
    prefix + key
  }

  function LockKey(prefix: string, key: string): string {
    prefix + key + ":lock"
  }

  /** The whole seconds a Redis counter lives. */
  function RedisWindow(window: real): int {
    Max(1, Truncate(window))
  }

  /** `MemoryStore`: two dicts in the process. */
  class MemoryStore {
    var counters: map<string, Counter>
    var locks: map<string, real>

    constructor ()
      ensures View() == EMPTY_MEMORY
    {
      counters, locks := map[], map[];
    }

    ghost function View(): Store
      reads this
    {
      Memory(counters, locks)
    }

    method AddFailure(key: string, window: real, now: real) returns (failures: int)
      modifies this
      ensures old(View()).AddFailure(key, window, now) == Ok((View(), failures))
    {
      var counter := Counter(0, now + window);
      if key in counters && now < counters[key].expiresAt {
        counter := counters[key];
      }
      failures := counter.failures + 1;
      counters := counters[key := counter.(failures := failures)];
    }

    method ResetFailures(key: string)
      modifies this
      ensures View() == old(View()).ResetFailures(key)
    {
      counters := counters - {key};
    }

    method Lock(key: string, until: real, now: real)
      modifies this
      ensures View() == old(View()).Lock(key, until, now)
    {
      locks := locks[key := until];
    }

    method LockedUntil(key: string, now: real) returns (until: real)
      ensures until == View().LockedUntil(key, now)
    {
      until := if key in locks then locks[key] else 0.0;
    }

    method Clear(key: string)
      modifies this
      ensures View() == old(View()).Clear(key)
    {
      counters := counters - {key};
      locks := locks - {key};
    }
  }

  /** `RedisStore`: INCR and EXPIRE on the count key, SET with an expiry on the lock key. */
  class RedisStore {
    const prefix: string
    var db: R.Db

    constructor (prefix: string)
      ensures View() == EmptyRedis(prefix)
    {
      this.prefix := prefix;
      db := map[];
    }

    ghost function View(): Store
      reads this
    {
      Redis(prefix, db)
    }

    method AddFailure(key: string, window: real, now: real) returns (failures: Result<int>)
      modifies this
      ensures match old(View()).AddFailure(key, window, now)
              case Ok((after, count)) => View() == after && failures == Ok(count)
              case Err => View() == old(View()) && failures == Err
    {
      var name := CountKey(prefix, key);
      var reply := R.Incr(db, name, now);
      if reply.Err? {
        return Err;
      }
      db := reply.value.0;
      if R.Ttl(db, name, now).Persistent? {
        db := R.Expire(db, name, RedisWindow(window), now);
      }
      failures := Ok(reply.value.1);
    }

    method ResetFailures(key: string)
      modifies this
      ensures View() == old(View()).ResetFailures(key)
    {
      db := R.Del(db, {CountKey(prefix, key)});
    }

    method Lock(key: string, until: real, now: real)
      modifies this
      ensures View() == old(View()).Lock(key, until, now)
    {
      var ttl := Max(1, Truncate(until - now) + 1);
      db := R.SetEx(db, LockKey(prefix, key), R.Until(until), ttl, now);
    }

    method LockedUntil(key: string, now: real) returns (until: real)
      ensures until == View().LockedUntil(key, now)
    {
      var raw := R.Get(db, LockKey(prefix, key), now);
      match raw {
        case None => until := 0.0;
        case Some(Until(at)) => until := at;
        case Some(Count(n)) => until := n as real;
      }
    }

    method Clear(key: string)
      modifies this
      ensures View() == old(View()).Clear(key)
    {
      db := R.Del(db, {CountKey(prefix, key), LockKey(prefix, key)});
    }
  }

  /** The store a limiter was built with. */
  datatype StoreRef = InMemory(memory: MemoryStore) | InRedis(redis: RedisStore) {

    ghost function Objects(): set<object> {
      match this
      case InMemory(memory) => {memory}
      case InRedis(redis) => {redis}
    }

    ghost function View(): Store
      reads Objects()
    {
      match this
      case InMemory(memory) => memory.View()
      case InRedis(redis) => redis.View()
    }
  }
}
