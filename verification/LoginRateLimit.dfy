/** `LoginRateLimiter` and `SendThrottle`: one counting algorithm over either store. */
module LoginRateLimit {
  import opened Common
  import opened AttemptStores

  datatype Config = Config(maxFailures: int, window: real, interval: real)

  datatype Op =
    | RecordFailure(key: string)
    | IsLocked(key: string)
    | RemainingLockSeconds(key: string)
    | ClearKey(key: string)
    | Allow(key: string)
    | RetryAfterSeconds(key: string)
    | Mark(key: string)

  /** A call and the wall-clock second it is made at. */
  datatype Call = Call(op: Op, now: real)

  datatype Answer = Truth(b: bool) | Seconds(n: int) | Done | Raised

  function Locked(s: Store, key: string, now: real): bool {
    now < s.LockedUntil(key, now)
  }

  function Remaining(s: Store, key: string, now: real): int {
    Max(0, Truncate(s.LockedUntil(key, now) - now))
  }

  /** The whole seconds until the lock ends: none without a lock, and less than one short with it. */
  predicate IsWholeSecondsLeft(s: Store, key: string, now: real, seconds: int) {
    if Locked(s, key, now)
    then seconds >= 0 && seconds as real <= s.LockedUntil(key, now) - now < seconds as real + 1.0
    else seconds == 0
  }

  function Record(cfg: Config, s: Store, key: string, now: real): (Store, Answer) {
    if Locked(s, key, now) then (s, Truth(true))
    else match s.AddFailure(key, cfg.window, now)
      case Err => (s, Raised)
      case Ok((counted, failures)) =>
        if failures >= cfg.maxFailures then
          (counted.Lock(key, now + cfg.window, now).ResetFailures(key), Truth(true))
        else (counted, Truth(false))
  }

  function Step(cfg: Config, s: Store, call: Call): (Store, Answer) {
    var now := call.now;
    match call.op
    case RecordFailure(key) => Record(cfg, s, key, now)
    case IsLocked(key) => (s, Truth(Locked(s, key, now)))
    case RemainingLockSeconds(key) => (s, Seconds(Remaining(s, key, now)))
    case ClearKey(key) => (s.Clear(key), Done)
    case Allow(key) =>
      if Locked(s, key, now) then (s, Truth(false))
      else (s.Lock(key, now + cfg.interval, now), Truth(true))
    case RetryAfterSeconds(key) => (s, Seconds(Remaining(s, key, now)))
    case Mark(key) => (s.Lock(key, now + cfg.interval, now), Done)
  }

  /** The store a run of calls leaves behind. */
  function After(cfg: Config, s: Store, calls: seq<Call>): Store
    decreases |calls|
  {
    if calls == [] then s else After(cfg, Step(cfg, s, calls[0]).0, calls[1..])
  }

  /** Every answer of a run, in order. */
  function Answers(cfg: Config, s: Store, calls: seq<Call>): seq<Answer>
    decreases |calls|
  {
    if calls == [] then []
    else [Step(cfg, s, calls[0]).1] + Answers(cfg, Step(cfg, s, calls[0]).0, calls[1..])
  }

  /** Times never go back, and none is before `start`. */
  predicate InOrder(start: real, calls: seq<Call>)
    decreases |calls|
  {
    calls == [] || (start <= calls[0].now && InOrder(calls[0].now, calls[1..]))
  }

  class LoginRateLimiter {
    const maxFailures: int
    const window: real
    const store: StoreRef

    constructor (maxFailures: int, window: real, store: StoreRef)
      ensures this.maxFailures == maxFailures && this.window == window && this.store == store
    {
      this.maxFailures, this.window, this.store := maxFailures, window, store;
    }

    ghost function Settings(): Config {
      Config(maxFailures, window, 0.0)
    }

    method LockedUntil(key: string, now: real) returns (until: real)
      ensures until == store.View().LockedUntil(key, now)
    {
      match store {
        case InMemory(memory) => until := memory.LockedUntil(key, now);
        case InRedis(redis) => until := redis.LockedUntil(key, now);
      }
    }

    method IsLocked(key: string, now: real) returns (locked: bool)
      ensures Step(Settings(), store.View(), Call(Op.IsLocked(key), now)) == (store.View(), Truth(locked))
    {
      var until := LockedUntil(key, now);
      locked := now < until;
    }

    method RemainingLockSeconds(key: string, now: real) returns (seconds: int)
      ensures Step(Settings(), store.View(), Call(Op.RemainingLockSeconds(key), now))
           == (store.View(), Seconds(seconds))
      ensures IsWholeSecondsLeft(store.View(), key, now, seconds)
    {
      var until := LockedUntil(key, now);
      seconds := Max(0, Truncate(until - now));
    }

    method RecordFailure(key: string, now: real) returns (answer: Result<bool>)
      modifies store.Objects()
      ensures Step(Settings(), old(store.View()), Call(Op.RecordFailure(key), now))
           == (store.View(), if answer.Ok? then Truth(answer.value) else Raised)
    {
      var locked := IsLocked(key, now);
      if locked {
        return Ok(true);
      }
      var failures: Result<int>;
      match store {
        case InMemory(memory) =>
          var count := memory.AddFailure(key, window, now);
          failures := Ok(count);
        case InRedis(redis) => failures := redis.AddFailure(key, window, now);
      }
      if failures.Err? {
        return Err;
      }
      if failures.value >= maxFailures {
        match store {
          case InMemory(memory) =>
            memory.Lock(key, now + window, now);
            memory.ResetFailures(key);
          case InRedis(redis) =>
            redis.Lock(key, now + window, now);
            redis.ResetFailures(key);
        }
        return Ok(true);
      }
      return Ok(false);
    }

    method Clear(key: string, now: real)
      modifies store.Objects()
      ensures Step(Settings(), old(store.View()), Call(ClearKey(key), now)) == (store.View(), Done)
    {
      match store {
        case InMemory(memory) => memory.Clear(key);
        case InRedis(redis) => redis.Clear(key);
      }
    }
  }

  class SendThrottle {
    const interval: real
    const store: StoreRef

    constructor (interval: real, store: StoreRef)
      ensures this.interval == interval && this.store == store
    {
      this.interval, this.store := interval, store;
    }

    ghost function Settings(): Config {
      Config(0, 0.0, interval)
    }

    method LockedUntil(key: string, now: real) returns (until: real)
      ensures until == store.View().LockedUntil(key, now)
    {
      match store {
        case InMemory(memory) => until := memory.LockedUntil(key, now);
        case InRedis(redis) => until := redis.LockedUntil(key, now);
      }
    }

    method Mark(key: string, now: real)
      modifies store.Objects()
      ensures Step(Settings(), old(store.View()), Call(Op.Mark(key), now)) == (store.View(), Done)
    {
      match store {
        case InMemory(memory) => memory.Lock(key, now + interval, now);
        case InRedis(redis) => redis.Lock(key, now + interval, now);
      }
    }

    method Allow(key: string, now: real) returns (allowed: bool)
      modifies store.Objects()
      ensures Step(Settings(), old(store.View()), Call(Op.Allow(key), now)) == (store.View(), Truth(allowed))
    {
      var until := LockedUntil(key, now);
      if now < until {
        return false;
      }
      Mark(key, now);
      return true;
    }

    method RetryAfterSeconds(key: string, now: real) returns (seconds: int)
      ensures Step(Settings(), store.View(), Call(Op.RetryAfterSeconds(key), now))
           == (store.View(), Seconds(seconds))
      ensures IsWholeSecondsLeft(store.View(), key, now, seconds)
    {
      var until := LockedUntil(key, now);
      seconds := Max(0, Truncate(until - now));
    }
  }
}
