/** When the Redis store answers exactly as the in-memory one: for which settings and key sets. */
module RedisRefinement {
  import opened Common
  import opened AttemptStores
  import opened LoginRateLimit
  import opened SlidingWindow
  import R = RedisCommands

  predicate UsesOnly(calls: seq<Call>, keys: set<string>) {
    forall i | 0 <= i < |calls| :: calls[i].op.key in keys
  }

  /** No key is another key plus ":lock", so no count key is a lock key. */
  predicate NoLockSuffix(keys: set<string>) {
    forall k | k in keys :: k + ":lock" !in keys
  }

  /** A positive whole number of seconds. */
  predicate WholeSeconds(window: real) {
    window >= 1.0 && window == window.Floor as real
  }

  /** The window survives Redis's whole-second EXPIRE, or no counter outlives its first failure. */
  predicate WindowFits(cfg: Config) {
    cfg.maxFailures <= 1 || cfg.window == RedisWindow(cfg.window) as real
  }

  lemma WindowFitsIff(cfg: Config)
    ensures WindowFits(cfg) <==> cfg.maxFailures <= 1 || WholeSeconds(cfg.window)
  {
  }

  /** The calls a `LoginRateLimiter` takes; the others are a `SendThrottle`'s. */
  predicate OfLimiter(op: Op) {
    op.RecordFailure? || op.IsLocked? || op.RemainingLockSeconds? || op.ClearKey?
  }

  predicate LimiterRun(calls: seq<Call>) {
    forall i | 0 <= i < |calls| :: OfLimiter(calls[i].op)
  }

  predicate ThrottleRun(calls: seq<Call>) {
    forall i | 0 <= i < |calls| :: !OfLimiter(calls[i].op)
  }

  predicate AnsweredAlike(cfg: Config, prefix: string, calls: seq<Call>) {
    Answers(cfg, EMPTY_MEMORY, calls) == Answers(cfg, EmptyRedis(prefix), calls)
  }

  /** Every run over `keys` on a wall clock gets the same answers from both stores. */
  ghost predicate SameAnswers(cfg: Config, prefix: string, keys: set<string>) {
    forall calls | InOrder(0.0, calls) && UsesOnly(calls, keys) :: AnsweredAlike(cfg, prefix, calls)
  }

  /** Every run of one limiter over `keys` does. */
  ghost predicate SameLimiterAnswers(cfg: Config, prefix: string, keys: set<string>) {
    forall calls | InOrder(0.0, calls) && UsesOnly(calls, keys) && LimiterRun(calls) ::
      AnsweredAlike(cfg, prefix, calls)
  }

  // Key names.

  lemma CancelPrefix(p: string, a: string, b: string)
    ensures p + a == p + b <==> a == b
  {
    if p + a == p + b {
      assert (p + a)[|p|..] == a && (p + b)[|p|..] == b;
    }
  }

  lemma CancelSuffix(a: string, b: string, t: string)
    ensures a + t == b + t <==> a == b
  {
    if a + t == b + t {
      assert |a| == |b|;
      assert (a + t)[..|a|] == a && (b + t)[..|b|] == b;
    }
  }

  lemma KeysApart(prefix: string, keys: set<string>, a: string, b: string)
    requires a in keys && b in keys && NoLockSuffix(keys)
    ensures CountKey(prefix, a) != LockKey(prefix, b)
    ensures CountKey(prefix, a) == CountKey(prefix, b) <==> a == b
    ensures LockKey(prefix, a) == LockKey(prefix, b) <==> a == b
  {
    assert prefix + (b + ":lock") == LockKey(prefix, b);
    CancelPrefix(prefix, a, b + ":lock");
    CancelPrefix(prefix, a, b);
    CancelSuffix(prefix + a, prefix + b, ":lock");
  }

  // The simulation.

  ghost predicate CountSimulates(cfg: Config, m: Store, r: Store, key: string)
    requires m.Memory? && r.Redis?
  {
    var count := CountKey(r.prefix, key);
    && (cfg.maxFailures <= 1 ==> key !in m.counters)
    && (key in m.counters <==> count in r.db)
    && (key in m.counters ==>
          && r.db[count] == R.Cell(R.Count(m.counters[key].failures), Some(m.counters[key].expiresAt))
          && 1 <= m.counters[key].failures)
  }

  ghost predicate LockSimulates(m: Store, r: Store, key: string)
    requires m.Memory? && r.Redis?
  {
    var lock := LockKey(r.prefix, key);
    && (key in m.locks <==> lock in r.db)
    && (key in m.locks ==>
          && r.db[lock].value == R.Until(m.locks[key])
          && r.db[lock].expiry.Some?
          && m.locks[key] < r.db[lock].expiry.value)
  }

  ghost predicate KeySimulates(cfg: Config, m: Store, r: Store, key: string)
    requires m.Memory? && r.Redis?
  {
    CountSimulates(cfg, m, r, key) && LockSimulates(m, r, key)
  }

  ghost predicate Simulates(cfg: Config, m: Store, r: Store, keys: set<string>, now: real) {
    && m.Memory? && r.Redis? && 0.0 <= now
    && forall k | k in keys :: KeySimulates(cfg, m, r, k)
  }

  /** A lock Redis has dropped is one that no longer holds, so both stores answer alike. */
  lemma SameLock(m: Store, r: Store, key: string, now: real)
    requires m.Memory? && r.Redis? && 0.0 <= now && LockSimulates(m, r, key)
    ensures Locked(m, key, now) == Locked(r, key, now)
    ensures Remaining(m, key, now) == Remaining(r, key, now)
  {
  }

  lemma LockCellOutlivesLock(until: real, now: real)
    ensures until < now + Max(1, Truncate(until - now) + 1) as real
  {
  }

  lemma SimulateLock(cfg: Config, m: Store, r: Store, keys: set<string>, key: string, until: real, now: real)
    requires Simulates(cfg, m, r, keys, now) && key in keys && NoLockSuffix(keys)
    ensures Simulates(cfg, m.Lock(key, until, now), r.Lock(key, until, now), keys, now)
  {
    LockCellOutlivesLock(until, now);
    forall k | k in keys
      ensures KeySimulates(cfg, m.Lock(key, until, now), r.Lock(key, until, now), k)
    {
      assert KeySimulates(cfg, m, r, k);
      KeysApart(r.prefix, keys, k, key);
    }
  }

  lemma SimulateClear(cfg: Config, m: Store, r: Store, keys: set<string>, key: string, now: real)
    requires Simulates(cfg, m, r, keys, now) && key in keys && NoLockSuffix(keys)
    ensures Simulates(cfg, m.Clear(key), r.Clear(key), keys, now)
  {
    forall k | k in keys ensures KeySimulates(cfg, m.Clear(key), r.Clear(key), k) {
      assert KeySimulates(cfg, m, r, k);
      KeysApart(r.prefix, keys, k, key);
      KeysApart(r.prefix, keys, key, k);
    }
  }

  lemma SimulateReset(cfg: Config, m: Store, r: Store, keys: set<string>, key: string, now: real)
    requires Simulates(cfg, m, r, keys, now) && key in keys && NoLockSuffix(keys)
    ensures Simulates(cfg, m.ResetFailures(key), r.ResetFailures(key), keys, now)
  {
    forall k | k in keys ensures KeySimulates(cfg, m.ResetFailures(key), r.ResetFailures(key), k) {
      assert KeySimulates(cfg, m, r, k);
      KeysApart(r.prefix, keys, k, key);
      KeysApart(r.prefix, keys, key, k);
    }
  }

  /** With a threshold above one both stores count alike. */
  lemma SimulateAddFailure(cfg: Config, m: Store, r: Store, keys: set<string>, key: string, now: real)
    requires Simulates(cfg, m, r, keys, now) && key in keys && NoLockSuffix(keys)
    requires WindowFits(cfg) && cfg.maxFailures > 1
    ensures
      var a, b := m.AddFailure(key, cfg.window, now), r.AddFailure(key, cfg.window, now);
      && a.Ok? && b.Ok? && a.value.1 == b.value.1
      && Simulates(cfg, a.value.0, b.value.0, keys, now)
  {
    assert KeySimulates(cfg, m, r, key);
    KeysApart(r.prefix, keys, key, key);
    var m', r' := m.AddFailure(key, cfg.window, now).value.0, r.AddFailure(key, cfg.window, now).value.0;
    forall k | k in keys ensures KeySimulates(cfg, m', r', k) {
      assert KeySimulates(cfg, m, r, k);
      KeysApart(r.prefix, keys, k, key);
      KeysApart(r.prefix, keys, key, k);
    }
  }

  /** A threshold of one or less: the first failure locks, and its counter goes at once. */
  lemma FirstFailureLocks(cfg: Config, m: Store, r: Store, keys: set<string>, key: string, now: real)
    requires Simulates(cfg, m, r, keys, now) && key in keys && NoLockSuffix(keys)
    requires cfg.maxFailures <= 1 && !Locked(m, key, now) && !Locked(r, key, now)
    ensures Record(cfg, m, key, now) == (m.Lock(key, now + cfg.window, now), Truth(true))
    ensures Record(cfg, r, key, now) == (r.Lock(key, now + cfg.window, now), Truth(true))
  {
    assert KeySimulates(cfg, m, r, key);
    KeysApart(r.prefix, keys, key, key);
    var count, lock := CountKey(r.prefix, key), LockKey(r.prefix, key);
    assert m.counters[key := Counter(1, now + cfg.window)] - {key} == m.counters;
    var added := r.AddFailure(key, cfg.window, now).value.0;
    var locked := added.Lock(key, now + cfg.window, now);
    assert added.db == r.db[count := added.db[count]];
    assert locked.db - {count} == r.db[lock := locked.db[lock]];
  }

  lemma SimulateFirstFailure(cfg: Config, m: Store, r: Store, keys: set<string>, key: string, now: real)
    requires Simulates(cfg, m, r, keys, now) && key in keys && NoLockSuffix(keys)
    requires cfg.maxFailures <= 1 && !Locked(m, key, now) && !Locked(r, key, now)
    ensures
      var (m', a) := Record(cfg, m, key, now);
      var (r', b) := Record(cfg, r, key, now);
      a == b && Simulates(cfg, m', r', keys, now)
  {
    FirstFailureLocks(cfg, m, r, keys, key, now);
    SimulateLock(cfg, m, r, keys, key, now + cfg.window, now);
  }

  /** A threshold above one: count, and at the threshold lock and reset. */
  lemma SimulateCounting(cfg: Config, m: Store, r: Store, keys: set<string>, key: string, now: real)
    requires Simulates(cfg, m, r, keys, now) && key in keys && NoLockSuffix(keys) && WindowFits(cfg)
    requires cfg.maxFailures > 1 && !Locked(m, key, now) && !Locked(r, key, now)
    ensures
      var (m', a) := Record(cfg, m, key, now);
      var (r', b) := Record(cfg, r, key, now);
      a == b && Simulates(cfg, m', r', keys, now)
  {
    SimulateAddFailure(cfg, m, r, keys, key, now);
    var until := now + cfg.window;
    var (m1, count) := m.AddFailure(key, cfg.window, now).value;
    var (r1, _) := r.AddFailure(key, cfg.window, now).value;
    if count >= cfg.maxFailures {
      SimulateLock(cfg, m1, r1, keys, key, until, now);
      SimulateReset(cfg, m1.Lock(key, until, now), r1.Lock(key, until, now), keys, key, now);
    }
  }

  lemma SimulateRecord(cfg: Config, m: Store, r: Store, keys: set<string>, key: string, now: real)
    requires Simulates(cfg, m, r, keys, now) && key in keys && NoLockSuffix(keys) && WindowFits(cfg)
    ensures
      var (m', a) := Record(cfg, m, key, now);
      var (r', b) := Record(cfg, r, key, now);
      a == b && Simulates(cfg, m', r', keys, now)
  {
    assert KeySimulates(cfg, m, r, key);
    SameLock(m, r, key, now);
    if !Locked(m, key, now) {
      if cfg.maxFailures <= 1 {
        SimulateFirstFailure(cfg, m, r, keys, key, now);
      } else {
        SimulateCounting(cfg, m, r, keys, key, now);
      }
    }
  }

  lemma SimulateStep(cfg: Config, m: Store, r: Store, keys: set<string>, call: Call, now: real)
    requires Simulates(cfg, m, r, keys, now) && now <= call.now
    requires call.op.key in keys && NoLockSuffix(keys) && WindowFits(cfg)
    ensures
      var (m', a) := Step(cfg, m, call);
      var (r', b) := Step(cfg, r, call);
      a == b && Simulates(cfg, m', r', keys, call.now)
  {
    var key, t := call.op.key, call.now;
    assert Simulates(cfg, m, r, keys, t) by {
      forall k | k in keys ensures KeySimulates(cfg, m, r, k) {
        assert KeySimulates(cfg, m, r, k);
      }
    }
    SameLock(m, r, key, t);
    match call.op {
      case RecordFailure(_) => SimulateRecord(cfg, m, r, keys, key, t);
      case ClearKey(_) => SimulateClear(cfg, m, r, keys, key, t);
      case Allow(_) => SimulateLock(cfg, m, r, keys, key, t + cfg.interval, t);
      case Mark(_) => SimulateLock(cfg, m, r, keys, key, t + cfg.interval, t);
      case _ =>
    }
  }

  lemma {:induction false} SimulateRun(
      cfg: Config, m: Store, r: Store, keys: set<string>, calls: seq<Call>, now: real)
    requires Simulates(cfg, m, r, keys, now) && InOrder(now, calls) && UsesOnly(calls, keys)
    requires NoLockSuffix(keys) && WindowFits(cfg)
    ensures Answers(cfg, m, calls) == Answers(cfg, r, calls)
    ensures forall key, from | key in keys ::
              CountedWithin(cfg, m, calls, key, from) == CountedWithin(cfg, r, calls, key, from)
    decreases |calls|
  {
    if calls != [] {
      var call := calls[0];
      SimulateStep(cfg, m, r, keys, call, now);
      SimulateRun(cfg, Step(cfg, m, call).0, Step(cfg, r, call).0, keys, calls[1..], call.now);
      forall key | key in keys ensures Counts(m, call, key) == Counts(r, call, key) {
        assert KeySimulates(cfg, m, r, call.op.key);
        SameLock(m, r, call.op.key, call.now);
      }
    }
  }

  /** With these settings and keys the two stores cannot be told apart. */
  lemma RedisRefinesMemory(cfg: Config, prefix: string, keys: set<string>)
    requires NoLockSuffix(keys) && WindowFits(cfg)
    ensures SameAnswers(cfg, prefix, keys)
  {
    forall calls | InOrder(0.0, calls) && UsesOnly(calls, keys) ensures AnsweredAlike(cfg, prefix, calls) {
      SimulateRun(cfg, EMPTY_MEMORY, EmptyRedis(prefix), keys, calls, 0.0);
    }
  }

  /** The sliding-window bound holds for counts kept in Redis too. */
  lemma SlidingWindowBoundInRedis(
      cfg: Config, prefix: string, keys: set<string>, calls: seq<Call>, key: string, from: real)
    requires NoLockSuffix(keys) && WindowFits(cfg) && key in keys
    requires InOrder(0.0, calls) && UsesOnly(calls, keys) && LimiterCalls(calls, key)
    ensures CountedWithin(cfg, EmptyRedis(prefix), calls, key, from) <= WindowLimit(cfg.maxFailures)
  {
    SimulateRun(cfg, EMPTY_MEMORY, EmptyRedis(prefix), keys, calls, 0.0);
    SlidingWindowBound(cfg, calls, key, from, 0.0);
  }

  // A throttle uses the lock half alone.

  ghost predicate LocksSimulate(m: Store, r: Store, now: real) {
    m.Memory? && r.Redis? && 0.0 <= now && forall k :: LockSimulates(m, r, k)
  }

  lemma SimulateThrottle(cfg: Config, m: Store, r: Store, call: Call, now: real)
    requires LocksSimulate(m, r, now) && now <= call.now && !OfLimiter(call.op)
    ensures
      var (m', a) := Step(cfg, m, call);
      var (r', b) := Step(cfg, r, call);
      a == b && LocksSimulate(m', r', call.now)
  {
    var key, until := call.op.key, call.now + cfg.interval;
    SameLock(m, r, key, call.now);
    LockCellOutlivesLock(until, call.now);
    var m', r' := m.Lock(key, until, call.now), r.Lock(key, until, call.now);
    forall k ensures LockSimulates(m', r', k) {
      assert LockSimulates(m, r, k);
      CancelSuffix(r.prefix + k, r.prefix + key, ":lock");
      CancelPrefix(r.prefix, k, key);
    }
  }

  lemma {:induction false} SimulateThrottles(cfg: Config, m: Store, r: Store, calls: seq<Call>, now: real)
    requires LocksSimulate(m, r, now) && InOrder(now, calls) && ThrottleRun(calls)
    ensures Answers(cfg, m, calls) == Answers(cfg, r, calls)
    ensures
      var last := if calls == [] then now else calls[|calls| - 1].now;
      LocksSimulate(After(cfg, m, calls), After(cfg, r, calls), last)
    decreases |calls|
  {
    if calls != [] {
      SimulateThrottle(cfg, m, r, calls[0], now);
      SimulateThrottles(cfg, Step(cfg, m, calls[0]).0, Step(cfg, r, calls[0]).0, calls[1..], calls[0].now);
    }
  }

  /** Both stores answer every run of a throttle alike, whatever its keys and interval. */
  lemma ThrottlesAlwaysAgree(cfg: Config, prefix: string, calls: seq<Call>)
    requires InOrder(0.0, calls) && ThrottleRun(calls)
    ensures AnsweredAlike(cfg, prefix, calls)
  {
    SimulateThrottles(cfg, EMPTY_MEMORY, EmptyRedis(prefix), calls, 0.0);
  }

  // The other direction: outside these settings and keys some run tells the stores apart.

  lemma {:induction false} AnswersAppend(cfg: Config, s: Store, calls: seq<Call>, last: Call)
    ensures Answers(cfg, s, calls + [last])
         == Answers(cfg, s, calls) + [Step(cfg, After(cfg, s, calls), last).1]
    ensures |Answers(cfg, s, calls)| == |calls|
    decreases |calls|
  {
    if calls == [] {
      assert calls + [last] == [last];
    } else {
      AnswersAppend(cfg, Step(cfg, s, calls[0]).0, calls[1..], last);
      assert (calls + [last])[1..] == calls[1..] + [last];
    }
  }

  lemma LastAnswerTells(cfg: Config, s: Store, t: Store, calls: seq<Call>, last: Call)
    requires Step(cfg, After(cfg, s, calls), last).1 != Step(cfg, After(cfg, t, calls), last).1
    ensures Answers(cfg, s, calls + [last]) != Answers(cfg, t, calls + [last])
  {
    AnswersAppend(cfg, s, calls, last);
    AnswersAppend(cfg, t, calls, last);
    assert Answers(cfg, s, calls + [last])[|calls|] != Answers(cfg, t, calls + [last])[|calls|];
  }

  /** The in-memory store after `n` failures of one key at time zero; an empty window keeps restarting. */
  function MemoryAfter(cfg: Config, key: string, n: nat): Store {
    if n == 0 then EMPTY_MEMORY
    else Memory(map[key := Counter(if cfg.window > 0.0 then n else 1, cfg.window)], map[])
  }

  function RedisAfter(cfg: Config, prefix: string, key: string, n: nat): Store {
    if n == 0 then EmptyRedis(prefix)
    else Redis(prefix, map[CountKey(prefix, key) :=
                             R.Cell(R.Count(n), Some(RedisWindow(cfg.window) as real))])
  }

  lemma {:induction false} FailuresAtZero(cfg: Config, prefix: string, key: string, n: nat, k: nat)
    requires k + n < cfg.maxFailures
    ensures After(cfg, MemoryAfter(cfg, key, k), Repeat(n, key, 0.0)) == MemoryAfter(cfg, key, k + n)
    ensures After(cfg, RedisAfter(cfg, prefix, key, k), Repeat(n, key, 0.0))
         == RedisAfter(cfg, prefix, key, k + n)
    decreases n
  {
    if n > 0 {
      var call := Call(RecordFailure(key), 0.0);
      assert CountKey(prefix, key) != LockKey(prefix, key) by {
        assert |CountKey(prefix, key)| != |LockKey(prefix, key)|;
      }
      assert Step(cfg, MemoryAfter(cfg, key, k), call).0 == MemoryAfter(cfg, key, k + 1);
      assert Step(cfg, RedisAfter(cfg, prefix, key, k), call).0 == RedisAfter(cfg, prefix, key, k + 1);
      FailuresAtZero(cfg, prefix, key, n - 1, k + 1);
    }
  }

  /** One failure short of the threshold, at a moment when only one of the counters is still there. */
  lemma MisfitIsSeen(cfg: Config, prefix: string, key: string, t: real)
    requires !WindowFits(cfg)
    requires
      var kept := RedisWindow(cfg.window) as real;
      t == if cfg.window <= 0.0 then 0.0 else if cfg.window < kept then cfg.window else kept
    ensures
      var n, last := cfg.maxFailures - 1, Call(RecordFailure(key), t);
      && Step(cfg, MemoryAfter(cfg, key, n), last).1 == Truth(cfg.window > 0.0 && t < cfg.window)
      && Step(cfg, RedisAfter(cfg, prefix, key, n), last).1 == Truth(t < RedisWindow(cfg.window) as real)
      && (cfg.window > 0.0 && t < cfg.window) != (t < RedisWindow(cfg.window) as real)
  {
    assert CountKey(prefix, key) != LockKey(prefix, key) by {
      assert |CountKey(prefix, key)| != |LockKey(prefix, key)|;
    }
  }

  /** A window Redis rounds makes one store lock where the other has started afresh. */
  lemma MisfitWindowIsSeen(cfg: Config, prefix: string, key: string) returns (calls: seq<Call>)
    requires !WindowFits(cfg)
    ensures InOrder(0.0, calls) && UsesOnly(calls, {key}) && LimiterRun(calls)
    ensures !AnsweredAlike(cfg, prefix, calls)
  {
    var n, kept := cfg.maxFailures - 1, RedisWindow(cfg.window) as real;
    var t := if cfg.window <= 0.0 then 0.0 else if cfg.window < kept then cfg.window else kept;
    var last := Call(RecordFailure(key), t);
    calls := Repeat(n, key, 0.0) + [last];
    RepeatInOrder(n, key, 0.0, 0.0, [last]);
    RepeatUses(n, key, 0.0);
    FailuresAtZero(cfg, prefix, key, n, 0);
    MisfitIsSeen(cfg, prefix, key, t);
    LastAnswerTells(cfg, EMPTY_MEMORY, EmptyRedis(prefix), Repeat(n, key, 0.0), last);
  }

  lemma {:induction false} RepeatUses(n: nat, key: string, now: real)
    ensures UsesOnly(Repeat(n, key, now), {key}) && LimiterRun(Repeat(n, key, now))
  {
    if n > 0 {
      RepeatUses(n - 1, key, now);
    }
  }

  /** A lock on `key` and nothing else, written at time zero. */
  function LockedMemory(cfg: Config, key: string): Store {
    Memory(map[], map[key := cfg.window])
  }

  function LockedRedis(cfg: Config, prefix: string, key: string): Store {
    var ttl := Max(1, Truncate(cfg.window) + 1) as real;
    Redis(prefix, map[LockKey(prefix, key) := R.Cell(R.Until(cfg.window), Some(ttl))])
  }

  /** The failure that reaches the threshold locks in both stores. */
  lemma LastFailureLocks(cfg: Config, prefix: string, key: string, n: nat)
    requires WindowFits(cfg) && n == Max(cfg.maxFailures - 1, 0)
    ensures
      var last := Call(RecordFailure(key), 0.0);
      && Step(cfg, MemoryAfter(cfg, key, n), last).0 == LockedMemory(cfg, key)
      && Step(cfg, RedisAfter(cfg, prefix, key, n), last).0 == LockedRedis(cfg, prefix, key)
  {
    assert CountKey(prefix, key) != LockKey(prefix, key) by {
      assert |CountKey(prefix, key)| != |LockKey(prefix, key)|;
    }
  }

  lemma {:induction false} AfterAppend(cfg: Config, s: Store, calls: seq<Call>, last: Call)
    ensures After(cfg, s, calls + [last]) == Step(cfg, After(cfg, s, calls), last).0
    decreases |calls|
  {
    if calls == [] {
      assert calls + [last] == [last];
    } else {
      AfterAppend(cfg, Step(cfg, s, calls[0]).0, calls[1..], last);
      assert (calls + [last])[1..] == calls[1..] + [last];
    }
  }

  /** After a lock on `key`, INCR on the count of `key:lock` fails; the in-memory store just counts. */
  lemma CountMeetsLock(cfg: Config, prefix: string, key: string)
    ensures
      var other := Call(RecordFailure(key + ":lock"), 0.0);
      && Step(cfg, LockedMemory(cfg, key), other).1 != Raised
      && Step(cfg, LockedRedis(cfg, prefix, key), other).1 == Raised
  {
    var other, r := key + ":lock", LockedRedis(cfg, prefix, key);
    assert CountKey(prefix, other) == LockKey(prefix, key);
    assert |LockKey(prefix, other)| != |LockKey(prefix, key)|;
    assert R.Live(r.db, CountKey(prefix, other), 0.0);
  }

  /** Enough failures of `key` at time zero to lock it. */
  function Locking(cfg: Config, key: string): seq<Call> {
    Repeat(Max(cfg.maxFailures - 1, 0), key, 0.0) + [Call(RecordFailure(key), 0.0)]
  }

  lemma LockingLocks(cfg: Config, prefix: string, key: string)
    requires WindowFits(cfg)
    ensures After(cfg, EMPTY_MEMORY, Locking(cfg, key)) == LockedMemory(cfg, key)
    ensures After(cfg, EmptyRedis(prefix), Locking(cfg, key)) == LockedRedis(cfg, prefix, key)
  {
    var n, last := Max(cfg.maxFailures - 1, 0), Call(RecordFailure(key), 0.0);
    if n > 0 {
      FailuresAtZero(cfg, prefix, key, n, 0);
    }
    LastFailureLocks(cfg, prefix, key, n);
    AfterAppend(cfg, EMPTY_MEMORY, Repeat(n, key, 0.0), last);
    AfterAppend(cfg, EmptyRedis(prefix), Repeat(n, key, 0.0), last);
  }

  lemma LockingIsInOrder(cfg: Config, key: string, other: Call)
    requires other.now == 0.0
    ensures InOrder(0.0, Locking(cfg, key) + [other])
    ensures UsesOnly(Locking(cfg, key), {key}) && LimiterRun(Locking(cfg, key))
  {
    var n, last := Max(cfg.maxFailures - 1, 0), Call(RecordFailure(key), 0.0);
    RepeatInOrder(n, key, 0.0, 0.0, [last, other]);
    RepeatUses(n, key, 0.0);
    assert Locking(cfg, key) + [other] == Repeat(n, key, 0.0) + [last, other];
  }

  /** One limiter: enough failures of `key` to lock it, then one failure of `key:lock`. */
  lemma LockSuffixIsSeen(cfg: Config, prefix: string, key: string) returns (calls: seq<Call>)
    ensures InOrder(0.0, calls) && UsesOnly(calls, {key, key + ":lock"}) && LimiterRun(calls)
    ensures !AnsweredAlike(cfg, prefix, calls)
  {
    if WindowFits(cfg) {
      var other := Call(RecordFailure(key + ":lock"), 0.0);
      LockingIsInOrder(cfg, key, other);
      LockingLocks(cfg, prefix, key);
      CountMeetsLock(cfg, prefix, key);
      calls := Locking(cfg, key) + [other];
      LastAnswerTells(cfg, EMPTY_MEMORY, EmptyRedis(prefix), Locking(cfg, key), other);
    } else {
      calls := MisfitWindowIsSeen(cfg, prefix, key);
    }
  }

  /**
   * The two stores agree on every run of a limiter over a set of keys exactly when no key is another
   * plus ":lock" and the window is a whole number of seconds (or one failure already locks), and
   * then they agree even when a throttle uses the same store.
   */
  lemma RedisAgreesIff(cfg: Config, prefix: string, keys: set<string>)
    requires keys != {}
    ensures
      var fits := cfg.maxFailures <= 1 || WholeSeconds(cfg.window);
      && (SameLimiterAnswers(cfg, prefix, keys) <==> NoLockSuffix(keys) && fits)
      && (SameAnswers(cfg, prefix, keys) <==> NoLockSuffix(keys) && fits)
  {
    WindowFitsIff(cfg);
    if NoLockSuffix(keys) && WindowFits(cfg) {
      RedisRefinesMemory(cfg, prefix, keys);
    } else if !WindowFits(cfg) {
      var key :| key in keys;
      var calls := MisfitWindowIsSeen(cfg, prefix, key);
      assert UsesOnly(calls, keys);
    } else {
      var key :| key in keys && key + ":lock" in keys;
      var calls := LockSuffixIsSeen(cfg, prefix, key);
      assert UsesOnly(calls, keys);
    }
  }

  /** At most one mail per key and interval in Redis too, for calls that do not overlap. */
  lemma AllowedMailsAreSpacedInRedis(
      cfg: Config, prefix: string, before: seq<Call>, first: Call, between: seq<Call>, call: Call, key: string)
    requires InOrder(0.0, before + [first]) && InOrder(first.now, between + [call])
    requires ThrottleRun(before) && ThrottleRun(between) && first.op == Allow(key) && call.op == Allow(key)
    requires Step(cfg, After(cfg, EmptyRedis(prefix), before), first).1 == Truth(true)
    ensures
      var s := Step(cfg, After(cfg, EmptyRedis(prefix), before), first).0;
      Step(cfg, After(cfg, s, between), call).1 == Truth(true) ==> call.now >= first.now + cfg.interval
  {
    var m, r := EMPTY_MEMORY, EmptyRedis(prefix);
    InOrderParts(0.0, before, first);
    InOrderParts(first.now, between, call);
    SimulateThrottles(cfg, m, r, before, 0.0);
    var m1, r1 := After(cfg, m, before), After(cfg, r, before);
    SimulateThrottle(cfg, m1, r1, first, if before == [] then 0.0 else before[|before| - 1].now);
    var m2, r2 := Step(cfg, m1, first).0, Step(cfg, r1, first).0;
    SimulateThrottles(cfg, m2, r2, between, first.now);
    SimulateThrottle(cfg, After(cfg, m2, between), After(cfg, r2, between), call,
                     if between == [] then first.now else between[|between| - 1].now);
    AllowedMailsAreSpaced(cfg, m1, first, between, call, key);
  }

  lemma {:induction false} InOrderParts(start: real, calls: seq<Call>, last: Call)
    requires InOrder(start, calls + [last])
    ensures InOrder(start, calls) && start <= last.now
    ensures calls != [] ==> calls[|calls| - 1].now <= last.now
    decreases |calls|
  {
    if calls == [] {
      assert calls + [last] == [last];
    } else {
      assert (calls + [last])[1..] == calls[1..] + [last];
      InOrderParts(calls[0].now, calls[1..], last);
    }
  }
}
