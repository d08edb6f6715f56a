/** What a clear and a lock mean to the calls after them, over either store. */
module Lockouts {
  import opened Common
  import opened AttemptStores
  import opened LoginRateLimit
  import opened RedisRefinement
  import R = RedisCommands

  /** Keys a store keeps apart: any in memory, and in Redis when none is another plus ":lock". */
  predicate KeepsApart(s: Store, keys: set<string>) {
    s.Memory? || NoLockSuffix(keys)
  }

  /** How many calls of a run are failures of `key`. */
  function FailuresOf(calls: seq<Call>, key: string): nat {
    if calls == [] then 0
    else (if calls[0].op == RecordFailure(key) then 1 else 0) + FailuresOf(calls[1..], key)
  }

  predicate SameKind(s: Store, t: Store) {
    s.Memory? == t.Memory? && (s.Redis? ==> s.prefix == t.prefix)
  }

  // A clear forgets the key.

  /** No lock on `key`, and at most `n` failures of it counted. */
  ghost predicate Open(s: Store, key: string, n: nat) {
    match s
    case Memory(counters, locks) => key !in locks && (key in counters ==> counters[key].failures <= n)
    case Redis(prefix, db) =>
      var count, lock := CountKey(prefix, key), LockKey(prefix, key);
      lock !in db && (count in db ==> db[count].value.Count? && db[count].value.n <= n)
  }

  /** What a key nobody has to wait for answers. */
  function Calm(op: Op): Answer {
    match op
    case RecordFailure(_) => Truth(false)
    case IsLocked(_) => Truth(false)
    case RemainingLockSeconds(_) => Seconds(0)
    case RetryAfterSeconds(_) => Seconds(0)
    case Allow(_) => Truth(true)
    case _ => Done
  }

  lemma ClearOpens(s: Store, key: string)
    ensures Open(s.Clear(key), key, 0) && SameKind(s, s.Clear(key))
  {
  }

  lemma OpenOwnStep(cfg: Config, s: Store, call: Call, key: string, n: nat)
    requires Open(s, key, n) && call.op.key == key && OfLimiter(call.op) && call.now >= 0.0
    requires call.op.RecordFailure? ==> n + 1 < cfg.maxFailures
    ensures
      var (s', answer) := Step(cfg, s, call);
      && SameKind(s, s') && answer == Calm(call.op)
      && Open(s', key, if call.op.RecordFailure? then n + 1 else n)
  {
    if s.Redis? {
      assert |CountKey(s.prefix, key)| != |LockKey(s.prefix, key)|;
    }
  }

  lemma OpenOtherStep(cfg: Config, s: Store, keys: set<string>, call: Call, key: string, n: nat)
    requires Open(s, key, n) && call.op.key != key && OfLimiter(call.op)
    requires KeepsApart(s, keys) && key in keys && call.op.key in keys
    ensures SameKind(s, Step(cfg, s, call).0) && Open(Step(cfg, s, call).0, key, n)
  {
    if s.Redis? {
      KeysApart(s.prefix, keys, key, call.op.key);
      KeysApart(s.prefix, keys, call.op.key, key);
    }
  }

  /** Every call on `key` in the run is answered by `expected`. */
  ghost predicate AnsweredBy(cfg: Config, s: Store, calls: seq<Call>, key: string, expected: Op -> Answer) {
    |Answers(cfg, s, calls)| == |calls|
    && forall i | 0 <= i < |calls| && calls[i].op.key == key :: Answers(cfg, s, calls)[i] == expected(calls[i].op)
  }

  lemma AnsweredOneMore(cfg: Config, s: Store, calls: seq<Call>, key: string, expected: Op -> Answer)
    requires calls != []
    requires calls[0].op.key == key ==> Step(cfg, s, calls[0]).1 == expected(calls[0].op)
    requires AnsweredBy(cfg, Step(cfg, s, calls[0]).0, calls[1..], key, expected)
    ensures AnsweredBy(cfg, s, calls, key, expected)
  {
    var rest := Answers(cfg, Step(cfg, s, calls[0]).0, calls[1..]);
    assert Answers(cfg, s, calls) == [Step(cfg, s, calls[0]).1] + rest;
    forall i | 0 < i < |calls| && calls[i].op.key == key
      ensures Answers(cfg, s, calls)[i] == expected(calls[i].op)
    {
      assert calls[1..][i - 1] == calls[i];
    }
  }

  lemma {:induction false} OpenRun(cfg: Config, s: Store, keys: set<string>, calls: seq<Call>, key: string, n: nat, now: real)
    requires Open(s, key, n) && KeepsApart(s, keys) && key in keys && UsesOnly(calls, keys)
    requires 0.0 <= now && InOrder(now, calls) && LimiterRun(calls)
    requires FailuresOf(calls, key) > 0 ==> n + FailuresOf(calls, key) < cfg.maxFailures
    ensures AnsweredBy(cfg, s, calls, key, Calm)
    decreases |calls|
  {
    if calls != [] {
      var call := calls[0];
      var hit := if call.op == RecordFailure(key) then 1 else 0;
      if call.op.key == key {
        OpenOwnStep(cfg, s, call, key, n);
      } else {
        OpenOtherStep(cfg, s, keys, call, key, n);
      }
      OpenRun(cfg, Step(cfg, s, call).0, keys, calls[1..], key, n + hit, call.now);
      AnsweredOneMore(cfg, s, calls, key, Calm);
    }
  }

  /**
   * After a clear of a key, whatever came before it: the key is not locked, has no seconds left, and
   * its next failures answer false as long as they are fewer than the threshold, among any calls.
   */
  lemma ClearForgets(cfg: Config, s: Store, keys: set<string>, at: real, calls: seq<Call>, key: string)
    requires KeepsApart(s, keys) && key in keys && UsesOnly(calls, keys)
    requires 0.0 <= at && InOrder(at, calls) && LimiterRun(calls)
    requires FailuresOf(calls, key) > 0 ==> FailuresOf(calls, key) < cfg.maxFailures
    ensures AnsweredBy(cfg, Step(cfg, s, Call(ClearKey(key), at)).0, calls, key, Calm)
  {
    ClearOpens(s, key);
    OpenRun(cfg, s.Clear(key), keys, calls, key, 0, at);
  }

  // And no other.

  /** The two stores differ in what they hold for `key` at most. */
  ghost predicate SameBut(s: Store, t: Store, key: string) {
    && SameKind(s, t)
    && (s.Memory? ==>
          forall k | k != key ::
            && (k in s.counters <==> k in t.counters) && (k in s.counters ==> s.counters[k] == t.counters[k])
            && (k in s.locks <==> k in t.locks) && (k in s.locks ==> s.locks[k] == t.locks[k]))
    && (s.Redis? ==>
          forall name | name != CountKey(s.prefix, key) && name != LockKey(s.prefix, key) :: SameCell(s.db, t.db, name))
  }

  predicate SameCell(a: R.Db, b: R.Db, name: string) {
    (name in a <==> name in b) && (name in a ==> a[name] == b[name])
  }

  /** An answer and the two cells a call leaves depend on those two cells alone. */
  lemma SameOwnCells(cfg: Config, s: Store, t: Store, call: Call, count: string, lock: string)
    requires s.Redis? && t.Redis? && s.prefix == t.prefix
    requires count == CountKey(s.prefix, call.op.key) && lock == LockKey(s.prefix, call.op.key)
    requires SameCell(s.db, t.db, count) && SameCell(s.db, t.db, lock)
    ensures
      var (s', a) := Step(cfg, s, call);
      var (t', b) := Step(cfg, t, call);
      && a == b && s'.Redis? && t'.Redis?
      && SameCell(s'.db, t'.db, count) && SameCell(s'.db, t'.db, lock)
  {
  }

  lemma SameButOther(cfg: Config, s: Store, t: Store, keys: set<string>, call: Call, key: string)
    requires SameBut(s, t, key) && KeepsApart(s, keys) && key in keys && call.op.key in keys && call.op.key != key
    ensures SameBut(Step(cfg, s, call).0, Step(cfg, t, call).0, key)
    ensures Step(cfg, s, call).1 == Step(cfg, t, call).1
  {
    if s.Redis? {
      var count, lock := CountKey(s.prefix, call.op.key), LockKey(s.prefix, call.op.key);
      KeysApart(s.prefix, keys, key, call.op.key);
      KeysApart(s.prefix, keys, call.op.key, key);
      SameOwnCells(cfg, s, t, call, count, lock);
      OnlyItsOwn(cfg, s, call);
      OnlyItsOwn(cfg, t, call);
      var s', t' := Step(cfg, s, call).0, Step(cfg, t, call).0;
      forall name | name != CountKey(s.prefix, key) && name != LockKey(s.prefix, key)
        ensures SameCell(s'.db, t'.db, name)
      {
        if name != count && name != lock {
          assert SameCell(s.db, s'.db, name) && SameCell(s.db, t.db, name) && SameCell(t.db, t'.db, name);
        }
      }
    }
  }

  lemma SameButOwn(cfg: Config, s: Store, t: Store, call: Call, key: string)
    requires SameBut(s, t, key) && call.op.key == key
    ensures SameBut(Step(cfg, s, call).0, Step(cfg, t, call).0, key)
  {
    OnlyItsOwn(cfg, s, call);
    OnlyItsOwn(cfg, t, call);
    var s', t' := Step(cfg, s, call).0, Step(cfg, t, call).0;
    if s.Redis? {
      forall name | name != CountKey(s.prefix, key) && name != LockKey(s.prefix, key)
        ensures SameCell(s'.db, t'.db, name)
      {
        assert SameCell(s.db, s'.db, name) && SameCell(s.db, t.db, name) && SameCell(t.db, t'.db, name);
      }
    }
  }

  /** A call changes what the store holds for its own key, and nothing else. */
  lemma OnlyItsOwn(cfg: Config, s: Store, call: Call)
    ensures SameBut(s, Step(cfg, s, call).0, call.op.key)
  {
  }

  ghost predicate OthersAnsweredAlike(cfg: Config, s: Store, t: Store, calls: seq<Call>, key: string) {
    && |Answers(cfg, s, calls)| == |Answers(cfg, t, calls)| == |calls|
    && forall i | 0 <= i < |calls| && calls[i].op.key != key ::
         Answers(cfg, s, calls)[i] == Answers(cfg, t, calls)[i]
  }

  lemma {:induction false} OthersRun(cfg: Config, s: Store, t: Store, keys: set<string>, calls: seq<Call>, key: string)
    requires SameBut(s, t, key) && KeepsApart(s, keys) && key in keys && UsesOnly(calls, keys)
    ensures OthersAnsweredAlike(cfg, s, t, calls, key)
    decreases |calls|
  {
    if calls != [] {
      var call := calls[0];
      if call.op.key == key {
        SameButOwn(cfg, s, t, call, key);
      } else {
        SameButOther(cfg, s, t, keys, call, key);
      }
      OthersRun(cfg, Step(cfg, s, call).0, Step(cfg, t, call).0, keys, calls[1..], key);
      OthersOneMore(cfg, s, t, calls, key);
    }
  }

  lemma OthersOneMore(cfg: Config, s: Store, t: Store, calls: seq<Call>, key: string)
    requires calls != [] && (calls[0].op.key != key ==> Step(cfg, s, calls[0]).1 == Step(cfg, t, calls[0]).1)
    requires OthersAnsweredAlike(cfg, Step(cfg, s, calls[0]).0, Step(cfg, t, calls[0]).0, calls[1..], key)
    ensures OthersAnsweredAlike(cfg, s, t, calls, key)
  {
    var a, b := Answers(cfg, s, calls), Answers(cfg, t, calls);
    forall i | 0 < i < |calls| && calls[i].op.key != key ensures a[i] == b[i] {
      assert calls[1..][i - 1] == calls[i];
    }
  }

  /** A clear changes no answer to a call on another key, in any run after it. */
  lemma ClearSparesOthers(cfg: Config, s: Store, keys: set<string>, at: real, calls: seq<Call>, key: string)
    requires KeepsApart(s, keys) && key in keys && UsesOnly(calls, keys)
    ensures OthersAnsweredAlike(cfg, s, Step(cfg, s, Call(ClearKey(key), at)).0, calls, key)
  {
    OnlyItsOwn(cfg, s, Call(ClearKey(key), at));
    OthersRun(cfg, s, s.Clear(key), keys, calls, key);
  }

  // From the threshold on, and for one window.

  /** The lock on `key` ends at `until`, and the store will not lose it before. */
  ghost predicate LockedTill(s: Store, key: string, until: real) {
    match s
    case Memory(_, locks) => key in locks && locks[key] == until
    case Redis(prefix, db) =>
      var lock := LockKey(prefix, key);
      && lock in db && db[lock].value == R.Until(until)
      && db[lock].expiry.Some? && until < db[lock].expiry.value
  }

  /** `n` failures of `key` are counted, to be forgotten at `end`; nothing is when `n` is zero. */
  ghost predicate CountsTo(s: Store, key: string, n: nat, end: real) {
    match s
    case Memory(counters, locks) =>
      key !in locks && (if n == 0 then key !in counters else key in counters && counters[key] == Counter(n, end))
    case Redis(prefix, db) =>
      var count, lock := CountKey(prefix, key), LockKey(prefix, key);
      && lock !in db
      && (if n == 0 then count !in db else count in db && db[count] == R.Cell(R.Count(n), Some(end)))
  }

  /** How long the store remembers a count. */
  function Span(cfg: Config, s: Store): real {
    if s.Memory? then cfg.window else RedisWindow(cfg.window) as real
  }

  lemma LockTakes(s: Store, key: string, until: real, at: real)
    ensures LockedTill(s.Lock(key, until, at).ResetFailures(key), key, until)
    ensures LockedTill(s.Lock(key, until, at), key, until)
  {
    LockCellOutlivesLock(until, at);
    if s.Redis? {
      assert |CountKey(s.prefix, key)| != |LockKey(s.prefix, key)|;
    }
  }

  /** A lock answers for exactly as long as it is meant to. */
  lemma LockedExactly(s: Store, key: string, until: real, now: real)
    requires LockedTill(s, key, until) && 0.0 <= now
    ensures Locked(s, key, now) <==> now < until
    ensures now < until ==> s.LockedUntil(key, now) == until
  {
  }

  lemma LockedOtherStep(cfg: Config, s: Store, keys: set<string>, call: Call, key: string, until: real)
    requires LockedTill(s, key, until) && KeepsApart(s, keys) && key in keys && call.op.key in keys
    requires call.op.key != key
    ensures SameKind(s, Step(cfg, s, call).0) && LockedTill(Step(cfg, s, call).0, key, until)
  {
    if s.Redis? {
      KeysApart(s.prefix, keys, key, call.op.key);
      KeysApart(s.prefix, keys, call.op.key, key);
    }
  }

  /** What a locked key answers. */
  predicate ShutAnswer(call: Call, until: real, answer: Answer) {
    match call.op
    case RecordFailure(_) => answer == Truth(true)
    case IsLocked(_) => answer == Truth(true)
    case RemainingLockSeconds(_) =>
      answer.Seconds? && answer.n >= 0 && answer.n as real <= until - call.now < answer.n as real + 1.0
    case _ => true
  }

  lemma LockedOwnStep(cfg: Config, s: Store, call: Call, key: string, until: real)
    requires LockedTill(s, key, until) && call.op.key == key && OfLimiter(call.op) && !call.op.ClearKey?
    requires 0.0 <= call.now < until
    ensures Step(cfg, s, call).0 == s && ShutAnswer(call, until, Step(cfg, s, call).1)
  {
    LockedExactly(s, key, until, call.now);
  }

  /** The run is one of a limiter and does not clear `key`. */
  predicate NeverCleared(calls: seq<Call>, key: string) {
    LimiterRun(calls) && forall i | 0 <= i < |calls| :: calls[i].op != ClearKey(key)
  }

  predicate AllBefore(calls: seq<Call>, end: real) {
    forall i | 0 <= i < |calls| :: calls[i].now < end
  }

  lemma {:induction false} LockedRun(cfg: Config, s: Store, keys: set<string>, calls: seq<Call>, key: string, until: real, now: real)
    requires LockedTill(s, key, until) && KeepsApart(s, keys) && key in keys && UsesOnly(calls, keys)
    requires 0.0 <= now && InOrder(now, calls) && NeverCleared(calls, key) && AllBefore(calls, until)
    ensures SameKind(s, After(cfg, s, calls)) && LockedTill(After(cfg, s, calls), key, until)
    ensures |Answers(cfg, s, calls)| == |calls|
    ensures forall i | 0 <= i < |calls| && calls[i].op.key == key :: ShutAnswer(calls[i], until, Answers(cfg, s, calls)[i])
    decreases |calls|
  {
    if calls != [] {
      var call := calls[0];
      if call.op.key == key {
        LockedOwnStep(cfg, s, call, key, until);
      } else {
        LockedOtherStep(cfg, s, keys, call, key, until);
      }
      LockedRun(cfg, Step(cfg, s, call).0, keys, calls[1..], key, until, call.now);
      forall i | 0 < i < |calls| && calls[i].op.key == key
        ensures ShutAnswer(calls[i], until, Answers(cfg, s, calls)[i])
      {
        assert calls[1..][i - 1] == calls[i];
      }
    }
  }

  /**
   * A failure that locks its key locks it for exactly one window: until then every failure and every
   * question is answered as locked, among any calls, and from then on the key is free.
   */
  lemma LockoutLastsOneWindow(cfg: Config, s: Store, keys: set<string>, at: real, calls: seq<Call>, key: string, later: real)
    requires KeepsApart(s, keys) && key in keys && UsesOnly(calls, keys)
    requires 0.0 <= at && !Locked(s, key, at) && Record(cfg, s, key, at).1 == Truth(true)
    requires InOrder(at, calls) && NeverCleared(calls, key) && AllBefore(calls, at + cfg.window) && at <= later
    ensures
      var locked := Record(cfg, s, key, at).0;
      && |Answers(cfg, locked, calls)| == |calls|
      && (forall i | 0 <= i < |calls| && calls[i].op.key == key ::
            ShutAnswer(calls[i], at + cfg.window, Answers(cfg, locked, calls)[i]))
      && (Locked(After(cfg, locked, calls), key, later) <==> later < at + cfg.window)
  {
    var locked, until := Record(cfg, s, key, at).0, at + cfg.window;
    LockTakes(s.AddFailure(key, cfg.window, at).value.0, key, until, at);
    LockedRun(cfg, locked, keys, calls, key, until, at);
    LockedExactly(After(cfg, locked, calls), key, until, later);
  }

  /** An interval that `allow` or `mark` starts runs for exactly its length. */
  lemma IntervalRunsExactly(cfg: Config, s: Store, call: Call, later: real)
    requires call.op.Mark? || (call.op.Allow? && Step(cfg, s, call).1 == Truth(true))
    requires 0.0 <= call.now <= later
    ensures
      var after := Step(cfg, s, call).0;
      && (Locked(after, call.op.key, later) <==> later < call.now + cfg.interval)
      && (Step(cfg, after, Call(Allow(call.op.key), later)).1 == Truth(later >= call.now + cfg.interval))
  {
    LockTakes(s, call.op.key, call.now + cfg.interval, call.now);
    LockedExactly(Step(cfg, s, call).0, call.op.key, call.now + cfg.interval, later);
  }

  /** One failure more below or at the threshold, while the count lives. */
  lemma CountOne(cfg: Config, s: Store, key: string, now: real, n: nat, end: real)
    requires CountsTo(s, key, n, end) && 0.0 <= now && (n > 0 ==> now < end)
    ensures
      var (s', answer) := Record(cfg, s, key, now);
      && SameKind(s, s') && answer == Truth(n + 1 >= cfg.maxFailures)
      && (if n + 1 >= cfg.maxFailures then LockedTill(s', key, now + cfg.window)
          else CountsTo(s', key, n + 1, if n == 0 then now + Span(cfg, s) else end))
  {
    if s.Redis? {
      assert |CountKey(s.prefix, key)| != |LockKey(s.prefix, key)|;
    }
    var added := s.AddFailure(key, cfg.window, now);
    assert added.Ok? && added.value.1 == n + 1;
    LockTakes(added.value.0, key, now + cfg.window, now);
  }

  lemma CountOtherStep(cfg: Config, s: Store, keys: set<string>, call: Call, key: string, n: nat, end: real)
    requires CountsTo(s, key, n, end) && KeepsApart(s, keys) && key in keys && call.op.key in keys
    requires OfLimiter(call.op) && call.op.key != key
    ensures SameKind(s, Step(cfg, s, call).0) && CountsTo(Step(cfg, s, call).0, key, n, end)
  {
    if s.Redis? {
      KeysApart(s.prefix, keys, key, call.op.key);
      KeysApart(s.prefix, keys, call.op.key, key);
    }
  }

  /** Every failure of `key` in the run answers whether, with `n` before it, the threshold is reached. */
  ghost predicate FailuresCountFrom(cfg: Config, s: Store, calls: seq<Call>, key: string, n: nat) {
    |Answers(cfg, s, calls)| == |calls|
    && forall i | 0 <= i < |calls| && calls[i].op == RecordFailure(key) ::
         Answers(cfg, s, calls)[i] == Truth(n + FailuresOf(calls[..i + 1], key) >= cfg.maxFailures)
  }

  lemma CountFromOneMore(cfg: Config, s: Store, calls: seq<Call>, key: string, n: nat, m: nat)
    requires calls != [] && m == n + if calls[0].op == RecordFailure(key) then 1 else 0
    requires calls[0].op == RecordFailure(key) ==> Step(cfg, s, calls[0]).1 == Truth(m >= cfg.maxFailures)
    requires FailuresCountFrom(cfg, Step(cfg, s, calls[0]).0, calls[1..], key, m)
    ensures FailuresCountFrom(cfg, s, calls, key, n)
  {
    var rest := calls[1..];
    forall i | 0 <= i < |calls| && calls[i].op == RecordFailure(key)
      ensures Answers(cfg, s, calls)[i] == Truth(n + FailuresOf(calls[..i + 1], key) >= cfg.maxFailures)
    {
      assert calls[..i + 1][0] == calls[0];
      if i == 0 {
        assert calls[..1][1..] == [];
      } else {
        assert calls[..i + 1][1..] == rest[..i];
        assert rest[i - 1] == calls[i];
        assert rest[..i - 1 + 1] == rest[..i];
      }
    }
  }

  /** Once locked past the end of the run, every further failure answers true. */
  lemma LockedCounts(cfg: Config, s: Store, keys: set<string>, calls: seq<Call>, key: string, n: nat, until: real, now: real)
    requires LockedTill(s, key, until) && KeepsApart(s, keys) && key in keys && UsesOnly(calls, keys)
    requires 0.0 <= now && InOrder(now, calls) && NeverCleared(calls, key) && AllBefore(calls, until)
    requires n >= cfg.maxFailures
    ensures FailuresCountFrom(cfg, s, calls, key, n)
  {
    LockedRun(cfg, s, keys, calls, key, until, now);
  }

  lemma {:induction false} CountRun(
      cfg: Config, s: Store, keys: set<string>, calls: seq<Call>, key: string, n: nat, end: real, now: real)
    requires CountsTo(s, key, n, end) && KeepsApart(s, keys) && key in keys && UsesOnly(calls, keys)
    requires 0.0 <= now && InOrder(now, calls) && NeverCleared(calls, key)
    requires n > 0 ==> AllBefore(calls, end) && AllBefore(calls, now + cfg.window)
    requires n == 0 ==> WithinOneWindow(cfg, Span(cfg, s), calls, key)
    ensures FailuresCountFrom(cfg, s, calls, key, n)
    decreases |calls|
  {
    if calls != [] {
      var call := calls[0];
      var s' := Step(cfg, s, call).0;
      if call.op == RecordFailure(key) {
        CountOne(cfg, s, key, call.now, n, end);
        if n + 1 >= cfg.maxFailures {
          LockedCounts(cfg, s', keys, calls[1..], key, n + 1, call.now + cfg.window, call.now);
        } else {
          CountRun(cfg, s', keys, calls[1..], key, n + 1, if n == 0 then call.now + Span(cfg, s) else end, call.now);
        }
        CountFromOneMore(cfg, s, calls, key, n, n + 1);
      } else {
        if call.op.key != key {
          CountOtherStep(cfg, s, keys, call, key, n, end);
        }
        CountRun(cfg, s', keys, calls[1..], key, n, end, call.now);
        CountFromOneMore(cfg, s, calls, key, n, n);
      }
    }
  }

  /** From the first failure of `key` on, the run ends within one window and while a count is remembered. */
  predicate WithinOneWindow(cfg: Config, span: real, calls: seq<Call>, key: string) {
    if calls == [] then true
    else if calls[0].op == RecordFailure(key) then
      AllBefore(calls, calls[0].now + cfg.window) && AllBefore(calls, calls[0].now + span)
    else WithinOneWindow(cfg, span, calls[1..], key)
  }

  /**
   * After a clear, within one window of the first failure: the failures of the key answer true exactly
   * from the threshold on, among any calls and whatever came before the clear.
   */
  lemma ThresholdIsExact(cfg: Config, s: Store, keys: set<string>, at: real, calls: seq<Call>, key: string)
    requires KeepsApart(s, keys) && key in keys && UsesOnly(calls, keys)
    requires 0.0 <= at && InOrder(at, calls) && NeverCleared(calls, key) && WithinOneWindow(cfg, Span(cfg, s), calls, key)
    ensures FailuresCountFrom(cfg, Step(cfg, s, Call(ClearKey(key), at)).0, calls, key, 0)
  {
    ClearOpens(s, key);
    CountRun(cfg, s.Clear(key), keys, calls, key, 0, 0.0, at);
  }
}
