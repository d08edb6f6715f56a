/** How many failures of one key the limiter lets through in any window. */
module SlidingWindow {
  import opened Common
  import opened AttemptStores
  import opened LoginRateLimit

  /** `call` is a failure of `key` that reaches the counter instead of meeting a lock. */
  predicate Counts(s: Store, call: Call, key: string) {
    call.op == RecordFailure(key) && !Locked(s, key, call.now)
  }

  /** The counted failures of `key` in the half-open window that opens at `from`. */
  function CountedWithin(cfg: Config, s: Store, calls: seq<Call>, key: string, from: real): nat
    decreases |calls|
  {
    if calls == [] then 0
    else
      (if Counts(s, calls[0], key) && from <= calls[0].now < from + cfg.window then 1 else 0)
      + CountedWithin(cfg, Step(cfg, s, calls[0]).0, calls[1..], key, from)
  }

  /** A call that neither clears `key` nor throttles mail under it; other keys are free. */
  predicate LimiterCall(call: Call, key: string) {
    call.op.key == key ==> !call.op.ClearKey? && !call.op.Allow? && !call.op.Mark?
  }

  predicate LimiterCalls(calls: seq<Call>, key: string) {
    forall i | 0 <= i < |calls| :: LimiterCall(calls[i], key)
  }

  function WindowLimit(maxFailures: int): int {
    Max(1, Max(maxFailures, 2 * maxFailures - 2))
  }

  /**
   * What `c` failures counted so far in the window say about the store at time `now`: the window
   * is over, or a lock outlasts it, or the live counter accounts for all but at most
   * `maxFailures - 2` of them (those of one earlier counter that had begun before the window).
   */
  ghost predicate WindowInvariant(cfg: Config, s: Store, key: string, from: real, c: nat, now: real)
    requires s.Memory?
  {
    var n, close := cfg.maxFailures, from + cfg.window;
    && c <= WindowLimit(n)
    && (c > 0 ==> from <= now)
    && (|| close <= now
        || close <= s.LockedUntil(key, now)
        || (if key !in s.counters then c == 0
            else
              var Counter(f, e) := s.counters[key];
              1 <= f < n && (if e < close then c <= f - 1 else c <= f + Max(0, n - 2))))
  }

  lemma WindowStep(cfg: Config, s: Store, call: Call, key: string, from: real, c: nat, now: real)
    requires s.Memory? && WindowInvariant(cfg, s, key, from, c, now)
    requires now <= call.now && LimiterCall(call, key)
    ensures
      var hit := if Counts(s, call, key) && from <= call.now < from + cfg.window then 1 else 0;
      var s' := Step(cfg, s, call).0;
      s'.Memory? && WindowInvariant(cfg, s', key, from, c + hit, call.now)
  {
    if call.op.key != key {
      assert Step(cfg, s, call).0.LockedUntil(key, call.now) == s.LockedUntil(key, now);
    } else if call.op.RecordFailure? && !Locked(s, key, call.now) {
      var added := s.AddFailure(key, cfg.window, call.now);
      assert added.value.1 == added.value.0.counters[key].failures;
    }
  }

  lemma {:induction false} WindowRun(
      cfg: Config, s: Store, calls: seq<Call>, key: string, from: real, c: nat, now: real)
    requires s.Memory? && WindowInvariant(cfg, s, key, from, c, now)
    requires InOrder(now, calls) && LimiterCalls(calls, key)
    ensures c + CountedWithin(cfg, s, calls, key, from) <= WindowLimit(cfg.maxFailures)
    decreases |calls|
  {
    if calls != [] {
      assert LimiterCall(calls[0], key);
      WindowStep(cfg, s, calls[0], key, from, c, now);
      var hit := if Counts(s, calls[0], key) && from <= calls[0].now < from + cfg.window then 1 else 0;
      WindowRun(cfg, Step(cfg, s, calls[0]).0, calls[1..], key, from, c + hit, calls[0].now);
    }
  }

  /** Any window of `window` seconds holds at most max(N, 2N - 2) counted failures of a key. */
  lemma SlidingWindowBound(cfg: Config, calls: seq<Call>, key: string, from: real, start: real)
    requires InOrder(start, calls) && LimiterCalls(calls, key)
    ensures CountedWithin(cfg, EMPTY_MEMORY, calls, key, from) <= WindowLimit(cfg.maxFailures)
  {
    WindowRun(cfg, EMPTY_MEMORY, calls, key, from, 0, start);
  }

  /** The end of a lock never moves back along a run. */
  lemma {:induction false} LockEndMovesForward(
      cfg: Config, s: Store, calls: seq<Call>, key: string, now: real)
    requires s.Memory? && cfg.window >= 0.0
    requires LimiterCalls(calls, key)
    ensures After(cfg, s, calls).Memory?
    ensures s.LockedUntil(key, now) <= After(cfg, s, calls).LockedUntil(key, now)
    decreases |calls|
  {
    if calls != [] {
      assert LimiterCall(calls[0], key);
      LockEndMovesForward(cfg, Step(cfg, s, calls[0]).0, calls[1..], key, now);
    }
  }

  // Throttled mail.

  lemma {:induction false} LaterAllowWaits(
      cfg: Config, s: Store, calls: seq<Call>, call: Call, key: string, free: real, now: real)
    requires s.Memory? && InOrder(now, calls + [call]) && call.op == Allow(key)
    requires forall i | 0 <= i < |calls| :: calls[i].op != ClearKey(key)
    requires now >= free || s.LockedUntil(key, now) >= free
    requires free <= now + cfg.interval
    ensures After(cfg, s, calls).Memory?
    ensures Step(cfg, After(cfg, s, calls), call).1 == Truth(true) ==> call.now >= free
    decreases |calls|
  {
    if calls == [] {
      assert calls + [call] == [call];
    } else {
      assert (calls + [call])[1..] == calls[1..] + [call];
      var s1 := Step(cfg, s, calls[0]).0;
      assert calls[0].now >= free || s1.LockedUntil(key, now) >= free;
      LaterAllowWaits(cfg, s1, calls[1..], call, key, free, calls[0].now);
    }
  }

  /** At most one mail per key and interval: a later `allow` that says yes comes an interval later. */
  lemma AllowedMailsAreSpaced(cfg: Config, s: Store, first: Call, between: seq<Call>, call: Call, key: string)
    requires s.Memory?
    requires first.op == Allow(key) && call.op == Allow(key) && InOrder(first.now, between + [call])
    requires forall i | 0 <= i < |between| :: between[i].op != ClearKey(key)
    requires Step(cfg, s, first).1 == Truth(true)
    ensures
      var later := After(cfg, Step(cfg, s, first).0, between);
      later.Memory? && (Step(cfg, later, call).1 == Truth(true) ==> call.now >= first.now + cfg.interval)
  {
    LaterAllowWaits(cfg, Step(cfg, s, first).0, between, call, key, first.now + cfg.interval, first.now);
  }

  // The bound is reached, so no smaller one holds.

  function Repeat(n: nat, key: string, now: real): (calls: seq<Call>)
    ensures |calls| == n
  {
    if n == 0 then [] else [Call(RecordFailure(key), now)] + Repeat(n - 1, key, now)
  }

  predicate HasCounter(s: Store, key: string, now: real)
    requires s.Memory?
  {
    key in s.counters && now < s.counters[key].expiresAt
  }

  function Failures(s: Store, key: string, now: real): int
    requires s.Memory?
  {
    if HasCounter(s, key, now) then s.counters[key].failures else 0
  }

  /** The store after `n` more failures of `key` at one moment, all below the threshold. */
  function Filled(cfg: Config, s: Store, n: nat, key: string, now: real): Store
    requires s.Memory?
  {
    if n == 0 then s
    else
      var expiresAt := if HasCounter(s, key, now) then s.counters[key].expiresAt else now + cfg.window;
      Memory(s.counters[key := Counter(Failures(s, key, now) + n, expiresAt)], s.locks)
  }

  lemma RepeatHead(n: nat, key: string, now: real, rest: seq<Call>)
    requires n > 0
    ensures
      var calls := Repeat(n, key, now) + rest;
      calls[0] == Call(RecordFailure(key), now) && calls[1..] == Repeat(n - 1, key, now) + rest
  {
  }

  lemma CountedHead(cfg: Config, s: Store, calls: seq<Call>, key: string, from: real, next: Store, rest: seq<Call>)
    requires calls != [] && Counts(s, calls[0], key) && next == Step(cfg, s, calls[0]).0 && rest == calls[1..]
    ensures CountedWithin(cfg, s, calls, key, from)
         == (if from <= calls[0].now < from + cfg.window then 1 else 0) + CountedWithin(cfg, next, rest, key, from)
  {
  }

  lemma OneFailureFills(cfg: Config, s: Store, key: string, now: real)
    requires s.Memory? && !Locked(s, key, now) && Failures(s, key, now) + 1 < cfg.maxFailures
    ensures Step(cfg, s, Call(RecordFailure(key), now)).0 == Filled(cfg, s, 1, key, now)
  {
  }

  lemma FilledFurther(cfg: Config, s: Store, n: nat, key: string, now: real)
    requires s.Memory? && !Locked(s, key, now) && cfg.window > 0.0
    ensures
      var one := Filled(cfg, s, 1, key, now);
      && !Locked(one, key, now) && Failures(one, key, now) == Failures(s, key, now) + 1
      && Filled(cfg, one, n, key, now) == Filled(cfg, s, n + 1, key, now)
  {
  }

  /** `n` more failures at one moment fill a live counter without locking, and every one is counted. */
  lemma {:induction false} RepeatCounts(
      cfg: Config, s: Store, n: nat, key: string, now: real, rest: seq<Call>, from: real)
    requires s.Memory? && !Locked(s, key, now) && cfg.window > 0.0
    requires Failures(s, key, now) + n < cfg.maxFailures
    ensures CountedWithin(cfg, s, Repeat(n, key, now) + rest, key, from)
         == (if from <= now < from + cfg.window then n else 0)
            + CountedWithin(cfg, Filled(cfg, s, n, key, now), rest, key, from)
    decreases n
  {
    var calls := Repeat(n, key, now);
    if n == 0 {
      assert calls + rest == rest;
    } else {
      OneFailureFills(cfg, s, key, now);
      FilledFurther(cfg, s, n - 1, key, now);
      RepeatCounts(cfg, Filled(cfg, s, 1, key, now), n - 1, key, now, rest, from);
      RepeatHead(n, key, now, rest);
      CountedHead(cfg, s, calls + rest, key, from, Filled(cfg, s, 1, key, now), Repeat(n - 1, key, now) + rest);
    }
  }

  lemma {:induction false} RepeatInOrder(n: nat, key: string, now: real, start: real, rest: seq<Call>)
    requires start <= now && InOrder(now, rest)
    ensures InOrder(start, Repeat(n, key, now) + rest)
    ensures LimiterCalls(rest, key) ==> LimiterCalls(Repeat(n, key, now) + rest, key)
  {
    if n == 0 {
      assert Repeat(n, key, now) + rest == rest;
      assert rest != [] ==> start <= rest[0].now;
    } else {
      RepeatInOrder(n - 1, key, now, now, rest);
      var calls := Repeat(n, key, now);
      assert (calls + rest)[1..] == Repeat(n - 1, key, now) + rest;
    }
  }

  /** One early failure, N - 2 at half a window, N once the first counter has expired. */
  function FullRun(cfg: Config, key: string): seq<Call>
    requires cfg.maxFailures >= 2
  {
    Repeat(1, key, 0.0) + (Repeat(cfg.maxFailures - 2, key, cfg.window / 2.0) + LastPart(cfg, key))
  }

  function LastPart(cfg: Config, key: string): seq<Call>
    requires cfg.maxFailures >= 2
  {
    Repeat(cfg.maxFailures - 1, key, cfg.window) + [Call(RecordFailure(key), cfg.window)]
  }

  lemma FullRunIsInOrder(cfg: Config, key: string)
    requires cfg.maxFailures >= 2 && cfg.window > 0.0
    ensures InOrder(0.0, FullRun(cfg, key)) && LimiterCalls(FullRun(cfg, key), key)
  {
    var n, w := cfg.maxFailures, cfg.window;
    RepeatInOrder(n - 1, key, w, w / 2.0, [Call(RecordFailure(key), w)]);
    RepeatInOrder(n - 2, key, w / 2.0, 0.0, LastPart(cfg, key));
    RepeatInOrder(1, key, 0.0, 0.0, Repeat(n - 2, key, w / 2.0) + LastPart(cfg, key));
  }

  lemma LastPartCounts(cfg: Config, key: string)
    requires cfg.maxFailures >= 2 && cfg.window > 0.0
    ensures
      var s := Memory(map[key := Counter(cfg.maxFailures - 1, cfg.window)], map[]);
      CountedWithin(cfg, s, LastPart(cfg, key), key, cfg.window / 2.0) == cfg.maxFailures
  {
    var n, w, last := cfg.maxFailures, cfg.window, Call(RecordFailure(key), cfg.window);
    var s := Memory(map[key := Counter(n - 1, w)], map[]);
    RepeatCounts(cfg, s, n - 1, key, w, [last], w / 2.0);
    var full := Filled(cfg, s, n - 1, key, w);
    assert !Locked(full, key, w);
    assert CountedWithin(cfg, full, [last], key, w / 2.0) == 1;
  }

  /** For every threshold of at least two, one run counts exactly 2N - 2 failures in one window. */
  lemma SlidingWindowBoundIsReached(cfg: Config, key: string)
    requires cfg.maxFailures >= 2 && cfg.window > 0.0
    ensures InOrder(0.0, FullRun(cfg, key)) && LimiterCalls(FullRun(cfg, key), key)
    ensures CountedWithin(cfg, EMPTY_MEMORY, FullRun(cfg, key), key, cfg.window / 2.0) == WindowLimit(cfg.maxFailures)
  {
    var n, w, half := cfg.maxFailures, cfg.window, cfg.window / 2.0;
    FullRunIsInOrder(cfg, key);
    RepeatCounts(cfg, EMPTY_MEMORY, 1, key, 0.0, Repeat(n - 2, key, half) + LastPart(cfg, key), half);
    var s1 := Memory(map[key := Counter(1, w)], map[]);
    RepeatCounts(cfg, s1, n - 2, key, half, LastPart(cfg, key), half);
    assert s1.counters[key := Counter(n - 1, w)] == map[key := Counter(n - 1, w)];
    LastPartCounts(cfg, key);
  }
}
