/** `record_failure` on one key by several replicas, one Redis command at a time. */
module Replicas {
  import opened Common
  import opened AttemptStores
  import R = RedisCommands
  import L = LoginRateLimit

  datatype Config = Config(maxFailures: int, window: real, countName: string, lockName: string)

  /** How far a replica's `record_failure` has come; `at` is the time it read when it began. */
  datatype Phase =
    | Idle
    | Begun(at: real)
    | Unlocked(at: real)
    | Incremented(at: real, count: int)  // saw no expiry, has to set one
    | Counted(at: real, count: int)      // `add_failure` has returned
    | LockWritten(at: real)

  /**
   * The shared database and every replica's phase. The rest is history: how many counters were
   * created, whether a lock was written since the last creation, how many replicas died over the
   * threshold since then, the times at which calls began, and the times the calls that wrote the
   * lock had read, in the order of their writes since the last clear.
   */
  datatype World = World(
    db: R.Db, now: real, phases: map<nat, Phase>,
    created: nat, lockedSince: bool, died: nat, begun: set<real>, writers: seq<real>)

  datatype Event =
    | Begin(r: nat)
    | Check(r: nat)
    | Incr(r: nat)
    | SetExpiry(r: nat)
    | Decide(r: nat)
    | Reset(r: nat)
    | Die(r: nat)
    | ClearKey
    | Tick(now: real)

  predicate Enabled(w: World, e: Event) {
    match e
    case Tick(now) => w.now <= now
    case ClearKey => true
    case Begin(r) => r in w.phases && w.phases[r].Idle?
    case Check(r) => r in w.phases && w.phases[r].Begun?
    case Incr(r) => r in w.phases && w.phases[r].Unlocked?
    case SetExpiry(r) => r in w.phases && w.phases[r].Incremented?
    case Decide(r) => r in w.phases && w.phases[r].Counted?
    case Reset(r) => r in w.phases && w.phases[r].LockWritten?
    case Die(r) => r in w.phases
  }

  /** The replica has counted past the threshold and has not written its lock yet. */
  predicate Over(cfg: Config, p: Phase) {
    (p.Incremented? || p.Counted?) && p.count >= cfg.maxFailures
  }

  function Goes(w: World, r: nat, p: Phase): World {
    w.(phases := w.phases[r := p])
  }

  function LockEnd(cfg: Config, db: R.Db, now: real): real {
    match R.Get(db, cfg.lockName, now)
    case Some(Until(at)) => at
    case Some(Count(n)) => n as real
    case None => 0.0
  }

  function Step(cfg: Config, w: World, e: Event): World
    requires Enabled(w, e)
  {
    match e
    case Tick(now) => w.(now := now)
    case ClearKey => w.(db := R.Del(w.db, {cfg.countName, cfg.lockName}), writers := [])
    case Begin(r) => Goes(w, r, Begun(w.now)).(begun := w.begun + {w.now})
    case Check(r) =>
      var at := w.phases[r].at;
      Goes(w, r, if at < LockEnd(cfg, w.db, w.now) then Idle else Unlocked(at))
    case Incr(r) =>
      var at := w.phases[r].at;
      (match R.Incr(w.db, cfg.countName, w.now)
       case Err => Goes(w, r, Idle)
       case Ok((db, count)) =>
         var next := if R.Ttl(db, cfg.countName, w.now).Persistent?
                     then Incremented(at, count) else Counted(at, count);
         var w' := Goes(w, r, next).(db := db);
         if R.Live(w.db, cfg.countName, w.now) then w'
         else w'.(created := w.created + 1, lockedSince := false, died := 0))
    case SetExpiry(r) =>
      var p := w.phases[r];
      Goes(w, r, Counted(p.at, p.count))
        .(db := R.Expire(w.db, cfg.countName, RedisWindow(cfg.window), w.now))
    case Decide(r) =>
      var p := w.phases[r];
      if p.count < cfg.maxFailures then Goes(w, r, Idle)
      else
        var until := p.at + cfg.window;
        var ttl := Max(1, Truncate(until - p.at) + 1);
        Goes(w, r, LockWritten(p.at))
          .(db := R.SetEx(w.db, cfg.lockName, R.Until(until), ttl, w.now), lockedSince := true,
            writers := w.writers + [p.at])
    case Reset(r) => Goes(w, r, Idle).(db := R.Del(w.db, {cfg.countName}))
    case Die(r) => Goes(w, r, Idle).(died := if Over(cfg, w.phases[r]) then w.died + 1 else w.died)
  }

  /** A run: every event is enabled where it happens. */
  predicate Runs(cfg: Config, w: World, events: seq<Event>)
    decreases |events|
  {
    events == [] || (Enabled(w, events[0]) && Runs(cfg, Step(cfg, w, events[0]), events[1..]))
  }

  function After(cfg: Config, w: World, events: seq<Event>): World
    requires Runs(cfg, w, events)
    decreases |events|
  {
    if events == [] then w else After(cfg, Step(cfg, w, events[0]), events[1..])
  }

  function Start(replicas: set<nat>, now: real): World {
    World(map[], now, map r | r in replicas :: Idle, 0, false, 0, {}, [])
  }

  // The counter stays near the threshold until a lock is written.

  function OverThreshold(cfg: Config, w: World): set<nat> {
    set r | r in w.phases && Over(cfg, w.phases[r])
  }

  ghost predicate Inv(cfg: Config, w: World, replicas: set<nat>) {
    && cfg.countName != cfg.lockName
    && w.phases.Keys == replicas
    && (forall r | r in w.phases && !w.phases[r].Idle? :: w.phases[r].at in w.begun)
    && (forall t | t in w.begun :: t <= w.now)
    && (cfg.countName in w.db ==> w.db[cfg.countName].value.Count?)
    && LockOfLastWriter(cfg, w)
    && Bounded(cfg, w)
  }

  /** The lock ends one window after the time its last writer read. */
  ghost predicate LockOfLastWriter(cfg: Config, w: World) {
    && (forall i | 0 <= i < |w.writers| :: w.writers[i] in w.begun)
    && (cfg.lockName in w.db <==> w.writers != [])
    && (w.writers != [] ==> w.db[cfg.lockName].value == R.Until(w.writers[|w.writers| - 1] + cfg.window))
  }

  lemma SizeWithout(s: set<nat>, r: nat)
    ensures |s| == |s - {r}| + if r in s then 1 else 0
  {
    if r in s {
      assert s == (s - {r}) + {r};
    } else {
      assert s == s - {r};
    }
  }

  lemma OverThresholdMoves(cfg: Config, w: World, r: nat, p: Phase)
    requires r in w.phases
    ensures
      var before, after := OverThreshold(cfg, w), OverThreshold(cfg, Goes(w, r, p));
      |after| == |before| - (if Over(cfg, w.phases[r]) then 1 else 0) + (if Over(cfg, p) then 1 else 0)
  {
    var before, after := OverThreshold(cfg, w), OverThreshold(cfg, Goes(w, r, p));
    assert after - {r} == before - {r};
    SizeWithout(before, r);
    SizeWithout(after, r);
  }

  /** The bound itself, the one clause of the invariant that counts. */
  predicate Bounded(cfg: Config, w: World) {
    R.Live(w.db, cfg.countName, w.now) && !w.lockedSince && w.db[cfg.countName].value.Count? ==>
      w.db[cfg.countName].value.n <= Max(cfg.maxFailures - 1, 0) + |OverThreshold(cfg, w)| + w.died
  }

  lemma BoundedStep(cfg: Config, w: World, e: Event, replicas: set<nat>)
    requires Inv(cfg, w, replicas) && Enabled(w, e)
    ensures Bounded(cfg, Step(cfg, w, e))
  {
    var w' := Step(cfg, w, e);
    if e.Tick? || e.ClearKey? {
      assert OverThreshold(cfg, w') == OverThreshold(cfg, w);
    } else {
      OverThresholdMoves(cfg, w, e.r, w'.phases[e.r]);
      assert OverThreshold(cfg, w') == OverThreshold(cfg, Goes(w, e.r, w'.phases[e.r]));
    }
  }

  lemma LockOfLastWriterStep(cfg: Config, w: World, e: Event, replicas: set<nat>)
    requires Inv(cfg, w, replicas) && Enabled(w, e)
    ensures LockOfLastWriter(cfg, Step(cfg, w, e))
  {
  }

  lemma InvStep(cfg: Config, w: World, e: Event, replicas: set<nat>)
    requires Inv(cfg, w, replicas) && Enabled(w, e)
    ensures Inv(cfg, Step(cfg, w, e), replicas)
  {
    BoundedStep(cfg, w, e, replicas);
    LockOfLastWriterStep(cfg, w, e, replicas);
  }

  lemma {:induction false} InvRun(cfg: Config, w: World, events: seq<Event>, replicas: set<nat>)
    requires Inv(cfg, w, replicas) && Runs(cfg, w, events)
    ensures Inv(cfg, After(cfg, w, events), replicas)
    decreases |events|
  {
    if events != [] {
      InvStep(cfg, w, events[0], replicas);
      InvRun(cfg, Step(cfg, w, events[0]), events[1..], replicas);
    }
  }

  /**
   * Whatever the interleaving, a live counter stands at most the number of replicas (and of
   * replicas that died over the threshold) above max_failures - 1 until a lock is written.
   */
  lemma CounterBound(cfg: Config, replicas: set<nat>, start: real, events: seq<Event>)
    requires cfg.countName != cfg.lockName && Runs(cfg, Start(replicas, start), events)
    ensures
      var w := After(cfg, Start(replicas, start), events);
      R.Live(w.db, cfg.countName, w.now) && !w.lockedSince ==>
        && w.db[cfg.countName].value.Count?
        && w.db[cfg.countName].value.n <= Max(cfg.maxFailures - 1, 0) + |replicas| + w.died
  {
    var w := After(cfg, Start(replicas, start), events);
    InvRun(cfg, Start(replicas, start), events, replicas);
    SubsetSize(OverThreshold(cfg, w), replicas);
  }

  lemma {:induction false} SubsetSize(a: set<nat>, b: set<nat>)
    requires a <= b
    ensures |a| <= |b|
  {
    if a != {} {
      var x :| x in a;
      SubsetSize(a - {x}, b - {x});
    }
  }

  /**
   * There is a lock exactly when some call has written one since the last clear. It ends one window
   * after the time the last writer read, never more than a window from now.
   */
  lemma LockEndsAWindowAfterItsWriter(cfg: Config, replicas: set<nat>, start: real, events: seq<Event>)
    requires cfg.countName != cfg.lockName && Runs(cfg, Start(replicas, start), events)
    ensures
      var w := After(cfg, Start(replicas, start), events);
      && (cfg.lockName in w.db <==> w.writers != [])
      && (w.writers != [] ==> w.db[cfg.lockName].value == R.Until(w.writers[|w.writers| - 1] + cfg.window))
      && (forall i | 0 <= i < |w.writers| :: w.writers[i] in w.begun && w.writers[i] <= w.now)
  {
    InvRun(cfg, Start(replicas, start), events, replicas);
  }

  // No count outlives its window for good.

  /** `e` is the last command of an `add_failure`. */
  predicate CompletesAddFailure(cfg: Config, w: World, e: Event)
    requires Enabled(w, e)
  {
    e.SetExpiry? || (e.Incr? && Step(cfg, w, e).phases[e.r].Counted?)
  }

  predicate CounterExpires(cfg: Config, w: World, counter: nat) {
    && counter <= w.created
    && (w.created == counter && R.Live(w.db, cfg.countName, w.now) ==> w.db[cfg.countName].expiry.Some?)
  }

  lemma {:induction false} ExpiryStays(cfg: Config, w: World, events: seq<Event>, counter: nat)
    requires cfg.countName != cfg.lockName && CounterExpires(cfg, w, counter) && Runs(cfg, w, events)
    ensures CounterExpires(cfg, After(cfg, w, events), counter)
    decreases |events|
  {
    if events != [] {
      ExpiryStays(cfg, Step(cfg, w, events[0]), events[1..], counter);
    }
  }

  /**
   * Once any `add_failure` completes, the counter it leaves has an expiry for the rest of its
   * life, from whatever state it found, so also when an earlier call died before its EXPIRE.
   */
  lemma CompletedCallLeavesExpiry(cfg: Config, w: World, e: Event, events: seq<Event>)
    requires cfg.countName != cfg.lockName
    requires Enabled(w, e) && CompletesAddFailure(cfg, w, e) && Runs(cfg, Step(cfg, w, e), events)
    ensures CounterExpires(cfg, After(cfg, Step(cfg, w, e), events), Step(cfg, w, e).created)
  {
    ExpiryStays(cfg, Step(cfg, w, e), events, Step(cfg, w, e).created);
  }

  /** What the history says: a counter that is created starts it afresh, a lock and a death over the threshold are noted. */
  lemma HistoryIsKept(cfg: Config, w: World, e: Event)
    requires Enabled(w, e)
    ensures
      var w' := Step(cfg, w, e);
      && (e.Incr? && !R.Live(w.db, cfg.countName, w.now) ==>
            w'.created == w.created + 1 && !w'.lockedSince && w'.died == 0)
      && (e.Decide? && w.phases[e.r].count >= cfg.maxFailures ==>
            w'.lockedSince && w'.writers == w.writers + [w.phases[e.r].at])
      && (e.Die? ==> w'.died == w.died + (if Over(cfg, w.phases[e.r]) then 1 else 0) && w'.db == w.db)
  {
  }

  // The bound is reached.

  predicate NoClear(events: seq<Event>) {
    forall i | 0 <= i < |events| :: !events[i].ClearKey?
  }

  lemma {:induction false} OneMore(cfg: Config, w: World, events: seq<Event>, e: Event)
    requires Runs(cfg, w, events) && Enabled(After(cfg, w, events), e)
    ensures Runs(cfg, w, events + [e])
    ensures After(cfg, w, events + [e]) == Step(cfg, After(cfg, w, events), e)
    decreases |events|
  {
    if events == [] {
      assert events + [e] == [e];
      assert Runs(cfg, Step(cfg, w, e), [e][1..]);
    } else {
      OneMore(cfg, Step(cfg, w, events[0]), events[1..], e);
      assert (events + [e])[1..] == events[1..] + [e];
    }
  }

  /** The counter stands at `c` and lives past `until`; at zero there is none. */
  ghost predicate CounterAt(cfg: Config, w: World, c: nat, until: real) {
    if c == 0 then cfg.countName !in w.db
    else R.Live(w.db, cfg.countName, until) && w.db[cfg.countName].value == R.Count(c)
  }

  /** Time zero, no lock, and a counter that stands at `c` for half a second at least. */
  ghost predicate CountIs(cfg: Config, w: World, c: nat) {
    && w.now == 0.0 && !w.lockedSince && w.died == 0 && cfg.lockName !in w.db
    && CounterAt(cfg, w, c, 0.5)
  }

  /** The replicas of `ready` have passed the lock check; the others are idle. */
  ghost predicate Passed(w: World, replicas: set<nat>, ready: set<nat>) {
    && w.phases.Keys == replicas
    && forall r | r in replicas :: w.phases[r] == if r in ready then Unlocked(0.0) else Idle
  }

  /** The replica has counted to `count`, with or without an expiry still to set. */
  predicate HasCounted(p: Phase, at: real, count: int) {
    p == Incremented(at, count) || p == Counted(at, count)
  }

  /** Nothing but this replica's phase and the counter has changed. */
  ghost predicate OnlyCounted(cfg: Config, w: World, w': World, r: nat) {
    && r in w'.phases && w'.phases == w.phases[r := w'.phases[r]]
    && w'.now == w.now && w'.writers == w.writers
    && w'.db - {cfg.countName} == w.db - {cfg.countName}
    && (w'.lockedSince ==> w.lockedSince) && w'.died <= w.died
  }

  /** A single INCR. */
  lemma OneIncr(cfg: Config, w: World, r: nat, c: nat, until: real)
    requires r in w.phases && w.phases[r].Unlocked? && CounterAt(cfg, w, c, until) && w.now <= until
    ensures
      var w' := Step(cfg, w, Incr(r));
      && HasCounted(w'.phases[r], w.phases[r].at, c + 1)
      && CounterAt(cfg, w', c + 1, until) && OnlyCounted(cfg, w, w', r)
  {
    var db := Step(cfg, w, Incr(r)).db;
    assert db == w.db[cfg.countName := db[cfg.countName]];
  }

  /** `add_failure` to its end. */
  lemma CountUp(cfg: Config, w: World, events: seq<Event>, r: nat, c: nat, until: real) returns (more: seq<Event>)
    requires Runs(cfg, w, events)
    requires
      var before := After(cfg, w, events);
      && r in before.phases && before.phases[r].Unlocked?
      && CounterAt(cfg, before, c, until) && before.now <= until < before.now + 1.0
    ensures Runs(cfg, w, more) && (NoClear(events) ==> NoClear(more))
    ensures
      var before, counted := After(cfg, w, events), After(cfg, w, more);
      && r in counted.phases && counted.phases[r] == Counted(before.phases[r].at, c + 1)
      && CounterAt(cfg, counted, c + 1, until) && OnlyCounted(cfg, before, counted, r)
  {
    var before := After(cfg, w, events);
    OneIncr(cfg, before, r, c, until);
    OneMore(cfg, w, events, Incr(r));
    more := events + [Incr(r)];
    var counted := After(cfg, w, more);
    if counted.phases[r].Incremented? {
      OneExpiry(cfg, before, counted, r, c + 1, until);
      OneMore(cfg, w, more, SetExpiry(r));
      more := more + [SetExpiry(r)];
    }
  }

  lemma OneExpiry(cfg: Config, before: World, w: World, r: nat, c: nat, until: real)
    requires OnlyCounted(cfg, before, w, r) && CounterAt(cfg, w, c, until)
    requires w.phases[r].Incremented? && c > 0 && w.now <= until < w.now + 1.0
    ensures
      var w' := Step(cfg, w, SetExpiry(r));
      && w'.phases[r] == Counted(w.phases[r].at, w.phases[r].count)
      && CounterAt(cfg, w', c, until) && OnlyCounted(cfg, before, w', r)
  {
    var db := Step(cfg, w, SetExpiry(r)).db;
    assert db == w.db[cfg.countName := db[cfg.countName]];
    assert db - {cfg.countName} == w.db - {cfg.countName};
  }

  lemma LockKept(cfg: Config, w: World, w': World, r: nat)
    requires cfg.countName != cfg.lockName && OnlyCounted(cfg, w, w', r)
    ensures cfg.lockName in w'.db <==> cfg.lockName in w.db
    ensures cfg.lockName in w.db ==> w'.db[cfg.lockName] == w.db[cfg.lockName]
  {
    var rest := w.db - {cfg.countName};
    assert cfg.lockName in w.db <==> cfg.lockName in rest;
    assert cfg.lockName in w'.db <==> cfg.lockName in w'.db - {cfg.countName};
    if cfg.lockName in w.db {
      assert (w'.db - {cfg.countName})[cfg.lockName] == rest[cfg.lockName];
    }
  }

  /** One whole call that stays under the threshold. */
  lemma OneQuietCall(cfg: Config, w: World, events: seq<Event>, replicas: set<nat>, r: nat, c: nat)
    returns (more: seq<Event>)
    requires cfg.countName != cfg.lockName && r in replicas && c + 1 < cfg.maxFailures && Runs(cfg, w, events)
    requires CountIs(cfg, After(cfg, w, events), c) && Passed(After(cfg, w, events), replicas, {})
    ensures Runs(cfg, w, more)
    ensures CountIs(cfg, After(cfg, w, more), c + 1) && Passed(After(cfg, w, more), replicas, {})
  {
    more := OnePasses(cfg, w, events, replicas, {}, r, c);
    var passed := After(cfg, w, more);
    more := CountUp(cfg, w, more, r, c, 0.5);
    LockKept(cfg, passed, After(cfg, w, more), r);
    OneMore(cfg, w, more, Decide(r));
    more := more + [Decide(r)];
  }

  lemma OnePasses(cfg: Config, w: World, events: seq<Event>, replicas: set<nat>, ready: set<nat>, r: nat, c: nat)
    returns (more: seq<Event>)
    requires cfg.countName != cfg.lockName && r in replicas && r !in ready && Runs(cfg, w, events)
    requires CountIs(cfg, After(cfg, w, events), c) && Passed(After(cfg, w, events), replicas, ready)
    ensures Runs(cfg, w, more)
    ensures CountIs(cfg, After(cfg, w, more), c) && Passed(After(cfg, w, more), replicas, ready + {r})
  {
    OneMore(cfg, w, events, Begin(r)); more := events + [Begin(r)];
    OneMore(cfg, w, more, Check(r)); more := more + [Check(r)];
  }

  lemma {:induction false} QuietCalls(cfg: Config, w: World, replicas: set<nat>, r: nat, c: nat) returns (events: seq<Event>)
    requires cfg.countName != cfg.lockName && r in replicas && (c == 0 || c < cfg.maxFailures)
    requires CountIs(cfg, w, 0) && Passed(w, replicas, {})
    ensures Runs(cfg, w, events)
    ensures CountIs(cfg, After(cfg, w, events), c) && Passed(After(cfg, w, events), replicas, {})
    decreases c
  {
    if c == 0 {
      events := [];
    } else {
      var before := QuietCalls(cfg, w, replicas, r, c - 1);
      events := OneQuietCall(cfg, w, before, replicas, r, c - 1);
    }
  }

  lemma {:induction false} AllPass(cfg: Config, w: World, events: seq<Event>, replicas: set<nat>, ready: set<nat>, c: nat)
    returns (more: seq<Event>)
    requires cfg.countName != cfg.lockName && ready <= replicas && Runs(cfg, w, events)
    requires CountIs(cfg, After(cfg, w, events), c) && Passed(After(cfg, w, events), replicas, {})
    ensures Runs(cfg, w, more)
    ensures CountIs(cfg, After(cfg, w, more), c) && Passed(After(cfg, w, more), replicas, ready)
    decreases ready
  {
    if ready == {} {
      more := events;
    } else {
      var r :| r in ready;
      more := AllPass(cfg, w, events, replicas, ready - {r}, c);
      more := OnePasses(cfg, w, more, replicas, ready - {r}, r, c);
      assert ready - {r} + {r} == ready;
    }
  }

  /** The replicas of `done` have counted on top of `c`; the others are about to. */
  ghost predicate Counting(cfg: Config, w: World, replicas: set<nat>, done: set<nat>, c: nat) {
    && CountIs(cfg, w, c + |done|) && w.phases.Keys == replicas
    && forall r | r in replicas && r !in done :: w.phases[r] == Unlocked(0.0)
  }

  lemma OneCounts(cfg: Config, w: World, replicas: set<nat>, done: set<nat>, r: nat, c: nat)
    requires cfg.countName != cfg.lockName && Counting(cfg, w, replicas, done, c) && r in replicas && r !in done
    ensures Counting(cfg, Step(cfg, w, Incr(r)), replicas, done + {r}, c)
  {
    OneIncr(cfg, w, r, c + |done|, 0.5);
    LockKept(cfg, w, Step(cfg, w, Incr(r)), r);
  }

  lemma {:induction false} AllCount(cfg: Config, w: World, events: seq<Event>, replicas: set<nat>, done: set<nat>, c: nat)
    returns (more: seq<Event>)
    requires cfg.countName != cfg.lockName && done <= replicas && Runs(cfg, w, events)
    requires Counting(cfg, After(cfg, w, events), replicas, {}, c)
    ensures Runs(cfg, w, more) && Counting(cfg, After(cfg, w, more), replicas, done, c)
    decreases done
  {
    if done == {} {
      more := events;
    } else {
      var r :| r in done;
      more := AllCount(cfg, w, events, replicas, done - {r}, c);
      OneCounts(cfg, After(cfg, w, more), replicas, done - {r}, r, c);
      assert done - {r} + {r} == done;
      OneMore(cfg, w, more, Incr(r));
      more := more + [Incr(r)];
    }
  }

  /** For every threshold and every set of replicas a run takes the counter to the bound exactly. */
  lemma CounterBoundIsReached(cfg: Config, replicas: set<nat>) returns (events: seq<Event>)
    requires cfg.countName != cfg.lockName && replicas != {} && cfg.maxFailures >= 1
    ensures Runs(cfg, Start(replicas, 0.0), events)
    ensures
      var w := After(cfg, Start(replicas, 0.0), events);
      && R.Live(w.db, cfg.countName, w.now) && !w.lockedSince && w.died == 0
      && w.db[cfg.countName].value == R.Count(cfg.maxFailures - 1 + |replicas|)
  {
    var start, c := Start(replicas, 0.0), cfg.maxFailures - 1;
    var r :| r in replicas;
    events := QuietCalls(cfg, start, replicas, r, c);
    events := AllPass(cfg, start, events, replicas, replicas, c);
    events := AllCount(cfg, start, events, replicas, replicas, c);
  }

  // The last writer wins, with the time it read first.

  /** The end of the lock as it is stored, whether or not it is over. */
  function StoredEnd(cfg: Config, w: World): Option<real> {
    if cfg.lockName in w.db && w.db[cfg.lockName].value.Until?
    then Some(w.db[cfg.lockName].value.at) else None
  }

  /** The lock is still there and does not end before it did. */
  predicate EndsNoEarlier(cfg: Config, w: World, w': World) {
    StoredEnd(cfg, w).Some? ==>
      StoredEnd(cfg, w').Some? && StoredEnd(cfg, w).value <= StoredEnd(cfg, w').value
  }

  /** Along every run of these replicas from an empty database, no lock ends earlier than it did before. */
  ghost predicate LockNeverMovesBack(cfg: Config, replicas: set<nat>) {
    forall start, events, more |
      Runs(cfg, Start(replicas, start), events)
      && Runs(cfg, After(cfg, Start(replicas, start), events), more) && NoClear(more) ::
      var w := After(cfg, Start(replicas, start), events);
      EndsNoEarlier(cfg, w, After(cfg, w, more))
  }

  /**
   * In a reachable state, a write of the lock moves its end back exactly when the writer's time is
   * before the stored end less one window, by no more than that call has been under way.
   */
  lemma WriteMovesBackIff(cfg: Config, replicas: set<nat>, start: real, events: seq<Event>, r: nat)
    requires cfg.countName != cfg.lockName && Runs(cfg, Start(replicas, start), events)
    requires
      var w := After(cfg, Start(replicas, start), events);
      && Enabled(w, Decide(r)) && w.phases[r].count >= cfg.maxFailures && cfg.lockName in w.db
    ensures
      var w := After(cfg, Start(replicas, start), events);
      var w' := Step(cfg, w, Decide(r));
      && StoredEnd(cfg, w).Some? && StoredEnd(cfg, w').Some?
      && (StoredEnd(cfg, w').value < StoredEnd(cfg, w).value
          <==> w.phases[r].at < StoredEnd(cfg, w).value - cfg.window)
      && StoredEnd(cfg, w).value - StoredEnd(cfg, w').value <= w.now - w.phases[r].at
  {
    InvRun(cfg, Start(replicas, start), events, replicas);
  }

  /** What one replica alone keeps: a call under way has read no earlier time than any writer. */
  ghost predicate WritersWaitTheirTurn(w: World) {
    forall r, i | r in w.phases && !w.phases[r].Idle? && 0 <= i < |w.writers| :: w.writers[i] <= w.phases[r].at
  }

  lemma OneReplicaStep(cfg: Config, w: World, e: Event, replicas: set<nat>)
    requires Inv(cfg, w, replicas) && Enabled(w, e) && WritersWaitTheirTurn(w)
    requires forall a, b | a in replicas && b in replicas :: a == b
    ensures WritersWaitTheirTurn(Step(cfg, w, e))
    ensures !e.ClearKey? ==> EndsNoEarlier(cfg, w, Step(cfg, w, e))
  {
  }

  lemma {:induction false} OneReplicaRun(cfg: Config, w: World, events: seq<Event>, replicas: set<nat>)
    requires Inv(cfg, w, replicas) && Runs(cfg, w, events) && WritersWaitTheirTurn(w)
    requires forall a, b | a in replicas && b in replicas :: a == b
    ensures Inv(cfg, After(cfg, w, events), replicas) && WritersWaitTheirTurn(After(cfg, w, events))
    ensures NoClear(events) ==> EndsNoEarlier(cfg, w, After(cfg, w, events))
    decreases |events|
  {
    if events != [] {
      InvStep(cfg, w, events[0], replicas);
      OneReplicaStep(cfg, w, events[0], replicas);
      OneReplicaRun(cfg, Step(cfg, w, events[0]), events[1..], replicas);
    }
  }

  /** Half a second passes, and a second replica passes the check that the first has passed before. */
  lemma BothPassTheCheck(cfg: Config, replicas: set<nat>, a: nat, b: nat, c: nat) returns (events: seq<Event>)
    requires cfg.countName != cfg.lockName && a in replicas && b in replicas && a != b
    requires c == 0 || c < cfg.maxFailures
    ensures Runs(cfg, Start(replicas, 0.0), events)
    ensures
      var w := After(cfg, Start(replicas, 0.0), events);
      && w.now == 0.5 && CounterAt(cfg, w, c, 0.5) && cfg.lockName !in w.db && w.phases.Keys == replicas
      && w.phases[a] == Unlocked(0.0) && w.phases[b] == Unlocked(0.5)
  {
    var start := Start(replicas, 0.0);
    events := QuietCalls(cfg, start, replicas, a, c);
    events := OnePasses(cfg, start, events, replicas, {}, a, c);
    OneMore(cfg, start, events, Tick(0.5)); events := events + [Tick(0.5)];
    OneMore(cfg, start, events, Begin(b)); events := events + [Begin(b)];
    OneMore(cfg, start, events, Check(b)); events := events + [Check(b)];
  }

  /** A replica past the check counts to the threshold and writes the lock. */
  lemma CountAndLock(cfg: Config, w: World, r: nat, c: nat) returns (events: seq<Event>)
    requires cfg.countName != cfg.lockName && r in w.phases && w.phases[r].Unlocked?
    requires CounterAt(cfg, w, c, w.now) && c + 1 >= cfg.maxFailures
    ensures Runs(cfg, w, events) && NoClear(events)
    ensures
      var at, w' := w.phases[r].at, After(cfg, w, events);
      && w'.now == w.now && CounterAt(cfg, w', c + 1, w.now)
      && w'.phases == w.phases[r := LockWritten(at)]
      && StoredEnd(cfg, w') == Some(at + cfg.window) && LockEnd(cfg, w'.db, w'.now) == at + cfg.window
  {
    events := CountUp(cfg, w, [], r, c, w.now);
    OneMore(cfg, w, events, Decide(r));
    events := events + [Decide(r)];
  }

  /**
   * For every threshold and window and any two replicas: both write the lock, and the later write
   * ends it half a second earlier, in what is stored and in what a check reads.
   */
  lemma LockEndCanMoveBack(cfg: Config, replicas: set<nat>, a: nat, b: nat)
    returns (events: seq<Event>, more: seq<Event>)
    requires cfg.countName != cfg.lockName && a in replicas && b in replicas && a != b
    ensures Runs(cfg, Start(replicas, 0.0), events)
    ensures Runs(cfg, After(cfg, Start(replicas, 0.0), events), more) && NoClear(more)
    ensures
      var first := After(cfg, Start(replicas, 0.0), events);
      var second := After(cfg, first, more);
      && first.now == second.now == 0.5
      && StoredEnd(cfg, first) == Some(0.5 + cfg.window) && LockEnd(cfg, first.db, 0.5) == 0.5 + cfg.window
      && StoredEnd(cfg, second) == Some(cfg.window) && LockEnd(cfg, second.db, 0.5) == cfg.window
  {
    var start, c := Start(replicas, 0.0), Max(cfg.maxFailures - 1, 0);
    var passed := BothPassTheCheck(cfg, replicas, a, b, c);
    var w := After(cfg, start, passed);
    var locks := CountAndLock(cfg, w, b, c);
    RunsJoin(cfg, start, passed, locks);
    events := passed + locks;
    more := CountAndLock(cfg, After(cfg, w, locks), a, c + 1);
  }

  lemma {:induction false} RunsJoin(cfg: Config, w: World, events: seq<Event>, more: seq<Event>)
    requires Runs(cfg, w, events) && Runs(cfg, After(cfg, w, events), more)
    ensures Runs(cfg, w, events + more)
    ensures After(cfg, w, events + more) == After(cfg, After(cfg, w, events), more)
    decreases |events|
  {
    if events == [] {
      assert events + more == more;
    } else {
      RunsJoin(cfg, Step(cfg, w, events[0]), events[1..], more);
      assert (events + more)[1..] == events[1..] + more;
    }
  }

  /** The end of a lock never moves back, whatever the run, exactly when there is one replica at most. */
  lemma LockNeverMovesBackIff(cfg: Config, replicas: set<nat>)
    requires cfg.countName != cfg.lockName
    ensures LockNeverMovesBack(cfg, replicas) <==> |replicas| <= 1
  {
    if |replicas| <= 1 {
      AtMostOne(replicas);
      forall start, events, more |
        Runs(cfg, Start(replicas, start), events)
        && Runs(cfg, After(cfg, Start(replicas, start), events), more) && NoClear(more)
        ensures
          var w := After(cfg, Start(replicas, start), events);
          EndsNoEarlier(cfg, w, After(cfg, w, more))
      {
        OneReplicaRun(cfg, Start(replicas, start), events, replicas);
        OneReplicaRun(cfg, After(cfg, Start(replicas, start), events), more, replicas);
      }
    } else {
      var a, b := TwoOf(replicas);
      var events, more := LockEndCanMoveBack(cfg, replicas, a, b);
      var first := After(cfg, Start(replicas, 0.0), events);
      assert !EndsNoEarlier(cfg, first, After(cfg, first, more));
    }
  }

  lemma AtMostOne(s: set<nat>)
    requires |s| <= 1
    ensures forall a, b | a in s && b in s :: a == b
  {
    forall a, b | a in s && b in s ensures a == b {
      SubsetSize({a, b}, s);
    }
  }

  lemma TwoOf(s: set<nat>) returns (a: nat, b: nat)
    requires |s| > 1
    ensures a in s && b in s && a != b
  {
    a :| a in s;
    SizeWithout(s, a);
    b :| b in s - {a};
  }

  // One call without interruption is the sequential algorithm.

  /** A command of replica `r`. */
  predicate StepOf(e: Event, r: nat) {
    !e.Tick? && !e.ClearKey? && !e.Die? && e.r == r
  }

  predicate StepsOf(events: seq<Event>, r: nat) {
    forall i | 0 <= i < |events| :: StepOf(events[i], r)
  }

  /** These names are the store's names for `key`. */
  predicate Names(cfg: Config, prefix: string, key: string) {
    cfg.countName == CountKey(prefix, key) && cfg.lockName == LockKey(prefix, key)
  }

  /** A clear between the commands does to the database what `clear` does. */
  lemma ClearIsClear(cfg: Config, w: World, prefix: string, key: string)
    requires Names(cfg, prefix, key)
    ensures Redis(prefix, Step(cfg, w, ClearKey).db) == Redis(prefix, w.db).Clear(key)
    ensures Step(cfg, w, ClearKey).phases == w.phases
  {
  }

  /** The commands of `add_failure` by themselves. */
  lemma OneAddFailure(cfg: Config, w: World, r: nat, prefix: string, key: string) returns (events: seq<Event>)
    requires Names(cfg, prefix, key) && r in w.phases && w.phases[r] == Unlocked(w.now)
    ensures Runs(cfg, w, events) && StepsOf(events, r)
    ensures
      var w', added := After(cfg, w, events), Redis(prefix, w.db).AddFailure(key, cfg.window, w.now);
      if added.Err? then w' == Goes(w, r, Idle)
      else
        && w'.phases == w.phases[r := Counted(w.now, added.value.1)] && w'.now == w.now
        && Redis(prefix, w'.db) == added.value.0
  {
    OneMore(cfg, w, [], Incr(r));
    events := [] + [Incr(r)];
    if After(cfg, w, events).phases[r].Incremented? {
      OneMore(cfg, w, events, SetExpiry(r));
      events := events + [SetExpiry(r)];
    }
  }

  /** The commands after the count: nothing under the threshold, otherwise lock and reset. */
  lemma OneDecision(cfg: Config, w: World, r: nat, prefix: string, key: string) returns (events: seq<Event>)
    requires Names(cfg, prefix, key) && r in w.phases && w.phases[r].Counted? && w.phases[r].at == w.now
    ensures Runs(cfg, w, events) && StepsOf(events, r)
    ensures
      var w', s := After(cfg, w, events), Redis(prefix, w.db);
      && w'.phases == w.phases[r := Idle] && w'.now == w.now
      && Redis(prefix, w'.db) == if w.phases[r].count < cfg.maxFailures then s
                                 else s.Lock(key, w.now + cfg.window, w.now).ResetFailures(key)
  {
    OneMore(cfg, w, [], Decide(r));
    events := [] + [Decide(r)];
    if w.phases[r].count >= cfg.maxFailures {
      var locked := Step(cfg, w, Decide(r));
      assert Redis(prefix, locked.db) == Redis(prefix, w.db).Lock(key, w.now + cfg.window, w.now);
      OneMore(cfg, w, events, Reset(r));
      events := events + [Reset(r)];
      assert locked.phases[r := Idle] == w.phases[r := Idle];
    }
  }

  /** The commands up to the lock check. */
  lemma OneCheck(cfg: Config, w: World, r: nat, prefix: string, key: string) returns (events: seq<Event>)
    requires Names(cfg, prefix, key) && r in w.phases && w.phases[r].Idle?
    ensures Runs(cfg, w, events) && StepsOf(events, r)
    ensures
      var w' := After(cfg, w, events);
      && w'.db == w.db && w'.now == w.now
      && w'.phases == w.phases[r := if L.Locked(Redis(prefix, w.db), key, w.now) then Idle else Unlocked(w.now)]
  {
    OneMore(cfg, w, [], Begin(r));
    events := [] + [Begin(r)];
    OneMore(cfg, w, events, Check(r));
    events := events + [Check(r)];
  }

  /** The commands after a check that found no lock. */
  lemma OneCount(cfg: Config, w: World, r: nat, prefix: string, key: string) returns (events: seq<Event>)
    requires Names(cfg, prefix, key) && r in w.phases && w.phases[r] == Unlocked(w.now)
    requires !L.Locked(Redis(prefix, w.db), key, w.now)
    ensures Runs(cfg, w, events) && StepsOf(events, r)
    ensures
      var w', limits := After(cfg, w, events), L.Config(cfg.maxFailures, cfg.window, 0.0);
      && w'.phases == w.phases[r := Idle] && w'.now == w.now
      && Redis(prefix, w'.db) == L.Record(limits, Redis(prefix, w.db), key, w.now).0
  {
    events := OneAddFailure(cfg, w, r, prefix, key);
    var counted := After(cfg, w, events);
    if counted.phases[r].Counted? {
      var last := OneDecision(cfg, counted, r, prefix, key);
      RunsJoin(cfg, w, events, last);
      events := events + last;
    }
  }

  /** One replica's commands run without interruption do to the database what `record_failure` does. */
  lemma OneCallIsRecord(cfg: Config, w: World, r: nat, prefix: string, key: string) returns (events: seq<Event>)
    requires Names(cfg, prefix, key) && r in w.phases && w.phases[r].Idle?
    ensures Runs(cfg, w, events) && StepsOf(events, r)
    ensures
      var w', limits := After(cfg, w, events), L.Config(cfg.maxFailures, cfg.window, 0.0);
      && w'.phases == w.phases && w'.now == w.now
      && Redis(prefix, w'.db) == L.Record(limits, Redis(prefix, w.db), key, w.now).0
  {
    events := OneCheck(cfg, w, r, prefix, key);
    if !L.Locked(Redis(prefix, w.db), key, w.now) {
      var last := OneCount(cfg, After(cfg, w, events), r, prefix, key);
      RunsJoin(cfg, w, events, last);
      events := events + last;
    }
  }
}
