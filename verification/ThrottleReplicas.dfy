/** `SendThrottle.allow` on one key by several replicas, one Redis command at a time. */
module ThrottleReplicas {
  import opened Common
  import AttemptStores
  import L = LoginRateLimit
  import R = RedisCommands
  import Replicas

  datatype Config = Config(interval: real, lockName: string)

  /** How far a replica's `allow` has come; `at` is the time it read when it began. */
  datatype Phase = Idle | Begun(at: real) | Free(at: real)

  /** A mail that was allowed: the time its call read, and the moment it wrote the lock and could send. */
  datatype Mail = Mail(read: real, at: real)

  /** `sent` lists the allowed mails in the order of their writes. */
  datatype World = World(db: R.Db, now: real, phases: map<nat, Phase>, sent: seq<Mail>)

  datatype Event = Begin(r: nat) | Check(r: nat) | Write(r: nat) | Die(r: nat) | Tick(now: real)

  predicate Enabled(w: World, e: Event) {
    match e
    case Tick(now) => w.now <= now
    case Begin(r) => r in w.phases && w.phases[r].Idle?
    case Check(r) => r in w.phases && w.phases[r].Begun?
    case Write(r) => r in w.phases && w.phases[r].Free?
    case Die(r) => r in w.phases
  }

  function IntervalEnd(cfg: Config, w: World): real {
    match R.Get(w.db, cfg.lockName, w.now)
    case Some(Until(at)) => at
    case Some(Count(n)) => n as real
    case None => 0.0
  }

  function Goes(w: World, r: nat, p: Phase): World {
    w.(phases := w.phases[r := p])
  }

  function Step(cfg: Config, w: World, e: Event): World
    requires Enabled(w, e)
  {
    match e
    case Tick(now) => w.(now := now)
    case Begin(r) => Goes(w, r, Begun(w.now))
    case Check(r) =>
      var at := w.phases[r].at;
      Goes(w, r, if at < IntervalEnd(cfg, w) then Idle else Free(at))
    case Write(r) =>
      var at := w.phases[r].at;
      var until := at + cfg.interval;
      var ttl := Max(1, Truncate(until - at) + 1);
      Goes(w, r, Idle).(db := R.SetEx(w.db, cfg.lockName, R.Until(until), ttl, w.now),
                           sent := w.sent + [Mail(at, w.now)])
    case Die(r) => Goes(w, r, Idle)
  }

  predicate Runs(cfg: Config, w: World, events: seq<Event>)
    decreases |events|
  {
    events == [] || (Enabled(w, events[0]) && Runs(cfg, Step(cfg, w, events[0]), events[1..]))
  }

  function After(cfg: Config, w: World, events: seq<Event>): World
    requires Runs(cfg, w, events)
    decreases |events|
  {
    if events == [] then w else After(cfg, Step(cfg, w, events[0]), events[1..])
  }

  function Start(replicas: set<nat>, now: real): World {
    World(map[], now, map r | r in replicas :: Idle, [])
  }

  // From a quiet moment: at most one mail per replica.

  function AboutToSend(w: World): set<nat> {
    set r | r in w.phases && w.phases[r].Free?
  }

  /** The interval a call begun since `since` has started is running and will not lapse before its end. */
  ghost predicate IntervalRuns(cfg: Config, w: World, since: real) {
    && cfg.lockName in w.db && w.db[cfg.lockName].value.Until? && w.db[cfg.lockName].expiry.Some?
    && since + cfg.interval <= w.db[cfg.lockName].value.at < w.db[cfg.lockName].expiry.value
  }

  /** What holds from a quiet moment `since` with `before` mails sent: each replica sends at most one. */
  ghost predicate Inv(cfg: Config, w: World, replicas: set<nat>, since: real, before: nat) {
    && w.phases.Keys == replicas && since <= w.now
    && (forall r | r in w.phases && !w.phases[r].Idle? :: since <= w.phases[r].at <= w.now)
    && before <= |w.sent|
    && (|w.sent| > before ==> IntervalRuns(cfg, w, since))
    && |w.sent| - before + |AboutToSend(w)| <= |replicas|
  }

  /** While the interval runs no check lets another replica through. */
  lemma CheckIsRefused(cfg: Config, w: World, replicas: set<nat>, since: real, before: nat, r: nat)
    requires Inv(cfg, w, replicas, since, before) && Enabled(w, Check(r)) && w.now < since + cfg.interval
    requires |w.sent| > before
    ensures Step(cfg, w, Check(r)).phases[r].Idle?
  {
  }

  lemma AboutToSendMoves(w: World, r: nat, p: Phase)
    requires r in w.phases
    ensures
      var before, after := AboutToSend(w), AboutToSend(Goes(w, r, p));
      |after| == |before| - (if w.phases[r].Free? then 1 else 0) + (if p.Free? then 1 else 0)
  {
    var before, after := AboutToSend(w), AboutToSend(Goes(w, r, p));
    assert after - {r} == before - {r};
    Replicas.SizeWithout(before, r);
    Replicas.SizeWithout(after, r);
  }

  lemma CellOutlivesInterval(until: real, at: real)
    ensures until < at + Max(1, Truncate(until - at) + 1) as real
  {
  }

  lemma InvStep(cfg: Config, w: World, e: Event, replicas: set<nat>, since: real, before: nat)
    requires Inv(cfg, w, replicas, since, before) && Enabled(w, e) && w.now < since + cfg.interval
    ensures Inv(cfg, Step(cfg, w, e), replicas, since, before)
  {
    var w' := Step(cfg, w, e);
    if e.Tick? {
      assert AboutToSend(w') == AboutToSend(w);
    } else {
      AboutToSendMoves(w, e.r, w'.phases[e.r]);
      assert AboutToSend(w') == AboutToSend(Goes(w, e.r, w'.phases[e.r]));
      if e.Check? && |w.sent| > before {
        CheckIsRefused(cfg, w, replicas, since, before, e.r);
      }
      if e.Write? {
        CellOutlivesInterval(w.phases[e.r].at + cfg.interval, w.phases[e.r].at);
        assert IntervalRuns(cfg, w', since);
      }
      Replicas.SubsetSize(AboutToSend(w'), replicas);
    }
  }

  lemma {:induction false} InvRun(cfg: Config, w: World, events: seq<Event>, replicas: set<nat>, since: real, before: nat)
    requires Inv(cfg, w, replicas, since, before) && Runs(cfg, w, events)
    requires After(cfg, w, events).now < since + cfg.interval
    ensures Inv(cfg, After(cfg, w, events), replicas, since, before)
    decreases |events|
  {
    if events != [] {
      TimeMovesOn(cfg, w, events);
      InvStep(cfg, w, events[0], replicas, since, before);
      InvRun(cfg, Step(cfg, w, events[0]), events[1..], replicas, since, before);
    }
  }

  lemma {:induction false} TimeMovesOn(cfg: Config, w: World, events: seq<Event>)
    requires Runs(cfg, w, events)
    ensures w.now <= After(cfg, w, events).now
    decreases |events|
  {
    if events != [] {
      TimeMovesOn(cfg, Step(cfg, w, events[0]), events[1..]);
    }
  }

  /**
   * From any moment at which no call is under way, and whatever is stored then, the calls of the next
   * interval send at most one mail per replica.
   */
  lemma OneMailPerReplica(cfg: Config, w: World, events: seq<Event>)
    requires Runs(cfg, w, events) && (forall r | r in w.phases :: w.phases[r].Idle?)
    requires After(cfg, w, events).now < w.now + cfg.interval
    ensures |w.sent| <= |After(cfg, w, events).sent| <= |w.sent| + |w.phases.Keys|
  {
    assert AboutToSend(w) == {};
    InvRun(cfg, w, events, w.phases.Keys, w.now, |w.sent|);
  }

  // Any interval of any run.

  /** How many of the mails satisfy `p`. */
  function Counted(sent: seq<Mail>, p: Mail -> bool): nat {
    if sent == [] then 0
    else Counted(sent[..|sent| - 1], p) + if p(sent[|sent| - 1]) then 1 else 0
  }

  /** The mails sent in the half-open interval that opens at `from`. */
  function SentWithin(cfg: Config, from: real): Mail -> bool {
    (m: Mail) => from <= m.at < from + cfg.interval
  }

  /** The mails whose call read its time in that interval. */
  function ReadWithin(cfg: Config, from: real): Mail -> bool {
    (m: Mail) => from <= m.read < from + cfg.interval
  }

  /** The mails sent in it by calls that read their time before. */
  function Overdue(cfg: Config, from: real): Mail -> bool {
    (m: Mail) => m.read < from <= m.at < from + cfg.interval
  }

  lemma CountedOneMore(sent: seq<Mail>, m: Mail, p: Mail -> bool)
    ensures Counted(sent + [m], p) == Counted(sent, p) + if p(m) then 1 else 0
  {
    assert (sent + [m])[..|sent|] == sent;
  }

  lemma {:induction false} CountedApart(sent: seq<Mail>, p: Mail -> bool, q: Mail -> bool, r: Mail -> bool)
    requires forall m | m in sent :: p(m) ==> q(m) || r(m)
    ensures Counted(sent, p) <= Counted(sent, q) + Counted(sent, r)
  {
    if sent != [] {
      assert forall m | m in sent[..|sent| - 1] :: m in sent;
      CountedApart(sent[..|sent| - 1], p, q, r);
    }
  }

  /** 1 + 2 + ... + n. */
  function Sum(n: nat): nat {
    if n == 0 then 0 else Sum(n - 1) + n
  }

  lemma {:induction false} SumGrows(m: nat, n: nat)
    requires m <= n
    ensures Sum(m) <= Sum(n)
  {
    if m < n {
      SumGrows(m, n - 1);
    }
  }

  /** The replicas under way with a time read before `from`. */
  function Late(w: World, from: real): set<nat> {
    set r | r in w.phases && !w.phases[r].Idle? && w.phases[r].at < from
  }

  /** The replicas past the check with a time read in the interval. */
  function Ready(cfg: Config, w: World, from: real): set<nat> {
    set r | r in w.phases && w.phases[r].Free? && from <= w.phases[r].at < from + cfg.interval
  }

  /** The lock was last written by a call that read its time at `from` or later. */
  predicate Guarded(cfg: Config, w: World, from: real) {
    && cfg.lockName in w.db && w.db[cfg.lockName].value.Until?
    && from + cfg.interval <= w.db[cfg.lockName].value.at
  }

  /** What every run keeps: times read lie in the past, and a lock cell outlives the interval in it. */
  ghost predicate Sound(cfg: Config, w: World, replicas: set<nat>) {
    && w.phases.Keys == replicas
    && (forall r | r in w.phases && !w.phases[r].Idle? :: w.phases[r].at <= w.now)
    && (forall i | 0 <= i < |w.sent| :: w.sent[i].read <= w.sent[i].at <= w.now)
    && (cfg.lockName in w.db ==>
          && w.db[cfg.lockName].value.Until? && w.db[cfg.lockName].expiry.Some?
          && w.db[cfg.lockName].value.at < w.db[cfg.lockName].expiry.value)
  }

  /**
   * With `n` of all replicas not late: under a guarding lock the mails read in the interval, sent or
   * about to be, are at most 1 + ... + n; without one they leave room for all `n` to send once more.
   */
  predicate Room(all: nat, late: nat, ready: nat, read: nat, overdue: nat, guarded: bool) {
    && ready + late <= all && overdue + late <= all
    && (if guarded then read + ready <= Sum(all - late) else read + (all - late) <= Sum(all - late))
  }

  ghost predicate IntervalInv(cfg: Config, w: World, replicas: set<nat>, from: real) {
    var read, overdue := Counted(w.sent, ReadWithin(cfg, from)), Counted(w.sent, Overdue(cfg, from));
    && Room(|replicas|, |Late(w, from)|, |Ready(cfg, w, from)|, read, overdue, Guarded(cfg, w, from))
    && (w.now < from ==> read == 0 && overdue == 0 && !Guarded(cfg, w, from))
  }

  lemma RoomForAll(all: nat, late: nat, ready: nat)
    requires ready + late <= all
    ensures Room(all, late, ready, 0, 0, false)
  {
    SumAtLeast(all - late);
  }

  lemma {:induction false} SumAtLeast(n: nat)
    ensures n <= Sum(n)
  {
    if n > 0 {
      SumAtLeast(n - 1);
    }
  }

  lemma SoundStep(cfg: Config, w: World, e: Event, replicas: set<nat>)
    requires Sound(cfg, w, replicas) && Enabled(w, e)
    ensures Sound(cfg, Step(cfg, w, e), replicas)
  {
    if e.Write? {
      CellOutlivesInterval(w.phases[e.r].at + cfg.interval, w.phases[e.r].at);
    }
  }

  lemma LateMoves(w: World, from: real, r: nat, p: Phase)
    requires r in w.phases
    ensures
      var before, after := Late(w, from), Late(Goes(w, r, p), from);
      && |after| == |before| - (if r in before then 1 else 0) + (if r in after then 1 else 0)
      && (r in after <==> !p.Idle? && p.at < from)
  {
    var before, after := Late(w, from), Late(Goes(w, r, p), from);
    assert after - {r} == before - {r};
    Replicas.SizeWithout(before, r);
    Replicas.SizeWithout(after, r);
  }

  lemma ReadyMoves(cfg: Config, w: World, from: real, r: nat, p: Phase)
    requires r in w.phases
    ensures
      var before, after := Ready(cfg, w, from), Ready(cfg, Goes(w, r, p), from);
      && |after| == |before| - (if r in before then 1 else 0) + (if r in after then 1 else 0)
      && (r in after <==> p.Free? && from <= p.at < from + cfg.interval)
  {
    var before, after := Ready(cfg, w, from), Ready(cfg, Goes(w, r, p), from);
    assert after - {r} == before - {r};
    Replicas.SizeWithout(before, r);
    Replicas.SizeWithout(after, r);
  }

  lemma LateOrReady(cfg: Config, w: World, replicas: set<nat>, from: real)
    requires w.phases.Keys == replicas
    ensures |Ready(cfg, w, from)| + |Late(w, from)| <= |replicas|
  {
    var ready, late := Ready(cfg, w, from), Late(w, from);
    assert |ready + late| == |ready| + |late|;
    Replicas.SubsetSize(ready + late, replicas);
  }

  /** While the guarded interval runs, a call that read its time in it is refused. */
  lemma GuardRefuses(cfg: Config, w: World, replicas: set<nat>, from: real, r: nat)
    requires Sound(cfg, w, replicas) && Enabled(w, Check(r)) && Guarded(cfg, w, from)
    requires w.now < from + cfg.interval
    ensures Step(cfg, w, Check(r)).phases[r].Idle?
  {
  }

  /** The check (and, with `writes`, the write) is made at the time its call read. */
  predicate OnTime(w: World, e: Event, writes: bool)
    requires Enabled(w, e)
  {
    e.Check? || (writes && e.Write?) ==> w.phases[e.r].at == w.now
  }

  /** A late write lifts the guard and leaves one replica more that is not late. */
  lemma RoomAfterLate(all: nat, late: nat, ready: nat, read: nat, overdue: nat, guarded: bool)
    requires Room(all, late, ready, read, overdue, guarded) && late > 0
    ensures Room(all, late - 1, ready, read, overdue, false) && Room(all, late - 1, ready, read, overdue + 1, false)
  {
  }

  /** Any other write puts the guard up, one of those about to send becoming one that has. */
  lemma RoomAfterWrite(all: nat, late: nat, ready: nat, read: nat, overdue: nat, guarded: bool)
    requires Room(all, late, ready, read, overdue, guarded)
    ensures Room(all, late, ready, read, overdue, true)
    ensures ready > 0 ==> Room(all, late, ready - 1, read + 1, overdue, true)
  {
  }

  /** What a write does to who is late or ready and to the guard. */
  lemma WriteMoves(cfg: Config, w: World, r: nat, from: real, w': World)
    requires Enabled(w, Write(r)) && w' == Step(cfg, w, Write(r))
    ensures
      var at := w.phases[r].at;
      && |Late(w', from)| == |Late(w, from)| - (if at < from then 1 else 0)
      && |Ready(cfg, w', from)| == |Ready(cfg, w, from)| - (if from <= at < from + cfg.interval then 1 else 0)
      && (at < from ==> |Late(w, from)| > 0)
      && (from <= at < from + cfg.interval ==> |Ready(cfg, w, from)| > 0)
      && (Guarded(cfg, w', from) <==> from <= at)
  {
    var at := w.phases[r].at;
    assert Late(w', from) == Late(Goes(w, r, Idle), from) && Ready(cfg, w', from) == Ready(cfg, Goes(w, r, Idle), from);
    LateMoves(w, from, r, Idle);
    ReadyMoves(cfg, w, from, r, Idle);
    assert r in Late(w, from) <==> at < from;
    assert r in Ready(cfg, w, from) <==> from <= at < from + cfg.interval;
  }

  /** What it adds to the counts. */
  lemma WriteCounts(cfg: Config, w: World, r: nat, from: real, w': World)
    requires Enabled(w, Write(r)) && w' == Step(cfg, w, Write(r))
    ensures
      var at := w.phases[r].at;
      && Counted(w'.sent, ReadWithin(cfg, from))
         == Counted(w.sent, ReadWithin(cfg, from)) + (if from <= at < from + cfg.interval then 1 else 0)
      && Counted(w'.sent, Overdue(cfg, from))
         == Counted(w.sent, Overdue(cfg, from)) + (if at < from <= w.now < from + cfg.interval then 1 else 0)
  {
    var m := Mail(w.phases[r].at, w.now);
    CountedOneMore(w.sent, m, ReadWithin(cfg, from));
    CountedOneMore(w.sent, m, Overdue(cfg, from));
  }

  lemma IntervalWrite(cfg: Config, w: World, r: nat, replicas: set<nat>, from: real, w': World)
    requires Sound(cfg, w, replicas) && IntervalInv(cfg, w, replicas, from) && Enabled(w, Write(r))
    requires w' == Step(cfg, w, Write(r))
    ensures IntervalInv(cfg, w', replicas, from)
  {
    WriteMoves(cfg, w, r, from, w');
    WriteCounts(cfg, w, r, from, w');
    var late, ready := |Late(w, from)|, |Ready(cfg, w, from)|;
    var read, overdue := Counted(w.sent, ReadWithin(cfg, from)), Counted(w.sent, Overdue(cfg, from));
    if w.phases[r].at < from {
      RoomAfterLate(|replicas|, late, ready, read, overdue, Guarded(cfg, w, from));
    } else {
      RoomAfterWrite(|replicas|, late, ready, read, overdue, Guarded(cfg, w, from));
    }
  }

  lemma IntervalMove(cfg: Config, w: World, e: Event, replicas: set<nat>, from: real, w': World)
    requires Sound(cfg, w, replicas) && IntervalInv(cfg, w, replicas, from) && Enabled(w, e)
    requires !e.Tick? && !e.Write? && w' == Step(cfg, w, e)
    requires e.Check? ==> w.now < from + cfg.interval || OnTime(w, e, false)
    ensures IntervalInv(cfg, w', replicas, from)
  {
    LateMoves(w, from, e.r, w'.phases[e.r]);
    ReadyMoves(cfg, w, from, e.r, w'.phases[e.r]);
    LateOrReady(cfg, w', replicas, from);
    if w.now < from {
      RoomForAll(|replicas|, |Late(w', from)|, |Ready(cfg, w', from)|);
    } else if e.Check? && Guarded(cfg, w, from) && w.now < from + cfg.interval {
      GuardRefuses(cfg, w, replicas, from, e.r);
    }
  }

  lemma IntervalStep(cfg: Config, w: World, e: Event, replicas: set<nat>, from: real)
    requires Sound(cfg, w, replicas) && IntervalInv(cfg, w, replicas, from) && Enabled(w, e)
    requires e.Check? ==> w.now < from + cfg.interval || OnTime(w, e, false)
    ensures IntervalInv(cfg, Step(cfg, w, e), replicas, from)
  {
    var w' := Step(cfg, w, e);
    if e.Tick? {
      assert Late(w', from) == Late(w, from) && Ready(cfg, w', from) == Ready(cfg, w, from);
    } else if e.Write? {
      IntervalWrite(cfg, w, e.r, replicas, from, w');
    } else {
      IntervalMove(cfg, w, e, replicas, from, w');
    }
  }

  lemma InvBounds(cfg: Config, w: World, replicas: set<nat>, from: real)
    requires Sound(cfg, w, replicas) && IntervalInv(cfg, w, replicas, from)
    ensures Counted(w.sent, ReadWithin(cfg, from)) <= Sum(|replicas|)
    ensures Counted(w.sent, SentWithin(cfg, from)) <= Sum(|replicas|) + |replicas|
  {
    SumGrows(|replicas| - |Late(w, from)|, |replicas|);
    CountedApart(w.sent, SentWithin(cfg, from), Overdue(cfg, from), ReadWithin(cfg, from));
  }

  lemma InvAtStart(cfg: Config, replicas: set<nat>, start: real, from: real)
    ensures Sound(cfg, Start(replicas, start), replicas) && IntervalInv(cfg, Start(replicas, start), replicas, from)
  {
    var w := Start(replicas, start);
    assert Late(w, from) == {} && Ready(cfg, w, from) == {};
    RoomForAll(|replicas|, 0, 0);
  }

  /** The bound on what an interval has sent; past its end nothing is added to it. */
  ghost predicate Limited(cfg: Config, w: World, replicas: set<nat>, from: real) {
    && Sound(cfg, w, replicas)
    && (w.now < from + cfg.interval ==> IntervalInv(cfg, w, replicas, from))
    && Counted(w.sent, SentWithin(cfg, from)) <= Sum(|replicas|) + |replicas|
  }

  lemma LimitedStep(cfg: Config, w: World, e: Event, replicas: set<nat>, from: real)
    requires Limited(cfg, w, replicas, from) && Enabled(w, e)
    ensures Limited(cfg, Step(cfg, w, e), replicas, from)
  {
    SoundStep(cfg, w, e, replicas);
    if w.now < from + cfg.interval {
      IntervalStep(cfg, w, e, replicas, from);
      InvBounds(cfg, Step(cfg, w, e), replicas, from);
    } else if e.Write? {
      CountedOneMore(w.sent, Mail(w.phases[e.r].at, w.now), SentWithin(cfg, from));
    }
  }

  lemma {:induction false} LimitedRun(cfg: Config, w: World, events: seq<Event>, replicas: set<nat>, from: real)
    requires Limited(cfg, w, replicas, from) && Runs(cfg, w, events)
    ensures Limited(cfg, After(cfg, w, events), replicas, from)
    decreases |events|
  {
    if events != [] {
      LimitedStep(cfg, w, events[0], replicas, from);
      LimitedRun(cfg, Step(cfg, w, events[0]), events[1..], replicas, from);
    }
  }

  /**
   * Whatever the interleaving and however long a call stalls, R replicas together send at most
   * (1 + ... + R) + R mails in any half-open interval.
   */
  lemma MailsPerInterval(cfg: Config, replicas: set<nat>, start: real, events: seq<Event>, from: real)
    requires Runs(cfg, Start(replicas, start), events)
    ensures Counted(After(cfg, Start(replicas, start), events).sent, SentWithin(cfg, from)) <= Sum(|replicas|) + |replicas|
  {
    InvAtStart(cfg, replicas, start, from);
    LimitedRun(cfg, Start(replicas, start), events, replicas, from);
  }

  // Runs whose checks are made at the time read.

  predicate Prompt(cfg: Config, w: World, events: seq<Event>, writes: bool)
    requires Runs(cfg, w, events)
    decreases |events|
  {
    events == [] || (OnTime(w, events[0], writes) && Prompt(cfg, Step(cfg, w, events[0]), events[1..], writes))
  }

  lemma {:induction false} PromptRun(cfg: Config, w: World, events: seq<Event>, replicas: set<nat>, from: real)
    requires Sound(cfg, w, replicas) && IntervalInv(cfg, w, replicas, from)
    requires Runs(cfg, w, events) && Prompt(cfg, w, events, false)
    ensures
      var w' := After(cfg, w, events);
      Sound(cfg, w', replicas) && IntervalInv(cfg, w', replicas, from)
    decreases |events|
  {
    if events != [] {
      SoundStep(cfg, w, events[0], replicas);
      IntervalStep(cfg, w, events[0], replicas, from);
      PromptRun(cfg, Step(cfg, w, events[0]), events[1..], replicas, from);
    }
  }

  /** With checks made at the time read, at most 1 + ... + R allowed calls read their time in any interval. */
  lemma AllowedPerInterval(cfg: Config, replicas: set<nat>, start: real, events: seq<Event>, from: real)
    requires Runs(cfg, Start(replicas, start), events) && Prompt(cfg, Start(replicas, start), events, false)
    ensures Counted(After(cfg, Start(replicas, start), events).sent, ReadWithin(cfg, from)) <= Sum(|replicas|)
  {
    InvAtStart(cfg, replicas, start, from);
    PromptRun(cfg, Start(replicas, start), events, replicas, from);
    InvBounds(cfg, After(cfg, Start(replicas, start), events), replicas, from);
  }

  // Both bounds are reached, by one run.

  lemma {:induction false} OneMore(cfg: Config, w: World, events: seq<Event>, e: Event, writes: bool)
    requires Runs(cfg, w, events) && Enabled(After(cfg, w, events), e)
    ensures Runs(cfg, w, events + [e])
    ensures After(cfg, w, events + [e]) == Step(cfg, After(cfg, w, events), e)
    ensures Prompt(cfg, w, events, writes) && OnTime(After(cfg, w, events), e, writes) ==> Prompt(cfg, w, events + [e], writes)
    decreases |events|
  {
    if events == [] {
      assert events + [e] == [e];
      assert Runs(cfg, Step(cfg, w, e), [e][1..]);
    } else {
      OneMore(cfg, Step(cfg, w, events[0]), events[1..], e, writes);
      assert (events + [e])[1..] == events[1..] + [e];
    }
  }

  lemma {:induction false} RunsJoin(cfg: Config, w: World, events: seq<Event>, more: seq<Event>, writes: bool)
    requires Runs(cfg, w, events) && Runs(cfg, After(cfg, w, events), more)
    ensures Runs(cfg, w, events + more)
    ensures After(cfg, w, events + more) == After(cfg, After(cfg, w, events), more)
    ensures Prompt(cfg, w, events, writes) && Prompt(cfg, After(cfg, w, events), more, writes) ==>
              Prompt(cfg, w, events + more, writes)
    decreases |events|
  {
    if events == [] {
      assert events + more == more;
    } else {
      RunsJoin(cfg, Step(cfg, w, events[0]), events[1..], more, writes);
      assert (events + more)[1..] == events[1..] + more;
    }
  }

  /** `w` with these replicas in phase `p`. */
  function Together(w: World, group: set<nat>, p: Phase): World {
    w.(phases := map r | r in w.phases :: if r in group then p else w.phases[r])
  }

  /** A group passes the check while no interval runs. */
  lemma {:induction false} AllPass(cfg: Config, w: World, group: set<nat>) returns (events: seq<Event>)
    requires group <= w.phases.Keys && (forall r | r in group :: w.phases[r].Idle?) && IntervalEnd(cfg, w) <= w.now
    ensures Runs(cfg, w, events) && Prompt(cfg, w, events, true) && Prompt(cfg, w, events, false)
    ensures After(cfg, w, events) == Together(w, group, Free(w.now))
    decreases group
  {
    if group == {} {
      events := [];
      assert w.phases == Together(w, group, Free(w.now)).phases;
    } else {
      var r :| r in group;
      events := AllPass(cfg, w, group - {r});
      OneMore(cfg, w, events, Begin(r), true); OneMore(cfg, w, events, Begin(r), false);
      events := events + [Begin(r)];
      OneMore(cfg, w, events, Check(r), true); OneMore(cfg, w, events, Check(r), false);
      events := events + [Check(r)];
      assert After(cfg, w, events).phases == Together(w, group, Free(w.now)).phases;
    }
  }

  function Copies(n: nat, m: Mail): (s: seq<Mail>)
    ensures |s| == n && forall i | 0 <= i < n :: s[i] == m
  {
    seq(n, _ => m)
  }

  /** A group past the check at this moment sends. */
  lemma {:induction false} AllSend(cfg: Config, w: World, group: set<nat>) returns (events: seq<Event>)
    requires group <= w.phases.Keys && (forall r | r in group :: w.phases[r] == Free(w.now))
    ensures Runs(cfg, w, events) && Prompt(cfg, w, events, true) && Prompt(cfg, w, events, false)
    ensures
      var w' := After(cfg, w, events);
      && w'.phases == Together(w, group, Idle).phases && w'.now == w.now
      && w'.sent == w.sent + Copies(|group|, Mail(w.now, w.now))
    decreases group
  {
    if group == {} {
      events := [];
      assert w.phases == Together(w, group, Idle).phases;
    } else {
      var r :| r in group;
      events := AllSend(cfg, w, group - {r});
      OneMore(cfg, w, events, Write(r), true); OneMore(cfg, w, events, Write(r), false);
      events := events + [Write(r)];
      Replicas.SizeWithout(group, r);
      assert After(cfg, w, events).phases == Together(w, group, Idle).phases;
    }
  }

  /** A group of idle replicas sends at once, every command at the time read. */
  lemma GroupSends(cfg: Config, w: World, group: set<nat>) returns (events: seq<Event>)
    requires group <= w.phases.Keys && (forall r | r in group :: w.phases[r].Idle?) && IntervalEnd(cfg, w) <= w.now
    ensures Runs(cfg, w, events) && Prompt(cfg, w, events, true) && Prompt(cfg, w, events, false)
    ensures
      var w' := After(cfg, w, events);
      && w'.phases == w.phases && w'.now == w.now
      && w'.sent == w.sent + Copies(|group|, Mail(w.now, w.now))
  {
    events := AllPass(cfg, w, group);
    var passed := After(cfg, w, events);
    var more := AllSend(cfg, passed, group);
    RunsJoin(cfg, w, events, more, true);
    RunsJoin(cfg, w, events, more, false);
    events := events + more;
    assert Together(passed, group, Idle).phases == w.phases;
  }

  /** For every set of replicas a run sends one mail each at once, every command at the time read. */
  lemma OneMailPerReplicaIsReached(cfg: Config, replicas: set<nat>) returns (events: seq<Event>)
    ensures Runs(cfg, Start(replicas, 0.0), events)
    ensures Prompt(cfg, Start(replicas, 0.0), events, true) && Prompt(cfg, Start(replicas, 0.0), events, false)
    ensures
      var w := After(cfg, Start(replicas, 0.0), events);
      w.now == 0.0 && w.sent == Copies(|replicas|, Mail(0.0, 0.0))
  {
    events := GroupSends(cfg, Start(replicas, 0.0), replicas);
    assert [] + Copies(|replicas|, Mail(0.0, 0.0)) == Copies(|replicas|, Mail(0.0, 0.0));
  }

  lemma {:induction false} CountedCopies(sent: seq<Mail>, n: nat, m: Mail, p: Mail -> bool)
    ensures Counted(sent + Copies(n, m), p) == Counted(sent, p) + if p(m) then n else 0
    decreases n
  {
    if n == 0 {
      assert sent + Copies(n, m) == sent;
    } else {
      CountedCopies(sent, n - 1, m, p);
      assert sent + Copies(n, m) == (sent + Copies(n - 1, m)) + [m];
      CountedOneMore(sent + Copies(n - 1, m), m, p);
    }
  }

  /** All replicas passed the check at zero; an interval later those of `done` have had their rounds. */
  ghost predicate Rounds(cfg: Config, w: World, replicas: set<nat>, done: set<nat>) {
    && w.now == cfg.interval && w.phases.Keys == replicas
    && (forall r | r in replicas :: w.phases[r] == if r in done then Idle else Free(0.0))
    && Counted(w.sent, ReadWithin(cfg, cfg.interval)) == Sum(|done|)
    && Counted(w.sent, SentWithin(cfg, cfg.interval)) == Sum(|done|) + |done|
  }

  /** A late write ends the running interval. */
  lemma LateWrite(cfg: Config, w: World, replicas: set<nat>, done: set<nat>, r: nat)
    requires Rounds(cfg, w, replicas, done) && r in replicas && r !in done
    ensures
      var w' := Step(cfg, w, Write(r));
      && w'.phases == w.phases[r := Idle] && w'.now == cfg.interval && IntervalEnd(cfg, w') == cfg.interval
      && w'.sent == w.sent + [Mail(0.0, cfg.interval)]
  {
  }

  lemma RoundDone(cfg: Config, w: World, replicas: set<nat>, done: set<nat>, r: nat, w': World)
    requires cfg.interval > 0.0 && Rounds(cfg, w, replicas, done) && r in replicas && r !in done
    requires w'.now == cfg.interval && w'.phases == w.phases[r := Idle]
    requires w'.sent == w.sent + [Mail(0.0, cfg.interval)] + Copies(|done| + 1, Mail(cfg.interval, cfg.interval))
    ensures Rounds(cfg, w', replicas, done + {r})
  {
    RoundCounts(cfg, w.sent, |done|);
  }

  /** After a late write everybody not late sends once more. */
  lemma OneRound(cfg: Config, w: World, replicas: set<nat>, done: set<nat>, r: nat) returns (events: seq<Event>)
    requires cfg.interval > 0.0 && Rounds(cfg, w, replicas, done) && r in replicas && r !in done && done <= replicas
    ensures Runs(cfg, w, events) && Prompt(cfg, w, events, false)
    ensures Rounds(cfg, After(cfg, w, events), replicas, done + {r})
  {
    var group := done + {r};
    LateWrite(cfg, w, replicas, done, r);
    OneMore(cfg, w, [], Write(r), false);
    events := [] + [Write(r)];
    var written := After(cfg, w, events);
    var sends := GroupSends(cfg, written, group);
    RunsJoin(cfg, w, events, sends, false);
    RoundDone(cfg, w, replicas, done, r, After(cfg, written, sends));
    events := events + sends;
  }

  lemma RoundCounts(cfg: Config, sent: seq<Mail>, n: nat)
    requires cfg.interval > 0.0
    ensures
      var t := cfg.interval;
      var after := sent + [Mail(0.0, t)] + Copies(n + 1, Mail(t, t));
      && Counted(after, ReadWithin(cfg, t)) == Counted(sent, ReadWithin(cfg, t)) + n + 1
      && Counted(after, SentWithin(cfg, t)) == Counted(sent, SentWithin(cfg, t)) + n + 2
  {
    var t := cfg.interval;
    CountedOneMore(sent, Mail(0.0, t), ReadWithin(cfg, t));
    CountedOneMore(sent, Mail(0.0, t), SentWithin(cfg, t));
    CountedCopies(sent + [Mail(0.0, t)], n + 1, Mail(t, t), ReadWithin(cfg, t));
    CountedCopies(sent + [Mail(0.0, t)], n + 1, Mail(t, t), SentWithin(cfg, t));
  }

  lemma {:induction false} AllRounds(cfg: Config, w: World, replicas: set<nat>, done: set<nat>) returns (events: seq<Event>)
    requires cfg.interval > 0.0 && Rounds(cfg, w, replicas, {}) && done <= replicas
    ensures Runs(cfg, w, events) && Prompt(cfg, w, events, false)
    ensures Rounds(cfg, After(cfg, w, events), replicas, done)
    decreases done
  {
    if done == {} {
      events := [];
    } else {
      var r :| r in done;
      events := AllRounds(cfg, w, replicas, done - {r});
      var more := OneRound(cfg, After(cfg, w, events), replicas, done - {r}, r);
      RunsJoin(cfg, w, events, more, false);
      events := events + more;
      assert done - {r} + {r} == done;
    }
  }

  /** For every interval and set of replicas one run, its checks made at the time read, meets both bounds exactly. */
  lemma MailBoundsAreReached(cfg: Config, replicas: set<nat>) returns (events: seq<Event>)
    requires cfg.interval > 0.0
    ensures Runs(cfg, Start(replicas, 0.0), events) && Prompt(cfg, Start(replicas, 0.0), events, false)
    ensures
      var sent := After(cfg, Start(replicas, 0.0), events).sent;
      && Counted(sent, ReadWithin(cfg, cfg.interval)) == Sum(|replicas|)
      && Counted(sent, SentWithin(cfg, cfg.interval)) == Sum(|replicas|) + |replicas|
  {
    var start := Start(replicas, 0.0);
    events := AllPass(cfg, start, replicas);
    OneMore(cfg, start, events, Tick(cfg.interval), false);
    events := events + [Tick(cfg.interval)];
    var more := AllRounds(cfg, After(cfg, start, events), replicas, replicas);
    RunsJoin(cfg, start, events, more, false);
    events := events + more;
  }

  // One mail every interval.

  /** Every mail's call read its time at least an interval after those of all mails before it. */
  predicate ReadsSpaced(sent: seq<Mail>, interval: real) {
    forall i, j | 0 <= i < j < |sent| :: sent[i].read + interval <= sent[j].read
  }

  /** Every mail goes out at least an interval after all before it. */
  predicate SendsSpaced(sent: seq<Mail>, interval: real) {
    forall i, j | 0 <= i < j < |sent| :: sent[i].at + interval <= sent[j].at
  }

  /** Along every run of these replicas whose checks are made at the time read, the times read are spaced. */
  ghost predicate ReadsAlwaysSpaced(cfg: Config, replicas: set<nat>) {
    forall start, events | Runs(cfg, Start(replicas, start), events) && Prompt(cfg, Start(replicas, start), events, false) ::
      ReadsSpaced(After(cfg, Start(replicas, start), events).sent, cfg.interval)
  }

  /** Along every run whose calls take no time, the mails are. */
  ghost predicate SendsAlwaysSpaced(cfg: Config, replicas: set<nat>) {
    forall start, events | Runs(cfg, Start(replicas, start), events) && Prompt(cfg, Start(replicas, start), events, true) ::
      SendsSpaced(After(cfg, Start(replicas, start), events).sent, cfg.interval)
  }

  /** What one replica alone keeps: the lock is the last mail's, and the next call waits for its end. */
  ghost predicate SpacedInv(cfg: Config, w: World, replicas: set<nat>) {
    && Sound(cfg, w, replicas) && ReadsSpaced(w.sent, cfg.interval)
    && (w.sent != [] ==>
          var end := w.sent[|w.sent| - 1].read + cfg.interval;
          && cfg.lockName in w.db && w.db[cfg.lockName].value == R.Until(end)
          && (forall r | r in w.phases && w.phases[r].Free? :: end <= w.phases[r].at))
  }

  lemma SpacedStep(cfg: Config, w: World, e: Event, replicas: set<nat>)
    requires cfg.interval >= 0.0 && SpacedInv(cfg, w, replicas) && Enabled(w, e) && OnTime(w, e, false)
    requires forall a, b | a in replicas && b in replicas :: a == b
    ensures SpacedInv(cfg, Step(cfg, w, e), replicas)
  {
    SoundStep(cfg, w, e, replicas);
  }

  lemma {:induction false} SpacedRun(cfg: Config, w: World, events: seq<Event>, replicas: set<nat>)
    requires cfg.interval >= 0.0 && SpacedInv(cfg, w, replicas)
    requires Runs(cfg, w, events) && Prompt(cfg, w, events, false)
    requires forall a, b | a in replicas && b in replicas :: a == b
    ensures SpacedInv(cfg, After(cfg, w, events), replicas)
    decreases |events|
  {
    if events != [] {
      SpacedStep(cfg, w, events[0], replicas);
      SpacedRun(cfg, Step(cfg, w, events[0]), events[1..], replicas);
    }
  }

  predicate SentWhenRead(sent: seq<Mail>) {
    forall i | 0 <= i < |sent| :: sent[i].read == sent[i].at
  }

  /** A call that takes no time sends at the time it read. */
  lemma {:induction false} NoTimePasses(cfg: Config, w: World, events: seq<Event>)
    requires Runs(cfg, w, events) && Prompt(cfg, w, events, true) && SentWhenRead(w.sent)
    ensures Prompt(cfg, w, events, false) && SentWhenRead(After(cfg, w, events).sent)
    decreases |events|
  {
    if events != [] {
      assert OnTime(w, events[0], true);
      NoTimePasses(cfg, Step(cfg, w, events[0]), events[1..]);
    }
  }

  /**
   * One mail every interval holds along all runs exactly when there is one replica at most: for the
   * times read when checks are made at the time read, for the mails themselves when calls take no time.
   */
  lemma MailsAreSpacedIff(cfg: Config, replicas: set<nat>)
    requires cfg.interval > 0.0
    ensures ReadsAlwaysSpaced(cfg, replicas) <==> |replicas| <= 1
    ensures SendsAlwaysSpaced(cfg, replicas) <==> |replicas| <= 1
  {
    if |replicas| <= 1 {
      Replicas.AtMostOne(replicas);
      forall start, events | Runs(cfg, Start(replicas, start), events) && Prompt(cfg, Start(replicas, start), events, false)
        ensures ReadsSpaced(After(cfg, Start(replicas, start), events).sent, cfg.interval)
      {
        SpacedRun(cfg, Start(replicas, start), events, replicas);
      }
      forall start, events | Runs(cfg, Start(replicas, start), events) && Prompt(cfg, Start(replicas, start), events, true)
        ensures SendsSpaced(After(cfg, Start(replicas, start), events).sent, cfg.interval)
      {
        NoTimePasses(cfg, Start(replicas, start), events);
        SpacedRun(cfg, Start(replicas, start), events, replicas);
      }
    } else {
      var events := OneMailPerReplicaIsReached(cfg, replicas);
      var sent := After(cfg, Start(replicas, 0.0), events).sent;
      assert !(sent[0].read + cfg.interval <= sent[1].read) && !(sent[0].at + cfg.interval <= sent[1].at);
    }
  }

  // Why calls may not stall.

  /** The seconds a lock cell lives. */
  function CellSeconds(cfg: Config): real {
    Max(1, Truncate(cfg.interval) + 1) as real
  }

  /** A check at the time read that finds the interval over, and its write at once. */
  lemma OneSends(cfg: Config, w: World, events: seq<Event>, r: nat) returns (more: seq<Event>)
    requires Runs(cfg, w, events)
    requires
      var before := After(cfg, w, events);
      r in before.phases && before.phases[r].Idle? && IntervalEnd(cfg, before) <= before.now
    ensures Runs(cfg, w, more) && (Prompt(cfg, w, events, false) ==> Prompt(cfg, w, more, false))
    ensures
      var before, after := After(cfg, w, events), After(cfg, w, more);
      && after.now == before.now && after.phases == before.phases
      && after.sent == before.sent + [Mail(before.now, before.now)]
      && after.db == before.db[cfg.lockName := R.Cell(R.Until(before.now + cfg.interval), Some(before.now + CellSeconds(cfg)))]
  {
    OneMore(cfg, w, events, Begin(r), false); more := events + [Begin(r)];
    OneMore(cfg, w, more, Check(r), false); more := more + [Check(r)];
    OneMore(cfg, w, more, Write(r), false); more := more + [Write(r)];
  }

  /**
   * One replica and any interval: a check that stalls until the lock cell has lapsed passes with its
   * old time, so two times read are too close, and the interval it starts is over already, so the
   * next mail goes out at the same moment.
   */
  lemma StalledCheckSendsTwice(cfg: Config) returns (events: seq<Event>, read: real)
    requires cfg.interval > 0.0
    ensures Runs(cfg, Start({0}, 0.0), events) && 0.0 < read < cfg.interval
    ensures
      var t := CellSeconds(cfg);
      After(cfg, Start({0}, 0.0), events).sent == [Mail(0.0, 0.0), Mail(read, t), Mail(t, t)]
  {
    var start, t := Start({0}, 0.0), CellSeconds(cfg);
    CellOutlivesInterval(cfg.interval, 0.0);
    read := if t - cfg.interval < cfg.interval / 2.0 then t - cfg.interval else cfg.interval / 2.0;
    events := OneSends(cfg, start, [], 0);
    OneMore(cfg, start, events, Tick(read), false); events := events + [Tick(read)];
    OneMore(cfg, start, events, Begin(0), false); events := events + [Begin(0)];
    OneMore(cfg, start, events, Tick(t), false); events := events + [Tick(t)];
    OneMore(cfg, start, events, Check(0), false); events := events + [Check(0)];
    OneMore(cfg, start, events, Write(0), false); events := events + [Write(0)];
    events := OneSends(cfg, start, events, 0);
  }

  /** One replica and any interval, checks made at the time read: after a write that stalls, two mails go out half an interval apart. */
  lemma StalledWriteSendsLate(cfg: Config) returns (events: seq<Event>)
    requires cfg.interval > 0.0
    ensures Runs(cfg, Start({0}, 0.0), events) && Prompt(cfg, Start({0}, 0.0), events, false)
    ensures After(cfg, Start({0}, 0.0), events).sent
         == [Mail(0.0, cfg.interval / 2.0), Mail(cfg.interval, cfg.interval)]
  {
    var start, half := Start({0}, 0.0), cfg.interval / 2.0;
    events := [];
    OneMore(cfg, start, events, Begin(0), false); events := events + [Begin(0)];
    OneMore(cfg, start, events, Check(0), false); events := events + [Check(0)];
    OneMore(cfg, start, events, Tick(half), false); events := events + [Tick(half)];
    OneMore(cfg, start, events, Write(0), false); events := events + [Write(0)];
    OneMore(cfg, start, events, Tick(cfg.interval), false); events := events + [Tick(cfg.interval)];
    events := OneSends(cfg, start, events, 0);
  }

  /** One replica's commands run without interruption do and answer what `allow` does. */
  lemma OneCallIsAllow(cfg: Config, w: World, r: nat, prefix: string, key: string) returns (events: seq<Event>)
    requires cfg.lockName == AttemptStores.LockKey(prefix, key) && r in w.phases && w.phases[r].Idle?
    ensures Runs(cfg, w, events)
    ensures
      var w', settings := After(cfg, w, events), L.Config(0, 0.0, cfg.interval);
      var allowed := w'.sent == w.sent + [Mail(w.now, w.now)];
      && w'.phases == w.phases && w'.now == w.now && (!allowed ==> w'.sent == w.sent)
      && L.Step(settings, AttemptStores.Redis(prefix, w.db), L.Call(L.Allow(key), w.now))
         == (AttemptStores.Redis(prefix, w'.db), L.Truth(allowed))
  {
    OneMore(cfg, w, [], Begin(r), true); events := [] + [Begin(r)];
    OneMore(cfg, w, events, Check(r), true); events := events + [Check(r)];
    if After(cfg, w, events).phases[r].Free? {
      OneMore(cfg, w, events, Write(r), true); events := events + [Write(r)];
    } else {
      assert |w.sent| != |w.sent + [Mail(w.now, w.now)]|;
    }
  }
}
