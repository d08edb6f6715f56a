/** The per-process cache of revocation watermarks. */
module RevocationCaches {
  import opened Common

  /** A family and a user of it; the family is absent only outside one. */
  type Key = (Option<int>, int)

  datatype Entry = Entry(validFrom: Option<real>, fetchedAt: real)

  /** The family given, or else the current one. */
  function KeyOf(userId: int, tenantId: Option<int>, currentTenant: Option<int>): Key {
    (if tenantId.Some? then tenantId else currentTenant, userId)
  }

  /** What memory answers: the watermark of an entry younger than the TTL. */
  function Fresh(entries: map<Key, Entry>, key: Key, now: real, ttl: real): Option<Option<real>> {
    if key in entries && now - entries[key].fetchedAt < ttl then Some(entries[key].validFrom) else None
  }

  /** What memory holds once a check begun at `begun` has loaded `value`. */
  function Stored(entries: map<Key, Entry>, key: Key, begun: real, value: Option<real>): map<Key, Entry> {
    entries[key := Entry(value, begun)]
  }

  function Forgotten(entries: map<Key, Entry>, key: Key): map<Key, Entry> {
    entries - {key}
  }

  /** `session_revoked`, given the watermark. */
  predicate Revoked(validFrom: Option<real>, issuedAt: Option<real>) {
    validFrom.Some? && (issuedAt.None? || issuedAt.value < validFrom.value)
  }

  /**
   * A forget drops the entry of the family it names, or of the current one when it names none, and
   * leaves every other entry answering as before, the current family's too when another is named.
   */
  lemma ForgetDropsOne(
      entries: map<Key, Entry>, userId: int, tenantId: Option<int>, currentTenant: Option<int>, other: Key, now: real, ttl: real)
    ensures
      var after := Forgotten(entries, KeyOf(userId, tenantId, currentTenant));
      && (tenantId.Some? ==> Fresh(after, (tenantId, userId), now, ttl) == None)
      && (tenantId.None? ==> Fresh(after, (currentTenant, userId), now, ttl) == None)
      && (other != (if tenantId.Some? then tenantId else currentTenant, userId) ==>
            Fresh(after, other, now, ttl) == Fresh(entries, other, now, ttl))
  {
  }

  /** `valid_from` is split at its one await: `Begin` before the database read, `Finish` after it. */
  class RevocationCache {
    const ttl: real
    var entries: map<Key, Entry>

    constructor (ttl: real)
      ensures this.ttl == ttl && entries == map[]
    {
      this.ttl := ttl;
      entries := map[];
    }

    method Begin(key: Key, now: real) returns (answer: Option<Option<real>>)
      ensures answer == Fresh(entries, key, now, ttl)
    {
      if key in entries {
        var entry := entries[key];
        if now - entry.fetchedAt < ttl {
          return Some(entry.validFrom);
        }
      }
      return None;
    }

    /** `begun` is the time `Begin` read, not the time of the store. */
    method Finish(key: Key, begun: real, loaded: Option<real>) returns (answer: Option<real>)
      modifies this
      ensures entries == Stored(old(entries), key, begun, loaded) && answer == loaded
    {
      entries := entries[key := Entry(loaded, begun)];
      answer := loaded;
    }

    method Forget(userId: int, tenantId: Option<int>, currentTenant: Option<int>)
      modifies this
      ensures entries == Forgotten(old(entries), KeyOf(userId, tenantId, currentTenant))
    {
      entries := entries - {KeyOf(userId, tenantId, currentTenant)};
    }

    method Clear()
      modifies this
      ensures entries == map[]
    {
      entries := map[];
    }
  }
}

/** Every interleaving of checks, commits and forgets around one cache. */
module RevocationRuns {
  import opened Common
  import opened RevocationCaches

  /** A watermark written to the database, by any process. */
  datatype Commit = Commit(key: Key, value: real, at: real)

  /** A check between its await points. `seen` is how many commits its database read came after. */
  datatype Check =
    | Loading(key: Key, begun: real)
    | Loaded(key: Key, begun: real, value: Option<real>, seen: nat)
    | Answered(key: Key, begun: real, value: Option<real>, seen: nat)

  /** `seen` gives, for each cache entry, how many commits the read behind it came after. */
  datatype World = World(
    ttl: real, now: real, commits: seq<Commit>,
    entries: map<Key, Entry>, seen: map<Key, nat>, checks: map<nat, Check>)

  datatype Event =
    | Tick(now: real)
    | Bump(key: Key, value: real)
    | Begin(id: nat, key: Key)
    | Read(id: nat)
    | Store(id: nat)
    | Forget(key: Key)
    | Clear

  /** The watermark a database read answers after these commits. */
  function Watermark(commits: seq<Commit>, key: Key): Option<real> {
    if commits == [] then None
    else if commits[|commits| - 1].key == key then Some(commits[|commits| - 1].value)
    else Watermark(commits[..|commits| - 1], key)
  }

  predicate Enabled(w: World, e: Event) {
    match e
    case Tick(now) => w.now <= now
    case Begin(id, _) => id !in w.checks
    case Read(id) => id in w.checks && w.checks[id].Loading?
    case Store(id) => id in w.checks && w.checks[id].Loaded?
    case _ => true
  }

  function Step(w: World, e: Event): World
    requires Enabled(w, e)
  {
    match e
    case Tick(now) => w.(now := now)
    case Bump(key, value) => w.(commits := w.commits + [Commit(key, value, w.now)])
    case Begin(id, key) =>
      var hit := Fresh(w.entries, key, w.now, w.ttl);
      var check := if hit.Some?
                   then Answered(key, w.now, hit.value, if key in w.seen then w.seen[key] else 0)
                   else Loading(key, w.now);
      w.(checks := w.checks[id := check])
    case Read(id) =>
      var c := w.checks[id];
      w.(checks := w.checks[id := Loaded(c.key, c.begun, Watermark(w.commits, c.key), |w.commits|)])
    case Store(id) =>
      var c := w.checks[id];
      w.(entries := Stored(w.entries, c.key, c.begun, c.value),
         seen := w.seen[c.key := c.seen],
         checks := w.checks[id := Answered(c.key, c.begun, c.value, c.seen)])
    case Forget(key) => w.(entries := Forgotten(w.entries, key))
    case Clear => w.(entries := map[])
  }

  predicate Runs(w: World, events: seq<Event>)
    decreases |events|
  {
    events == [] || (Enabled(w, events[0]) && Runs(Step(w, events[0]), events[1..]))
  }

  function After(w: World, events: seq<Event>): World
    requires Runs(w, events)
    decreases |events|
  {
    if events == [] then w else After(Step(w, events[0]), events[1..])
  }

  function Start(ttl: real, now: real): World {
    World(ttl, now, [], map[], map[], map[])
  }

  // Nothing older than the TTL is missed.

  /** `value` is the watermark after the first `seen` commits, and those hold all made before `since`. */
  ghost predicate ReadAfter(commits: seq<Commit>, key: Key, value: Option<real>, seen: nat, since: real) {
    && seen <= |commits|
    && value == Watermark(commits[..seen], key)
    && forall i | seen <= i < |commits| :: since <= commits[i].at
  }

  ghost predicate Inv(w: World) {
    && (forall i | 0 <= i < |w.commits| :: w.commits[i].at <= w.now)
    && (forall k | k in w.entries ::
          k in w.seen && ReadAfter(w.commits, k, w.entries[k].validFrom, w.seen[k], w.entries[k].fetchedAt))
    && (forall id | id in w.checks ::
          var c := w.checks[id];
          && c.begun <= w.now
          && (c.Loaded? ==> ReadAfter(w.commits, c.key, c.value, c.seen, c.begun))
          && (c.Answered? ==> ReadAfter(w.commits, c.key, c.value, c.seen, c.begun - w.ttl)))
  }

  lemma ReadAfterMoreCommits(commits: seq<Commit>, c: Commit, key: Key, value: Option<real>, seen: nat, since: real)
    requires ReadAfter(commits, key, value, seen, since) && since <= c.at
    ensures ReadAfter(commits + [c], key, value, seen, since)
  {
    assert (commits + [c])[..seen] == commits[..seen];
  }

  lemma InvBump(w: World, c: Commit)
    requires w.ttl >= 0.0 && Inv(w) && c.at == w.now
    requires forall k | k in w.entries :: w.entries[k].fetchedAt <= w.now
    ensures Inv(w.(commits := w.commits + [c]))
  {
    forall k | k in w.entries
      ensures ReadAfter(w.commits + [c], k, w.entries[k].validFrom, w.seen[k], w.entries[k].fetchedAt)
    {
      ReadAfterMoreCommits(w.commits, c, k, w.entries[k].validFrom, w.seen[k], w.entries[k].fetchedAt);
    }
    forall id | id in w.checks && !w.checks[id].Loading?
      ensures
        var x := w.checks[id];
        ReadAfter(w.commits + [c], x.key, x.value, x.seen, if x.Loaded? then x.begun else x.begun - w.ttl)
    {
      var x := w.checks[id];
      ReadAfterMoreCommits(w.commits, c, x.key, x.value, x.seen, if x.Loaded? then x.begun else x.begun - w.ttl);
    }
  }

  lemma InvStep(w: World, e: Event)
    requires w.ttl >= 0.0 && Inv(w) && Enabled(w, e)
    requires forall k | k in w.entries :: w.entries[k].fetchedAt <= w.now
    ensures Inv(Step(w, e))
    ensures forall k | k in Step(w, e).entries :: Step(w, e).entries[k].fetchedAt <= Step(w, e).now
  {
    match e {
      case Bump(key, value) => InvBump(w, Commit(key, value, w.now));
      case Read(id) => assert w.commits[..|w.commits|] == w.commits;
      case _ =>
    }
  }

  lemma {:induction false} InvRun(w: World, events: seq<Event>)
    requires w.ttl >= 0.0 && Inv(w) && Runs(w, events)
    requires forall k | k in w.entries :: w.entries[k].fetchedAt <= w.now
    ensures Inv(After(w, events)) && After(w, events).ttl == w.ttl
    decreases |events|
  {
    if events != [] {
      InvStep(w, events[0]);
      InvRun(Step(w, events[0]), events[1..]);
    }
  }

  /**
   * Whatever overlaps and in whatever order loads store, a check begun at time T answers the
   * watermark of a state of the database that holds every commit made before T - TTL.
   */
  lemma NoOldBumpIsMissed(ttl: real, start: real, events: seq<Event>, id: nat)
    requires ttl >= 0.0 && Runs(Start(ttl, start), events)
    ensures
      var w := After(Start(ttl, start), events);
      id in w.checks && w.checks[id].Answered? ==>
        var c := w.checks[id];
        && c.seen <= |w.commits| && c.value == Watermark(w.commits[..c.seen], c.key)
        && forall i | 0 <= i < |w.commits| && w.commits[i].at < c.begun - ttl :: i < c.seen
  {
    InvRun(Start(ttl, start), events);
  }

  /** Watermarks of a key only ever move forward, as wall-clock stamps do. */
  predicate Increasing(commits: seq<Commit>, key: Key) {
    forall i, j | 0 <= i < j < |commits| && commits[i].key == key && commits[j].key == key ::
      commits[i].value <= commits[j].value
  }

  lemma {:induction false} WatermarkCoversCommits(commits: seq<Commit>, key: Key, i: nat)
    requires Increasing(commits, key) && i < |commits| && commits[i].key == key
    ensures Watermark(commits, key).Some? && commits[i].value <= Watermark(commits, key).value
    decreases |commits|
  {
    if i < |commits| - 1 && commits[|commits| - 1].key != key {
      WatermarkCoversCommits(commits[..|commits| - 1], key, i);
    }
  }

  /** So a session issued before a bump is refused by every check begun more than a TTL after the commit. */
  lemma OldSessionIsRefused(ttl: real, start: real, events: seq<Event>, id: nat, i: nat, issuedAt: Option<real>)
    requires ttl >= 0.0 && Runs(Start(ttl, start), events)
    requires
      var w := After(Start(ttl, start), events);
      && id in w.checks && w.checks[id].Answered? && i < |w.commits|
      && w.commits[i].key == w.checks[id].key && w.commits[i].at < w.checks[id].begun - ttl
      && Increasing(w.commits, w.checks[id].key)
      && (issuedAt.Some? ==> issuedAt.value < w.commits[i].value)
    ensures Revoked(After(Start(ttl, start), events).checks[id].value, issuedAt)
  {
    var w := After(Start(ttl, start), events);
    NoOldBumpIsMissed(ttl, start, events, id);
    var c := w.checks[id];
    assert w.commits[..c.seen][i] == w.commits[i];
    WatermarkCoversCommits(w.commits[..c.seen], c.key, i);
  }

  lemma {:induction false} WatermarkIsACommit(commits: seq<Commit>, key: Key)
    ensures Watermark(commits, key).Some? <==> exists i :: 0 <= i < |commits| && commits[i].key == key
    ensures Watermark(commits, key).Some? ==>
      exists i :: 0 <= i < |commits| && commits[i].key == key && commits[i].value == Watermark(commits, key).value
    decreases |commits|
  {
    if commits != [] && commits[|commits| - 1].key != key {
      var front := commits[..|commits| - 1];
      WatermarkIsACommit(front, key);
      if Watermark(front, key).Some? {
        var i :| 0 <= i < |front| && front[i].key == key && front[i].value == Watermark(front, key).value;
        assert commits[i] == front[i];
      }
    }
  }

  /** The session was issued before the bump of commit `i`, or at no known time. */
  predicate IssuedBefore(issuedAt: Option<real>, commits: seq<Commit>, key: Key, i: nat)
    requires i < |commits|
  {
    commits[i].key == key && (issuedAt.None? || issuedAt.value < commits[i].value)
  }

  /**
   * A check refuses only for cause: a session issued before no bump of its user is refused by no
   * answered check of any run, so nobody is where there was no bump at all, and a session without an
   * issue time is exactly when the answer holds a watermark.
   */
  lemma RefusedOnlyForABump(ttl: real, start: real, events: seq<Event>, id: nat, issuedAt: Option<real>)
    requires ttl >= 0.0 && Runs(Start(ttl, start), events)
    requires
      var w := After(Start(ttl, start), events);
      id in w.checks && w.checks[id].Answered?
    ensures
      var w := After(Start(ttl, start), events);
      var c := w.checks[id];
      && (Revoked(c.value, issuedAt) ==> exists i :: 0 <= i < |w.commits| && IssuedBefore(issuedAt, w.commits, c.key, i))
      && (issuedAt.None? ==> (Revoked(c.value, issuedAt) <==> c.value.Some?))
  {
    var w := After(Start(ttl, start), events);
    var c := w.checks[id];
    NoOldBumpIsMissed(ttl, start, events, id);
    var seen := w.commits[..c.seen];
    WatermarkIsACommit(seen, c.key);
    if Revoked(c.value, issuedAt) {
      var i :| 0 <= i < |seen| && seen[i].key == c.key && seen[i].value == Watermark(seen, c.key).value;
      assert IssuedBefore(issuedAt, w.commits, c.key, i);
    }
  }

  /** So a check begun more than a TTL after the last bump of its user refuses exactly the sessions issued before one. */
  lemma RefusedIff(ttl: real, start: real, events: seq<Event>, id: nat, issuedAt: Option<real>)
    requires ttl >= 0.0 && Runs(Start(ttl, start), events)
    requires
      var w := After(Start(ttl, start), events);
      && id in w.checks && w.checks[id].Answered? && Increasing(w.commits, w.checks[id].key)
      && forall i | 0 <= i < |w.commits| && w.commits[i].key == w.checks[id].key :: w.commits[i].at < w.checks[id].begun - ttl
    ensures
      var w := After(Start(ttl, start), events);
      Revoked(w.checks[id].value, issuedAt)
      <==> exists i :: 0 <= i < |w.commits| && IssuedBefore(issuedAt, w.commits, w.checks[id].key, i)
  {
    var w := After(Start(ttl, start), events);
    var key := w.checks[id].key;
    RefusedOnlyForABump(ttl, start, events, id, issuedAt);
    if exists i :: 0 <= i < |w.commits| && IssuedBefore(issuedAt, w.commits, key, i) {
      var i :| 0 <= i < |w.commits| && IssuedBefore(issuedAt, w.commits, key, i);
      OldSessionIsRefused(ttl, start, events, id, i, issuedAt);
    }
  }

  // After a forget.

  /** A load that read before commit `bump` is still to store, and would store a fresh entry. */
  ghost predicate StaleLoadInFlight(w: World, key: Key, bump: nat) {
    exists id :: id in w.checks && w.checks[id].Loaded? && w.checks[id].key == key
                 && w.checks[id].seen <= bump && w.now - w.checks[id].begun < w.ttl
  }

  /** Every check of `key` begun after `w`, along every run, has read commit `bump`. */
  ghost predicate SeenFromNowOn(w: World, key: Key, bump: nat) {
    forall events, id | Runs(w, events) && id !in w.checks && id in After(w, events).checks
                        && After(w, events).checks[id].Answered? && After(w, events).checks[id].key == key ::
      After(w, events).checks[id].seen > bump
  }

  ghost predicate Clean(w: World, key: Key, bump: nat, before: set<nat>) {
    && bump < |w.commits|
    && (key in w.entries ==> key in w.seen && (w.seen[key] > bump || w.now - w.entries[key].fetchedAt >= w.ttl))
    && (forall id | id in w.checks && w.checks[id].key == key ::
          && (w.checks[id].Loaded? ==> w.checks[id].seen > bump || w.now - w.checks[id].begun >= w.ttl)
          && (w.checks[id].Answered? && id !in before ==> w.checks[id].seen > bump))
  }

  /** A check begun after the forget has read the bump even if it is answered by a late store. */
  ghost predicate NewLoadsClean(w: World, key: Key, bump: nat, before: set<nat>) {
    forall id | id in w.checks && w.checks[id].key == key && id !in before && w.checks[id].Loaded? ::
      w.checks[id].seen > bump
  }

  lemma CleanStep(w: World, e: Event, key: Key, bump: nat, before: set<nat>)
    requires Clean(w, key, bump, before) && NewLoadsClean(w, key, bump, before)
    requires before <= w.checks.Keys && Enabled(w, e)
    ensures Clean(Step(w, e), key, bump, before) && NewLoadsClean(Step(w, e), key, bump, before)
    ensures before <= Step(w, e).checks.Keys
  {
  }

  lemma {:induction false} CleanRun(w: World, events: seq<Event>, key: Key, bump: nat, before: set<nat>)
    requires Clean(w, key, bump, before) && NewLoadsClean(w, key, bump, before)
    requires before <= w.checks.Keys && Runs(w, events)
    ensures Clean(After(w, events), key, bump, before)
    decreases |events|
  {
    if events != [] {
      CleanStep(w, events[0], key, bump, before);
      CleanRun(Step(w, events[0]), events[1..], key, bump, before);
    }
  }

  /** One stale load in flight: it stores, and the very next check is served what it stored. */
  lemma StaleStoreIsServed(w: World, key: Key, bump: nat, stale: nat, id: nat)
    requires stale in w.checks && w.checks[stale].Loaded? && w.checks[stale].key == key
    requires w.checks[stale].seen <= bump && w.now - w.checks[stale].begun < w.ttl && id !in w.checks
    ensures !SeenFromNowOn(w, key, bump)
  {
    var events := [Store(stale), Begin(id, key)];
    var w1 := Step(w, events[0]);
    var w2 := Step(w1, events[1]);
    var rest := [Begin(id, key)];
    assert events[1..] == rest && rest[1..] == [];
    assert Runs(w2, rest[1..]) && After(w2, rest[1..]) == w2;
    assert Runs(w1, rest) && After(w1, rest) == w2;
    assert Runs(w, events) && After(w, events) == w2;
    assert w2.checks[id] == Answered(key, w.now, w.checks[stale].value, w.checks[stale].seen);
  }

  lemma {:induction false} OneMore(w: World, events: seq<Event>, e: Event)
    requires Runs(w, events) && Enabled(After(w, events), e)
    ensures Runs(w, events + [e])
    ensures After(w, events + [e]) == Step(After(w, events), e)
    decreases |events|
  {
    if events == [] {
      assert events + [e] == [e];
      assert Runs(Step(w, e), [e][1..]);
    } else {
      OneMore(Step(w, events[0]), events[1..], e);
      assert (events + [e])[1..] == events[1..] + [e];
    }
  }

  /**
   * Such a run from an empty cache, for every TTL and key: a check reads the database, the bump is
   * committed and forgotten, the check stores, and a check begun after all that misses the bump.
   */
  lemma LateStoreHidesBump(ttl: real, start: real, key: Key, value: real) returns (events: seq<Event>)
    requires ttl > 0.0
    ensures events == [Begin(0, key), Read(0), Bump(key, value), Forget(key), Store(0), Begin(1, key)]
    ensures Runs(Start(ttl, start), events[..4]) && Runs(Start(ttl, start), events)
    ensures
      var forgot, w := After(Start(ttl, start), events[..4]), After(Start(ttl, start), events);
      && StaleLoadInFlight(forgot, key, 0)
      && Watermark(w.commits, key) == Some(value)
      && 1 in w.checks && w.checks[1] == Answered(key, start, None, 0)
  {
    var w := Start(ttl, start);
    events := [];
    OneMore(w, events, Begin(0, key)); events := events + [Begin(0, key)];
    OneMore(w, events, Read(0)); events := events + [Read(0)];
    OneMore(w, events, Bump(key, value)); events := events + [Bump(key, value)];
    OneMore(w, events, Forget(key)); events := events + [Forget(key)];
    var four, forgot := events, After(w, events);
    assert forgot.checks[0] == Loaded(key, start, None, 0);
    OneMore(w, events, Store(0)); events := events + [Store(0)];
    OneMore(w, events, Begin(1, key)); events := events + [Begin(1, key)];
    assert events[..4] == four;
  }

  /** A check that finds nothing fresh in memory, from its begin to its store. */
  function Loads(id: nat, key: Key): seq<Event> {
    [Begin(id, key), Read(id), Store(id)]
  }

  /** It answers the watermark in the database, and leaves it in memory under the time it began. */
  lemma CheckLoads(w: World, id: nat, key: Key)
    requires id !in w.checks && Fresh(w.entries, key, w.now, w.ttl).None?
    ensures Runs(w, Loads(id, key))
    ensures
      var v, value := After(w, Loads(id, key)), Watermark(w.commits, key);
      && v.checks == w.checks[id := Answered(key, w.now, value, |w.commits|)]
      && v.seen == w.seen[key := |w.commits|]
      && v.entries == w.entries[key := Entry(value, w.now)] && v.now == w.now && v.ttl == w.ttl && v.commits == w.commits
  {
    OneMore(w, [], Begin(id, key));
    var one := [] + [Begin(id, key)];
    OneMore(w, one, Read(id));
    OneMore(w, one + [Read(id)], Store(id));
    assert Loads(id, key) == one + [Read(id)] + [Store(id)];
  }

  /**
   * A loaded answer is served from memory for exactly one TTL, and a clear ends that at once.
   */
  lemma LoadedAnswerIsCached(w: World, id: nat, other: nat, key: Key, later: real)
    requires id !in w.checks && other !in w.checks && id != other
    requires Fresh(w.entries, key, w.now, w.ttl).None? && w.now <= later
    ensures Runs(w, Loads(id, key))
    ensures
      var v, value := After(w, Loads(id, key)), Watermark(w.commits, key);
      && Enabled(v, Tick(later)) && Enabled(Step(v, Tick(later)), Begin(other, key))
      && Step(Step(v, Tick(later)), Begin(other, key)).checks[other]
         == (if later - w.now < w.ttl then Answered(key, later, value, |w.commits|) else Loading(key, later))
      && Step(Step(Step(v, Tick(later)), Clear), Begin(other, key)).checks[other] == Loading(key, later)
  {
    CheckLoads(w, id, key);
  }

  /** A forget of one key leaves the entries of all others, the checks under way and the database as they were. */
  lemma ForgetLeavesTheRest(w: World, key: Key, other: Key)
    requires other != key
    ensures
      var f := Step(w, Forget(key));
      && key !in f.entries && f.checks == w.checks && f.commits == w.commits
      && Fresh(f.entries, other, f.now, f.ttl) == Fresh(w.entries, other, w.now, w.ttl)
  {
  }

  /** A number no check uses yet. */
  lemma {:induction false} UnusedId(ids: set<nat>) returns (id: nat)
    ensures forall x | x in ids :: x < id
  {
    if ids == {} {
      id := 0;
    } else {
      var x :| x in ids;
      var above := UnusedId(ids - {x});
      id := if x < above then above else x + 1;
      forall y | y in ids ensures y < id {
        assert y == x || y in ids - {x};
      }
    }
  }

  /**
   * Right after a forget, a committed bump is seen by every later check of the key, exactly when no
   * load that read before the bump and began less than a TTL ago is still to store.
   */
  lemma ForgetShowsBumpIff(w: World, key: Key, bump: nat)
    requires bump < |w.commits|
    ensures SeenFromNowOn(Step(w, Forget(key)), key, bump)
       <==> !StaleLoadInFlight(Step(w, Forget(key)), key, bump)
  {
    var f := Step(w, Forget(key));
    if StaleLoadInFlight(f, key, bump) {
      var stale :| stale in f.checks && f.checks[stale].Loaded? && f.checks[stale].key == key
                   && f.checks[stale].seen <= bump && f.now - f.checks[stale].begun < f.ttl;
      var id := UnusedId(f.checks.Keys);
      StaleStoreIsServed(f, key, bump, stale, id);
    } else {
      var before := f.checks.Keys;
      forall events, id | Runs(f, events) && id !in f.checks && id in After(f, events).checks
                          && After(f, events).checks[id].Answered? && After(f, events).checks[id].key == key
        ensures After(f, events).checks[id].seen > bump
      {
        CleanRun(f, events, key, bump, before);
      }
    }
  }
}
