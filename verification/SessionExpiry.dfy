/** When a page load ends a session: the absolute TTL, the idle window and the touch that feeds it. */
module SessionExpiry {
  import opened Common
  import opened Sessions

  /** Limits in hours; zero or less switches a rule off. */
  datatype Limits = Limits(ttlHours: int, idleHours: int)

  datatype Expiry = Ttl | Idle

  /** What the guard does with a page load of an authenticated session. */
  datatype Outcome = Served | NoFamily | Expired(why: Expiry) | SignedOutEverywhere | NotSignedIn

  predicate TtlExpired(b: Bucket, limits: Limits, now: real) {
    limits.ttlHours > 0 &&
    (var login := AsStamp(Get(b, Auth(LoginAt)));
     login.None? || now - login.value > (limits.ttlHours * 3600) as real)
  }

  /** `_idle_expired`: an unreadable stamp counts as fresh once, and is written. */
  function IdleExpired(b: Bucket, limits: Limits, now: real): (Bucket, bool) {
    if limits.idleHours <= 0 then (b, false)
    else
      var seen := AsStamp(Get(b, Auth(LastSeenAt)));
      if seen.None? then (b[Auth(LastSeenAt) := Stamp(now)], false)
      else (b, now - seen.value > (limits.idleHours * 3600) as real)
  }

  /** The TTL is asked first. */
  function ExpiryReason(b: Bucket, limits: Limits, now: real): (Bucket, Option<Expiry>) {
    if TtlExpired(b, limits, now) then (b, Some(Ttl))
    else
      var (b', idle) := IdleExpired(b, limits, now);
      (b', if idle then Some(Idle) else None)
  }

  /** The guard up to its await: family, then expiry. `None` goes on to ask for the revocation. */
  function Arrived(b: Bucket, limits: Limits, now: real): (Bucket, Option<Outcome>) {
    if !IsAuthenticated(b) then (b, Some(NotSignedIn))
    else if SessionTenant(b).None? then (WithoutAuth(b), Some(NoFamily))
    else
      var (checked, why) := ExpiryReason(b, limits, now);
      if why.Some? then (WithoutAuth(checked), Some(Expired(why.value))) else (checked, None)
  }

  /** The guard after its await: revocation, and only then the touch, whatever the bucket holds by now. */
  function Settled(b: Bucket, revoked: bool, now: real): (Bucket, Outcome) {
    if revoked then (WithoutAuth(b), SignedOutEverywhere) else (Touch(b, now), Served)
  }

  /** The first half of `dispatch`. */
  method Arrive(storage: UserStorage, limits: Limits, now: real) returns (ended: Option<Outcome>)
    modifies storage
    ensures (storage.data, ended) == Arrived(old(storage.data), limits, now)
  {
    if !IsAuthenticated(storage.data) {
      return Some(NotSignedIn);
    }
    if SessionTenant(storage.data).None? {
      storage.PopAuthKeys();
      return Some(NoFamily);
    }
    if TtlExpired(storage.data, limits, now) {
      storage.PopAuthKeys();
      return Some(Expired(Ttl));
    }
    if limits.idleHours > 0 {
      var seen := AsStamp(Get(storage.data, Auth(LastSeenAt)));
      if seen.None? {
        storage.data := storage.data[Auth(LastSeenAt) := Stamp(now)];
      } else if now - seen.value > (limits.idleHours * 3600) as real {
        storage.PopAuthKeys();
        return Some(Expired(Idle));
      }
    }
    return None;
  }

  /** The second half. */
  method Settle(storage: UserStorage, revoked: bool, now: real) returns (outcome: Outcome)
    modifies storage
    ensures (storage.data, outcome) == Settled(old(storage.data), revoked, now)
  {
    if revoked {
      storage.PopAuthKeys();
      return SignedOutEverywhere;
    }
    storage.TouchSession(now);
    return Served;
  }

  // A session's life after its login.

  /** Page loads overlap as they like: their halves come in any number and order. */
  datatype Event =
    | Arrival(now: real)
    | Settlement(now: real, revoked: bool)
    | Revalidate(now: real)
    | Note(key: AuthKey, value: Option<Value>)
    | Prefer(name: string, value: Option<Value>)

  /** `keep_session_after_revocation` and the other writers touch neither stamp the limits read. */
  predicate Harmless(e: Event) {
    e.Note? ==> e.key.RevalidatedAt? || e.key.MfaVerifiedAt? || e.key.InstanceAdmin? || e.key.SetByAdmin?
                || e.key.AdminStepUpAt? || e.key.HostedMfaRef? || e.key.HostedMfaAt?
  }

  function Apply(b: Bucket, limits: Limits, e: Event): Bucket {
    match e
    case Arrival(now) => Arrived(b, limits, now).0
    case Settlement(now, revoked) => Settled(b, revoked, now).0
    case Revalidate(now) => b[Auth(RevalidatedAt) := Stamp(now)]
    case Note(key, value) => Assign(b, Auth(key), value)
    case Prefer(name, value) => Assign(b, Preference(name), value)
  }

  function After(b: Bucket, limits: Limits, events: seq<Event>): Bucket {
    if events == [] then b
    else Apply(After(b, limits, events[..|events| - 1]), limits, events[|events| - 1])
  }

  /** The time the last page load settled, or of the login. */
  function LastLoad(login: real, events: seq<Event>): real {
    if events == [] then login
    else if events[|events| - 1].Settlement? then events[|events| - 1].now
    else LastLoad(login, events[..|events| - 1])
  }

  /** No half of a page load is earlier than the last settlement, or the login. */
  predicate LoadsInOrder(login: real, events: seq<Event>) {
    events == [] ||
    (var before, last := events[..|events| - 1], events[|events| - 1];
     LoadsInOrder(login, before) && Harmless(last)
     && (last.Arrival? || last.Settlement? ==> LastLoad(login, before) <= last.now))
  }

  /** Signed in at `login`, and last touched no more than the touch interval before `loaded`. */
  predicate Alive(b: Bucket, login: real, loaded: real) {
    && IsAuthenticated(b) && SessionTenant(b).Some?
    && Get(b, Auth(LoginAt)) == Some(Stamp(login))
    && AsStamp(Get(b, Auth(LastSeenAt))).Some?
    && AsStamp(Get(b, Auth(LastSeenAt))).value <= loaded
    && loaded <= AsStamp(Get(b, Auth(LastSeenAt))).value + IDLE_TOUCH_INTERVAL_SECONDS
  }

  /** An arrival: which limit ends the session, by the time since login and since the last load. */
  lemma ArrivalDecides(b: Bucket, limits: Limits, now: real, login: real, loaded: real)
    requires Alive(b, login, loaded) && loaded <= now
    ensures
      var (after, ended) := Arrived(b, limits, now);
      var ttl, idle := (limits.ttlHours * 3600) as real, (limits.idleHours * 3600) as real;
      && (ended == Some(Expired(Ttl)) <==> limits.ttlHours > 0 && now - login > ttl)
      && (limits.idleHours > 0 && now - loaded > idle ==> ended.Some?)
      && (limits.idleHours <= 0 || now - loaded <= idle - IDLE_TOUCH_INTERVAL_SECONDS ==> ended != Some(Expired(Idle)))
      && (ended.Some? ==> ended.value.Expired? && !IsAuthenticated(after))
      && (ended.None? ==> after == b)
  {
  }

  /** A settlement, however long its check took: served and touched exactly when not revoked. */
  lemma SettlementDecides(b: Bucket, revoked: bool, now: real, login: real, loaded: real)
    requires Alive(b, login, loaded) && loaded <= now
    ensures
      var (after, outcome) := Settled(b, revoked, now);
      && outcome == (if revoked then SignedOutEverywhere else Served)
      && (revoked ==> !IsAuthenticated(after))
      && (!revoked ==> Alive(after, login, now))
  {
    assert SessionTenant(Touch(b, now)) == SessionTenant(b);
  }

  /**
   * Every arrival, of whatever bucket: nobody signed in, then no family, then the TTL (which a session
   * without a readable login stamp has outlived), then the idle window (which one without a readable
   * activity stamp has not, this once). An ended session keeps no auth key; preferences always stay.
   */
  lemma ArrivalOutcomes(b: Bucket, limits: Limits, now: real)
    ensures
      var (after, ended) := Arrived(b, limits, now);
      var in_, login, seen := IsAuthenticated(b) && SessionTenant(b).Some?, AsStamp(Get(b, Auth(LoginAt))), AsStamp(Get(b, Auth(LastSeenAt)));
      var tooOld := limits.ttlHours > 0 && (login.None? || now - login.value > (limits.ttlHours * 3600) as real);
      var idle := limits.idleHours > 0 && seen.Some? && now - seen.value > (limits.idleHours * 3600) as real;
      && (ended == Some(NotSignedIn) <==> !IsAuthenticated(b))
      && (ended == Some(NoFamily) <==> IsAuthenticated(b) && SessionTenant(b).None?)
      && (ended == Some(Expired(Ttl)) <==> in_ && tooOld)
      && (ended == Some(Expired(Idle)) <==> in_ && !tooOld && idle)
      && (ended == Some(NotSignedIn) ==> after == b)
      && (ended.Some? && ended != Some(NotSignedIn) ==> forall k: AuthKey :: Auth(k) !in after)
      && (ended.None? && limits.idleHours > 0 && seen.None? ==> after == b[Auth(LastSeenAt) := Stamp(now)])
      && (ended.None? && (limits.idleHours <= 0 || seen.Some?) ==> after == b)
      && Preferences(after) == Preferences(b)
  {
    var checked := ExpiryReason(b, limits, now).0;
    assert Preferences(checked) == Preferences(b);
    assert Preferences(WithoutAuth(checked)) == Preferences(checked) && Preferences(WithoutAuth(b)) == Preferences(b);
  }

  /** A touch rewrites the activity stamp exactly when there is none to read or it is older than the touch interval. */
  lemma TouchMovesTheStamp(b: Bucket, now: real)
    ensures
      var seen := AsStamp(Get(b, Auth(LastSeenAt)));
      var due := seen.None? || now - seen.value > IDLE_TOUCH_INTERVAL_SECONDS;
      && (due ==> Get(Touch(b, now), Auth(LastSeenAt)) == Some(Stamp(now)))
      && (!due ==> Touch(b, now) == b)
      && forall k: Key | k != Auth(LastSeenAt) :: Get(Touch(b, now), k) == Get(b, k)
  {
  }

  lemma HarmlessKeepsAlive(b: Bucket, limits: Limits, e: Event, login: real, loaded: real)
    requires Alive(b, login, loaded) && Harmless(e) && !e.Arrival? && !e.Settlement?
    ensures Alive(Apply(b, limits, e), login, loaded)
  {
    var after := Apply(b, limits, e);
    assert SessionTenant(after) == SessionTenant(b);
  }

  /** What the other writers write, and that they write nothing else. */
  lemma OtherWritersWrite(b: Bucket, limits: Limits, e: Event, k: Key)
    requires e.Revalidate? || e.Note? || e.Prefer?
    ensures
      var after := Apply(b, limits, e);
      match e
      case Revalidate(now) => Get(after, k) == if k == Auth(RevalidatedAt) then Some(Stamp(now)) else Get(b, k)
      case Note(key, value) => Get(after, k) == if k == Auth(key) then value else Get(b, k)
      case Prefer(name, value) => Get(after, k) == if k == Preference(name) then value else Get(b, k)
  {
  }

  lemma StaysSignedOut(b: Bucket, limits: Limits, e: Event)
    requires !IsAuthenticated(b) && Harmless(e)
    ensures !IsAuthenticated(Apply(b, limits, e))
  {
  }

  /** A session still signed in after a run was served every load: its stamps are as `Alive` says. */
  lemma {:induction false} RunKeepsAlive(b: Bucket, limits: Limits, login: real, events: seq<Event>)
    requires Alive(b, login, login) && LoadsInOrder(login, events)
    ensures
      var after := After(b, limits, events);
      IsAuthenticated(after) ==> Alive(after, login, LastLoad(login, events))
    decreases |events|
  {
    if events != [] {
      var before, last := events[..|events| - 1], events[|events| - 1];
      RunKeepsAlive(b, limits, login, before);
      var mid := After(b, limits, before);
      if !IsAuthenticated(mid) {
        StaysSignedOut(mid, limits, last);
      } else if last.Arrival? {
        ArrivalDecides(mid, limits, last.now, login, LastLoad(login, before));
      } else if last.Settlement? {
        SettlementDecides(mid, last.revoked, last.now, login, LastLoad(login, before));
      } else {
        HarmlessKeepsAlive(mid, limits, last, login, LastLoad(login, before));
      }
    }
  }

  lemma LoginIsAlive(prefs: Bucket, userId: int, username: string, tenant: Tenant, now: real)
    ensures Alive(LoginSession(prefs, userId, username, Some(tenant), now), now, now)
  {
  }

  /**
   * The next page load after any run of a session that is still signed in. It is ended for its age
   * exactly when the TTL counted from the login has passed, whatever touches and revalidations came in
   * between; a gap longer than the idle window since the last load settled always ends it; a gap of at
   * most the window less the touch interval never ends it for idleness; and it goes on to ask for the
   * revocation exactly when it is still signed in.
   */
  lemma NextLoad(prefs: Bucket, userId: int, username: string, tenant: Tenant, login: real,
                 limits: Limits, events: seq<Event>, now: real)
    requires LoadsInOrder(login, events) && LastLoad(login, events) <= now
    requires IsAuthenticated(After(LoginSession(prefs, userId, username, Some(tenant), login), limits, events))
    ensures
      var b := After(LoginSession(prefs, userId, username, Some(tenant), login), limits, events);
      var (after, ended) := Arrived(b, limits, now);
      var gap := now - LastLoad(login, events);
      && (ended == Some(Expired(Ttl)) <==> limits.ttlHours > 0 && now - login > (limits.ttlHours * 3600) as real)
      && (limits.idleHours > 0 && gap > (limits.idleHours * 3600) as real ==> ended.Some? && ended.value.Expired?)
      && (limits.idleHours <= 0 || gap <= (limits.idleHours * 3600) as real - IDLE_TOUCH_INTERVAL_SECONDS
          ==> ended != Some(Expired(Idle)))
      && (ended.None? <==> IsAuthenticated(after))
  {
    var b := LoginSession(prefs, userId, username, Some(tenant), login);
    LoginIsAlive(prefs, userId, username, tenant, login);
    RunKeepsAlive(b, limits, login, events);
    ArrivalDecides(After(b, limits, events), limits, now, login, LastLoad(login, events));
  }

  /** Every arrival of the run is within the TTL and close enough to the last settlement, and none is revoked. */
  predicate Attentive(login: real, limits: Limits, events: seq<Event>) {
    events == [] ||
    (var before, last := events[..|events| - 1], events[|events| - 1];
     && Attentive(login, limits, before)
     && (last.Settlement? ==> !last.revoked)
     && (last.Arrival? ==>
           && (limits.ttlHours <= 0 || last.now - login <= (limits.ttlHours * 3600) as real)
           && (limits.idleHours <= 0
               || last.now - LastLoad(login, before) <= (limits.idleHours * 3600) as real - IDLE_TOUCH_INTERVAL_SECONDS)))
  }

  /** So a session that is used often enough lives until its TTL, through any number of overlapping loads. */
  lemma {:induction false} AttentiveSessionLives(b: Bucket, limits: Limits, login: real, events: seq<Event>)
    requires Alive(b, login, login) && LoadsInOrder(login, events) && Attentive(login, limits, events)
    ensures IsAuthenticated(After(b, limits, events))
    decreases |events|
  {
    if events != [] {
      var before, last := events[..|events| - 1], events[|events| - 1];
      AttentiveSessionLives(b, limits, login, before);
      RunKeepsAlive(b, limits, login, before);
      var mid := After(b, limits, before);
      if last.Arrival? {
        ArrivalDecides(mid, limits, last.now, login, LastLoad(login, before));
      } else if last.Settlement? {
        SettlementDecides(mid, last.revoked, last.now, login, LastLoad(login, before));
      } else {
        HarmlessKeepsAlive(mid, limits, last, login, LastLoad(login, before));
      }
    }
  }

  // A revoked session stays out.

  /** However its page loads overlap, a session ended by one of them is never signed in again by another. */
  lemma {:induction false} EndedStaysEnded(b: Bucket, limits: Limits, events: seq<Event>)
    requires !IsAuthenticated(b) && (forall i | 0 <= i < |events| :: Harmless(events[i]))
    ensures !IsAuthenticated(After(b, limits, events))
    decreases |events|
  {
    if events != [] {
      EndedStaysEnded(b, limits, events[..|events| - 1]);
      StaysSignedOut(After(b, limits, events[..|events| - 1]), limits, events[|events| - 1]);
    }
  }
}
