/** Session ids over whole runs: who an authenticated id belongs to and how it came about. */
module SessionRotation {
  import opened Common
  import opened Sessions

  /** What a nonce was stamped for. */
  datatype Issue = Issue(purpose: RotatePurpose, userId: int, username: string, mfa: bool, tenant: Option<Tenant>, at: real)

  /** A rotation that has emptied the old bucket and awaits its new storage. */
  datatype Half = Half(given: string, prefs: Bucket, pending: Pending)

  /**
   * All storage buckets by id, the ids the key ring holds an unlock for, and the rotations between
   * their awaits: those without their new storage yet by the new id, and the new ids signed in whose
   * flags are still to be read. The rest is history: every nonce ever stamped, and for every id minted
   * by a rotation the nonce that rotation consumed.
   */
  datatype World = World(
    now: real, buckets: map<string, Bucket>, unlocked: set<string>,
    waiting: map<string, Half>, unstamped: set<string>,
    issued: map<string, Issue>, minted: map<string, string>)

  datatype Event =
    | Tick(now: real)
    | NewBrowser(id: string)
    | Park(id: string, userId: int, username: string, mfa: bool, tenant: Option<Tenant>, nonce: string)
    | FinishLogout(id: string, nonce: string)
    | RotateSession(id: string, given: string, logout: bool, newId: string)
    | Resume(newId: string)
    | StampFlags(newId: string, flags: Option<(bool, bool)>)
    | LogOut(id: string)
    | Unlock(id: string)
    | Note(id: string, key: AuthKey, value: Option<Value>)
    | Prefer(id: string, name: string, value: Option<Value>)

  /** The auth keys that say who the session is; only a login writes them. */
  predicate Identifies(k: AuthKey) {
    k.Authenticated? || k.UserId? || k.Username? || k.TenantId? || k.TenantSchema? || k.AuthSubject? || k.Email?
  }

  /** Ids and nonces are random: a new one has never been used. */
  predicate Enabled(w: World, e: Event) {
    match e
    case Tick(now) => w.now <= now
    case NewBrowser(id) => id !in w.buckets && id !in w.waiting
    case Park(id, _, _, _, _, nonce) => id in w.buckets && nonce !in w.issued && nonce != ""
    case FinishLogout(id, nonce) => id in w.buckets && nonce !in w.issued && nonce != ""
    case RotateSession(id, _, _, newId) => id in w.buckets && newId !in w.buckets && newId !in w.waiting
    case Resume(newId) => newId in w.waiting && newId !in w.buckets
    case StampFlags(newId, _) => newId in w.unstamped && newId in w.buckets
    case LogOut(id) => id in w.buckets
    case Unlock(id) => id in w.buckets
    case Note(id, key, _) => id in w.buckets && !Identifies(key)
    case Prefer(id, _, _) => id in w.buckets
  }

  /** `rotate_session` up to the await on the new storage: consume, then empty the old bucket. */
  function Begun(w: World, id: string, given: string, logout: bool, newId: string): World
    requires id in w.buckets
  {
    var (left, pending) := ConsumeNonce(w.buckets[id], given, if logout then Logout else Login, w.now);
    if pending.None? then w.(buckets := w.buckets[id := left])
    else w.(buckets := w.buckets[id := map[]], unlocked := w.unlocked - {id},
            waiting := w.waiting[newId := Half(given, Preferences(left), pending.value)])
  }

  /** From there to the await on the flags: the preferences move in, and a login signs in. */
  function Resumed(w: World, newId: string): World
    requires newId in w.waiting
  {
    var Half(given, prefs, p) := w.waiting[newId];
    var moved := w.(waiting := w.waiting - {newId}, minted := w.minted[newId := given],
                    buckets := w.buckets[newId := NewBucket(prefs, p, w.now)]);
    if p.userId.None? || p.username.None? then moved else moved.(unstamped := w.unstamped + {newId})
  }

  /** The bucket a rotation fills under the new id. */
  function NewBucket(prefs: Bucket, p: Pending, now: real): Bucket {
    if p.userId.None? || p.username.None? then prefs
    else
      var b := LoginSession(prefs, p.userId.value, p.username.value, p.tenant, now);
      if p.mfaVerified then b[Auth(MfaVerifiedAt) := Stamp(now)] else b
  }

  /** The flags from the registry; when it could not be asked the login is undone. */
  function Stamped(w: World, newId: string, flags: Option<(bool, bool)>): World
    requires newId in w.buckets
  {
    w.(buckets := w.buckets[newId := WithFlags(w.buckets[newId], flags)],
       unlocked := if flags.None? then w.unlocked - {newId} else w.unlocked,
       unstamped := w.unstamped - {newId})
  }

  function WithFlags(b: Bucket, flags: Option<(bool, bool)>): Bucket {
    match flags
    case None => WithoutAuth(b)
    case Some((admin, setByAdmin)) =>
      var b := b[Auth(InstanceAdmin) := Flag(admin)];
      if setByAdmin then b[Auth(SetByAdmin) := Flag(true)] else b
  }

  function Step(w: World, e: Event): World
    requires Enabled(w, e)
  {
    match e
    case Tick(now) => w.(now := now)
    case NewBrowser(id) => w.(buckets := w.buckets[id := map[]])
    case Park(id, userId, username, mfa, tenant, nonce) =>
      w.(buckets := w.buckets[id := ParkLogin(w.buckets[id], userId, username, mfa, tenant, nonce, w.now)],
         issued := w.issued[nonce := Issue(Login, userId, username, mfa, tenant, w.now)])
    case FinishLogout(id, nonce) =>
      w.(buckets := w.buckets[id := StampNonce(WithoutAuth(w.buckets[id]), Logout, nonce, w.now)],
         unlocked := w.unlocked - {id},
         issued := w.issued[nonce := Issue(Logout, 0, "", false, None, w.now)])
    case RotateSession(id, given, logout, newId) => Begun(w, id, given, logout, newId)
    case Resume(newId) => Resumed(w, newId)
    case StampFlags(newId, flags) => Stamped(w, newId, flags)
    case LogOut(id) =>
      w.(buckets := w.buckets[id := WithoutAuth(w.buckets[id])], unlocked := w.unlocked - {id})
    case Unlock(id) => w.(unlocked := w.unlocked + {id})
    case Note(id, key, value) => w.(buckets := w.buckets[id := Assign(w.buckets[id], Auth(key), value)])
    case Prefer(id, name, value) =>
      w.(buckets := w.buckets[id := Assign(w.buckets[id], Preference(name), value)])
  }

  predicate Runs(w: World, events: seq<Event>)
    decreases |events|
  {
    events == [] || (Enabled(w, events[0]) && Runs(Step(w, events[0]), events[1..]))
  }

  function After(w: World, events: seq<Event>): World
    requires Runs(w, events)
    decreases |events|
  {
    if events == [] then w else After(Step(w, events[0]), events[1..])
  }

  function Start(now: real): World {
    World(now, map[], {}, map[], {}, map[], map[])
  }

  // What the buckets say.

  function NonceOf(b: Bucket): Option<string> {
    AsText(Get(b, Rotate(Nonce)))
  }

  /** The bucket parks exactly what its nonce was stamped for. */
  predicate Parks(b: Bucket, i: Issue) {
    && Get(b, Rotate(StampedAt)) == Some(Stamp(i.at))
    && Get(b, Rotate(Purpose)) == Some(PurposeText(i.purpose))
    && (i.purpose == Login ==>
          && AsInt(Get(b, Rotate(ForUserId))) == Some(i.userId)
          && AsText(Get(b, Rotate(ForUsername))) == Some(i.username)
          && Get(b, Rotate(ForMfaVerified)) == Some(Flag(i.mfa))
          && ParkedTenant(b) == i.tenant)
  }

  /** The bucket is signed in as exactly the user and family of that login. */
  predicate SignedInAs(b: Bucket, i: Issue) {
    && i.purpose == Login
    && AsInt(Get(b, Auth(UserId))) == Some(i.userId)
    && AsText(Get(b, Auth(Username))) == Some(i.username)
    && i.tenant.Some? && SessionTenant(b) == i.tenant
  }

  ghost predicate BucketInv(w: World, id: string)
    requires id in w.buckets
  {
    var b := w.buckets[id];
    && (IsAuthenticated(b) ==>
          id in w.minted && w.minted[id] in w.issued && SignedInAs(b, w.issued[w.minted[id]]))
    && (NonceOf(b).Some? ==>
          && NonceOf(b).value in w.issued
          && NonceOf(b).value !in w.minted.Values
          && Parks(b, w.issued[NonceOf(b).value]))
  }

  /** What a nonce stamped for `i` signs in as. */
  function PendingOf(i: Issue): Pending {
    if i.purpose == Logout then Pending(Logout, None, None, false, None)
    else Pending(Login, Some(i.userId), Some(i.username), i.mfa, i.tenant)
  }

  /** A waiting rotation is the only one that has its nonce, and signs in as that nonce says. */
  ghost predicate WaitInv(w: World, newId: string)
    requires newId in w.waiting
  {
    var h := w.waiting[newId];
    && newId !in w.buckets && h.given in w.issued && h.given !in w.minted.Values
    && (forall a | a in w.buckets :: NonceOf(w.buckets[a]) != Some(h.given))
    && h.pending == PendingOf(w.issued[h.given])
    && (w.issued[h.given].purpose == Login ==> w.issued[h.given].tenant.Some?)
    && h.prefs == Preferences(h.prefs)
  }

  ghost predicate Inv(w: World) {
    && (forall id | id in w.buckets :: BucketInv(w, id))
    && (forall a, b | a in w.buckets && b in w.buckets && a != b && NonceOf(w.buckets[a]).Some? ::
          NonceOf(w.buckets[a]) != NonceOf(w.buckets[b]))
    && (forall a, b | a in w.minted && b in w.minted && a != b :: w.minted[a] != w.minted[b])
    && (forall a | a in w.minted :: a in w.buckets && w.minted[a] in w.issued)
    && w.unlocked <= w.buckets.Keys
    && (forall n | n in w.waiting :: WaitInv(w, n))
    && (forall m, n | m in w.waiting && n in w.waiting && m != n :: w.waiting[m].given != w.waiting[n].given)
  }

  // How each write looks to the invariant.

  lemma ParkingParks(b: Bucket, userId: int, username: string, mfa: bool, tenant: Option<Tenant>, nonce: string, now: real)
    ensures
      var parked := ParkLogin(b, userId, username, mfa, tenant, nonce, now);
      && NonceOf(parked) == Some(nonce)
      && Parks(parked, Issue(Login, userId, username, mfa, tenant, now))
  {
    var stamped := StampNonce(ClearMfaChallenge(b), Login, nonce, now);
    assert tenant.None? ==> Rotate(ForTenantId) !in stamped;
  }

  lemma ParkingSignsNobodyIn(b: Bucket, userId: int, username: string, mfa: bool, tenant: Option<Tenant>, nonce: string, now: real)
    ensures SameIdentity(b, ParkLogin(b, userId, username, mfa, tenant, nonce, now))
  {
    var cleared := ClearMfaChallenge(b);
    assert forall k: AuthKey | Identifies(k) :: Get(cleared, Auth(k)) == Get(b, Auth(k));
    var parked := ParkLogin(b, userId, username, mfa, tenant, nonce, now);
    assert forall k: AuthKey :: Get(parked, Auth(k)) == Get(cleared, Auth(k));
  }

  /** A login and a parked login both drop a half-finished challenge, and a login any earlier second-factor stamp. */
  lemma ChallengesAreDropped(b: Bucket, userId: int, username: string, mfa: bool, tenant: Option<Tenant>, nonce: string, now: real)
    ensures
      var in_ := LoginSession(b, userId, username, tenant, now);
      var parked := ParkLogin(b, userId, username, mfa, tenant, nonce, now);
      && Auth(HostedMfaRef) !in in_ && Auth(HostedMfaAt) !in in_ && Auth(MfaVerifiedAt) !in in_
      && Auth(HostedMfaRef) !in parked && Auth(HostedMfaAt) !in parked
      && Get(parked, Auth(MfaVerifiedAt)) == Get(b, Auth(MfaVerifiedAt))
  {
  }

  /** A login is for the family given and keeps nothing of an earlier one. */
  lemma LoginReplacesTheFamily(b: Bucket, userId: int, username: string, tenant: Option<Tenant>, now: real)
    ensures
      var in_ := LoginSession(b, userId, username, tenant, now);
      && SessionTenant(in_) == tenant
      && (tenant.None? ==> Auth(TenantId) !in in_ && Auth(TenantSchema) !in in_ && Auth(AuthSubject) !in in_ && Auth(Email) !in in_)
  {
  }

  /** The two buckets agree on every key but those of the session's state. */
  ghost predicate SameOutsideAuth(a: Bucket, b: Bucket) {
    forall k: Key | !k.Auth? :: Get(a, k) == Get(b, k)
  }

  lemma SamePreferences(a: Bucket, b: Bucket)
    requires SameOutsideAuth(a, b)
    ensures Preferences(a) == Preferences(b) && NonceOf(a) == NonceOf(b)
  {
    forall k: Key | k.Preference? ensures k in a <==> k in b {
      assert Get(a, k) == Get(b, k);
    }
    forall k | k in Preferences(a) ensures a[k] == b[k] {
      assert Get(a, k) == Get(b, k);
    }
  }

  lemma LoggingIn(prefs: Bucket, userId: int, username: string, tenant: Tenant, now: real)
    ensures
      var b := LoginSession(prefs, userId, username, Some(tenant), now);
      && IsAuthenticated(b) && SameOutsideAuth(b, prefs)
      && AsInt(Get(b, Auth(UserId))) == Some(userId) && AsText(Get(b, Auth(Username))) == Some(username)
      && SessionTenant(b) == Some(tenant) && Auth(MfaVerifiedAt) !in b
  {
  }

  lemma Stamping(b: Bucket, flags: Option<(bool, bool)>)
    ensures
      var c := WithFlags(b, flags);
      && SameOutsideAuth(b, c)
      && (flags.None? ==> !IsAuthenticated(c))
      && (flags.Some? ==> SameIdentity(b, c) && (Auth(MfaVerifiedAt) in c <==> Auth(MfaVerifiedAt) in b))
  {
  }

  /** Consuming what is parked gives back exactly that, in time and for its own purpose; it is spent either way. */
  lemma ConsumingParked(b: Bucket, i: Issue, given: string, purpose: RotatePurpose, now: real)
    requires NonceOf(b) == Some(given) && given != "" && Parks(b, i)
    ensures
      var (left, pending) := ConsumeNonce(b, given, purpose, now);
      && left == WithoutRotate(b) && NonceOf(left).None?
      && (pending.Some? <==> now - i.at <= ROTATE_NONCE_TTL_SECONDS && purpose == i.purpose
                             && (purpose == Login ==> i.tenant.Some?))
      && (pending.Some? ==>
            pending.value == PendingOf(i))
  {
  }

  /** A wrong guess leaves the whole world as it was, the parked login included. */
  lemma WrongGuessChangesNothing(w: World, e: Event)
    requires Enabled(w, e) && e.RotateSession?
    requires NonceOf(w.buckets[e.id]) != Some(e.given)
    ensures Step(w, e) == w
  {
    assert w.buckets[e.id := w.buckets[e.id]] == w.buckets;
  }

  /** A write to one bucket keeps the invariant when that bucket is in order and brings no known nonce. */
  lemma InvOneBucket(w: World, v: World, id: string, b: Bucket)
    requires Inv(w) && v.buckets == w.buckets[id := b] && v.minted == w.minted
    requires v.waiting == w.waiting && id !in w.waiting
    requires forall n | n in w.issued :: n in v.issued && v.issued[n] == w.issued[n]
    requires v.unlocked <= v.buckets.Keys && BucketInv(v, id)
    requires NonceOf(b).Some? ==>
      NonceOf(b).value !in w.issued || (id in w.buckets && NonceOf(w.buckets[id]) == NonceOf(b))
    ensures Inv(v)
  {
    forall a | a in v.buckets ensures BucketInv(v, a) {
      assert a != id ==> BucketInv(w, a);
    }
    forall x, y | x in v.buckets && y in v.buckets && x != y && NonceOf(v.buckets[x]).Some?
      ensures NonceOf(v.buckets[x]) != NonceOf(v.buckets[y])
    {
      assert x != id ==> BucketInv(w, x);
      assert y != id ==> BucketInv(w, y);
    }
    forall n | n in v.waiting ensures WaitInv(v, n) {
      assert WaitInv(w, n);
    }
  }

  /** A new id enters with no nonce of its own, under the nonce its rotation waited with. */
  ghost predicate Mints(w: World, v: World, newId: string, given: string, b: Bucket) {
    && newId in w.waiting && w.waiting[newId].given == given && v.issued == w.issued
    && v.buckets == w.buckets[newId := b] && v.minted == w.minted[newId := given]
    && v.waiting == w.waiting - {newId} && v.unlocked == w.unlocked && NonceOf(b).None?
    && (IsAuthenticated(b) ==> given in w.issued && SignedInAs(b, w.issued[given]))
  }

  lemma MintedBuckets(w: World, v: World, newId: string, given: string, b: Bucket, a: string)
    requires Inv(w) && Mints(w, v, newId, given, b) && a in v.buckets
    ensures BucketInv(v, a)
    ensures NonceOf(v.buckets[a]).Some? ==> a in w.buckets && w.buckets[a] == v.buckets[a]
  {
    assert WaitInv(w, newId);
    forall n | n in v.minted.Values ensures n in w.minted.Values || n == given { }
    assert a != newId ==> BucketInv(w, a);
  }

  lemma MintedWaiting(w: World, v: World, newId: string, given: string, b: Bucket, n: string)
    requires Inv(w) && Mints(w, v, newId, given, b) && n in v.waiting
    ensures WaitInv(v, n)
  {
    assert WaitInv(w, newId) && WaitInv(w, n);
    forall x | x in v.minted.Values ensures x in w.minted.Values || x == given { }
  }

  lemma InvMint(w: World, v: World, newId: string, given: string, b: Bucket)
    requires Inv(w) && Mints(w, v, newId, given, b)
    ensures Inv(v)
  {
    assert WaitInv(w, newId);
    forall a | a in w.minted ensures w.minted[a] != given && a != newId {
      assert w.minted[a] in w.minted.Values;
    }
    forall a | a in v.buckets
      ensures BucketInv(v, a)
      ensures NonceOf(v.buckets[a]).Some? ==> a in w.buckets && w.buckets[a] == v.buckets[a]
    {
      MintedBuckets(w, v, newId, given, b, a);
    }
    forall n | n in v.waiting ensures WaitInv(v, n) {
      MintedWaiting(w, v, newId, given, b, n);
    }
  }

  /** A rotation joins the waiting ones with a nonce no bucket, no minted id and no other one has. */
  lemma InvJoin(w: World, v: World, newId: string, h: Half)
    requires Inv(w) && newId !in w.waiting && v == w.(waiting := w.waiting[newId := h]) && WaitInv(v, newId)
    requires forall n | n in w.waiting :: w.waiting[n].given != h.given
    ensures Inv(v)
  {
    forall a | a in v.buckets ensures BucketInv(v, a) {
      assert BucketInv(w, a);
    }
    forall n | n in v.waiting ensures WaitInv(v, n) {
      assert n != newId ==> WaitInv(w, n);
    }
  }

  /** A rotation starts to wait with the nonce its bucket held until now. */
  lemma InvWait(w: World, v: World, id: string, newId: string, h: Half)
    requires Inv(w) && id in w.buckets && newId !in w.buckets && newId !in w.waiting
    requires NonceOf(w.buckets[id]) == Some(h.given) && h.given in w.issued && h.pending == PendingOf(w.issued[h.given])
    requires w.issued[h.given].purpose == Login ==> w.issued[h.given].tenant.Some?
    requires h.prefs == Preferences(h.prefs)
    requires v == w.(buckets := w.buckets[id := map[]], unlocked := w.unlocked - {id}, waiting := w.waiting[newId := h])
    ensures Inv(v)
  {
    assert BucketInv(w, id);
    var emptied := w.(buckets := w.buckets[id := map[]], unlocked := w.unlocked - {id});
    NotWaiting(w, id);
    InvOneBucket(w, emptied, id, map[]);
    forall n | n in w.waiting ensures w.waiting[n].given != h.given {
      assert WaitInv(w, n);
    }
    InvJoin(emptied, v, newId, h);
  }

  /** Buckets that agree on who they are signed in as. */
  ghost predicate SameIdentity(a: Bucket, b: Bucket) {
    forall k: AuthKey | Identifies(k) :: Get(a, Auth(k)) == Get(b, Auth(k))
  }

  lemma IdentityDecides(a: Bucket, b: Bucket)
    requires SameIdentity(a, b)
    ensures IsAuthenticated(a) == IsAuthenticated(b)
    ensures forall i :: SignedInAs(a, i) == SignedInAs(b, i)
  {
    assert Identifies(Authenticated) && Identifies(UserId) && Identifies(Username);
    assert Identifies(TenantId) && Identifies(TenantSchema) && Identifies(AuthSubject) && Identifies(Email);
    assert SessionTenant(a) == SessionTenant(b);
  }

  lemma NotWaiting(w: World, id: string)
    requires Inv(w) && id in w.buckets
    ensures id !in w.waiting
  {
    assert forall n | n in w.waiting :: WaitInv(w, n);
  }

  lemma InvPark(w: World, e: Event)
    requires Inv(w) && Enabled(w, e) && e.Park?
    ensures Inv(Step(w, e))
  {
    var v, b := Step(w, e), w.buckets[e.id];
    ParkingParks(b, e.userId, e.username, e.mfa, e.tenant, e.nonce, w.now);
    ParkingSignsNobodyIn(b, e.userId, e.username, e.mfa, e.tenant, e.nonce, w.now);
    IdentityDecides(b, v.buckets[e.id]);
    assert BucketInv(w, e.id);
    assert forall n | n in w.minted.Values :: n in w.issued;
    NotWaiting(w, e.id);
    InvOneBucket(w, v, e.id, v.buckets[e.id]);
  }

  lemma InvFinishLogout(w: World, e: Event)
    requires Inv(w) && Enabled(w, e) && e.FinishLogout?
    ensures Inv(Step(w, e))
  {
    var v := Step(w, e);
    var b := v.buckets[e.id];
    assert NonceOf(b) == Some(e.nonce) && !IsAuthenticated(b);
    assert forall n | n in w.minted.Values :: n in w.issued;
    NotWaiting(w, e.id);
    InvOneBucket(w, v, e.id, b);
  }

  lemma ParksWithoutAuth(a: Bucket, b: Bucket)
    requires SameOutsideAuth(a, b)
    ensures NonceOf(a) == NonceOf(b)
    ensures forall i :: Parks(a, i) == Parks(b, i)
  {
    assert ParkedTenant(a) == ParkedTenant(b);
  }

  lemma InvLogOut(w: World, e: Event)
    requires Inv(w) && Enabled(w, e) && e.LogOut?
    ensures Inv(Step(w, e))
  {
    var v, a := Step(w, e), w.buckets[e.id];
    assert BucketInv(w, e.id);
    ParksWithoutAuth(a, WithoutAuth(a));
    NotWaiting(w, e.id);
    InvOneBucket(w, v, e.id, WithoutAuth(a));
  }

  lemma InvNote(w: World, e: Event)
    requires Inv(w) && Enabled(w, e) && e.Note?
    ensures Inv(Step(w, e))
  {
    var v, a := Step(w, e), w.buckets[e.id];
    var b := Assign(a, Auth(e.key), e.value);
    assert BucketInv(w, e.id);
    ParksWithoutAuth(a, b);
    IdentityDecides(a, b);
    NotWaiting(w, e.id);
    InvOneBucket(w, v, e.id, b);
  }

  lemma PreferringKeeps(a: Bucket, name: string, value: Option<Value>)
    ensures
      var b := Assign(a, Preference(name), value);
      SameIdentity(a, b) && NonceOf(a) == NonceOf(b) && forall i :: Parks(a, i) == Parks(b, i)
  {
    var b := Assign(a, Preference(name), value);
    assert forall k: Key | !k.Preference? :: Get(a, k) == Get(b, k);
    assert ParkedTenant(a) == ParkedTenant(b);
  }

  lemma InvPrefer(w: World, e: Event)
    requires Inv(w) && Enabled(w, e) && e.Prefer?
    ensures Inv(Step(w, e))
  {
    var v, a := Step(w, e), w.buckets[e.id];
    var b := Assign(a, Preference(e.name), e.value);
    assert BucketInv(w, e.id);
    PreferringKeeps(a, e.name, e.value);
    IdentityDecides(a, b);
    NotWaiting(w, e.id);
    InvOneBucket(w, v, e.id, b);
  }

  lemma InvSpent(w: World, id: string, left: Bucket)
    requires Inv(w) && id in w.buckets && left == WithoutRotate(w.buckets[id])
    ensures Inv(w.(buckets := w.buckets[id := left]))
  {
    assert BucketInv(w, id);
    IdentityDecides(w.buckets[id], left);
    NotWaiting(w, id);
    InvOneBucket(w, w.(buckets := w.buckets[id := left]), id, left);
  }

  lemma NewBucketShape(prefs: Bucket, i: Issue, now: real)
    requires prefs == Preferences(prefs) && (i.purpose == Login ==> i.tenant.Some?)
    ensures
      var n := NewBucket(prefs, PendingOf(i), now);
      && Preferences(n) == prefs && NonceOf(n).None?
      && (IsAuthenticated(n) <==> i.purpose == Login)
      && (IsAuthenticated(n) ==> SignedInAs(n, i) && (Auth(MfaVerifiedAt) in n <==> i.mfa))
  {
    if i.purpose == Login {
      LoggingIn(prefs, i.userId, i.username, i.tenant.value, now);
      SamePreferences(NewBucket(prefs, PendingOf(i), now), prefs);
    }
  }

  /**
   * What a rotation request does where the invariant holds: nothing without the bucket's own nonce;
   * with it the nonce is spent, and in time and for its purpose the old bucket is emptied and a
   * rotation waits for the new one.
   */
  lemma RotationShape(w: World, e: Event)
    requires Inv(w) && Enabled(w, e) && e.RotateSession?
    ensures
      var v, b, purpose := Step(w, e), w.buckets[e.id], if e.logout then Logout else Login;
      if NonceOf(b) != Some(e.given) || e.given == "" then v == w
      else
        && e.given in w.issued
        && var i := w.issued[e.given];
           if w.now - i.at > ROTATE_NONCE_TTL_SECONDS || purpose != i.purpose || (purpose == Login && i.tenant.None?)
           then v == w.(buckets := w.buckets[e.id := WithoutRotate(b)])
           else v == w.(buckets := w.buckets[e.id := map[]], unlocked := w.unlocked - {e.id},
                        waiting := w.waiting[e.newId := Half(e.given, Preferences(b), PendingOf(i))])
  {
    var b, purpose := w.buckets[e.id], if e.logout then Logout else Login;
    if NonceOf(b) != Some(e.given) || e.given == "" {
      assert w.buckets[e.id := b] == w.buckets;
    } else {
      assert BucketInv(w, e.id);
      ConsumingParked(b, w.issued[e.given], e.given, purpose, w.now);
      assert Preferences(WithoutRotate(b)) == Preferences(b);
    }
  }

  lemma InvRotate(w: World, e: Event)
    requires Inv(w) && Enabled(w, e) && e.RotateSession?
    ensures Inv(Step(w, e))
  {
    RotationShape(w, e);
    var v, b := Step(w, e), w.buckets[e.id];
    if e.newId in v.waiting {
      assert Preferences(Preferences(b)) == Preferences(b);
      InvWait(w, v, e.id, e.newId, v.waiting[e.newId]);
    } else if v != w {
      InvSpent(w, e.id, WithoutRotate(b));
    }
  }

  lemma InvResume(w: World, e: Event)
    requires Inv(w) && Enabled(w, e) && e.Resume?
    ensures Inv(Step(w, e))
  {
    var h := w.waiting[e.newId];
    assert WaitInv(w, e.newId);
    NewBucketShape(h.prefs, w.issued[h.given], w.now);
    InvMint(w, Step(w, e), e.newId, h.given, NewBucket(h.prefs, h.pending, w.now));
  }

  lemma InvStamp(w: World, e: Event)
    requires Inv(w) && Enabled(w, e) && e.StampFlags?
    ensures Inv(Step(w, e))
  {
    var a, b := w.buckets[e.newId], WithFlags(w.buckets[e.newId], e.flags);
    assert BucketInv(w, e.newId);
    Stamping(a, e.flags);
    ParksWithoutAuth(a, b);
    if e.flags.Some? {
      IdentityDecides(a, b);
    }
    NotWaiting(w, e.newId);
    InvOneBucket(w, Step(w, e), e.newId, b);
  }

  lemma InvStep(w: World, e: Event)
    requires Inv(w) && Enabled(w, e)
    ensures Inv(Step(w, e))
  {
    match e {
      case Park(_, _, _, _, _, _) => InvPark(w, e);
      case FinishLogout(_, _) => InvFinishLogout(w, e);
      case RotateSession(_, _, _, _) => InvRotate(w, e);
      case Resume(_) => InvResume(w, e);
      case StampFlags(_, _) => InvStamp(w, e);
      case NewBrowser(id) => InvOneBucket(w, Step(w, e), id, map[]);
      case Tick(_) => SameBuckets(w, Step(w, e));
      case Unlock(_) => SameBuckets(w, Step(w, e));
      case LogOut(_) => InvLogOut(w, e);
      case Note(_, _, _) => InvNote(w, e);
      case Prefer(_, _, _) => InvPrefer(w, e);
    }
  }

  lemma SameBuckets(w: World, v: World)
    requires Inv(w) && v.buckets == w.buckets && v.issued == w.issued && v.minted == w.minted
    requires v.waiting == w.waiting
    requires v.unlocked <= v.buckets.Keys
    ensures Inv(v)
  {
    forall id | id in v.buckets ensures BucketInv(v, id) {
      assert BucketInv(w, id);
    }
    forall n | n in v.waiting ensures WaitInv(v, n) {
      assert WaitInv(w, n);
    }
  }

  lemma {:induction false} InvRun(w: World, events: seq<Event>)
    requires Inv(w) && Runs(w, events)
    ensures Inv(After(w, events))
    decreases |events|
  {
    if events != [] {
      InvStep(w, events[0]);
      InvRun(Step(w, events[0]), events[1..]);
    }
  }

  /**
   * In every reachable world an authenticated id was minted by a rotation, is signed in as exactly the
   * user and family parked under the nonce that rotation consumed, and no nonce minted two ids.
   */
  lemma AuthenticatedIdsAreMinted(start: real, events: seq<Event>)
    requires Runs(Start(start), events)
    ensures
      var w := After(Start(start), events);
      && (forall id | id in w.buckets && IsAuthenticated(w.buckets[id]) ::
            id in w.minted && w.minted[id] in w.issued && SignedInAs(w.buckets[id], w.issued[w.minted[id]]))
      && (forall a, b | a in w.minted && b in w.minted && w.minted[a] == w.minted[b] :: a == b)
  {
    var w := After(Start(start), events);
    InvRun(Start(start), events);
    forall id | id in w.buckets && IsAuthenticated(w.buckets[id])
      ensures id in w.minted && w.minted[id] in w.issued && SignedInAs(w.buckets[id], w.issued[w.minted[id]])
    {
      assert BucketInv(w, id);
    }
  }

  /** Nobody but its own resumption touches a waiting rotation. */
  lemma {:induction false} WaitingStays(w: World, events: seq<Event>, newId: string)
    requires Runs(w, events) && newId in w.waiting
    requires forall i | 0 <= i < |events| :: events[i] != Resume(newId)
    ensures newId in After(w, events).waiting && After(w, events).waiting[newId] == w.waiting[newId]
    decreases |events|
  {
    if events != [] {
      WaitingStays(Step(w, events[0]), events[1..], newId);
    }
  }

  /** The conditions for a rotation: the nonce is the bucket's own, in time, for this purpose and with a family. */
  predicate MayRotate(w: World, e: Event)
    requires Enabled(w, e) && e.RotateSession?
  {
    var purpose := if e.logout then Logout else Login;
    && e.given != "" && NonceOf(w.buckets[e.id]) == Some(e.given)
    && e.given in w.issued && w.issued[e.given].purpose == purpose
    && w.now - w.issued[e.given].at <= ROTATE_NONCE_TTL_SECONDS
    && (purpose == Login ==> w.issued[e.given].tenant.Some?)
  }

  /**
   * A rotation in a reachable world: it begins exactly when it may, and the old bucket is then empty
   * and unlocked for nobody.
   */
  lemma RotationEmptiesTheOld(start: real, events: seq<Event>, e: Event)
    requires Runs(Start(start), events) && Enabled(After(Start(start), events), e) && e.RotateSession?
    ensures
      var w := After(Start(start), events);
      var v := Step(w, e);
      && (e.newId in v.waiting <==> MayRotate(w, e))
      && (e.newId in v.waiting ==>
            && v.waiting[e.newId] == Half(e.given, Preferences(w.buckets[e.id]), PendingOf(w.issued[e.given]))
            && v.buckets[e.id] == map[] && e.id !in v.unlocked)
  {
    InvRun(Start(start), events);
    RotationShape(After(Start(start), events), e);
  }

  /** The new id holds what its rotation waited with. */
  predicate FilledAs(v: World, newId: string, given: string, prefs: Bucket, i: Issue) {
    && newId in v.minted && v.minted[newId] == given
    && newId in v.buckets && Preferences(v.buckets[newId]) == prefs
    && newId !in v.unlocked && newId !in v.waiting && (i.purpose == Login ==> newId in v.unstamped)
    && (IsAuthenticated(v.buckets[newId]) <==> i.purpose == Login)
    && (i.purpose == Login ==>
          SignedInAs(v.buckets[newId], i) && (Auth(MfaVerifiedAt) in v.buckets[newId] <==> i.mfa))
  }

  lemma ResumeFills(w: World, newId: string, h: Half, i: Issue)
    requires Inv(w) && newId in w.waiting && w.waiting[newId] == h
    requires h.pending == PendingOf(i) && (i.purpose == Login ==> i.tenant.Some?)
    ensures Enabled(w, Resume(newId)) && FilledAs(Step(w, Resume(newId)), newId, h.given, h.prefs, i)
  {
    assert WaitInv(w, newId);
    NewBucketShape(h.prefs, i, w.now);
  }

  /**
   * Whatever else happens between its two halves, a rotation that began leaves under the new id all
   * the preferences of the old one, unlocked for nobody, signed in exactly for a login as exactly its
   * user and family, with the second-factor stamp exactly when that was proved.
   */
  lemma RotationFillsTheNew(start: real, events: seq<Event>, e: Event, between: seq<Event>)
    requires Runs(Start(start), events) && Enabled(After(Start(start), events), e) && e.RotateSession?
    requires MayRotate(After(Start(start), events), e)
    requires Runs(Step(After(Start(start), events), e), between)
    requires forall i | 0 <= i < |between| :: between[i] != Resume(e.newId)
    ensures
      var w := After(Start(start), events);
      var later := After(Step(w, e), between);
      && Enabled(later, Resume(e.newId))
      && FilledAs(Step(later, Resume(e.newId)), e.newId, e.given, Preferences(w.buckets[e.id]), w.issued[e.given])
  {
    var w := After(Start(start), events);
    var begun := Step(w, e);
    RotationEmptiesTheOld(start, events, e);
    InvRun(Start(start), events);
    InvStep(w, e);
    InvRun(begun, between);
    WaitingStays(begun, between, e.newId);
    ResumeFills(After(begun, between), e.newId, begun.waiting[e.newId], w.issued[e.given]);
  }

  /** The request that comes back with the nonce of a parked login or of a logout. */
  function Returning(e: Event, newId: string): Event
    requires e.Park? || e.FinishLogout?
  {
    RotateSession(e.id, e.nonce, e.FinishLogout?, newId)
  }

  function StampedFor(e: Event, now: real): Issue
    requires e.Park? || e.FinishLogout?
  {
    if e.Park? then Issue(Login, e.userId, e.username, e.mfa, e.tenant, now) else Issue(Logout, 0, "", false, None, now)
  }

  lemma ParkedThenRotated(w: World, e: Event, later: real, newId: string)
    requires Inv(w) && Enabled(w, e) && (e.Park? || e.FinishLogout?) && w.now <= later
    requires newId !in w.buckets && newId !in w.waiting && (e.Park? ==> e.tenant.Some?)
    ensures
      var parked := Step(Step(w, e), Tick(later));
      && Inv(parked) && Enabled(parked, Returning(e, newId))
      && e.nonce in parked.issued && parked.issued[e.nonce] == StampedFor(e, w.now)
      && Preferences(parked.buckets[e.id]) == Preferences(w.buckets[e.id])
      && (MayRotate(parked, Returning(e, newId)) <==> later - w.now <= ROTATE_NONCE_TTL_SECONDS)
  {
    InvStep(w, e);
    InvStep(Step(w, e), Tick(later));
    if e.Park? {
      ParkingParks(w.buckets[e.id], e.userId, e.username, e.mfa, e.tenant, e.nonce, w.now);
      ParkingKeepsPreferences(w.buckets[e.id], e.userId, e.username, e.mfa, e.tenant, e.nonce, w.now);
    } else {
      LogOutEndsTheLogin(w, e);
    }
  }

  lemma ParkingKeepsPreferences(b: Bucket, userId: int, username: string, mfa: bool, tenant: Option<Tenant>, nonce: string, now: real)
    ensures Preferences(ParkLogin(b, userId, username, mfa, tenant, nonce, now)) == Preferences(b)
  {
    var cleared := ClearMfaChallenge(b);
    assert Preferences(cleared) == Preferences(b);
    StampShape(cleared, Login, nonce, now);
  }

  /**
   * From any reachable world a parked login, or a logout, whose nonce comes back within its minute goes
   * through: a new id with the old preferences, signed in as exactly who was parked, or as nobody after
   * a logout. Any later nothing is minted.
   */
  lemma ParkedGoesThrough(start: real, events: seq<Event>, e: Event, later: real, newId: string)
    requires Runs(Start(start), events) && Enabled(After(Start(start), events), e) && (e.Park? || e.FinishLogout?)
    requires
      var w := After(Start(start), events);
      w.now <= later && newId !in w.buckets && newId !in w.waiting && (e.Park? ==> e.tenant.Some?)
    ensures
      var w := After(Start(start), events);
      var parked := Step(Step(w, e), Tick(later));
      && Enabled(parked, Returning(e, newId))
      && var begun := Step(parked, Returning(e, newId));
         && (newId in begun.waiting <==> later - w.now <= ROTATE_NONCE_TTL_SECONDS)
         && (newId in begun.waiting ==>
               && Enabled(begun, Resume(newId))
               && FilledAs(Step(begun, Resume(newId)), newId, e.nonce, Preferences(w.buckets[e.id]), StampedFor(e, w.now)))
  {
    var w := After(Start(start), events);
    InvRun(Start(start), events);
    ParkedThenRotated(w, e, later, newId);
    var parked, back := Step(Step(w, e), Tick(later)), Returning(e, newId);
    RotationShape(parked, back);
    InvStep(parked, back);
    var begun := Step(parked, back);
    if newId in begun.waiting {
      ResumeFills(begun, newId, begun.waiting[newId], StampedFor(e, w.now));
    }
  }

  /** When the flags cannot be read the new id is left signed in as nobody; otherwise as who it was. */
  lemma UnreadFlagsUndoTheLogin(w: World, newId: string, flags: Option<(bool, bool)>)
    requires Enabled(w, StampFlags(newId, flags))
    ensures
      var v := Step(w, StampFlags(newId, flags));
      && (IsAuthenticated(v.buckets[newId]) <==> IsAuthenticated(w.buckets[newId]) && flags.Some?)
      && newId !in v.unstamped && (flags.None? ==> newId !in v.unlocked)
      && Preferences(v.buckets[newId]) == Preferences(w.buckets[newId])
      && (forall i :: SignedInAs(v.buckets[newId], i) ==> SignedInAs(w.buckets[newId], i))
  {
    var a, b := w.buckets[newId], WithFlags(w.buckets[newId], flags);
    Stamping(a, flags);
    SamePreferences(a, b);
    if flags.Some? {
      IdentityDecides(a, b);
    }
  }

  /** Which flag stands where after they are read: the administrator's, and that of a password to be changed. */
  lemma FlagsLandWhereTheyBelong(w: World, newId: string, admin: bool, mustChange: bool)
    requires Enabled(w, StampFlags(newId, Some((admin, mustChange))))
    ensures
      var before, b := w.buckets[newId], Step(w, StampFlags(newId, Some((admin, mustChange)))).buckets[newId];
      && Get(b, Auth(InstanceAdmin)) == Some(Flag(admin))
      && Get(b, Auth(SetByAdmin)) == (if mustChange then Some(Flag(true)) else Get(before, Auth(SetByAdmin)))
      && (forall k: Key | k != Auth(InstanceAdmin) && k != Auth(SetByAdmin) :: Get(b, k) == Get(before, k))
  {
  }

  /** An unlock files the id with the key ring and changes nothing else. */
  lemma UnlockUnlocks(w: World, id: string)
    requires Enabled(w, Unlock(id))
    ensures
      var v := Step(w, Unlock(id));
      id in v.unlocked && v.unlocked - {id} == w.unlocked - {id} && v == w.(unlocked := v.unlocked)
  {
  }

  // Logging out.

  /** Nothing of a login is left under the id, and no unlock. */
  ghost predicate SignedOut(w: World, id: string) {
    && id in w.buckets && id !in w.unlocked
    && forall k: AuthKey :: Auth(k) !in w.buckets[id]
  }

  /** Nobody is signed in under the id, and there is no unlock. */
  ghost predicate Nobody(w: World, id: string) {
    id in w.buckets && id !in w.unlocked && NoIdentity(w.buckets[id])
  }

  ghost predicate NoIdentity(b: Bucket) {
    !IsAuthenticated(b) && forall k: AuthKey | Identifies(k) :: Auth(k) !in b
  }

  ghost predicate OthersUntouched(w: World, v: World, id: string) {
    && v.buckets.Keys == w.buckets.Keys
    && (forall other | other in w.buckets && other != id :: v.buckets[other] == w.buckets[other])
    && v.unlocked - {id} == w.unlocked - {id}
    && v.waiting == w.waiting && v.minted == w.minted
  }

  /** A logout leaves nothing of the login, keeps the preferences and touches no other id. */
  lemma LogOutEndsTheLogin(w: World, e: Event)
    requires Enabled(w, e) && (e.LogOut? || e.FinishLogout?)
    ensures
      var v := Step(w, e);
      && SignedOut(v, e.id) && Nobody(v, e.id) && OthersUntouched(w, v, e.id)
      && Preferences(v.buckets[e.id]) == Preferences(w.buckets[e.id])
      && (e.LogOut? ==> NonceOf(v.buckets[e.id]) == NonceOf(w.buckets[e.id]))
      && (e.FinishLogout? ==> NonceOf(v.buckets[e.id]) == Some(e.nonce))
  {
    WithoutAuthShape(w.buckets[e.id]);
    if e.FinishLogout? {
      StampShape(WithoutAuth(w.buckets[e.id]), Logout, e.nonce, w.now);
    }
  }

  lemma WithoutAuthShape(b: Bucket)
    ensures
      var c := WithoutAuth(b);
      (forall k: AuthKey :: Auth(k) !in c) && Preferences(c) == Preferences(b) && NonceOf(c) == NonceOf(b)
  {
  }

  lemma StampShape(b: Bucket, purpose: RotatePurpose, nonce: string, now: real)
    ensures
      var c := StampNonce(b, purpose, nonce, now);
      && (forall k: AuthKey :: Auth(k) in c <==> Auth(k) in b)
      && Preferences(c) == Preferences(b) && NonceOf(c) == Some(nonce)
  {
  }

  lemma NoIdentityAfterPark(b: Bucket, userId: int, username: string, mfa: bool, tenant: Option<Tenant>, nonce: string, now: real)
    requires NoIdentity(b)
    ensures NoIdentity(ParkLogin(b, userId, username, mfa, tenant, nonce, now))
  {
    var c := ParkLogin(b, userId, username, mfa, tenant, nonce, now);
    ParkingSignsNobodyIn(b, userId, username, mfa, tenant, nonce, now);
    IdentityDecides(b, c);
    forall k: AuthKey | Identifies(k) ensures Auth(k) !in c {
      assert Get(b, Auth(k)) == Get(c, Auth(k));
    }
  }

  lemma NoIdentityAfterLogout(b: Bucket, nonce: string, now: real)
    ensures NoIdentity(WithoutAuth(b)) && NoIdentity(StampNonce(WithoutAuth(b), Logout, nonce, now))
  {
    WithoutAuthShape(b);
    StampShape(WithoutAuth(b), Logout, nonce, now);
  }

  /** The id an event writes the bucket of, when it is there already. */
  function Writes(e: Event): Option<string> {
    match e
    case Park(id, _, _, _, _, _) => Some(id)
    case FinishLogout(id, _) => Some(id)
    case RotateSession(id, _, _, _) => Some(id)
    case StampFlags(newId, _) => Some(newId)
    case LogOut(id) => Some(id)
    case Note(id, _, _) => Some(id)
    case Prefer(id, _, _) => Some(id)
    case _ => None
  }

  lemma OthersBuckets(w: World, e: Event, id: string)
    requires Enabled(w, e) && id in w.buckets && Writes(e) != Some(id)
    ensures id in Step(w, e).buckets && Step(w, e).buckets[id] == w.buckets[id]
  {
  }

  lemma NobodyLocked(w: World, e: Event, id: string)
    requires Enabled(w, e) && id in w.buckets && id !in w.unlocked && e != Unlock(id)
    ensures id in Step(w, e).buckets && id !in Step(w, e).unlocked
  {
  }

  lemma NobodyStep(w: World, e: Event, id: string)
    requires Nobody(w, id) && Enabled(w, e) && e != Unlock(id)
    ensures Nobody(Step(w, e), id)
  {
    var b := w.buckets[id];
    NobodyLocked(w, e, id);
    if Writes(e) != Some(id) {
      OthersBuckets(w, e, id);
    } else {
      match e {
        case Park(_, userId, username, mfa, tenant, nonce) =>
          NoIdentityAfterPark(b, userId, username, mfa, tenant, nonce, w.now);
        case FinishLogout(_, nonce) => NoIdentityAfterLogout(b, nonce, w.now);
        case StampFlags(_, flags) => NoIdentityAfterFlags(b, flags);
        case _ =>
      }
    }
  }

  lemma NoIdentityAfterFlags(b: Bucket, flags: Option<(bool, bool)>)
    requires NoIdentity(b)
    ensures NoIdentity(WithFlags(b, flags))
  {
  }

  lemma {:induction false} NobodyRun(w: World, events: seq<Event>, id: string)
    requires Nobody(w, id) && Runs(w, events) && (forall i | 0 <= i < |events| :: events[i] != Unlock(id))
    ensures Nobody(After(w, events), id)
    decreases |events|
  {
    if events != [] {
      NobodyStep(w, events[0], id);
      NobodyRun(Step(w, events[0]), events[1..], id);
    }
  }

  /**
   * After a logout nobody is signed in under the id again, and nothing is unlocked under it until
   * somebody unlocks it, whatever else happens: parked logins, rotations, flags still on their way.
   */
  lemma LoggedOutStaysOut(w: World, e: Event, events: seq<Event>)
    requires Enabled(w, e) && (e.LogOut? || e.FinishLogout?) && Runs(Step(w, e), events)
    requires forall i | 0 <= i < |events| :: events[i] != Unlock(e.id)
    ensures Nobody(After(Step(w, e), events), e.id)
  {
    LogOutEndsTheLogin(w, e);
    NobodyRun(Step(w, e), events, e.id);
  }

  // The route.

  /** The storage and the key ring behind the route, with the history the invariant speaks of. */
  class Server {
    var buckets: map<string, Bucket>
    var unlocked: set<string>
    var waiting: map<string, Half>
    var unstamped: set<string>
    ghost var issued: map<string, Issue>
    ghost var minted: map<string, string>

    constructor ()
      ensures forall now :: View(now) == Start(now)
    {
      buckets, unlocked, waiting, unstamped, issued, minted := map[], {}, map[], {}, map[], map[];
    }

    ghost function View(now: real): World
      reads this
    {
      World(now, buckets, unlocked, waiting, unstamped, issued, minted)
    }

    /** The route up to the await in `rotate_session_id`: consume, drop the unlock, snapshot, empty. */
    method RotateSession(id: string, given: string, logout: bool, newId: string, now: real)
      requires id in buckets
      modifies this
      ensures View(now) == Begun(old(View(now)), id, given, logout, newId)
    {
      var storage := new UserStorage(buckets[id]);
      var pending := storage.Consume(given, if logout then Logout else Login, now);
      if pending.None? {
        buckets := buckets[id := storage.data];
        return;
      }
      unlocked := unlocked - {id};
      var snapshot := map k | k in storage.data && !k.Auth? && !k.Rotate? :: storage.data[k];
      assert snapshot == Preferences(storage.data);
      buckets := buckets[id := map[]];
      waiting := waiting[newId := Half(given, snapshot, pending.value)];
    }

    /** The new storage is there: fill it, and for a login sign in, up to the await on the flags. */
    method Resume(newId: string, now: real)
      requires newId in waiting
      modifies this
      ensures View(now) == Resumed(old(View(now)), newId)
    {
      var Half(given, prefs, p) := waiting[newId];
      waiting := waiting - {newId};
      minted := minted[newId := given];
      var fresh_ := new UserStorage(prefs);
      if p.userId.Some? && p.username.Some? {
        fresh_.LogIn(p.userId.value, p.username.value, p.tenant, now);
        if p.mfaVerified {
          fresh_.data := fresh_.data[Auth(MfaVerifiedAt) := Stamp(now)];
        }
        unstamped := unstamped + {newId};
      }
      buckets := buckets[newId := fresh_.data];
    }

    /** The registry has answered, or could not be asked and the login is undone. */
    method StampFlags(newId: string, flags: Option<(bool, bool)>, now: real)
      requires newId in buckets
      modifies this
      ensures View(now) == Stamped(old(View(now)), newId, flags)
    {
      var storage := new UserStorage(buckets[newId]);
      match flags {
        case None =>
          unlocked := unlocked - {newId};
          storage.PopAuthKeys();
        case Some((admin, setByAdmin)) =>
          storage.data := storage.data[Auth(InstanceAdmin) := Flag(admin)];
          if setByAdmin {
            storage.data := storage.data[Auth(SetByAdmin) := Flag(true)];
          }
      }
      buckets := buckets[newId := storage.data];
      unstamped := unstamped - {newId};
    }

    /** `logout_session`: the unlock goes with the auth keys. */
    method LogOut(id: string, now: real)
      requires id in buckets
      modifies this
      ensures View(now) == Step(old(View(now)), Event.LogOut(id))
    {
      unlocked := unlocked - {id};
      var storage := new UserStorage(buckets[id]);
      storage.PopAuthKeys();
      buckets := buckets[id := storage.data];
    }
  }
}
