/** A browser's storage bucket and the functions of `auth/session.py` that read and write it. */
module Sessions {
  import opened Common

  /** The keys listed in `_AUTH_KEYS`. */
  datatype AuthKey =
    | Authenticated | UserId | Username | LoginAt | LastSeenAt | RevalidatedAt | MfaVerifiedAt
    | InstanceAdmin | SetByAdmin | AdminStepUpAt
    | TenantId | TenantSchema | AuthSubject | Email
    | HostedMfaRef | HostedMfaAt

  /** The keys listed in `_ROTATE_KEYS`. */
  datatype RotateKey =
    | Nonce | StampedAt | Purpose | ForUserId | ForUsername | ForMfaVerified
    | ForTenantId | ForTenantSchema | ForAuthSubject | ForEmail

  /** Whatever is in neither tuple is a preference. */
  datatype Key = Auth(auth: AuthKey) | Rotate(rotate: RotateKey) | Preference(name: string)

  datatype Value = Flag(b: bool) | Number(n: int) | Text(s: string) | Stamp(at: real)

  type Bucket = map<Key, Value>

  datatype RotatePurpose = Login | Logout

  datatype Tenant = Tenant(id: int, schema: string, subject: string, email: string)

  datatype Pending = Pending(
    purpose: RotatePurpose, userId: Option<int>, username: Option<string>, mfaVerified: bool,
    tenant: Option<Tenant>)

  const ROTATE_NONCE_TTL_SECONDS := 60.0
  const IDLE_TOUCH_INTERVAL_SECONDS := 300.0

  function Get(b: Bucket, k: Key): Option<Value> {
    if k in b then Some(b[k]) else None
  }

  /** Writes a value, or drops the key. */
  function Assign(b: Bucket, k: Key, v: Option<Value>): Bucket {
    if v.Some? then b[k := v.value] else b - {k}
  }

  function AsStamp(v: Option<Value>): Option<real> {
    match v case Some(Stamp(at)) => Some(at) case _ => None
  }

  function AsInt(v: Option<Value>): Option<int> {
    match v case Some(Number(n)) => Some(n) case _ => None
  }

  function AsText(v: Option<Value>): Option<string> {
    match v case Some(Text(s)) => Some(s) case _ => None
  }

  predicate IsAuthenticated(b: Bucket) {
    Get(b, Auth(Authenticated)) == Some(Flag(true))
  }

  function PurposeText(p: RotatePurpose): Value {
    Text(if p == Login then "login" else "logout")
  }

  function WithoutAuth(b: Bucket): Bucket {
    map k | k in b && !k.Auth? :: b[k]
  }

  function WithoutRotate(b: Bucket): Bucket {
    map k | k in b && !k.Rotate? :: b[k]
  }

  /** What moves across a rotation. */
  function Preferences(b: Bucket): Bucket {
    map k | k in b && k.Preference? :: b[k]
  }

  function ClearMfaChallenge(b: Bucket): Bucket {
    b - {Auth(HostedMfaRef), Auth(HostedMfaAt)}
  }

  /** `SessionTenant.read` over four keys. */
  function ReadTenant(b: Bucket, id: Key, schema: Key, subject: Key, email: Key): Option<Tenant> {
    match (AsInt(Get(b, id)), AsText(Get(b, schema)), AsText(Get(b, subject)), AsText(Get(b, email)))
    case (Some(i), Some(s), Some(u), Some(e)) => Some(Tenant(i, s, u, e))
    case _ => None
  }

  function SessionTenant(b: Bucket): Option<Tenant> {
    ReadTenant(b, Auth(TenantId), Auth(TenantSchema), Auth(AuthSubject), Auth(Email))
  }

  function ParkedTenant(b: Bucket): Option<Tenant> {
    ReadTenant(b, Rotate(ForTenantId), Rotate(ForTenantSchema), Rotate(ForAuthSubject), Rotate(ForEmail))
  }

  function StampNonce(b: Bucket, purpose: RotatePurpose, nonce: string, now: real): Bucket {
    WithoutRotate(b)[Rotate(Nonce) := Text(nonce)]
      [Rotate(StampedAt) := Stamp(now)]
      [Rotate(Purpose) := PurposeText(purpose)]
  }

  /** `park_login`: the user waits under a nonce; nothing is authenticated yet. */
  function ParkLogin(b: Bucket, userId: int, username: string, mfa: bool, tenant: Option<Tenant>,
                     nonce: string, now: real): Bucket
  {
    var parked := StampNonce(ClearMfaChallenge(b), Login, nonce, now)
                    [Rotate(ForUserId) := Number(userId)]
                    [Rotate(ForUsername) := Text(username)]
                    [Rotate(ForMfaVerified) := Flag(mfa)];
    if tenant.None? then parked
    else parked[Rotate(ForTenantId) := Number(tenant.value.id)]
           [Rotate(ForTenantSchema) := Text(tenant.value.schema)]
           [Rotate(ForAuthSubject) := Text(tenant.value.subject)]
           [Rotate(ForEmail) := Text(tenant.value.email)]
  }

  /** `consume_rotation_nonce`: what is left of the bucket, and what the nonce authorises. */
  function ConsumeNonce(b: Bucket, given: string, purpose: RotatePurpose, now: real): (Bucket, Option<Pending>) {
    var stored := AsText(Get(b, Rotate(Nonce)));
    if stored.None? || given == "" || stored.value != given then (b, None)
    else
      var left := WithoutRotate(b);
      var stamp := AsStamp(Get(b, Rotate(StampedAt)));
      var userId, username := AsInt(Get(b, Rotate(ForUserId))), AsText(Get(b, Rotate(ForUsername)));
      var tenant := ParkedTenant(b);
      if stamp.None? || now - stamp.value > ROTATE_NONCE_TTL_SECONDS then (left, None)
      else if Get(b, Rotate(Purpose)) != Some(PurposeText(purpose)) then (left, None)
      else if purpose == Logout then (left, Some(Pending(Logout, None, None, false, None)))
      else if userId.None? || username.None? || tenant.None? then (left, None)
      else
        var mfa := Get(b, Rotate(ForMfaVerified)) == Some(Flag(true));
        (left, Some(Pending(Login, userId, username, mfa, tenant)))
  }

  function LoginSession(b: Bucket, userId: int, username: string, tenant: Option<Tenant>, now: real): Bucket {
    var cleared := ClearMfaChallenge(b) - {Auth(MfaVerifiedAt)};
    var named := cleared[Auth(Authenticated) := Flag(true)]
                   [Auth(UserId) := Number(userId)]
                   [Auth(Username) := Text(username)]
                 - {Auth(TenantId), Auth(TenantSchema), Auth(AuthSubject), Auth(Email)};
    var placed := if tenant.None? then named
                  else named[Auth(TenantId) := Number(tenant.value.id)]
                         [Auth(TenantSchema) := Text(tenant.value.schema)]
                         [Auth(AuthSubject) := Text(tenant.value.subject)]
                         [Auth(Email) := Text(tenant.value.email)];
    placed[Auth(LoginAt) := Stamp(now)][Auth(LastSeenAt) := Stamp(now)]
  }

  /** `touch_session`. */
  function Touch(b: Bucket, now: real): Bucket {
    var seen := AsStamp(Get(b, Auth(LastSeenAt)));
    if seen.Some? && now - seen.value <= IDLE_TOUCH_INTERVAL_SECONDS then b
    else b[Auth(LastSeenAt) := Stamp(now)]
  }

  /** `app.storage.user` of one browser. */
  class UserStorage {
    var data: Bucket

    constructor (data: Bucket)
      ensures this.data == data
    {
      this.data := data;
    }

    method PopRotateKeys()
      modifies this
      ensures data == WithoutRotate(old(data))
    {
      var keys := [Nonce, StampedAt, Purpose, ForUserId, ForUsername, ForMfaVerified,
                   ForTenantId, ForTenantSchema, ForAuthSubject, ForEmail];
      var i := 0;
      while i < |keys|
        invariant 0 <= i <= |keys|
        invariant data == old(data) - (set j | 0 <= j < i :: Rotate(keys[j]))
      {
        data := data - {Rotate(keys[i])};
        i := i + 1;
      }
      forall r: RotateKey ensures Rotate(r) in set j | 0 <= j < |keys| :: Rotate(keys[j]) {
        AllRotateKeys(r);
        var j :| 0 <= j < |keys| && keys[j] == r;
      }
      assert data == WithoutRotate(old(data));
    }

    method PopAuthKeys()
      modifies this
      ensures data == WithoutAuth(old(data))
    {
      var keys := [Authenticated, UserId, Username, LoginAt, LastSeenAt, RevalidatedAt, MfaVerifiedAt,
                   InstanceAdmin, SetByAdmin, AdminStepUpAt, TenantId, TenantSchema, AuthSubject, Email,
                   HostedMfaRef, HostedMfaAt];
      var i := 0;
      while i < |keys|
        invariant 0 <= i <= |keys|
        invariant data == old(data) - (set j | 0 <= j < i :: Auth(keys[j]))
      {
        data := data - {Auth(keys[i])};
        i := i + 1;
      }
      forall a: AuthKey ensures Auth(a) in set j | 0 <= j < |keys| :: Auth(keys[j]) {
        AllAuthKeys(a);
        var j :| 0 <= j < |keys| && keys[j] == a;
      }
      assert data == WithoutAuth(old(data));
    }

    method StampRotationNonce(purpose: RotatePurpose, nonce: string, now: real)
      modifies this
      ensures data == StampNonce(old(data), purpose, nonce, now)
    {
      PopRotateKeys();
      data := data[Rotate(Nonce) := Text(nonce)];
      data := data[Rotate(StampedAt) := Stamp(now)];
      data := data[Rotate(Purpose) := PurposeText(purpose)];
    }

    method Park(userId: int, username: string, mfa: bool, tenant: Option<Tenant>, nonce: string, now: real)
      modifies this
      ensures data == ParkLogin(old(data), userId, username, mfa, tenant, nonce, now)
    {
      data := data - {Auth(HostedMfaRef), Auth(HostedMfaAt)};
      StampRotationNonce(Login, nonce, now);
      data := data[Rotate(ForUserId) := Number(userId)];
      data := data[Rotate(ForUsername) := Text(username)];
      data := data[Rotate(ForMfaVerified) := Flag(mfa)];
      if tenant.Some? {
        data := data[Rotate(ForTenantId) := Number(tenant.value.id)];
        data := data[Rotate(ForTenantSchema) := Text(tenant.value.schema)];
        data := data[Rotate(ForAuthSubject) := Text(tenant.value.subject)];
        data := data[Rotate(ForEmail) := Text(tenant.value.email)];
      }
    }

    method Consume(given: string, purpose: RotatePurpose, now: real) returns (pending: Option<Pending>)
      modifies this
      ensures (data, pending) == ConsumeNonce(old(data), given, purpose, now)
    {
      var stored := AsText(Get(data, Rotate(Nonce)));
      if stored.None? || given == "" || stored.value != given {
        return None;
      }
      var stamp, storedPurpose := AsStamp(Get(data, Rotate(StampedAt))), Get(data, Rotate(Purpose));
      var userId, username := AsInt(Get(data, Rotate(ForUserId))), AsText(Get(data, Rotate(ForUsername)));
      var mfa := Get(data, Rotate(ForMfaVerified)) == Some(Flag(true));
      var tenant := ParkedTenant(data);
      PopRotateKeys();
      if stamp.None? || now - stamp.value > ROTATE_NONCE_TTL_SECONDS || storedPurpose != Some(PurposeText(purpose)) {
        return None;
      }
      if purpose == Logout {
        return Some(Pending(Logout, None, None, false, None));
      }
      if userId.None? || username.None? || tenant.None? {
        return None;
      }
      return Some(Pending(Login, userId, username, mfa, tenant));
    }

    method LogIn(userId: int, username: string, tenant: Option<Tenant>, now: real)
      modifies this
      ensures data == LoginSession(old(data), userId, username, tenant, now)
    {
      data := data - {Auth(HostedMfaRef), Auth(HostedMfaAt)};
      data := data - {Auth(MfaVerifiedAt)};
      data := data[Auth(Authenticated) := Flag(true)];
      data := data[Auth(UserId) := Number(userId)];
      data := data[Auth(Username) := Text(username)];
      data := data - {Auth(TenantId), Auth(TenantSchema), Auth(AuthSubject), Auth(Email)};
      if tenant.Some? {
        data := data[Auth(TenantId) := Number(tenant.value.id)];
        data := data[Auth(TenantSchema) := Text(tenant.value.schema)];
        data := data[Auth(AuthSubject) := Text(tenant.value.subject)];
        data := data[Auth(Email) := Text(tenant.value.email)];
      }
      data := data[Auth(LoginAt) := Stamp(now)];
      data := data[Auth(LastSeenAt) := Stamp(now)];
    }

    method TouchSession(now: real)
      modifies this
      ensures data == Touch(old(data), now)
    {
      var seen := AsStamp(Get(data, Auth(LastSeenAt)));
      if seen.Some? && now - seen.value <= IDLE_TOUCH_INTERVAL_SECONDS {
        return;
      }
      data := data[Auth(LastSeenAt) := Stamp(now)];
    }
  }

  lemma AllRotateKeys(r: RotateKey)
    ensures r in [Nonce, StampedAt, Purpose, ForUserId, ForUsername, ForMfaVerified,
                  ForTenantId, ForTenantSchema, ForAuthSubject, ForEmail]
  {
  }

  lemma AllAuthKeys(a: AuthKey)
    ensures a in [Authenticated, UserId, Username, LoginAt, LastSeenAt, RevalidatedAt, MfaVerifiedAt,
                  InstanceAdmin, SetByAdmin, AdminStepUpAt, TenantId, TenantSchema, AuthSubject, Email,
                  HostedMfaRef, HostedMfaAt]
  {
  }
}
