/** What each call on the key ring means to the reads after it, over whole runs. */
module KeyRingLaws {
  import opened Common
  import opened OrderedDicts
  import opened MemberRefs
  import opened KeyRings

  // An unlock is served until its TTL.

  /** The call may change or drop what is filed under `key` for a member `memberRef`. */
  predicate Disturbs(op: Op, key: string, memberRef: string) {
    match op
    case Put(k, _, _, _, _) => k == key
    case Lock(session) => session == Some(key)
    case LockMember(m) => m == memberRef
    case ReplaceDataKey(tenant, _) => TenantOf(memberRef) == Some(tenant)
    case Move(old_, new_) => old_ == key || new_ == key
    case Clear => true
    case _ => false
  }

  predicate Undisturbed(calls: seq<Call>, key: string, memberRef: string) {
    forall i | 0 <= i < |calls| :: !Disturbs(calls[i].op, key, memberRef)
  }

  /** `e` is filed under `key`, or gone because it had expired. */
  predicate Files(ring: Ring, key: string, e: Unlocked, now: real) {
    (key in ring.entries.at ==> ring.entries.at[key] == e) && (!Expired(e, now) ==> key in ring.entries.at)
  }

  lemma FilesStep(ring: Ring, call: Call, key: string, e: Unlocked, now: real)
    requires ring.entries.Valid() && Files(ring, key, e, now) && call.now <= now
    requires !Disturbs(call.op, key, e.memberRef)
    ensures Files(Step(ring, call.op, call.now, true).0, key, e, now)
  {
    var d := ring.entries;
    match call.op {
      case ForMember(memberRef) =>
        ScanKeepsLive(d, d.at, d.order, memberRef, FrozenRef(ring, memberRef), call.now, true);
      case LockMember(memberRef) =>
        KeysOfMemberExactly(d.at, d.order, memberRef);
        PopAllExactly(d, KeysOfMember(d.at, d.order, memberRef));
      case Move(old_, new_) => MovedEntries(ring, old_, new_, call.now, true);
      case _ =>
    }
  }

  lemma {:induction false} FilesRun(ring: Ring, calls: seq<Call>, key: string, e: Unlocked, now: real)
    requires ring.entries.Valid() && Files(ring, key, e, now) && Undisturbed(calls, key, e.memberRef)
    requires forall i | 0 <= i < |calls| :: calls[i].now <= now
    ensures Files(After(ring, calls, true), key, e, now)
    decreases |calls|
  {
    if calls != [] {
      var before := calls[..|calls| - 1];
      FilesRun(ring, before, key, e, now);
      FilesStep(After(ring, before, true), calls[|calls| - 1], key, e, now);
    }
  }

  /**
   * An unlock is answered exactly as it was put, with its key, owner and private key, to every `get` of
   * its session until its TTL has passed, unless its household is frozen, whatever calls that neither
   * lock, replace nor move it come in between.
   */
  lemma UnlockIsServed(ring: Ring, put: Call, calls: seq<Call>, now: real)
    requires ring.entries.Valid() && put.op.Put? && put.now <= now
    requires Undisturbed(calls, put.op.key, put.op.memberRef)
    requires forall i | 0 <= i < |calls| :: calls[i].now <= now
    ensures
      var unlocked := Step(ring, put.op, put.now, true).0;
      && unlocked.entries.Valid()
      && var after := After(unlocked, calls, true);
         var over := put.op.ttl > 0.0 && put.now + put.op.ttl <= now;
         var answer := Step(after, Get(Some(put.op.key)), now, true).1;
         if over || FrozenRef(after, put.op.memberRef) then answer == Entry(None)
         else
           && answer.Entry? && answer.entry.Some?
           && answer.entry.value.dataKey == put.op.dataKey && answer.entry.value.memberRef == put.op.memberRef
           && answer.entry.value.privateKey == put.op.privateKey
           && answer == Step(ring, put.op, put.now, true).1
  {
    StepEntries(ring, put.op, put.now, true);
    var unlocked := Step(ring, put.op, put.now, true).0;
    FilesRun(unlocked, calls, put.op.key, unlocked.entries.at[put.op.key], now);
  }

  // A lock ends it.

  predicate Refiles(op: Op, key: string) {
    (op.Put? && op.key == key) || (op.Move? && op.new_ == key)
  }

  lemma {:induction false} GoneRun(ring: Ring, calls: seq<Call>, key: string)
    requires ring.entries.Valid() && key !in ring.entries.at
    requires forall i | 0 <= i < |calls| :: !Refiles(calls[i].op, key)
    ensures key !in After(ring, calls, true).entries.at
    decreases |calls|
  {
    if calls != [] {
      var before, last := calls[..|calls| - 1], calls[|calls| - 1];
      GoneRun(ring, before, key);
      StepEntries(After(ring, before, true), last.op, last.now, true);
    }
  }

  /** After a lock of a session `get` answers nothing for it until it is unlocked again or moved onto. */
  lemma LockedSessionIsGone(ring: Ring, key: string, at: real, calls: seq<Call>, now: real)
    requires ring.entries.Valid() && (forall i | 0 <= i < |calls| :: !Refiles(calls[i].op, key))
    ensures
      var locked := Step(ring, Lock(Some(key)), at, true).0;
      && locked.entries.Valid()
      && Step(After(locked, calls, true), Get(Some(key)), now, true).1 == Entry(None)
  {
    StepEntries(ring, Lock(Some(key)), at, true);
    GoneRun(Step(ring, Lock(Some(key)), at, true).0, calls, key);
  }

  /** A lock, of a session or of none, leaves every other session as it was. */
  lemma LockSparesOthers(ring: Ring, session: Option<string>, at: real, other: string)
    requires ring.entries.Valid() && session != Some(other)
    ensures
      var locked := Step(ring, Lock(session), at, true).0;
      && locked.frozen == ring.frozen
      && (other in locked.entries.at <==> other in ring.entries.at)
      && (other in ring.entries.at ==> locked.entries.at[other] == ring.entries.at[other])
  {
  }

  ghost predicate HoldsNoneOf(ring: Ring, memberRef: string) {
    forall k | k in ring.entries.at :: ring.entries.at[k].memberRef != memberRef
  }

  lemma {:induction false} NoneRun(ring: Ring, calls: seq<Call>, memberRef: string)
    requires ring.entries.Valid() && HoldsNoneOf(ring, memberRef)
    requires forall i | 0 <= i < |calls| :: calls[i].op.Put? ==> calls[i].op.memberRef != memberRef
    ensures HoldsNoneOf(After(ring, calls, true), memberRef)
    decreases |calls|
  {
    if calls != [] {
      var before, last := calls[..|calls| - 1], calls[|calls| - 1];
      NoneRun(ring, before, memberRef);
      NoneStep(After(ring, before, true), last, memberRef);
    }
  }

  lemma NoneStep(ring: Ring, call: Call, memberRef: string)
    requires ring.entries.Valid() && HoldsNoneOf(ring, memberRef)
    requires call.op.Put? ==> call.op.memberRef != memberRef
    ensures HoldsNoneOf(Step(ring, call.op, call.now, true).0, memberRef)
  {
    StepEntries(ring, call.op, call.now, true);
  }

  /** The keys under which a member has an unlock. */
  function SessionsOf(ring: Ring, memberRef: string): set<string> {
    set k | k in ring.entries.at && ring.entries.at[k].memberRef == memberRef
  }

  lemma {:induction false} KeysOfMemberCount(at: map<string, Unlocked>, keys: seq<string>, memberRef: string)
    requires NoDuplicates(keys)
    ensures |KeysOfMember(at, keys, memberRef)|
         == |set k | k in keys && k in at && at[k].memberRef == memberRef|
  {
    if keys != [] {
      var rest := keys[1..];
      KeysOfMemberCount(at, rest, memberRef);
      var tail := set k | k in rest && k in at && at[k].memberRef == memberRef;
      var all := set k | k in keys && k in at && at[k].memberRef == memberRef;
      assert keys[0] !in rest;
      if keys[0] in at && at[keys[0]].memberRef == memberRef {
        assert all == tail + {keys[0]};
      } else {
        assert all == tail;
      }
    }
  }

  /**
   * Locking a member drops all of its sessions, says how many there were, and touches no other; after it
   * no read answers an unlock of the member until somebody unlocks as that member again.
   */
  lemma LockedMemberIsGone(ring: Ring, memberRef: string, at: real, calls: seq<Call>, call: Call)
    requires ring.entries.Valid() && !call.op.Put?
    requires forall i | 0 <= i < |calls| :: calls[i].op.Put? ==> calls[i].op.memberRef != memberRef
    ensures
      var (locked, answer) := Step(ring, LockMember(memberRef), at, true);
      && locked.entries.Valid() && answer == Number(|SessionsOf(ring, memberRef)|)
      && locked.entries.at == ring.entries.at - SessionsOf(ring, memberRef)
      && var read := AnswerAfter(locked, calls, call, true);
         (read.Entry? && read.entry.Some? ==> read.entry.value.memberRef != memberRef)
  {
    var d := ring.entries;
    var locked := Step(ring, LockMember(memberRef), at, true).0;
    MemberDropped(ring, memberRef, at);
    NoneRun(locked, calls, memberRef);
    StepEntries(After(locked, calls, true), call.op, call.now, true);
  }

  lemma MemberDropped(ring: Ring, memberRef: string, at: real)
    requires ring.entries.Valid()
    ensures
      var (locked, answer) := Step(ring, LockMember(memberRef), at, true);
      && locked.entries.Valid() && answer == Number(|SessionsOf(ring, memberRef)|)
      && locked.entries.at == ring.entries.at - SessionsOf(ring, memberRef)
      && HoldsNoneOf(locked, memberRef)
  {
    var d := ring.entries;
    var keys := KeysOfMember(d.at, d.order, memberRef);
    KeysOfMemberExactly(d.at, d.order, memberRef);
    PopAllExactly(d, keys);
    KeysOfMemberCount(d.at, d.order, memberRef);
    assert (set k | k in keys) == SessionsOf(ring, memberRef);
    assert (set k | k in d.order && k in d.at && d.at[k].memberRef == memberRef) == SessionsOf(ring, memberRef);
  }

  // Moving, freezing, counting.

  /** After a move the new session reads what the old one would have, and the old one nothing; others read as before. */
  lemma MoveCarriesTheUnlock(ring: Ring, old_: string, new_: string, at: real, other: string, now: real)
    requires ring.entries.Valid() && old_ in ring.entries.at && other != old_ && other != new_
    ensures
      var moved := Step(ring, Move(old_, new_), at, true).0;
      && moved.entries.Valid()
      && Step(moved, Get(Some(new_)), now, true).1 == Step(ring, Get(Some(old_)), now, true).1
      && (old_ != new_ ==> Step(moved, Get(Some(old_)), now, true).1 == Entry(None))
      && Step(moved, Get(Some(other)), now, true).1 == Step(ring, Get(Some(other)), now, true).1
  {
    MovedEntries(ring, old_, new_, at, true);
  }

  /** A move of nothing changes nothing. */
  lemma MoveOfNothing(ring: Ring, old_: string, new_: string, at: real)
    requires ring.entries.Valid() && old_ !in ring.entries.at
    ensures Step(ring, Move(old_, new_), at, true).0 == ring
  {
  }

  /** Is the household frozen after these calls? The last freeze, thaw or clear tells. */
  function FrozenBy(calls: seq<Call>, tenant: int, initially: bool): bool {
    if calls == [] then initially
    else
      match calls[|calls| - 1].op
      case Freeze(t) => t == tenant || FrozenBy(calls[..|calls| - 1], tenant, initially)
      case Thaw(t) => t != tenant && FrozenBy(calls[..|calls| - 1], tenant, initially)
      case Clear => false
      case _ => FrozenBy(calls[..|calls| - 1], tenant, initially)
  }

  lemma FrozenStep(ring: Ring, call: Call, tenant: int)
    requires ring.entries.Valid()
    ensures tenant in Step(ring, call.op, call.now, true).0.frozen
       <==> (if call.op == Freeze(tenant) then true
             else if call.op == Thaw(tenant) || call.op == Clear then false
             else tenant in ring.frozen)
  {
  }

  /** `is_frozen` answers that, after any run. */
  lemma {:induction false} FrozenAsTold(ring: Ring, calls: seq<Call>, tenant: int, now: real)
    requires ring.entries.Valid()
    ensures tenant in After(ring, calls, true).frozen <==> FrozenBy(calls, tenant, tenant in ring.frozen)
    ensures AnswerAfter(ring, calls, Call(IsFrozen(tenant), now), true) == Flag(FrozenBy(calls, tenant, tenant in ring.frozen))
    decreases |calls|
  {
    if calls != [] {
      var before := calls[..|calls| - 1];
      FrozenAsTold(ring, before, tenant, now);
      FrozenStep(After(ring, before, true), calls[|calls| - 1], tenant);
    }
  }

  /** The keys under which a household has an unlock, expired ones included. */
  function SessionsOfHousehold(ring: Ring, tenant: int): set<string> {
    set k | k in ring.entries.at && TenantOf(ring.entries.at[k].memberRef) == Some(tenant)
  }

  function HouseholdIn(at: map<string, Unlocked>, keys: seq<string>, tenant: int): set<string> {
    set k | k in keys && k in at && TenantOf(at[k].memberRef) == Some(tenant)
  }

  lemma HouseholdInOneMore(at: map<string, Unlocked>, front: seq<string>, last: string, tenant: int)
    requires last !in front
    ensures |HouseholdIn(at, front + [last], tenant)|
         == |HouseholdIn(at, front, tenant)| + if last in at && TenantOf(at[last].memberRef) == Some(tenant) then 1 else 0
  {
    var some, all := HouseholdIn(at, front, tenant), HouseholdIn(at, front + [last], tenant);
    if last in at && TenantOf(at[last].memberRef) == Some(tenant) {
      assert all == some + {last};
    } else {
      assert all == some;
    }
  }

  lemma {:induction false} CountOfIsSize(at: map<string, Unlocked>, keys: seq<string>, tenant: int)
    requires NoDuplicates(keys)
    ensures CountOf(at, keys, tenant) == |HouseholdIn(at, keys, tenant)|
    decreases |keys|
  {
    if keys != [] {
      var front, last := keys[..|keys| - 1], keys[|keys| - 1];
      CountOfIsSize(at, front, tenant);
      assert last !in front && keys == front + [last];
      HouseholdInOneMore(at, front, last, tenant);
    }
  }

  /**
   * Replacing a household's key gives the new key to each of its unlocks and says how many; owner,
   * private key, expiry and place stay, and so does every unlock of another household.
   */
  lemma ReplaceTouchesTheHousehold(ring: Ring, tenant: int, dataKey: DataKey, at: real, k: string)
    requires ring.entries.Valid() && k in ring.entries.at
    ensures
      var (after, answer) := Step(ring, ReplaceDataKey(tenant, dataKey), at, true);
      && answer == Number(|SessionsOfHousehold(ring, tenant)|)
      && after.entries.order == ring.entries.order && after.frozen == ring.frozen && k in after.entries.at
      && var was, is_ := ring.entries.at[k], after.entries.at[k];
         && is_.memberRef == was.memberRef && is_.privateKey == was.privateKey && is_.expiresAt == was.expiresAt
         && is_.dataKey == (if k in SessionsOfHousehold(ring, tenant) then dataKey else was.dataKey)
  {
    var d := ring.entries;
    CountOfIsSize(d.at, d.order, tenant);
    assert HouseholdIn(d.at, d.order, tenant) == SessionsOfHousehold(ring, tenant);
  }

  /** A clear leaves nothing to read, to count or to thaw. */
  lemma ClearLeavesNothing(ring: Ring, at: real, op: Op, now: real)
    requires ring.entries.Valid()
    ensures
      var cleared := Step(ring, Clear, at, true).0;
      && cleared.entries.Valid()
      && (op.Get? || op.ForMember? ==> Step(cleared, op, now, true).1 == Entry(None))
      && (op.Count? ==> Step(cleared, op, now, true).1 == Number(0))
      && (op.IsFrozen? ==> Step(cleared, op, now, true).1 == Flag(false))
  {
    assert LiveKeys(EMPTY, now) == {};
  }
}
