/** Member references: how a key ring entry names its household. */
module MemberRefs {
  import opened Common

  /** `s.partition(":")`: what stands before the first colon, and what after it. */
  function Partition(s: string): (string, string) {
    if s == "" then ("", "")
    else if s[0] == ':' then ("", s[1..])
    else var (head, tail) := Partition(s[1..]); ([s[0]] + head, tail)
  }

  predicate IsDigit(c: char) {
    '0' <= c <= '9'
  }

  /** `s.isdigit()` for ASCII text. */
  predicate AllDigits(s: string) {
    s != "" && forall i | 0 <= i < |s| :: IsDigit(s[i])
  }

  /** `int(s)` for a string of digits. */
  function Parse(s: string): nat
    requires forall i | 0 <= i < |s| :: IsDigit(s[i])
  {
    if s == "" then 0 else assert IsDigit(s[|s| - 1]); 10 * Parse(s[..|s| - 1]) + (s[|s| - 1] as int - '0' as int)
  }

  function Decimal(n: nat): (s: string)
    ensures AllDigits(s)
  {
    var digit := [('0' as int + n % 10) as char];
    if n < 10 then digit else Decimal(n / 10) + digit
  }

  /** `str(n)`. */
  function Show(n: int): string {
    if n < 0 then "-" + Decimal(-n) else Decimal(n)
  }

  function TenantMemberRef(tenantId: int, userId: int): string {
    "tenant:" + Show(tenantId) + ":user:" + Show(userId)
  }

  function TenantOf(memberRef: string): Option<int> {
    var (kind, rest) := Partition(memberRef);
    var (raw, _) := Partition(rest);
    if kind != "tenant" || !AllDigits(raw) then None else Some(Parse(raw))
  }

  lemma {:induction false} ParseDecimal(n: nat)
    ensures Parse(Decimal(n)) == n
  {
    var s := Decimal(n);
    assert s[|s| - 1] == ('0' as int + n % 10) as char;
    if n < 10 {
      assert s[..|s| - 1] == "";
    } else {
      assert s[..|s| - 1] == Decimal(n / 10);
      ParseDecimal(n / 10);
    }
  }

  lemma {:induction false} PartitionAtColon(head: string, tail: string)
    requires ':' !in head
    ensures Partition(head + ":" + tail) == (head, tail)
  {
    if head == "" {
      assert head + ":" + tail == [':'] + tail;
    } else {
      assert (head + ":" + tail)[1..] == head[1..] + ":" + tail;
      PartitionAtColon(head[1..], tail);
      assert [head[0]] + head[1..] == head;
    }
  }

  /** A hosted member's reference names its household back, and no negative id is one. */
  lemma TenantOfMemberRef(tenantId: int, userId: int)
    ensures TenantOf(TenantMemberRef(tenantId, userId))
         == if tenantId >= 0 then Some(tenantId) else None
  {
    var shown, tail := Show(tenantId), "user:" + Show(userId);
    assert TenantMemberRef(tenantId, userId) == "tenant" + ":" + (shown + ":" + tail);
    PartitionAtColon("tenant", shown + ":" + tail);
    ShownPart(tenantId, tail);
  }

  lemma ShownPart(n: int, tail: string)
    ensures Partition(Show(n) + ":" + tail) == (Show(n), tail)
    ensures AllDigits(Show(n)) <==> n >= 0
    ensures n >= 0 ==> Parse(Show(n)) == n
  {
    var shown := Show(n);
    if n >= 0 {
      ParseDecimal(n);
      assert forall i | 0 <= i < |shown| :: IsDigit(shown[i]);
    } else {
      var digits := Decimal(-n);
      assert shown == ['-'] + digits && shown[0] == '-';
      assert forall i | 0 <= i < |digits| :: IsDigit(digits[i]);
    }
    assert ':' !in shown;
    PartitionAtColon(shown, tail);
  }
}

/** Unlocked data keys per session: expiry, lazy eviction, freezing and key replacement. */
module KeyRings {
  import opened Common
  import opened OrderedDicts
  import opened MemberRefs

  datatype DataKey = DataKey(dek: Bytes, version: Byte)

  datatype Deadline = Never | At(time: real)

  datatype Unlocked = Unlocked(
    dataKey: DataKey, memberRef: string, privateKey: Option<Bytes>, expiresAt: Deadline)

  datatype Ring = Ring(entries: Dict<Unlocked>, frozen: set<int>)

  const EMPTY := Ring(Dict([], map[]), {})

  datatype Op =
    | Put(key: string, dataKey: DataKey, memberRef: string, privateKey: Option<Bytes>, ttl: real)
    | Get(session: Option<string>)
    | ForMember(memberRef: string)
    | Lock(session: Option<string>)
    | LockMember(memberRef: string)
    | Freeze(tenant: int)
    | Thaw(tenant: int)
    | IsFrozen(tenant: int)
    | ReplaceDataKey(tenant: int, dataKey: DataKey)
    | Move(old_: string, new_: string)
    | Count
    | Clear

  datatype Answer = Entry(entry: Option<Unlocked>) | Number(n: nat) | Flag(b: bool) | Done

  predicate Expired(e: Unlocked, now: real) {
    e.expiresAt.At? && e.expiresAt.time <= now
  }

  function ExpiryOf(ttl: real, now: real): Deadline {
    if ttl > 0.0 then At(now + ttl) else Never
  }

  predicate FrozenRef(ring: Ring, memberRef: string) {
    var tenant := TenantOf(memberRef);
    tenant.Some? && tenant.value in ring.frozen
  }

  /** Does the entry belong to one of these households? */
  predicate Of(e: Unlocked, households: set<int>) {
    TenantOf(e.memberRef).Some? && TenantOf(e.memberRef).value in households
  }

  /**
   * The scan of `for_member` over the items `keys` of `items`: expired entries met on the way are
   * deleted when `evict`, and the scan stops at the first live entry of a member that is not frozen.
   */
  function Scan(d: Dict<Unlocked>, items: map<string, Unlocked>, keys: seq<string>,
                memberRef: string, blocked: bool, now: real, evict: bool)
    : (Dict<Unlocked>, Option<Unlocked>)
    requires forall k | k in keys :: k in items
    decreases |keys|
  {
    if keys == [] then (d, None)
    else
      var e := items[keys[0]];
      if Expired(e, now) then
        Scan(if evict then d.Pop(keys[0]) else d, items, keys[1..], memberRef, blocked, now, evict)
      else if e.memberRef == memberRef && !blocked then (d, Some(e))
      else Scan(d, items, keys[1..], memberRef, blocked, now, evict)
  }

  /** The keys of `keys` whose entry `memberRef` unlocked. */
  function KeysOfMember(at: map<string, Unlocked>, keys: seq<string>, memberRef: string): seq<string> {
    if keys == [] then []
    else (if keys[0] in at && at[keys[0]].memberRef == memberRef then [keys[0]] else [])
         + KeysOfMember(at, keys[1..], memberRef)
  }

  function PopAll(d: Dict<Unlocked>, keys: seq<string>): Dict<Unlocked>
    decreases |keys|
  {
    if keys == [] then d else PopAll(d.Pop(keys[0]), keys[1..])
  }

  function Rekeyed(e: Unlocked, tenant: int, dataKey: DataKey): Unlocked {
    if TenantOf(e.memberRef) == Some(tenant) then e.(dataKey := dataKey) else e
  }

  /** How many of `keys` hold an entry of the household, expired ones included. */
  function CountOf(at: map<string, Unlocked>, keys: seq<string>, tenant: int): nat
    decreases |keys|
  {
    if keys == [] then 0
    else
      var k := keys[|keys| - 1];
      CountOf(at, keys[..|keys| - 1], tenant)
      + (if k in at && TenantOf(at[k].memberRef) == Some(tenant) then 1 else 0)
  }

  /** `at` with the household's entries under `keys` given the new key. */
  function RekeyedIn(at: map<string, Unlocked>, keys: seq<string>, tenant: int, dataKey: DataKey)
    : map<string, Unlocked>
  {
    map k | k in at :: if k in keys then Rekeyed(at[k], tenant, dataKey) else at[k]
  }

  /** One call at time `now`; `evict` is off only for the reference ring that never evicts. */
  function Step(ring: Ring, op: Op, now: real, evict: bool): (Ring, Answer)
    requires ring.entries.Valid()
  {
    var d := ring.entries;
    match op
    case Put(key, dataKey, memberRef, privateKey, ttl) =>
      var e := Unlocked(dataKey, memberRef, privateKey, ExpiryOf(ttl, now));
      (ring.(entries := d.Put(key, e)), Entry(Some(e)))
    case Get(session) =>
      if session.None? || session.value !in d.at then (ring, Entry(None))
      else
        var e := d.at[session.value];
        if Expired(e, now) then
          (if evict then ring.(entries := d.Pop(session.value)) else ring, Entry(None))
        else (ring, Entry(if FrozenRef(ring, e.memberRef) then None else Some(e)))
    case ForMember(memberRef) =>
      var (d', found) := Scan(d, d.at, d.order, memberRef, FrozenRef(ring, memberRef), now, evict);
      (ring.(entries := d'), Entry(found))
    case Lock(session) =>
      (if session.None? then ring else ring.(entries := d.Pop(session.value)), Done)
    case LockMember(memberRef) =>
      var keys := KeysOfMember(d.at, d.order, memberRef);
      (ring.(entries := PopAll(d, keys)), Number(|keys|))
    case Freeze(tenant) => (ring.(frozen := ring.frozen + {tenant}), Done)
    case Thaw(tenant) => (ring.(frozen := ring.frozen - {tenant}), Done)
    case IsFrozen(tenant) => (ring, Flag(tenant in ring.frozen))
    case ReplaceDataKey(tenant, dataKey) =>
      var at := map k | k in d.at :: Rekeyed(d.at[k], tenant, dataKey);
      (ring.(entries := Dict(d.order, at)), Number(CountOf(d.at, d.order, tenant)))
    case Move(old_, new_) =>
      (if old_ in d.at then ring.(entries := d.Pop(old_).Put(new_, d.at[old_])) else ring, Done)
    case Count => (ring, Number(|LiveKeys(ring, now)|))
    case Clear => (EMPTY, Done)
  }

  function LiveKeys(ring: Ring, now: real): set<string> {
    set k | k in ring.entries.at && !Expired(ring.entries.at[k], now)
  }

  // What the loops leave behind.

  lemma {:induction false} ScanKeepsLive(
      d: Dict<Unlocked>, items: map<string, Unlocked>, keys: seq<string>,
      memberRef: string, blocked: bool, now: real, evict: bool)
    requires d.Valid() && (forall k | k in keys :: k in items)
    requires forall k | k in d.at :: k in items && d.at[k] == items[k]
    ensures
      var (d', found) := Scan(d, items, keys, memberRef, blocked, now, evict);
      && d'.Valid()
      && (forall k | k in d'.at :: k in d.at && d'.at[k] == d.at[k])
      && (forall k | k in d.at && k !in d'.at :: Expired(d.at[k], now))
      && (found.Some? ==> !blocked && found.value.memberRef == memberRef && !Expired(found.value, now)
                          && exists k :: k in keys && items[k] == found.value)
      && (found.None? && !blocked ==>
            forall k | k in keys :: items[k].memberRef == memberRef ==> Expired(items[k], now))
    decreases |keys|
  {
    if keys != [] {
      var k0 := keys[0];
      assert forall k | k in keys :: k == k0 || k in keys[1..];
      var e := items[k0];
      if Expired(e, now) {
        ScanKeepsLive(if evict then d.Pop(k0) else d, items, keys[1..], memberRef, blocked, now, evict);
      } else if e.memberRef == memberRef && !blocked {
      } else {
        ScanKeepsLive(d, items, keys[1..], memberRef, blocked, now, evict);
      }
    }
  }

  lemma {:induction false} KeysOfMemberExactly(at: map<string, Unlocked>, keys: seq<string>, memberRef: string)
    ensures forall k :: k in KeysOfMember(at, keys, memberRef)
                   <==> k in keys && k in at && at[k].memberRef == memberRef
  {
    if keys != [] {
      KeysOfMemberExactly(at, keys[1..], memberRef);
    }
  }

  lemma {:induction false} PopAllExactly(d: Dict<Unlocked>, keys: seq<string>)
    requires d.Valid()
    ensures PopAll(d, keys).Valid()
    ensures PopAll(d, keys).at == d.at - (set k | k in keys)
    decreases |keys|
  {
    if keys != [] {
      PopAllExactly(d.Pop(keys[0]), keys[1..]);
      assert d.Pop(keys[0]).at == d.at - {keys[0]};
      assert (set k | k in keys) == {keys[0]} + (set k | k in keys[1..]);
      assert d.at - (set k | k in keys) == (d.at - {keys[0]}) - (set k | k in keys[1..]);
    } else {
      assert d.at - (set k | k in keys) == d.at;
    }
  }

  /** Every call keeps the dict sound and leaves only entries that were there, or the one put. */
  lemma StepEntries(ring: Ring, op: Op, now: real, evict: bool)
    requires ring.entries.Valid()
    ensures
      var (ring', answer) := Step(ring, op, now, evict);
      var at, at' := ring.entries.at, ring'.entries.at;
      && ring'.entries.Valid()
      && (forall k | k in at' ::
            || (k in at && (at'[k] == at[k]
                            || (op.ReplaceDataKey? && at'[k] == Rekeyed(at[k], op.tenant, op.dataKey))))
            || (op.Put? && k == op.key)
            || (op.Move? && k == op.new_ && op.old_ in at && at'[k] == at[op.old_]))
      && (answer.Entry? && answer.entry.Some? && !op.Put? ==>
            exists k :: k in at && at[k] == answer.entry.value && !Expired(at[k], now)
                        && !FrozenRef(ring, at[k].memberRef))
  {
    var d := ring.entries;
    match op {
      case ForMember(memberRef) =>
        ScanKeepsLive(d, d.at, d.order, memberRef, FrozenRef(ring, memberRef), now, evict);
      case LockMember(memberRef) =>
        PopAllExactly(d, KeysOfMember(d.at, d.order, memberRef));
      case _ =>
    }
  }

  // Runs.

  datatype Call = Call(op: Op, now: real)

  /** The ring after a run of calls on `ring`. */
  function After(ring: Ring, calls: seq<Call>, evict: bool): (ring': Ring)
    requires ring.entries.Valid()
    ensures ring'.entries.Valid()
    decreases |calls|
  {
    if calls == [] then ring
    else
      var before, last := After(ring, calls[..|calls| - 1], evict), calls[|calls| - 1];
      StepEntries(before, last.op, last.now, evict);
      Step(before, last.op, last.now, evict).0
  }

  function AnswerAfter(ring: Ring, calls: seq<Call>, call: Call, evict: bool): Answer
    requires ring.entries.Valid()
  {
    Step(After(ring, calls, evict), call.op, call.now, evict).1
  }

  predicate Monotone(calls: seq<Call>) {
    forall i, j | 0 <= i < j < |calls| :: calls[i].now <= calls[j].now
  }

  // Freezing a household.

  predicate Unfreezes(op: Op, tenant: int) {
    op == Thaw(tenant) || op.Clear?
  }

  /**
   * From a freeze until the thaw (or a clear) no read answers an entry of the household, whatever
   * puts, moves, locks and replacements come in between.
   */
  lemma {:induction false} FrozenAnswersNothing(ring: Ring, tenant: int, calls: seq<Call>, call: Call)
    requires ring.entries.Valid() && tenant in ring.frozen
    requires forall i | 0 <= i < |calls| :: !Unfreezes(calls[i].op, tenant)
    requires !call.op.Put?
    ensures tenant in After(ring, calls, true).frozen
    ensures
      var answer := AnswerAfter(ring, calls, call, true);
      answer.Entry? && answer.entry.Some? ==> !Of(answer.entry.value, {tenant})
    decreases |calls|
  {
    if calls != [] {
      FrozenAnswersNothing(ring, tenant, calls[..|calls| - 1], call);
    }
    StepEntries(After(ring, calls, true), call.op, call.now, true);
  }

  /** Freezing and thawing a household that was not frozen leaves the ring as it was. */
  lemma ThawUndoesFreeze(ring: Ring, tenant: int, frozenAt: real, thawedAt: real)
    requires ring.entries.Valid() && tenant !in ring.frozen
    ensures Step(Step(ring, Freeze(tenant), frozenAt, true).0, Thaw(tenant), thawedAt, true).0 == ring
  {
    assert ring.frozen + {tenant} - {tenant} == ring.frozen;
  }

  // Replacing a household's key.

  /** Every entry of the household stems from one of `origin`, now under `dataKey`. */
  ghost predicate CarriesKey(ring: Ring, tenant: int, dataKey: DataKey, origin: map<string, Unlocked>) {
    forall k | k in ring.entries.at && Of(ring.entries.at[k], {tenant}) ::
      exists o :: o in origin && ring.entries.at[k] == origin[o].(dataKey := dataKey)
  }

  predicate BringsKey(op: Op, tenant: int) {
    || (op.Put? && TenantOf(op.memberRef) == Some(tenant))
    || (op.ReplaceDataKey? && op.tenant == tenant)
  }

  /**
   * After `replace_data_key` every answer for the household carries the new key, with the owner,
   * private key and expiry of an unlock that was there before, until someone unlocks again.
   */
  lemma {:induction false} ReplacedKeyIsServed(
      ring: Ring, tenant: int, dataKey: DataKey, at: real, calls: seq<Call>, call: Call)
    requires ring.entries.Valid() && !call.op.Put?
    requires forall i | 0 <= i < |calls| :: !BringsKey(calls[i].op, tenant)
    ensures
      var replaced := Step(ring, ReplaceDataKey(tenant, dataKey), at, true).0;
      && replaced.entries.Valid()
      && CarriesKey(After(replaced, calls, true), tenant, dataKey, ring.entries.at)
      && var answer := AnswerAfter(replaced, calls, call, true);
         (answer.Entry? && answer.entry.Some? && Of(answer.entry.value, {tenant}) ==>
            exists o :: o in ring.entries.at
                        && answer.entry.value == ring.entries.at[o].(dataKey := dataKey))
    decreases |calls|
  {
    var replaced := Step(ring, ReplaceDataKey(tenant, dataKey), at, true).0;
    StepEntries(ring, ReplaceDataKey(tenant, dataKey), at, true);
    if calls != [] {
      var before, last := calls[..|calls| - 1], calls[|calls| - 1];
      ReplacedKeyIsServed(ring, tenant, dataKey, at, before, call);
      StepEntries(After(replaced, before, true), last.op, last.now, true);
    }
    StepEntries(After(replaced, calls, true), call.op, call.now, true);
  }

  // No answer is older than one TTL.

  /** `e` was put by `put`, at most with its data key replaced since. */
  ghost predicate StemsFrom(e: Unlocked, put: Call) {
    && put.op.Put?
    && e.memberRef == put.op.memberRef
    && e.privateKey == put.op.privateKey
    && e.expiresAt == ExpiryOf(put.op.ttl, put.now)
  }

  /** Where the entry under `k` came from: an entry of the same owner and expiry, or this put. */
  lemma EntrySource(ring: Ring, op: Op, now: real, k: string) returns (source: Option<string>)
    requires ring.entries.Valid()
    requires k in Step(ring, op, now, true).0.entries.at
    ensures
      var e, at := Step(ring, op, now, true).0.entries.at[k], ring.entries.at;
      match source
      case None => StemsFrom(e, Call(op, now))
      case Some(o) => o in at && e == at[o].(dataKey := e.dataKey)
  {
    StepEntries(ring, op, now, true);
    if op.Put? && k == op.key {
      source := None;
    } else if op.Move? && k == op.new_ && op.old_ in ring.entries.at {
      source := Some(op.old_);
    } else {
      source := Some(k);
    }
  }

  lemma {:induction false} EntriesStemFromPuts(calls: seq<Call>, k: string)
    requires k in After(EMPTY, calls, true).entries.at
    ensures exists j :: 0 <= j < |calls| && StemsFrom(After(EMPTY, calls, true).entries.at[k], calls[j])
    decreases |calls|
  {
    var before, last := calls[..|calls| - 1], calls[|calls| - 1];
    var ring := After(EMPTY, before, true);
    var source := EntrySource(ring, last.op, last.now, k);
    var e := After(EMPTY, calls, true).entries.at[k];
    if source.None? {
      assert StemsFrom(e, calls[|calls| - 1]);
    } else {
      EntriesStemFromPuts(before, source.value);
      var j :| 0 <= j < |before| && StemsFrom(ring.entries.at[source.value], before[j]);
      assert StemsFrom(e, calls[j]);
    }
  }

  /** Every entry answered at `call.now` was put less than its TTL ago, if a TTL was set at all. */
  lemma AnswersAreYoungerThanTheTtl(calls: seq<Call>, call: Call)
    requires !call.op.Put?
    ensures
      var answer := AnswerAfter(EMPTY, calls, call, true);
      answer.Entry? && answer.entry.Some? ==>
        exists j :: 0 <= j < |calls| && StemsFrom(answer.entry.value, calls[j])
                    && (calls[j].op.ttl > 0.0 ==> call.now - calls[j].now < calls[j].op.ttl)
  {
    var ring := After(EMPTY, calls, true);
    StepEntries(ring, call.op, call.now, true);
    var answer := AnswerAfter(EMPTY, calls, call, true);
    if answer.Entry? && answer.entry.Some? {
      var k :| k in ring.entries.at && ring.entries.at[k] == answer.entry.value
               && !Expired(ring.entries.at[k], call.now);
      EntriesStemFromPuts(calls, k);
    }
  }

  // Rings that differ only in what no reader outside some households can see.

  predicate LiveAt(ring: Ring, k: string, now: real) {
    k in ring.entries.at && !Expired(ring.entries.at[k], now)
  }

  /** Equal entries, up to the data key of a household in `hidden`. */
  predicate SameEntry(a: Unlocked, b: Unlocked, hidden: set<int>) {
    a == b || (Of(a, hidden) && a.(dataKey := b.dataKey) == b)
  }

  ghost predicate Alike(a: Ring, b: Ring, now: real, hidden: set<int>) {
    && a.entries.Valid() && b.entries.Valid()
    && (forall k :: LiveAt(a, k, now) <==> LiveAt(b, k, now))
    && (forall k | LiveAt(a, k, now) :: SameEntry(a.entries.at[k], b.entries.at[k], hidden))
    && (forall t | t !in hidden :: t in a.frozen <==> t in b.frozen)
  }

  /** The entry, unless it belongs to a hidden household. */
  function Seen(entry: Option<Unlocked>, hidden: set<int>): Option<Unlocked> {
    if entry.Some? && Of(entry.value, hidden) then None else entry
  }

  /** What a reader outside `hidden` may compare: reads, counts, frozen flags, and whether a member has an unlock. */
  ghost predicate SameReading(op: Op, a: Answer, b: Answer, hidden: set<int>) {
    && (op.Get? ==> a.Entry? && b.Entry? && Seen(a.entry, hidden) == Seen(b.entry, hidden))
    && (op.ForMember? ==>
          && a.Entry? && b.Entry?
          && ((TenantOf(op.memberRef).Some? && TenantOf(op.memberRef).value in hidden)
              || (a.entry.Some? <==> b.entry.Some?)))
    && (op.Count? ==> a == b)
    && (op.IsFrozen? && op.tenant !in hidden ==> a == b)
  }

  /** The move does not carry an expired entry over a live one. */
  predicate MoveSafe(ring: Ring, op: Op, now: real) {
    op.Move? && op.old_ in ring.entries.at && Expired(ring.entries.at[op.old_], now)
    ==> !LiveAt(ring, op.new_, now)
  }

  lemma AlikeLater(a: Ring, b: Ring, now: real, later: real, hidden: set<int>)
    requires Alike(a, b, now, hidden) && now <= later
    ensures Alike(a, b, later, hidden)
  {
    forall k ensures LiveAt(a, k, later) <==> LiveAt(b, k, later) {
      assert LiveAt(a, k, later) || LiveAt(b, k, later) ==> LiveAt(a, k, now);
    }
  }

  /** `for_member` finds one exactly when the member has a live unlock and is not frozen. */
  lemma FoundIffLive(ring: Ring, memberRef: string, now: real, evict: bool)
    requires ring.entries.Valid()
    ensures
      var answer := Step(ring, ForMember(memberRef), now, evict).1;
      && answer.Entry?
      && (answer.entry.Some? <==>
            !FrozenRef(ring, memberRef) && exists k :: LiveAt(ring, k, now) && ring.entries.at[k].memberRef == memberRef)
  {
    var d := ring.entries;
    ScanKeepsLive(d, d.at, d.order, memberRef, FrozenRef(ring, memberRef), now, evict);
    var found := Step(ring, ForMember(memberRef), now, evict).1.entry;
    if found.Some? {
      var k :| k in d.order && d.at[k] == found.value;
      assert LiveAt(ring, k, now);
    }
  }

  lemma AlikeReadings(a: Ring, b: Ring, op: Op, now: real, hidden: set<int>, ea: bool, eb: bool)
    requires Alike(a, b, now, hidden)
    ensures SameReading(op, Step(a, op, now, ea).1, Step(b, op, now, eb).1, hidden)
  {
    match op {
      case Get(session) =>
        if session.Some? {
          assert LiveAt(a, session.value, now) <==> LiveAt(b, session.value, now);
        }
      case ForMember(memberRef) =>
        FoundIffLive(a, memberRef, now, ea);
        FoundIffLive(b, memberRef, now, eb);
        if exists k :: LiveAt(a, k, now) && a.entries.at[k].memberRef == memberRef {
          var k :| LiveAt(a, k, now) && a.entries.at[k].memberRef == memberRef;
          assert LiveAt(b, k, now);
        }
        if exists k :: LiveAt(b, k, now) && b.entries.at[k].memberRef == memberRef {
          var k :| LiveAt(b, k, now) && b.entries.at[k].memberRef == memberRef;
          assert LiveAt(a, k, now);
        }
      case Count =>
        forall k ensures k in LiveKeys(a, now) <==> k in LiveKeys(b, now) {
          assert LiveAt(a, k, now) <==> LiveAt(b, k, now);
        }
        assert LiveKeys(a, now) == LiveKeys(b, now);
      case _ =>
    }
  }

  /** The live entry under `k` after a safe call, told from the live entries before it. */
  function LiveNext(ring: Ring, op: Op, now: real, k: string): Option<Unlocked> {
    var before := if LiveAt(ring, k, now) then Some(ring.entries.at[k]) else None;
    match op
    case Put(key, dataKey, memberRef, privateKey, ttl) =>
      if k == key then Some(Unlocked(dataKey, memberRef, privateKey, ExpiryOf(ttl, now))) else before
    case Lock(session) => if session == Some(k) then None else before
    case LockMember(memberRef) =>
      if before.Some? && before.value.memberRef == memberRef then None else before
    case ReplaceDataKey(tenant, dataKey) =>
      if before.Some? then Some(Rekeyed(before.value, tenant, dataKey)) else None
    case Move(old_, new_) =>
      if k == new_ && LiveAt(ring, old_, now) then Some(ring.entries.at[old_])
      else if k == old_ then None else before
    case Clear => None
    case _ => before
  }

  /** `LiveNext` is what is live under `k` in the ring a call leaves. */
  ghost predicate LiveAs(ring: Ring, op: Op, now: real, ring': Ring, k: string) {
    LiveNext(ring, op, now, k) == if LiveAt(ring', k, now) then Some(ring'.entries.at[k]) else None
  }

  lemma LiveAfterForMember(ring: Ring, memberRef: string, now: real, evict: bool, k: string)
    requires ring.entries.Valid()
    ensures LiveAs(ring, ForMember(memberRef), now, Step(ring, ForMember(memberRef), now, evict).0, k)
  {
    var d := ring.entries;
    ScanKeepsLive(d, d.at, d.order, memberRef, FrozenRef(ring, memberRef), now, evict);
  }

  lemma LiveAfterLockMember(ring: Ring, memberRef: string, now: real, evict: bool, k: string)
    requires ring.entries.Valid()
    ensures LiveAs(ring, LockMember(memberRef), now, Step(ring, LockMember(memberRef), now, evict).0, k)
  {
    var d := ring.entries;
    KeysOfMemberExactly(d.at, d.order, memberRef);
    PopAllExactly(d, KeysOfMember(d.at, d.order, memberRef));
  }

  lemma LiveAfterMove(ring: Ring, old_: string, new_: string, now: real, evict: bool, k: string)
    requires ring.entries.Valid() && MoveSafe(ring, Move(old_, new_), now)
    ensures LiveAs(ring, Move(old_, new_), now, Step(ring, Move(old_, new_), now, evict).0, k)
  {
    MovedEntries(ring, old_, new_, now, evict);
  }

  lemma LiveAfter(ring: Ring, op: Op, now: real, evict: bool, k: string)
    requires ring.entries.Valid() && MoveSafe(ring, op, now)
    ensures LiveAs(ring, op, now, Step(ring, op, now, evict).0, k)
  {
    match op {
      case ForMember(memberRef) => LiveAfterForMember(ring, memberRef, now, evict, k);
      case LockMember(memberRef) => LiveAfterLockMember(ring, memberRef, now, evict, k);
      case Move(old_, new_) => LiveAfterMove(ring, old_, new_, now, evict, k);
      case _ =>
    }
  }

  ghost predicate SameLive(a: Option<Unlocked>, b: Option<Unlocked>, hidden: set<int>) {
    (a.Some? <==> b.Some?) && (a.Some? ==> SameEntry(a.value, b.value, hidden))
  }

  lemma LiveNextAlike(a: Ring, b: Ring, op: Op, now: real, hidden: set<int>, k: string)
    requires Alike(a, b, now, hidden)
    ensures SameLive(LiveNext(a, op, now, k), LiveNext(b, op, now, k), hidden)
  {
    assert LiveAt(a, k, now) <==> LiveAt(b, k, now);
    if op.Move? {
      assert LiveAt(a, op.old_, now) <==> LiveAt(b, op.old_, now);
    }
  }

  lemma FrozenAlike(a: Ring, b: Ring, op: Op, now: real, hidden: set<int>, ea: bool, eb: bool)
    requires Alike(a, b, now, hidden)
    ensures forall t | t !in hidden ::
      t in Step(a, op, now, ea).0.frozen <==> t in Step(b, op, now, eb).0.frozen
  {
  }

  lemma ValidNext(ring: Ring, op: Op, now: real, evict: bool)
    requires ring.entries.Valid()
    ensures Step(ring, op, now, evict).0.entries.Valid()
  {
    StepEntries(ring, op, now, evict);
  }

  /** What a call does to the live entries does not depend on the expired ones. */
  lemma AlikeStep(a: Ring, b: Ring, op: Op, now: real, hidden: set<int>, ea: bool, eb: bool, a': Ring, b': Ring)
    requires Alike(a, b, now, hidden) && MoveSafe(a, op, now) && MoveSafe(b, op, now)
    requires a' == Step(a, op, now, ea).0 && b' == Step(b, op, now, eb).0
    ensures Alike(a', b', now, hidden)
  {
    ValidNext(a, op, now, ea);
    ValidNext(b, op, now, eb);
    FrozenAlike(a, b, op, now, hidden, ea, eb);
    forall k
      ensures LiveAt(a', k, now) <==> LiveAt(b', k, now)
      ensures LiveAt(a', k, now) ==> SameEntry(a'.entries.at[k], b'.entries.at[k], hidden)
    {
      LiveAfter(a, op, now, ea, k);
      LiveAfter(b, op, now, eb, k);
      LiveNextAlike(a, b, op, now, hidden, k);
    }
  }

  // Fresh keys, and runs with a household's re-key taken out.

  /** The keys a run has put or moved entries under and not locked, moved away or cleared since. */
  function Used(calls: seq<Call>): set<string>
    decreases |calls|
  {
    if calls == [] then {} else UsedNext(Used(calls[..|calls| - 1]), calls[|calls| - 1].op)
  }

  function UsedNext(used: set<string>, op: Op): set<string> {
    match op
    case Put(key, _, _, _, _) => used + {key}
    case Move(old_, new_) => used - {old_} + {new_}
    case Lock(session) => if session.Some? then used - {session.value} else used
    case Clear => {}
    case _ => used
  }

  /** Every move goes to a key not in use, as a newly minted session id is. */
  predicate FreshMoves(calls: seq<Call>)
    decreases |calls|
  {
    calls == [] ||
    (var before, op := calls[..|calls| - 1], calls[|calls| - 1].op;
     FreshMoves(before) && (op.Move? ==> op.new_ !in Used(before)))
  }

  predicate Controls(op: Op, hidden: set<int>) {
    (op.Freeze? || op.Thaw? || op.ReplaceDataKey?) && op.tenant in hidden
  }

  /** The run without the freezes, thaws and key replacements of these households. */
  function Erase(calls: seq<Call>, hidden: set<int>): seq<Call>
    decreases |calls|
  {
    if calls == [] then []
    else
      var before, last := Erase(calls[..|calls| - 1], hidden), calls[|calls| - 1];
      if Controls(last.op, hidden) then before else before + [last]
  }

  lemma StepUses(ring: Ring, op: Op, now: real, evict: bool, used: set<string>)
    requires ring.entries.Valid() && ring.entries.at.Keys <= used
    ensures Step(ring, op, now, evict).0.entries.at.Keys <= UsedNext(used, op)
  {
    if op.Move? {
      MovedEntries(ring, op.old_, op.new_, now, evict);
    } else {
      StepEntries(ring, op, now, evict);
    }
  }

  lemma {:induction false} EntriesAreUsed(calls: seq<Call>, evict: bool)
    ensures After(EMPTY, calls, evict).entries.at.Keys <= Used(calls)
    decreases |calls|
  {
    if calls != [] {
      var before, last := calls[..|calls| - 1], calls[|calls| - 1];
      EntriesAreUsed(before, evict);
      StepUses(After(EMPTY, before, evict), last.op, last.now, evict, Used(before));
    }
  }

  lemma UsedOneMore(calls: seq<Call>, last: Call)
    ensures Used(calls + [last]) == UsedNext(Used(calls), last.op)
  {
    assert (calls + [last])[..|calls|] == calls;
  }

  lemma {:induction false} ErasedUsesTheSame(calls: seq<Call>, hidden: set<int>)
    ensures Used(Erase(calls, hidden)) == Used(calls)
    decreases |calls|
  {
    if calls != [] {
      var before, last := calls[..|calls| - 1], calls[|calls| - 1];
      var erased := Erase(before, hidden);
      ErasedUsesTheSame(before, hidden);
      assert Used(calls) == UsedNext(Used(before), last.op);
      if Controls(last.op, hidden) {
        assert Erase(calls, hidden) == erased;
      } else {
        assert Erase(calls, hidden) == erased + [last];
        UsedOneMore(erased, last);
      }
    }
  }

  lemma AfterOneMore(calls: seq<Call>, last: Call, evict: bool)
    ensures After(EMPTY, calls + [last], evict)
         == Step(After(EMPTY, calls, evict), last.op, last.now, evict).0
  {
    assert (calls + [last])[..|calls|] == calls;
  }

  lemma HiddenControlLooksAlike(a: Ring, b: Ring, op: Op, now: real, hidden: set<int>, evict: bool)
    requires Alike(a, b, now, hidden) && Controls(op, hidden)
    ensures Alike(Step(a, op, now, evict).0, b, now, hidden)
  {
    StepEntries(a, op, now, evict);
    var a' := Step(a, op, now, evict).0;
    forall k
      ensures LiveAt(a', k, now) <==> LiveAt(b, k, now)
      ensures LiveAt(a', k, now) ==> SameEntry(a'.entries.at[k], b.entries.at[k], hidden)
    {
      LiveAfter(a, op, now, evict, k);
      assert LiveAt(a, k, now) <==> LiveAt(b, k, now);
    }
  }

  lemma {:induction false} RunsLookAlike(
      calls: seq<Call>, hidden: set<int>, now: real, ea: bool, eb: bool)
    requires Monotone(calls) && FreshMoves(calls)
    requires forall i | 0 <= i < |calls| :: calls[i].now <= now
    ensures Alike(After(EMPTY, calls, ea), After(EMPTY, Erase(calls, hidden), eb), now, hidden)
    decreases |calls|
  {
    if calls != [] {
      var before, last := calls[..|calls| - 1], calls[|calls| - 1];
      var erased := Erase(before, hidden);
      RunsLookAlike(before, hidden, last.now, ea, eb);
      var a, b := After(EMPTY, before, ea), After(EMPTY, erased, eb);
      assert calls == before + [last];
      AfterOneMore(before, last, ea);
      if Controls(last.op, hidden) {
        HiddenControlLooksAlike(a, b, last.op, last.now, hidden, ea);
      } else {
        assert MoveSafe(a, last.op, last.now) && MoveSafe(b, last.op, last.now) by {
          EntriesAreUsed(before, ea);
          EntriesAreUsed(erased, eb);
          ErasedUsesTheSame(before, hidden);
        }
        AfterOneMore(erased, last, eb);
        AlikeStep(a, b, last.op, last.now, hidden, ea, eb,
                  After(EMPTY, calls, ea), After(EMPTY, Erase(calls, hidden), eb));
      }
      AlikeLater(After(EMPTY, calls, ea), After(EMPTY, Erase(calls, hidden), eb), last.now, now, hidden);
    }
  }

  lemma {:induction false} EraseNothing(calls: seq<Call>)
    ensures Erase(calls, {}) == calls
    decreases |calls|
  {
    if calls != [] {
      EraseNothing(calls[..|calls| - 1]);
      assert calls == calls[..|calls| - 1] + [calls[|calls| - 1]];
    }
  }

  /** Under a monotone clock and fresh moves no read can tell that expired entries were evicted. */
  lemma LazyEvictionIsInvisible(calls: seq<Call>, call: Call)
    requires Monotone(calls + [call]) && FreshMoves(calls)
    ensures SameReading(call.op, AnswerAfter(EMPTY, calls, call, true),
                        AnswerAfter(EMPTY, calls, call, false), {})
  {
    RunIsMonotone(calls, call);
    EraseNothing(calls);
    RunsLookAlike(calls, {}, call.now, true, false);
    AlikeReadings(After(EMPTY, calls, true), After(EMPTY, calls, false), call.op, call.now, {}, true, false);
  }

  /**
   * Freezing, re-keying and thawing some households changes no `get`, count or frozen flag of the
   * others, nor whether `for_member` finds an entry of theirs. Which entry it finds is another matter:
   * see `KeyRingOrders`.
   */
  lemma OtherHouseholdsSeeNoRekey(calls: seq<Call>, call: Call, hidden: set<int>)
    requires Monotone(calls + [call]) && FreshMoves(calls)
    ensures SameReading(call.op, AnswerAfter(EMPTY, calls, call, true),
                        AnswerAfter(EMPTY, Erase(calls, hidden), call, true), hidden)
  {
    RunIsMonotone(calls, call);
    RunsLookAlike(calls, hidden, call.now, true, true);
    AlikeReadings(After(EMPTY, calls, true), After(EMPTY, Erase(calls, hidden), true),
                  call.op, call.now, hidden, true, true);
  }

  lemma RunIsMonotone(calls: seq<Call>, call: Call)
    requires Monotone(calls + [call])
    ensures Monotone(calls)
    ensures forall i | 0 <= i < |calls| :: calls[i].now <= call.now
  {
    var all := calls + [call];
    forall i | 0 <= i < |calls| ensures calls[i].now <= call.now {
      assert all[i].now <= all[|calls|].now;
    }
    forall i, j | 0 <= i < j < |calls| ensures calls[i].now <= calls[j].now {
      assert all[i].now <= all[j].now;
    }
  }

  // Why moves have to be fresh.

  /**
   * A move makes two rings that agreed on every live entry disagree exactly when one of them had
   * already evicted the expired entry it carries and the target was live.
   */
  lemma MoveDisagreesIff(a: Ring, b: Ring, old_: string, new_: string, now: real, ea: bool, eb: bool)
    requires Alike(a, b, now, {})
    ensures
      !Alike(Step(a, Move(old_, new_), now, ea).0, Step(b, Move(old_, new_), now, eb).0, now, {})
      <==>
      (old_ in a.entries.at) != (old_ in b.entries.at) && LiveAt(a, new_, now)
  {
    var op := Move(old_, new_);
    var a', b' := Step(a, op, now, ea).0, Step(b, op, now, eb).0;
    MovedEntries(a, old_, new_, now, ea);
    MovedEntries(b, old_, new_, now, eb);
    assert LiveAt(a, old_, now) <==> LiveAt(b, old_, now);
    assert LiveAt(a, new_, now) <==> LiveAt(b, new_, now);
    if (old_ in a.entries.at) != (old_ in b.entries.at) && LiveAt(a, new_, now) {
      assert LiveAt(a', new_, now) != LiveAt(b', new_, now);
    } else {
      forall k
        ensures LiveAt(a', k, now) <==> LiveAt(b', k, now)
        ensures LiveAt(a', k, now) ==> SameEntry(a'.entries.at[k], b'.entries.at[k], {})
      {
        assert LiveAt(a, k, now) <==> LiveAt(b, k, now);
      }
    }
  }

  lemma MovedEntries(ring: Ring, old_: string, new_: string, now: real, evict: bool)
    requires ring.entries.Valid()
    ensures
      var ring' := Step(ring, Move(old_, new_), now, evict).0;
      var at := ring.entries.at;
      && ring'.entries.Valid() && ring'.frozen == ring.frozen
      && ring'.entries.at == if old_ in at then (at - {old_})[new_ := at[old_]] else at
  {
  }

  function StaleRing(a: string, b: string, short: Unlocked, long: Unlocked): Ring {
    Ring(Dict([a, b], map[a := short, b := long]), {})
  }

  /** Two unlocks under one TTL, half of it apart. */
  lemma TwoPuts(a: string, b: string, dataKey: DataKey, memberRef: string, ttl: real, evict: bool)
    requires a != b && ttl > 0.0
    ensures After(EMPTY, [Call(Put(a, dataKey, memberRef, None, ttl), 0.0)]
                         + [Call(Put(b, dataKey, memberRef, None, ttl), ttl / 2.0)], evict)
         == StaleRing(a, b, Unlocked(dataKey, memberRef, None, At(ttl)),
                      Unlocked(dataKey, memberRef, None, At(ttl / 2.0 + ttl)))
  {
    var c0 := Call(Put(a, dataKey, memberRef, None, ttl), 0.0);
    var c1 := Call(Put(b, dataKey, memberRef, None, ttl), ttl / 2.0);
    assert [] + [c0] == [c0];
    AfterOneMore([], c0, evict);
    AfterOneMore([c0], c1, evict);
  }

  /**
   * In such a ring, once the first unlock has expired and the second has not (after those two puts,
   * at time `ttl`), a read and then a move that is not fresh: the ring still serves the live unlock,
   * the ring that never evicts has overwritten it with the expired one.
   */
  lemma StaleMoveIsVisible(a: string, b: string, short: Unlocked, long: Unlocked, now: real)
    requires a != b && Expired(short, now) && !Expired(long, now)
    ensures
      var both := StaleRing(a, b, short, long);
      var evicted, kept := Step(both, Get(Some(a)), now, true).0, Step(both, Get(Some(a)), now, false).0;
      && both.entries.Valid() && evicted.entries.Valid() && kept == both
      && var live, stale := Step(evicted, Move(a, b), now, true).0, Step(kept, Move(a, b), now, false).0;
         && live.entries.Valid() && stale.entries.Valid()
         && Step(live, Get(Some(b)), now, true).1 == Entry(Some(long))
         && Step(stale, Get(Some(b)), now, false).1 == Entry(None)
  {
    StaleRead(a, b, short, long, now);
    StaleMove(a, b, short, long, now);
  }

  lemma StaleRead(a: string, b: string, short: Unlocked, long: Unlocked, now: real)
    requires a != b && Expired(short, now)
    ensures
      var both := StaleRing(a, b, short, long);
      && Step(both, Get(Some(a)), now, true).0 == Ring(Dict([b], map[b := long]), {})
      && Step(both, Get(Some(a)), now, false).0 == both
  {
    assert [a, b][1..] == [b] && [b][1..] == [];
    assert Without([b], a) == [b] && Without([a, b], a) == [b];
    assert map[a := short, b := long] - {a} == map[b := long];
  }

  lemma StaleMove(a: string, b: string, short: Unlocked, long: Unlocked, now: real)
    requires a != b && Expired(short, now) && !Expired(long, now)
    ensures
      var onlyB := Ring(Dict([b], map[b := long]), {});
      var stale := Step(StaleRing(a, b, short, long), Move(a, b), now, false).0;
      && Step(onlyB, Move(a, b), now, true).0 == onlyB
      && Step(onlyB, Get(Some(b)), now, true).1 == Entry(Some(long))
      && stale.entries.Valid()
      && Step(stale, Get(Some(b)), now, false).1 == Entry(None)
  {
    MovedEntries(StaleRing(a, b, short, long), a, b, now, false);
  }

  // The class.

  lemma RekeyOneMore(at: map<string, Unlocked>, keys: seq<string>, i: nat, tenant: int, dataKey: DataKey)
    requires i < |keys| && NoDuplicates(keys) && keys[i] in at
    ensures
      var k := keys[i];
      && RekeyedIn(at, keys[..i + 1], tenant, dataKey)
         == RekeyedIn(at, keys[..i], tenant, dataKey)[k := Rekeyed(at[k], tenant, dataKey)]
      && RekeyedIn(at, keys[..i], tenant, dataKey)[k] == at[k]
      && CountOf(at, keys[..i + 1], tenant)
         == CountOf(at, keys[..i], tenant) + if TenantOf(at[k].memberRef) == Some(tenant) then 1 else 0
  {
    assert keys[..i + 1] == keys[..i] + [keys[i]];
    assert keys[i] !in keys[..i];
    assert keys[..i + 1][..i] == keys[..i];
  }

  function LiveIn(at: map<string, Unlocked>, keys: seq<string>, now: real): set<string> {
    set k | k in keys && k in at && !Expired(at[k], now)
  }

  lemma LiveInOneMore(at: map<string, Unlocked>, keys: seq<string>, i: nat, now: real)
    requires i < |keys| && NoDuplicates(keys) && keys[i] in at
    ensures |LiveIn(at, keys[..i + 1], now)|
         == |LiveIn(at, keys[..i], now)| + if Expired(at[keys[i]], now) then 0 else 1
  {
    assert keys[..i + 1] == keys[..i] + [keys[i]];
    assert keys[i] !in keys[..i];
    if Expired(at[keys[i]], now) {
      assert LiveIn(at, keys[..i + 1], now) == LiveIn(at, keys[..i], now);
    } else {
      assert LiveIn(at, keys[..i + 1], now) == LiveIn(at, keys[..i], now) + {keys[i]};
    }
  }

  lemma ReplaceStep(ring: Ring, tenant: int, dataKey: DataKey, now: real)
    requires ring.entries.Valid()
    ensures
      var Dict(order, at) := ring.entries;
      Step(ring, ReplaceDataKey(tenant, dataKey), now, true)
      == (Ring(Dict(order, RekeyedIn(at, order, tenant, dataKey)), ring.frozen),
          Number(CountOf(at, order, tenant)))
  {
    var Dict(order, at) := ring.entries;
    assert RekeyedIn(at, order, tenant, dataKey) == map k | k in at :: Rekeyed(at[k], tenant, dataKey);
  }

  class KeyRing {
    var entries: Dict<Unlocked>
    var frozen: set<int>

    constructor ()
      ensures View() == EMPTY && Valid()
    {
      entries, frozen := Dict([], map[]), {};
    }

    ghost function View(): Ring
      reads this
    {
      Ring(entries, frozen)
    }

    ghost predicate Valid()
      reads this
    {
      entries.Valid()
    }

    method Put(sessionKey: string, dataKey: DataKey, memberRef: string, privateKey: Option<Bytes>,
               ttl: real, now: real) returns (entry: Unlocked)
      requires Valid()
      modifies this
      ensures Valid()
      ensures Step(old(View()), Op.Put(sessionKey, dataKey, memberRef, privateKey, ttl), now, true)
           == (View(), Entry(Some(entry)))
    {
      var expires := if ttl > 0.0 then At(now + ttl) else Never;
      entry := Unlocked(dataKey, memberRef, privateKey, expires);
      entries := entries.Put(sessionKey, entry);
    }

    method Get(sessionKey: Option<string>, now: real) returns (entry: Option<Unlocked>)
      requires Valid()
      modifies this
      ensures Valid()
      ensures Step(old(View()), Op.Get(sessionKey), now, true) == (View(), Entry(entry))
    {
      if sessionKey.None? || sessionKey.value !in entries.at {
        return None;
      }
      var e := entries.at[sessionKey.value];
      if Expired(e, now) {
        entries := entries.Pop(sessionKey.value);
        return None;
      }
      if FrozenRef(Ring(entries, frozen), e.memberRef) {
        return None;
      }
      return Some(e);
    }

    method ForMember(memberRef: string, now: real) returns (entry: Option<Unlocked>)
      requires Valid()
      modifies this
      ensures Valid()
      ensures Step(old(View()), Op.ForMember(memberRef), now, true) == (View(), Entry(entry))
    {
      var items, order := entries.at, entries.order;
      var blocked := FrozenRef(Ring(entries, frozen), memberRef);
      var i := 0;
      while i < |order|
        invariant 0 <= i <= |order|
        invariant entries.Valid() && frozen == old(frozen)
        invariant Scan(entries, items, order[i..], memberRef, blocked, now, true)
               == Scan(old(entries), items, order, memberRef, blocked, now, true)
      {
        var key := order[i];
        assert order[i..][1..] == order[i + 1..];
        if Expired(items[key], now) {
          entries := entries.Pop(key);
        } else if items[key].memberRef == memberRef && !blocked {
          return Some(items[key]);
        }
        i := i + 1;
      }
      return None;
    }

    method Lock(sessionKey: Option<string>)
      requires Valid()
      modifies this
      ensures Valid()
      ensures forall now :: Step(old(View()), Op.Lock(sessionKey), now, true) == (View(), Done)
    {
      if sessionKey.Some? {
        entries := entries.Pop(sessionKey.value);
      }
    }

    method LockMember(memberRef: string) returns (dropped: nat)
      requires Valid()
      modifies this
      ensures Valid()
      ensures forall now :: Step(old(View()), Op.LockMember(memberRef), now, true) == (View(), Number(dropped))
    {
      var keys := KeysOfMember(entries.at, entries.order, memberRef);
      dropped := |keys|;
      var i := 0;
      while i < |keys|
        invariant 0 <= i <= |keys|
        invariant entries.Valid() && frozen == old(frozen)
        invariant PopAll(entries, keys[i..]) == PopAll(old(entries), keys)
      {
        assert keys[i..][1..] == keys[i + 1..];
        entries := entries.Pop(keys[i]);
        i := i + 1;
      }
    }

    method Freeze(tenant: int)
      modifies this
      ensures entries == old(entries) && frozen == old(frozen) + {tenant}
    {
      frozen := frozen + {tenant};
    }

    method Thaw(tenant: int)
      modifies this
      ensures entries == old(entries) && frozen == old(frozen) - {tenant}
    {
      frozen := frozen - {tenant};
    }

    /** The loop of `replace_data_key`. */
    method RekeyEach(tenant: int, dataKey: DataKey) returns (replaced: nat)
      requires NoDuplicates(entries.order)
      requires forall j | 0 <= j < |entries.order| :: entries.order[j] in entries.at
      modifies this
      ensures frozen == old(frozen) && entries.order == old(entries).order
      ensures entries.at == RekeyedIn(old(entries).at, old(entries).order, tenant, dataKey)
      ensures replaced == CountOf(old(entries).at, old(entries).order, tenant)
    {
      var items, order := entries.at, entries.order;
      replaced := 0;
      var i := 0;
      while i < |order|
        invariant 0 <= i <= |order|
        invariant frozen == old(frozen) && entries.order == order
        invariant replaced == CountOf(items, order[..i], tenant)
        invariant entries.at == RekeyedIn(items, order[..i], tenant, dataKey)
      {
        var key := order[i];
        RekeyOneMore(items, order, i, tenant, dataKey);
        if TenantOf(items[key].memberRef) == Some(tenant) {
          entries := entries.Put(key, items[key].(dataKey := dataKey));
          replaced := replaced + 1;
        } else {
          assert entries.at[key := items[key]] == entries.at;
        }
        i := i + 1;
      }
      assert order[..i] == order;
    }

    method ReplaceDataKey(tenant: int, dataKey: DataKey) returns (replaced: nat)
      requires Valid()
      modifies this
      ensures Valid()
      ensures forall now :: Step(old(View()), Op.ReplaceDataKey(tenant, dataKey), now, true)
                         == (View(), Number(replaced))
    {
      replaced := RekeyEach(tenant, dataKey);
      forall now ensures Step(old(View()), Op.ReplaceDataKey(tenant, dataKey), now, true)
                      == (View(), Number(replaced)) {
        ReplaceStep(old(View()), tenant, dataKey, now);
      }
    }

    method Move(oldKey: string, newKey: string)
      requires Valid()
      modifies this
      ensures Valid()
      ensures forall now :: Step(old(View()), Op.Move(oldKey, newKey), now, true) == (View(), Done)
    {
      if oldKey in entries.at {
        var entry := entries.at[oldKey];
        entries := entries.Pop(oldKey);
        entries := entries.Put(newKey, entry);
      }
    }

    method IsFrozen(tenant: int) returns (yes: bool)
      requires Valid()
      ensures forall now :: Step(View(), Op.IsFrozen(tenant), now, true) == (View(), Flag(yes))
    {
      yes := tenant in frozen;
    }

    method Count(now: real) returns (n: nat)
      requires Valid()
      ensures Step(View(), Op.Count, now, true) == (View(), Number(n))
    {
      var at, order := entries.at, entries.order;
      n := 0;
      var i := 0;
      while i < |order|
        invariant 0 <= i <= |order| && n == |LiveIn(at, order[..i], now)|
      {
        LiveInOneMore(at, order, i, now);
        if !Expired(at[order[i]], now) {
          n := n + 1;
        }
        i := i + 1;
      }
      assert order[..i] == order;
      assert LiveIn(at, order, now) == LiveKeys(View(), now);
    }

    method Clear()
      modifies this
      ensures Valid() && View() == EMPTY
    {
      entries, frozen := Dict([], map[]), {};
    }
  }
}
