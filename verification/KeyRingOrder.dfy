/** Which unlock of a member `for_member` answers: the order of the live entries. */
module KeyRingOrders {
  import opened Common
  import opened OrderedDicts
  import opened MemberRefs
  import opened KeyRings

  /** The keys of `s` that are in `kept`, in their order. */
  function Kept(s: seq<string>, kept: set<string>): seq<string> {
    if s == [] then [] else (if s[0] in kept then [s[0]] else []) + Kept(s[1..], kept)
  }

  lemma Associates(a: seq<string>, b: seq<string>, c: seq<string>)
    ensures a + (b + c) == a + b + c
  {
  }

  lemma {:induction false} KeptConcat(a: seq<string>, b: seq<string>, kept: set<string>)
    ensures Kept(a + b, kept) == Kept(a, kept) + Kept(b, kept)
  {
    if a == [] {
      assert a + b == b;
    } else {
      var head := if a[0] in kept then [a[0]] else [];
      KeptConcat(a[1..], b, kept);
      assert (a + b)[0] == a[0] && (a + b)[1..] == a[1..] + b;
      assert Kept(a + b, kept) == head + Kept(a[1..] + b, kept);
      assert Kept(a, kept) == head + Kept(a[1..], kept);
      Associates(head, Kept(a[1..], kept), Kept(b, kept));
    }
  }

  lemma KeptOne(k: string, kept: set<string>)
    ensures Kept([k], kept) == if k in kept then [k] else []
  {
    assert [k][1..] == [];
  }

  lemma {:induction false} KeptTwice(s: seq<string>, more: set<string>, fewer: set<string>)
    requires fewer <= more
    ensures Kept(Kept(s, more), fewer) == Kept(s, fewer)
  {
    if s != [] {
      KeptTwice(s[1..], more, fewer);
      var head := if s[0] in more then [s[0]] else [];
      KeptConcat(head, Kept(s[1..], more), fewer);
      KeptOne(s[0], fewer);
    }
  }

  /** Only the keys that occur matter. */
  lemma {:induction false} KeptAgrees(s: seq<string>, a: set<string>, b: set<string>)
    requires forall i | 0 <= i < |s| :: s[i] in a <==> s[i] in b
    ensures Kept(s, a) == Kept(s, b)
  {
    if s != [] {
      KeptAgrees(s[1..], a, b);
    }
  }

  lemma {:induction false} KeptAll(s: seq<string>, kept: set<string>)
    requires forall i | 0 <= i < |s| :: s[i] in kept
    ensures Kept(s, kept) == s
  {
    if s != [] {
      KeptAll(s[1..], kept);
    }
  }

  lemma {:induction false} KeptMembers(s: seq<string>, kept: set<string>)
    ensures forall k :: k in Kept(s, kept) <==> k in s && k in kept
  {
    if s != [] {
      KeptMembers(s[1..], kept);
    }
  }

  lemma {:induction false} WithoutIsKept(s: seq<string>, k: string, kept: set<string>)
    requires forall i | 0 <= i < |s| :: s[i] in kept <==> s[i] != k
    ensures Without(s, k) == Kept(s, kept)
  {
    if s != [] {
      WithoutIsKept(s[1..], k, kept);
    }
  }

  /** The live keys, oldest place first. */
  function LiveOrder(ring: Ring, now: real): seq<string> {
    Kept(ring.entries.order, LiveKeys(ring, now))
  }

  // `for_member` answers the first live entry of the member.

  function FirstOf(at: map<string, Unlocked>, keys: seq<string>, memberRef: string): Option<Unlocked> {
    if keys == [] then None
    else if keys[0] in at && at[keys[0]].memberRef == memberRef then Some(at[keys[0]])
    else FirstOf(at, keys[1..], memberRef)
  }

  lemma {:induction false} ScanFindsFirst(
      d: Dict<Unlocked>, items: map<string, Unlocked>, keys: seq<string>, live: set<string>,
      memberRef: string, now: real, evict: bool)
    requires forall k | k in keys :: k in items
    requires live == set k | k in items && !Expired(items[k], now)
    ensures Scan(d, items, keys, memberRef, false, now, evict).1 == FirstOf(items, Kept(keys, live), memberRef)
    decreases |keys|
  {
    if keys != [] {
      assert forall k | k in keys[1..] :: k in keys;
      var k0, rest := keys[0], Kept(keys[1..], live);
      if Expired(items[k0], now) {
        ScanFindsFirst(if evict then d.Pop(k0) else d, items, keys[1..], live, memberRef, now, evict);
        assert Kept(keys, live) == rest;
      } else {
        ScanFindsFirst(d, items, keys[1..], live, memberRef, now, evict);
        assert Kept(keys, live) == [k0] + rest && ([k0] + rest)[1..] == rest;
      }
    }
  }

  /** `for_member` answers the first entry of the member in the order of the live ones. */
  lemma ForMemberAnswersFirst(ring: Ring, memberRef: string, now: real, evict: bool)
    requires ring.entries.Valid()
    ensures Step(ring, ForMember(memberRef), now, evict).1
         == Entry(if FrozenRef(ring, memberRef) then None
                  else FirstOf(ring.entries.at, LiveOrder(ring, now), memberRef))
  {
    var d := ring.entries;
    if FrozenRef(ring, memberRef) {
      FoundIffLive(ring, memberRef, now, evict);
    } else {
      ScanFindsFirst(d, d.at, d.order, LiveKeys(ring, now), memberRef, now, evict);
    }
  }

  // Calls that only take entries away keep the order of the rest.

  ghost predicate Reduces(d: Dict<Unlocked>, d': Dict<Unlocked>) {
    d'.at.Keys <= d.at.Keys && d'.order == Kept(d.order, d'.at.Keys)
  }

  lemma ReducesItself(d: Dict<Unlocked>)
    requires d.Valid()
    ensures Reduces(d, d)
  {
    KeptAll(d.order, d.at.Keys);
  }

  lemma ReducesTwice(a: Dict<Unlocked>, b: Dict<Unlocked>, c: Dict<Unlocked>)
    requires Reduces(a, b) && Reduces(b, c)
    ensures Reduces(a, c)
  {
    KeptTwice(a.order, b.at.Keys, c.at.Keys);
  }

  lemma PopReduces(d: Dict<Unlocked>, k: string)
    requires d.Valid()
    ensures Reduces(d, d.Pop(k)) && d.Pop(k).Valid()
  {
    if k in d.at {
      WithoutIsKept(d.order, k, d.at.Keys - {k});
      assert d.Pop(k).at.Keys == d.at.Keys - {k};
    } else {
      ReducesItself(d);
    }
  }

  lemma {:induction false} ScanReduces(
      d: Dict<Unlocked>, items: map<string, Unlocked>, keys: seq<string>,
      memberRef: string, blocked: bool, now: real, evict: bool)
    requires d.Valid() && (forall k | k in keys :: k in items)
    ensures Reduces(d, Scan(d, items, keys, memberRef, blocked, now, evict).0)
    decreases |keys|
  {
    ReducesItself(d);
    if keys != [] {
      assert forall k | k in keys[1..] :: k in keys;
      var e := items[keys[0]];
      if Expired(e, now) && evict {
        PopReduces(d, keys[0]);
        ScanReduces(d.Pop(keys[0]), items, keys[1..], memberRef, blocked, now, evict);
        ReducesTwice(d, d.Pop(keys[0]), Scan(d, items, keys, memberRef, blocked, now, evict).0);
      } else if Expired(e, now) || e.memberRef != memberRef || blocked {
        ScanReduces(d, items, keys[1..], memberRef, blocked, now, evict);
      }
    }
  }

  lemma {:induction false} PopAllReduces(d: Dict<Unlocked>, keys: seq<string>)
    requires d.Valid()
    ensures Reduces(d, PopAll(d, keys))
    decreases |keys|
  {
    ReducesItself(d);
    if keys != [] {
      PopReduces(d, keys[0]);
      PopAllReduces(d.Pop(keys[0]), keys[1..]);
      ReducesTwice(d, d.Pop(keys[0]), PopAll(d, keys));
    }
  }

  lemma StepReduces(ring: Ring, op: Op, now: real, evict: bool)
    requires ring.entries.Valid() && !op.Put? && !op.Move?
    ensures Reduces(ring.entries, Step(ring, op, now, evict).0.entries)
  {
    var d := ring.entries;
    ReducesItself(d);
    match op {
      case Get(session) =>
        if session.Some? {
          PopReduces(d, session.value);
        }
      case ForMember(memberRef) =>
        ScanReduces(d, d.at, d.order, memberRef, FrozenRef(ring, memberRef), now, evict);
      case Lock(session) =>
        if session.Some? {
          PopReduces(d, session.value);
        }
      case LockMember(memberRef) => PopAllReduces(d, KeysOfMember(d.at, d.order, memberRef));
      case ReplaceDataKey(tenant, dataKey) =>
        assert Step(ring, op, now, evict).0.entries.at.Keys == d.at.Keys;
      case Clear =>
        KeptNothing(d.order);
        assert EMPTY.entries.at.Keys == {};
      case _ =>
    }
  }

  lemma {:induction false} KeptNothing(s: seq<string>)
    ensures Kept(s, {}) == []
  {
    if s != [] {
      KeptNothing(s[1..]);
    }
  }

  /** After such a call the live order is the old one, cut down to what is still live. */
  lemma ReducedLiveOrder(ring: Ring, op: Op, now: real, evict: bool, ring': Ring)
    requires ring.entries.Valid() && !op.Put? && !op.Move? && ring' == Step(ring, op, now, evict).0
    ensures LiveOrder(ring', now) == Kept(LiveOrder(ring, now), LiveKeys(ring', now))
  {
    StepReduces(ring, op, now, evict);
    forall k | k in LiveKeys(ring', now) ensures k in LiveKeys(ring, now) {
      LiveAfter(ring, op, now, evict, k);
    }
    KeptTwice(ring.entries.order, ring'.entries.at.Keys, LiveKeys(ring', now));
    KeptTwice(ring.entries.order, LiveKeys(ring, now), LiveKeys(ring', now));
  }

  // Moves and puts.

  /** Taking `old_` out of an order and putting `new_` at its end. */
  lemma MovedOrder(order: seq<string>, held: set<string>, old_: string, new_: string, live: set<string>, live': set<string>)
    requires (forall i | 0 <= i < |order| :: order[i] in held) && new_ !in held && live <= held
    requires forall k | k in held && k != old_ :: k in live' <==> k in live
    ensures Kept(Without(order, old_) + [new_], live')
         == Kept(Kept(order, live), live - {old_}) + if new_ in live' then [new_] else []
  {
    var rest := Kept(order, held - {old_});
    WithoutIsKept(order, old_, held - {old_});
    KeptTwice(order, live, live - {old_});
    KeptTwice(order, held - {old_}, live - {old_});
    KeptConcat(rest, [new_], live');
    KeptMembers(order, held - {old_});
    forall i | 0 <= i < |rest| ensures rest[i] in live' <==> rest[i] in live - {old_} {
      assert rest[i] in rest;
    }
    KeptAgrees(rest, live', live - {old_});
    KeptOne(new_, live');
  }

  /** A move to a key the ring does not hold puts a live entry at the end. */
  lemma MovedLiveOrder(ring: Ring, old_: string, new_: string, now: real, evict: bool, ring': Ring)
    requires ring.entries.Valid() && ring' == Step(ring, Move(old_, new_), now, evict).0
    requires new_ !in ring.entries.at
    ensures LiveOrder(ring', now)
         == Kept(LiveOrder(ring, now), LiveKeys(ring, now) - {old_}) + if LiveAt(ring, old_, now) then [new_] else []
  {
    var d, live, live' := ring.entries, LiveKeys(ring, now), LiveKeys(ring', now);
    if old_ in d.at {
      MovedEntries(ring, old_, new_, now, evict);
      assert ring'.entries.order == Without(d.order, old_) + [new_];
      MovedOrder(d.order, d.at.Keys, old_, new_, live, live');
    } else {
      assert live - {old_} == live;
      KeptTwice(d.order, live, live);
    }
  }

  /** The live keys that stand behind the place of `key`. */
  function LiveBehind(ring: Ring, key: string, now: real): seq<string> {
    Kept(Behind(ring.entries.order, key), LiveKeys(ring, now))
  }

  function LiveAhead(ring: Ring, key: string, now: real): seq<string> {
    Kept(Ahead(ring.entries.order, key), LiveKeys(ring, now))
  }

  lemma PutKeepsValid(ring: Ring, op: Op, now: real, evict: bool)
    requires ring.entries.Valid() && op.Put?
    ensures
      var ring' := Step(ring, op, now, evict).0;
      && ring'.entries.Valid() && ring'.frozen == ring.frozen
      && LiveKeys(ring', now) == LiveKeys(ring, now) + {op.key}
      && ring'.entries.order == if op.key in ring.entries.at then ring.entries.order else ring.entries.order + [op.key]
  {
  }

  /** A put over an entry that is not live gives its key the place it has, or the last one. */
  lemma PutLiveOrder(ring: Ring, op: Op, now: real, evict: bool, ring': Ring)
    requires ring.entries.Valid() && op.Put? && !LiveAt(ring, op.key, now)
    requires ring' == Step(ring, op, now, evict).0
    ensures LiveOrder(ring, now) == LiveAhead(ring, op.key, now) + LiveBehind(ring, op.key, now)
    ensures LiveOrder(ring', now) == LiveAhead(ring, op.key, now) + [op.key] + LiveBehind(ring, op.key, now)
    ensures op.key !in LiveOrder(ring, now)
  {
    var order, key, live := ring.entries.order, op.key, LiveKeys(ring, now);
    var a, b := Ahead(order, key), Behind(order, key);
    PutKeepsValid(ring, op, now, evict);
    AheadAndBehind(order, key);
    KeptMembers(order, live);
    PutSplits(order, a, b, key, live);
  }

  lemma PutSplits(order: seq<string>, a: seq<string>, b: seq<string>, key: string, live: set<string>)
    requires NoDuplicates(order) && key !in live
    requires a == Ahead(order, key) && b == Behind(order, key)
    requires order == a + (if key in order then [key] else []) + b
    ensures Kept(order, live) == Kept(a, live) + Kept(b, live)
    ensures Kept(if key in order then order else order + [key], live + {key})
         == Kept(a, live) + [key] + Kept(b, live)
  {
    if key in order {
      KeyOnce(order, a, b, key);
      KeptAround(a, b, key, live);
      KeptAround(a, b, key, live + {key});
      KeptAgrees(a, live + {key}, live);
      KeptAgrees(b, live + {key}, live);
    } else {
      NothingBehind(order, key);
      assert order == a;
      KeptConcat(order, [key], live + {key});
      KeptAgrees(order, live + {key}, live);
      KeptOne(key, live + {key});
    }
  }

  lemma KeptAround(a: seq<string>, b: seq<string>, key: string, kept: set<string>)
    ensures Kept(a + [key] + b, kept) == Kept(a, kept) + (if key in kept then [key] else []) + Kept(b, kept)
  {
    KeptConcat(a + [key], b, kept);
    KeptConcat(a, [key], kept);
    KeptOne(key, kept);
  }

  /**
   * A put makes two rings that agreed on every live entry and their order disagree on the order
   * exactly when the key is not live and different live entries stand behind its place: one ring
   * still held the expired entry ahead of a live one, say, and the other had evicted it.
   */
  lemma PutDisagreesIff(a: Ring, b: Ring, op: Op, now: real, hidden: set<int>, ea: bool, eb: bool)
    requires Alike(a, b, now, hidden) && LiveOrder(a, now) == LiveOrder(b, now) && op.Put?
    ensures
      LiveOrder(Step(a, op, now, ea).0, now) != LiveOrder(Step(b, op, now, eb).0, now)
      <==>
      !LiveAt(a, op.key, now) && LiveBehind(a, op.key, now) != LiveBehind(b, op.key, now)
    ensures op.key !in b.entries.at ==> LiveBehind(b, op.key, now) == []
  {
    var key := op.key;
    var a', b' := Step(a, op, now, ea).0, Step(b, op, now, eb).0;
    assert LiveAt(a, key, now) <==> LiveAt(b, key, now);
    if LiveAt(a, key, now) {
      PutOverLive(a, op, now, ea, a');
      PutOverLive(b, op, now, eb, b');
    } else {
      PutLiveOrder(a, op, now, ea, a');
      PutLiveOrder(b, op, now, eb, b');
      PlacesDiffer(LiveAhead(a, key, now), LiveBehind(a, key, now), LiveAhead(b, key, now), LiveBehind(b, key, now), key);
    }
    if key !in b.entries.at {
      NothingBehind(b.entries.order, key);
    }
  }

  lemma PutOverLive(ring: Ring, op: Op, now: real, evict: bool, ring': Ring)
    requires ring.entries.Valid() && op.Put? && LiveAt(ring, op.key, now)
    requires ring' == Step(ring, op, now, evict).0
    ensures LiveOrder(ring', now) == LiveOrder(ring, now)
  {
    PutKeepsValid(ring, op, now, evict);
    assert LiveKeys(ring, now) + {op.key} == LiveKeys(ring, now);
  }

  lemma PlacesDiffer(a: seq<string>, b: seq<string>, c: seq<string>, d: seq<string>, key: string)
    requires a + b == c + d && key !in a + b
    ensures a + [key] + b == c + [key] + d <==> b == d
  {
    if |a| == |c| {
      assert a == (a + b)[..|a|] && c == (c + d)[..|c|];
      assert b == (a + b)[|a|..] && d == (c + d)[|c|..];
    } else {
      assert |b| != |d|;
      var i := if |a| < |c| then |a| else |c|;
      var x, y := a + [key] + b, c + [key] + d;
      assert |a| < |c| ==> x[i] == key && y[i] == (a + b)[i];
      assert |c| < |a| ==> y[i] == key && x[i] == (a + b)[i];
    }
  }

  // Whole runs.

  /** Every put goes to a key not in use, or over an entry that is still live. */
  predicate FreshPuts(calls: seq<Call>)
    decreases |calls|
  {
    calls == [] ||
    (var before, last := calls[..|calls| - 1], calls[|calls| - 1];
     FreshPuts(before)
     && (last.op.Put? ==>
           last.op.key !in Used(before) || LiveAt(After(EMPTY, before, true), last.op.key, last.now)))
  }

  /** The call puts over a live entry or a key neither ring holds, and moves to such a key. */
  ghost predicate FreshFor(a: Ring, b: Ring, op: Op, now: real) {
    && (op.Put? ==> LiveAt(a, op.key, now) || (op.key !in a.entries.at && op.key !in b.entries.at))
    && (op.Move? ==> op.new_ !in a.entries.at && op.new_ !in b.entries.at)
  }

  lemma AlikeLiveKeys(a: Ring, b: Ring, now: real, hidden: set<int>)
    requires Alike(a, b, now, hidden)
    ensures LiveKeys(a, now) == LiveKeys(b, now)
  {
    forall k ensures k in LiveKeys(a, now) <==> k in LiveKeys(b, now) {
      assert LiveAt(a, k, now) <==> LiveAt(b, k, now);
    }
  }

  lemma PutLast(ring: Ring, op: Op, now: real, evict: bool, ring': Ring)
    requires ring.entries.Valid() && op.Put? && op.key !in ring.entries.at
    requires ring' == Step(ring, op, now, evict).0
    ensures LiveOrder(ring', now) == LiveOrder(ring, now) + [op.key]
  {
    PutLiveOrder(ring, op, now, evict, ring');
    NothingBehind(ring.entries.order, op.key);
  }

  lemma OrderStep(a: Ring, b: Ring, op: Op, now: real, hidden: set<int>, ea: bool, eb: bool, a': Ring, b': Ring)
    requires Alike(a, b, now, hidden) && LiveOrder(a, now) == LiveOrder(b, now) && FreshFor(a, b, op, now)
    requires a' == Step(a, op, now, ea).0 && b' == Step(b, op, now, eb).0 && Alike(a', b', now, hidden)
    ensures LiveOrder(a', now) == LiveOrder(b', now)
  {
    AlikeLiveKeys(a, b, now, hidden);
    AlikeLiveKeys(a', b', now, hidden);
    if op.Put? {
      assert LiveAt(a, op.key, now) <==> LiveAt(b, op.key, now);
      if LiveAt(a, op.key, now) {
        PutOverLive(a, op, now, ea, a');
        PutOverLive(b, op, now, eb, b');
      } else {
        PutLast(a, op, now, ea, a');
        PutLast(b, op, now, eb, b');
      }
    } else if op.Move? {
      assert LiveAt(a, op.old_, now) <==> LiveAt(b, op.old_, now);
      MovedLiveOrder(a, op.old_, op.new_, now, ea, a');
      MovedLiveOrder(b, op.old_, op.new_, now, eb, b');
    } else {
      ReducedLiveOrder(a, op, now, ea, a');
      ReducedLiveOrder(b, op, now, eb, b');
    }
  }

  /** A freeze, a thaw or a replaced key moves nothing. */
  lemma ControlKeepsOrder(ring: Ring, op: Op, now: real, hidden: set<int>, evict: bool, ring': Ring)
    requires ring.entries.Valid() && Controls(op, hidden) && ring' == Step(ring, op, now, evict).0
    ensures LiveOrder(ring', now) == LiveOrder(ring, now)
  {
    ReducedLiveOrder(ring, op, now, evict, ring');
    forall k ensures k in LiveKeys(ring', now) <==> k in LiveKeys(ring, now) {
      LiveAfter(ring, op, now, evict, k);
    }
    assert LiveKeys(ring', now) == LiveKeys(ring, now);
    KeptTwice(ring.entries.order, LiveKeys(ring, now), LiveKeys(ring, now));
  }

  lemma OrderLater(a: Ring, b: Ring, now: real, later: real, hidden: set<int>)
    requires Alike(a, b, later, hidden) && LiveOrder(a, now) == LiveOrder(b, now) && now <= later
    ensures LiveOrder(a, later) == LiveOrder(b, later)
  {
    AlikeLiveKeys(a, b, later, hidden);
    KeptTwice(a.entries.order, LiveKeys(a, now), LiveKeys(a, later));
    KeptTwice(b.entries.order, LiveKeys(b, now), LiveKeys(b, later));
  }

  lemma RunIsFresh(before: seq<Call>, last: Call, hidden: set<int>, eb: bool)
    requires FreshMoves(before + [last]) && FreshPuts(before + [last])
    ensures FreshMoves(before) && FreshPuts(before)
    ensures FreshFor(After(EMPTY, before, true), After(EMPTY, Erase(before, hidden), eb), last.op, last.now)
  {
    assert (before + [last])[..|before|] == before;
    EntriesAreUsed(before, true);
    EntriesAreUsed(Erase(before, hidden), eb);
    ErasedUsesTheSame(before, hidden);
  }

  lemma OneMoreKeepsOrder(before: seq<Call>, last: Call, hidden: set<int>, eb: bool)
    requires FreshMoves(before + [last]) && FreshPuts(before + [last])
    requires
      var a, b := After(EMPTY, before, true), After(EMPTY, Erase(before, hidden), eb);
      Alike(a, b, last.now, hidden) && LiveOrder(a, last.now) == LiveOrder(b, last.now)
    requires Alike(After(EMPTY, before + [last], true), After(EMPTY, Erase(before + [last], hidden), eb), last.now, hidden)
    ensures LiveOrder(After(EMPTY, before + [last], true), last.now)
         == LiveOrder(After(EMPTY, Erase(before + [last], hidden), eb), last.now)
  {
    var a, b := After(EMPTY, before, true), After(EMPTY, Erase(before, hidden), eb);
    assert (before + [last])[..|before|] == before;
    AfterOneMore(before, last, true);
    if Controls(last.op, hidden) {
      ControlKeepsOrder(a, last.op, last.now, hidden, true, After(EMPTY, before + [last], true));
    } else {
      AfterOneMore(Erase(before, hidden), last, eb);
      RunIsFresh(before, last, hidden, eb);
      OrderStep(a, b, last.op, last.now, hidden, true, eb,
                After(EMPTY, before + [last], true), After(EMPTY, Erase(before + [last], hidden), eb));
    }
  }

  lemma {:induction false} RunsKeepOrder(calls: seq<Call>, hidden: set<int>, now: real, eb: bool)
    requires Monotone(calls) && FreshMoves(calls) && FreshPuts(calls)
    requires forall i | 0 <= i < |calls| :: calls[i].now <= now
    ensures LiveOrder(After(EMPTY, calls, true), now) == LiveOrder(After(EMPTY, Erase(calls, hidden), eb), now)
    decreases |calls|
  {
    if calls != [] {
      var before, last := calls[..|calls| - 1], calls[|calls| - 1];
      assert calls == before + [last];
      RunsKeepOrder(before, hidden, last.now, eb);
      RunsLookAlike(before, hidden, last.now, true, eb);
      RunsLookAlike(calls, hidden, last.now, true, eb);
      OneMoreKeepsOrder(before, last, hidden, eb);
      RunsLookAlike(calls, hidden, now, true, eb);
      OrderLater(After(EMPTY, calls, true), After(EMPTY, Erase(calls, hidden), eb), last.now, now, hidden);
    }
  }

  lemma {:induction false} FirstAlike(a: Ring, b: Ring, keys: seq<string>, memberRef: string, now: real, hidden: set<int>)
    requires Alike(a, b, now, hidden) && (forall i | 0 <= i < |keys| :: LiveAt(a, keys[i], now))
    requires TenantOf(memberRef).Some? ==> TenantOf(memberRef).value !in hidden
    ensures FirstOf(a.entries.at, keys, memberRef) == FirstOf(b.entries.at, keys, memberRef)
    decreases |keys|
  {
    if keys != [] {
      assert LiveAt(b, keys[0], now);
      FirstAlike(a, b, keys[1..], memberRef, now, hidden);
    }
  }

  /** `for_member` answers the same entry, to a member outside `hidden`. */
  predicate SameFound(op: Op, a: Answer, b: Answer, hidden: set<int>) {
    op.ForMember? && (TenantOf(op.memberRef).Some? ==> TenantOf(op.memberRef).value !in hidden) ==> a == b
  }

  lemma SameOrderSameFound(a: Ring, b: Ring, op: Op, now: real, hidden: set<int>, ea: bool, eb: bool)
    requires Alike(a, b, now, hidden) && LiveOrder(a, now) == LiveOrder(b, now)
    ensures SameFound(op, Step(a, op, now, ea).1, Step(b, op, now, eb).1, hidden)
  {
    if op.ForMember? && (TenantOf(op.memberRef).Some? ==> TenantOf(op.memberRef).value !in hidden) {
      var keys := LiveOrder(a, now);
      ForMemberAnswersFirst(a, op.memberRef, now, ea);
      ForMemberAnswersFirst(b, op.memberRef, now, eb);
      KeptMembers(a.entries.order, LiveKeys(a, now));
      forall i | 0 <= i < |keys| ensures LiveAt(a, keys[i], now) {
        assert keys[i] in keys;
      }
      FirstAlike(a, b, keys, op.memberRef, now, hidden);
    }
  }

  /**
   * With fresh moves and puts, taking all freezes, thaws and replacements of some households out of
   * a run changes no entry `for_member` answers to the others.
   */
  lemma ForMemberSeesNoRekey(calls: seq<Call>, call: Call, hidden: set<int>)
    requires Monotone(calls + [call]) && FreshMoves(calls) && FreshPuts(calls)
    ensures SameFound(call.op, AnswerAfter(EMPTY, calls, call, true),
                      AnswerAfter(EMPTY, Erase(calls, hidden), call, true), hidden)
  {
    RunIsMonotone(calls, call);
    RunsLookAlike(calls, hidden, call.now, true, true);
    RunsKeepOrder(calls, hidden, call.now, true);
    SameOrderSameFound(After(EMPTY, calls, true), After(EMPTY, Erase(calls, hidden), true),
                       call.op, call.now, hidden, true, true);
  }

  /** And under the same condition it answers as a ring that never evicts. */
  lemma ForMemberSeesNoEviction(calls: seq<Call>, call: Call)
    requires Monotone(calls + [call]) && FreshMoves(calls) && FreshPuts(calls)
    ensures SameFound(call.op, AnswerAfter(EMPTY, calls, call, true), AnswerAfter(EMPTY, calls, call, false), {})
  {
    RunIsMonotone(calls, call);
    EraseNothing(calls);
    RunsLookAlike(calls, {}, call.now, true, false);
    RunsKeepOrder(calls, {}, call.now, false);
    SameOrderSameFound(After(EMPTY, calls, true), After(EMPTY, calls, false), call.op, call.now, {}, true, false);
  }

  // Why puts have to be fresh.

  /** Two households: `tenant` with the unlock `x` of `other`, and one with the unlocks `k1` and `k2` of `member`, all under one TTL. */
  datatype Scene = Scene(
    x: string, k1: string, k2: string, other: string, member: string, tenant: int,
    d1: DataKey, d2: DataKey, d3: DataKey, ttl: real)
  {
    predicate Apart() {
      ttl > 0.0 && x != k1 && x != k2 && k1 != k2 && TenantOf(other) == Some(tenant) && TenantOf(member) != Some(tenant)
    }

    /** Every unlock is put with `ttl`, so it expires that long after its put. */
    function Entered(memberRef: string, dataKey: DataKey, at: real): Unlocked {
      Unlocked(dataKey, memberRef, None, At(at + ttl))
    }

    const theirs := Entered(other, d1, ttl / 2.0)
    const short := Entered(member, d1, 0.0)
    const long := Entered(member, d2, ttl / 2.0)
    const again := Entered(member, d3, ttl)

    const putTheirs := Call(Put(x, d1, other, None, ttl), 0.0)
    const putShort := Call(Put(k1, d1, member, None, ttl), 0.0)
    const renew := Call(Put(x, d1, other, None, ttl), ttl / 2.0)
    const putLong := Call(Put(k2, d2, member, None, ttl), ttl / 2.0)
    const freeze := Call(Freeze(tenant), ttl)
    const read := Call(ForMember(other), ttl)
    const reunlock := Call(Put(k1, d3, member, None, ttl), ttl)
    const ask := Call(ForMember(member), ttl)

    /** Two unlocks, half a TTL later one of them again and a third, and once the other has expired it is unlocked again. */
    function Calls(frozen: bool): seq<Call> {
      Unlocks() + (if frozen then [freeze] else []) + [read] + [reunlock]
    }

    function Unlocks(): seq<Call> {
      [putTheirs] + [putShort] + [renew] + [putLong]
    }

    function Opened(frozen: set<int>): Ring {
      Ring(Dict([x, k1, k2], map[x := theirs, k1 := short, k2 := long]), frozen)
    }

    function Evicted(frozen: set<int>): Ring {
      Ring(Dict([x, k2], map[x := theirs, k2 := long]), frozen)
    }

    function Reunlocked(order: seq<string>, frozen: set<int>): Ring {
      Ring(Dict(order, map[x := theirs, k1 := again, k2 := long]), frozen)
    }
  }

  lemma Onward(calls: seq<Call>, last: Call, ring: Ring, ring': Ring)
    requires After(EMPTY, calls, true) == ring && ring' == Step(ring, last.op, last.now, true).0
    ensures After(EMPTY, calls + [last], true) == ring'
  {
    AfterOneMore(calls, last, true);
  }

  lemma PutAtEnd(order: seq<string>, at: map<string, Unlocked>, k: string, e: Unlocked)
    requires k !in at
    ensures Dict(order, at).Put(k, e) == Dict(order + [k], at[k := e])
  {
  }

  /** One put more. */
  lemma OnwardPut(calls: seq<Call>, last: Call, d: Dict<Unlocked>, frozen: set<int>, e: Unlocked, d': Dict<Unlocked>)
    requires After(EMPTY, calls, true) == Ring(d, frozen) && last.op.Put? && d' == d.Put(last.op.key, e)
    requires e == Unlocked(last.op.dataKey, last.op.memberRef, last.op.privateKey, ExpiryOf(last.op.ttl, last.now))
    ensures After(EMPTY, calls + [last], true) == Ring(d', frozen)
  {
    Onward(calls, last, Ring(d, frozen), Ring(d', frozen));
  }

  lemma FirstUnlock(c: Scene, early: Unlocked)
    requires c.Apart() && early == c.Entered(c.other, c.d1, 0.0)
    ensures After(EMPTY, [c.putTheirs], true) == Ring(Dict([c.x], map[c.x := early]), {})
  {
    assert [] + [c.putTheirs] == [c.putTheirs];
    OnwardPut([], c.putTheirs, EMPTY.entries, {}, early, Dict([c.x], map[c.x := early]));
  }

  lemma SecondUnlock(c: Scene, before: seq<Call>, early: Unlocked)
    requires c.Apart() && After(EMPTY, before, true) == Ring(Dict([c.x], map[c.x := early]), {})
    ensures After(EMPTY, before + [c.putShort], true)
         == Ring(Dict([c.x, c.k1], map[c.x := early, c.k1 := c.short]), {})
  {
    var d := Dict([c.x], map[c.x := early]);
    PutAtEnd(d.order, d.at, c.k1, c.short);
    OnwardPut(before, c.putShort, d, {}, c.short, Dict([c.x, c.k1], map[c.x := early, c.k1 := c.short]));
  }

  lemma ThirdUnlock(c: Scene, before: seq<Call>, early: Unlocked)
    requires c.Apart() && After(EMPTY, before, true) == Ring(Dict([c.x, c.k1], map[c.x := early, c.k1 := c.short]), {})
    ensures After(EMPTY, before + [c.renew], true)
         == Ring(Dict([c.x, c.k1], map[c.x := c.theirs, c.k1 := c.short]), {})
  {
    var d := Dict([c.x, c.k1], map[c.x := early, c.k1 := c.short]);
    var d' := Dict([c.x, c.k1], map[c.x := c.theirs, c.k1 := c.short]);
    assert d.at[c.x := c.theirs] == d'.at;
    OnwardPut(before, c.renew, d, {}, c.theirs, d');
  }

  lemma FourthUnlock(c: Scene, before: seq<Call>)
    requires c.Apart() && After(EMPTY, before, true) == Ring(Dict([c.x, c.k1], map[c.x := c.theirs, c.k1 := c.short]), {})
    ensures After(EMPTY, before + [c.putLong], true) == c.Opened({})
  {
    var d := Dict([c.x, c.k1], map[c.x := c.theirs, c.k1 := c.short]);
    PutAtEnd(d.order, d.at, c.k2, c.long);
    assert d.at[c.k2 := c.long] == c.Opened({}).entries.at;
    OnwardPut(before, c.putLong, d, {}, c.long, c.Opened({}).entries);
  }

  lemma UnlocksLeave(c: Scene)
    requires c.Apart()
    ensures After(EMPTY, c.Unlocks(), true) == c.Opened({})
  {
    var early := c.Entered(c.other, c.d1, 0.0);
    FirstUnlock(c, early);
    SecondUnlock(c, [c.putTheirs], early);
    ThirdUnlock(c, [c.putTheirs] + [c.putShort], early);
    FourthUnlock(c, [c.putTheirs] + [c.putShort] + [c.renew]);
  }

  lemma PopMiddle(c: Scene, frozen: set<int>)
    requires c.Apart()
    ensures c.Opened(frozen).entries.Valid() && c.Opened(frozen).entries.Pop(c.k1) == c.Evicted(frozen).entries
  {
    var x, k1, k2 := c.x, c.k1, c.k2;
    assert [x, k1, k2][1..] == [k1, k2] && [k1, k2][1..] == [k2] && [k2][1..] == [];
    assert Without([k2], k1) == [k2];
    assert Without([k1, k2], k1) == [k2];
    assert Without([x, k1, k2], k1) == [x, k2];
    assert c.Opened(frozen).entries.at - {k1} == c.Evicted(frozen).entries.at;
  }

  /** The read of the frozen member passes every entry and evicts the expired one. */
  lemma FrozenReadEvicts(c: Scene)
    requires c.Apart()
    ensures
      var ring := c.Opened({c.tenant});
      ring.entries.Valid() && Step(ring, ForMember(c.other), c.ttl, true).0 == c.Evicted({c.tenant})
  {
    var ring, left := c.Opened({c.tenant}), c.Evicted({c.tenant}).entries;
    var d := ring.entries;
    PopMiddle(c, {c.tenant});
    assert [c.x, c.k1, c.k2][1..] == [c.k1, c.k2] && [c.k1, c.k2][1..] == [c.k2] && [c.k2][1..] == [];
    assert Scan(left, d.at, [c.k2], c.other, true, c.ttl, true) == (left, None);
    assert Scan(d, d.at, [c.k1, c.k2], c.other, true, c.ttl, true) == (left, None);
    assert Scan(d, d.at, d.order, c.other, true, c.ttl, true) == (left, None);
  }

  /** The read of a member that is not frozen stops at its entry. */
  lemma OpenReadStops(c: Scene)
    requires c.Apart()
    ensures
      var ring := c.Opened({});
      ring.entries.Valid() && Step(ring, ForMember(c.other), c.ttl, true).0 == ring
  {
    PopMiddle(c, {});
  }

  /** The member's read answers the entry in the second place. */
  lemma MemberReads(c: Scene, order: seq<string>, frozen: set<int>)
    requires c.Apart() && frozen <= {c.tenant} && (order == [c.x, c.k1, c.k2] || order == [c.x, c.k2, c.k1])
    ensures
      var ring := c.Reunlocked(order, frozen);
      && ring.entries.Valid()
      && Step(ring, ForMember(c.member), c.ttl, true).1
         == Entry(Some(if order[1] == c.k1 then c.again else c.long))
  {
    var ring := c.Reunlocked(order, frozen);
    var d := ring.entries;
    assert !FrozenRef(ring, c.member);
    assert order[1..][0] == order[1];
    assert Scan(d, d.at, order[1..], c.member, false, c.ttl, true) == (d, Some(d.at[order[1]]));
    assert Scan(d, d.at, order, c.member, false, c.ttl, true) == (d, Some(d.at[order[1]]));
  }

  lemma ReunlockPuts(c: Scene, ring: Ring, order: seq<string>)
    requires c.Apart()
    requires || (ring == c.Evicted(ring.frozen) && order == [c.x, c.k2, c.k1])
             || (ring == c.Opened(ring.frozen) && order == [c.x, c.k1, c.k2])
    ensures ring.entries.Put(c.k1, c.again) == c.Reunlocked(order, ring.frozen).entries
  {
    var after := c.Reunlocked(order, ring.frozen).entries;
    assert ring.entries.at[c.k1 := c.again] == after.at;
    if c.k1 in ring.entries.at {
      assert ring.entries.order == after.order;
    } else {
      assert [c.x, c.k2] + [c.k1] == after.order;
    }
  }

  lemma FreezeAndRead(c: Scene, unlocks: seq<Call>)
    requires c.Apart() && After(EMPTY, unlocks, true) == c.Opened({})
    ensures After(EMPTY, unlocks + [c.freeze] + [c.read], true) == c.Evicted({c.tenant})
  {
    var frozen := {c.tenant};
    assert {} + frozen == frozen;
    Onward(unlocks, c.freeze, c.Opened({}), c.Opened(frozen));
    FrozenReadEvicts(c);
    Onward(unlocks + [c.freeze], c.read, c.Opened(frozen), c.Evicted(frozen));
  }

  lemma JustRead(c: Scene, unlocks: seq<Call>)
    requires c.Apart() && After(EMPTY, unlocks, true) == c.Opened({})
    ensures After(EMPTY, unlocks + [c.read], true) == c.Opened({})
  {
    OpenReadStops(c);
    Onward(unlocks, c.read, c.Opened({}), c.Opened({}));
  }

  lemma Reunlocking(c: Scene, calls: seq<Call>, ring: Ring, order: seq<string>)
    requires c.Apart() && After(EMPTY, calls, true) == ring
    requires ring.entries.Put(c.k1, c.again) == c.Reunlocked(order, ring.frozen).entries
    ensures After(EMPTY, calls + [c.reunlock], true) == c.Reunlocked(order, ring.frozen)
  {
    OnwardPut(calls, c.reunlock, ring.entries, ring.frozen, c.again, c.Reunlocked(order, ring.frozen).entries);
  }

  lemma FrozenRun(c: Scene, unlocks: seq<Call>)
    requires c.Apart() && After(EMPTY, unlocks, true) == c.Opened({})
    ensures After(EMPTY, unlocks + [c.freeze] + [c.read] + [c.reunlock], true) == c.Reunlocked([c.x, c.k2, c.k1], {c.tenant})
  {
    FreezeAndRead(c, unlocks);
    ReunlockPuts(c, c.Evicted({c.tenant}), [c.x, c.k2, c.k1]);
    Reunlocking(c, unlocks + [c.freeze] + [c.read], c.Evicted({c.tenant}), [c.x, c.k2, c.k1]);
  }

  lemma OpenRun(c: Scene, unlocks: seq<Call>)
    requires c.Apart() && After(EMPTY, unlocks, true) == c.Opened({})
    ensures After(EMPTY, unlocks + [] + [c.read] + [c.reunlock], true) == c.Reunlocked([c.x, c.k1, c.k2], {})
  {
    assert unlocks + [] == unlocks;
    JustRead(c, unlocks);
    ReunlockPuts(c, c.Opened({}), [c.x, c.k1, c.k2]);
    Reunlocking(c, unlocks + [c.read], c.Opened({}), [c.x, c.k1, c.k2]);
  }

  lemma BothRuns(c: Scene)
    requires c.Apart()
    ensures After(EMPTY, c.Calls(true), true) == c.Reunlocked([c.x, c.k2, c.k1], {c.tenant})
    ensures After(EMPTY, c.Calls(false), true) == c.Reunlocked([c.x, c.k1, c.k2], {})
  {
    UnlocksLeave(c);
    FrozenRun(c, c.Unlocks());
    OpenRun(c, c.Unlocks());
  }

  lemma EraseOneMore(calls: seq<Call>, last: Call, hidden: set<int>)
    ensures Erase(calls + [last], hidden)
         == if Controls(last.op, hidden) then Erase(calls, hidden) else Erase(calls, hidden) + [last]
  {
    assert (calls + [last])[..|calls|] == calls;
  }

  /** The two runs differ in the freeze alone. */
  lemma ErasedCalls(c: Scene)
    ensures Erase(c.Calls(true), {c.tenant}) == c.Calls(false)
  {
    var hidden, one := {c.tenant}, [c.putTheirs];
    assert [] + one == one;
    EraseOneMore([], c.putTheirs, hidden);
    EraseOneMore(one, c.putShort, hidden);
    EraseOneMore(one + [c.putShort], c.renew, hidden);
    EraseOneMore(one + [c.putShort] + [c.renew], c.putLong, hidden);
    var unlocks := c.Unlocks();
    assert unlocks + [] == unlocks;
    EraseOneMore(unlocks, c.freeze, hidden);
    EraseOneMore(unlocks + [c.freeze], c.read, hidden);
    EraseOneMore(unlocks + [c.freeze] + [c.read], c.reunlock, hidden);
  }

  lemma CallsAreInOrder(c: Scene)
    requires c.Apart()
    ensures Monotone(c.Calls(true) + [c.ask])
  {
    assert c.Calls(true) + [c.ask]
        == [c.putTheirs, c.putShort, c.renew, c.putLong, c.freeze, c.read, c.reunlock, c.ask];
  }

  /**
   * Unlocking an expired session again shows a freeze of another household: with the freeze
   * `for_member` answers the member's other unlock, without it the new one.
   */
  lemma ReunlockShowsFreeze(c: Scene)
    requires c.Apart()
    ensures Monotone(c.Calls(true) + [c.ask])
    ensures AnswerAfter(EMPTY, c.Calls(true), c.ask, true) == Entry(Some(c.long))
    ensures AnswerAfter(EMPTY, Erase(c.Calls(true), {c.tenant}), c.ask, true) == Entry(Some(c.again))
  {
    CallsAreInOrder(c);
    BothRuns(c);
    MemberReads(c, [c.x, c.k2, c.k1], {c.tenant});
    ErasedCalls(c);
    MemberReads(c, [c.x, c.k1, c.k2], {});
  }
}
