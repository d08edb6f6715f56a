/** The last log lines of the most recent sessions, kept in memory for a bug report. */
module SessionRingBuffers {
  import opened Common
  import opened OrderedDicts

  const MAX_RECORDS := 200
  const MAX_SESSIONS := 100

  /** The last `n` elements, or all of them. */
  function LastN<T>(s: seq<T>, n: nat): seq<T> {
    if |s| <= n then s else s[|s| - n..]
  }

  /** The eviction loop: oldest sessions go until the limit holds. */
  function Evicted<T>(d: Dict<seq<T>>): (r: Dict<seq<T>>)
    requires d.Valid()
    ensures r.Valid() && r.order == LastN(d.order, MAX_SESSIONS)
    ensures forall k | k in r.at :: k in d.at && r.at[k] == d.at[k]
    decreases |d.order|
  {
    if |d.order| <= MAX_SESSIONS then d
    else
      WithoutHead(d.order);
      Evicted(d.Pop(d.order[0]))
  }

  lemma WithoutHead(s: seq<string>)
    requires s != [] && NoDuplicates(s)
    ensures Without(s, s[0]) == s[1..]
  {
    WithoutAbsent(s[1..], s[0]);
  }

  /** The key put last survives the eviction. */
  lemma NewestStays<T>(d: Dict<seq<T>>, session: string)
    requires d.Valid() && session !in d.at
    ensures
      var r := Evicted(d.Put(session, []));
      session in r.at && r.order != [] && r.order[|r.order| - 1] == session
  {
    var r := Evicted(d.Put(session, []));
    assert r.order == LastN(d.order + [session], MAX_SESSIONS);
    assert r.order[|r.order| - 1] == session;
    assert session in r.order;
  }

  function Appended<T>(d: Dict<seq<T>>, session: string, entry: T): (r: Dict<seq<T>>)
    requires d.Valid()
    ensures r.Valid()
  {
    var created := if session in d.at then d else Evicted(d.Put(session, []));
    assert session in created.at by {
      if session !in d.at {
        NewestStays(d, session);
      }
    }
    var moved := created.MoveToEnd(session);
    moved.Put(session, LastN(moved.at[session] + [entry], MAX_RECORDS))
  }

  class SessionRingBuffer<T> {
    var buffers: Dict<seq<T>>

    constructor ()
      ensures buffers == Dict([], map[])
    {
      buffers := Dict([], map[]);
    }

    /** A new session's buffer, and the loop that pops the oldest ones. */
    method Create(session: string)
      requires buffers.Valid() && session !in buffers.at
      modifies this
      ensures buffers.Valid() && buffers == Evicted(old(buffers).Put(session, []))
    {
      buffers := buffers.Put(session, []);
      ghost var goal := Evicted(buffers);
      while |buffers.order| > MAX_SESSIONS
        invariant buffers.Valid()
        invariant Evicted(buffers) == goal
        decreases |buffers.order|
      {
        WithoutHead(buffers.order);
        buffers := buffers.Pop(buffers.order[0]);
      }
    }

    method Append(session: string, entry: T)
      requires buffers.Valid()
      modifies this
      ensures buffers.Valid() && buffers == Appended(old(buffers), session, entry)
    {
      if session !in buffers.at {
        NewestStays(buffers, session);
        Create(session);
      }
      buffers := buffers.MoveToEnd(session);
      var lines := buffers.at[session] + [entry];
      buffers := buffers.Put(session, LastN(lines, MAX_RECORDS));
    }

    method Records(session: Option<string>) returns (lines: seq<T>)
      requires buffers.Valid()
      ensures lines == if session.Some? && session.value in buffers.at then buffers.at[session.value] else []
    {
      lines := if session.Some? && session.value in buffers.at then buffers.at[session.value] else [];
    }

    method Drop(session: Option<string>)
      requires buffers.Valid()
      modifies this
      ensures buffers.Valid()
      ensures buffers == if session.Some? then old(buffers).Pop(session.value) else old(buffers)
    {
      if session.Some? {
        buffers := buffers.Pop(session.value);
      }
    }
  }

  // What a run of appends and drops leaves.

  datatype Event<T> = Line(session: string, entry: T) | Drop(session: string)

  function AfterEvents<T>(log: seq<Event<T>>): (d: Dict<seq<T>>)
    ensures d.Valid()
  {
    if log == [] then Dict([], map[])
    else
      var before := AfterEvents(log[..|log| - 1]);
      match log[|log| - 1]
      case Line(session, entry) => Appended(before, session, entry)
      case Drop(session) => before.Pop(session)
  }

  /** The sessions in memory after `log`, least recently appended to first. */
  function Kept<T>(log: seq<Event<T>>): seq<string> {
    if log == [] then []
    else
      var before, s := Without(Kept(log[..|log| - 1]), log[|log| - 1].session), log[|log| - 1].session;
      if log[|log| - 1].Drop? then before else LastN(before + [s], MAX_SESSIONS)
  }

  /** What a session logged since it last entered memory. */
  function Since<T>(log: seq<Event<T>>, session: string): seq<T> {
    if log == [] then []
    else
      var before, last := log[..|log| - 1], log[|log| - 1];
      if last.session != session then Since(before, session)
      else if last.Drop? then []
      else (if session in Kept(before) then Since(before, session) else []) + [last.entry]
  }

  /** The position of a session's last line; -1 without one. */
  function LastAppend<T>(log: seq<Event<T>>, session: string): int {
    if log == [] then -1
    else if log[|log| - 1].Line? && log[|log| - 1].session == session then |log| - 1
    else LastAppend(log[..|log| - 1], session)
  }

  /** The position of the last drop of a session; -1 without one. */
  function LastDrop<T>(log: seq<Event<T>>, session: string): int {
    if log == [] then -1
    else if log[|log| - 1] == Drop(session) then |log| - 1
    else LastDrop(log[..|log| - 1], session)
  }

  /** `a` fell silent before `b` did. */
  predicate Before<T>(log: seq<Event<T>>, a: string, b: string) {
    LastAppend(log, a) < LastAppend(log, b)
  }

  // All sessions that logged, by their last line.

  /** The sessions of a log that were not dropped since, least recently appended to first. */
  function Recency<T>(log: seq<Event<T>>): seq<string> {
    if log == [] then []
    else
      var before, s := Without(Recency(log[..|log| - 1]), log[|log| - 1].session), log[|log| - 1].session;
      if log[|log| - 1].Drop? then before else before + [s]
  }

  /** Each once, and by the position of the last line. */
  ghost predicate ByLastLine<T>(log: seq<Event<T>>, r: seq<string>) {
    NoDuplicates(r) && forall i, j | 0 <= i < j < |r| :: Before(log, r[i], r[j])
  }

  lemma {:induction false} Positions<T>(log: seq<Event<T>>, s: string)
    ensures -1 <= LastAppend(log, s) < |log| && -1 <= LastDrop(log, s) < |log|
    ensures LastAppend(log, s) >= 0 ==> log[LastAppend(log, s)].Line? && log[LastAppend(log, s)].session == s
    decreases |log|
  {
    if log != [] {
      Positions(log[..|log| - 1], s);
    }
  }

  /** One event more keeps a list in that order. */
  lemma ByLastLineOneMore<T>(log: seq<Event<T>>, r: seq<string>)
    requires log != [] && ByLastLine(log[..|log| - 1], r)
    ensures
      var s := log[|log| - 1].session;
      && ByLastLine(log, Without(r, s))
      && (log[|log| - 1].Line? ==> ByLastLine(log, Without(r, s) + [s]))
  {
    var before, s := log[..|log| - 1], log[|log| - 1].session;
    var w := Without(r, s);
    WithoutNoDuplicates(r, s);
    WithoutKeepsOrder(before, r, s, w);
    forall i | 0 <= i < |w| ensures w[i] != s && LastAppend(log, w[i]) == LastAppend(before, w[i]) < |before| {
      assert w[i] in w;
      Positions(before, w[i]);
    }
    forall i, j | 0 <= i < j < |w| ensures Before(log, w[i], w[j]) {
      assert Before(before, w[i], w[j]);
    }
  }

  lemma {:induction false} WithoutKeepsOrder<T>(log: seq<Event<T>>, r: seq<string>, k: string, w: seq<string>)
    requires w == Without(r, k)
    requires forall i, j | 0 <= i < j < |r| :: Before(log, r[i], r[j])
    ensures forall i, j | 0 <= i < j < |w| :: Before(log, w[i], w[j])
    decreases |r|
  {
    if r != [] {
      var tail := Without(r[1..], k);
      WithoutKeepsOrder(log, r[1..], k, tail);
      WithoutMembers(r[1..], k);
      assert w == if r[0] == k then tail else [r[0]] + tail;
      if r[0] != k {
        forall j | 0 < j < |w| ensures Before(log, w[0], w[j]) {
          assert w[j] == tail[j - 1];
          assert w[j] in r[1..];
          var m :| 0 <= m < |r[1..]| && r[1..][m] == w[j];
          assert Before(log, r[0], r[m + 1]);
        }
        forall i, j | 0 < i < j < |w| ensures Before(log, w[i], w[j]) {
          assert w[i] == tail[i - 1] && w[j] == tail[j - 1];
          assert Before(log, tail[i - 1], tail[j - 1]);
        }
      }
    }
  }

  /** `Recency` lists exactly the sessions whose last line came after their last drop, by the position of that line. */
  lemma {:induction false} RecencyIsByLastAppend<T>(log: seq<Event<T>>)
    ensures ByLastLine(log, Recency(log))
    ensures forall s :: s in Recency(log) <==> LastAppend(log, s) > LastDrop(log, s)
  {
    if log != [] {
      var before, last := log[..|log| - 1], log[|log| - 1];
      RecencyIsByLastAppend(before);
      ByLastLineOneMore(log, Recency(before));
      WithoutMembers(Recency(before), last.session);
      forall s ensures s in Recency(log) <==> LastAppend(log, s) > LastDrop(log, s) {
        Positions(before, s);
        assert s in Recency(before) <==> LastAppend(before, s) > LastDrop(before, s);
      }
    }
  }

  lemma {:induction false} KeptIsByLastAppend<T>(log: seq<Event<T>>)
    ensures ByLastLine(log, Kept(log)) && |Kept(log)| <= MAX_SESSIONS
  {
    if log != [] {
      var before, last := log[..|log| - 1], log[|log| - 1];
      KeptIsByLastAppend(before);
      ByLastLineOneMore(log, Kept(before));
      WithoutNoDuplicates(Kept(before), last.session);
      if last.Line? {
        LastNByLastLine(log, Without(Kept(before), last.session) + [last.session]);
      }
    }
  }

  lemma LastNByLastLine<T>(log: seq<Event<T>>, r: seq<string>)
    requires ByLastLine(log, r)
    ensures ByLastLine(log, LastN(r, MAX_SESSIONS))
  {
    var cut := LastN(r, MAX_SESSIONS);
    var gone := |r| - |cut|;
    assert forall i | 0 <= i < |cut| :: cut[i] == r[gone + i];
    forall i, j | 0 <= i < j < |cut| ensures cut[i] != cut[j] && Before(log, cut[i], cut[j]) {
      assert r[gone + i] != r[gone + j] && Before(log, r[gone + i], r[gone + j]);
    }
  }

  /** Moving `k` to the end of the recency list, seen through its last `MAX_SESSIONS` entries. */
  lemma KeptOneMore(r: seq<string>, k: string)
    requires NoDuplicates(r)
    ensures
      var kept := LastN(r, MAX_SESSIONS);
      LastN(Without(r, k) + [k], MAX_SESSIONS)
      == if k in kept then Without(kept, k) + [k] else LastN(kept + [k], MAX_SESSIONS)
  {
    var kept := LastN(r, MAX_SESSIONS);
    var gone := r[..|r| - |kept|];
    assert r == gone + kept;
    if k in kept {
      KeptMovesBack(gone, kept, k);
    } else {
      WithoutConcat(gone, kept, k);
      WithoutAbsent(kept, k);
      assert Without(r, k) + [k] == Without(gone, k) + (kept + [k]);
      LastNSuffix(Without(gone, k), kept + [k], MAX_SESSIONS);
    }
  }

  lemma KeptMovesBack(gone: seq<string>, kept: seq<string>, k: string)
    requires NoDuplicates(gone + kept) && k in kept
    requires |kept| <= MAX_SESSIONS && (gone == [] || |kept| == MAX_SESSIONS)
    ensures LastN(Without(gone + kept, k) + [k], MAX_SESSIONS) == Without(kept, k) + [k]
  {
    var i :| 0 <= i < |kept| && kept[i] == k;
    forall j | 0 <= j < |gone| ensures gone[j] != k {
      assert (gone + kept)[j] == gone[j] && (gone + kept)[|gone| + i] == k;
    }
    assert NoDuplicates(kept) by {
      forall x, y | 0 <= x < y < |kept| ensures kept[x] != kept[y] {
        assert (gone + kept)[|gone| + x] == kept[x] && (gone + kept)[|gone| + y] == kept[y];
      }
    }
    WithoutConcat(gone, kept, k);
    WithoutAbsent(gone, k);
    WithoutNoDuplicates(kept, k);
    assert Without(gone + kept, k) + [k] == gone + (Without(kept, k) + [k]);
    LastNSuffix(gone, Without(kept, k) + [k], MAX_SESSIONS);
  }

  lemma LastNSuffix<T>(a: seq<T>, b: seq<T>, n: nat)
    requires a == [] || |b| >= n
    ensures LastN(a + b, n) == LastN(b, n)
  {
    if a == [] {
      assert a + b == b;
    }
  }

  lemma LastNOneMore<T>(s: seq<T>, x: T, n: nat)
    ensures LastN(LastN(s, n) + [x], n) == LastN(s + [x], n)
  {
  }

  predicate NoDrops<T>(log: seq<Event<T>>) {
    forall i | 0 <= i < |log| :: log[i].Line?
  }

  /** Without drops, the sessions kept are the last `MAX_SESSIONS` by their last line. */
  lemma {:induction false} KeptAreTheMostRecent<T>(log: seq<Event<T>>)
    requires NoDrops(log)
    ensures Kept(log) == LastN(Recency(log), MAX_SESSIONS)
  {
    if log != [] {
      var before, s := log[..|log| - 1], log[|log| - 1].session;
      KeptAreTheMostRecent(before);
      RecencyIsByLastAppend(before);
      KeptIsByLastAppend(before);
      KeptOneMore(Recency(before), s);
      if s in Kept(before) {
        WithoutNoDuplicates(Kept(before), s);
      } else {
        WithoutAbsent(Kept(before), s);
      }
    }
  }

  lemma {:induction false} OrderIsKept<T>(log: seq<Event<T>>)
    ensures AfterEvents(log).order == Kept(log)
  {
    if log != [] {
      var before, last := log[..|log| - 1], log[|log| - 1];
      var d := AfterEvents(before);
      OrderIsKept(before);
      KeptIsByLastAppend(before);
      if last.session !in d.at {
        WithoutAbsent(Kept(before), last.session);
      } else {
        WithoutNoDuplicates(Kept(before), last.session);
      }
      if last.Line? {
        AppendOrder(d, last.session, last.entry);
      }
    }
  }

  lemma KeptIsHeld<T>(log: seq<Event<T>>, t: string)
    ensures t in AfterEvents(log).at <==> t in Kept(log)
  {
    OrderIsKept(log);
  }

  lemma {:induction false} LinesAreSince<T>(log: seq<Event<T>>, t: string)
    requires t in AfterEvents(log).at
    ensures AfterEvents(log).at[t] == LastN(Since(log, t), MAX_RECORDS)
  {
    if log != [] {
      var before, last := log[..|log| - 1], log[|log| - 1];
      var d := AfterEvents(before);
      KeptIsHeld(before, t);
      if t in d.at {
        LinesAreSince(before, t);
      }
      if last.Line? {
        LinesOneMore(d, last.session, last.entry, t, Since(before, t));
      }
    }
  }

  // Which sessions are kept, told from the log alone.

  /** The sessions whose last event in `log` is a line. */
  function Active<T>(log: seq<Event<T>>): set<string> {
    if log == [] then {}
    else
      var before, last := Active(log[..|log| - 1]), log[|log| - 1];
      if last.Drop? then before - {last.session} else before + {last.session}
  }

  /** At no point after position `p` had `MAX_SESSIONS` sessions logged since and not been dropped. */
  predicate NeverCrowdedOut<T>(log: seq<Event<T>>, p: nat) {
    forall q | p < q <= |log| :: !Crowded(log, p, q)
  }

  predicate Crowded<T>(log: seq<Event<T>>, p: nat, q: nat)
    requires p < q <= |log|
  {
    |Active(log[p + 1..q])| >= MAX_SESSIONS
  }

  /** The session logged after its last drop, and was never crowded out since its last line. */
  predicate Holds<T>(log: seq<Event<T>>, s: string) {
    LastAppend(log, s) >= 0 && LastAppend(log, s) > LastDrop(log, s) && NeverCrowdedOut(log, LastAppend(log, s))
  }

  function Members(s: seq<string>): set<string> {
    set k | k in s
  }

  lemma {:induction false} MembersSize(s: seq<string>)
    requires NoDuplicates(s)
    ensures |Members(s)| == |s|
  {
    if s != [] {
      var front, last := s[..|s| - 1], s[|s| - 1];
      MembersSize(front);
      assert Members(s) == Members(front) + {last};
      assert last !in Members(front);
    }
  }

  lemma {:induction false} BehindAt(a: seq<string>, s: string, c: seq<string>)
    requires s !in a
    ensures Behind(a + [s] + c, s) == c
  {
    var all := a + [s] + c;
    if a == [] {
      assert all[1..] == c;
    } else {
      BehindAt(a[1..], s, c);
      assert all[0] == a[0] && all[1..] == a[1..] + [s] + c;
    }
  }

  /** `kept` around `s`, before and after `t` is taken out. */
  lemma AroundWithout(kept: seq<string>, s: string, t: string, a: seq<string>, c: seq<string>)
    requires NoDuplicates(kept) && s in kept && s != t && a == Ahead(kept, s) && c == Behind(kept, s)
    ensures kept == a + [s] + c && s !in a && s !in c && NoDuplicates(c)
    ensures Without(kept, t) == Without(a, t) + [s] + Without(c, t)
    ensures s !in Without(a, t) && s !in Without(c, t) && NoDuplicates(Without(c, t)) && Members(Without(c, t)) == Members(c) - {t}
    ensures Behind(Without(kept, t), s) == Without(c, t)
  {
    AheadAndBehind(kept, s);
    KeyOnce(kept, a, c, s);
    forall i, j | 0 <= i < j < |c| ensures c[i] != c[j] {
      assert kept[|a| + 1 + i] == c[i] && kept[|a| + 1 + j] == c[j];
    }
    WithoutConcat(a + [s], c, t);
    WithoutConcat(a, [s], t);
    WithoutAbsent([s], t);
    WithoutMembers(a, t);
    WithoutNoDuplicates(c, t);
    BehindAt(Without(a, t), s, Without(c, t));
  }

  /** Cutting a list one too long at the front keeps `s` exactly when what stands behind it leaves room. */
  lemma CutAround(a: seq<string>, s: string, c: seq<string>, cut: seq<string>)
    requires s !in a && s !in c && |a| + 1 + |c| <= MAX_SESSIONS + 1 && cut == LastN(a + [s] + c, MAX_SESSIONS)
    ensures s in cut <==> |c| < MAX_SESSIONS
    ensures s in cut ==> Behind(cut, s) == c
  {
    var all := a + [s] + c;
    if |all| <= MAX_SESSIONS {
      BehindAt(a, s, c);
      assert all[|a|] == s;
    } else if a == [] {
      assert all[1..] == c;
    } else {
      assert all[1..] == a[1..] + [s] + c;
      BehindAt(a[1..], s, c);
      assert all[1..][|a| - 1] == s;
    }
  }

  /** A line of another session: `s` stays unless everything behind it now fills the memory. */
  lemma BehindAfterLine(kept: seq<string>, s: string, t: string, kept': seq<string>)
    requires NoDuplicates(kept) && |kept| <= MAX_SESSIONS && s in kept && s != t
    requires kept' == LastN(Without(kept, t) + [t], MAX_SESSIONS)
    ensures
      var behind := Members(Behind(kept, s)) + {t};
      && (s in kept' <==> |behind| < MAX_SESSIONS)
      && (s in kept' ==> Members(Behind(kept', s)) == behind)
  {
    var a, c := Ahead(kept, s), Behind(kept, s);
    AroundWithout(kept, s, t, a, c);
    MembersOfEnd(c, t, Without(c, t) + [t]);
    WithoutNoDuplicates(kept, t);
    CutAtEnd(kept, s, t, Without(a, t), Without(c, t), kept');
  }

  lemma CutAtEnd(kept: seq<string>, s: string, t: string, a: seq<string>, c: seq<string>, kept': seq<string>)
    requires Without(kept, t) == a + [s] + c && |Without(kept, t)| <= MAX_SESSIONS && s != t && s !in a && s !in c
    requires kept' == LastN(Without(kept, t) + [t], MAX_SESSIONS)
    ensures s in kept' <==> |c + [t]| < MAX_SESSIONS
    ensures s in kept' ==> Behind(kept', s) == c + [t]
  {
    assert a + [s] + c + [t] == a + [s] + (c + [t]);
    CutAround(a, s, c + [t], kept');
  }

  lemma MembersOfEnd(c: seq<string>, t: string, c': seq<string>)
    requires NoDuplicates(c) && c' == Without(c, t) + [t]
    ensures Members(c') == Members(c) + {t} && |Members(c')| == |c'|
  {
    WithoutNoDuplicates(c, t);
    MembersSize(c');
  }

  lemma ActiveOneMore<T>(log: seq<Event<T>>, p: nat)
    requires p < |log| - 1
    ensures
      var before, last := Active(log[p + 1..|log| - 1]), log[|log| - 1];
      Active(log[p + 1..]) == if last.Drop? then before - {last.session} else before + {last.session}
  {
    assert log[p + 1..][..|log| - p - 2] == log[p + 1..|log| - 1];
  }

  lemma CrowdingOneMore<T>(log: seq<Event<T>>, p: nat)
    requires p < |log| - 1
    ensures NeverCrowdedOut(log, p)
       <==> NeverCrowdedOut(log[..|log| - 1], p) && |Active(log[p + 1..])| < MAX_SESSIONS
  {
    var before := log[..|log| - 1];
    forall q | p < q <= |before| ensures Crowded(log, p, q) == Crowded(before, p, q) {
      assert log[p + 1..q] == before[p + 1..q];
    }
    assert log[p + 1..|log|] == log[p + 1..];
    assert Crowded(log, p, |log|) <==> |Active(log[p + 1..])| >= MAX_SESSIONS;
  }

  /** Behind a kept session stand exactly those that logged after it and were not dropped since. */
  ghost predicate KeptAsTold<T>(log: seq<Event<T>>, s: string) {
    && (s in Kept(log) <==> Holds(log, s))
    && (s in Kept(log) ==> LastAppend(log, s) < |log|
                           && Members(Behind(Kept(log), s)) == Active(log[LastAppend(log, s) + 1..]))
  }

  lemma LastIsBehindAll(w: seq<string>, s: string, cut: seq<string>)
    requires s !in w && cut == LastN(w + [s], MAX_SESSIONS)
    ensures s in cut && Behind(cut, s) == []
  {
    var front := cut[..|cut| - 1];
    var gone := |w| - |front|;
    forall i | 0 <= i < |front| ensures front[i] != s {
      assert front[i] == w[gone + i];
    }
    assert cut == front + [s] + [];
    BehindAt(front, s, []);
  }

  lemma OwnEvent<T>(log: seq<Event<T>>, s: string)
    requires log != [] && log[|log| - 1].session == s
    ensures KeptAsTold(log, s)
  {
    var before, last := log[..|log| - 1], log[|log| - 1];
    Positions(before, s);
    WithoutMembers(Kept(before), s);
    if last.Line? {
      LastIsBehindAll(Without(Kept(before), s), s, Kept(log));
      assert log[|log|..] == [] && log[|log|..|log|] == [];
      assert !Crowded(log, |log| - 1, |log|);
    }
  }

  lemma OtherDrop<T>(log: seq<Event<T>>, s: string)
    requires log != [] && log[|log| - 1].session != s
    requires log[|log| - 1].Drop? && s in Kept(log[..|log| - 1])
    ensures s in Kept(log) && Members(Behind(Kept(log), s)) == Members(Behind(Kept(log[..|log| - 1]), s)) - {log[|log| - 1].session}
  {
    var kept, t := Kept(log[..|log| - 1]), log[|log| - 1].session;
    KeptIsByLastAppend(log[..|log| - 1]);
    AroundWithout(kept, s, t, Ahead(kept, s), Behind(kept, s));
    WithoutMembers(kept, t);
  }

  lemma NotKept<T>(log: seq<Event<T>>, s: string)
    requires log != [] && log[|log| - 1].session != s && s !in Kept(log[..|log| - 1])
    ensures s !in Kept(log)
  {
    var kept, t := Kept(log[..|log| - 1]), log[|log| - 1].session;
    WithoutMembers(kept, t);
    assert s !in Without(kept, t) + [t];
  }

  /** The session told about holds after another's event exactly when it held before and is not crowded out now. */
  lemma HoldsOneMore<T>(log: seq<Event<T>>, s: string, p: int)
    requires log != [] && log[|log| - 1].session != s && p == LastAppend(log, s)
    ensures p == LastAppend(log[..|log| - 1], s) && p < |log| - 1
    ensures p >= 0 ==> (Holds(log, s) <==> Holds(log[..|log| - 1], s) && |Active(log[p + 1..])| < MAX_SESSIONS)
    ensures p < 0 ==> !Holds(log, s) && !Holds(log[..|log| - 1], s)
  {
    Positions(log[..|log| - 1], s);
    if p >= 0 {
      CrowdingOneMore(log, p);
    }
  }

  /** What a line of another session does to a kept one, by what stands behind it. */
  lemma OtherLine<T>(log: seq<Event<T>>, s: string, before: seq<Event<T>>, behind: set<string>)
    requires log != [] && before == log[..|log| - 1] && log[|log| - 1].session != s && log[|log| - 1].Line?
    requires s in Kept(before) && behind == Members(Behind(Kept(before), s)) + {log[|log| - 1].session}
    ensures s in Kept(log) <==> |behind| < MAX_SESSIONS
    ensures s in Kept(log) ==> Members(Behind(Kept(log), s)) == behind
  {
    KeptIsByLastAppend(before);
    BehindAfterLine(Kept(before), s, log[|log| - 1].session, Kept(log));
  }

  /** What any event of another session does to a kept one. */
  lemma OtherKept<T>(log: seq<Event<T>>, s: string, before: seq<Event<T>>, p: nat)
    requires log != [] && before == log[..|log| - 1] && log[|log| - 1].session != s && p < |before|
    requires s in Kept(before) && Members(Behind(Kept(before), s)) == Active(before[p + 1..])
    ensures s in Kept(log) <==> |Active(log[p + 1..])| < MAX_SESSIONS
    ensures s in Kept(log) ==> Members(Behind(Kept(log), s)) == Active(log[p + 1..])
  {
    ActiveOneMore(log, p);
    assert before[p + 1..] == log[p + 1..|log| - 1];
    if log[|log| - 1].Drop? {
      OtherDrop(log, s);
      KeptBehindFits(before, s);
    } else {
      OtherLine(log, s, before, Active(log[p + 1..]));
    }
  }

  lemma OtherEvent<T>(log: seq<Event<T>>, s: string, before: seq<Event<T>>)
    requires log != [] && before == log[..|log| - 1] && log[|log| - 1].session != s && KeptAsTold(before, s)
    ensures KeptAsTold(log, s)
  {
    var p := LastAppend(log, s);
    HoldsOneMore(log, s, p);
    if s in Kept(before) {
      OtherKept(log, s, before, p);
    } else {
      NotKept(log, s);
    }
  }

  /** What stands behind a kept session always leaves room for it. */
  lemma KeptBehindFits<T>(log: seq<Event<T>>, s: string)
    requires s in Kept(log)
    ensures forall t :: |Members(Behind(Kept(log), s)) - {t}| < MAX_SESSIONS
  {
    var kept := Kept(log);
    KeptIsByLastAppend(log);
    AheadAndBehind(kept, s);
    forall t ensures |Members(Behind(kept, s)) - {t}| < MAX_SESSIONS {
      MembersAtMost(Behind(kept, s));
      SmallerWithout(Members(Behind(kept, s)), t);
    }
  }

  lemma SmallerWithout(s: set<string>, t: string)
    ensures |s - {t}| <= |s|
  {
    if t in s {
      assert s == (s - {t}) + {t};
    } else {
      assert s - {t} == s;
    }
  }

  lemma {:induction false} MembersAtMost(s: seq<string>)
    ensures |Members(s)| <= |s|
  {
    if s != [] {
      MembersAtMost(s[..|s| - 1]);
      assert Members(s) == Members(s[..|s| - 1]) + {s[|s| - 1]};
    }
  }

  lemma {:induction false} KeptIsAsTold<T>(log: seq<Event<T>>, s: string)
    ensures KeptAsTold(log, s)
    decreases |log|
  {
    if log != [] {
      if log[|log| - 1].session == s {
        OwnEvent(log, s);
      } else {
        KeptIsAsTold(log[..|log| - 1], s);
        OtherEvent(log, s, log[..|log| - 1]);
      }
    }
  }

  /**
   * The buffer after any run of appends and drops. A session is in memory exactly when it logged after
   * its last drop and at no point since its last line had `MAX_SESSIONS` others logged and not been
   * dropped; the sessions stand in the order of their last lines; each has its last `MAX_RECORDS`
   * lines since it last entered memory. Without drops those are the last `MAX_SESSIONS` sessions.
   */
  lemma BufferIsExactLru<T>(log: seq<Event<T>>)
    ensures var d := AfterEvents(log);
      && (forall s :: s in d.at <==> Holds(log, s))
      && (forall s :: s in d.order <==> s in d.at)
      && ByLastLine(log, d.order)
      && (forall s | s in d.at :: d.at[s] == LastN(Since(log, s), MAX_RECORDS))
      && (NoDrops(log) ==> d.order == LastN(Recency(log), MAX_SESSIONS))
  {
    var d := AfterEvents(log);
    OrderIsKept(log);
    KeptIsByLastAppend(log);
    forall s ensures s in d.at <==> Holds(log, s) {
      KeptIsAsTold(log, s);
      KeptIsHeld(log, s);
    }
    forall s | s in d.at ensures d.at[s] == LastN(Since(log, s), MAX_RECORDS) {
      LinesAreSince(log, s);
    }
    if NoDrops(log) {
      KeptAreTheMostRecent(log);
    }
  }

  lemma LinesOneMore<T>(d: Dict<seq<T>>, s: string, entry: T, t: string, since: seq<T>)
    requires d.Valid() && t in Appended(d, s, entry).at
    requires t in d.at ==> d.at[t] == LastN(since, MAX_RECORDS)
    ensures Appended(d, s, entry).at[t]
         == LastN(if t == s then (if t in d.at then since else []) + [entry] else since, MAX_RECORDS)
  {
    AppendOrder(d, s, entry);
    if t == s {
      LastNOneMore(if t in d.at then since else [], entry, MAX_RECORDS);
    }
  }

  /** The order and the bindings one append leaves. */
  lemma AppendOrder<T>(d: Dict<seq<T>>, s: string, entry: T)
    requires d.Valid()
    ensures
      var r := Appended(d, s, entry);
      && r.order == (if s in d.at then Without(d.order, s) + [s] else LastN(d.order + [s], MAX_SESSIONS))
      && s in r.at
      && r.at[s] == LastN((if s in d.at then d.at[s] else []) + [entry], MAX_RECORDS)
      && forall t | t in r.at && t != s :: t in d.at && r.at[t] == d.at[t]
  {
    if s !in d.at {
      NewestStays(d, s);
      MoveLast(Evicted(d.Put(s, [])).order);
    }
  }

  lemma {:induction false} MoveLast(order: seq<string>)
    requires order != [] && NoDuplicates(order)
    ensures Without(order, order[|order| - 1]) + [order[|order| - 1]] == order
  {
    if |order| > 1 {
      var last := order[|order| - 1];
      MoveLast(order[1..]);
      assert order[0] != last;
      assert Without(order, last) == [order[0]] + Without(order[1..], last);
    }
  }
}
