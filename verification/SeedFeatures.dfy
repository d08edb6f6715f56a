/** Seeding and replacing features under foreign keys. */
module SeedFeatures {
  import opened SeederRegistry

  /** The rows each populated feature owns; a feature without rows is absent. */
  type Rows<R> = map<string, R>

  datatype Outcome = Outcome(key: string, skipped: bool)

  /** A seeder never appears before something it needs. */
  predicate Topological(reg: Registry) {
    && DistinctKeys(reg)
    && forall i, d | 0 <= i < |reg| && d in reg[i].dependsOn :: exists j :: 0 <= j < i && reg[j].key == d
  }

  /** Foreign keys hold: a feature with rows has rows in everything it stands on. */
  ghost predicate ForeignKeysHold<R>(reg: Registry, rows: Rows<R>) {
    forall a, b | StandsOn(reg, a, b) && a in rows :: b in rows
  }

  /** What a call removes first: with `replace`, the asked features and all that stand on them. */
  ghost function Doomed(reg: Registry, keys: set<string>, replace: bool): set<string> {
    if replace then Dependents(reg, keys) else {}
  }

  /** What a call makes sure is there. */
  ghost function Wanted(reg: Registry, keys: set<string>, replace: bool): set<string> {
    Dependencies(reg, if replace then Dependents(reg, keys) else keys)
  }

  /** The database after a call: doomed rows gone, missing wanted features created afresh. */
  ghost function Seeded<R>(reg: Registry, rows: Rows<R>, keys: set<string>, replace: bool, create: string -> R): Rows<R> {
    var kept := rows - Doomed(reg, keys, replace);
    (map k | k in Wanted(reg, keys, replace) :: create(k)) + kept
  }

  /** One outcome per listed feature, skipped when `rows` already held it. */
  function Reported<R>(list: seq<string>, rows: Rows<R>): seq<Outcome> {
    if list == [] then []
    else
      var last := list[|list| - 1];
      Reported(list[..|list| - 1], rows) + [Outcome(last, last in rows)]
  }

  lemma {:induction false} ReportedAt<R>(list: seq<string>, rows: Rows<R>)
    ensures |Reported(list, rows)| == |list|
    ensures forall i | 0 <= i < |list| :: Reported(list, rows)[i] == Outcome(list[i], list[i] in rows)
  {
    if list != [] {
      ReportedAt(list[..|list| - 1], rows);
    }
  }

  /** Later registry entries stand on earlier ones only. */
  lemma LaterStandsOnEarlier(reg: Registry, i: nat, j: nat)
    requires Topological(reg) && i < |reg| && j < |reg| && StandsOn(reg, reg[i].key, reg[j].key)
    ensures j < i
  {
    DepsOf(reg, i);
    var k :| 0 <= k < i && reg[k].key == reg[j].key;
    assert k == j;
  }

  /** With everything doomed that comes later already gone, removing one more breaks no foreign key. */
  lemma RemovalKeepsForeignKeys<R>(reg: Registry, doomed: set<string>, rows: Rows<R>, i: nat)
    requires Topological(reg) && DependentClosed(reg, doomed) && ForeignKeysHold(reg, rows)
    requires i < |reg| && reg[i].key in doomed
    requires forall j | i < j < |reg| && reg[j].key in doomed :: reg[j].key !in rows
    ensures ForeignKeysHold(reg, rows - {reg[i].key})
  {
    forall a | StandsOn(reg, a, reg[i].key) ensures a !in rows {
      var m :| 0 <= m < |reg| && reg[m].key == a;
      LaterStandsOnEarlier(reg, m, i);
    }
  }

  /** `rows` with the listed features created where they were missing. */
  ghost function Filled<R>(list: seq<string>, rows: Rows<R>, create: string -> R): Rows<R> {
    (map k | k in list :: create(k)) + rows
  }

  lemma FilledOneMore<R>(list: seq<string>, i: nat, rows: Rows<R>, create: string -> R)
    requires i < |list| && list[i] !in list[..i]
    ensures
      var before := Filled(list[..i], rows, create);
      && (list[i] in before <==> list[i] in rows)
      && Filled(list[..i + 1], rows, create)
         == if list[i] in before then before else before[list[i] := create(list[i])]
  {
    assert list[..i + 1] == list[..i] + [list[i]];
  }

  /** With everything listed earlier in place, creating the next feature breaks no foreign key. */
  lemma CreationKeepsForeignKeys<R>(
      reg: Registry, wanted: set<string>, list: seq<string>, i: nat, rows: Rows<R>, create: string -> R)
    requires Topological(reg) && DependencyClosed(reg, wanted) && list == Listed(reg, wanted)
    requires i < |list| && ForeignKeysHold(reg, rows) && (forall k | k in list[..i] :: k in rows)
    ensures ForeignKeysHold(reg, rows[list[i] := create(list[i])])
  {
    forall b | StandsOn(reg, list[i], b) ensures b in rows {
      DependencyComesFirst(reg, wanted, list, i, b);
    }
  }

  lemma FilledEqually<R>(
      reg: Registry, wanted: set<string>, list: seq<string>, rows: Rows<R>, create: string -> R)
    requires DistinctKeys(reg) && wanted <= Keys(reg) && list == Listed(reg, wanted)
    ensures Filled(list, rows, create) == (map k | k in wanted :: create(k)) + rows
  {
    ListedExactly(reg, wanted, list);
  }

  lemma ListNeverRepeats(reg: Registry, wanted: set<string>, list: seq<string>, i: nat)
    requires DistinctKeys(reg) && list == Listed(reg, wanted) && i < |list|
    ensures list[i] !in list[..i]
  {
    ListedExactly(reg, wanted, list);
    forall j | 0 <= j < i ensures list[j] != list[i] {
      assert Position(reg, list[j]) < Position(reg, list[i]);
    }
  }

  // The single steps of a call.

  /** One step: all rows of a feature go, or a feature without rows gets its own. */
  datatype Change<R> = Remove(key: string) | Create(key: string, row: R)

  ghost function Changed<R>(rows: Rows<R>, c: Change<R>): Rows<R> {
    match c
    case Remove(key) => rows - {key}
    case Create(key, row) => if key in rows then rows else rows[key := row]
  }

  /** The removals of a call: the doomed features, last registered first. */
  ghost function Removals<R>(reg: Registry, doomed: set<string>): seq<Change<R>> {
    if reg == [] then []
    else Removals(reg[1..], doomed) + if reg[0].key in doomed then [Remove(reg[0].key)] else []
  }

  ghost function Creations<R>(list: seq<string>, create: string -> R): seq<Change<R>> {
    seq(|list|, i requires 0 <= i < |list| => Create(list[i], create(list[i])))
  }

  /** All steps of `seed_features`: every removal, then the wanted features in registry order. */
  ghost function Plan<R>(reg: Registry, keys: set<string>, replace: bool, create: string -> R): seq<Change<R>> {
    Removals(reg, Doomed(reg, keys, replace)) + Creations(Listed(reg, Wanted(reg, keys, replace)), create)
  }

  /** The database before the first of `steps` and after each of them. */
  ghost function States<R>(rows: Rows<R>, steps: seq<Change<R>>): (states: seq<Rows<R>>)
    ensures |states| == |steps| + 1 && states[0] == rows
  {
    if steps == [] then [rows]
    else
      var before := States(rows, steps[..|steps| - 1]);
      before + [Changed(before[|steps| - 1], steps[|steps| - 1])]
  }

  lemma StatesOneMore<R>(rows: Rows<R>, steps: seq<Change<R>>, c: Change<R>)
    ensures States(rows, steps + [c]) == States(rows, steps) + [Changed(States(rows, steps)[|steps|], c)]
  {
    assert (steps + [c])[..|steps|] == steps;
  }

  lemma {:induction false} StatesConcat<R>(rows: Rows<R>, a: seq<Change<R>>, b: seq<Change<R>>)
    ensures States(rows, a + b) == States(rows, a) + States(States(rows, a)[|a|], b)[1..]
    decreases |b|
  {
    if b == [] {
      assert a + b == a;
    } else {
      var before, last := b[..|b| - 1], b[|b| - 1];
      StatesConcat(rows, a, before);
      assert a + b == (a + before) + [last] && b == before + [last];
      StatesOneMore(rows, a + before, last);
      StatesOneMore(States(rows, a)[|a|], before, last);
    }
  }

  lemma RemovalsOneMore<R>(reg: Registry, i: nat, doomed: set<string>)
    requires i < |reg|
    ensures
      var before := Removals<R>(reg[i + 1..], doomed);
      Removals(reg[i..], doomed) == if reg[i].key in doomed then before + [Remove(reg[i].key)] else before
  {
    assert reg[i..][1..] == reg[i + 1..];
  }

  lemma NothingDoomed<R>(reg: Registry)
    ensures Removals<R>(reg, {}) == []
  {
  }

  lemma CreationsOneMore<R>(list: seq<string>, i: nat, create: string -> R)
    requires i < |list|
    ensures Creations(list[..i + 1], create) == Creations(list[..i], create) + [Create(list[i], create(list[i]))]
  {
  }

  /** Foreign keys hold in every one of these states. */
  ghost predicate AllHold<R>(reg: Registry, states: seq<Rows<R>>) {
    forall n | 0 <= n < |states| :: ForeignKeysHold(reg, states[n])
  }

  /** `trace` holds every state of these steps from `start` to `rows`, and all of them keep the foreign keys. */
  ghost predicate Traced<R>(reg: Registry, start: Rows<R>, steps: seq<Change<R>>, trace: seq<Rows<R>>, rows: Rows<R>) {
    && trace == States(start, steps)
    && trace[|steps|] == rows
    && AllHold(reg, trace)
  }

  lemma TraceOneMore<R>(
      reg: Registry, start: Rows<R>, steps: seq<Change<R>>, trace: seq<Rows<R>>, rows: Rows<R>, c: Change<R>)
    requires Traced(reg, start, steps, trace, rows) && ForeignKeysHold(reg, Changed(rows, c))
    ensures Traced(reg, start, steps + [c], trace + [Changed(rows, c)], Changed(rows, c))
  {
    StatesOneMore(start, steps, c);
  }

  /** One list of steps after another. */
  lemma TracesJoin<R>(
      reg: Registry, start: Rows<R>, a: seq<Change<R>>, s: seq<Rows<R>>, middle: Rows<R>,
      b: seq<Change<R>>, t: seq<Rows<R>>, rows: Rows<R>)
    requires Traced(reg, start, a, s, middle) && Traced(reg, middle, b, t, rows)
    ensures Traced(reg, start, a + b, s + t[1..], rows)
  {
    StatesConcat(start, a, b);
  }

  /** The database without the doomed features registered at `i` or later. */
  ghost function Reduced<R>(reg: Registry, doomed: set<string>, i: nat, rows: Rows<R>): Rows<R> {
    rows - set j | i <= j < |reg| && reg[j].key in doomed :: reg[j].key
  }

  lemma ReducedOneMore<R>(reg: Registry, doomed: set<string>, i: nat, rows: Rows<R>)
    requires i < |reg|
    ensures
      var before := Reduced(reg, doomed, i + 1, rows);
      Reduced(reg, doomed, i, rows) == if reg[i].key in doomed then before - {reg[i].key} else before
  {
  }

  lemma ReducedIsWithoutDoomed<R>(reg: Registry, doomed: set<string>, rows: Rows<R>)
    requires doomed <= Keys(reg)
    ensures Reduced(reg, doomed, 0, rows) == rows - doomed
  {
    assert (set j | 0 <= j < |reg| && reg[j].key in doomed :: reg[j].key) == doomed;
  }

  class Session<R> {
    var rows: Rows<R>

    constructor (rows: Rows<R>)
      ensures this.rows == rows
    {
      this.rows := rows;
    }

    /** `Seeder.seed` for one feature. */
    method Seed(key: string, replace: bool, create: string -> R) returns (outcome: Outcome)
      modifies this
      ensures outcome == Outcome(key, key in old(rows) && !replace)
      ensures rows == if outcome.skipped then old(rows) else old(rows)[key := create(key)]
    {
      if key in rows {
        if !replace {
          return Outcome(key, true);
        }
        rows := rows - {key};
      }
      rows := rows[key := create(key)];
      return Outcome(key, false);
    }

    /** The removal loop: doomed features, last registered first. Foreign keys hold at every step. */
    method RemoveAll(reg: Registry, doomed: set<string>) returns (ghost trace: seq<Rows<R>>)
      requires Topological(reg) && DependentClosed(reg, doomed) && doomed <= Keys(reg)
      requires ForeignKeysHold(reg, rows)
      modifies this
      ensures rows == old(rows) - doomed
      ensures Traced(reg, old(rows), Removals(reg, doomed), trace, rows)
    {
      trace := [rows];
      var i := |reg|;
      while i > 0
        invariant 0 <= i <= |reg|
        invariant rows == Reduced(reg, doomed, i, old(rows))
        invariant Traced(reg, old(rows), Removals(reg[i..], doomed), trace, rows)
      {
        i := i - 1;
        ReducedOneMore(reg, doomed, i, old(rows));
        RemovalsOneMore<R>(reg, i, doomed);
        if reg[i].key in doomed {
          RemovalKeepsForeignKeys(reg, doomed, rows, i);
          TraceOneMore(reg, old(rows), Removals(reg[i + 1..], doomed), trace, rows, Remove(reg[i].key));
          rows := rows - {reg[i].key};
          trace := trace + [rows];
        }
      }
      assert reg[0..] == reg;
      ReducedIsWithoutDoomed(reg, doomed, old(rows));
    }

    /** The next feature of the list, with all before it seeded already. */
    method SeedNext(reg: Registry, ghost wanted: set<string>, list: seq<string>, i: nat,
                    ghost base: Rows<R>, create: string -> R) returns (outcome: Outcome)
      requires Topological(reg) && DependencyClosed(reg, wanted) && list == Listed(reg, wanted) && i < |list|
      requires rows == Filled(list[..i], base, create) && ForeignKeysHold(reg, rows)
      modifies this
      ensures rows == Filled(list[..i + 1], base, create) && ForeignKeysHold(reg, rows)
      ensures rows == Changed(old(rows), Create(list[i], create(list[i])))
      ensures Reported(list[..i + 1], base) == Reported(list[..i], base) + [outcome]
    {
      ListNeverRepeats(reg, wanted, list, i);
      FilledOneMore(list, i, base, create);
      CreationKeepsForeignKeys(reg, wanted, list, i, rows, create);
      assert list[..i + 1][..i] == list[..i];
      outcome := Seed(list[i], false, create);
    }

    /** The creation loop: missing features in registry order, with the same guarantee. */
    method CreateAll(reg: Registry, list: seq<string>, ghost wanted: set<string>, create: string -> R)
      returns (outcomes: seq<Outcome>, ghost trace: seq<Rows<R>>)
      requires Topological(reg) && DependencyClosed(reg, wanted) && wanted <= Keys(reg)
      requires list == Listed(reg, wanted)
      requires ForeignKeysHold(reg, rows)
      modifies this
      ensures rows == (map k | k in wanted :: create(k)) + old(rows)
      ensures outcomes == Reported(list, old(rows))
      ensures Traced(reg, old(rows), Creations(list, create), trace, rows)
    {
      outcomes, trace := [], [rows];
      var i := 0;
      while i < |list|
        invariant 0 <= i <= |list|
        invariant outcomes == Reported(list[..i], old(rows))
        invariant rows == Filled(list[..i], old(rows), create)
        invariant Traced(reg, old(rows), Creations(list[..i], create), trace, rows)
      {
        CreationsOneMore(list, i, create);
        ghost var before := rows;
        var outcome := SeedNext(reg, wanted, list, i, old(rows), create);
        TraceOneMore(reg, old(rows), Creations(list[..i], create), trace, before, Create(list[i], create(list[i])));
        outcomes := outcomes + [outcome];
        trace := trace + [rows];
        i := i + 1;
      }
      assert list[..i] == list;
      FilledEqually(reg, wanted, list, old(rows), create);
    }

    /** The first half of `seed_features`: remove what `replace` dooms, and list what is wanted. */
    method Prepare(reg: Registry, keys: set<string>, replace: bool)
      returns (list: seq<string>, ghost trace: seq<Rows<R>>)
      requires Topological(reg) && ForeignKeysHold(reg, rows)
      modifies this
      ensures rows == old(rows) - Doomed(reg, keys, replace)
      ensures list == Listed(reg, Wanted(reg, keys, replace))
      ensures DependencyClosed(reg, Wanted(reg, keys, replace)) && Wanted(reg, keys, replace) <= Keys(reg)
      ensures Traced(reg, old(rows), Removals(reg, Doomed(reg, keys, replace)), trace, rows)
    {
      var asked := set k | k in keys && k in Keys(reg);
      AskedIsEnough(reg, keys, asked);
      if replace && asked != {} {
        var doomed := WithDependents(reg, asked);
        DependentsAreLeast(reg, asked);
        trace := RemoveAll(reg, doomed);
        list := WithDependencies(reg, doomed);
        DependenciesAreLeast(reg, doomed);
      } else {
        trace := [rows];
        list := WithDependencies(reg, asked);
        DependenciesAreLeast(reg, asked);
        NothingDoomed<R>(reg);
        if replace {
          NothingAsked(reg);
        }
      }
    }

    /**
     * `seed_features`. `trace` is the database before the first step of the plan and after every
     * one, up to the final rows, and foreign keys hold in all of it; the result is `Seeded`; a
     * feature is reported skipped exactly when its rows were left as they were.
     */
    method Run(reg: Registry, keys: set<string>, replace: bool, create: string -> R)
      returns (outcomes: seq<Outcome>, ghost trace: seq<Rows<R>>)
      requires Topological(reg) && ForeignKeysHold(reg, rows)
      modifies this
      ensures rows == Seeded(reg, old(rows), keys, replace, create)
      ensures Traced(reg, old(rows), Plan(reg, keys, replace, create), trace, rows)
      ensures outcomes == Reported(Listed(reg, Wanted(reg, keys, replace)), old(rows) - Doomed(reg, keys, replace))
    {
      var list;
      ghost var removed, created;
      list, removed := Prepare(reg, keys, replace);
      ghost var middle := rows;
      outcomes, created := CreateAll(reg, list, Wanted(reg, keys, replace), create);
      TracesJoin(reg, old(rows), Removals(reg, Doomed(reg, keys, replace)), removed, middle,
                 Creations(list, create), created, rows);
      trace := removed + created[1..];
    }
  }

  /** Unregistered names change neither closure. */
  lemma AskedIsEnough(reg: Registry, keys: set<string>, asked: set<string>)
    requires asked == set k | k in keys && k in Keys(reg)
    ensures Dependencies(reg, asked) == Dependencies(reg, keys)
    ensures Dependents(reg, asked) == Dependents(reg, keys)
  {
    forall k, r | r in keys && (Reaches(reg, r, k) || Reaches(reg, k, r)) ensures r in asked {
      if Reaches(reg, r, k) {
        var p :| IsPath(reg, p) && p[0] == r && p[|p| - 1] == k;
      } else {
        var p :| IsPath(reg, p) && p[0] == k && p[|p| - 1] == r;
      }
    }
    forall k | k in Dependencies(reg, keys) ensures k in Dependencies(reg, asked) {
      var r :| r in keys && Reaches(reg, r, k);
    }
    forall k | k in Dependents(reg, keys) ensures k in Dependents(reg, asked) {
      var r :| r in keys && Reaches(reg, k, r);
    }
  }

  lemma NothingAsked(reg: Registry)
    ensures Dependents(reg, {}) == {} && Dependencies(reg, {}) == {}
  {
  }

  /** What a listed key stands on is listed before it. */
  lemma DependencyComesFirst(reg: Registry, wanted: set<string>, list: seq<string>, i: nat, b: string)
    requires Topological(reg) && DependencyClosed(reg, wanted) && list == Listed(reg, wanted)
    requires i < |list| && StandsOn(reg, list[i], b)
    ensures b in list[..i]
  {
    ListedExactly(reg, wanted, list);
    assert list[i] in list;
    assert b in list;
    var j :| 0 <= j < |list| && list[j] == b;
    PositionOf(reg, list[i]);
    PositionOf(reg, b);
    LaterStandsOnEarlier(reg, Position(reg, list[i]), Position(reg, b));
    assert j < i;
    assert list[..i][j] == b;
  }

  // No other order would do.

  ghost function Removing<R>(order: seq<string>): seq<Change<R>> {
    seq(|order|, i requires 0 <= i < |order| => Remove(order[i]))
  }

  lemma {:induction false} StateOfRemoving<R>(rows: Rows<R>, order: seq<string>, n: nat)
    requires n <= |order|
    ensures States(rows, Removing(order))[n] == rows - set k | k in order[..n]
    decreases |order|
  {
    if order == [] {
      assert rows - (set k | k in order[..n]) == rows;
    } else {
      var last := |order| - 1;
      assert Removing<R>(order)[..last] == Removing(order[..last]);
      var m := if n <= last then n else last;
      StateOfRemoving(rows, order[..last], m);
      assert order[..last][..m] == order[..m];
      if n > last {
        assert (set k | k in order[..n]) == (set k | k in order[..last]) + {order[last]};
      }
    }
  }

  /** In any other order, removing a feature before one that stands on it breaks a foreign key there and then. */
  lemma WrongOrderBreaksForeignKeys<R>(reg: Registry, rows: Rows<R>, order: seq<string>, i: nat, j: nat)
    requires i < j < |order| && StandsOn(reg, order[j], order[i])
    requires order[j] in rows && order[j] !in order[..j]
    ensures !ForeignKeysHold(reg, States(rows, Removing(order))[i + 1])
  {
    StateOfRemoving(rows, order, i + 1);
    assert order[..i + 1] == order[..j][..i + 1];
    assert order[..i + 1][i] == order[i];
  }

  /** A call without `replace` on what such a call left changes nothing and skips every feature. */
  lemma SeedingTwiceChangesNothing<R>(reg: Registry, rows: Rows<R>, keys: set<string>, create: string -> R)
    requires DistinctKeys(reg)
    ensures
      var once := Seeded(reg, rows, keys, false, create);
      && Seeded(reg, once, keys, false, create) == once
      && var reported := Reported(Listed(reg, Wanted(reg, keys, false)), once - Doomed(reg, keys, false));
         forall i | 0 <= i < |reported| :: reported[i].skipped
  {
    var wanted := Wanted(reg, keys, false);
    var once := Seeded(reg, rows, keys, false, create);
    assert once - {} == once;
    AllSkipped(reg, wanted, Listed(reg, wanted), once);
  }

  lemma AllSkipped<R>(reg: Registry, wanted: set<string>, list: seq<string>, rows: Rows<R>)
    requires DistinctKeys(reg) && list == Listed(reg, wanted)
    requires forall k | k in wanted :: k in rows
    ensures forall i | 0 <= i < |Reported(list, rows)| :: Reported(list, rows)[i].skipped
  {
    ListedExactly(reg, wanted, list);
    ReportedAt(list, rows);
    forall i | 0 <= i < |list| ensures list[i] in rows {
      assert list[i] in list;
    }
  }

  /** Replacing rewrites the asked features and what stands on them, and touches no other rows. */
  lemma ReplaceSparesTheRest<R>(reg: Registry, rows: Rows<R>, keys: set<string>, create: string -> R)
    ensures
      var after := Seeded(reg, rows, keys, true, create);
      var doomed := Dependents(reg, keys);
      && (forall k | k in rows && k !in doomed :: k in after && after[k] == rows[k])
      && (forall k | k in doomed :: k in after && after[k] == create(k))
      && (forall k | k in after && k !in rows ::
            exists d :: d in doomed && Reaches(reg, d, k) && after[k] == create(k))
  {
    DependenciesAreLeast(reg, Dependents(reg, keys));
    DependentsAreLeast(reg, keys);
  }
}
