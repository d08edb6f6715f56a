/** The registry of example-data seeders and the two closures over its dependencies. */
module SeederRegistry {

  datatype Seeder = Seeder(key: string, dependsOn: seq<string>)

  type Registry = seq<Seeder>

  predicate DistinctKeys(reg: Registry) {
    forall i, j | 0 <= i < j < |reg| :: reg[i].key != reg[j].key
  }

  function Keys(reg: Registry): set<string> {
    set i | 0 <= i < |reg| :: reg[i].key
  }

  /** `SEEDERS_BY_KEY[key].depends_on`. */
  function Deps(reg: Registry, key: string): seq<string> {
    if reg == [] then []
    else if reg[|reg| - 1].key == key then reg[|reg| - 1].dependsOn
    else Deps(reg[..|reg| - 1], key)
  }

  lemma {:induction false} DepsOf(reg: Registry, i: nat)
    requires DistinctKeys(reg) && i < |reg|
    ensures Deps(reg, reg[i].key) == reg[i].dependsOn
  {
    if i < |reg| - 1 {
      assert reg[i].key != reg[|reg| - 1].key;
      assert reg[..|reg| - 1][i] == reg[i];
      DepsOf(reg[..|reg| - 1], i);
    }
  }

  /** `a` is registered and stands directly on the registered `b`. */
  predicate StandsOn(reg: Registry, a: string, b: string) {
    a in Keys(reg) && b in Keys(reg) && b in Deps(reg, a)
  }

  // Reachability is the reference both closures are measured against.

  ghost predicate IsPath(reg: Registry, p: seq<string>) {
    && p != []
    && (forall i | 0 <= i < |p| :: p[i] in Keys(reg))
    && (forall i | 0 <= i < |p| - 1 :: StandsOn(reg, p[i], p[i + 1]))
  }

  /** A chain of dependencies leads from `a` to `b`. */
  ghost predicate Reaches(reg: Registry, a: string, b: string) {
    exists p :: IsPath(reg, p) && p[0] == a && p[|p| - 1] == b
  }

  ghost function Dependencies(reg: Registry, roots: set<string>): set<string> {
    set k | k in Keys(reg) && exists r :: r in roots && Reaches(reg, r, k)
  }

  ghost function Dependents(reg: Registry, roots: set<string>): set<string> {
    set k | k in Keys(reg) && exists r :: r in roots && Reaches(reg, k, r)
  }

  ghost predicate DependencyClosed(reg: Registry, s: set<string>) {
    forall a, b | StandsOn(reg, a, b) && a in s :: b in s
  }

  ghost predicate DependentClosed(reg: Registry, s: set<string>) {
    forall a, b | StandsOn(reg, a, b) && b in s :: a in s
  }

  lemma ReachesItself(reg: Registry, a: string)
    requires a in Keys(reg)
    ensures Reaches(reg, a, a)
  {
    assert IsPath(reg, [a]);
  }

  lemma ReachesFurther(reg: Registry, a: string, b: string, c: string)
    ensures Reaches(reg, a, b) && StandsOn(reg, b, c) ==> Reaches(reg, a, c)
    ensures StandsOn(reg, a, b) && Reaches(reg, b, c) ==> Reaches(reg, a, c)
  {
    if Reaches(reg, a, b) && StandsOn(reg, b, c) {
      var p :| IsPath(reg, p) && p[0] == a && p[|p| - 1] == b;
      assert IsPath(reg, p + [c]);
    }
    if StandsOn(reg, a, b) && Reaches(reg, b, c) {
      var p :| IsPath(reg, p) && p[0] == b && p[|p| - 1] == c;
      var q := [a] + p;
      forall i | 0 <= i < |q| - 1 ensures StandsOn(reg, q[i], q[i + 1]) {
        assert i > 0 ==> q[i] == p[i - 1] && q[i + 1] == p[i];
      }
      assert IsPath(reg, q);
    }
  }

  lemma {:induction false} PathStaysInside(reg: Registry, s: set<string>, p: seq<string>)
    requires IsPath(reg, p)
    ensures DependencyClosed(reg, s) && p[0] in s ==> p[|p| - 1] in s
    ensures DependentClosed(reg, s) && p[|p| - 1] in s ==> p[0] in s
    decreases |p|
  {
    if |p| > 1 {
      var q := p[1..];
      assert StandsOn(reg, p[0], p[1]);
      forall i | 0 <= i < |q| - 1 ensures StandsOn(reg, q[i], q[i + 1]) {
        assert q[i] == p[i + 1] && q[i + 1] == p[i + 2];
      }
      PathStaysInside(reg, s, q);
    }
  }

  /** The dependencies of `roots` are the least closed set of registered keys that holds them. */
  lemma DependenciesAreLeast(reg: Registry, roots: set<string>)
    ensures DependencyClosed(reg, Dependencies(reg, roots))
    ensures roots * Keys(reg) <= Dependencies(reg, roots) <= Keys(reg)
    ensures forall s | DependencyClosed(reg, s) && roots * Keys(reg) <= s :: Dependencies(reg, roots) <= s
  {
    forall k | k in roots && k in Keys(reg) ensures k in Dependencies(reg, roots) {
      ReachesItself(reg, k);
    }
    forall a, b | StandsOn(reg, a, b) && a in Dependencies(reg, roots) ensures b in Dependencies(reg, roots) {
      var r :| r in roots && Reaches(reg, r, a);
      ReachesFurther(reg, r, a, b);
    }
    forall s, k | DependencyClosed(reg, s) && roots * Keys(reg) <= s && k in Dependencies(reg, roots)
      ensures k in s
    {
      var r :| r in roots && Reaches(reg, r, k);
      var p :| IsPath(reg, p) && p[0] == r && p[|p| - 1] == k;
      PathStaysInside(reg, s, p);
    }
  }

  /** And the dependents are the least set closed the other way. */
  lemma DependentsAreLeast(reg: Registry, roots: set<string>)
    ensures DependentClosed(reg, Dependents(reg, roots))
    ensures roots * Keys(reg) <= Dependents(reg, roots) <= Keys(reg)
    ensures forall s | DependentClosed(reg, s) && roots * Keys(reg) <= s :: Dependents(reg, roots) <= s
  {
    forall k | k in roots && k in Keys(reg) ensures k in Dependents(reg, roots) {
      ReachesItself(reg, k);
    }
    forall a, b | StandsOn(reg, a, b) && b in Dependents(reg, roots) ensures a in Dependents(reg, roots) {
      var r :| r in roots && Reaches(reg, b, r);
      ReachesFurther(reg, a, b, r);
    }
    forall s, k | DependentClosed(reg, s) && roots * Keys(reg) <= s && k in Dependents(reg, roots)
      ensures k in s
    {
      var r :| r in roots && Reaches(reg, k, r);
      var p :| IsPath(reg, p) && p[0] == k && p[|p| - 1] == r;
      PathStaysInside(reg, s, p);
    }
  }

  /** The two closures are converse: `b` stands on `a` exactly when `a` is under `b`. */
  lemma ClosuresAreConverse(reg: Registry, a: string, b: string)
    requires a in Keys(reg) && b in Keys(reg)
    ensures b in Dependents(reg, {a}) <==> a in Dependencies(reg, {b})
  {
  }

  // The algorithms.

  /** The keys of `s` in registry order. */
  function Listed(reg: Registry, s: set<string>): seq<string> {
    if reg == [] then []
    else
      var last := reg[|reg| - 1].key;
      Listed(reg[..|reg| - 1], s) + (if last in s then [last] else [])
  }

  /** The position of a registered key. */
  function Position(reg: Registry, key: string): int {
    if reg == [] then -1
    else if reg[|reg| - 1].key == key then |reg| - 1
    else Position(reg[..|reg| - 1], key)
  }

  lemma {:induction false} PositionOf(reg: Registry, key: string)
    ensures key in Keys(reg) ==> 0 <= Position(reg, key) < |reg| && reg[Position(reg, key)].key == key
  {
    if key in Keys(reg) && reg[|reg| - 1].key != key {
      var front := reg[..|reg| - 1];
      var i :| 0 <= i < |reg| && reg[i].key == key;
      assert front[i].key == key;
      PositionOf(front, key);
    }
  }

  /** The list holds exactly the registered keys of `s`, each once, in registry order. */
  lemma {:induction false} ListedExactly(reg: Registry, s: set<string>, list: seq<string>)
    requires DistinctKeys(reg) && list == Listed(reg, s)
    ensures forall k :: k in list <==> k in s && k in Keys(reg)
    ensures forall i, j | 0 <= i < j < |list| :: Position(reg, list[i]) < Position(reg, list[j])
  {
    if reg != [] {
      var front, last := reg[..|reg| - 1], reg[|reg| - 1].key;
      var before := Listed(front, s);
      ListedExactly(front, s, before);
      forall k ensures k in Keys(reg) <==> k in Keys(front) || k == last {
        if k in Keys(reg) && k != last {
          var i :| 0 <= i < |reg| && reg[i].key == k;
          assert front[i].key == k;
        }
        if k in Keys(front) {
          var i :| 0 <= i < |front| && front[i].key == k;
          assert reg[i].key == k;
        }
      }
      forall k | k in Keys(front) ensures k != last && Position(reg, k) == Position(front, k) < |front| {
        PositionOf(front, k);
      }
      forall i, j | 0 <= i < j < |list| ensures Position(reg, list[i]) < Position(reg, list[j]) {
        assert list[i] == before[i] && before[i] in before;
        if j < |before| {
          assert list[j] == before[j] && before[j] in before;
        }
      }
    }
  }

  /** The depth-first walk: adds `key` and what it stands on to `wanted`. Cycles do not matter. */
  method Walk(reg: Registry, key: string, wanted: set<string>, ghost bound: set<string>)
    returns (after: set<string>)
    requires DependencyClosed(reg, bound) && (key in Keys(reg) ==> key in bound)
    ensures wanted <= after <= wanted + bound * Keys(reg)
    ensures key in Keys(reg) ==> key in after
    ensures forall a, b | StandsOn(reg, a, b) && a in after && a !in wanted :: b in after
    decreases Keys(reg) - wanted
  {
    after := wanted;
    if key in wanted || key !in Keys(reg) {
      return;
    }
    after := after + {key};
    var deps := Deps(reg, key);
    var i := 0;
    while i < |deps|
      invariant 0 <= i <= |deps|
      invariant wanted + {key} <= after <= wanted + bound * Keys(reg)
      invariant forall j | 0 <= j < i && deps[j] in Keys(reg) :: deps[j] in after
      invariant forall a, b | StandsOn(reg, a, b) && a in after && a !in wanted && a != key :: b in after
    {
      assert deps[i] in Keys(reg) ==> StandsOn(reg, key, deps[i]);
      after := Walk(reg, deps[i], after, bound);
      i := i + 1;
    }
    forall b | StandsOn(reg, key, b) ensures b in after {
      var j :| 0 <= j < |deps| && deps[j] == b;
    }
  }

  /** `_with_dependencies`. */
  method WithDependencies(reg: Registry, keys: set<string>) returns (list: seq<string>)
    requires DistinctKeys(reg)
    ensures list == Listed(reg, Dependencies(reg, keys))
    ensures forall k :: k in list <==> k in Dependencies(reg, keys)
    ensures forall i, j | 0 <= i < j < |list| :: Position(reg, list[i]) < Position(reg, list[j])
  {
    DependenciesAreLeast(reg, keys);
    var wanted: set<string> := {};
    var rest := keys;
    while rest != {}
      invariant rest <= keys
      invariant wanted <= Dependencies(reg, keys)
      invariant (keys - rest) * Keys(reg) <= wanted
      invariant DependencyClosed(reg, wanted)
      decreases rest
    {
      var key :| key in rest;
      wanted := Walk(reg, key, wanted, Dependencies(reg, keys));
      rest := rest - {key};
    }
    assert wanted == Dependencies(reg, keys);
    list := Listed(reg, wanted);
    ListedExactly(reg, wanted, list);
  }

  /** `set(deps) & wanted` is not empty. */
  predicate Meets(deps: seq<string>, wanted: set<string>) {
    exists d :: d in deps && d in wanted
  }

  /** None of the first `n` seeders stands on `wanted` without being in it. */
  predicate SweptTo(reg: Registry, wanted: set<string>, n: nat)
    requires n <= |reg|
  {
    forall j | 0 <= j < n :: reg[j].key in wanted || !Meets(reg[j].dependsOn, wanted)
  }

  lemma SweptIsClosed(reg: Registry, wanted: set<string>)
    requires DistinctKeys(reg) && SweptTo(reg, wanted, |reg|)
    ensures DependentClosed(reg, wanted)
  {
    forall a, b | StandsOn(reg, a, b) && b in wanted ensures a in wanted {
      var j :| 0 <= j < |reg| && reg[j].key == a;
      DepsOf(reg, j);
    }
  }

  /** One sweep over the registry: adds every seeder that stands on what is wanted so far. */
  method Sweep(reg: Registry, wanted: set<string>, ghost bound: set<string>) returns (after: set<string>, changed: bool)
    requires DistinctKeys(reg) && DependentClosed(reg, bound) && wanted <= bound <= Keys(reg)
    ensures wanted <= after <= bound
    ensures changed ==> wanted < after && after - wanted <= Keys(reg)
    ensures !changed ==> after == wanted && SweptTo(reg, after, |reg|)
  {
    after, changed := wanted, false;
    var i := 0;
    while i < |reg|
      invariant 0 <= i <= |reg|
      invariant wanted <= after <= bound && after - wanted <= Keys(reg)
      invariant changed ==> wanted < after
      invariant !changed ==> after == wanted && SweptTo(reg, after, i)
    {
      if reg[i].key !in after && Meets(reg[i].dependsOn, after) {
        StandingOnIsBound(reg, i, after, bound);
        after := after + {reg[i].key};
        changed := true;
      }
      i := i + 1;
    }
  }

  lemma StandingOnIsBound(reg: Registry, i: nat, wanted: set<string>, bound: set<string>)
    requires DistinctKeys(reg) && i < |reg| && DependentClosed(reg, bound)
    requires wanted <= bound <= Keys(reg) && Meets(reg[i].dependsOn, wanted)
    ensures reg[i].key in bound
  {
    DepsOf(reg, i);
    var d :| d in reg[i].dependsOn && d in wanted;
    assert StandsOn(reg, reg[i].key, d);
  }

  /** `_with_dependents`: sweeps the registry until a sweep adds nothing. */
  method WithDependents(reg: Registry, keys: set<string>) returns (wanted: set<string>)
    requires DistinctKeys(reg)
    ensures wanted == Dependents(reg, keys)
  {
    DependentsAreLeast(reg, keys);
    wanted := set k | k in keys && k in Keys(reg);
    var changed := true;
    while changed
      invariant keys * Keys(reg) <= wanted <= Dependents(reg, keys)
      invariant !changed ==> DependentClosed(reg, wanted)
      decreases Keys(reg) - wanted, changed
    {
      wanted, changed := Sweep(reg, wanted, Dependents(reg, keys));
      if !changed {
        SweptIsClosed(reg, wanted);
      }
    }
  }
}
