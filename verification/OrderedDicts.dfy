/** Python's insertion-ordered `dict` and `OrderedDict`, as values. */
module OrderedDicts {

  /** `s` without `k`. */
  function Without(s: seq<string>, k: string): seq<string> {
    if s == [] then [] else (if s[0] == k then [] else [s[0]]) + Without(s[1..], k)
  }

  ghost predicate NoDuplicates(s: seq<string>) {
    forall i, j | 0 <= i < j < |s| :: s[i] != s[j]
  }

  lemma {:induction false} WithoutMembers(s: seq<string>, k: string)
    ensures forall x :: x in Without(s, k) <==> x in s && x != k
  {
    if s != [] {
      WithoutMembers(s[1..], k);
    }
  }

  lemma {:induction false} WithoutNoDuplicates(s: seq<string>, k: string)
    requires NoDuplicates(s)
    ensures NoDuplicates(Without(s, k))
    ensures forall x :: x in Without(s, k) <==> x in s && x != k
    ensures |Without(s, k)| == if k in s then |s| - 1 else |s|
  {
    if s != [] {
      WithoutNoDuplicates(s[1..], k);
      assert s[0] !in s[1..];
    }
  }

  lemma {:induction false} WithoutConcat(a: seq<string>, b: seq<string>, k: string)
    ensures Without(a + b, k) == Without(a, k) + Without(b, k)
  {
    if a == [] {
      assert a + b == b;
    } else {
      assert (a + b)[1..] == a[1..] + b;
      WithoutConcat(a[1..], b, k);
    }
  }

  lemma {:induction false} WithoutAbsent(s: seq<string>, k: string)
    requires k !in s
    ensures Without(s, k) == s
  {
    if s != [] {
      WithoutAbsent(s[1..], k);
    }
  }

  /** What stands behind the first `k`; nothing when there is none. */
  function Behind(s: seq<string>, k: string): seq<string> {
    if s == [] then [] else if s[0] == k then s[1..] else Behind(s[1..], k)
  }

  /** What stands before the first `k`; everything when there is none. */
  function Ahead(s: seq<string>, k: string): seq<string> {
    if s == [] || s[0] == k then [] else [s[0]] + Ahead(s[1..], k)
  }

  lemma {:induction false} AheadAndBehind(s: seq<string>, k: string)
    ensures s == Ahead(s, k) + (if k in s then [k] else []) + Behind(s, k)
  {
    if s != [] && s[0] != k {
      AheadAndBehind(s[1..], k);
    }
  }

  lemma {:induction false} NothingBehind(s: seq<string>, k: string)
    requires k !in s
    ensures Behind(s, k) == []
  {
    if s != [] {
      NothingBehind(s[1..], k);
    }
  }

  lemma KeyOnce(order: seq<string>, a: seq<string>, b: seq<string>, key: string)
    requires NoDuplicates(order) && order == a + [key] + b
    ensures forall i | 0 <= i < |a| :: a[i] != key
    ensures forall i | 0 <= i < |b| :: b[i] != key
  {
    assert order[|a|] == key;
    forall i | 0 <= i < |a| ensures a[i] != key {
      assert order[i] == a[i];
    }
    forall i | 0 <= i < |b| ensures b[i] != key {
      assert order[|a| + 1 + i] == b[i];
    }
  }

  /** Keys in insertion order, and what each is bound to. */
  datatype Dict<V> = Dict(order: seq<string>, at: map<string, V>) {

    ghost predicate Valid() {
      && NoDuplicates(order)
      && (forall k :: k in order <==> k in at)
    }

    /** `d[k] = v`: an existing key keeps its place. */
    function Put(k: string, v: V): (d: Dict<V>)
      ensures Valid() ==> d.Valid()
    {
      Dict(if k in at then order else order + [k], at[k := v])
    }

    /** `d.pop(k, None)`. */
    function Pop(k: string): (d: Dict<V>)
      ensures Valid() ==> d.Valid()
    {
      assert Valid() ==> NoDuplicates(Without(order, k)) && forall x :: x in Without(order, k) <==> x in order && x != k by {
        if Valid() {
          WithoutNoDuplicates(order, k);
        }
      }
      if k in at then Dict(Without(order, k), at - {k}) else this
    }

    /** `d.move_to_end(k)`. */
    function MoveToEnd(k: string): (d: Dict<V>)
      requires k in at
      ensures Valid() ==> d.Valid()
    {
      assert Valid() ==> NoDuplicates(Without(order, k)) && forall x :: x in Without(order, k) <==> x in order && x != k by {
        if Valid() {
          WithoutNoDuplicates(order, k);
        }
      }
      Dict(Without(order, k) + [k], at)
    }
  }
}
