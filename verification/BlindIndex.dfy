/** Blind indexes: equality on encrypted text through derived columns. */
module BlindIndexes {
  import opened Common
  import opened KeyRings
  import opened EncryptedTexts

  /** HMAC, HKDF and Unicode folding, as the libraries supply them. */
  datatype IndexLibrary = IndexLibrary(
    hmac: (Bytes, string) -> string,
    indexKeyOf: Bytes -> Bytes,
    normalise: string -> string,
    digitsOnly: string -> string,
    plainIndexKey: Bytes)
  {
    /** Under one key no two texts share a code. */
    ghost predicate Injective() {
      forall key, a, b :: hmac(key, a) == hmac(key, b) ==> a == b
    }

    /** No two pairs of key and text share a code. */
    ghost predicate JointlyInjective() {
      forall key, other, a, b :: hmac(key, a) == hmac(other, b) ==> key == other && a == b
    }

    /** Data keys have index keys of their own, none of them the public one. */
    ghost predicate SeparateKeys() {
      && (forall a, b :: indexKeyOf(a) == indexKeyOf(b) ==> a == b)
      && (forall a :: indexKeyOf(a) != plainIndexKey)
    }
  }

  /** The key the indexes of this context are computed under; `Err` while locked. */
  function IndexKey(lib: IndexLibrary, ctx: Context): Result<Bytes> {
    if !ctx.encryptionEnabled then Ok(lib.plainIndexKey)
    else match CurrentDataKey(ctx)
      case None => Err
      case Some(key) => Ok(lib.indexKeyOf(key.dek))
  }

  datatype Kind = Normalised | Exact | Digits(last: Option<int>)

  /** Python's `s[start:]`. */
  function SliceFrom(s: string, start: int): string {
    var at := if start < 0 then Max(0, |s| + start) else if start < |s| then start else |s|;
    s[at..]
  }

  /** The digits a digit index is made of: all of them, or the last few. */
  function DigitsOf(lib: IndexLibrary, last: Option<int>, v: string): string {
    var all := lib.digitsOnly(v);
    if last.Some? then SliceFrom(all, -last.value) else all
  }

  /** `blind_index`, `exact_index` and `blind_index_digits` under `key`. */
  function Index(lib: IndexLibrary, key: Bytes, kind: Kind, value: Option<string>): Option<string> {
    match value
    case None => None
    case Some(v) =>
      match kind
      case Normalised => Some(lib.hmac(key, lib.normalise(v)))
      case Exact => Some(lib.hmac(key, "=" + v))
      case Digits(last) =>
        var digits := DigitsOf(lib, last, v);
        if digits == "" then None else Some(lib.hmac(key, "#" + digits))
  }

  /** Two texts share an exact index only when they are the same text. */
  lemma ExactIndexIsEquality(lib: IndexLibrary, key: Bytes, a: Option<string>, b: Option<string>)
    requires lib.Injective()
    ensures Index(lib, key, Exact, a) == Index(lib, key, Exact, b) <==> a == b
  {
    if a.Some? && b.Some? && Index(lib, key, Exact, a) == Index(lib, key, Exact, b) {
      assert ("=" + a.value)[1..] == a.value && ("=" + b.value)[1..] == b.value;
    }
  }

  /**
   * Which kinds can meet under one key: exact and digit indexes never, a normalised index meets an
   * exact one precisely when the normalised text is "=" plus the other, and a digit index precisely
   * when it is "#" plus the other's digits, of which there is one at least.
   */
  lemma KindsMeetIff(lib: IndexLibrary, key: Bytes, v: string, w: string, last: Option<int>)
    requires lib.Injective()
    ensures Index(lib, key, Exact, Some(v)) != Index(lib, key, Digits(last), Some(w))
    ensures Index(lib, key, Normalised, Some(v)) == Index(lib, key, Exact, Some(w))
       <==> lib.normalise(v) == "=" + w
    ensures Index(lib, key, Normalised, Some(v)) == Index(lib, key, Digits(last), Some(w))
       <==> DigitsOf(lib, last, w) != "" && lib.normalise(v) == "#" + DigitsOf(lib, last, w)
  {
    assert ("=" + v)[0] != ("#" + DigitsOf(lib, last, w))[0];
  }

  /** An input: where normalising leaves "=" plus a text alone, it shares its code with the exact index of that text. */
  lemma NormalisedMeetsExact(lib: IndexLibrary, key: Bytes, w: string)
    requires lib.normalise("=" + w) == "=" + w
    ensures Index(lib, key, Normalised, Some("=" + w)) == Index(lib, key, Exact, Some(w))
  {
  }

  /** The last `n` characters, or all of them. */
  function Suffix(s: string, n: nat): string {
    if |s| <= n then s else s[|s| - n..]
  }

  /** Two numbers share the index of their last `n` digits exactly when those digits are the same. */
  lemma DigitIndexIsSuffixEquality(lib: IndexLibrary, key: Bytes, v: string, w: string, n: nat)
    requires lib.Injective() && n > 0
    ensures Index(lib, key, Digits(Some(n)), Some(v)) == Index(lib, key, Digits(Some(n)), Some(w))
       <==> Suffix(lib.digitsOnly(v), n) == Suffix(lib.digitsOnly(w), n)
  {
    var a, b := Suffix(lib.digitsOnly(v), n), Suffix(lib.digitsOnly(w), n);
    assert SliceFrom(lib.digitsOnly(v), 0 - n) == a && SliceFrom(lib.digitsOnly(w), 0 - n) == b;
    assert ("#" + a)[1..] == a && ("#" + b)[1..] == b;
  }

  /**
   * Which digits a digit index takes: all of them without a limit and for a limit of zero, the last few
   * for a positive one, and all but the first few for a negative one.
   */
  lemma DigitsAreSliced(lib: IndexLibrary, v: string, n: nat)
    ensures DigitsOf(lib, None, v) == lib.digitsOnly(v) && DigitsOf(lib, Some(0), v) == lib.digitsOnly(v)
    ensures n > 0 ==> DigitsOf(lib, Some(n), v) == Suffix(lib.digitsOnly(v), n)
    ensures DigitsOf(lib, Some(0 - n), v) == if n <= |lib.digitsOnly(v)| then lib.digitsOnly(v)[n..] else ""
  {
    var all := lib.digitsOnly(v);
    assert all[0..] == all;
  }

  // Which key an index is made under.

  /** The index a value gets in this context; `Err` where computing it raises. */
  function IndexIn(lib: IndexLibrary, ctx: Context, kind: Kind, value: Option<string>): Result<Option<string>> {
    if Index(lib, [], kind, value).None? then Ok(None)
    else match IndexKey(lib, ctx)
      case Err => Err
      case Ok(key) => Ok(Index(lib, key, kind, value))
  }

  /** A context with encryption on and a data key to encrypt under. */
  predicate Encrypts(ctx: Context) {
    ctx.encryptionEnabled && CurrentDataKey(ctx).Some?
  }

  /** Two encrypting contexts give a text the same exact index exactly when they encrypt under the same key. */
  lemma IndexFollowsTheDataKey(lib: IndexLibrary, a: Context, b: Context, text: string)
    requires lib.JointlyInjective() && lib.SeparateKeys() && Encrypts(a) && Encrypts(b)
    ensures IndexIn(lib, a, Exact, Some(text)).Ok? && IndexIn(lib, b, Exact, Some(text)).Ok?
    ensures IndexIn(lib, a, Exact, Some(text)) == IndexIn(lib, b, Exact, Some(text))
       <==> CurrentDataKey(a).value.dek == CurrentDataKey(b).value.dek
  {
  }

  /** No code made while encrypting is one made with encryption off, whatever kinds and texts. */
  lemma EncryptedCodesAreApart(lib: IndexLibrary, on: Context, off: Context, k: Kind, l: Kind, v: Option<string>, w: Option<string>)
    requires lib.JointlyInjective() && lib.SeparateKeys() && Encrypts(on) && !off.encryptionEnabled
    ensures
      var a, b := IndexIn(lib, on, k, v), IndexIn(lib, off, l, w);
      && a.Ok? && b.Ok? && (a.value.Some? ==> a != b)
  {
    var x, y := IndexKey(lib, on).value, IndexKey(lib, off).value;
    assert x != y;
    CodeIsHmac(lib, x, k, v);
    CodeIsHmac(lib, y, l, w);
  }

  lemma CodeIsHmac(lib: IndexLibrary, key: Bytes, kind: Kind, value: Option<string>)
    ensures Index(lib, key, kind, value).Some? ==> exists text :: Index(lib, key, kind, value).value == lib.hmac(key, text)
  {
  }

  /** With encryption off no data key enters: any two such contexts index alike, and nothing raises. */
  lemma PlainIndexNeedsNoKey(lib: IndexLibrary, a: Context, b: Context, kind: Kind, value: Option<string>)
    requires !a.encryptionEnabled && !b.encryptionEnabled
    ensures IndexIn(lib, a, kind, value) == IndexIn(lib, b, kind, value) && IndexIn(lib, a, kind, value).Ok?
  {
  }

  /** While locked exactly the indexes of something raise; and inside a family the resolver changes none. */
  lemma LockedIndexRaises(lib: IndexLibrary, ctx: Context, kind: Kind, value: Option<string>, resolver: Option<Option<DataKey>>)
    ensures ctx.encryptionEnabled && CurrentDataKey(ctx).None? ==>
      (IndexIn(lib, ctx, kind, value).Err? <==> Index(lib, [], kind, value).Some?)
    ensures ctx.tenant.Some? ==> IndexIn(lib, ctx, kind, value) == IndexIn(lib, ctx.(resolver := resolver), kind, value)
  {
  }

  // Rows and the flush hook.

  type Attrs = map<string, Option<string>>

  datatype IndexSpec = IndexSpec(target: string, source: string, kind: Kind)

  function Attr(attrs: Attrs, name: string): Option<string> {
    if name in attrs then attrs[name] else None
  }

  /** The columns a model declares: each target once, and no target is itself a source. */
  predicate WellFormed(specs: seq<IndexSpec>) {
    && (forall i, j | 0 <= i < j < |specs| :: specs[i].target != specs[j].target)
    && (forall i, j | 0 <= i < |specs| && 0 <= j < |specs| :: specs[i].target != specs[j].source)
  }

  predicate IsTarget(specs: seq<IndexSpec>, name: string) {
    exists i :: 0 <= i < |specs| && specs[i].target == name
  }

  /** The two rows differ in index columns at most. */
  ghost predicate SameElsewhere(specs: seq<IndexSpec>, a: Attrs, b: Attrs) {
    forall name | !IsTarget(specs, name) :: (name in a <==> name in b) && Attr(a, name) == Attr(b, name)
  }

  predicate HasSources(specs: seq<IndexSpec>, row: Attrs) {
    forall i | 0 <= i < |specs| :: specs[i].source in row
  }

  /** Every index column agrees with its source under `key`. */
  predicate Indexed(lib: IndexLibrary, key: Bytes, specs: seq<IndexSpec>, attrs: Attrs) {
    forall i | 0 <= i < |specs| ::
      Attr(attrs, specs[i].target) == Index(lib, key, specs[i].kind, Attr(attrs, specs[i].source))
  }

  /** The row with the index columns of the picked specifications recomputed. */
  function FilledWhere(lib: IndexLibrary, key: Bytes, specs: seq<IndexSpec>, attrs: Attrs, pick: IndexSpec -> bool): Attrs
    decreases |specs|
  {
    if specs == [] then attrs
    else
      var s := specs[|specs| - 1];
      var done := FilledWhere(lib, key, specs[..|specs| - 1], attrs, pick);
      if pick(s) then done[s.target := Index(lib, key, s.kind, Attr(attrs, s.source))] else done
  }

  /** What the hook recomputes: all of a new object, of a loaded one where the source changed. */
  function Stale(attrs: Attrs, loaded: Attrs, isNew: bool): IndexSpec -> bool {
    (s: IndexSpec) => isNew || Attr(attrs, s.source) != Attr(loaded, s.source)
  }

  /** What a row written without the hook gets recomputed: the indexes of the sources it carries. */
  function Carried(row: Attrs): IndexSpec -> bool {
    (s: IndexSpec) => s.source in row
  }

  function Filled(lib: IndexLibrary, key: Bytes, specs: seq<IndexSpec>,
                  attrs: Attrs, loaded: Attrs, isNew: bool): Attrs
  {
    FilledWhere(lib, key, specs, attrs, Stale(attrs, loaded, isNew))
  }

  lemma {:induction false} OthersUntouched(
      lib: IndexLibrary, key: Bytes, specs: seq<IndexSpec>, attrs: Attrs, pick: IndexSpec -> bool, name: string)
    requires !IsTarget(specs, name)
    ensures
      var filled := FilledWhere(lib, key, specs, attrs, pick);
      (name in filled <==> name in attrs) && Attr(filled, name) == Attr(attrs, name)
    decreases |specs|
  {
    if specs != [] {
      FrontTarget(specs, name);
      OthersUntouched(lib, key, specs[..|specs| - 1], attrs, pick, name);
      assert specs[|specs| - 1].target != name;
    }
  }

  lemma FrontTarget(specs: seq<IndexSpec>, name: string)
    requires specs != []
    ensures IsTarget(specs[..|specs| - 1], name) ==> IsTarget(specs, name)
  {
    if IsTarget(specs[..|specs| - 1], name) {
      var i :| 0 <= i < |specs| - 1 && specs[..|specs| - 1][i].target == name;
      assert specs[i].target == name;
    }
  }

  lemma {:induction false} ColumnFilled(
      lib: IndexLibrary, key: Bytes, specs: seq<IndexSpec>, attrs: Attrs, pick: IndexSpec -> bool, i: nat)
    requires WellFormed(specs) && i < |specs|
    ensures
      var s := specs[i];
      Attr(FilledWhere(lib, key, specs, attrs, pick), s.target)
      == if pick(s) then Index(lib, key, s.kind, Attr(attrs, s.source)) else Attr(attrs, s.target)
    decreases |specs|
  {
    var before := specs[..|specs| - 1];
    if i < |specs| - 1 {
      assert specs[i] == before[i] && specs[i].target != specs[|specs| - 1].target;
      ColumnFilled(lib, key, before, attrs, pick, i);
    } else {
      assert !IsTarget(before, specs[i].target);
      OthersUntouched(lib, key, before, attrs, pick, specs[i].target);
    }
  }

  lemma FilledColumns(
      lib: IndexLibrary, key: Bytes, specs: seq<IndexSpec>, attrs: Attrs, pick: IndexSpec -> bool)
    requires WellFormed(specs)
    ensures
      var filled := FilledWhere(lib, key, specs, attrs, pick);
      && SameElsewhere(specs, filled, attrs)
      && (forall i | 0 <= i < |specs| :: Attr(filled, specs[i].source) == Attr(attrs, specs[i].source))
      && (forall i | 0 <= i < |specs| ::
            Attr(filled, specs[i].target) == if pick(specs[i]) then Index(lib, key, specs[i].kind, Attr(attrs, specs[i].source))
                                             else Attr(attrs, specs[i].target))
  {
    forall name | !IsTarget(specs, name)
      ensures
        var filled := FilledWhere(lib, key, specs, attrs, pick);
        (name in filled <==> name in attrs) && Attr(filled, name) == Attr(attrs, name)
    {
      OthersUntouched(lib, key, specs, attrs, pick, name);
    }
    forall i | 0 <= i < |specs|
      ensures Attr(FilledWhere(lib, key, specs, attrs, pick), specs[i].source) == Attr(attrs, specs[i].source)
    {
      assert !IsTarget(specs, specs[i].source);
    }
    forall i | 0 <= i < |specs|
      ensures
        Attr(FilledWhere(lib, key, specs, attrs, pick), specs[i].target)
        == if pick(specs[i]) then Index(lib, key, specs[i].kind, Attr(attrs, specs[i].source)) else Attr(attrs, specs[i].target)
    {
      ColumnFilled(lib, key, specs, attrs, pick, i);
    }
  }

  /** Filling the columns before position `i` leaves the source of column `i` as it was. */
  lemma SourceUntouched(
      lib: IndexLibrary, key: Bytes, specs: seq<IndexSpec>, i: nat, attrs: Attrs, pick: IndexSpec -> bool)
    requires WellFormed(specs) && i < |specs|
    ensures
      var filled := FilledWhere(lib, key, specs[..i], attrs, pick);
      Attr(filled, specs[i].source) == Attr(attrs, specs[i].source)
      && (specs[i].source in filled <==> specs[i].source in attrs)
  {
    assert !IsTarget(specs[..i], specs[i].source);
    OthersUntouched(lib, key, specs[..i], attrs, pick, specs[i].source);
  }

  lemma FilledOneMore(
      lib: IndexLibrary, key: Bytes, specs: seq<IndexSpec>, i: nat, attrs: Attrs, pick: IndexSpec -> bool)
    requires i < |specs|
    ensures
      var before, s := FilledWhere(lib, key, specs[..i], attrs, pick), specs[i];
      FilledWhere(lib, key, specs[..i + 1], attrs, pick)
      == if pick(s) then before[s.target := Index(lib, key, s.kind, Attr(attrs, s.source))] else before
  {
    assert specs[..i + 1][..i] == specs[..i];
  }

  /** Computing this index takes a key: there is something to index. */
  predicate TakesKey(lib: IndexLibrary, s: IndexSpec, attrs: Attrs) {
    Index(lib, [], s.kind, Attr(attrs, s.source)).Some?
  }

  /** Some picked index takes a key, so computing them raises while there is none. */
  predicate AnyTakesKey(lib: IndexLibrary, specs: seq<IndexSpec>, attrs: Attrs, pick: IndexSpec -> bool) {
    exists i :: 0 <= i < |specs| && pick(specs[i]) && TakesKey(lib, specs[i], attrs)
  }

  lemma FrontFilledElsewhere(
      lib: IndexLibrary, key: Bytes, specs: seq<IndexSpec>, i: nat, attrs: Attrs, pick: IndexSpec -> bool)
    requires i <= |specs|
    ensures SameElsewhere(specs, FilledWhere(lib, key, specs[..i], attrs, pick), attrs)
  {
    forall name | !IsTarget(specs, name)
      ensures
        var filled := FilledWhere(lib, key, specs[..i], attrs, pick);
        (name in filled <==> name in attrs) && Attr(filled, name) == Attr(attrs, name)
    {
      assert !IsTarget(specs[..i], name);
      OthersUntouched(lib, key, specs[..i], attrs, pick, name);
    }
  }

  /** An object in a session: the indexes its model declares, its attributes, and what they were when it was loaded. */
  class Record {
    const specs: seq<IndexSpec>
    var attrs: Attrs
    var loaded: Attrs

    constructor (specs: seq<IndexSpec>, attrs: Attrs, loaded: Attrs)
      ensures this.specs == specs && this.attrs == attrs && this.loaded == loaded
    {
      this.specs, this.attrs, this.loaded := specs, attrs, loaded;
    }

    /** Whether the hook meets an index of this object that takes a key. */
    ghost predicate Needs(lib: IndexLibrary, isNew: bool)
      reads this
    {
      AnyTakesKey(lib, specs, attrs, Stale(attrs, loaded, isNew))
    }

    /** The hook on this object; `ok` is off when it raises, which it does only for want of a key. */
    method Fill(lib: IndexLibrary, key: Result<Bytes>, isNew: bool) returns (ok: bool)
      requires WellFormed(specs)
      modifies this`attrs
      ensures ok <==> key.Ok? || !old(Needs(lib, isNew))
      ensures ok ==> attrs == Filled(lib, if key.Ok? then key.value else [], specs, old(attrs), loaded, isNew)
      ensures SameElsewhere(specs, attrs, old(attrs))
    {
      ghost var pick := Stale(attrs, loaded, isNew);
      var i := 0;
      while i < |specs|
        invariant 0 <= i <= |specs|
        invariant attrs == FilledWhere(lib, KeyOrNone(key), specs[..i], old(attrs), pick)
        invariant key.Err? ==> forall j | 0 <= j < i :: !(pick(specs[j]) && TakesKey(lib, specs[j], old(attrs)))
      {
        var s := specs[i];
        FilledOneMore(lib, KeyOrNone(key), specs, i, old(attrs), pick);
        SourceUntouched(lib, KeyOrNone(key), specs, i, old(attrs), pick);
        if isNew || Attr(attrs, s.source) != Attr(loaded, s.source) {
          if key.Err? && TakesKey(lib, s, attrs) {
            FrontFilledElsewhere(lib, KeyOrNone(key), specs, i, old(attrs), pick);
            return false;
          }
          attrs := attrs[s.target := Index(lib, KeyOrNone(key), s.kind, Attr(attrs, s.source))];
        }
        i := i + 1;
      }
      FrontFilledElsewhere(lib, KeyOrNone(key), specs, i, old(attrs), pick);
      assert specs[..i] == specs;
      return true;
    }
  }

  /** The key, or nothing where none is needed. */
  function KeyOrNone(key: Result<Bytes>): Bytes {
    if key.Ok? then key.value else []
  }

  /**
   * `_fill_blind_indexes`: the before-flush hook over the objects of a session, of which the first
   * `news` are new and the others dirty. It raises exactly when the household is locked and some
   * object has a stale index to compute. Every object before the one it raises at (all of them when
   * it does not raise) is filled, that one has nothing but index columns touched, the rest are as
   * they were.
   */
  method FillBlindIndexes(lib: IndexLibrary, ctx: Context, all: seq<Record>, news: nat) returns (ok: bool, ghost done: nat)
    requires forall i | 0 <= i < |all| :: WellFormed(all[i].specs)
    requires forall i, j | 0 <= i < j < |all| :: all[i] != all[j]
    modifies all
    ensures ok <==> IndexKey(lib, ctx).Ok? || forall i | 0 <= i < |all| :: !old(all[i].Needs(lib, i < news))
    ensures done <= |all| && (ok <==> done == |all|)
    ensures forall i | 0 <= i < done ::
              all[i].attrs == Filled(lib, if IndexKey(lib, ctx).Ok? then IndexKey(lib, ctx).value else [], all[i].specs,
                                     old(all[i].attrs), old(all[i].loaded), i < news)
    ensures !ok ==> SameElsewhere(all[done].specs, all[done].attrs, old(all[done].attrs))
    ensures forall i | done < i < |all| :: all[i].attrs == old(all[i].attrs)
    ensures forall i | 0 <= i < |all| :: all[i].loaded == old(all[i].loaded)
  {
    var key := IndexKey(lib, ctx);
    var n := 0;
    while n < |all|
      invariant 0 <= n <= |all|
      invariant forall i | 0 <= i < |all| :: all[i].loaded == old(all[i].loaded)
      invariant key.Err? ==> forall i | 0 <= i < n :: !old(all[i].Needs(lib, i < news))
      invariant forall i | 0 <= i < n ::
        all[i].attrs == Filled(lib, KeyOrNone(key), all[i].specs, old(all[i].attrs), old(all[i].loaded), i < news)
      invariant forall i | n <= i < |all| :: all[i].attrs == old(all[i].attrs)
    {
      var filled := all[n].Fill(lib, key, n < news);
      if !filled {
        return false, n;
      }
      n := n + 1;
    }
    return true, n;
  }

  // Runs of adds, edits and flushes.

  /** Rows in the database, and the objects a session holds but has not flushed. */
  datatype Work = Work(stored: map<int, Attrs>, pending: map<int, Attrs>)

  datatype Change = Add(id: int, attrs: Attrs) | Edit(id: int, name: string, value: Option<string>) | Flush

  function Load(w: Work, id: int): Attrs {
    if id in w.pending then w.pending[id] else if id in w.stored then w.stored[id] else map[]
  }

  /** Pending objects not yet in the database are new. */
  function Apply(lib: IndexLibrary, key: Bytes, specs: seq<IndexSpec>, w: Work, c: Change): Work {
    match c
    case Add(id, attrs) => w.(pending := w.pending[id := attrs])
    case Edit(id, name, value) => w.(pending := w.pending[id := Load(w, id)[name := value]])
    case Flush =>
      var flushed := map id | id in w.pending ::
        var isNew := id !in w.stored;
        Filled(lib, key, specs, w.pending[id], if isNew then map[] else w.stored[id], isNew);
      Work(w.stored + flushed, map[])
  }

  /** Application code adds new rows, edits existing ones, and leaves index columns alone. */
  predicate Allowed(specs: seq<IndexSpec>, w: Work, c: Change) {
    match c
    case Add(id, _) => id !in w.stored && id !in w.pending
    case Edit(id, name, _) =>
      (id in w.stored || id in w.pending) && forall i | 0 <= i < |specs| :: specs[i].target != name
    case Flush => true
  }

  predicate AllAllowed(lib: IndexLibrary, key: Bytes, specs: seq<IndexSpec>, w: Work, run: seq<Change>)
    decreases |run|
  {
    run == [] || (Allowed(specs, w, run[0]) && AllAllowed(lib, key, specs, Apply(lib, key, specs, w, run[0]), run[1..]))
  }

  function AfterRun(lib: IndexLibrary, key: Bytes, specs: seq<IndexSpec>, w: Work, run: seq<Change>): Work
    decreases |run|
  {
    if run == [] then w else AfterRun(lib, key, specs, Apply(lib, key, specs, w, run[0]), run[1..])
  }

  /** Stored rows are indexed, and an edited object still carries the index columns it was loaded with. */
  ghost predicate InStep(lib: IndexLibrary, key: Bytes, specs: seq<IndexSpec>, w: Work) {
    && (forall id | id in w.stored :: Indexed(lib, key, specs, w.stored[id]))
    && (forall id | id in w.pending && id in w.stored ::
          forall i | 0 <= i < |specs| ::
            Attr(w.pending[id], specs[i].target) == Attr(w.stored[id], specs[i].target))
  }

  lemma InStepKept(lib: IndexLibrary, key: Bytes, specs: seq<IndexSpec>, w: Work, c: Change)
    requires WellFormed(specs) && InStep(lib, key, specs, w) && Allowed(specs, w, c)
    ensures InStep(lib, key, specs, Apply(lib, key, specs, w, c))
  {
    if c.Flush? {
      forall id | id in w.pending
        ensures
          var isNew := id !in w.stored;
          var loaded := if isNew then map[] else w.stored[id];
          Indexed(lib, key, specs, Filled(lib, key, specs, w.pending[id], loaded, isNew))
      {
        var isNew := id !in w.stored;
        var loaded := if isNew then map[] else w.stored[id];
        FlushedIsIndexed(lib, key, specs, w.pending[id], loaded, isNew);
      }
    }
  }

  /** A flushed object is indexed: recomputed where its source changed, still right where it did not. */
  lemma FlushedIsIndexed(lib: IndexLibrary, key: Bytes, specs: seq<IndexSpec>, attrs: Attrs, loaded: Attrs, isNew: bool)
    requires WellFormed(specs)
    requires !isNew ==> Indexed(lib, key, specs, loaded)
    requires !isNew ==> forall i | 0 <= i < |specs| :: Attr(attrs, specs[i].target) == Attr(loaded, specs[i].target)
    ensures Indexed(lib, key, specs, Filled(lib, key, specs, attrs, loaded, isNew))
  {
    FilledColumns(lib, key, specs, attrs, Stale(attrs, loaded, isNew));
  }

  /** After any run under one key every stored index column equals the index of its source. */
  lemma {:induction false} IndexesStayInStep(
      lib: IndexLibrary, key: Bytes, specs: seq<IndexSpec>, w: Work, run: seq<Change>)
    requires WellFormed(specs) && InStep(lib, key, specs, w) && AllAllowed(lib, key, specs, w, run)
    ensures InStep(lib, key, specs, AfterRun(lib, key, specs, w, run))
    decreases |run|
  {
    if run != [] {
      InStepKept(lib, key, specs, w, run[0]);
      IndexesStayInStep(lib, key, specs, Apply(lib, key, specs, w, run[0]), run[1..]);
    }
  }

  /**
   * Adds and edits reach the session's object and no other, and a flush stores every object the
   * session holds as it is there, but for its index columns, leaves the other rows alone and nothing
   * pending.
   */
  lemma WritesReachTheDatabase(lib: IndexLibrary, key: Bytes, specs: seq<IndexSpec>, w: Work, c: Change, id: int)
    requires WellFormed(specs)
    ensures
      var after := Apply(lib, key, specs, w, c);
      match c
      case Add(new_, attrs) => Load(after, id) == (if id == new_ then attrs else Load(w, id)) && after.stored == w.stored
      case Edit(edited, name, value) =>
        Load(after, id) == (if id == edited then Load(w, id)[name := value] else Load(w, id)) && after.stored == w.stored
      case Flush =>
        && after.pending == map[] && (id in after.stored <==> id in w.stored || id in w.pending)
        && (id in w.pending ==> SameElsewhere(specs, after.stored[id], w.pending[id]))
        && (id in w.stored && id !in w.pending ==> after.stored[id] == w.stored[id])
  {
    if c.Flush? && id in w.pending {
      var isNew := id !in w.stored;
      var loaded := if isNew then map[] else w.stored[id];
      FilledColumns(lib, key, specs, w.pending[id], Stale(w.pending[id], loaded, isNew));
    }
  }

  /** Two indexed rows share an exact index column exactly when they share its source. */
  lemma IndexDecidesName(lib: IndexLibrary, key: Bytes, specs: seq<IndexSpec>, i: nat, a: Attrs, b: Attrs)
    requires lib.Injective() && i < |specs| && specs[i].kind.Exact?
    requires Indexed(lib, key, specs, a) && Indexed(lib, key, specs, b)
    ensures Attr(a, specs[i].target) == Attr(b, specs[i].target)
       <==> Attr(a, specs[i].source) == Attr(b, specs[i].source)
    ensures forall name ::
      (Attr(a, specs[i].target) == Index(lib, key, Exact, Some(name)) <==> Attr(a, specs[i].source) == Some(name))
  {
    ExactIndexIsEquality(lib, key, Attr(a, specs[i].source), Attr(b, specs[i].source));
    forall name
      ensures Attr(a, specs[i].target) == Index(lib, key, Exact, Some(name)) <==> Attr(a, specs[i].source) == Some(name)
    {
      ExactIndexIsEquality(lib, key, Attr(a, specs[i].source), Some(name));
    }
  }

  /**
   * So from an empty database on, looking a name up by its exact index finds exactly the rows of that
   * name, and uniqueness of the index column is uniqueness of the name.
   */
  lemma LookupByIndexIsLookupByName(
      lib: IndexLibrary, key: Bytes, specs: seq<IndexSpec>, run: seq<Change>, i: nat, name: string)
    requires lib.Injective() && WellFormed(specs) && i < |specs| && specs[i].kind.Exact?
    requires AllAllowed(lib, key, specs, Work(map[], map[]), run)
    ensures
      var rows := AfterRun(lib, key, specs, Work(map[], map[]), run).stored;
      var s := specs[i];
      && (set id | id in rows && Attr(rows[id], s.target) == Index(lib, key, Exact, Some(name)))
         == (set id | id in rows && Attr(rows[id], s.source) == Some(name))
      && forall a, b | a in rows && b in rows ::
           Attr(rows[a], s.target) == Attr(rows[b], s.target) <==> Attr(rows[a], s.source) == Attr(rows[b], s.source)
  {
    IndexesStayInStep(lib, key, specs, Work(map[], map[]), run);
    var rows := AfterRun(lib, key, specs, Work(map[], map[]), run).stored;
    forall a, b | a in rows && b in rows
      ensures Attr(rows[a], specs[i].target) == Attr(rows[b], specs[i].target)
         <==> Attr(rows[a], specs[i].source) == Attr(rows[b], specs[i].source)
      ensures Attr(rows[a], specs[i].target) == Index(lib, key, Exact, Some(name))
         <==> Attr(rows[a], specs[i].source) == Some(name)
    {
      IndexDecidesName(lib, key, specs, i, rows[a], rows[b]);
    }
    forall a | a in rows
      ensures Attr(rows[a], specs[i].target) == Index(lib, key, Exact, Some(name))
         <==> Attr(rows[a], specs[i].source) == Some(name)
    {
      IndexDecidesName(lib, key, specs, i, rows[a], rows[a]);
    }
  }

  // Re-indexing rows written without the hook.

  /** `with_blind_indexes`: recomputes every index whose source the row carries. */
  method WithBlindIndexes(lib: IndexLibrary, key: Bytes, specs: seq<IndexSpec>, row: Attrs) returns (out: Attrs)
    requires WellFormed(specs)
    ensures SameElsewhere(specs, out, row)
    ensures forall i | 0 <= i < |specs| ::
              Attr(out, specs[i].target) == if specs[i].source in row
                                            then Index(lib, key, specs[i].kind, row[specs[i].source])
                                            else Attr(row, specs[i].target)
    ensures HasSources(specs, row) ==> Indexed(lib, key, specs, out)
  {
    out := row;
    var n := 0;
    while n < |specs|
      invariant 0 <= n <= |specs|
      invariant out == FilledWhere(lib, key, specs[..n], row, Carried(row))
    {
      assert specs[..n + 1][..n] == specs[..n];
      SourceUntouched(lib, key, specs, n, row, Carried(row));
      if specs[n].source in out {
        out := out[specs[n].target := Index(lib, key, specs[n].kind, out[specs[n].source])];
      }
      n := n + 1;
    }
    assert specs[..n] == specs;
    FilledColumns(lib, key, specs, row, Carried(row));
  }

  /**
   * A whole table recomputed under the key of `ctx`: refused while locked; otherwise every row that
   * carries its sources is indexed under that key, and nothing but index columns has changed.
   */
  method ReindexAll(lib: IndexLibrary, ctx: Context, specs: seq<IndexSpec>, rows: seq<Attrs>)
    returns (out: Result<seq<Attrs>>)
    requires WellFormed(specs)
    ensures out.Err? <==> ctx.encryptionEnabled && CurrentDataKey(ctx).None?
    ensures out.Ok? ==> |out.value| == |rows| && IndexKey(lib, ctx).Ok?
    ensures out.Ok? ==> forall r | 0 <= r < |rows| ::
              && (HasSources(specs, rows[r]) ==> Indexed(lib, IndexKey(lib, ctx).value, specs, out.value[r]))
              && SameElsewhere(specs, out.value[r], rows[r])
  {
    var key := IndexKey(lib, ctx);
    if key.Err? {
      return Err;
    }
    var done: seq<Attrs> := [];
    var n := 0;
    while n < |rows|
      invariant 0 <= n <= |rows| && |done| == n
      invariant forall r | 0 <= r < n ::
        && (HasSources(specs, rows[r]) ==> Indexed(lib, key.value, specs, done[r]))
        && SameElsewhere(specs, done[r], rows[r])
    {
      var row := WithBlindIndexes(lib, key.value, specs, rows[n]);
      done := done + [row];
      n := n + 1;
    }
    out := Ok(done);
  }

  /**
   * A row re-indexed under another data key holds no exact code of the old one: what `ReindexAll`
   * leaves indexed under the new key cannot be looked up under the old.
   */
  lemma OldCodesAreGone(lib: IndexLibrary, old_: Context, new_: Context, specs: seq<IndexSpec>, row: Attrs, i: nat)
    requires lib.JointlyInjective() && lib.SeparateKeys() && Encrypts(new_) && IndexKey(lib, old_).Ok?
    requires !Encrypts(old_) || CurrentDataKey(old_).value.dek != CurrentDataKey(new_).value.dek
    requires i < |specs| && specs[i].kind.Exact? && Attr(row, specs[i].source).Some?
    requires IndexKey(lib, new_).Ok? && Indexed(lib, IndexKey(lib, new_).value, specs, row)
    ensures Attr(row, specs[i].target) == IndexIn(lib, new_, Exact, Attr(row, specs[i].source)).value
    ensures Attr(row, specs[i].target) != Index(lib, IndexKey(lib, old_).value, Exact, Attr(row, specs[i].source))
  {
    assert IndexKey(lib, old_).value != IndexKey(lib, new_).value;
  }
}
