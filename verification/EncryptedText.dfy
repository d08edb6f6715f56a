/** The `EncryptedText` column type: what a value looks like in the database, and who can read it. */
module EncryptedTexts {
  import opened Common
  import opened KeyRings

  const TEXT_FORMAT_PLAIN: Byte := 0x00
  const TEXT_FORMAT_AES_GCM: Byte := 0x01
  const NONCE_BYTES := 12

  type Nonce = n: Bytes | |n| == NONCE_BYTES witness [0, 0, 0, 0, 0, 0, 0, 0, 0, 0, 0, 0]

  /** AES-GCM (key, nonce, data, associated data) and UTF-8, as the libraries supply them. */
  datatype Library = Library(
    seal: (Bytes, Nonce, Bytes, string) -> Bytes,
    open: (Bytes, Bytes, Bytes, string) -> Option<Bytes>,
    encode: string -> Bytes,
    decode: Bytes -> Option<string>)
  {
    /** Opening under the same key, nonce and associated data gives back what was sealed. */
    ghost predicate Lawful() {
      && (forall dek, nonce: Nonce, plain, aad :: open(dek, nonce, seal(dek, nonce, plain, aad), aad) == Some(plain))
      && (forall s :: decode(encode(s)) == Some(s))
    }

    /** No other key opens it. */
    ghost predicate Authentic() {
      forall dek, other, nonce: Nonce, plain, aad | dek != other ::
        open(other, nonce, seal(dek, nonce, plain, aad), aad) == None
    }
  }

  /**
   * The settings and context variables a bind or a read runs under. `tenant` is the data key of the
   * current family, when there is one; `resolver` is what the installed resolver answers.
   */
  datatype Context = Context(
    encryptionEnabled: bool,
    explicitKey: Option<DataKey>,
    tenant: Option<Option<DataKey>>,
    resolver: Option<Option<DataKey>>,
    previousKey: Option<DataKey>)

  function CurrentDataKey(ctx: Context): Option<DataKey> {
    if ctx.explicitKey.Some? then ctx.explicitKey
    else if ctx.tenant.Some? then ctx.tenant.value
    else if ctx.resolver.Some? then ctx.resolver.value
    else None
  }

  datatype Column = Column(aad: string, plaintextWhileLocked: bool)

  datatype Value = Null | Text(s: string) | Stored(b: Bytes)

  /** `process_bind_param`. */
  function Bind(lib: Library, ctx: Context, col: Column, value: Value, nonce: Nonce): Result<Option<Bytes>> {
    match value
    case Null => Ok(None)
    case Stored(b) =>
      if b == [] || !(b[0] == TEXT_FORMAT_AES_GCM || (!ctx.encryptionEnabled && b[0] == TEXT_FORMAT_PLAIN))
      then Err else Ok(Some(b))
    case Text(s) =>
      var plain := lib.encode(s);
      if !ctx.encryptionEnabled then Ok(Some([TEXT_FORMAT_PLAIN] + plain))
      else match CurrentDataKey(ctx)
        case None => if col.plaintextWhileLocked then Ok(Some([TEXT_FORMAT_PLAIN] + plain)) else Err
        case Some(key) => Ok(Some(Sealed(lib, key, nonce, plain, col)))
  }

  function Sealed(lib: Library, key: DataKey, nonce: Nonce, plain: Bytes, col: Column): Bytes {
    [TEXT_FORMAT_AES_GCM, key.version] + nonce + lib.seal(key.dek, nonce, plain, col.aad)
  }

  function Decoded(text: Option<string>): Result<Option<string>> {
    if text.Some? then Ok(text) else Err
  }

  /** The key the reader settles on for a header's version byte. */
  function ReadKey(ctx: Context, key: DataKey, version: Byte): DataKey {
    if version != key.version && ctx.previousKey.Some? && ctx.previousKey.value.version == version
    then ctx.previousKey.value else key
  }

  /** `process_result_value`; a header cut short after its format byte raises like the rest. */
  function Read(lib: Library, ctx: Context, col: Column, value: Option<Bytes>): Result<Option<string>> {
    if value.None? then Ok(None)
    else
      var v := value.value;
      if v == [] then Err
      else if v[0] == TEXT_FORMAT_PLAIN then Decoded(lib.decode(v[1..]))
      else if v[0] != TEXT_FORMAT_AES_GCM then Err
      else match CurrentDataKey(ctx)
        case None => Err
        case Some(current) =>
          if |v| < 2 then Err
          else
            var key := ReadKey(ctx, current, v[1]);
            if v[1] != key.version then Err
            else
              var cut := if |v| < 2 + NONCE_BYTES then |v| else 2 + NONCE_BYTES;
              match lib.open(key.dek, v[2..cut], v[cut..], col.aad)
              case None => Err
              case Some(plain) => Decoded(lib.decode(plain))
  }

  /**
   * Inside a family the installed resolver changes no bind and no read: without an explicit key the
   * family's own key is used, and without that the family is locked whatever the resolver answers.
   */
  lemma FamilyKeyWins(lib: Library, ctx: Context, resolver: Option<Option<DataKey>>, col: Column,
                      value: Value, nonce: Nonce, stored: Option<Bytes>)
    requires ctx.tenant.Some?
    ensures
      var other := ctx.(resolver := resolver);
      && Bind(lib, ctx, col, value, nonce) == Bind(lib, other, col, value, nonce)
      && Read(lib, ctx, col, stored) == Read(lib, other, col, stored)
      && (ctx.encryptionEnabled && ctx.explicitKey.None? && value.Text? ==>
            Bind(lib, ctx, col, value, nonce)
            == match ctx.tenant.value
               case Some(key) => Ok(Some(Sealed(lib, key, nonce, lib.encode(value.s), col)))
               case None =>
                 if col.plaintextWhileLocked then Ok(Some([TEXT_FORMAT_PLAIN] + lib.encode(value.s))) else Err)
  {
  }

  /** An explicit key wins over both. */
  lemma ExplicitKeyWins(lib: Library, ctx: Context, other: Context, col: Column, s: string, nonce: Nonce)
    requires ctx.encryptionEnabled && other.encryptionEnabled
    requires ctx.explicitKey.Some? && other.explicitKey == ctx.explicitKey
    ensures Bind(lib, ctx, col, Text(s), nonce) == Bind(lib, other, col, Text(s), nonce)
    ensures Bind(lib, ctx, col, Text(s), nonce)
         == Ok(Some(Sealed(lib, ctx.explicitKey.value, nonce, lib.encode(s), col)))
  {
  }

  /** Bytes already in the column's format go in as they are: sealed ones always, plain ones with encryption off, others never. */
  lemma StoredBytesPass(lib: Library, ctx: Context, col: Column, b: Bytes, nonce: Nonce)
    ensures
      var bound := Bind(lib, ctx, col, Stored(b), nonce);
      && (bound == Ok(Some(b)) || bound == Err)
      && (bound == Ok(Some(b)) <==>
            b != [] && (b[0] == TEXT_FORMAT_AES_GCM || (b[0] == TEXT_FORMAT_PLAIN && !ctx.encryptionEnabled)))
  {
  }

  // Who reads what was written.

  lemma SealedParts(lib: Library, key: DataKey, nonce: Nonce, plain: Bytes, col: Column)
    ensures
      var v := Sealed(lib, key, nonce, plain, col);
      && |v| >= 2 + NONCE_BYTES && v[0] == TEXT_FORMAT_AES_GCM && v[1] == key.version
      && v[2..2 + NONCE_BYTES] == nonce
      && v[2 + NONCE_BYTES..] == lib.seal(key.dek, nonce, plain, col.aad)
  {
  }

  /** The reader picks the writing key: it is the current one, or the previous one by a version of its own. */
  predicate Picks(ctx: Context, writer: DataKey) {
    var current := CurrentDataKey(ctx);
    && current.Some?
    && (|| (current.value.version == writer.version && current.value.dek == writer.dek)
        || (current.value.version != writer.version && ctx.previousKey.Some?
            && ctx.previousKey.value.version == writer.version && ctx.previousKey.value.dek == writer.dek))
  }

  /** A value sealed under `writer` reads back exactly when the reader picks that key, and never as another text. */
  lemma SealedReadsIff(lib: Library, ctx: Context, col: Column, writer: DataKey, s: string, nonce: Nonce)
    requires lib.Lawful()
    ensures
      var read := Read(lib, ctx, col, Some(Sealed(lib, writer, nonce, lib.encode(s), col)));
      && (Picks(ctx, writer) ==> read == Ok(Some(s)))
      && (lib.Authentic() ==> (read == Ok(Some(s)) <==> Picks(ctx, writer))
                              && (read != Err ==> read == Ok(Some(s))))
  {
    SealedParts(lib, writer, nonce, lib.encode(s), col);
  }

  /** What a bind stores, a read under the same context gives back; a bind refuses only while locked. */
  lemma BindReadsBack(lib: Library, ctx: Context, col: Column, s: string, nonce: Nonce)
    requires lib.Lawful()
    ensures
      match Bind(lib, ctx, col, Text(s), nonce)
      case Ok(stored) => stored.Some? && Read(lib, ctx, col, stored) == Ok(Some(s))
      case Err => ctx.encryptionEnabled && CurrentDataKey(ctx).None? && !col.plaintextWhileLocked
  {
    var key := CurrentDataKey(ctx);
    if ctx.encryptionEnabled && key.Some? {
      SealedReadsIff(lib, ctx, col, key.value, s, nonce);
    } else {
      assert ([TEXT_FORMAT_PLAIN] + lib.encode(s))[1..] == lib.encode(s);
    }
  }

  /** While encryption is on nothing is stored plain, but for text on a column that may be while locked. */
  lemma NothingPlainWhileEncrypting(lib: Library, ctx: Context, col: Column, value: Value, nonce: Nonce)
    requires ctx.encryptionEnabled
    ensures
      var r := Bind(lib, ctx, col, value, nonce);
      r.Ok? && r.value.Some? ==>
        && r.value.value != []
        && (r.value.value[0] == TEXT_FORMAT_AES_GCM
            || (value.Text? && CurrentDataKey(ctx).None? && col.plaintextWhileLocked))
  {
  }
}

/** The pass that moves a household's rows from one data key to the next. */
module Rekeying {
  import opened Common
  import opened KeyRings
  import opened EncryptedTexts

  datatype Cell = Cell(col: Column, stored: Option<Bytes>)

  type Row = seq<Cell>

  /** Reads under either key, writes under the new one, whatever family and resolver are around. */
  function RekeyContext(base: Context, old_: DataKey, new_: DataKey): Context {
    base.(encryptionEnabled := true, explicitKey := Some(new_), previousKey := Some(old_))
  }

  /** Once the pass is over only the new key is at hand. */
  function NewContext(base: Context, new_: DataKey): Context {
    base.(encryptionEnabled := true, explicitKey := Some(new_), previousKey := None)
  }

  function ReadCell(lib: Library, ctx: Context, cell: Cell): Result<Option<string>> {
    Read(lib, ctx, cell.col, cell.stored)
  }

  function ReadRow(lib: Library, ctx: Context, row: Row): seq<Result<Option<string>>> {
    seq(|row|, i requires 0 <= i < |row| => ReadCell(lib, ctx, row[i]))
  }

  function ReadRows(lib: Library, ctx: Context, rows: seq<Row>): seq<seq<Result<Option<string>>>> {
    seq(|rows|, i requires 0 <= i < |rows| => ReadRow(lib, ctx, rows[i]))
  }

  /** Read the cell and bind what it holds; `Err` when either raises. */
  function RewriteCell(lib: Library, ctx: Context, cell: Cell, nonce: Nonce): Result<Cell> {
    match ReadCell(lib, ctx, cell)
    case Err => Err
    case Ok(text) =>
      match Bind(lib, ctx, cell.col, if text.None? then Null else Text(text.value), nonce)
      case Err => Err
      case Ok(stored) => Ok(cell.(stored := stored))
  }

  /** The cell carries this key version in its header. */
  predicate UnderVersion(cell: Cell, version: Byte) {
    && cell.stored.Some? && |cell.stored.value| >= 2
    && cell.stored.value[0] == TEXT_FORMAT_AES_GCM && cell.stored.value[1] == version
  }

  /** Plaintext, old and new values side by side all read during a re-key between distinct versions. */
  lemma MixedValuesRead(lib: Library, base: Context, old_: DataKey, new_: DataKey, col: Column, s: string, nonce: Nonce)
    requires lib.Lawful() && old_.version != new_.version
    ensures forall stored ::
      stored in {[TEXT_FORMAT_PLAIN] + lib.encode(s), Sealed(lib, old_, nonce, lib.encode(s), col),
                 Sealed(lib, new_, nonce, lib.encode(s), col)} ==>
        Read(lib, RekeyContext(base, old_, new_), col, Some(stored)) == Ok(Some(s))
  {
    var ctx := RekeyContext(base, old_, new_);
    SealedReadsIff(lib, ctx, col, old_, s, nonce);
    SealedReadsIff(lib, ctx, col, new_, s, nonce);
    assert ([TEXT_FORMAT_PLAIN] + lib.encode(s))[1..] == lib.encode(s);
  }

  /** A reader with the new key alone cannot read what is still under the old one, so what it does read was rewritten. */
  lemma NewKeyAloneReadsNoOldValue(lib: Library, base: Context, old_: DataKey, new_: DataKey, col: Column, s: string, nonce: Nonce)
    requires lib.Lawful() && lib.Authentic() && old_.dek != new_.dek
    ensures Read(lib, NewContext(base, new_), col, Some(Sealed(lib, old_, nonce, lib.encode(s), col))) == Err
  {
    SealedReadsIff(lib, NewContext(base, new_), col, old_, s, nonce);
  }

  /** The rows a pass picks up: all, or those with a cell still under one version. */
  predicate Selected(row: Row, onlyVersion: Option<Byte>) {
    onlyVersion.None? || exists i :: 0 <= i < |row| && UnderVersion(row[i], onlyVersion.value)
  }

  ghost predicate Readable(lib: Library, ctx: Context, row: Row) {
    forall i | 0 <= i < |row| :: ReadCell(lib, ctx, row[i]).Ok?
  }

  /** Every value the cell holds is under the new key. */
  predicate Settled(cell: Cell, new_: DataKey) {
    cell.stored.None? || UnderVersion(cell, new_.version)
  }

  lemma RewrittenCell(lib: Library, base: Context, old_: DataKey, new_: DataKey, cell: Cell, nonce: Nonce)
    requires lib.Lawful()
    requires ReadCell(lib, RekeyContext(base, old_, new_), cell).Ok?
    ensures
      var ctx := RekeyContext(base, old_, new_);
      var after := RewriteCell(lib, ctx, cell, nonce);
      && after.Ok? && after.value.col == cell.col && Settled(after.value, new_)
      && ReadCell(lib, ctx, after.value) == ReadCell(lib, ctx, cell)
      && ReadCell(lib, NewContext(base, new_), after.value) == ReadCell(lib, ctx, cell)
  {
    var ctx := RekeyContext(base, old_, new_);
    var text := ReadCell(lib, ctx, cell).value;
    if text.Some? {
      SealedParts(lib, new_, nonce, lib.encode(text.value), cell.col);
      SealedReadsIff(lib, ctx, cell.col, new_, text.value, nonce);
      SealedReadsIff(lib, NewContext(base, new_), cell.col, new_, text.value, nonce);
    }
  }

  /** A cell that reads and is not under the old version does not need the old key. */
  lemma OldKeyNotNeeded(lib: Library, base: Context, old_: DataKey, new_: DataKey, cell: Cell)
    requires ReadCell(lib, RekeyContext(base, old_, new_), cell).Ok?
    requires old_.version == new_.version || !UnderVersion(cell, old_.version)
    ensures ReadCell(lib, NewContext(base, new_), cell) == ReadCell(lib, RekeyContext(base, old_, new_), cell)
    ensures cell.stored.None? || cell.stored.value[0] == TEXT_FORMAT_PLAIN || Settled(cell, new_)
  {
  }

  /**
   * What a pass over `before[from..upTo]` leaves: every row keeps its text for a reader of both
   * keys, the selected rows of the range are under the new key alone, the others are untouched.
   */
  ghost predicate Passed(lib: Library, base: Context, old_: DataKey, new_: DataKey, onlyVersion: Option<Byte>,
                         before: seq<Row>, after: seq<Row>, from: nat, upTo: nat)
  {
    var ctx := RekeyContext(base, old_, new_);
    && |after| == |before|
    && (forall r | 0 <= r < |after| ::
          Readable(lib, ctx, after[r]) && ReadRow(lib, ctx, after[r]) == ReadRow(lib, ctx, before[r]))
    && (forall r | 0 <= r < |after| && from <= r < upTo && Selected(before[r], onlyVersion) ::
          && ReadRow(lib, NewContext(base, new_), after[r]) == ReadRow(lib, ctx, before[r])
          && forall j | 0 <= j < |after[r]| :: Settled(after[r][j], new_))
    && (forall r | 0 <= r < |after| && !(from <= r < upTo && Selected(before[r], onlyVersion)) ::
          after[r] == before[r])
  }

  /**
   * A pass interrupted at any row and started over leaves every value under the new key, readable
   * without the old one, with the text it had before the first attempt.
   */
  lemma InterruptedPassResumes(lib: Library, base: Context, old_: DataKey, new_: DataKey,
                               before: seq<Row>, between: seq<Row>, after: seq<Row>, stop: nat)
    requires Passed(lib, base, old_, new_, None, before, between, 0, stop)
    requires Passed(lib, base, old_, new_, None, between, after, 0, |before|)
    ensures ReadRows(lib, NewContext(base, new_), after) == ReadRows(lib, RekeyContext(base, old_, new_), before)
    ensures forall r, j | 0 <= r < |after| && 0 <= j < |after[r]| :: Settled(after[r][j], new_)
  {
    forall r | 0 <= r < |after|
      ensures ReadRow(lib, NewContext(base, new_), after[r]) == ReadRow(lib, RekeyContext(base, old_, new_), before[r])
    {
      assert Selected(between[r], None);
    }
  }

  /**
   * Writes that land under the old key after the pass are caught by the sweep for its version:
   * afterwards nothing carries that version and nothing needs the old key, whatever was written.
   */
  lemma SweepCatchesStragglers(lib: Library, base: Context, old_: DataKey, new_: DataKey,
                               written: seq<Row>, swept: seq<Row>)
    requires old_.version != new_.version
    requires forall r | 0 <= r < |written| :: Readable(lib, RekeyContext(base, old_, new_), written[r])
    requires Passed(lib, base, old_, new_, Some(old_.version), written, swept, 0, |written|)
    ensures ReadRows(lib, NewContext(base, new_), swept) == ReadRows(lib, RekeyContext(base, old_, new_), written)
    ensures forall r, j | 0 <= r < |swept| && 0 <= j < |swept[r]| :: !UnderVersion(swept[r][j], old_.version)
  {
    var ctx := RekeyContext(base, old_, new_);
    forall r | 0 <= r < |swept|
      ensures ReadRow(lib, NewContext(base, new_), swept[r]) == ReadRow(lib, ctx, written[r])
      ensures forall j | 0 <= j < |swept[r]| :: !UnderVersion(swept[r][j], old_.version)
    {
      if !Selected(written[r], Some(old_.version)) {
        forall j | 0 <= j < |swept[r]|
          ensures ReadCell(lib, NewContext(base, new_), swept[r][j]) == ReadCell(lib, ctx, swept[r][j])
        {
          assert Readable(lib, ctx, written[r]);
          OldKeyNotNeeded(lib, base, old_, new_, swept[r][j]);
        }
        assert ReadRow(lib, NewContext(base, new_), swept[r]) == ReadRow(lib, ctx, swept[r]);
      }
    }
  }

  class Table {
    var rows: seq<Row>

    constructor (rows: seq<Row>)
      ensures this.rows == rows
    {
      this.rows := rows;
    }

    /** Rewrites the cells of one row. */
    method RewriteRow(lib: Library, ctx: Context, at: nat, nonces: (nat, nat) -> Nonce) returns (ok: bool)
      requires at < |rows|
      modifies this
      ensures ok ==> |rows| == |old(rows)| && |rows[at]| == |old(rows)[at]|
      ensures ok ==> rows == old(rows)[at := rows[at]]
      ensures ok ==> forall j | 0 <= j < |rows[at]| ::
                RewriteCell(lib, ctx, old(rows)[at][j], nonces(at, j)) == Ok(rows[at][j])
      ensures !ok ==> rows == old(rows)
      ensures !ok ==> exists j | 0 <= j < |rows[at]| :: RewriteCell(lib, ctx, rows[at][j], nonces(at, j)) == Err
    {
      var row: Row := [];
      var i := 0;
      while i < |rows[at]|
        invariant 0 <= i <= |rows[at]| && |row| == i
        invariant rows == old(rows)
        invariant forall j | 0 <= j < i :: RewriteCell(lib, ctx, rows[at][j], nonces(at, j)) == Ok(row[j])
      {
        var cell := RewriteCell(lib, ctx, rows[at][i], nonces(at, i));
        if cell.Err? {
          return false;
        }
        row := row + [cell.value];
        i := i + 1;
      }
      rows := rows[at := row];
      return true;
    }

    /**
     * The re-key's pass over `rows[from..upTo]`, interrupted or resumed at any row. Whatever mix of
     * plaintext, old-version and new-version values the table holds, every row keeps its text at
     * both ends, and every selected row of the range is left under the new key alone.
     */
    method RewriteAll(lib: Library, base: Context, old_: DataKey, new_: DataKey, onlyVersion: Option<Byte>,
                      from: nat, upTo: nat, nonces: (nat, nat) -> Nonce) returns (ok: bool)
      requires from <= upTo <= |rows|
      requires lib.Lawful()
      requires forall r | 0 <= r < |rows| :: Readable(lib, RekeyContext(base, old_, new_), rows[r])
      modifies this
      ensures ok && Passed(lib, base, old_, new_, onlyVersion, old(rows), rows, from, upTo)
    {
      ghost var ctx := RekeyContext(base, old_, new_);
      var i := from;
      while i < upTo
        invariant from <= i <= upTo <= |rows| == |old(rows)|
        invariant forall r | 0 <= r < |rows| ::
          Readable(lib, ctx, rows[r]) && ReadRow(lib, ctx, rows[r]) == ReadRow(lib, ctx, old(rows)[r])
        invariant forall r | from <= r < i && Selected(old(rows)[r], onlyVersion) ::
          && ReadRow(lib, NewContext(base, new_), rows[r]) == ReadRow(lib, ctx, old(rows)[r])
          && forall j | 0 <= j < |rows[r]| :: Settled(rows[r][j], new_)
        invariant forall r | 0 <= r < |rows| && !(from <= r < i && Selected(old(rows)[r], onlyVersion)) ::
          rows[r] == old(rows)[r]
      {
        if Selected(rows[i], onlyVersion) {
          ghost var before := rows[i];
          forall j | 0 <= j < |before|
            ensures
              var after := RewriteCell(lib, ctx, before[j], nonces(i, j));
              && after.Ok? && Settled(after.value, new_)
              && ReadCell(lib, ctx, after.value) == ReadCell(lib, ctx, before[j])
              && ReadCell(lib, NewContext(base, new_), after.value) == ReadCell(lib, ctx, before[j])
          {
            assert ReadCell(lib, ctx, before[j]).Ok?;
            RewrittenCell(lib, base, old_, new_, before[j], nonces(i, j));
          }
          var done := RewriteRow(lib, RekeyContext(base, old_, new_), i, nonces);
          assert done;
        }
        i := i + 1;
      }
      ok := true;
    }
  }
}
