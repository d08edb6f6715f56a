/** Revision c4d5e6f7a8b9: account balances move from a stored figure to opening balance plus ledger. */
module BalanceMigration {
  import opened Common

  datatype Kind = Income | Expense | Transfer

  datatype Direction = Out | In

  /** One ledger row; amounts in hundredths. `direction` is NULL before the revision. */
  datatype Txn = Txn(
    id: int, account: int, amount: int, kind: Kind, linked: Option<int>, direction: Option<Direction>)

  /** `figure` is the column called `balance` before the revision and `opening_balance` after it. */
  datatype Account = Account(id: int, figure: int)

  datatype Tables = Tables(upgraded: bool, transactions: seq<Txn>, accounts: seq<Account>)

  /** The CASE of the signed-ledger query. */
  function Signed(t: Txn): int {
    if t.kind == Income then t.amount
    else if t.kind == Expense then -t.amount
    else if t.direction == Some(In) then t.amount
    else if t.direction == Some(Out) then -t.amount
    else 0
  }

  /** The signed sum of an account's rows, or of all rows. */
  function Net(txns: seq<Txn>, account: Option<int>): int {
    if txns == [] then 0
    else
      var t := txns[|txns| - 1];
      Net(txns[..|txns| - 1], account) + (if account == None || account == Some(t.account) then Signed(t) else 0)
  }

  /** What a user sees as the balance of the account in row `i`. */
  function Visible(db: Tables, i: nat): int
    requires i < |db.accounts|
  {
    var a := db.accounts[i];
    if db.upgraded then a.figure + Net(db.transactions, Some(a.id)) else a.figure
  }

  /** Both direction UPDATEs, for one row. */
  function Directed(t: Txn): Txn {
    if t.kind != Transfer then t.(direction := None)
    else if t.linked.Some? then t.(direction := Some(if t.id < t.linked.value then Out else In))
    else t.(direction := Some(Out))
  }

  /** How many transfer legs are linked to nothing. */
  function UnlinkedLegs(txns: seq<Txn>): nat {
    if txns == [] then 0
    else
      var t := txns[|txns| - 1];
      UnlinkedLegs(txns[..|txns| - 1]) + if t.kind == Transfer && t.linked.None? then 1 else 0
  }

  function DirectedAll(txns: seq<Txn>): seq<Txn> {
    seq(|txns|, i requires 0 <= i < |txns| => Directed(txns[i]))
  }

  /** The check constraint: a transfer leg has a direction, and nothing else has one. */
  predicate DirectionCheck(t: Txn) {
    (t.kind == Transfer) == t.direction.Some?
  }

  predicate ChecksHold(db: Tables) {
    forall i | 0 <= i < |db.transactions| ::
      if db.upgraded then DirectionCheck(db.transactions[i]) else db.transactions[i].direction.None?
  }

  function Upgraded(db: Tables): Tables {
    var txns := DirectedAll(db.transactions);
    Tables(true, txns, Shifted(db.accounts, txns, -1))
  }

  function Downgraded(db: Tables): Tables {
    Tables(false,
           seq(|db.transactions|, i requires 0 <= i < |db.transactions| => db.transactions[i].(direction := None)),
           Shifted(db.accounts, db.transactions, 1))
  }

  /** Every figure moved by the account's signed ledger. */
  function Shifted(accounts: seq<Account>, txns: seq<Txn>, sign: int): seq<Account> {
    seq(|accounts|, i requires 0 <= i < |accounts| =>
      accounts[i].(figure := accounts[i].figure + sign * Net(txns, Some(accounts[i].id))))
  }

  class Database {
    var tables: Tables

    constructor (tables: Tables)
      ensures this.tables == tables
    {
      this.tables := tables;
    }

    /** The linked-pair UPDATE, the unlinked UPDATE, then the anchoring UPDATE on accounts. */
    method Upgrade() returns (unlinked: nat)
      requires !tables.upgraded && ChecksHold(tables)
      modifies this
      ensures tables == Upgraded(old(tables)) && ChecksHold(tables)
      ensures unlinked == UnlinkedLegs(old(tables).transactions)
    {
      var txns := DirectLinked(tables.transactions);
      txns, unlinked := DirectUnlinked(tables.transactions, txns);
      var accounts := ShiftAll(tables.accounts, txns, -1);
      tables := Tables(true, txns, accounts);
    }

    method Downgrade()
      requires tables.upgraded
      modifies this
      ensures tables == Downgraded(old(tables)) && ChecksHold(tables)
    {
      var accounts := ShiftAll(tables.accounts, tables.transactions, 1);
      var txns := tables.transactions;
      var i := 0;
      while i < |txns|
        invariant 0 <= i <= |txns| == |tables.transactions|
        invariant tables == old(tables)
        invariant forall j | 0 <= j < i :: txns[j] == tables.transactions[j].(direction := None)
        invariant forall j | i <= j < |txns| :: txns[j] == tables.transactions[j]
      {
        txns := txns[i := txns[i].(direction := None)];
        i := i + 1;
      }
      tables := Tables(false, txns, accounts);
    }
  }

  /** The row after the first of the two direction UPDATEs. */
  function HalfDirected(t: Txn): Txn {
    if t.linked.Some? then Directed(t) else t
  }

  /** The UPDATE of the linked legs. */
  method DirectLinked(rows: seq<Txn>) returns (txns: seq<Txn>)
    requires forall i | 0 <= i < |rows| :: rows[i].direction.None?
    ensures |txns| == |rows| && forall i | 0 <= i < |rows| :: txns[i] == HalfDirected(rows[i])
  {
    txns := rows;
    var i := 0;
    while i < |txns|
      invariant 0 <= i <= |txns| == |rows|
      invariant forall j | 0 <= j < i :: txns[j] == HalfDirected(rows[j])
      invariant forall j | i <= j < |txns| :: txns[j] == rows[j]
    {
      var t := txns[i];
      if t.kind == Transfer && t.linked.Some? {
        txns := txns[i := t.(direction := Some(if t.id < t.linked.value then Out else In))];
      }
      i := i + 1;
    }
  }

  /** The UPDATE of the legs still without a direction, and how many it met. */
  method DirectUnlinked(ghost rows: seq<Txn>, half: seq<Txn>) returns (txns: seq<Txn>, unlinked: nat)
    requires |half| == |rows| && forall i | 0 <= i < |rows| :: rows[i].direction.None? && half[i] == HalfDirected(rows[i])
    ensures txns == DirectedAll(rows) && unlinked == UnlinkedLegs(rows)
  {
    txns, unlinked := half, 0;
    var i := 0;
    while i < |txns|
      invariant 0 <= i <= |txns| == |rows|
      invariant unlinked == UnlinkedLegs(rows[..i])
      invariant forall j | 0 <= j < i :: txns[j] == Directed(rows[j])
      invariant forall j | i <= j < |txns| :: txns[j] == HalfDirected(rows[j])
    {
      var t := txns[i];
      assert rows[..i + 1][..i] == rows[..i];
      if t.kind == Transfer && t.direction.None? {
        txns := txns[i := t.(direction := Some(Out))];
        unlinked := unlinked + 1;
      }
      i := i + 1;
    }
    assert rows[..i] == rows;
  }

  /** `UPDATE accounts SET opening_balance = opening_balance ± (signed ledger)`. */
  method ShiftAll(accounts: seq<Account>, txns: seq<Txn>, sign: int) returns (out: seq<Account>)
    ensures out == Shifted(accounts, txns, sign)
  {
    out := accounts;
    var i := 0;
    while i < |out|
      invariant 0 <= i <= |out| == |accounts|
      invariant forall j | 0 <= j < i ::
        out[j] == accounts[j].(figure := accounts[j].figure + sign * Net(txns, Some(accounts[j].id)))
      invariant forall j | i <= j < |out| :: out[j] == accounts[j]
    {
      var net := NetOf(txns, Some(out[i].id));
      out := out[i := out[i].(figure := out[i].figure + sign * net)];
      i := i + 1;
    }
  }

  method NetOf(txns: seq<Txn>, account: Option<int>) returns (net: int)
    ensures net == Net(txns, account)
  {
    net := 0;
    var i := 0;
    while i < |txns|
      invariant 0 <= i <= |txns|
      invariant net == Net(txns[..i], account)
    {
      assert txns[..i + 1][..i] == txns[..i];
      if account == None || account == Some(txns[i].account) {
        net := net + Signed(txns[i]);
      }
      i := i + 1;
    }
    assert txns[..i] == txns;
  }

  // No migration changes a visible balance.

  /** Alternating migrations from either schema. */
  function Migrated(db: Tables, steps: nat): Tables
    decreases steps
  {
    if steps == 0 then db
    else Migrated(if db.upgraded then Downgraded(db) else Upgraded(db), steps - 1)
  }

  /**
   * However often the schema goes up and down, every account keeps its id and its visible balance,
   * the check constraint of the current schema holds, and ledger rows change in nothing but direction.
   */
  lemma {:induction false} BalancesSurviveMigrations(db: Tables, steps: nat)
    requires ChecksHold(db)
    ensures
      var after := Migrated(db, steps);
      && ChecksHold(after)
      && |after.accounts| == |db.accounts| && |after.transactions| == |db.transactions|
      && (forall i | 0 <= i < |db.accounts| ::
            after.accounts[i].id == db.accounts[i].id && Visible(after, i) == Visible(db, i))
      && (forall i | 0 <= i < |db.transactions| ::
            after.transactions[i].(direction := None) == db.transactions[i].(direction := None))
    decreases steps
  {
    if steps > 0 {
      BalancesSurviveMigrations(if db.upgraded then Downgraded(db) else Upgraded(db), steps - 1);
    }
  }

  /** Anchoring keeps the visible balance whatever the directions are: the guess does not enter. */
  lemma AnchorIgnoresTheGuess(accounts: seq<Account>, guessed: seq<Txn>, i: nat)
    requires i < |accounts|
    ensures Visible(Tables(true, guessed, Shifted(accounts, guessed, -1)), i) == accounts[i].figure
  {
  }

  // Paired transfers move money between accounts and create none.

  /** The two legs of one transfer: linked to each other, of equal amounts. */
  predicate Legs(a: Txn, b: Txn) {
    && a.id != b.id && a.kind == Transfer && b.kind == Transfer
    && a.linked == Some(b.id) && b.linked == Some(a.id)
    && a.amount == b.amount
  }

  ghost predicate HasOtherLeg(txns: seq<Txn>, a: Txn) {
    exists j :: 0 <= j < |txns| && Legs(a, txns[j])
  }

  ghost predicate Paired(txns: seq<Txn>) {
    && (forall i, j | 0 <= i < j < |txns| :: txns[i].id != txns[j].id)
    && (forall i {:trigger HasOtherLeg(txns, txns[i])} | 0 <= i < |txns| && txns[i].kind == Transfer ::
          HasOtherLeg(txns, txns[i]))
  }

  /** The amounts of the rows `pick` picks, added up. */
  function Amounts(txns: seq<Txn>, pick: Txn -> bool): int {
    if txns == [] then 0
    else
      var t := txns[|txns| - 1];
      Amounts(txns[..|txns| - 1], pick) + if pick(t) then t.amount else 0
  }

  function OfKind(kind: Kind): Txn -> bool {
    (t: Txn) => t.kind == kind
  }

  /** Incomes less expenses. */
  function Earned(txns: seq<Txn>): int {
    Amounts(txns, OfKind(Income)) - Amounts(txns, OfKind(Expense))
  }

  /** What the backfilled transfers of a ledger add to its net, beside incomes and expenses. */
  function Leak(txns: seq<Txn>): int {
    Net(DirectedAll(txns), None) - Earned(DirectedAll(txns))
  }

  /** Two linked legs of equal amounts cancel. */
  lemma LegsCancel(a: Txn, b: Txn)
    requires Legs(a, b)
    ensures Signed(Directed(a)) + Signed(Directed(b)) == 0
  {
  }

  lemma LeakOfOne(t: Txn)
    ensures Leak([t]) == if t.kind == Transfer then Signed(Directed(t)) else 0
  {
    var d := Directed(t);
    assert DirectedAll([t]) == [d];
    assert [d][..0] == [];
    assert Net([d], None) == Net([], None) + Signed(d);
    AmountsOneMore([], d, OfKind(Income));
    AmountsOneMore([], d, OfKind(Expense));
    assert [] + [d] == [d];
  }

  lemma {:induction false} LeakAppend(a: seq<Txn>, b: seq<Txn>)
    ensures Leak(a + b) == Leak(a) + Leak(b)
    decreases |b|
  {
    if b == [] {
      assert a + b == a;
    } else {
      var front, last := b[..|b| - 1], b[|b| - 1];
      LeakAppend(a, front);
      LeakOneMore(a + front, last);
      LeakOneMore(front, last);
      assert a + b == (a + front) + [last] && b == front + [last];
    }
  }

  lemma AmountsOneMore(txns: seq<Txn>, t: Txn, pick: Txn -> bool)
    ensures Amounts(txns + [t], pick) == Amounts(txns, pick) + if pick(t) then t.amount else 0
  {
    assert (txns + [t])[..|txns|] == txns;
  }

  lemma NetOneMore(txns: seq<Txn>, t: Txn, account: Option<int>)
    ensures Net(txns + [t], account)
         == Net(txns, account) + if account == None || account == Some(t.account) then Signed(t) else 0
  {
    assert (txns + [t])[..|txns|] == txns;
  }

  lemma LeakOneMore(txns: seq<Txn>, t: Txn)
    ensures Leak(txns + [t]) == Leak(txns) + if t.kind == Transfer then Signed(Directed(t)) else 0
  {
    var rows, d := DirectedAll(txns), Directed(t);
    assert DirectedAll(txns + [t]) == rows + [d];
    NetOneMore(rows, d, None);
    AmountsOneMore(rows, d, OfKind(Income));
    AmountsOneMore(rows, d, OfKind(Expense));
  }

  /** The rows without position `j` and the last. */
  function Unpaired(txns: seq<Txn>, j: nat): seq<Txn>
    requires j < |txns| - 1
  {
    txns[..j] + txns[j + 1..|txns| - 1]
  }

  lemma UnpairedAt(txns: seq<Txn>, j: nat, i: nat)
    requires j < |txns| - 1 && i < |txns| - 2
    ensures |Unpaired(txns, j)| == |txns| - 2
    ensures Unpaired(txns, j)[i] == txns[if i < j then i else i + 1]
  {
  }

  lemma UnpairedStaysPaired(txns: seq<Txn>, j: nat)
    requires Paired(txns) && j < |txns| - 1 && Legs(txns[|txns| - 1], txns[j])
    ensures Paired(Unpaired(txns, j))
  {
    var rest := Unpaired(txns, j);
    forall a, b | 0 <= a < b < |rest| ensures rest[a].id != rest[b].id {
      UnpairedAt(txns, j, a);
      UnpairedAt(txns, j, b);
    }
    forall i | 0 <= i < |rest| && rest[i].kind == Transfer ensures HasOtherLeg(rest, rest[i]) {
      UnpairedKeepsLeg(txns, j, i);
    }
  }

  lemma UnpairedKeepsLeg(txns: seq<Txn>, j: nat, i: nat)
    requires Paired(txns) && j < |txns| - 1 && Legs(txns[|txns| - 1], txns[j])
    requires i < |Unpaired(txns, j)| && Unpaired(txns, j)[i].kind == Transfer
    ensures HasOtherLeg(Unpaired(txns, j), Unpaired(txns, j)[i])
  {
    var rest, n, at := Unpaired(txns, j), |txns|, if i < j then i else i + 1;
    UnpairedAt(txns, j, i);
    assert HasOtherLeg(txns, txns[at]);
    var m :| 0 <= m < n && Legs(txns[at], txns[m]);
    assert txns[at].id != txns[j].id && txns[at].id != txns[n - 1].id;
    assert m != j && m != n - 1;
    var k := if m < j then m else m - 1;
    UnpairedAt(txns, j, k);
    assert Legs(rest[i], rest[k]);
  }

  lemma DropPair(txns: seq<Txn>, j: nat)
    requires j < |txns| - 1 && Legs(txns[|txns| - 1], txns[j])
    ensures Leak(txns) == Leak(Unpaired(txns, j))
  {
    var n := |txns|;
    var a, b, x, y := txns[..j], txns[j + 1..n - 1], txns[j], txns[n - 1];
    assert txns == a + [x] + b + [y];
    LeakAppend(a + [x] + b, [y]);
    LeakAppend(a + [x], b);
    LeakAppend(a, [x]);
    LeakAppend(a, b);
    LeakOfOne(x);
    LeakOfOne(y);
    LegsCancel(y, x);
  }

  lemma FrontStaysPaired(txns: seq<Txn>)
    requires Paired(txns) && txns != [] && txns[|txns| - 1].kind != Transfer
    ensures Paired(txns[..|txns| - 1])
  {
    var front := txns[..|txns| - 1];
    forall i | 0 <= i < |front| && front[i].kind == Transfer ensures HasOtherLeg(front, front[i]) {
      assert HasOtherLeg(txns, txns[i]);
      var m :| 0 <= m < |txns| && Legs(txns[i], txns[m]);
      assert Legs(front[i], front[m]);
    }
  }

  /** With every transfer paired, the backfilled ledger sums to incomes less expenses. */
  lemma {:induction false} PairedTransfersCancel(txns: seq<Txn>)
    requires Paired(txns)
    ensures Net(DirectedAll(txns), None) == Earned(DirectedAll(txns))
    decreases |txns|
  {
    if txns != [] {
      var n := |txns|;
      if txns[n - 1].kind == Transfer {
        assert HasOtherLeg(txns, txns[n - 1]);
        var j :| 0 <= j < n && Legs(txns[n - 1], txns[j]);
        UnpairedStaysPaired(txns, j);
        PairedTransfersCancel(Unpaired(txns, j));
        DropPair(txns, j);
      } else {
        FrontStaysPaired(txns);
        PairedTransfersCancel(txns[..n - 1]);
        LeakAppend(txns[..n - 1], [txns[n - 1]]);
        LeakOfOne(txns[n - 1]);
        assert txns == txns[..n - 1] + [txns[n - 1]];
      }
    }
  }

  // Summed over all accounts.

  function SumVisible(db: Tables, n: nat): int
    requires n <= |db.accounts|
  {
    if n == 0 then 0 else SumVisible(db, n - 1) + Visible(db, n - 1)
  }

  function SumFigures(db: Tables, n: nat): int
    requires n <= |db.accounts|
  {
    if n == 0 then 0 else SumFigures(db, n - 1) + db.accounts[n - 1].figure
  }

  function SumNets(accounts: seq<Account>, txns: seq<Txn>): int {
    if accounts == [] then 0
    else SumNets(accounts[..|accounts| - 1], txns) + Net(txns, Some(accounts[|accounts| - 1].id))
  }

  predicate HasAccount(accounts: seq<Account>, id: int) {
    exists i :: 0 <= i < |accounts| && accounts[i].id == id
  }

  /** Account ids are unique and every row belongs to an account. */
  predicate Consistent(db: Tables) {
    && (forall i, j | 0 <= i < j < |db.accounts| :: db.accounts[i].id != db.accounts[j].id)
    && (forall t | 0 <= t < |db.transactions| :: HasAccount(db.accounts, db.transactions[t].account))
  }

  /** A row counts once, for its own account. */
  lemma {:induction false} SumNetsOneMore(accounts: seq<Account>, txns: seq<Txn>, t: Txn)
    requires forall i, j | 0 <= i < j < |accounts| :: accounts[i].id != accounts[j].id
    ensures SumNets(accounts, txns + [t]) == SumNets(accounts, txns)
              + if HasAccount(accounts, t.account) then Signed(t) else 0
    decreases |accounts|
  {
    if accounts != [] {
      var front, last := accounts[..|accounts| - 1], accounts[|accounts| - 1];
      SumNetsOneMore(front, txns, t);
      assert (txns + [t])[..|txns|] == txns;
      if HasAccount(accounts, t.account) {
        var i :| 0 <= i < |accounts| && accounts[i].id == t.account;
        if i < |front| {
          assert front[i].id == t.account;
        } else {
          assert forall k | 0 <= k < |front| :: front[k].id != t.account;
        }
      } else {
        assert forall k | 0 <= k < |front| :: front[k] == accounts[k];
      }
    }
  }

  lemma {:induction false} SumNetsIsNet(accounts: seq<Account>, txns: seq<Txn>)
    requires forall i, j | 0 <= i < j < |accounts| :: accounts[i].id != accounts[j].id
    requires forall t | 0 <= t < |txns| :: HasAccount(accounts, txns[t].account)
    ensures SumNets(accounts, txns) == Net(txns, None)
    decreases |txns|
  {
    if txns == [] {
      SumNetsOfNothing(accounts);
    } else {
      var front := txns[..|txns| - 1];
      SumNetsIsNet(accounts, front);
      SumNetsOneMore(accounts, front, txns[|txns| - 1]);
      assert txns == front + [txns[|txns| - 1]];
    }
  }

  lemma {:induction false} SumNetsOfNothing(accounts: seq<Account>)
    ensures SumNets(accounts, []) == 0
  {
    if accounts != [] {
      SumNetsOfNothing(accounts[..|accounts| - 1]);
    }
  }

  lemma {:induction false} SumVisibleSplits(db: Tables, n: nat)
    requires db.upgraded && n <= |db.accounts|
    ensures SumVisible(db, n) == SumFigures(db, n) + SumNets(db.accounts[..n], db.transactions)
  {
    if n > 0 {
      SumVisibleSplits(db, n - 1);
      assert db.accounts[..n][..n - 1] == db.accounts[..n - 1];
    }
  }

  /**
   * Conservation: after the upgrade of a ledger whose transfers are all paired, the balances of all
   * accounts add up to the opening balances plus incomes less expenses. Transfers drop out.
   */
  lemma TransfersConserveMoney(db: Tables)
    requires Consistent(db) && Paired(db.transactions)
    ensures
      var after := Upgraded(db);
      && |after.accounts| == |db.accounts|
      && SumVisible(after, |after.accounts|)
         == SumFigures(after, |after.accounts|) + Earned(after.transactions)
  {
    var after := Upgraded(db);
    SumVisibleSplits(after, |after.accounts|);
    assert after.accounts[..|after.accounts|] == after.accounts;
    forall t | 0 <= t < |after.transactions| ensures HasAccount(after.accounts, after.transactions[t].account) {
      assert HasAccount(db.accounts, db.transactions[t].account);
      var i :| 0 <= i < |db.accounts| && db.accounts[i].id == db.transactions[t].account;
      assert after.accounts[i].id == after.transactions[t].account;
    }
    SumNetsIsNet(after.accounts, after.transactions);
    PairedTransfersCancel(db.transactions);
  }

  // Which way each row moves a balance.

  function WithRow(db: Tables, t: Txn): Tables {
    db.(transactions := db.transactions + [t])
  }

  lemma VisibleOneMore(db: Tables, t: Txn, i: nat)
    requires db.upgraded && i < |db.accounts|
    ensures Visible(WithRow(db, t), i) == Visible(db, i) + if db.accounts[i].id == t.account then Signed(t) else 0
  {
    NetOneMore(db.transactions, t, Some(db.accounts[i].id));
  }

  /** An income raises the balance of its account by its amount, an expense lowers it, and no other balance moves. */
  lemma RowMovesItsAccount(db: Tables, t: Txn, i: nat)
    requires db.upgraded && i < |db.accounts|
    ensures
      var before, after := Visible(db, i), Visible(WithRow(db, t), i);
      && (db.accounts[i].id != t.account ==> after == before)
      && (db.accounts[i].id == t.account && t.kind == Income ==> after == before + t.amount)
      && (db.accounts[i].id == t.account && t.kind == Expense ==> after == before - t.amount)
  {
    VisibleOneMore(db, t, i);
  }

  /**
   * A backfilled transfer of linked legs lowers the balance of the account of its lower-id leg by the
   * amount and raises the other's, and moves no third one.
   */
  lemma TransferMovesMoney(db: Tables, a: Txn, b: Txn, i: nat)
    requires db.upgraded && i < |db.accounts| && Legs(a, b) && a.id < b.id && a.account != b.account
    ensures
      var before, after := Visible(db, i), Visible(WithRow(WithRow(db, Directed(a)), Directed(b)), i);
      && (db.accounts[i].id == a.account ==> after == before - a.amount)
      && (db.accounts[i].id == b.account ==> after == before + a.amount)
      && (db.accounts[i].id != a.account && db.accounts[i].id != b.account ==> after == before)
  {
    VisibleOneMore(db, Directed(a), i);
    VisibleOneMore(WithRow(db, Directed(a)), Directed(b), i);
  }

  /** A leg linked to nothing counts as money that left. */
  lemma UnlinkedLegLeaves(db: Tables, t: Txn, i: nat)
    requires db.upgraded && i < |db.accounts| && t.kind == Transfer && t.linked.None?
    ensures Visible(WithRow(db, Directed(t)), i)
         == Visible(db, i) - if db.accounts[i].id == t.account then t.amount else 0
  {
    VisibleOneMore(db, Directed(t), i);
  }

  /** The rows that bring money to an account: incomes, and transfer legs with the higher id of their pair. */
  function Arrives(account: int): Txn -> bool {
    (t: Txn) => t.account == account
                && (t.kind == Income || (t.kind == Transfer && t.linked.Some? && t.linked.value <= t.id))
  }

  /** The rows that take money from it: expenses, transfer legs with the lower id, and unlinked ones. */
  function Leaves(account: int): Txn -> bool {
    (t: Txn) => t.account == account
                && (t.kind == Expense || (t.kind == Transfer && (t.linked.None? || t.id < t.linked.value)))
  }

  lemma {:induction false} NetByArrivals(txns: seq<Txn>, account: int)
    ensures Net(DirectedAll(txns), Some(account)) == Amounts(txns, Arrives(account)) - Amounts(txns, Leaves(account))
  {
    if txns != [] {
      var front, t := txns[..|txns| - 1], txns[|txns| - 1];
      NetByArrivals(front, account);
      assert txns == front + [t] && DirectedAll(txns) == DirectedAll(front) + [Directed(t)];
      NetOneMore(DirectedAll(front), Directed(t), Some(account));
      AmountsOneMore(front, t, Arrives(account));
      AmountsOneMore(front, t, Leaves(account));
    }
  }

  /** The opening balance the upgrade writes: the old figure less what arrived, plus what left. */
  lemma OpeningBalance(db: Tables, i: nat)
    requires i < |db.accounts|
    ensures
      var a := db.accounts[i];
      |Upgraded(db).accounts| == |db.accounts|
      && Upgraded(db).accounts[i]
         == Account(a.id, a.figure - Amounts(db.transactions, Arrives(a.id)) + Amounts(db.transactions, Leaves(a.id)))
  {
    NetByArrivals(db.transactions, db.accounts[i].id);
  }

  lemma {:induction false} NetByDirection(txns: seq<Txn>, account: int)
    requires forall i | 0 <= i < |txns| :: DirectionCheck(txns[i])
    ensures Net(txns, Some(account))
         == Amounts(txns, Credits(account)) - Amounts(txns, Debits(account))
  {
    if txns != [] {
      var front, t := txns[..|txns| - 1], txns[|txns| - 1];
      NetByDirection(front, account);
      assert txns == front + [t];
      NetOneMore(front, t, Some(account));
      AmountsOneMore(front, t, Credits(account));
      AmountsOneMore(front, t, Debits(account));
    }
  }

  function Credits(account: int): Txn -> bool {
    (t: Txn) => t.account == account && (t.kind == Income || (t.kind == Transfer && t.direction == Some(In)))
  }

  function Debits(account: int): Txn -> bool {
    (t: Txn) => t.account == account && (t.kind == Expense || (t.kind == Transfer && t.direction == Some(Out)))
  }

  /** The stored figure of a downgrade: the opening balance plus the credits less the debits. */
  lemma StoredBalance(db: Tables, i: nat)
    requires db.upgraded && ChecksHold(db) && i < |db.accounts|
    ensures
      var a := db.accounts[i];
      |Downgraded(db).accounts| == |db.accounts|
      && Downgraded(db).accounts[i]
         == Account(a.id, a.figure + Amounts(db.transactions, Credits(a.id)) - Amounts(db.transactions, Debits(a.id)))
  {
    NetByDirection(db.transactions, db.accounts[i].id);
  }
}
