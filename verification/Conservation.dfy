/** Conservation of every stock over every run of the ledger
    (libs/gpm/statedb/state_database.cpp:212-306, 369-425). */
module Conservation {
  import opened Common
  import opened Records
  import opened Ledger

  // ---------------------------------------------------------------- sums over a balance map

  ghost function SumOver(m: map<AccountKey, nat>, ks: set<AccountKey>): nat
    requires ks <= m.Keys
  {
    if ks == {} then 0 else var k :| k in ks; m[k] + SumOver(m, ks - {k})
  }

  lemma {:induction false} SumRemove(m: map<AccountKey, nat>, ks: set<AccountKey>, k: AccountKey)
    requires ks <= m.Keys && k in ks
    ensures SumOver(m, ks) == m[k] + SumOver(m, ks - {k})
    decreases |ks|
  {
    var j :| j in ks && SumOver(m, ks) == m[j] + SumOver(m, ks - {j});
    if j != k {
      SumRemove(m, ks - {j}, k);
      SumRemove(m, ks - {k}, j);
      assert ks - {j} - {k} == ks - {k} - {j};
    }
  }

  lemma {:induction false} SumSame(m: map<AccountKey, nat>, n: map<AccountKey, nat>, ks: set<AccountKey>)
    requires ks <= m.Keys && ks <= n.Keys && forall k :: k in ks ==> m[k] == n[k]
    ensures SumOver(m, ks) == SumOver(n, ks)
    decreases |ks|
  {
    if ks != {} {
      var k :| k in ks;
      SumRemove(m, ks, k);
      SumRemove(n, ks, k);
      SumSame(m, n, ks - {k});
    }
  }

  ghost function KeysOf(m: map<AccountKey, nat>, stock: Loc): set<AccountKey> {
    set k | k in m && k.stock == stock
  }

  /** The sum of all balances of a stock. */
  ghost function Total(m: map<AccountKey, nat>, stock: Loc): nat {
    SumOver(m, KeysOf(m, stock))
  }

  lemma TotalUpdate(m: map<AccountKey, nat>, k: AccountKey, v: nat, stock: Loc)
    ensures Total(m[k := v], stock) + (if k.stock == stock then Amount(m, k) else 0)
         == Total(m, stock) + (if k.stock == stock then v else 0)
  {
    var n := m[k := v];
    var rest := KeysOf(m, stock) - {k};
    assert KeysOf(n, stock) - {k} == rest;
    SumSame(m, n, rest);
    if k.stock == stock {
      SumRemove(n, KeysOf(n, stock), k);
      if k in m {
        SumRemove(m, KeysOf(m, stock), k);
      } else {
        assert KeysOf(m, stock) == rest;
      }
    } else {
      assert KeysOf(n, stock) == rest == KeysOf(m, stock);
    }
  }

  lemma OneBelowTotal(m: map<AccountKey, nat>, k: AccountKey)
    ensures Amount(m, k) <= Total(m, k.stock)
  {
    if k in m {
      SumRemove(m, KeysOf(m, k.stock), k);
    }
  }

  /** Two different accounts together hold at most the total. */
  lemma TwoBelowTotal(m: map<AccountKey, nat>, j: AccountKey, k: AccountKey)
    requires j != k && j.stock == k.stock
    ensures Amount(m, j) + Amount(m, k) <= Total(m, j.stock)
  {
    var ks := KeysOf(m, j.stock);
    if j in m {
      SumRemove(m, ks, j);
      if k in m {
        SumRemove(m, ks - {j}, k);
      }
    } else if k in m {
      SumRemove(m, ks, k);
    }
  }

  // ---------------------------------------------------------------- what a log has issued and lost

  predicate Issued(l: Log, stock: Loc) {
    l.Snoc? && ((IsIssue(l.last) && l.last.stock == stock) || Issued(l.prev, stock))
  }

  /** A transfer whose sender is its own effective recipient. */
  predicate IsSelfTransfer(r: Payload) {
    r.TransferLog? && !IsIssue(r) && r.sender == r.recipient
  }

  /** The amounts of all transfers of the stock from an account to itself. */
  function Burned(l: Log, stock: Loc): nat {
    match l
    case Empty => 0
    case Snoc(prev, r) =>
      Burned(prev, stock) + if IsSelfTransfer(r) && r.stock == stock then r.amount else 0
  }

  function Supply(l: Log, stock: Loc): nat {
    if Issued(l, stock) then MAX_U64 else 0
  }

  lemma {:induction false} IssuedIsTouched(l: Log, stock: Loc)
    requires Issued(l, stock)
    ensures AccountKey(stock, stock) in Balances(l)
  {
    if !(IsIssue(l.last) && l.last.stock == stock) {
      IssuedIsTouched(l.prev, stock);
    }
  }

  /** The accounting identity: what accounts hold and what self-transfers destroyed add up to
      2^64 - 1 for an issued stock and to 0 for any other. */
  lemma {:induction false} Conserved(e: Env, l: Log, stock: Loc)
    requires WellFormed(e, l)
    ensures Total(Balances(l), stock) + Burned(l, stock) == Supply(l, stock)
  {
    if l.Snoc? {
      Conserved(e, l.prev, stock);
      if l.last.TransferLog? && l.last.stock == stock {
        TransferConserves(e, l.prev, l.last);
      } else if l.last.TransferLog? {
        TotalUpdate(Balances(l.prev), ToKey(l.last), l.last.newTo, stock);
        TotalUpdate(Balances(l.prev)[ToKey(l.last) := l.last.newTo], FromKey(l.last), l.last.newFrom, stock);
      }
    } else {
      assert KeysOf(map[], stock) == {};
    }
  }

  lemma TransferConserves(e: Env, l: Log, r: Payload)
    requires WellFormed(e, l) && r.TransferLog? && GoodRecord(e, l, r)
    requires Total(Balances(l), r.stock) + Burned(l, r.stock) == Supply(l, r.stock)
    ensures Total(Balances(Snoc(l, r)), r.stock) + Burned(Snoc(l, r), r.stock) == Supply(Snoc(l, r), r.stock)
    ensures FromKey(r) != ToKey(r) ==> r.newTo == BalanceOf(l, ToKey(r)) + r.amount
  {
    var m: map<AccountKey, nat>, j, k := Balances(l), ToKey(r), FromKey(r);
    var m': map<AccountKey, nat> := m[j := r.newTo];
    assert Balances(Snoc(l, r)) == m'[k := r.newFrom];
    assert BalanceOf(l, j) == Amount(m, j) && BalanceOf(l, k) == Amount(m, k);
    assert Burned(Snoc(l, r), r.stock) == Burned(l, r.stock) + if IsSelfTransfer(r) then r.amount else 0;
    assert Issued(Snoc(l, r), r.stock) == (IsIssue(r) || Issued(l, r.stock));
    hide Balances, Total, WellFormed, Issued, Burned, LastTransfer;
    TotalUpdate(m, j, r.newTo, r.stock);
    TotalUpdate(m', k, r.newFrom, r.stock);
    if j == k {
      OneBelowTotal(m, k);
      if IssueShape(l, r) && Issued(l, r.stock) {
        IssuedIsTouched(l, r.stock);
        assert false;
      }
    } else {
      TwoBelowTotal(m, j, k);
      NoWrap(Amount(m, j) + r.amount);
    }
  }

  lemma NoWrap(n: nat)
    requires n <= MAX_U64
    ensures n % TWO_64 == n
  {}

  /** A stock's total is 0 before its issue and never exceeds 2^64 - 1 after it. */
  lemma NeverExceedsSupply(e: Env, l: Log, stock: Loc)
    requires WellFormed(e, l)
    ensures Total(Balances(l), stock) <= MAX_U64
    ensures !Issued(l, stock) ==> Total(Balances(l), stock) == 0
    ensures Issued(l, stock) ==> (Total(Balances(l), stock) == MAX_U64 <==> Burned(l, stock) == 0)
  {
    Conserved(e, l, stock);
  }

  /** A transfer record is never mistaken for an issue: no balance exceeds 2^64 - 1. */
  lemma MoveIsNoIssue(e: Env, l: Log, r: Payload)
    requires WellFormed(e, l) && r.TransferLog? && MoveShape(e, l, r)
    ensures !IsIssue(r)
  {
    NeverExceedsSupply(e, l, r.stock);
    OneBelowTotal(Balances(l), FromKey(r));
    hide Total, Balances, WellFormed;
  }

  /** What a transfer does to every balance: the amount leaves the sender and arrives unwrapped at a
      different recipient; a self-transfer just loses it; nothing else moves. */
  lemma TransferMovesAmount(e: Env, l: Log, sender: string, recipient: string, stock: string, amount: u64,
                            trx: Loc, k: AccountKey)
    requires WellFormed(e, l) && TrxLoc(e, l, trx)
    requires TransferBalance(e, l, sender, recipient, stock, amount, trx).Ok?
    ensures
      var l' := TransferBalance(e, l, sender, recipient, stock, amount, trx).value;
      var s := DefineAt(e, l, stock);
      var from, to := AccountKey(DefineAt(e, l, sender), s), AccountKey(DefineAt(e, l, recipient), s);
      BalanceOf(l', k) ==
        if k == from then BalanceOf(l, k) - amount
        else if k == to then BalanceOf(l, k) + amount
        else BalanceOf(l, k)
  {
    TransferBalanceGrows(e, l, sender, recipient, stock, amount, trx);
    var r := TransferBalance(e, l, sender, recipient, stock, amount, trx).value.last;
    Conserved(e, l, r.stock);
    TransferConserves(e, l, r);
  }

  /** Over every run from the empty log, whatever its operations. */
  lemma ConservedOverRuns(e: Env, steps: seq<LedgerStep>, stock: Loc)
    ensures var l := RunLedger(e, Empty, steps);
      Total(Balances(l), stock) + Burned(l, stock) == (if Issued(l, stock) then MAX_U64 else 0)
  {
    EveryRunWellFormed(e, Empty, steps);
    Conserved(e, RunLedger(e, Empty, steps), stock);
  }
}
