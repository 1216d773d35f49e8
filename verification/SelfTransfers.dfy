/** Transfers from an account to itself: `apply` refuses them only for a recipient that is written out
    (libs/gpm/statedb/state_database.cpp:372), so sending to the generator can still be one.  What they cost,
    exactly when, and what they hide from the history. */
module SelfTransfers {
  import opened Common
  import opened Records
  import opened Ledger
  import opened Conservation
  import opened History

  // ---------------------------------------------------------------- exactly when a transfer keeps the total

  /** A successful transfer keeps the stock's total exactly when sender and recipient are not the same account,
      or nothing is sent. */
  lemma TransferKeepsTotalExactly(e: Env, l: Log, sender: string, to: string, stock: string, amount: u64, trx: Loc)
    requires WellFormed(e, l) && TrxLoc(e, l, trx)
    requires TransferBalance(e, l, sender, to, stock, amount, trx).Ok?
    ensures var l' := TransferBalance(e, l, sender, to, stock, amount, trx).value; var s := DefineAt(e, l, stock);
      Total(Balances(l'), s) == Total(Balances(l), s) <==> DefineAt(e, l, sender) != DefineAt(e, l, to) || amount == 0
  {
    TransferBalanceGrows(e, l, sender, to, stock, amount, trx);
    var l', s := TransferBalance(e, l, sender, to, stock, amount, trx).value, DefineAt(e, l, stock);
    MoveIsNoIssue(e, l, l'.last);
    Conserved(e, l, s);
    Conserved(e, l', s);
    assert Burned(l', s) == Burned(l, s) + if l'.last.sender == l'.last.recipient then amount else 0;
    assert Issued(l', s) == Issued(l, s);
    hide TransferBalance, WellFormed, Total, Balances, Issued, Burned, DefineAt;
  }

  /** For registered senders the accounts are the same exactly when the names are. */
  lemma SameAccount(e: Env, l: Log, sender: string, to: string)
    requires WellFormed(e, l) && DefineAt(e, l, sender).At?
    ensures DefineAt(e, l, sender) == DefineAt(e, l, to) <==> sender == to
  {
    LastEditOfName(e, l, sender);
    if DefineAt(e, l, sender) == DefineAt(e, l, to) {
      NameIndexInjective(e, l, sender, to);
    }
  }

  lemma SendKeepsTotalExactly(e: Env, l: Log, amount: u64, stock: string, sender: string, to: string, pos: Loc)
    requires WellFormed(e, l) && TrxLoc(e, l, pos) && DefineAt(e, l, sender).At? && DefineAt(e, l, stock).At?
    requires SendTo(e, l, amount, stock, sender, to, pos).status.Applied?
    ensures var l' := SendTo(e, l, amount, stock, sender, to, pos).log; var s := DefineAt(e, l, stock);
      Total(Balances(l'), s) == Total(Balances(l), s) <==> sender != to || amount == 0
  {
    hide WellFormed, TransferBalance, NameIndex, Get, DefineAt, Total, Balances;
    NameIndexIsDefinition(e, l, to);
    if DefineAt(e, l, to).At? {
      TransferKeepsTotalExactly(e, l, sender, to, stock, amount, pos);
      SameAccount(e, l, sender, to);
    } else {
      var l1 := Snoc(l, DefineName(to, e.noKey));
      NewNameGrows(e, l, to, sender, stock, pos);
      TransferKeepsTotalExactly(e, l1, sender, to, stock, amount, pos);
      SameAccount(e, l1, sender, to);
    }
  }

  /** The transfer command of a transaction: with the generator in place of an empty recipient, an applied
      transfer keeps the stock's total exactly when it does not go back to its sender, or sends nothing. */
  lemma CommandKeepsTotalExactly(e: Env, l: Log, trx: SignedTrx, amount: u64, stock: string, sender: string,
                                 recipient: string, gen: string, pos: Loc)
    requires WellFormed(e, l) && TrxLoc(e, l, pos)
    requires ApplyCommand(e, l, trx, Transfer(amount, stock, sender, recipient), gen, pos).status.Applied?
    ensures var l' := ApplyCommand(e, l, trx, Transfer(amount, stock, sender, recipient), gen, pos).log;
      var to, s := if |recipient| == 0 then gen else recipient, DefineAt(e, l, stock);
      Total(Balances(l'), s) == Total(Balances(l), s) <==> sender != to || amount == 0
  {
    PublicKeyIsLastGiven(e, l, sender);
    PublicKeyIsLastGiven(e, l, stock);
    hide WellFormed, SendTo, PublicKey, Balance, DefineAt, Total, Balances, TrxLoc;
    SendKeepsTotalExactly(e, l, amount, stock, sender, if |recipient| == 0 then gen else recipient, pos);
  }

  // ---------------------------------------------------------------- a transfer to the generator, by example

  /** One transaction: register "a", issue its stock, send one unit to whoever generates the block. */
  function SelfTrx(key: Key): SignedTrx {
    SignedTrx(0, [RegisterName("a", key), Issue("a"), Transfer(1, "a", "a", "")], [])
  }

  /** The log it leaves when "a" itself generates the block. */
  function SelfLog(e: Env, key: Key): Outcome {
    ApplyTrx(e, Empty, SelfTrx(key), "a")
  }

  function Begun(e: Env, key: Key): Log {
    Snoc(Empty, StartTrx(e.trxHash(SelfTrx(key)), 0))
  }

  function Registered(e: Env, key: Key): Log {
    Snoc(Begun(e, key), DefineName("a", key))
  }

  lemma RegisterApplies(e: Env, key: Key, pos: Loc)
    ensures Register(e, Begun(e, key), SelfTrx(key), "a", key) == Outcome(Registered(e, key), Applied)
    ensures WellFormed(e, Registered(e, key)) && DefineAt(e, Registered(e, key), "a") == At(Size(e, Begun(e, key)))
    ensures KeyOf(e, Registered(e, key), "a") == Some(key) && Balances(Registered(e, key)) == map[]
  {
    var l := Begun(e, key);
    assert WellFormed(e, Empty) && Names(e, Empty) == map[] &&
      DefineAt(e, Empty, "a") == Nowhere && Balances(Empty) == map[];
    assert WellFormed(e, l) && Names(e, l) == map[] && DefineAt(e, l, "a") == Nowhere && Balances(l) == map[];
    PublicKeyIsLastGiven(e, l, "a");
    assert SetPublicKey(e, l, "a", key).0 == Registered(e, key);
    assert Register(e, l, SelfTrx(key), "a", key) == Outcome(Registered(e, key), Applied);
    SetPublicKeyGrows(e, l, "a", key);
    hide Register, SetPublicKey;
  }

  lemma IssueApplies(e: Env, key: Key, pos: Loc)
    requires e.verify(SelfTrx(key), key) && TrxLoc(e, Registered(e, key), pos)
    ensures var l := Registered(e, key);
      var o := ApplyIssue(e, l, SelfTrx(key), "a", pos); var a := DefineAt(e, l, "a");
      && o.status.Applied? && o.log.Snoc? && o.log.prev == l && IsIssue(o.log.last) &&
         FromKey(o.log.last) == AccountKey(a, a)
      && WellFormed(e, o.log) && DefineAt(e, o.log, "a") == a && KeyOf(e, o.log, "a") == Some(key)
      && BalanceOf(o.log, AccountKey(a, a)) == MAX_U64
  {
    var l := Registered(e, key);
    RegisterApplies(e, key, pos);
    PublicKeyIsLastGiven(e, l, "a");
    BalanceIsScan(e, l, "a", "a");
    IssueStockGrows(e, l, "a", pos);
    hide PublicKey, Balance, WellFormed, Registered, IssueStock;
  }

  lemma SendApplies(e: Env, l: Log, key: Key, pos: Loc)
    requires WellFormed(e, l) && TrxLoc(e, l, pos) && e.verify(SelfTrx(key), key)
    requires DefineAt(e, l, "a").At? && KeyOf(e, l, "a") == Some(key)
    requires BalanceOf(l, AccountKey(DefineAt(e, l, "a"), DefineAt(e, l, "a"))) == MAX_U64
    ensures var k := AccountKey(DefineAt(e, l, "a"), DefineAt(e, l, "a"));
      var o := ApplyTransfer(e, l, SelfTrx(key), 1, "a", "a", "a", pos);
      && o.status.Applied? && o.log.Snoc? && o.log.prev == l && WellFormed(e, o.log)
      && o.log.last.TransferLog? && FromKey(o.log.last) == ToKey(o.log.last) == k && o.log.last.amount == 1
      && o.log.last.newFrom < MAX_U64 && DefineAt(e, o.log, "a") == k.account
  {
    PublicKeyIsLastGiven(e, l, "a");
    BalanceIsScan(e, l, "a", "a");
    NameIndexIsDefinition(e, l, "a");
    TransferBalanceGrows(e, l, "a", "a", "a", 1, pos);
    hide PublicKey, Balance, WellFormed, TransferBalance, NameIndex, BalanceOf, TrxLoc;
  }

  /** The transaction is applied; its last record is the transfer to itself, the one before it the issue. */
  lemma SelfLogShape(e: Env, key: Key)
    requires e.verify(SelfTrx(key), key)
    ensures var o := SelfLog(e, key); var l := o.log; var k := AccountKey(DefineAt(e, l, "a"), DefineAt(e, l, "a"));
      && o.status.Applied? && WellFormed(e, l) && k.account.At?
      && l.Snoc? && l.last.TransferLog? && FromKey(l.last) == ToKey(l.last) == k &&
         l.last.amount == 1 && l.last.newFrom < MAX_U64
      && l.prev.Snoc? && IsIssue(l.prev.last) && FromKey(l.prev.last) == k && l.prev.prev == Registered(e, key)
  {
    var t, pos, l0 := SelfTrx(key), At(0), Begun(e, key);
    StartGrows(e, Empty, StartTrx(e.trxHash(t), 0));
    RegisterApplies(e, key, pos);
    TrxLocKept(e, l0, Registered(e, key), pos);
    IssueApplies(e, key, pos);
    var l2 := ApplyIssue(e, Registered(e, key), t, "a", pos).log;
    TrxLocKept(e, Registered(e, key), l2, pos);
    SendApplies(e, l2, key, pos);
    hide Register, ApplyIssue, ApplyTransfer, WellFormed, DefineAt, KeyOf, BalanceOf, TrxLoc, Registered;
    var l3 := ApplyTransfer(e, l2, t, 1, "a", "a", "a", pos);
    assert ApplyCommand(e, l2, t, t.commands[2], "a", pos) == l3;
    assert ApplyCommands(e, l3.log, t, 3, "a", pos) == Outcome(l3.log, Applied);
    assert ApplyCommands(e, l2, t, 2, "a", pos) == l3;
    assert ApplyCommands(e, Registered(e, key), t, 1, "a", pos) == l3;
    assert ApplyCommands(e, l0, t, 0, "a", pos) == l3;
  }

  /** So a transaction that `apply` accepts can lower the total of an issued stock below 2^64 - 1. */
  lemma SelfTransferLosesSupply(e: Env, key: Key)
    requires e.verify(SelfTrx(key), key)
    ensures SelfLog(e, key).status.Applied?
    ensures var l := SelfLog(e, key).log; var a := DefineAt(e, l, "a");
      Issued(l, a) && Total(Balances(l), a) == MAX_U64 - 1
  {
    SelfLogShape(e, key);
    var l := SelfLog(e, key).log;
    var a := DefineAt(e, l, "a");
    Conserved(e, l, a);
    hide SelfLog, WellFormed, Total, Balances;
    assert l.prev.prev == Snoc(Snoc(Empty, l.prev.prev.prev.last), l.prev.prev.last);
    assert Burned(Empty, a) == 0 && Burned(l.prev.prev.prev, a) == 0 && Burned(l.prev.prev, a) == 0;
    assert Burned(l.prev, a) == 0 && Burned(l, a) == 1;
    assert Issued(l.prev, a);
  }

  /** And the walk stops at it, so the issue before it is not listed. */
  lemma SelfTransferEndsWalk(e: Env, key: Key)
    requires e.verify(SelfTrx(key), key)
    ensures var l := SelfLog(e, key).log; var a := DefineAt(e, l, "a"); var k := AccountKey(a, a);
      |Touching(e, l, k)| == 2 && Walk(e, l, "a", LastTransfer(e, l, k)) == [Touching(e, l, k)[0]]
  {
    SelfLogShape(e, key);
    var l := SelfLog(e, key).log;
    var k := AccountKey(DefineAt(e, l, "a"), DefineAt(e, l, "a"));
    WalkIsScan(e, l, "a", k);
    hide SelfLog, WellFormed, Walk, DefineAt;
    assert l.prev.prev == Snoc(Snoc(Empty, l.prev.prev.prev.last), l.prev.prev.last);
    assert Touching(e, Empty, k) == [] && Touching(e, l.prev.prev.prev, k) == [];
    assert Touching(e, l.prev.prev, k) == [];
    assert Touching(e, l.prev, k) == [Size(e, l.prev.prev)];
    assert UntilEnd(e, l, "a", k) == [Size(e, l.prev)];
  }

  // ---------------------------------------------------------------- the account named "", by example

  /** The empty name is registered and its stock issued, then its owner sends one unit to a name nobody has. */
  function UnnamedSent(e: Env): Result<Log> {
    match IssueStock(e, Snoc(Empty, DefineName("", e.noKey)), "", Nowhere)
    case Ok(l) => TransferBalance(e, l, "", "b", "", 1, Nowhere)
    case Err => Err
  }

  lemma UnnamedShape(e: Env)
    ensures UnnamedSent(e).Ok?
    ensures var l := UnnamedSent(e).value; var k := AccountKey(At(0), At(0));
      && WellFormed(e, l) && DefineAt(e, l, "") == At(0)
      && l.Snoc? && l.last.TransferLog? && FromKey(l.last) == k && l.last.recipient == Nowhere
      && l.prev.Snoc? && IsIssue(l.prev.last) && FromKey(l.prev.last) == k
      && l.prev.prev == Snoc(Empty, DefineName("", e.noKey))
  {
    var l0 := Snoc(Empty, DefineName("", e.noKey));
    assert WellFormed(e, Empty) && WellFormed(e, l0) && DefineAt(e, l0, "") == At(0) && Balances(l0) == map[];
    assert DefineAt(e, Empty, "b") == Nowhere && DefineAt(e, l0, "b") == Nowhere;
    IssueStockGrows(e, l0, "", Nowhere);
    var l1 := IssueStock(e, l0, "", Nowhere).value;
    assert DefineAt(e, l1, "") == At(0) && DefineAt(e, l1, "b") == Nowhere;
    assert BalanceOf(l1, AccountKey(At(0), At(0))) == MAX_U64;
    hide IssueStock, TransferBalance;
    TransferBalanceGrows(e, l1, "", "b", "", 1, Nowhere);
  }

  /** The other party reads as "" as well, so the walk of this account ends at the transfer and misses the issue. */
  lemma UnnamedPartyEndsWalk(e: Env)
    ensures UnnamedSent(e).Ok?
    ensures var l := UnnamedSent(e).value; var k := AccountKey(At(0), At(0));
      |Touching(e, l, k)| == 2 && NoSelfTransfer(l, k) &&
      Walk(e, l, "", LastTransfer(e, l, k)) == [Touching(e, l, k)[0]]
  {
    UnnamedShape(e);
    var l, k := UnnamedSent(e).value, AccountKey(At(0), At(0));
    WalkIsScan(e, l, "", k);
    hide UnnamedSent, WellFormed, Walk, DefineAt;
    assert Touching(e, l.prev.prev.prev, k) == [] && NoSelfTransfer(l.prev.prev.prev, k);
    assert Touching(e, l.prev.prev, k) == [] && NoSelfTransfer(l.prev.prev, k);
    assert Touching(e, l.prev, k) == [Size(e, l.prev.prev)] && NoSelfTransfer(l.prev, k);
    assert UntilEnd(e, l, "", k) == [Size(e, l.prev)];
  }
}
