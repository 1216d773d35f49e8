/** Who can spend and who can take over a name: nothing leaves an account, and no name changes its key,
    without the signature the rules ask for (libs/gpm/statedb/state_database.cpp:310-453). */
module Ownership {
  import opened Common
  import opened BlockChain
  import opened Records
  import opened Ledger
  import opened Conservation

  /** The transaction is signed with the key that the account's name has in this log. */
  ghost predicate SignedFor(e: Env, l: Log, trx: SignedTrx, account: Loc) {
    exists name: string :: DefineAt(e, l, name) == account && KeyOf(e, l, name).Some? &&
      e.verify(trx, KeyOf(e, l, name).value)
  }

  /** Somewhere between the two logs it is. */
  ghost predicate Authorised(e: Env, l: Log, l': Log, trx: SignedTrx, account: Loc) {
    exists m: Log :: Prefix(l, m) && Prefix(m, l') && SignedFor(e, m, trx, account)
  }

  lemma AuthorisedWider(e: Env, l: Log, a: Log, b: Log, l': Log, trx: SignedTrx, account: Loc)
    requires Prefix(l, a) && Prefix(b, l') && Authorised(e, a, b, trx, account)
    ensures Authorised(e, l, l', trx, account)
  {
    var m: Log :| Prefix(a, m) && Prefix(m, b) && SignedFor(e, m, trx, account);
    PrefixTransitive(l, a, m);
    PrefixTransitive(m, b, l');
    hide SignedFor, Prefix;
  }

  // ---------------------------------------------------------------- one command

  lemma SendToSpends(e: Env, l: Log, amount: u64, stock: string, sender: string, to: string, pos: Loc, k: AccountKey)
    requires WellFormed(e, l) && TrxLoc(e, l, pos) && DefineAt(e, l, sender).At? && DefineAt(e, l, stock).At?
    requires BalanceOf(SendTo(e, l, amount, stock, sender, to, pos).log, k) < BalanceOf(l, k)
    ensures k.account == DefineAt(e, l, sender)
  {
    hide WellFormed, TransferBalance, NameIndex, Get, DefineAt, BalanceOf;
    NameIndexIsDefinition(e, l, to);
    if DefineAt(e, l, to).At? {
      SpendsFrom(e, l, sender, to, stock, amount, pos, k);
    } else {
      var l1 := Snoc(l, DefineName(to, e.noKey));
      NewNameGrows(e, l, to, sender, stock, pos);
      SameBalances(l, l1, k);
      SpendsFrom(e, l1, sender, to, stock, amount, pos, k);
    }
  }

  lemma SameBalances(l: Log, l1: Log, k: AccountKey)
    requires Balances(l1) == Balances(l)
    ensures BalanceOf(l1, k) == BalanceOf(l, k)
  {}

  lemma SpendsFrom(e: Env, l: Log, sender: string, to: string, stock: string, amount: u64, pos: Loc, k: AccountKey)
    requires WellFormed(e, l) && TrxLoc(e, l, pos)
    ensures var o := Finished(l, TransferBalance(e, l, sender, to, stock, amount, pos));
      BalanceOf(o.log, k) < BalanceOf(l, k) ==> k.account == DefineAt(e, l, sender)
  {
    if TransferBalance(e, l, sender, to, stock, amount, pos).Ok? {
      TransferMovesAmount(e, l, sender, to, stock, amount, pos, k);
    }
    hide TransferBalance, WellFormed, BalanceOf, DefineAt;
  }

  lemma TransferSpends(e: Env, l: Log, trx: SignedTrx, amount: u64, stock: string, sender: string, to: string,
                       pos: Loc, k: AccountKey)
    requires WellFormed(e, l) && TrxLoc(e, l, pos)
    requires BalanceOf(ApplyTransfer(e, l, trx, amount, stock, sender, to, pos).log, k) < BalanceOf(l, k)
    ensures SignedFor(e, l, trx, k.account)
  {
    PublicKeyIsLastGiven(e, l, sender);
    PublicKeyIsLastGiven(e, l, stock);
    hide WellFormed, SendTo, PublicKey, Balance, DefineAt, KeyOf, BalanceOf, TrxLoc;
    SendToSpends(e, l, amount, stock, sender, to, pos, k);
  }

  lemma KeysMoveNothing(e: Env, l: Log, name: string, key: Key, k: AccountKey)
    ensures BalanceOf(SetPublicKey(e, l, name, key).0, k) == BalanceOf(l, k)
  {}

  lemma IssueOnlyAdds(e: Env, l: Log, trx: SignedTrx, stock: string, pos: Loc, k: AccountKey)
    requires WellFormed(e, l) && TrxLoc(e, l, pos)
    ensures BalanceOf(ApplyIssue(e, l, trx, stock, pos).log, k) >= BalanceOf(l, k)
  {
    IssueStockGrows(e, l, stock, pos);
    hide WellFormed, IssueStock, PublicKey, Balance;
  }

  /** A command lowers a balance only when the transaction is signed with the account's key. */
  lemma CommandSpends(e: Env, l: Log, trx: SignedTrx, cmd: Command, gen: string, pos: Loc, k: AccountKey)
    requires WellFormed(e, l) && TrxLoc(e, l, pos)
    requires BalanceOf(ApplyCommand(e, l, trx, cmd, gen, pos).log, k) < BalanceOf(l, k)
    ensures SignedFor(e, l, trx, k.account)
  {
    hide WellFormed, SetPublicKey, ApplyTransfer, ApplyIssue, PublicKey, BalanceOf, SignedFor, TrxLoc;
    match cmd {
      case RegisterName(name, key) => KeysMoveNothing(e, l, name, key, k);
      case Issue(stock) => IssueOnlyAdds(e, l, trx, stock, pos, k);
      case Transfer(amount, stock, sender, recipient) =>
        TransferSpends(e, l, trx, amount, stock, sender, if |recipient| == 0 then gen else recipient, pos, k);
      case Other(_) =>
    }
  }

  // ---------------------------------------------------------------- transactions and blocks

  lemma {:induction false} CommandsSpend(e: Env, l: Log, trx: SignedTrx, i: nat, gen: string, pos: Loc, k: AccountKey)
    requires WellFormed(e, l) && TrxLoc(e, l, pos) && i <= |trx.commands|
    requires BalanceOf(ApplyCommands(e, l, trx, i, gen, pos).log, k) < BalanceOf(l, k)
    ensures Authorised(e, l, ApplyCommands(e, l, trx, i, gen, pos).log, trx, k.account)
    decreases |trx.commands| - i
  {
    hide WellFormed, ApplyCommand, Prefix, BalanceOf, SignedFor, TrxLoc;
    var l' := ApplyCommands(e, l, trx, i, gen, pos).log;
    ApplyCommandsGrows(e, l, trx, i, gen, pos);
    if i < |trx.commands| {
      var o := ApplyCommand(e, l, trx, trx.commands[i], gen, pos);
      ApplyCommandGrows(e, l, trx, trx.commands[i], gen, pos);
      if BalanceOf(o.log, k) < BalanceOf(l, k) {
        CommandSpends(e, l, trx, trx.commands[i], gen, pos, k);
        PrefixReflexive(l);
      } else {
        CommandsSpend(e, o.log, trx, i + 1, gen, pos, k);
        PrefixReflexive(l');
        AuthorisedWider(e, l, o.log, l', l', trx, k.account);
      }
    }
  }

  /** A transaction, applied or rejected, lowers a balance only when it is signed with the key the account has
      at that moment. */
  lemma TrxSpends(e: Env, l: Log, trx: SignedTrx, gen: string, k: AccountKey)
    requires WellFormed(e, l)
    requires BalanceOf(ApplyTrx(e, l, trx, gen).log, k) < BalanceOf(l, k)
    ensures Authorised(e, l, ApplyTrx(e, l, trx, gen).log, trx, k.account)
  {
    var start := StartTrx(e.trxHash(trx), trx.utcTime);
    var l1, l' := Snoc(l, start), ApplyTrx(e, l, trx, gen).log;
    StartGrows(e, l, start);
    assert BalanceOf(l1, k) == BalanceOf(l, k);
    PrefixReflexive(l);
    PrefixReflexive(l');
    assert Prefix(l, l1);
    hide WellFormed, ApplyCommands, Prefix, BalanceOf, SignedFor, TrxLoc;
    CommandsSpend(e, l1, trx, 0, gen, At(Size(e, l)), k);
    AuthorisedWider(e, l, l1, l', l', trx, k.account);
  }

  lemma {:induction false} TrxsSpend(e: Env, l: Log, trxs: seq<SignedTrx>, gen: string, k: AccountKey)
    requires WellFormed(e, l)
    requires BalanceOf(ApplyTrxs(e, l, trxs, gen).log, k) < BalanceOf(l, k)
    ensures exists t :: t in trxs && Authorised(e, l, ApplyTrxs(e, l, trxs, gen).log, t, k.account)
    decreases |trxs|
  {
    hide WellFormed, ApplyTrx, Prefix, BalanceOf, Authorised;
    var l' := ApplyTrxs(e, l, trxs, gen).log;
    var o := ApplyTrx(e, l, trxs[0], gen);
    ApplyTrxGrows(e, l, trxs[0], gen);
    PrefixReflexive(l);
    PrefixReflexive(l');
    if o.status.Applied? {
      ApplyTrxsGrows(e, o.log, trxs[1..], gen);
    }
    if BalanceOf(o.log, k) < BalanceOf(l, k) {
      TrxSpends(e, l, trxs[0], gen, k);
      AuthorisedWider(e, l, l, o.log, l', trxs[0], k.account);
    } else {
      TrxsSpend(e, o.log, trxs[1..], gen, k);
      var t :| t in trxs[1..] && Authorised(e, o.log, l', t, k.account);
      AuthorisedWider(e, l, o.log, l', l', t, k.account);
      assert t in trxs;
    }
  }

  /** A block lowers a balance only when one of its transactions is signed with the key the account has at that
      moment, whoever generated the block. */
  lemma BlockSpends(e: Env, l: Log, b: Block, gen: string, trxs: seq<SignedTrx>, check: Hash, k: AccountKey)
    requires WellFormed(e, l)
    requires BalanceOf(ApplyBlock(e, l, b, gen, trxs, check).log, k) < BalanceOf(l, k)
    ensures exists t :: t in trxs && Authorised(e, l, ApplyBlock(e, l, b, gen, trxs, check).log, t, k.account)
  {
    var o := ApplyTrxs(e, l, trxs, gen);
    var l' := ApplyBlock(e, l, b, gen, trxs, check).log;
    PrefixReflexive(l);
    PrefixReflexive(o.log);
    assert BalanceOf(l', k) == BalanceOf(o.log, k) && Prefix(o.log, l');
    hide WellFormed, ApplyTrxs, ApplyBlock, Prefix, BalanceOf, Authorised;
    TrxsSpend(e, l, trxs, gen, k);
    var t :| t in trxs && Authorised(e, l, o.log, t, k.account);
    AuthorisedWider(e, l, l, o.log, l', t, k.account);
  }

  // ---------------------------------------------------------------- names

  /** A command changes the key of a name that has one only when it is signed with that key, or when the name
      is the address of the new key. */
  lemma CommandTakesName(e: Env, l: Log, trx: SignedTrx, cmd: Command, gen: string, pos: Loc, name: string)
    requires WellFormed(e, l) && TrxLoc(e, l, pos) && KeyOf(e, l, name).Some?
    ensures var after := KeyOf(e, ApplyCommand(e, l, trx, cmd, gen, pos).log, name);
      after.Some? && (after == KeyOf(e, l, name) ||
                      e.verify(trx, KeyOf(e, l, name).value) || name == e.address(after.value))
  {
    hide WellFormed, SetPublicKey, ApplyTransfer, ApplyIssue, PublicKey, KeyOf, TrxLoc;
    match cmd {
      case RegisterName(n, key) =>
        PublicKeyIsLastGiven(e, l, n);
        KeyGiven(e, l, n, key, name);
      case Issue(stock) => IssueKeepsKeys(e, l, trx, stock, pos, name);
      case Transfer(amount, stock, sender, recipient) =>
        TransferKeepsKeys(e, l, trx, amount, stock, sender, if |recipient| == 0 then gen else recipient, pos, name);
      case Other(_) =>
    }
  }

  lemma KeyGiven(e: Env, l: Log, n: string, key: Key, name: string)
    requires WellFormed(e, l)
    ensures KeyOf(e, SetPublicKey(e, l, n, key).0, name) == if name == n then Some(key) else KeyOf(e, l, name)
  {
    LastEditOfName(e, l, n);
  }

  lemma IssueKeepsKeys(e: Env, l: Log, trx: SignedTrx, stock: string, pos: Loc, name: string)
    ensures KeyOf(e, ApplyIssue(e, l, trx, stock, pos).log, name) == KeyOf(e, l, name)
  {
    hide PublicKey, Balance, NameIndex;
  }

  /** A recipient that is defined on the way had no key before. */
  lemma TransferKeepsKeys(e: Env, l: Log, trx: SignedTrx, amount: u64, stock: string, sender: string, to: string,
                          pos: Loc, name: string)
    requires WellFormed(e, l) && KeyOf(e, l, name).Some?
    ensures KeyOf(e, ApplyTransfer(e, l, trx, amount, stock, sender, to, pos).log, name) == KeyOf(e, l, name)
  {
    NameIndexIsDefinition(e, l, to);
    if DefineAt(e, l, to).Nowhere? {
      NoDefinitionNoKey(e, l, to);
    }
    hide WellFormed, PublicKey, Balance, NameIndex, DefineAt;
  }

  /** The transaction is signed with the key the name has in this log, or the name is that key's address. */
  ghost predicate MayTake(e: Env, m: Log, trx: SignedTrx, name: string) {
    KeyOf(e, m, name).Some? && (e.verify(trx, KeyOf(e, m, name).value) || name == e.address(KeyOf(e, m, name).value))
  }

  /** At some moment between the two logs it is. */
  ghost predicate Taken(e: Env, l: Log, l': Log, trx: SignedTrx, name: string) {
    exists m: Log :: Prefix(l, m) && Prefix(m, l') && MayTake(e, m, trx, name)
  }

  lemma TakenWider(e: Env, l: Log, a: Log, b: Log, l': Log, trx: SignedTrx, name: string)
    requires Prefix(l, a) && Prefix(b, l') && Taken(e, a, b, trx, name)
    ensures Taken(e, l, l', trx, name)
  {
    var m: Log :| Prefix(a, m) && Prefix(m, b) && MayTake(e, m, trx, name);
    PrefixTransitive(l, a, m);
    PrefixTransitive(m, b, l');
    hide MayTake, Prefix;
  }

  lemma CommandTaken(e: Env, l: Log, trx: SignedTrx, cmd: Command, gen: string, pos: Loc, name: string)
    requires WellFormed(e, l) && TrxLoc(e, l, pos) && KeyOf(e, l, name).Some?
    ensures var l' := ApplyCommand(e, l, trx, cmd, gen, pos).log;
      KeyOf(e, l', name).Some? && (KeyOf(e, l', name) == KeyOf(e, l, name) || Taken(e, l, l', trx, name))
  {
    var l' := ApplyCommand(e, l, trx, cmd, gen, pos).log;
    CommandTakesName(e, l, trx, cmd, gen, pos, name);
    ApplyCommandGrows(e, l, trx, cmd, gen, pos);
    PrefixReflexive(l);
    PrefixReflexive(l');
    hide WellFormed, ApplyCommand, Prefix, KeyOf, TrxLoc;
    if KeyOf(e, l', name) != KeyOf(e, l, name) {
      assert MayTake(e, l, trx, name) || MayTake(e, l', trx, name);
    }
  }

  lemma {:induction false} CommandsTake(e: Env, l: Log, trx: SignedTrx, i: nat, gen: string, pos: Loc, name: string)
    requires WellFormed(e, l) && TrxLoc(e, l, pos) && i <= |trx.commands| && KeyOf(e, l, name).Some?
    ensures var l' := ApplyCommands(e, l, trx, i, gen, pos).log;
      KeyOf(e, l', name).Some? && (KeyOf(e, l', name) == KeyOf(e, l, name) || Taken(e, l, l', trx, name))
    decreases |trx.commands| - i
  {
    hide WellFormed, ApplyCommand, Prefix, KeyOf, Taken, TrxLoc;
    if i < |trx.commands| {
      var o, l' := ApplyCommand(e, l, trx, trx.commands[i], gen, pos), ApplyCommands(e, l, trx, i, gen, pos).log;
      ApplyCommandGrows(e, l, trx, trx.commands[i], gen, pos);
      CommandTaken(e, l, trx, trx.commands[i], gen, pos, name);
      PrefixReflexive(l);
      PrefixReflexive(l');
      if o.status.Applied? {
        ApplyCommandsGrows(e, o.log, trx, i + 1, gen, pos);
        CommandsTake(e, o.log, trx, i + 1, gen, pos, name);
        if KeyOf(e, o.log, name) != KeyOf(e, l, name) {
          TakenWider(e, l, l, o.log, l', trx, name);
        } else if KeyOf(e, l', name) != KeyOf(e, l, name) {
          TakenWider(e, l, o.log, l', l', trx, name);
        }
      }
    }
  }

  /** A transaction, applied or rejected, never takes a key away, and gives a name that has one another key only
      when at that moment it is signed with the name's key, or the name is its new key's address. */
  lemma TrxTakesName(e: Env, l: Log, trx: SignedTrx, gen: string, name: string)
    requires WellFormed(e, l) && KeyOf(e, l, name).Some?
    ensures var l' := ApplyTrx(e, l, trx, gen).log;
      KeyOf(e, l', name).Some? && (KeyOf(e, l', name) == KeyOf(e, l, name) || Taken(e, l, l', trx, name))
  {
    var start := StartTrx(e.trxHash(trx), trx.utcTime);
    var l1, l' := Snoc(l, start), ApplyTrx(e, l, trx, gen).log;
    StartGrows(e, l, start);
    assert KeyOf(e, l1, name) == KeyOf(e, l, name);
    PrefixReflexive(l);
    PrefixReflexive(l');
    assert Prefix(l, l1);
    hide WellFormed, ApplyCommands, Prefix, KeyOf, Taken, TrxLoc;
    CommandsTake(e, l1, trx, 0, gen, At(Size(e, l)), name);
    if KeyOf(e, l', name) != KeyOf(e, l, name) {
      TakenWider(e, l, l1, l', l', trx, name);
    }
  }

  lemma {:induction false} TrxsTakeName(e: Env, l: Log, trxs: seq<SignedTrx>, gen: string, name: string)
    requires WellFormed(e, l) && KeyOf(e, l, name).Some?
    ensures var l' := ApplyTrxs(e, l, trxs, gen).log;
      KeyOf(e, l', name).Some? && (KeyOf(e, l', name) == KeyOf(e, l, name) ||
         exists t :: t in trxs && Taken(e, l, l', t, name))
    decreases |trxs|
  {
    hide WellFormed, ApplyTrx, Prefix, KeyOf, Taken;
    if trxs != [] {
      var o, l' := ApplyTrx(e, l, trxs[0], gen), ApplyTrxs(e, l, trxs, gen).log;
      ApplyTrxGrows(e, l, trxs[0], gen);
      TrxTakesName(e, l, trxs[0], gen, name);
      PrefixReflexive(l);
      PrefixReflexive(l');
      if o.status.Applied? {
        ApplyTrxsGrows(e, o.log, trxs[1..], gen);
        TrxsTakeName(e, o.log, trxs[1..], gen, name);
      }
      if KeyOf(e, o.log, name) != KeyOf(e, l, name) {
        TakenWider(e, l, l, o.log, l', trxs[0], name);
      } else if KeyOf(e, l', name) != KeyOf(e, l, name) {
        var t :| t in trxs[1..] && Taken(e, o.log, l', t, name);
        TakenWider(e, l, o.log, l', l', t, name);
        assert t in trxs;
      }
    }
  }

  /** The same for blocks: one of the transactions has that right. */
  lemma BlockTakesName(e: Env, l: Log, b: Block, gen: string, trxs: seq<SignedTrx>, check: Hash, name: string)
    requires WellFormed(e, l) && KeyOf(e, l, name).Some?
    ensures var l' := ApplyBlock(e, l, b, gen, trxs, check).log;
      KeyOf(e, l', name).Some? && (KeyOf(e, l', name) == KeyOf(e, l, name) ||
         exists t :: t in trxs && Taken(e, l, l', t, name))
  {
    var o := ApplyTrxs(e, l, trxs, gen);
    var l' := ApplyBlock(e, l, b, gen, trxs, check).log;
    PrefixReflexive(l);
    PrefixReflexive(o.log);
    assert KeyOf(e, l', name) == KeyOf(e, o.log, name) && Prefix(o.log, l');
    hide WellFormed, ApplyTrxs, ApplyBlock, Prefix, KeyOf, Taken;
    TrxsTakeName(e, l, trxs, gen, name);
    if KeyOf(e, l', name) != KeyOf(e, l, name) {
      var t :| t in trxs && Taken(e, l, o.log, t, name);
      TakenWider(e, l, l, o.log, l', t, name);
    }
  }

  // ---------------------------------------------------------------- issuing

  lemma TransferIssuesNothing(e: Env, l: Log, sender: string, to: string, stock: string, amount: u64, pos: Loc, s: Loc)
    requires WellFormed(e, l) && TrxLoc(e, l, pos)
    ensures Issued(Finished(l, TransferBalance(e, l, sender, to, stock, amount, pos)).log, s) == Issued(l, s)
  {
    var r := TransferBalance(e, l, sender, to, stock, amount, pos);
    TransferBalanceGrows(e, l, sender, to, stock, amount, pos);
    hide TransferBalance, WellFormed;
    if r.Ok? {
      MoveIsNoIssue(e, l, r.value.last);
    }
  }

  lemma SendIssuesNothing(e: Env, l: Log, trx: SignedTrx, amount: u64, stock: string, sender: string, to: string,
                          pos: Loc, s: Loc)
    requires WellFormed(e, l) && TrxLoc(e, l, pos)
    ensures Issued(ApplyTransfer(e, l, trx, amount, stock, sender, to, pos).log, s) == Issued(l, s)
  {
    PublicKeyIsLastGiven(e, l, sender);
    PublicKeyIsLastGiven(e, l, stock);
    NameIndexIsDefinition(e, l, to);
    TransferIssuesNothing(e, l, sender, to, stock, amount, pos, s);
    var l1 := Snoc(l, DefineName(to, e.noKey));
    assert Issued(l1, s) == Issued(l, s);
    if DefineAt(e, l, to).Nowhere? && DefineAt(e, l, sender).At? && DefineAt(e, l, stock).At? {
      NewNameGrows(e, l, to, sender, stock, pos);
      TransferIssuesNothing(e, l1, sender, to, stock, amount, pos, s);
    }
    hide WellFormed, TransferBalance, PublicKey, Balance, NameIndex, DefineAt, KeyOf, Issued, TrxLoc;
  }

  lemma IssueIsSigned(e: Env, l: Log, trx: SignedTrx, stock: string, pos: Loc, s: Loc)
    requires WellFormed(e, l) && TrxLoc(e, l, pos) && !Issued(l, s)
    requires Issued(ApplyIssue(e, l, trx, stock, pos).log, s)
    ensures SignedFor(e, l, trx, s)
  {
    PublicKeyIsLastGiven(e, l, stock);
    IssueStockGrows(e, l, stock, pos);
    hide WellFormed, IssueStock, PublicKey, Balance, KeyOf, DefineAt;
  }

  /** A command issues a stock only when the transaction is signed with the key of the stock's name. */
  lemma CommandIssues(e: Env, l: Log, trx: SignedTrx, cmd: Command, gen: string, pos: Loc, s: Loc)
    requires WellFormed(e, l) && TrxLoc(e, l, pos) && !Issued(l, s)
    requires Issued(ApplyCommand(e, l, trx, cmd, gen, pos).log, s)
    ensures SignedFor(e, l, trx, s)
  {
    match cmd {
      case RegisterName(name, key) => KeysIssueNothing(e, l, trx, name, key, s);
      case Issue(stock) => IssueIsSigned(e, l, trx, stock, pos, s);
      case Transfer(amount, stock, sender, recipient) =>
        SendIssuesNothing(e, l, trx, amount, stock, sender, if |recipient| == 0 then gen else recipient, pos, s);
      case Other(_) =>
    }
    hide WellFormed, ApplyTransfer, ApplyIssue, Register, Issued, SignedFor, TrxLoc;
  }

  lemma KeysIssueNothing(e: Env, l: Log, trx: SignedTrx, name: string, key: Key, s: Loc)
    ensures Issued(Register(e, l, trx, name, key).log, s) == Issued(l, s)
  {
    hide PublicKey;
  }

  lemma {:induction false} CommandsIssue(e: Env, l: Log, trx: SignedTrx, i: nat, gen: string, pos: Loc, s: Loc)
    requires WellFormed(e, l) && TrxLoc(e, l, pos) && i <= |trx.commands| && !Issued(l, s)
    requires Issued(ApplyCommands(e, l, trx, i, gen, pos).log, s)
    ensures Authorised(e, l, ApplyCommands(e, l, trx, i, gen, pos).log, trx, s)
    decreases |trx.commands| - i
  {
    hide WellFormed, ApplyCommand, Prefix, Issued, SignedFor, TrxLoc;
    var l' := ApplyCommands(e, l, trx, i, gen, pos).log;
    ApplyCommandsGrows(e, l, trx, i, gen, pos);
    if i < |trx.commands| {
      var o := ApplyCommand(e, l, trx, trx.commands[i], gen, pos);
      ApplyCommandGrows(e, l, trx, trx.commands[i], gen, pos);
      if Issued(o.log, s) {
        CommandIssues(e, l, trx, trx.commands[i], gen, pos, s);
        PrefixReflexive(l);
      } else {
        CommandsIssue(e, o.log, trx, i + 1, gen, pos, s);
        PrefixReflexive(l');
        AuthorisedWider(e, l, o.log, l', l', trx, s);
      }
    }
  }

  /** A transaction issues a stock only when it is signed with the key the stock's name has at that moment. */
  lemma TrxIssues(e: Env, l: Log, trx: SignedTrx, gen: string, s: Loc)
    requires WellFormed(e, l) && !Issued(l, s) && Issued(ApplyTrx(e, l, trx, gen).log, s)
    ensures Authorised(e, l, ApplyTrx(e, l, trx, gen).log, trx, s)
  {
    var start := StartTrx(e.trxHash(trx), trx.utcTime);
    var l1, l' := Snoc(l, start), ApplyTrx(e, l, trx, gen).log;
    StartGrows(e, l, start);
    assert Issued(l1, s) == Issued(l, s);
    PrefixReflexive(l);
    PrefixReflexive(l');
    assert Prefix(l, l1);
    hide WellFormed, ApplyCommands, Prefix, Issued, SignedFor, TrxLoc;
    CommandsIssue(e, l1, trx, 0, gen, At(Size(e, l)), s);
    AuthorisedWider(e, l, l1, l', l', trx, s);
  }

  lemma {:induction false} TrxsIssue(e: Env, l: Log, trxs: seq<SignedTrx>, gen: string, s: Loc)
    requires WellFormed(e, l) && !Issued(l, s) && Issued(ApplyTrxs(e, l, trxs, gen).log, s)
    ensures exists t :: t in trxs && Authorised(e, l, ApplyTrxs(e, l, trxs, gen).log, t, s)
    decreases |trxs|
  {
    hide WellFormed, ApplyTrx, Prefix, Issued, Authorised;
    var o, l' := ApplyTrx(e, l, trxs[0], gen), ApplyTrxs(e, l, trxs, gen).log;
    ApplyTrxGrows(e, l, trxs[0], gen);
    PrefixReflexive(l);
    PrefixReflexive(l');
    if o.status.Applied? {
      ApplyTrxsGrows(e, o.log, trxs[1..], gen);
    }
    if Issued(o.log, s) {
      TrxIssues(e, l, trxs[0], gen, s);
      AuthorisedWider(e, l, l, o.log, l', trxs[0], s);
    } else {
      TrxsIssue(e, o.log, trxs[1..], gen, s);
      var t :| t in trxs[1..] && Authorised(e, o.log, l', t, s);
      AuthorisedWider(e, l, o.log, l', l', t, s);
      assert t in trxs;
    }
  }

  /** A block issues a stock only with a transaction that is so signed. */
  lemma BlockIssues(e: Env, l: Log, b: Block, gen: string, trxs: seq<SignedTrx>, check: Hash, s: Loc)
    requires WellFormed(e, l) && !Issued(l, s) && Issued(ApplyBlock(e, l, b, gen, trxs, check).log, s)
    ensures exists t :: t in trxs && Authorised(e, l, ApplyBlock(e, l, b, gen, trxs, check).log, t, s)
  {
    var o := ApplyTrxs(e, l, trxs, gen);
    var l' := ApplyBlock(e, l, b, gen, trxs, check).log;
    PrefixReflexive(l);
    PrefixReflexive(o.log);
    assert Issued(l', s) == Issued(o.log, s) && Prefix(o.log, l');
    hide WellFormed, ApplyTrxs, ApplyBlock, Prefix, Issued, Authorised;
    TrxsIssue(e, l, trxs, gen, s);
    var t :| t in trxs && Authorised(e, l, o.log, t, s);
    AuthorisedWider(e, l, l, o.log, l', t, s);
  }
}
