/** The iterator over an account's transfers (`abstract_state_database::transfer`,
    libs/gpm/statedb/state_database.cpp:714-786) and the loop that lists them
    (libs/gpm/node/node.cpp:867-883, without its date limits). */
module TransferCursors {
  import opened Common
  import opened Records
  import opened Ledger
  import opened History
  import opened StateDatabases

  class TransferCursor {
    const db: StateDatabase
    var index: Loc

    var sender: string
    var recipient: string
    var stock: string
    var prevFrom: Loc
    var prevTo: Loc
    var amount: nat
    var fromBalance: nat
    var toBalance: nat

    /** The cursor is at its end, or shows the transfer record it stands on. */
    ghost predicate Shows()
      reads this, db
    {
      index.At? ==>
        && Get(db.e, db.log, index).Some? && Get(db.e, db.log, index).value.TransferLog?
        && var r := Get(db.e, db.log, index).value;
        && Ok(sender) == NameForIndex(db.e, db.log, r.sender)
        && Ok(recipient) == NameForIndex(db.e, db.log, r.recipient)
        && Ok(stock) == NameForIndex(db.e, db.log, r.stock)
        && prevFrom == r.lastFrom && prevTo == r.lastTo
        && amount == r.amount && fromBalance == r.newFrom && toBalance == r.newTo
    }

    constructor (db: StateDatabase, index: Loc)
      requires db.Valid()
      requires index.At? ==> Get(db.e, db.log, index).Some? && Get(db.e, db.log, index).value.TransferLog?
      modifies db.file`cursor
      ensures this.db == db && this.index == index && Shows()
    {
      this.db, this.index := db, index;
      sender, recipient, stock := "", "", "";
      prevFrom, prevTo := Nowhere, Nowhere;
      amount, fromBalance, toBalance := 0, 0, 0;
      new;
      var shown := Update();
    }

    /** Lines 722-758. */
    method Update() returns (shown: bool)
      requires db.Valid()
      requires index.At? ==> Get(db.e, db.log, index).Some? && Get(db.e, db.log, index).value.TransferLog?
      modifies this, db.file`cursor
      ensures Shows() && shown == index.At? && index == old(index)
    {
      hide WellFormed, Encodable, Names, Transfers, Bytes, Get, Lookup, NameForIndex, Prefix, StateDatabase.Valid;
      if index.Nowhere? {
        return false;
      }
      var r := Record();
      var f := NameAt(r, r.sender);
      var t := NameAt(r, r.recipient);
      var s := NameAt(r, r.stock);
      fromBalance, toBalance, amount := r.newFrom, r.newTo, r.amount;
      sender, recipient, stock := f, t, s;
      prevFrom, prevTo := r.lastFrom, r.lastTo;
      shown := true;
    }

    method Record() returns (r: Payload)
      requires db.Valid() && Get(db.e, db.log, index).Some? && Get(db.e, db.log, index).value.TransferLog?
      modifies db.file`cursor
      ensures r == Get(db.e, db.log, index).value
    {
      var p := db.Fetch(index);
      r := p.value;
    }

    method NameAt(ghost r: Payload, loc: Loc) returns (name: string)
      requires db.Valid() && Get(db.e, db.log, index) == Some(r) && r.TransferLog?
      requires loc == r.sender || loc == r.recipient || loc == r.stock
      modifies db.file`cursor
      ensures Ok(name) == NameForIndex(db.e, db.log, loc)
    {
      GoodTransferAt(db.e, db.log, index.pos);
      NamedLoc(db.e, db.log, loc);
      var n := db.GetNameForIndex(loc);
      name := n.value;
    }

    /** Lines 761-786. */
    method Previous(account: string) returns (more: bool)
      requires db.Valid() && Shows() && index.At?
      modifies this, db.file`cursor
      ensures Shows() && more == index.At?
      ensures index == History.Previous(db.e, db.log, account, old(index.pos), Get(db.e, db.log, old(index)).value)
      ensures index.At? ==> index.pos < old(index.pos)
    {
      LinksAreTransfers(db.e, db.log, index.pos);
      hide WellFormed, Encodable, Names, Transfers, Bytes, Lookup, NameForIndex, Prefix;
      if recipient == sender {
        index := Nowhere;
        return false;
      }
      if account == recipient {
        if prevTo.At? && prevTo.pos < index.pos {
          index := prevTo;
          more := Update();
          return;
        }
      } else if account == sender {
        if prevFrom.At? && prevFrom.pos < index.pos {
          index := prevFrom;
          more := Update();
          return;
        }
      }
      index := Nowhere;
      more := false;
    }
  }

  /** Lines 278-282 and the loop of `get_transaction_log`: the positions of the transfers visited. */
  method TransactionLog(db: StateDatabase, account: string, stock: string) returns (log: seq<nat>)
    requires db.Valid()
    modifies db.file`cursor
    ensures var k := AccountKey(DefineAt(db.e, db.log, account), DefineAt(db.e, db.log, stock));
      log == Walk(db.e, db.log, account, LastTransfer(db.e, db.log, k))
  {
    hide WellFormed, Encodable, Names, Transfers, Bytes, Lookup, NameForIndex,
         DefineAt, Prefix, NameIndex, History.Previous;
    NameIndexIsDefinition(db.e, db.log, account);
    NameIndexIsDefinition(db.e, db.log, stock);
    var a := db.GetNameIndex(account);
    var s := db.GetNameIndex(stock);
    ghost var k := AccountKey(a.value, s.value);
    var start := db.GetLastTransferIndex(AccountKey(a.value, s.value));
    IndexedTransfer(db.e, db.log, k);
    log := Collect(db, account, start);
  }

  /** The loop of `get_transaction_log`. */
  method Collect(db: StateDatabase, account: string, start: Loc) returns (log: seq<nat>)
    requires db.Valid()
    requires start.At? ==> Get(db.e, db.log, start).Some? && Get(db.e, db.log, start).value.TransferLog?
    modifies db.file`cursor
    ensures log == Walk(db.e, db.log, account, start)
  {
    hide WellFormed, Encodable, Names, Transfers, Bytes, Lookup, NameForIndex, Prefix, History.Previous, Walk;
    log := [];
    var tran := new TransferCursor(db, start);
    while tran.index.At?
      invariant tran.db == db && tran.Shows() && fresh(tran)
      invariant log + Walk(db.e, db.log, account, tran.index) == Walk(db.e, db.log, account, start)
      decreases if tran.index.At? then tran.index.pos + 1 else 0
    {
      WalkStep(db.e, db.log, account, tran.index);
      log := log + [tran.index.pos];
      var more := tran.Previous(account);
    }
    WalkEnd(db.e, db.log, account);
  }

  lemma WalkStep(e: Env, l: Log, account: string, loc: Loc)
    requires Get(e, l, loc).Some? && Get(e, l, loc).value.TransferLog?
    ensures loc.At?
    ensures var rest := Walk(e, l, account, History.Previous(e, l, account, loc.pos, Get(e, l, loc).value));
      forall s: seq<nat> :: s + Walk(e, l, account, loc) == (s + [loc.pos]) + rest
  {}

  lemma WalkEnd(e: Env, l: Log, account: string)
    ensures forall s: seq<nat> :: s + Walk(e, l, account, Nowhere) == s
  {}
}
