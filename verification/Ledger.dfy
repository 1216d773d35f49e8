/** Queries and operations of the state database as functions of the log
    (libs/gpm/statedb/state_database.cpp:76-306, 310-453), and what every log they build keeps. */
module Ledger {
  import opened Common
  import opened BlockChain
  import opened Records

  // ---------------------------------------------------------------- queries, branch by branch

  function PublicKey(e: Env, l: Log, name: string): Option<Key> {
    match Get(e, l, LastNameEdit(e, l, name))
    case Some(DefineName(_, key)) => Some(key)
    case Some(UpdateName(_, key, _)) => Some(key)
    case _ => None
  }

  /** `Err` stands for the exceptions at lines 160 and 174. */
  function NameIndex(e: Env, l: Log, name: string): Result<Loc> {
    var edit := LastNameEdit(e, l, name);
    if edit.Nowhere? then Ok(Nowhere)
    else
      match Get(e, l, edit)
      case Some(DefineName(_, _)) => Ok(edit)
      case Some(UpdateName(idx, _, _)) => Ok(idx)
      case _ => Err
  }

  /** Lines 127-150.  A chain of updates that does not lead backwards is an error here; the source would loop. */
  function NameForIndex(e: Env, l: Log, loc: Loc): Result<string>
    decreases if loc.At? then loc.pos + 1 else 0
  {
    if loc.Nowhere? then Ok("")
    else
      match Get(e, l, loc)
      case Some(DefineName(name, _)) => Ok(name)
      case Some(UpdateName(idx, _, _)) =>
        if idx.At? && idx.pos >= loc.pos then Err else NameForIndex(e, l, idx)
      case _ => Err
  }

  datatype BalanceInfo = BalanceInfo(amount: nat, isNull: bool, loc: Loc)

  /** Lines 212-250; `Err` stands for the exceptions at lines 238, 243 and 248. */
  function Balance(e: Env, l: Log, account: string, stock: string): Result<BalanceInfo> {
    match (NameIndex(e, l, account), NameIndex(e, l, stock))
    case (Ok(a), Ok(t)) => BalanceAt(e, l, a, t)
    case _ => Err
  }

  function BalanceAt(e: Env, l: Log, a: Loc, t: Loc): Result<BalanceInfo> {
    var loc := LastTransfer(e, l, AccountKey(a, t));
    if loc.Nowhere? then Ok(BalanceInfo(0, true, Nowhere))
    else
      var r := Get(e, l, loc);
      if r.None? || !r.value.TransferLog? || r.value.stock != t then Err
      else if r.value.sender == a then Ok(BalanceInfo(r.value.newFrom, false, loc))
      else if r.value.recipient == a then Ok(BalanceInfo(r.value.newTo, false, loc))
      else Err
  }

  // ---------------------------------------------------------------- operations

  /** Lines 179-210: the log and the result, which the callers ignore. */
  function SetPublicKey(e: Env, l: Log, name: string, key: Key): (Log, bool) {
    var edit := LastNameEdit(e, l, name);
    if edit.Nowhere? then (Snoc(l, DefineName(name, key)), true)
    else
      match Get(e, l, edit)
      case Some(DefineName(_, _)) => (Snoc(l, UpdateName(edit, key, edit)), true)
      case Some(UpdateName(idx, _, _)) => (Snoc(l, UpdateName(idx, key, edit)), true)
      case _ => (l, false)
  }

  /** Lines 251-277.  The recipient's new balance is a 64-bit sum. */
  function TransferBalance(e: Env, l: Log, sender: string, recipient: string, stock: string, amount: u64,
                           trx: Loc): Result<Log> {
    match (NameIndex(e, l, sender), NameIndex(e, l, recipient), NameIndex(e, l, stock),
           Balance(e, l, sender, stock), Balance(e, l, recipient, stock))
    case (Ok(f), Ok(t), Ok(s), Ok(fb), Ok(tb)) =>
      if fb.amount < amount then Err
      else Ok(Snoc(l, TransferLog(amount, s, f, t, fb.amount - amount,
                               (tb.amount + amount) % TWO_64, fb.loc, tb.loc, trx)))
    case _ => Err
  }

  /** Lines 283-306. */
  function IssueStock(e: Env, l: Log, stock: string, trx: Loc): Result<Log> {
    match (NameIndex(e, l, stock), Balance(e, l, stock, stock))
    case (Ok(s), Ok(b)) =>
      if !b.isNull then Err
      else Ok(Snoc(l, TransferLog(MAX_U64, s, s, s, MAX_U64, MAX_U64, b.loc, Nowhere, trx)))
    case _ => Err
  }

  datatype Status = Applied | Rejected | Threw

  /** What a run leaves behind: the log with everything written so far, also when it stopped early. */
  datatype Outcome = Outcome(log: Log, status: Status)

  /** One command of a transaction whose `start_trx` record is at `pos` (lines 319-436). */
  function ApplyCommand(e: Env, l: Log, trx: SignedTrx, cmd: Command, gen: string, pos: Loc): Outcome {
    match cmd
    case RegisterName(name, key) => Register(e, l, trx, name, key)
    case Issue(stock) => ApplyIssue(e, l, trx, stock, pos)
    case Transfer(amount, stock, sender, recipient) =>
      if |recipient| > 0 && sender == recipient then Outcome(l, Rejected)
      else ApplyTransfer(e, l, trx, amount, stock, sender, if |recipient| == 0 then gen else recipient, pos)
    case Other(_) => Outcome(l, Rejected)
  }

  function Register(e: Env, l: Log, trx: SignedTrx, name: string, key: Key): Outcome {
    if name == e.address(key) then Outcome(SetPublicKey(e, l, name, key).0, Applied)
    else
      match PublicKey(e, l, name)
      case Some(owner) =>
        if !e.verify(trx, owner) then Outcome(l, Rejected)
        else Outcome(SetPublicKey(e, l, name, key).0, Applied)
      case None => Outcome(SetPublicKey(e, l, name, key).0, Applied)
  }

  function ApplyIssue(e: Env, l: Log, trx: SignedTrx, stock: string, pos: Loc): Outcome {
    match PublicKey(e, l, stock)
    case None => Outcome(l, Rejected)
    case Some(owner) =>
      match Balance(e, l, stock, stock)
      case Err => Outcome(l, Threw)
      case Ok(b) =>
        if !b.isNull || !e.verify(trx, owner) then Outcome(l, Rejected)
        else Finished(l, IssueStock(e, l, stock, pos))
  }

  function Finished(l: Log, r: Result<Log>): Outcome {
    match r case Ok(l') => Outcome(l', Applied) case Err => Outcome(l, Threw)
  }

  /** A transfer whose empty recipient has been replaced by the generator. */
  function ApplyTransfer(e: Env, l: Log, trx: SignedTrx, amount: u64, stock: string, sender: string, to: string,
                         pos: Loc): Outcome {
    match (PublicKey(e, l, sender), PublicKey(e, l, stock))
    case (Some(owner), Some(_)) =>
      if !e.verify(trx, owner) then Outcome(l, Rejected)
      else
        (match Balance(e, l, sender, stock)
         case Err => Outcome(l, Threw)
         case Ok(b) =>
           if b.amount < amount then Outcome(l, Rejected)
           else SendTo(e, l, amount, stock, sender, to, pos))
    case _ => Outcome(l, Rejected)
  }

  /** A recipient that is no registered name must at least be an address, which is then defined. */
  function SendTo(e: Env, l: Log, amount: u64, stock: string, sender: string, to: string, pos: Loc): Outcome {
    match NameIndex(e, l, to)
    case Err => Outcome(l, Threw)
    case Ok(idx) =>
      if idx.At? then Finished(l, TransferBalance(e, l, sender, to, stock, amount, pos))
      else if !e.validAddress(to) then Outcome(l, Rejected)
      else
        var l1 := Snoc(l, DefineName(to, e.noKey));
        Finished(l1, TransferBalance(e, l1, sender, to, stock, amount, pos))
  }

  /** The commands from index `i` on, up to the first one that is not applied. */
  function ApplyCommands(e: Env, l: Log, trx: SignedTrx, i: nat, gen: string, pos: Loc): Outcome
    requires i <= |trx.commands|
    decreases |trx.commands| - i
  {
    if i == |trx.commands| then Outcome(l, Applied)
    else
      var o := ApplyCommand(e, l, trx, trx.commands[i], gen, pos);
      if o.status.Applied? then ApplyCommands(e, o.log, trx, i + 1, gen, pos) else o
  }

  function ApplyTrx(e: Env, l: Log, trx: SignedTrx, gen: string): Outcome {
    ApplyCommands(e, Snoc(l, StartTrx(e.trxHash(trx), trx.utcTime)), trx, 0, gen, At(Size(e, l)))
  }

  function ApplyTrxs(e: Env, l: Log, trxs: seq<SignedTrx>, gen: string): Outcome
    decreases |trxs|
  {
    if trxs == [] then Outcome(l, Applied)
    else
      var o := ApplyTrx(e, l, trxs[0], gen);
      if o.status.Applied? then ApplyTrxs(e, o.log, trxs[1..], gen) else o
  }

  /** Lines 435-453: the transactions, the checksum of everything so far, then the `end_block` record. */
  function ApplyBlock(e: Env, l: Log, b: Block, gen: string, trxs: seq<SignedTrx>, check: Hash): Outcome {
    var o := ApplyTrxs(e, l, trxs, gen);
    if !o.status.Applied? then o
    else if StateHash(e, Bytes(e, o.log)) != check then Outcome(o.log, Rejected)
    else Outcome(Snoc(o.log, EndBlock(b, gen)), Applied)
  }

  // ---------------------------------------------------------------- well-formed logs

  /** `-1`, or the position of a `define_name` record. */
  predicate NameLoc(e: Env, l: Log, x: Loc) {
    x.At? ==> Get(e, l, x).Some? && Get(e, l, x).value.DefineName?
  }

  predicate TrxLoc(e: Env, l: Log, x: Loc) {
    x.At? ==> Get(e, l, x).Some? && Get(e, l, x).value.StartTrx?
  }

  predicate IsIssue(r: Payload) {
    r.TransferLog? && r.sender == r.recipient == r.stock && r.amount == r.newFrom == MAX_U64
  }

  predicate IssueShape(l: Log, r: Payload)
    requires r.TransferLog?
  {
    && r.sender == r.recipient == r.stock
    && r.amount == r.newFrom == r.newTo == MAX_U64
    && r.lastFrom == r.lastTo == Nowhere && FromKey(r) !in Balances(l)
  }

  predicate MoveShape(e: Env, l: Log, r: Payload)
    requires r.TransferLog?
  {
    && r.amount < TWO_64 && r.amount <= BalanceOf(l, FromKey(r))
    && r.newFrom == BalanceOf(l, FromKey(r)) - r.amount
    && r.newTo == (BalanceOf(l, ToKey(r)) + r.amount) % TWO_64
    && r.lastFrom == LastTransfer(e, l, FromKey(r))
    && r.lastTo == LastTransfer(e, l, ToKey(r))
  }

  /** What a record must be, given the log it is appended to. */
  predicate GoodRecord(e: Env, l: Log, r: Payload) {
    match r
    case DefineName(name, _) => name !in Names(e, l)
    case UpdateName(idx, _, last) =>
      (match Get(e, l, idx)
       case Some(DefineName(name, _)) => last == LastNameEdit(e, l, name)
       case _ => false)
    case TransferLog(_, stock, sender, recipient, _, _, _, _, trx) =>
      && NameLoc(e, l, stock) && NameLoc(e, l, sender) && NameLoc(e, l, recipient) && TrxLoc(e, l, trx)
      && (IssueShape(l, r) || MoveShape(e, l, r))
    case _ => true
  }

  predicate WellFormed(e: Env, l: Log) {
    l.Snoc? ==> WellFormed(e, l.prev) && GoodRecord(e, l.prev, l.last)
  }

  // ---------------------------------------------------------------- names

  /** Where a name is defined: the scan the name index stands for. */
  function DefineAt(e: Env, l: Log, name: string): Loc {
    match l
    case Empty => Nowhere
    case Snoc(prev, r) =>
      if r.DefineName? && r.name == name then At(Size(e, prev)) else DefineAt(e, prev, name)
  }

  /** The key a name was last given. */
  function KeyOf(e: Env, l: Log, name: string): Option<Key> {
    match l
    case Empty => None
    case Snoc(prev, r) =>
      if NameEdited(e, prev, r) == Some(name) then Some(r.key) else KeyOf(e, prev, name)
  }

  lemma {:induction false} DefinitionIsFound(e: Env, l: Log, pos: nat)
    requires WellFormed(e, l) && Lookup(e, l, pos).Some? && Lookup(e, l, pos).value.DefineName?
    ensures var name := Lookup(e, l, pos).value.name; name in Names(e, l) && DefineAt(e, l, name) == At(pos)
  {
    if pos != Size(e, l.prev) {
      DefinitionIsFound(e, l.prev, pos);
    }
  }

  /** An update points back at a definition. */
  lemma {:induction false} UpdateLeadsBack(e: Env, l: Log, pos: nat)
    requires WellFormed(e, l) && Lookup(e, l, pos).Some? && Lookup(e, l, pos).value.UpdateName?
    ensures var idx := Lookup(e, l, pos).value.nameIdx;
      idx.At? && idx.pos < pos && Lookup(e, l, idx.pos).Some? && Lookup(e, l, idx.pos).value.DefineName?
  {
    if pos != Size(e, l.prev) {
      UpdateLeadsBack(e, l.prev, pos);
    }
  }

  /** The last edit of a name is its definition, or an update that points at its definition. */
  lemma {:induction false} LastEditOfName(e: Env, l: Log, name: string)
    requires WellFormed(e, l)
    ensures name in Names(e, l) <==> DefineAt(e, l, name).At?
    ensures name in Names(e, l) ==>
      var p := Names(e, l)[name]; var d := DefineAt(e, l, name);
      && p < Size(e, l) && d.pos <= p
      && (match Lookup(e, l, p)
          case Some(DefineName(n, key)) => n == name && d.pos == p && KeyOf(e, l, name) == Some(key)
          case Some(UpdateName(idx, key, _)) => idx == d && d.pos < p && KeyOf(e, l, name) == Some(key)
          case _ => false)
      && Lookup(e, l, d.pos).Some? && Lookup(e, l, d.pos).value.DefineName? && Lookup(e, l, d.pos).value.name == name
  {
    if l.Snoc? {
      LastEditOfName(e, l.prev, name);
      match l.last
      case UpdateName(idx, key, _) => DefinitionIsFound(e, l.prev, idx.pos);
      case _ =>
    }
  }

  /** The name query is the scan for the definition, and never throws. */
  lemma NameIndexIsDefinition(e: Env, l: Log, name: string)
    requires WellFormed(e, l)
    ensures NameIndex(e, l, name) == Ok(DefineAt(e, l, name))
    ensures NameLoc(e, l, DefineAt(e, l, name))
  {
    LastEditOfName(e, l, name);
  }

  lemma {:induction false} NoDefinitionNoKey(e: Env, l: Log, name: string)
    requires WellFormed(e, l) && DefineAt(e, l, name).Nowhere?
    ensures KeyOf(e, l, name) == None
  {
    if l.Snoc? {
      NoDefinitionNoKey(e, l.prev, name);
      if l.last.UpdateName? {
        DefinitionIsFound(e, l.prev, l.last.nameIdx.pos);
      }
    }
  }

  /** The key query is the scan for the last key given. */
  lemma PublicKeyIsLastGiven(e: Env, l: Log, name: string)
    requires WellFormed(e, l)
    ensures PublicKey(e, l, name) == KeyOf(e, l, name)
    ensures PublicKey(e, l, name).Some? <==> DefineAt(e, l, name).At?
  {
    LastEditOfName(e, l, name);
    if DefineAt(e, l, name).Nowhere? {
      NoDefinitionNoKey(e, l, name);
    }
  }

  /** A name's index is undone by `get_name_for_index`; an unknown name comes back as the empty string. */
  lemma NameIndexUndone(e: Env, l: Log, name: string)
    requires WellFormed(e, l)
    ensures NameForIndex(e, l, DefineAt(e, l, name)) == Ok(if name in Names(e, l) then name else "")
  {
    LastEditOfName(e, l, name);
  }

  /** At any position: a definition gives its name, an update the name of the definition it points at, and everything
      else is an error. */
  lemma NameForIndexExactly(e: Env, l: Log, pos: nat)
    requires WellFormed(e, l)
    ensures var r, n := Lookup(e, l, pos), NameForIndex(e, l, At(pos));
      if r.Some? && r.value.DefineName? then n == Ok(r.value.name)
      else if r.Some? && r.value.UpdateName? then
        var d := Get(e, l, r.value.nameIdx);
        d.Some? && d.value.DefineName? && n == Ok(d.value.name)
      else n.Err?
  {
    if Lookup(e, l, pos).Some? && Lookup(e, l, pos).value.UpdateName? {
      UpdateLeadsBack(e, l, pos);
    }
  }

  lemma NameIndexInjective(e: Env, l: Log, a: string, b: string)
    requires WellFormed(e, l) && a in Names(e, l) && DefineAt(e, l, a) == DefineAt(e, l, b)
    ensures a == b
  {
    LastEditOfName(e, l, a);
    LastEditOfName(e, l, b);
  }

  /** Once given, an index is permanent. */
  lemma {:induction false} NameIndexPermanent(e: Env, a: Log, b: Log, name: string)
    requires Prefix(a, b) && WellFormed(e, b) && DefineAt(e, a, name).At?
    ensures DefineAt(e, b, name) == DefineAt(e, a, name)
  {
    if a != b {
      NameIndexPermanent(e, a, b.prev, name);
      LastEditOfName(e, b.prev, name);
    }
  }

  // ---------------------------------------------------------------- balances

  /** The transfer index leads to a record that touches the key and holds its scanned balance. */
  lemma {:induction false} IndexedTransfer(e: Env, l: Log, k: AccountKey)
    ensures k in Transfers(e, l) <==> k in Balances(l)
    ensures k in Transfers(e, l) ==>
      var r := Lookup(e, l, Transfers(e, l)[k]);
      && Transfers(e, l)[k] < Size(e, l) && r.Some? && r.value.TransferLog?
      && (FromKey(r.value) == k || ToKey(r.value) == k)
      && BalanceIn(r.value, k) == Balances(l)[k]
  {
    if l.Snoc? {
      IndexedTransfer(e, l.prev, k);
    }
  }

  lemma BalanceAtIsScan(e: Env, l: Log, a: Loc, t: Loc)
    ensures var k := AccountKey(a, t);
      BalanceAt(e, l, a, t) == Ok(BalanceInfo(BalanceOf(l, k), k !in Balances(l), LastTransfer(e, l, k)))
  {
    IndexedTransfer(e, l, AccountKey(a, t));
  }

  /** Every key ever touched has a registered name, or -1, as its account. */
  lemma {:induction false} AccountsAreNames(e: Env, l: Log, k: AccountKey)
    requires WellFormed(e, l) && k in Transfers(e, l)
    ensures NameLoc(e, l, k.account)
  {
    var r := l.last;
    if !(r.TransferLog? && (FromKey(r) == k || ToKey(r) == k)) {
      AccountsAreNames(e, l.prev, k);
    }
  }

  /** No account starts one byte after another one, so the key range of an account's contents holds no stranger. */
  lemma NoNeighbour(e: Env, l: Log, acnt: nat, k: AccountKey)
    requires WellFormed(e, l) && k in Transfers(e, l) && Lookup(e, l, acnt).Some?
    ensures k.account != At(acnt + 1)
  {
    AccountsAreNames(e, l, k);
    if k.account == At(acnt + 1) {
      RecordsApart(e, l, acnt, acnt + 1);
    }
  }

  /** The balance query is the scan of the log, and never throws. */
  lemma BalanceIsScan(e: Env, l: Log, account: string, stock: string)
    requires WellFormed(e, l)
    ensures var k := AccountKey(DefineAt(e, l, account), DefineAt(e, l, stock));
      Balance(e, l, account, stock) == Ok(BalanceInfo(BalanceOf(l, k), k !in Balances(l), LastTransfer(e, l, k)))
  {
    NameIndexIsDefinition(e, l, account);
    NameIndexIsDefinition(e, l, stock);
    BalanceAtIsScan(e, l, DefineAt(e, l, account), DefineAt(e, l, stock));
  }

  // ---------------------------------------------------------------- every operation keeps the log well-formed

  /** `l'` is a well-formed extension of `l`. */
  predicate Grown(e: Env, l: Log, l': Log) {
    Prefix(l, l') && WellFormed(e, l')
  }

  lemma UnfoldGrown(e: Env, l: Log, r: Payload)
    requires Grown(e, l, Snoc(l, r))
    ensures GoodRecord(e, l, r)
  {}

  lemma StartGrows(e: Env, l: Log, start: Payload)
    requires WellFormed(e, l) && start.StartTrx?
    ensures WellFormed(e, Snoc(l, start)) && TrxLoc(e, Snoc(l, start), At(Size(e, l)))
  {}

  lemma SetPublicKeyGrows(e: Env, l: Log, name: string, key: Key)
    requires WellFormed(e, l)
    ensures var (l', ok) := SetPublicKey(e, l, name, key);
      ok && l'.Snoc? && l'.prev == l && Grown(e, l, l') && KeyOf(e, l', name) == Some(key) && DefineAt(e, l', name).At?
  {
    LastEditOfName(e, l, name);
  }

  /** A transfer fails exactly when the sender holds less than the amount. */
  lemma TransferBalanceGrows(e: Env, l: Log, sender: string, recipient: string, stock: string, amount: u64, trx: Loc)
    requires WellFormed(e, l) && TrxLoc(e, l, trx)
    ensures var k := AccountKey(DefineAt(e, l, sender), DefineAt(e, l, stock));
      var r := TransferBalance(e, l, sender, recipient, stock, amount, trx);
      && (r.Ok? <==> amount <= BalanceOf(l, k))
      && (r.Ok? ==> (r.value.Snoc? && r.value.prev == l && Grown(e, l, r.value)
                     && FromKey(r.value.last) == k
                     && ToKey(r.value.last) == AccountKey(DefineAt(e, l, recipient), DefineAt(e, l, stock))
                     && r.value.last.amount == amount && MoveShape(e, l, r.value.last)))
  {
    BalanceIsScan(e, l, sender, stock);
    BalanceIsScan(e, l, recipient, stock);
    NameIndexIsDefinition(e, l, sender);
    NameIndexIsDefinition(e, l, recipient);
    NameIndexIsDefinition(e, l, stock);
  }

  /** An issue fails exactly when the stock's own account was touched before. */
  lemma IssueStockGrows(e: Env, l: Log, stock: string, trx: Loc)
    requires WellFormed(e, l) && TrxLoc(e, l, trx)
    ensures var k := AccountKey(DefineAt(e, l, stock), DefineAt(e, l, stock));
      var r := IssueStock(e, l, stock, trx);
      && (r.Ok? <==> k !in Balances(l))
      && (r.Ok? ==> (r.value.Snoc? && r.value.prev == l && Grown(e, l, r.value)
                     && FromKey(r.value.last) == k && IssueShape(l, r.value.last)))
  {
    BalanceIsScan(e, l, stock, stock);
    NameIndexIsDefinition(e, l, stock);
    IndexedTransfer(e, l, AccountKey(DefineAt(e, l, stock), DefineAt(e, l, stock)));
  }

  lemma ApplyTransferGrows(e: Env, l: Log, trx: SignedTrx, amount: u64, stock: string, sender: string, to: string,
                           pos: Loc)
    requires WellFormed(e, l) && TrxLoc(e, l, pos)
    ensures var o := ApplyTransfer(e, l, trx, amount, stock, sender, to, pos); o.status != Threw && Grown(e, l, o.log)
  {
    hide WellFormed, TransferBalance, Balance, NameIndex, PublicKey, Get, DefineAt, Balances;
    PublicKeyIsLastGiven(e, l, sender);
    PublicKeyIsLastGiven(e, l, stock);
    BalanceIsScan(e, l, sender, stock);
    NameIndexIsDefinition(e, l, to);
    TransferBalanceGrows(e, l, sender, to, stock, amount, pos);
    if DefineAt(e, l, to).Nowhere? && DefineAt(e, l, sender).At? && DefineAt(e, l, stock).At? {
      NewNameGrows(e, l, to, sender, stock, pos);
      TransferBalanceGrows(e, Snoc(l, DefineName(to, e.noKey)), sender, to, stock, amount, pos);
    }
  }

  /** Defining an unknown name moves no balance and no other name. */
  lemma NewNameGrows(e: Env, l: Log, to: string, sender: string, stock: string, pos: Loc)
    requires WellFormed(e, l) && TrxLoc(e, l, pos) && DefineAt(e, l, to).Nowhere?
    requires DefineAt(e, l, sender).At? && DefineAt(e, l, stock).At?
    ensures var l1 := Snoc(l, DefineName(to, e.noKey));
      && Prefix(l, l1) && WellFormed(e, l1) && TrxLoc(e, l1, pos) && Balances(l1) == Balances(l)
      && DefineAt(e, l1, sender) == DefineAt(e, l, sender) && DefineAt(e, l1, stock) == DefineAt(e, l, stock)
  {
    LastEditOfName(e, l, to);
  }

  lemma ApplyCommandGrows(e: Env, l: Log, trx: SignedTrx, cmd: Command, gen: string, pos: Loc)
    requires WellFormed(e, l) && TrxLoc(e, l, pos)
    ensures var o := ApplyCommand(e, l, trx, cmd, gen, pos);
      o.status != Threw && Grown(e, l, o.log) && TrxLoc(e, o.log, pos)
  {
    hide WellFormed, SetPublicKey, ApplyTransfer, IssueStock, Balance, PublicKey, Get;
    match cmd {
      case RegisterName(name, key) =>
        SetPublicKeyGrows(e, l, name, key);
      case Issue(stock) =>
        BalanceIsScan(e, l, stock, stock);
        IssueStockGrows(e, l, stock, pos);
      case Transfer(amount, stock, sender, recipient) =>
        ApplyTransferGrows(e, l, trx, amount, stock, sender, if |recipient| == 0 then gen else recipient, pos);
      case Other(_) =>
    }
    TrxLocKept(e, l, ApplyCommand(e, l, trx, cmd, gen, pos).log, pos);
  }

  lemma TrxLocKept(e: Env, l: Log, l': Log, pos: Loc)
    requires TrxLoc(e, l, pos) && Prefix(l, l')
    ensures TrxLoc(e, l', pos)
  {
    PrefixKeepsRecords(e, l, l');
  }

  lemma {:induction false} ApplyCommandsGrows(e: Env, l: Log, trx: SignedTrx, i: nat, gen: string, pos: Loc)
    requires WellFormed(e, l) && TrxLoc(e, l, pos) && i <= |trx.commands|
    ensures var o := ApplyCommands(e, l, trx, i, gen, pos); o.status != Threw && Grown(e, l, o.log)
    decreases |trx.commands| - i
  {
    hide WellFormed, ApplyCommand, Prefix;
    if i < |trx.commands| {
      var o := ApplyCommand(e, l, trx, trx.commands[i], gen, pos);
      ApplyCommandGrows(e, l, trx, trx.commands[i], gen, pos);
      if o.status.Applied? {
        ApplyCommandsGrows(e, o.log, trx, i + 1, gen, pos);
        PrefixTransitive(l, o.log, ApplyCommands(e, l, trx, i, gen, pos).log);
      }
    } else {
      PrefixReflexive(l);
    }
  }

  lemma PrefixReflexive(l: Log)
    ensures Prefix(l, l)
  {}

  /** From a well-formed log no transaction throws, and every log it leaves, also when it is
      rejected half-way, is a well-formed extension. */
  lemma ApplyTrxGrows(e: Env, l: Log, trx: SignedTrx, gen: string)
    requires WellFormed(e, l)
    ensures var o := ApplyTrx(e, l, trx, gen); o.status != Threw && Grown(e, l, o.log)
  {
    var l1 := Snoc(l, StartTrx(e.trxHash(trx), trx.utcTime));
    assert Get(e, l1, At(Size(e, l))) == Some(l1.last);
    ApplyCommandsGrows(e, l1, trx, 0, gen, At(Size(e, l)));
    PrefixTransitive(l, l1, ApplyTrx(e, l, trx, gen).log);
  }

  lemma {:induction false} ApplyTrxsGrows(e: Env, l: Log, trxs: seq<SignedTrx>, gen: string)
    requires WellFormed(e, l)
    ensures var o := ApplyTrxs(e, l, trxs, gen); o.status != Threw && Grown(e, l, o.log)
    decreases |trxs|
  {
    hide WellFormed, ApplyTrx, Prefix;
    if trxs == [] {
      PrefixReflexive(l);
    } else {
      var o := ApplyTrx(e, l, trxs[0], gen);
      ApplyTrxGrows(e, l, trxs[0], gen);
      if o.status.Applied? {
        ApplyTrxsGrows(e, o.log, trxs[1..], gen);
        PrefixTransitive(l, o.log, ApplyTrxs(e, l, trxs, gen).log);
      }
    }
  }

  lemma ApplyBlockGrows(e: Env, l: Log, b: Block, gen: string, trxs: seq<SignedTrx>, check: Hash)
    requires WellFormed(e, l)
    ensures var o := ApplyBlock(e, l, b, gen, trxs, check); o.status != Threw && Grown(e, l, o.log)
  {
    ApplyTrxsGrows(e, l, trxs, gen);
    var o := ApplyTrxs(e, l, trxs, gen);
    PrefixTransitive(l, o.log, Snoc(o.log, EndBlock(b, gen)));
  }

  // ---------------------------------------------------------------- whole runs

  /** Every way the log grows: the public operations, transactions applied or rejected, and blocks. */
  datatype LedgerStep =
    | DoKey(name: string, key: Key)
    | DoIssue(stock: string)
    | DoTransfer(sender: string, recipient: string, stock: string, amount: u64)
    | DoTrx(trx: SignedTrx, gen: string)
    | DoBlock(blk: Block, gen: string, trxs: seq<SignedTrx>, check: Hash)

  function RunStep(e: Env, l: Log, s: LedgerStep): Log {
    match s
    case DoKey(name, key) => SetPublicKey(e, l, name, key).0
    case DoIssue(stock) => Finished(l, IssueStock(e, l, stock, Nowhere)).log
    case DoTransfer(f, t, stock, amount) => Finished(l, TransferBalance(e, l, f, t, stock, amount, Nowhere)).log
    case DoTrx(trx, gen) => ApplyTrx(e, l, trx, gen).log
    case DoBlock(b, gen, trxs, check) => ApplyBlock(e, l, b, gen, trxs, check).log
  }

  function RunLedger(e: Env, l: Log, steps: seq<LedgerStep>): Log
    decreases |steps|
  {
    if steps == [] then l else RunLedger(e, RunStep(e, l, steps[0]), steps[1..])
  }

  /** Every log reachable from the empty one is well-formed, so no query on it throws. */
  lemma {:induction false} EveryRunWellFormed(e: Env, l: Log, steps: seq<LedgerStep>)
    requires WellFormed(e, l)
    ensures WellFormed(e, RunLedger(e, l, steps))
    decreases |steps|
  {
    if steps != [] {
      match steps[0] {
        case DoKey(name, key) => SetPublicKeyGrows(e, l, name, key);
        case DoIssue(stock) => IssueStockGrows(e, l, stock, Nowhere);
        case DoTransfer(f, t, stock, amount) => TransferBalanceGrows(e, l, f, t, stock, amount, Nowhere);
        case DoTrx(trx, gen) => ApplyTrxGrows(e, l, trx, gen);
        case DoBlock(b, gen, trxs, check) => ApplyBlockGrows(e, l, b, gen, trxs, check);
      }
      EveryRunWellFormed(e, RunStep(e, l, steps[0]), steps[1..]);
    }
  }
}
