/** What every command, transaction and block does, exactly: when it is applied, what it then changes, and what
    is left when it is not (libs/gpm/statedb/state_database.cpp:310-453). */
module Rules {
  import opened Common
  import opened BlockChain
  import opened Records
  import opened Ledger
  import opened Conservation

  // ---------------------------------------------------------------- the transfer command

  /** The generator stands in for a recipient that is left empty. */
  function Recipient(recipient: string, gen: string): string {
    if |recipient| == 0 then gen else recipient
  }

  /** The sender signed and has the amount; both names have keys. */
  predicate MaySend(e: Env, l: Log, trx: SignedTrx, amount: u64, stock: string, sender: string) {
    && KeyOf(e, l, sender).Some? && KeyOf(e, l, stock).Some?
    && e.verify(trx, KeyOf(e, l, sender).value)
    && amount <= BalanceOf(l, AccountKey(DefineAt(e, l, sender), DefineAt(e, l, stock)))
  }

  predicate MayReceive(e: Env, l: Log, to: string) {
    KeyOf(e, l, to).Some? || e.validAddress(to)
  }

  /** When a transfer is allowed: by the names, keys, signature and balances of the log before it. */
  predicate MayTransfer(e: Env, l: Log, trx: SignedTrx, amount: u64, stock: string, sender: string, recipient: string,
                        gen: string) {
    && !(|recipient| > 0 && sender == recipient)
    && MaySend(e, l, trx, amount, stock, sender) && MayReceive(e, l, Recipient(recipient, gen))
  }

  /** The log in which a recipient that is only an address has been defined. */
  function WithRecipient(e: Env, l: Log, to: string): Log {
    if KeyOf(e, l, to).Some? then l else Snoc(l, DefineName(to, e.noKey))
  }

  /** The balance of a key after `amount` went from one key to another; back to itself, it is lost. */
  function Moved(l: Log, from: AccountKey, to: AccountKey, amount: nat, k: AccountKey): int {
    if k == from then BalanceOf(l, k) - amount else if k == to then BalanceOf(l, k) + amount else BalanceOf(l, k)
  }

  /** The transfer operation, on a log where all three names are known. */
  lemma SendsExactly(e: Env, l: Log, amount: u64, stock: string, sender: string, to: string, pos: Loc)
    requires WellFormed(e, l) && TrxLoc(e, l, pos)
    requires amount <= BalanceOf(l, AccountKey(DefineAt(e, l, sender), DefineAt(e, l, stock)))
    ensures var r := TransferBalance(e, l, sender, to, stock, amount, pos);
      var s, f, t := DefineAt(e, l, stock), DefineAt(e, l, sender), DefineAt(e, l, to);
      && r.Ok? && r.value.Snoc? && r.value.prev == l && r.value.last.TransferLog?
      && r.value.last.amount == amount && r.value.last.stock == s && r.value.last.sender == f
      && r.value.last.recipient == t && r.value.last.trx == pos
      && r.value.last.lastFrom == LastTransfer(e, l, AccountKey(f, s))
      && r.value.last.lastTo == LastTransfer(e, l, AccountKey(t, s))
      && forall k :: BalanceOf(r.value, k) == Moved(l, AccountKey(f, s), AccountKey(t, s), amount, k)
  {
    TransferBalanceGrows(e, l, sender, to, stock, amount, pos);
    var r := TransferBalance(e, l, sender, to, stock, amount, pos);
    assert r.value.last.trx == pos;
    forall k
      ensures BalanceOf(r.value, k) == Moved(l, FromKey(r.value.last), ToKey(r.value.last), amount, k)
    {
      TransferMovesAmount(e, l, sender, to, stock, amount, pos, k);
    }
    hide TransferBalance, WellFormed, BalanceOf, DefineAt;
  }

  lemma SameScan(e: Env, l: Log, to: string, sender: string, stock: string)
    requires WellFormed(e, l) && DefineAt(e, l, to).Nowhere?
    requires DefineAt(e, l, sender).At? && DefineAt(e, l, stock).At?
    ensures var l1 := Snoc(l, DefineName(to, e.noKey));
      && Balances(l1) == Balances(l) && DefineAt(e, l1, sender) == DefineAt(e, l, sender)
      && DefineAt(e, l1, stock) == DefineAt(e, l, stock) && DefineAt(e, l1, to) == At(Size(e, l))
      && forall n :: KeyOf(e, l1, n) == if n == to then Some(e.noKey) else KeyOf(e, l, n)
  {
    LastEditOfName(e, l, to);
    LastEditOfName(e, l, sender);
  }

  lemma CommandIsSend(e: Env, l: Log, trx: SignedTrx, amount: u64, stock: string, sender: string,
                      recipient: string, gen: string, pos: Loc)
    requires WellFormed(e, l)
    ensures ApplyCommand(e, l, trx, Transfer(amount, stock, sender, recipient), gen, pos)
      == if !(|recipient| > 0 && sender == recipient) && MaySend(e, l, trx, amount, stock, sender)
         then SendTo(e, l, amount, stock, sender, Recipient(recipient, gen), pos) else Outcome(l, Rejected)
  {
    PublicKeyIsLastGiven(e, l, sender);
    PublicKeyIsLastGiven(e, l, stock);
    BalanceIsScan(e, l, sender, stock);
    hide WellFormed, SendTo, PublicKey, Balance, DefineAt, KeyOf, Balances;
  }

  lemma SendToExactly(e: Env, l: Log, trx: SignedTrx, amount: u64, stock: string, sender: string, to: string, pos: Loc)
    requires WellFormed(e, l) && TrxLoc(e, l, pos) && MaySend(e, l, trx, amount, stock, sender)
    ensures var o := SendTo(e, l, amount, stock, sender, to, pos); var l1 := WithRecipient(e, l, to);
      if MayReceive(e, l, to) then
        && WellFormed(e, l1) && TrxLoc(e, l1, pos) && Balances(l1) == Balances(l) && DefineAt(e, l1, to).At?
        && DefineAt(e, l1, sender) == DefineAt(e, l, sender) && DefineAt(e, l1, stock) == DefineAt(e, l, stock)
        && TransferBalance(e, l1, sender, to, stock, amount, pos).Ok?
        && o == Outcome(TransferBalance(e, l1, sender, to, stock, amount, pos).value, Applied)
      else o == Outcome(l, Rejected)
  {
    var l1 := WithRecipient(e, l, to);
    PublicKeyIsLastGiven(e, l, sender);
    PublicKeyIsLastGiven(e, l, stock);
    PublicKeyIsLastGiven(e, l, to);
    NameIndexIsDefinition(e, l, to);
    if DefineAt(e, l, to).Nowhere? {
      SameScan(e, l, to, sender, stock);
      NewNameGrows(e, l, to, sender, stock, pos);
    }
    assert forall k :: BalanceOf(l1, k) == BalanceOf(l, k);
    hide WellFormed, TransferBalance, NameIndex, DefineAt, KeyOf, Balances, TrxLoc, BalanceOf, PublicKey;
    TransferBalanceGrows(e, l1, sender, to, stock, amount, pos);
  }

  /** A transfer command is applied exactly when it is allowed; otherwise it is rejected and leaves no trace. */
  lemma TransferAppliesExactly(e: Env, l: Log, trx: SignedTrx, amount: u64, stock: string, sender: string,
                               recipient: string, gen: string, pos: Loc)
    requires WellFormed(e, l) && TrxLoc(e, l, pos)
    ensures var o := ApplyCommand(e, l, trx, Transfer(amount, stock, sender, recipient), gen, pos);
      && (o.status.Applied? <==> MayTransfer(e, l, trx, amount, stock, sender, recipient, gen))
      && (!o.status.Applied? ==> o == Outcome(l, Rejected))
  {
    hide WellFormed, TrxLoc, MaySend, MayReceive, ApplyCommand, SendTo, TransferBalance, WithRecipient;
    CommandIsSend(e, l, trx, amount, stock, sender, recipient, gen, pos);
    if MaySend(e, l, trx, amount, stock, sender) {
      SendToExactly(e, l, trx, amount, stock, sender, Recipient(recipient, gen), pos);
    }
  }

  /** What an applied transfer leaves: a recipient that was only an address is defined without a key, then one record
      is added; the amount leaves the sender and arrives at a different recipient; nothing else moves. */
  lemma TransferMovesExactly(e: Env, l: Log, trx: SignedTrx, amount: u64, stock: string, sender: string,
                             recipient: string, gen: string, pos: Loc)
    requires WellFormed(e, l) && TrxLoc(e, l, pos)
    requires MayTransfer(e, l, trx, amount, stock, sender, recipient, gen)
    ensures var l' := ApplyCommand(e, l, trx, Transfer(amount, stock, sender, recipient), gen, pos).log;
      var to := Recipient(recipient, gen);
      var l1 := WithRecipient(e, l, to);
      var s, f, t := DefineAt(e, l, stock), DefineAt(e, l, sender), DefineAt(e, l1, to);
      && t.At? && l'.Snoc? && l'.prev == l1 && l'.last.TransferLog?
      && l'.last.amount == amount && l'.last.stock == s && l'.last.sender == f && l'.last.recipient == t
      && l'.last.trx == pos && l'.last.lastFrom == LastTransfer(e, l1, AccountKey(f, s))
      && l'.last.lastTo == LastTransfer(e, l1, AccountKey(t, s))
      && (forall k :: BalanceOf(l', k) == Moved(l, AccountKey(f, s), AccountKey(t, s), amount, k))
      && (forall n :: KeyOf(e, l', n) == if n == to && KeyOf(e, l, to).None? then Some(e.noKey) else KeyOf(e, l, n))
  {
    var to := Recipient(recipient, gen);
    var l1 := WithRecipient(e, l, to);
    assert MaySend(e, l, trx, amount, stock, sender) && MayReceive(e, l, to);
    CommandIsSend(e, l, trx, amount, stock, sender, recipient, gen, pos);
    SendToExactly(e, l, trx, amount, stock, sender, to, pos);
    assert forall k :: BalanceOf(l1, k) == BalanceOf(l, k);
    forall n
      ensures KeyOf(e, l1, n) == if n == to && KeyOf(e, l, to).None? then Some(e.noKey) else KeyOf(e, l, n)
    {
      if KeyOf(e, l, to).None? {
        PublicKeyIsLastGiven(e, l, to);
        PublicKeyIsLastGiven(e, l, sender);
        PublicKeyIsLastGiven(e, l, stock);
        SameScan(e, l, to, sender, stock);
      }
    }
    hide WellFormed, TransferBalance, DefineAt, KeyOf, Balances, TrxLoc, BalanceOf, ApplyCommand, SendTo;
    SendsExactly(e, l1, amount, stock, sender, to, pos);
    var r := TransferBalance(e, l1, sender, to, stock, amount, pos);
    forall n
      ensures KeyOf(e, r.value, n) == KeyOf(e, l1, n)
    {
      TransferGivesNoKey(e, l1, r.value.last, n);
    }
  }

  lemma TransferGivesNoKey(e: Env, l: Log, r: Payload, n: string)
    requires r.TransferLog?
    ensures KeyOf(e, Snoc(l, r), n) == KeyOf(e, l, n)
  {}

  // ---------------------------------------------------------------- the other commands

  /** When a name may be given a key: nobody has it, its holder signed, or it is the key's address. */
  predicate MayRegister(e: Env, l: Log, trx: SignedTrx, name: string, key: Key) {
    name == e.address(key) || KeyOf(e, l, name).None? || e.verify(trx, KeyOf(e, l, name).value)
  }

  /** The record that gives a key: a definition the first time, then an update that points at the definition and at the
      edit before it. */
  function KeyRecord(e: Env, l: Log, name: string, key: Key): Payload {
    var d := DefineAt(e, l, name);
    if d.Nowhere? then DefineName(name, key) else UpdateName(d, key, LastNameEdit(e, l, name))
  }

  /** A registration is applied exactly then; it gives this name the key and changes no other key, no index that is
      already given, and no balance.  Otherwise it leaves no trace. */
  lemma RegisterExactly(e: Env, l: Log, trx: SignedTrx, name: string, key: Key, gen: string, pos: Loc)
    requires WellFormed(e, l) && TrxLoc(e, l, pos)
    ensures var o := ApplyCommand(e, l, trx, RegisterName(name, key), gen, pos);
      && (o.status.Applied? <==> MayRegister(e, l, trx, name, key))
      && (!o.status.Applied? ==> o == Outcome(l, Rejected))
      && (o.status.Applied? ==>
            && o.log == Snoc(l, KeyRecord(e, l, name, key)) && Balances(o.log) == Balances(l)
            && (forall n :: KeyOf(e, o.log, n) == if n == name then Some(key) else KeyOf(e, l, n))
            && (forall n :: DefineAt(e, o.log, n) ==
                  if n == name && DefineAt(e, l, n).Nowhere? then At(Size(e, l)) else DefineAt(e, l, n)))
  {
    PublicKeyIsLastGiven(e, l, name);
    SetPublicKeyGrows(e, l, name, key);
    var l' := SetPublicKey(e, l, name, key).0;
    forall n
      ensures KeyOf(e, l', n) == if n == name then Some(key) else KeyOf(e, l, n)
      ensures DefineAt(e, l', n)
        == if n == name && DefineAt(e, l, n).Nowhere? then At(Size(e, l)) else DefineAt(e, l, n)
    {
      GivenKey(e, l, name, key, n);
    }
    assert l' == Snoc(l, KeyRecord(e, l, name, key)) by {
      LastEditOfName(e, l, name);
    }
    assert Balances(l') == Balances(l);
    hide SetPublicKey, WellFormed, PublicKey, KeyRecord, KeyOf, DefineAt, Balances, TrxLoc;
  }

  lemma GivenKey(e: Env, l: Log, name: string, key: Key, n: string)
    requires WellFormed(e, l)
    ensures var l' := SetPublicKey(e, l, name, key).0;
      && KeyOf(e, l', n) == (if n == name then Some(key) else KeyOf(e, l, n))
      && DefineAt(e, l', n) == if n == name && DefineAt(e, l, n).Nowhere? then At(Size(e, l)) else DefineAt(e, l, n)
  {
    LastEditOfName(e, l, name);
  }

  /** When a stock may be issued: its name has a key, which signed, and its own account was never touched. */
  predicate MayIssue(e: Env, l: Log, trx: SignedTrx, stock: string) {
    && KeyOf(e, l, stock).Some? && e.verify(trx, KeyOf(e, l, stock).value)
    && AccountKey(DefineAt(e, l, stock), DefineAt(e, l, stock)) !in Balances(l)
  }

  /** An issue is applied exactly then; it adds one record, which credits 2^64 - 1 to the stock's own account and
      changes no other balance and no key.  Otherwise it leaves no trace. */
  lemma IssueExactly(e: Env, l: Log, trx: SignedTrx, stock: string, gen: string, pos: Loc)
    requires WellFormed(e, l) && TrxLoc(e, l, pos)
    ensures var o := ApplyCommand(e, l, trx, Issue(stock), gen, pos); var s := DefineAt(e, l, stock);
      && (o.status.Applied? <==> MayIssue(e, l, trx, stock))
      && (!o.status.Applied? ==> o == Outcome(l, Rejected))
      && (o.status.Applied? ==>
            && o.log == Snoc(l, TransferLog(MAX_U64, s, s, s, MAX_U64, MAX_U64, Nowhere, Nowhere, pos))
            && (forall k :: BalanceOf(o.log, k) == if k == AccountKey(s, s) then MAX_U64 else BalanceOf(l, k))
            && (forall n :: KeyOf(e, o.log, n) == KeyOf(e, l, n)))
  {
    PublicKeyIsLastGiven(e, l, stock);
    BalanceIsScan(e, l, stock, stock);
    IssueStockGrows(e, l, stock, pos);
    var r := IssueStock(e, l, stock, pos);
    var s := DefineAt(e, l, stock);
    if r.Ok? {
      assert r.value == Snoc(l, TransferLog(MAX_U64, s, s, s, MAX_U64, MAX_U64, Nowhere, Nowhere, pos)) by {
        NameIndexIsDefinition(e, l, stock);
      }
      assert forall k :: BalanceOf(r.value, k) == if k == AccountKey(s, s) then MAX_U64 else BalanceOf(l, k);
      forall n
        ensures KeyOf(e, r.value, n) == KeyOf(e, l, n)
      {
        TransferGivesNoKey(e, l, r.value.last, n);
      }
    }
    hide WellFormed, IssueStock, PublicKey, Balance, KeyOf, DefineAt, Balances, TrxLoc, BalanceOf;
  }

  /** Every other command is rejected and leaves no trace. */
  lemma OthersAreRejected(e: Env, l: Log, trx: SignedTrx, id: nat, gen: string, pos: Loc)
    ensures ApplyCommand(e, l, trx, Other(id), gen, pos) == Outcome(l, Rejected)
  {}

  // ---------------------------------------------------------------- transactions

  /** The logs between the first `n` commands of a transaction, each of which is applied. */
  ghost predicate CommandsRun(e: Env, trx: SignedTrx, gen: string, pos: Loc, ms: seq<Log>, n: nat)
    requires n <= |trx.commands|
  {
    |ms| == n + 1
    && forall i :: 0 <= i < n ==> ApplyCommand(e, ms[i], trx, trx.commands[i], gen, pos) == Outcome(ms[i + 1], Applied)
  }

  /** From command `i` on: the logs up to the first command that is not applied. */
  function Trace(e: Env, l: Log, trx: SignedTrx, i: nat, gen: string, pos: Loc): (ms: seq<Log>)
    requires i <= |trx.commands|
    ensures 1 <= |ms| <= |trx.commands| - i + 1 && ms[0] == l
    decreases |trx.commands| - i
  {
    if i == |trx.commands| then [l]
    else
      var o := ApplyCommand(e, l, trx, trx.commands[i], gen, pos);
      if o.status.Applied? then [l] + Trace(e, o.log, trx, i + 1, gen, pos) else [l]
  }

  lemma {:induction false} TraceRuns(e: Env, l: Log, trx: SignedTrx, i: nat, gen: string, pos: Loc)
    requires i <= |trx.commands|
    ensures var ms := Trace(e, l, trx, i, gen, pos); var n := |ms| - 1; var o := ApplyCommands(e, l, trx, i, gen, pos);
      && (forall j :: 0 <= j < n ==>
            ApplyCommand(e, ms[j], trx, trx.commands[i + j], gen, pos) == Outcome(ms[j + 1], Applied))
      && (if i + n == |trx.commands| then o == Outcome(ms[n], Applied)
          else o == ApplyCommand(e, ms[n], trx, trx.commands[i + n], gen, pos) && !o.status.Applied?)
    decreases |trx.commands| - i
  {
    hide ApplyCommand;
    if i < |trx.commands| {
      var o := ApplyCommand(e, l, trx, trx.commands[i], gen, pos);
      if o.status.Applied? {
        TraceRuns(e, o.log, trx, i + 1, gen, pos);
        var rest := Trace(e, o.log, trx, i + 1, gen, pos);
        var ms := Trace(e, l, trx, i, gen, pos);
        assert ms == [l] + rest;
        forall j | 0 <= j < |ms| - 1
          ensures ApplyCommand(e, ms[j], trx, trx.commands[i + j], gen, pos) == Outcome(ms[j + 1], Applied)
        {
          if j > 0 {
            assert ms[j] == rest[j - 1] && ms[j + 1] == rest[j] && trx.commands[i + j] == trx.commands[i + 1 + (j - 1)];
          }
        }
      }
    }
  }

  /** A run of all the commands leaves what the transaction leaves. */
  lemma {:induction false} RunIsApplied(e: Env, trx: SignedTrx, gen: string, pos: Loc, ms: seq<Log>, i: nat)
    requires i <= |trx.commands| && CommandsRun(e, trx, gen, pos, ms, |trx.commands|)
    ensures ApplyCommands(e, ms[i], trx, i, gen, pos) == Outcome(ms[|trx.commands|], Applied)
    decreases |trx.commands| - i
  {
    hide ApplyCommand;
    if i < |trx.commands| {
      assert ApplyCommand(e, ms[i], trx, trx.commands[i], gen, pos) == Outcome(ms[i + 1], Applied);
      RunIsApplied(e, trx, gen, pos, ms, i + 1);
    }
  }

  /** The log a transaction's commands start from. */
  function Begin(e: Env, l: Log, trx: SignedTrx): Log {
    Snoc(l, StartTrx(e.trxHash(trx), trx.utcTime))
  }

  /** These logs are a run of all the transaction's commands, after its start record. */
  ghost predicate RunsAll(e: Env, l: Log, trx: SignedTrx, gen: string, ms: seq<Log>) {
    CommandsRun(e, trx, gen, At(Size(e, l)), ms, |trx.commands|) && ms[0] == Begin(e, l, trx)
  }

  /** A transaction is applied exactly when every one of its commands is, each on the log the one before it left;
      the log is then the last of these. */
  lemma TrxAppliesExactly(e: Env, l: Log, trx: SignedTrx, gen: string)
    ensures var o := ApplyTrx(e, l, trx, gen);
      && (o.status.Applied? <==> exists ms :: RunsAll(e, l, trx, gen, ms))
      && (forall ms :: RunsAll(e, l, trx, gen, ms) ==> o.log == ms[|trx.commands|])
  {
    var pos, n := At(Size(e, l)), |trx.commands|;
    var o, ms := ApplyTrx(e, l, trx, gen), Trace(e, Begin(e, l, trx), trx, 0, gen, pos);
    TraceRuns(e, Begin(e, l, trx), trx, 0, gen, pos);
    hide ApplyCommand, ApplyCommands, Trace;
    assert CommandsRun(e, trx, gen, pos, ms, |ms| - 1);
    if |ms| - 1 == n {
      assert RunsAll(e, l, trx, gen, ms);
    }
    forall ns | RunsAll(e, l, trx, gen, ns)
      ensures o == Outcome(ns[n], Applied)
    {
      RunIsApplied(e, trx, gen, pos, ns, 0);
    }
  }

  /** The first `n` commands are applied and the next one is not, which decides what the transaction leaves. */
  ghost predicate StopsAt(e: Env, l: Log, trx: SignedTrx, gen: string, ms: seq<Log>, n: nat)
    requires n < |trx.commands|
  {
    && CommandsRun(e, trx, gen, At(Size(e, l)), ms, n) && ms[0] == Begin(e, l, trx)
    && var o := ApplyCommand(e, ms[n], trx, trx.commands[n], gen, At(Size(e, l)));
      !o.status.Applied? && ApplyTrx(e, l, trx, gen) == o
  }

  /** A transaction that is not applied ends with the log and the status of the first command that is not. */
  lemma TrxStopsAtFirstRefusal(e: Env, l: Log, trx: SignedTrx, gen: string)
    requires !ApplyTrx(e, l, trx, gen).status.Applied?
    ensures exists ms, n: nat :: n < |trx.commands| && StopsAt(e, l, trx, gen, ms, n)
  {
    var pos := At(Size(e, l));
    var ms := Trace(e, Begin(e, l, trx), trx, 0, gen, pos);
    TraceRuns(e, Begin(e, l, trx), trx, 0, gen, pos);
    hide ApplyCommand, ApplyCommands, Trace;
    assert StopsAt(e, l, trx, gen, ms, |ms| - 1);
  }

  lemma EveryCommandIsApplied(e: Env, l: Log, trx: SignedTrx, gen: string, i: nat)
    requires i < |trx.commands| && ApplyTrx(e, l, trx, gen).status.Applied?
    ensures exists m :: ApplyCommand(e, m, trx, trx.commands[i], gen, At(Size(e, l))).status.Applied?
  {
    TrxAppliesExactly(e, l, trx, gen);
    hide ApplyCommand, ApplyTrx;
    var ms :| RunsAll(e, l, trx, gen, ms);
    assert ApplyCommand(e, ms[i], trx, trx.commands[i], gen, At(Size(e, l))) == Outcome(ms[i + 1], Applied);
  }

  /** So a transaction with a command nobody implements is never applied. */
  lemma UnknownCommandIsFatal(e: Env, l: Log, trx: SignedTrx, gen: string, i: nat)
    requires i < |trx.commands| && trx.commands[i].Other?
    ensures !ApplyTrx(e, l, trx, gen).status.Applied?
  {
    if ApplyTrx(e, l, trx, gen).status.Applied? {
      EveryCommandIsApplied(e, l, trx, gen, i);
    }
    hide ApplyTrx;
  }

  // ---------------------------------------------------------------- blocks

  /** The logs between the transactions of a block, each of which is applied. */
  ghost predicate TrxsRun(e: Env, l: Log, trxs: seq<SignedTrx>, gen: string, ms: seq<Log>) {
    |ms| == |trxs| + 1 && ms[0] == l
    && forall i :: 0 <= i < |trxs| ==> ApplyTrx(e, ms[i], trxs[i], gen) == Outcome(ms[i + 1], Applied)
  }

  lemma {:induction false} TrxsApplyExactly(e: Env, l: Log, trxs: seq<SignedTrx>, gen: string)
    ensures var o := ApplyTrxs(e, l, trxs, gen);
      && (o.status.Applied? <==> exists ms :: TrxsRun(e, l, trxs, gen, ms))
      && (forall ms :: TrxsRun(e, l, trxs, gen, ms) ==> o == Outcome(ms[|trxs|], Applied))
    decreases |trxs|
  {
    hide ApplyTrx;
    if trxs == [] {
      assert TrxsRun(e, l, trxs, gen, [l]);
    } else {
      var o := ApplyTrx(e, l, trxs[0], gen);
      forall ms | TrxsRun(e, l, trxs, gen, ms)
        ensures o == Outcome(ms[1], Applied) && TrxsRun(e, o.log, trxs[1..], gen, ms[1..])
      {
        assert ApplyTrx(e, ms[0], trxs[0], gen) == Outcome(ms[1], Applied);
        forall i | 0 <= i < |trxs[1..]|
          ensures ApplyTrx(e, ms[1..][i], trxs[1..][i], gen) == Outcome(ms[1..][i + 1], Applied)
        {
          assert ApplyTrx(e, ms[i + 1], trxs[i + 1], gen) == Outcome(ms[i + 2], Applied);
        }
      }
      if o.status.Applied? {
        TrxsApplyExactly(e, o.log, trxs[1..], gen);
        if ApplyTrxs(e, o.log, trxs[1..], gen).status.Applied? {
          var rest :| TrxsRun(e, o.log, trxs[1..], gen, rest);
          RunFrom(e, l, trxs, gen, rest);
        }
      }
    }
  }

  lemma RunFrom(e: Env, l: Log, trxs: seq<SignedTrx>, gen: string, rest: seq<Log>)
    requires trxs != [] && ApplyTrx(e, l, trxs[0], gen).status.Applied?
    requires TrxsRun(e, ApplyTrx(e, l, trxs[0], gen).log, trxs[1..], gen, rest)
    ensures TrxsRun(e, l, trxs, gen, [l] + rest)
  {
    var ms := [l] + rest;
    forall i | 0 <= i < |trxs|
      ensures ApplyTrx(e, ms[i], trxs[i], gen) == Outcome(ms[i + 1], Applied)
    {
      if i > 0 {
        assert ApplyTrx(e, rest[i - 1], trxs[1..][i - 1], gen) == Outcome(rest[i], Applied);
      }
    }
    hide ApplyTrx;
  }

  /** The transactions all apply and leave a log with this checksum. */
  ghost predicate Checks(e: Env, l: Log, trxs: seq<SignedTrx>, gen: string, check: Hash, ms: seq<Log>) {
    TrxsRun(e, l, trxs, gen, ms) && StateHash(e, Bytes(e, ms[|trxs|])) == check
  }

  /** A block is accepted exactly when its transactions all apply, one after the other, and its checksum is the hash
      of the log they leave; then only its end record is added. */
  lemma BlockAppliesExactly(e: Env, l: Log, b: Block, gen: string, trxs: seq<SignedTrx>, check: Hash)
    ensures var o := ApplyBlock(e, l, b, gen, trxs, check);
      && (o.status.Applied? <==> exists ms :: Checks(e, l, trxs, gen, check, ms))
      && (forall ms :: Checks(e, l, trxs, gen, check, ms) ==> o.log == Snoc(ms[|trxs|], EndBlock(b, gen)))
  {
    TrxsApplyExactly(e, l, trxs, gen);
    var o := ApplyTrxs(e, l, trxs, gen);
    if ms :| TrxsRun(e, l, trxs, gen, ms) {
      assert o == Outcome(ms[|trxs|], Applied);
      if StateHash(e, Bytes(e, o.log)) == check {
        assert Checks(e, l, trxs, gen, check, ms);
      }
    }
    hide ApplyTrxs, StateHash, Bytes, TrxsRun;
  }

  /** Where the transactions apply, any other checksum is refused. */
  lemma OtherChecksumRefused(e: Env, l: Log, b: Block, gen: string, trxs: seq<SignedTrx>, check: Hash, ms: seq<Log>)
    requires TrxsRun(e, l, trxs, gen, ms) && check != StateHash(e, Bytes(e, ms[|trxs|]))
    ensures ApplyBlock(e, l, b, gen, trxs, check) == Outcome(ms[|trxs|], Rejected)
  {
    TrxsApplyExactly(e, l, trxs, gen);
    hide ApplyTrxs, StateHash, Bytes, TrxsRun;
  }
}
