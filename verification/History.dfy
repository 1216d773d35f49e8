/** Walking an account's transfers backwards (libs/gpm/statedb/state_database.cpp:278-282, 714-786). */
module History {
  import opened Common
  import opened Records
  import opened Ledger
  import opened Conservation

  predicate Touches(r: Payload, k: AccountKey) {
    r.TransferLog? && (FromKey(r) == k || ToKey(r) == k)
  }

  /** The full scan: every transfer record that touches the key, newest first. */
  function Touching(e: Env, l: Log, k: AccountKey): seq<nat> {
    match l
    case Empty => []
    case Snoc(prev, r) => (if Touches(r, k) then [Size(e, prev)] else []) + Touching(e, prev, k)
  }

  /** The two parties of the record read the same.  An unregistered party reads as "", which is also the
      name of an account that was registered under the empty name. */
  predicate Ends(account: string, r: Payload)
    requires r.TransferLog?
  {
    r.sender == r.recipient || (account == "" && (r.sender.Nowhere? || r.recipient.Nowhere?))
  }

  /** The same scan, given up after a record that ends the account's walk. */
  function UntilEnd(e: Env, l: Log, account: string, k: AccountKey): seq<nat> {
    match l
    case Empty => []
    case Snoc(prev, r) =>
      if !Touches(r, k) then UntilEnd(e, prev, account, k)
      else [Size(e, prev)] + if Ends(account, r) then [] else UntilEnd(e, prev, account, k)
  }

  /** Lines 761-786: the position `previous(account)` moves to from the record `r` at `pos`. */
  function Previous(e: Env, l: Log, account: string, pos: nat, r: Payload): Loc
    requires r.TransferLog?
  {
    var from, to := NameForIndex(e, l, r.sender), NameForIndex(e, l, r.recipient);
    if to == from then Nowhere
    else if to == Ok(account) then Earlier(r.lastTo, pos)
    else if from == Ok(account) then Earlier(r.lastFrom, pos)
    else Nowhere
  }

  function Earlier(loc: Loc, pos: nat): Loc {
    if loc.At? && loc.pos < pos then loc else Nowhere
  }

  /** The positions a walk visits from `loc` on. */
  function Walk(e: Env, l: Log, account: string, loc: Loc): seq<nat>
    decreases if loc.At? then loc.pos + 1 else 0
  {
    match Get(e, l, loc)
    case Some(r) => if r.TransferLog? then [loc.pos] + Walk(e, l, account, Previous(e, l, account, loc.pos, r)) else []
    case None => []
  }

  lemma {:induction false} NameForIndexKept(e: Env, l: Log, r: Payload, loc: Loc)
    requires NameLoc(e, l, loc)
    ensures NameForIndex(e, Snoc(l, r), loc) == NameForIndex(e, l, loc)
  {}

  lemma {:induction false} GoodTransferAt(e: Env, l: Log, pos: nat)
    requires WellFormed(e, l) && Lookup(e, l, pos).Some? && Lookup(e, l, pos).value.TransferLog?
    ensures var r := Lookup(e, l, pos).value;
      NameLoc(e, l, r.sender) && NameLoc(e, l, r.recipient) && NameLoc(e, l, r.stock)
  {
    if pos != Size(e, l.prev) {
      GoodTransferAt(e, l.prev, pos);
    }
  }

  /** The two links of a transfer record lead to transfer records before it, or nowhere. */
  lemma {:induction false} LinksAreTransfers(e: Env, l: Log, pos: nat)
    requires WellFormed(e, l) && Lookup(e, l, pos).Some? && Lookup(e, l, pos).value.TransferLog?
    ensures var r := Lookup(e, l, pos).value;
      && (r.lastFrom.At? ==> Get(e, l, r.lastFrom).Some? && Get(e, l, r.lastFrom).value.TransferLog?)
      && (r.lastTo.At? ==> Get(e, l, r.lastTo).Some? && Get(e, l, r.lastTo).value.TransferLog?)
  {
    var r := Lookup(e, l, pos).value;
    if pos != Size(e, l.prev) {
      LinksAreTransfers(e, l.prev, pos);
    } else {
      IndexedTransfer(e, l.prev, FromKey(r));
      IndexedTransfer(e, l.prev, ToKey(r));
    }
  }

  /** A walk that starts below the last record does not see it. */
  lemma {:induction false} WalkKept(e: Env, l: Log, r: Payload, account: string, loc: Loc)
    requires WellFormed(e, l) && (loc.At? ==> loc.pos < Size(e, l))
    ensures Walk(e, Snoc(l, r), account, loc) == Walk(e, l, account, loc)
    decreases if loc.At? then loc.pos + 1 else 0
  {
    match Get(e, l, loc)
    case Some(t) =>
      if t.TransferLog? {
        GoodTransferAt(e, l, loc.pos);
        NameForIndexKept(e, l, r, t.sender);
        NameForIndexKept(e, l, r, t.recipient);
        hide WellFormed, NameForIndex;
        WalkKept(e, l, r, account, Previous(e, l, account, loc.pos, t));
      }
    case None =>
  }

  /** From a record that touches a named account, `previous` leads to the last transfer before it. */
  lemma PreviousOfLast(e: Env, l: Log, r: Payload, account: string, k: AccountKey)
    requires WellFormed(e, l) && GoodRecord(e, l, r) && Touches(r, k)
    requires k.account.At? && k.account == DefineAt(e, l, account)
    ensures Previous(e, Snoc(l, r), account, Size(e, l), r) ==
      if Ends(account, r) then Nowhere else LastTransfer(e, l, k)
  {
    NameForIndexKept(e, l, r, r.sender);
    NameForIndexKept(e, l, r, r.recipient);
    NameIndexUndone(e, l, account);
    LastEditOfName(e, l, account);
    NamedLoc(e, l, r.sender);
    NamedLoc(e, l, r.recipient);
    IndexedTransfer(e, l, k);
  }

  /** The name at a definition leads back to it. */
  lemma NamedLoc(e: Env, l: Log, x: Loc)
    requires WellFormed(e, l) && NameLoc(e, l, x)
    ensures NameForIndex(e, l, x).Ok?
    ensures x.At? ==> DefineAt(e, l, NameForIndex(e, l, x).value) == x
    ensures x.Nowhere? ==> NameForIndex(e, l, x).value == ""
  {
    if x.At? {
      DefinitionIsFound(e, l, x.pos);
    }
  }

  /** The walk is exactly the scan, up to and including the first record that ends it. */
  lemma {:induction false} WalkIsScan(e: Env, l: Log, account: string, k: AccountKey)
    requires WellFormed(e, l) && k.account.At? && k.account == DefineAt(e, l, account)
    ensures Walk(e, l, account, LastTransfer(e, l, k)) == UntilEnd(e, l, account, k)
  {
    hide WellFormed, GoodRecord, Previous, DefineAt, NameForIndex;
    IndexedTransfer(e, l, k);
    if l.Snoc? {
      UnfoldWellFormed(e, l);
      if DefineAt(e, l.prev, account) == k.account {
        WalkIsScan(e, l.prev, account, k);
        IndexedTransfer(e, l.prev, k);
        WalkKept(e, l.prev, l.last, account, LastTransfer(e, l.prev, k));
        if Touches(l.last, k) {
          PreviousOfLast(e, l.prev, l.last, account, k);
        }
      } else {
        JustDefined(e, l, account, k);
      }
    }
  }

  lemma UnfoldWellFormed(e: Env, l: Log)
    requires WellFormed(e, l) && l.Snoc?
    ensures WellFormed(e, l.prev) && GoodRecord(e, l.prev, l.last)
  {}

  /** The record that defines a name starts a position no earlier record could name. */
  lemma JustDefined(e: Env, l: Log, account: string, k: AccountKey)
    requires WellFormed(e, l) && l.Snoc? && k.account.At? && k.account == DefineAt(e, l, account)
    requires DefineAt(e, l.prev, account) != k.account
    ensures k !in Transfers(e, l) && UntilEnd(e, l, account, k) == []
  {
    assert l.last.DefineName? && k.account == At(Size(e, l.prev));
    UntouchedAbove(e, l.prev, account, k);
  }

  lemma {:induction false} UntouchedAbove(e: Env, l: Log, account: string, k: AccountKey)
    requires WellFormed(e, l) && k.account.At? && k.account.pos >= Size(e, l)
    ensures k !in Transfers(e, l) && UntilEnd(e, l, account, k) == []
  {
    if l.Snoc? {
      UntouchedAbove(e, l.prev, account, k);
    }
  }

  lemma {:induction false} UntouchedScan(e: Env, l: Log, k: AccountKey)
    ensures Touching(e, l, k) == [] <==> k !in Balances(l)
  {
    if l.Snoc? {
      UntouchedScan(e, l.prev, k);
    }
  }

  /** No record that touches the key is a transfer from an account to itself, other than an issue. */
  predicate NoSelfTransfer(l: Log, k: AccountKey) {
    l.Snoc? ==> NoSelfTransfer(l.prev, k) && !(Touches(l.last, k) && IsSelfTransfer(l.last))
  }

  /** Both parties of every record that touches the key are registered. */
  predicate AllNamed(l: Log, k: AccountKey) {
    l.Snoc? ==> AllNamed(l.prev, k) && (Touches(l.last, k) ==> l.last.sender.At? && l.last.recipient.At?)
  }

  lemma {:induction false} NothingBeyondIssue(e: Env, l: Log, account: string, k: AccountKey)
    requires WellFormed(e, l) && NoSelfTransfer(l, k) && (account == "" ==> AllNamed(l, k))
    ensures UntilEnd(e, l, account, k) == Touching(e, l, k)
  {
    if l.Snoc? {
      NothingBeyondIssue(e, l.prev, account, k);
      if Touches(l.last, k) && l.last.sender == l.last.recipient {
        IssueIsFirst(e, l.prev, l.last);
        UntouchedScan(e, l.prev, k);
      }
    }
  }

  lemma IssueIsFirst(e: Env, l: Log, r: Payload)
    requires WellFormed(e, l) && GoodRecord(e, l, r) && IsIssue(r)
    ensures FromKey(r) !in Balances(l)
  {
    Conserved(e, l, r.stock);
    OneBelowTotal(Balances(l), FromKey(r));
  }

  /** Any record that ends the walk is the oldest one that touches the key. */
  predicate OnlyOldestEnds(e: Env, l: Log, account: string, k: AccountKey) {
    l.Snoc? ==>
      && OnlyOldestEnds(e, l.prev, account, k)
      && (Touches(l.last, k) && Ends(account, l.last) ==> Touching(e, l.prev, k) == [])
  }

  lemma {:induction false} UntouchedHasNoEnd(e: Env, l: Log, account: string, k: AccountKey)
    requires Touching(e, l, k) == []
    ensures OnlyOldestEnds(e, l, account, k)
  {
    if l.Snoc? {
      UntouchedHasNoEnd(e, l.prev, account, k);
    }
  }

  lemma {:induction false} ScanCompleteExactly(e: Env, l: Log, account: string, k: AccountKey)
    ensures UntilEnd(e, l, account, k) == Touching(e, l, k) <==> OnlyOldestEnds(e, l, account, k)
  {
    if l.Snoc? {
      ScanCompleteExactly(e, l.prev, account, k);
      if Touches(l.last, k) {
        assert Touching(e, l, k)[1..] == Touching(e, l.prev, k);
        if Ends(account, l.last) {
          if Touching(e, l.prev, k) == [] {
            UntouchedHasNoEnd(e, l.prev, account, k);
          }
        } else {
          assert UntilEnd(e, l, account, k)[1..] == UntilEnd(e, l.prev, account, k);
        }
      }
    }
  }

  /** The walk of a registered account visits every transfer that touches it exactly when any record that ends
      a walk is the oldest among them. */
  lemma WalkCompleteExactly(e: Env, l: Log, account: string, k: AccountKey)
    requires WellFormed(e, l) && k.account.At? && k.account == DefineAt(e, l, account)
    ensures Walk(e, l, account, LastTransfer(e, l, k)) == Touching(e, l, k) <==> OnlyOldestEnds(e, l, account, k)
  {
    WalkIsScan(e, l, account, k);
    ScanCompleteExactly(e, l, account, k);
  }

  /** The history walk is complete: without self-transfers, and for the account named "" without unregistered
      parties, it visits every transfer of the account, newest first. */
  lemma WalkIsComplete(e: Env, l: Log, account: string, k: AccountKey)
    requires WellFormed(e, l) && k.account.At? && k.account == DefineAt(e, l, account)
    requires NoSelfTransfer(l, k) && (account == "" ==> AllNamed(l, k))
    ensures Walk(e, l, account, LastTransfer(e, l, k)) == Touching(e, l, k)
  {
    WalkIsScan(e, l, account, k);
    NothingBeyondIssue(e, l, account, k);
  }

  /** On two consecutive records of a walk the balance differs by the amount of the newer one:
      down for the sender, up for the recipient. */
  lemma {:induction false} WalkBalances(e: Env, l: Log, k: AccountKey, i: nat)
    requires WellFormed(e, l) && NoSelfTransfer(l, k) && i + 1 < |Touching(e, l, k)|
    ensures var newer, older := Lookup(e, l, Touching(e, l, k)[i]), Lookup(e, l, Touching(e, l, k)[i + 1]);
      && newer.Some? && older.Some? && Touches(newer.value, k) && Touches(older.value, k)
      && Touching(e, l, k)[i] > Touching(e, l, k)[i + 1]
      && (FromKey(newer.value) == k ==>
            BalanceIn(newer.value, k) + newer.value.amount == BalanceIn(older.value, k))
      && (FromKey(newer.value) != k ==>
            BalanceIn(newer.value, k) == BalanceIn(older.value, k) + newer.value.amount)
  {
    TouchingFound(e, l.prev, k);
    if !Touches(l.last, k) {
      WalkBalances(e, l.prev, k, i);
    } else if i > 0 {
      assert Touching(e, l, k)[1..] == Touching(e, l.prev, k);
      WalkBalances(e, l.prev, k, i - 1);
    } else {
      assert Touching(e, l, k)[1..] == Touching(e, l.prev, k);
      NewestHoldsBalance(e, l.prev, k);
      UntouchedScan(e, l.prev, k);
      if l.last.sender == l.last.recipient {
        IssueIsFirst(e, l.prev, l.last);
        assert false;
      }
      Conserved(e, l.prev, l.last.stock);
      TransferConserves(e, l.prev, l.last);
    }
  }

  lemma {:induction false} TouchingFound(e: Env, l: Log, k: AccountKey)
    ensures forall p :: p in Touching(e, l, k) ==>
      p < Size(e, l) && Lookup(e, l, p).Some? && Touches(Lookup(e, l, p).value, k)
  {
    if l.Snoc? {
      TouchingFound(e, l.prev, k);
    }
  }

  /** The newest record of the scan is the indexed one and holds the balance. */
  lemma NewestHoldsBalance(e: Env, l: Log, k: AccountKey)
    ensures Touching(e, l, k) != [] ==>
      var p := Touching(e, l, k)[0];
      && LastTransfer(e, l, k) == At(p) && Lookup(e, l, p).Some? && Touches(Lookup(e, l, p).value, k)
      && BalanceIn(Lookup(e, l, p).value, k) == BalanceOf(l, k)
  {
    IndexedTransfer(e, l, k);
    UntouchedScan(e, l, k);
    NewestIsIndexed(e, l, k);
  }

  lemma {:induction false} NewestIsIndexed(e: Env, l: Log, k: AccountKey)
    ensures Touching(e, l, k) != [] ==> LastTransfer(e, l, k) == At(Touching(e, l, k)[0])
  {
    if l.Snoc? {
      NewestIsIndexed(e, l.prev, k);
    }
  }
}
