/** Which group of the store a transaction is in after each handler
    (libs/gpm/node/node.cpp:123-157, 690-691, 752-784). */
module StoreMoves {
  import opened Common
  import opened BlockChain
  import opened Records
  import opened Ledger
  import opened NodeSpec
  import opened NodeRuns

  function EntryAt(db: TrxDb, k: TrxKey): Option<SignedTrx> {
    if k in db then Some(db[k]) else None
  }

  /** What moving a list between two groups leaves under one key. */
  function AfterList(db: TrxDb, list: seq<Hash>, from: int, to: int, k: TrxKey): Option<SignedTrx> {
    if k.hash !in list then EntryAt(db, k)
    else if k.group == from then None
    else if k.group == to && TrxKey(from, k.hash) in db then EntryAt(db, TrxKey(from, k.hash))
    else EntryAt(db, k)
  }

  lemma {:induction false} MoveListAt(db: TrxDb, list: seq<Hash>, from: int, to: int, k: TrxKey)
    requires from != to
    ensures EntryAt(MoveList(db, list, from, to), k) == AfterList(db, list, from, to, k)
    decreases |list|
  {
    if list != [] {
      MoveListAt(MoveOne(db, list[0], from, to), list[1..], from, to, k);
      assert k.hash in list <==> k.hash == list[0] || k.hash in list[1..];
    }
  }

  function AfterGroup(db: TrxDb, from: int, to: int, k: TrxKey): Option<SignedTrx> {
    if k.group == from then None
    else if k.group == to && TrxKey(from, k.hash) in db then EntryAt(db, TrxKey(from, k.hash))
    else EntryAt(db, k)
  }

  lemma MoveGroupAt(db: TrxDb, from: int, to: int, k: TrxKey)
    requires from != to
    ensures EntryAt(MoveGroup(db, from, to), k) == AfterGroup(db, from, to, k)
  {
    if k.group == to && TrxKey(from, k.hash) in db {
      var j := TrxKey(from, k.hash);
      assert j in db && j.group == from;
    }
  }

  /** All or nothing: the transactions of a list are found when every one is in the group. */
  lemma FetchComplete(db: TrxDb, list: seq<Hash>, group: int)
    ensures |GetTransactions(db, list, group)| == |list| <==> forall h :: h in list ==> TrxKey(group, h) in db
    ensures Fetch(db, list, group).Some? <==> forall h :: h in list ==> TrxKey(group, h) in db
  {
    var r := Fetch(db, list, group);
    if r.Some? {
      forall h | h in list
        ensures TrxKey(group, h) in db
      {
        var i :| 0 <= i < |list| && list[i] == h;
      }
    }
    hide Fetch;
  }

  predicate InGroup(s: NodeState, group: int, h: Hash) {
    TrxKey(group, h) in s.trxs
  }

  /** An accepted block on top of the head: the head group is exactly its list, what was there is applied. */
  lemma AppendMovesExactly(e: Env, s: NodeState, blk: Block, bs: BlockState, h: Hash)
    requires Append(e, s, blk, bs).1 == 1
    ensures var s' := Append(e, s, blk, bs).0;
      && (InGroup(s', HEAD, h) <==> h in bs.trxs)
      && (InGroup(s', APPLIED, h) <==> InGroup(s, APPLIED, h) || InGroup(s, HEAD, h))
      && (InGroup(s', PENDING, h) <==> InGroup(s, PENDING, h) && h !in bs.trxs)
  {
    FetchComplete(s.trxs, bs.trxs, PENDING);
    var db := MoveGroup(s.trxs, HEAD, APPLIED);
    var s' := Append(e, s, blk, bs).0;
    assert s'.trxs == MoveList(db, bs.trxs, PENDING, HEAD) && |GetTransactions(s.trxs, bs.trxs, PENDING)| == |bs.trxs|;
    hide *;
    MovedKeys(db, bs.trxs, PENDING, HEAD, h);
    GroupKeys(s.trxs, h);
  }

  /** Membership after a list moved, for the three groups. */
  lemma MovedKeys(db: TrxDb, list: seq<Hash>, from: int, to: int, h: Hash)
    requires from != to
    ensures var db' := MoveList(db, list, from, to);
      && (TrxKey(from, h) in db' <==> TrxKey(from, h) in db && h !in list)
      && (TrxKey(to, h) in db' <==> TrxKey(to, h) in db || (h in list && TrxKey(from, h) in db))
      && forall g :: g != from && g != to ==> (TrxKey(g, h) in db' <==> TrxKey(g, h) in db)
  {
    forall g
      ensures EntryAt(MoveList(db, list, from, to), TrxKey(g, h)) == AfterList(db, list, from, to, TrxKey(g, h))
    {
      MoveListAt(db, list, from, to, TrxKey(g, h));
    }
    hide MoveList;
  }

  lemma GroupKeys(db: TrxDb, h: Hash)
    ensures var db' := MoveGroup(db, HEAD, APPLIED);
      && TrxKey(HEAD, h) !in db' && (TrxKey(PENDING, h) in db' <==> TrxKey(PENDING, h) in db)
      && (TrxKey(APPLIED, h) in db' <==> TrxKey(APPLIED, h) in db || TrxKey(HEAD, h) in db)
  {
    MoveGroupAt(db, HEAD, APPLIED, TrxKey(HEAD, h));
    MoveGroupAt(db, HEAD, APPLIED, TrxKey(PENDING, h));
    MoveGroupAt(db, HEAD, APPLIED, TrxKey(APPLIED, h));
    hide MoveGroup;
  }

  /** Whether a sibling gets as far as moving transactions. */
  predicate Reached(e: Env, s: NodeState, blk: Block)
    requires s.chain != []
  {
    e.blockHash(blk) < e.blockHash(LastBlockOf(s)) && Validates(e.blockHash, WithHead(s.chain, blk))
  }

  lemma ReplaceTrxs(e: Env, s: NodeState, blk: Block, bs: BlockState)
    requires s.chain != []
    ensures var db := MoveList(s.trxs, bs.trxs, HEAD, PENDING); var (s', rc) := Replace(e, s, blk, bs);
      && s'.trxs == (if Reached(e, s, blk) then MoveList(db, bs.trxs, PENDING, HEAD) else s.trxs)
      && (rc == 1 ==> Reached(e, s, blk) && |GetTransactions(db, bs.trxs, PENDING)| == |bs.trxs|)
  {
    hide Validates, MoveList, GetTransactions;
  }

  /** An accepted sibling joins its list to the head group: since the list is read after the head was
      overwritten, the old head's transactions stay in it. */
  lemma ReplaceMovesExactly(e: Env, s: NodeState, blk: Block, bs: BlockState, h: Hash)
    requires s.chain != [] && Replace(e, s, blk, bs).1 == 1
    ensures var s' := Replace(e, s, blk, bs).0;
      && (InGroup(s', HEAD, h) <==> InGroup(s, HEAD, h) || h in bs.trxs)
      && (InGroup(s', APPLIED, h) <==> InGroup(s, APPLIED, h))
      && (InGroup(s', PENDING, h) <==> InGroup(s, PENDING, h) && h !in bs.trxs)
      && (h in bs.trxs ==> InGroup(s, HEAD, h) || InGroup(s, PENDING, h))
  {
    ReplaceTrxs(e, s, blk, bs);
    hide Replace, Reached;
    var db := MoveList(s.trxs, bs.trxs, HEAD, PENDING);
    FetchComplete(db, bs.trxs, PENDING);
    MovedKeys(s.trxs, bs.trxs, HEAD, PENDING, h);
    MovedKeys(db, bs.trxs, PENDING, HEAD, h);
    hide *;
  }

  /** The head group is exactly the list of the block at the head. */
  ghost predicate HeadGroupIs(s: NodeState, list: seq<Hash>) {
    forall h :: InGroup(s, HEAD, h) <==> h in list
  }

  /** After a replacement the head group is the new head's list exactly when the old one is part of it. */
  lemma HeadGroupAfterReplace(e: Env, s: NodeState, blk: Block, bs: BlockState, oldList: seq<Hash>)
    requires s.chain != [] && Replace(e, s, blk, bs).1 == 1 && HeadGroupIs(s, oldList)
    ensures HeadGroupIs(Replace(e, s, blk, bs).0, bs.trxs) <==> forall h :: h in oldList ==> h in bs.trxs
  {
    var s' := Replace(e, s, blk, bs).0;
    forall h: Hash
      ensures InGroup(s', HEAD, h) <==> InGroup(s, HEAD, h) || h in bs.trxs
    {
      ReplaceMovesExactly(e, s, blk, bs, h);
    }
    hide Replace, InGroup;
    if h: Hash :| h in oldList && h !in bs.trxs {
      assert InGroup(s, HEAD, h);
    }
  }

  /** A sibling that is not accepted leaves the store alone exactly when it did not get as far as
      moving transactions, or none of its list was pending. */
  lemma RejectedReplaceStore(e: Env, s: NodeState, blk: Block, bs: BlockState)
    requires s.chain != [] && OneGroup(s.trxs) && Replace(e, s, blk, bs).1 != 1
    ensures Replace(e, s, blk, bs).0 == s
      <==> (!Reached(e, s, blk) || forall h :: h in bs.trxs ==> !InGroup(s, PENDING, h))
  {
    var s' := Replace(e, s, blk, bs).0;
    ReplaceTrxs(e, s, blk, bs);
    ReplaceShapeOnly(e, s, blk, bs);
    hide Replace, Reached;
    if Reached(e, s, blk) {
      if h: Hash :| h in bs.trxs && InGroup(s, PENDING, h) {
        var db := MoveList(s.trxs, bs.trxs, HEAD, PENDING);
        MovedKeys(s.trxs, bs.trxs, HEAD, PENDING, h);
        MovedKeys(db, bs.trxs, PENDING, HEAD, h);
        assert TrxKey(PENDING, h) !in s'.trxs;
      } else {
        ThereAndBack(s.trxs, bs.trxs);
      }
    }
    hide *;
  }

  lemma ReplaceShapeOnly(e: Env, s: NodeState, blk: Block, bs: BlockState)
    requires s.chain != [] && Replace(e, s, blk, bs).1 != 1
    ensures SameLedger(s, Replace(e, s, blk, bs).0)
  {
    hide Validates, MoveList, GetTransactions;
  }

  /** With nothing of the list pending, moving it out of the head group is undone by moving it back. */
  lemma ThereAndBack(a: TrxDb, list: seq<Hash>)
    requires forall h :: h in list ==> TrxKey(PENDING, h) !in a
    ensures MoveList(MoveList(a, list, HEAD, PENDING), list, PENDING, HEAD) == a
  {
    var b := MoveList(a, list, HEAD, PENDING);
    var c := MoveList(b, list, PENDING, HEAD);
    forall k: TrxKey
      ensures EntryAt(c, k) == EntryAt(a, k)
    {
      MoveListAt(b, list, PENDING, HEAD, k);
      MoveListAt(a, list, HEAD, PENDING, k);
      MoveListAt(a, list, HEAD, PENDING, TrxKey(PENDING, k.hash));
    }
    hide MoveList;
    SameEntries(c, a);
  }

  /** Stores with the same entries are equal. */
  lemma SameEntries(a: TrxDb, b: TrxDb)
    requires forall k: TrxKey :: EntryAt(a, k) == EntryAt(b, k)
    ensures a == b
  {
    forall k: TrxKey
      ensures (k in a <==> k in b) && (k in a ==> a[k] == b[k])
    {
      assert EntryAt(a, k) == EntryAt(b, k);
    }
  }

  // ---------------------------------------------------------------- applied transactions are final

  lemma AddBlockKeepsApplied(e: Env, s: NodeState, blk: Block, now: u32, h: Hash)
    requires InGroup(s, APPLIED, h)
    ensures InGroup(AddBlock(e, s, blk, now).0, APPLIED, h)
  {
    hide Append, Replace;
    if s.chain != [] && blk.state in s.states {
      var bs := s.states[blk.state];
      AppendTrxs(e, s, blk, bs);
      var g := MoveGroup(s.trxs, HEAD, APPLIED);
      GroupKeys(s.trxs, h);
      MovedKeys(g, bs.trxs, PENDING, HEAD, h);
      ReplaceTrxs(e, s, blk, bs);
      var db := MoveList(s.trxs, bs.trxs, HEAD, PENDING);
      MovedKeys(s.trxs, bs.trxs, HEAD, PENDING, h);
      MovedKeys(db, bs.trxs, PENDING, HEAD, h);
    }
    hide MoveList, MoveGroup, Reached;
  }

  lemma AppendTrxs(e: Env, s: NodeState, blk: Block, bs: BlockState)
    ensures var (s', rc) := Append(e, s, blk, bs);
      s'.trxs == if rc == 1 then MoveList(MoveGroup(s.trxs, HEAD, APPLIED), bs.trxs, PENDING, HEAD) else s.trxs
  {
    hide Validates, MoveList, MoveGroup, TryApply;
  }

  lemma {:induction false} StoreAllKeepsKeys(e: Env, db: TrxDb, ts: seq<SignedTrx>, k: TrxKey)
    requires k in db
    ensures k in StoreAll(e, db, ts)
    decreases |ts|
  {
    if ts != [] {
      StoreAllKeepsKeys(e, Store(e, db, ts[0]), ts[1..], k);
    }
  }

  lemma NextKeepsApplied(e: Env, s: NodeState, step: NodeStep, h: Hash)
    requires InGroup(s, APPLIED, h)
    ensures InGroup(Next(e, s, step), APPLIED, h)
  {
    hide AddBlock, StoreAll, ApplyBlock, Candidate;
    match step
    case Deliver(blk, now) => AddBlockKeepsApplied(e, s, blk, now, h);
    case DeliverFull(fbs, now) =>
      var s1 := s.(trxs := StoreAll(e, s.trxs, fbs.trxs), states := s.states[fbs.blk.state := fbs.state]);
      StoreAllKeepsKeys(e, s.trxs, fbs.trxs, TrxKey(APPLIED, h));
      AddBlockKeepsApplied(e, s1, fbs.blk, now, h);
    case Submit(t) =>
    case Build(gen, order, now) =>
      if s.chain != [] {
        BuildKeepsStore(e, s, gen, order, now);
      }
  }

  lemma {:induction false} AppliedOverRuns(e: Env, s: NodeState, steps: seq<NodeStep>, h: Hash)
    requires InGroup(s, APPLIED, h)
    ensures InGroup(Run(e, s, steps), APPLIED, h)
    decreases |steps|
  {
    hide Next, InGroup;
    if steps != [] {
      NextKeepsApplied(e, s, steps[0], h);
      AppliedOverRuns(e, Next(e, s, steps[0]), steps[1..], h);
    }
  }

  /** A block is accepted only when each of its transactions is pending or in the head group. */
  lemma AcceptedListIsOpen(e: Env, s: NodeState, blk: Block, now: u32, h: Hash)
    requires AddBlock(e, s, blk, now).1 == 1 && h in s.states[blk.state].trxs
    ensures InGroup(s, PENDING, h) || InGroup(s, HEAD, h)
  {
    var bs := s.states[blk.state];
    if Append(e, s, blk, bs).1 == 1 {
      AppendFetches(e, s, blk, bs);
      FetchComplete(s.trxs, bs.trxs, PENDING);
    } else {
      ReplaceMovesExactly(e, s, blk, bs, h);
    }
    hide Append, Replace;
  }

  lemma AppendFetches(e: Env, s: NodeState, blk: Block, bs: BlockState)
    requires Append(e, s, blk, bs).1 == 1
    ensures |GetTransactions(s.trxs, bs.trxs, PENDING)| == |bs.trxs|
  {
    hide Validates, MoveList, MoveGroup, GetTransactions;
  }

  /** Once in the applied group, never listed again: after any run no accepted block lists the transaction. */
  lemma NeverAppliedAgain(e: Env, s: NodeState, steps: seq<NodeStep>, h: Hash, blk: Block, now: u32)
    requires OneGroup(s.trxs) && InGroup(s, APPLIED, h)
    requires AddBlock(e, Run(e, s, steps), blk, now).1 == 1
    ensures h !in Run(e, s, steps).states[blk.state].trxs
  {
    var s' := Run(e, s, steps);
    AppliedOverRuns(e, s, steps, h);
    StoreOverRuns(e, s, steps);
    if h in s'.states[blk.state].trxs {
      AcceptedListIsOpen(e, s', blk, now, h);
    }
    hide AddBlock, Run;
  }

  /** A transaction of a replaced head that the new head does not list is lost: the next block moves it to
      the applied group although no block of the chain has it, and no later block can include it. */
  lemma OrphanIsLost(e: Env, s: NodeState, sibling: Block, bs: BlockState, next: Block, bn: BlockState,
                     h: Hash, steps: seq<NodeStep>, blk: Block, now: u32)
    requires s.chain != [] && OneGroup(s.trxs)
    requires InGroup(s, HEAD, h) && h !in bs.trxs
    requires Replace(e, s, sibling, bs).1 == 1
    requires var s1 := Replace(e, s, sibling, bs).0; Append(e, s1, next, bn).1 == 1
    ensures var s2 := Append(e, Replace(e, s, sibling, bs).0, next, bn).0; var s3 := Run(e, s2, steps);
      InGroup(s2, APPLIED, h) && (AddBlock(e, s3, blk, now).1 == 1 ==> h !in s3.states[blk.state].trxs)
  {
    var s1 := Replace(e, s, sibling, bs).0;
    var s2 := Append(e, s1, next, bn).0;
    ReplaceMovesExactly(e, s, sibling, bs, h);
    AppendMovesExactly(e, s1, next, bn, h);
    ReplaceKeepsStore(e, s, sibling, bs);
    AppendKeepsStore(e, s1, next, bn);
    if AddBlock(e, Run(e, s2, steps), blk, now).1 == 1 {
      NeverAppliedAgain(e, s2, steps, h, blk, now);
    }
    hide *;
  }
}
