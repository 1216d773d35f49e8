/** What the node's handlers do, exactly: which blocks are taken, what becomes of a submitted transaction, what a
    candidate says about itself (libs/gpm/node/node.cpp:217-287, 568-798). */
module NodeRules {
  import opened Common
  import opened BlockChain
  import opened Records
  import opened Ledger
  import opened NodeSpec
  import opened NodeRuns
  import opened StoreMoves
  import opened Rules
  import CatchUp
  import Generation
  import StateDatabases

  // ---------------------------------------------------------------- which blocks are taken

  /** The transactions apply on `l` and have the block's checksum; `after` is what the block leaves. */
  ghost predicate PlaysOn(e: Env, l: Log, blk: Block, bs: BlockState, ts: seq<SignedTrx>, after: Log) {
    exists ms :: Checks(e, l, ts, bs.generator, bs.stateDb, ms) && after == Snoc(ms[|ts|], EndBlock(blk, bs.generator))
  }

  /** These are the pending transactions of the list, in its order. */
  ghost predicate Listed(db: TrxDb, list: seq<Hash>, ts: seq<SignedTrx>) {
    |ts| == |list| && forall i :: 0 <= i < |list| ==> EntryAt(db, TrxKey(PENDING, list[i])) == Some(ts[i])
  }

  /** The same for a sibling, which may also use what the head took. */
  ghost predicate ListedOrHead(db: TrxDb, list: seq<Hash>, ts: seq<SignedTrx>) {
    |ts| == |list| && forall i :: 0 <= i < |list| ==> Unapplied(db, list[i]) == Some(ts[i])
  }

  function Unapplied(db: TrxDb, h: Hash): Option<SignedTrx> {
    EntryAt(db, if TrxKey(HEAD, h) in db then TrxKey(HEAD, h) else TrxKey(PENDING, h))
  }

  lemma ListedIsFetched(db: TrxDb, list: seq<Hash>, ts: seq<SignedTrx>)
    ensures Listed(db, list, ts) <==> Fetch(db, list, PENDING) == Some(ts)
  {
    var r := Fetch(db, list, PENDING);
    hide Fetch;
    if Listed(db, list, ts) {
      assert forall i :: 0 <= i < |list| ==> TrxKey(PENDING, list[i]) in db;
      assert r.value == ts;
    }
  }

  /** What trying a block on a log says, in terms of its transactions and its checksum only. */
  lemma TryAppliesExactly(e: Env, l: Log, blk: Block, bs: BlockState, db: TrxDb)
    ensures Accepts(TryApply(e, l, blk, bs, db)) <==>
      exists ts, after :: Listed(db, bs.trxs, ts) && PlaysOn(e, l, blk, bs, ts, after)
    ensures forall ts, after :: Listed(db, bs.trxs, ts) && PlaysOn(e, l, blk, bs, ts, after) ==>
      && TryApply(e, l, blk, bs, db) == Some(Outcome(after, Applied))
      && PlayedBlock(blk, bs, db) == Played(blk, bs.generator, ts, bs.stateDb)
  {
    var got := GetTransactions(db, bs.trxs, PENDING);
    var o := ApplyBlock(e, l, blk, bs.generator, got, bs.stateDb);
    assert |got| == |bs.trxs| ==> Fetch(db, bs.trxs, PENDING) == Some(got);
    assert TryApply(e, l, blk, bs, db) == if |got| != |bs.trxs| then None else Some(o);
    forall ts
      ensures Listed(db, bs.trxs, ts) <==> |got| == |bs.trxs| && ts == got
    {
      ListedIsFetched(db, bs.trxs, ts);
    }
    BlockAppliesExactly(e, l, blk, bs.generator, got, bs.stateDb);
    hide ApplyBlock, Fetch, Listed, Checks, GetTransactions;
    if o.status.Applied? {
      var ms :| Checks(e, l, got, bs.generator, bs.stateDb, ms);
      assert PlaysOn(e, l, blk, bs, got, o.log);
    }
    forall ts, after | Listed(db, bs.trxs, ts) && PlaysOn(e, l, blk, bs, ts, after)
      ensures o == Outcome(after, Applied) && ts == got
    {
    }
  }

  /** A block on top of the head is taken exactly when the chain with it validates, its transactions are all pending,
      they all apply on the head's log, and the log they leave has the block's checksum.  The new head is then that
      log with the block's end record, and what the head was goes to disk; a block not taken changes nothing. */
  lemma AppendExactly(e: Env, s: NodeState, blk: Block, bs: BlockState)
    ensures var (s', rc) := Append(e, s, blk, bs);
      && (rc == 1 <==> && Validates(e.blockHash, s.chain + [blk])
                       && exists ts, after :: Listed(s.trxs, bs.trxs, ts) && PlaysOn(e, s.head, blk, bs, ts, after))
      && (rc != 1 ==> (s', rc) == (s, -3))
      && (forall ts, after ::
            rc == 1 && Listed(s.trxs, bs.trxs, ts) && PlaysOn(e, s.head, blk, bs, ts, after) ==>
              s' == NodeState(s.chain + [blk], s.head, after, after, s'.trxs, s.states, Some(s.chain), s.head,
                              s.hist + [Played(blk, bs.generator, ts, bs.stateDb)]))
  {
    TryAppliesExactly(e, s.head, blk, bs, s.trxs);
    hide Validates, TryApply, Listed, PlaysOn, MoveList, MoveGroup, PlayedBlock;
  }

  /** What a sibling finds as pending: the head's own transactions come back first. */
  lemma SiblingList(db: TrxDb, list: seq<Hash>, ts: seq<SignedTrx>)
    ensures Listed(MoveList(db, list, HEAD, PENDING), list, ts) <==> ListedOrHead(db, list, ts)
  {
    forall h | h in list
      ensures EntryAt(MoveList(db, list, HEAD, PENDING), TrxKey(PENDING, h)) == Unapplied(db, h)
    {
      MoveListAt(db, list, HEAD, PENDING, TrxKey(PENDING, h));
    }
    hide MoveList, EntryAt;
  }

  /** A sibling of the head is taken exactly when its hash is lower, the chain with it validates, its transactions are
      pending or the head's, they all apply on the log below the head, and what they leave has its checksum.  The head
      is then that log with the sibling's end record; chain file, disk and the log below the head stay. */
  lemma ReplaceExactly(e: Env, s: NodeState, blk: Block, bs: BlockState)
    requires s.chain != []
    ensures var (s', rc) := Replace(e, s, blk, bs);
      && (rc == 1 <==> && e.blockHash(blk) < e.blockHash(LastBlockOf(s))
                       && Validates(e.blockHash, s.chain[..|s.chain| - 1] + [blk])
                       && exists ts, after ::
                            ListedOrHead(s.trxs, bs.trxs, ts) && PlaysOn(e, s.base, blk, bs, ts, after))
      && (rc != 1 ==> rc == -3 && SameLedger(s, s'))
      && (forall ts, after ::
            rc == 1 && ListedOrHead(s.trxs, bs.trxs, ts) && PlaysOn(e, s.base, blk, bs, ts, after) ==>
              s' == NodeState(s.chain[..|s.chain| - 1] + [blk], s.base, after, after, s'.trxs, s.states, s.saved,
                              s.disk, if s.hist == [] then []
                                      else s.hist[..|s.hist| - 1] + [Played(blk, bs.generator, ts, bs.stateDb)]))
  {
    var db := MoveList(s.trxs, bs.trxs, HEAD, PENDING);
    TryAppliesExactly(e, s.base, blk, bs, db);
    forall ts
      ensures Listed(db, bs.trxs, ts) <==> ListedOrHead(s.trxs, bs.trxs, ts)
    {
      SiblingList(s.trxs, bs.trxs, ts);
    }
    hide Validates, TryApply, Listed, ListedOrHead, PlaysOn, MoveList, PlayedBlock;
  }

  /** The block's state is known and it is not dated more than 30 seconds ahead. */
  predicate Heard(s: NodeState, blk: Block, now: u32) {
    blk.state in s.states && blk.utcTime <= (now + 30) % TWO_32
  }

  predicate FollowsHead(e: Env, s: NodeState, blk: Block)
    requires s.chain != []
  {
    blk.prevBlock == e.blockHash(LastBlockOf(s))
  }

  predicate IsSibling(e: Env, s: NodeState, blk: Block)
    requires s.chain != []
  {
    !FollowsHead(e, s, blk) && blk.prevBlock == LastBlockOf(s).prevBlock
  }

  /** Where the block goes and that everything it needs is there. */
  ghost predicate Acceptable(e: Env, s: NodeState, blk: Block, bs: BlockState)
    requires s.chain != []
  {
    if FollowsHead(e, s, blk) then
      && Validates(e.blockHash, s.chain + [blk])
      && exists ts, after :: Listed(s.trxs, bs.trxs, ts) && PlaysOn(e, s.head, blk, bs, ts, after)
    else
      && e.blockHash(blk) < e.blockHash(LastBlockOf(s))
      && Validates(e.blockHash, s.chain[..|s.chain| - 1] + [blk])
      && exists ts, after :: ListedOrHead(s.trxs, bs.trxs, ts) && PlaysOn(e, s.base, blk, bs, ts, after)
  }

  /** The result code of a delivered block: 0 without a chain, -1 for a block that cannot be placed, 1 exactly for an
      acceptable one, and -3 for the others. */
  lemma AddBlockExactly(e: Env, s: NodeState, blk: Block, now: u32)
    ensures var (s', rc) := AddBlock(e, s, blk, now);
      if s.chain == [] then (s', rc) == (s, 0)
      else if !Heard(s, blk, now) || !(FollowsHead(e, s, blk) || IsSibling(e, s, blk)) then (s', rc) == (s, -1)
      else if Acceptable(e, s, blk, s.states[blk.state]) then
        rc == 1 && s'.chain == (if FollowsHead(e, s, blk) then s.chain else s.chain[..|s.chain| - 1]) + [blk]
      else rc == -3 && SameLedger(s, s') && (FollowsHead(e, s, blk) ==> s' == s)
  {
    if s.chain != [] && blk.state in s.states {
      AppendExactly(e, s, blk, s.states[blk.state]);
      ReplaceExactly(e, s, blk, s.states[blk.state]);
    }
    hide Append, Replace, Validates, Listed, ListedOrHead, PlaysOn;
  }

  /** A delivered block whose transactions are there and apply, but leave a log with another hash, gets -3. */
  lemma OtherChecksumGetsMinusThree(e: Env, s: NodeState, blk: Block, now: u32, ts: seq<SignedTrx>, ms: seq<Log>)
    requires s.chain != [] && Heard(s, blk, now) && (FollowsHead(e, s, blk) || IsSibling(e, s, blk))
    requires var bs := s.states[blk.state];
      && (if FollowsHead(e, s, blk) then Listed(s.trxs, bs.trxs, ts) else ListedOrHead(s.trxs, bs.trxs, ts))
      && TrxsRun(e, if FollowsHead(e, s, blk) then s.head else s.base, ts, bs.generator, ms)
      && StateHash(e, Bytes(e, ms[|ts|])) != bs.stateDb
    ensures var (s', rc) := AddBlock(e, s, blk, now); rc == -3 && SameLedger(s, s')
  {
    var bs, l := s.states[blk.state], if FollowsHead(e, s, blk) then s.head else s.base;
    AddBlockExactly(e, s, blk, now);
    hide AddBlock, Validates, StateHash, Bytes, TrxsRun;
    forall us, after | PlaysOn(e, l, blk, bs, us, after)
      ensures us != ts
    {
      if us == ts {
        var ns :| Checks(e, l, ts, bs.generator, bs.stateDb, ns);
        RunsEnd(e, l, ts, bs.generator, ms, ns);
      }
    }
    hide PlaysOn;
  }

  lemma RunsEnd(e: Env, l: Log, ts: seq<SignedTrx>, gen: string, ms: seq<Log>, ns: seq<Log>)
    requires TrxsRun(e, l, ts, gen, ms) && TrxsRun(e, l, ts, gen, ns)
    ensures ms[|ts|] == ns[|ts|]
  {
    TrxsApplyExactly(e, l, ts, gen);
    hide ApplyTrx, ApplyTrxs;
  }

  // ---------------------------------------------------------------- the checksums of the held chain

  /** Block `i` of the held chain was played on the log of the blocks below it, and its recorded checksum is the hash
      of the log its transactions left, just before its end record. */
  ghost predicate ChecksumHolds(e: Env, s: NodeState, i: nat)
    requires i < |s.hist|
  {
    var p := s.hist[i];
    && Replay(e, s.hist[..i]).Some?
    && exists ms :: Checks(e, Replay(e, s.hist[..i]).value, p.trxs, p.gen, p.check, ms)
                    && Replay(e, s.hist[..i + 1]) == Some(Snoc(ms[|p.trxs|], EndBlock(p.blk, p.gen)))
  }

  lemma ChecksumsHold(e: Env, s: NodeState, i: nat)
    requires Agrees(e, s) && i < |s.chain|
    ensures s.hist[i].blk == s.chain[i] && ChecksumHolds(e, s, i)
  {
    var p := s.hist[i];
    CatchUp.ReplayOfPrefix(e, s.hist, i);
    var l := Replay(e, s.hist[..i]).value;
    ReplaySnoc(e, s.hist[..i], p);
    CatchUp.TakeMore(s.hist, i);
    BlockAppliesExactly(e, l, p.blk, p.gen, p.trxs, p.check);
    assert PlayOne(e, l, p) == ApplyBlock(e, l, p.blk, p.gen, p.trxs, p.check);
    hide ApplyBlock, Replay, Checks, Validates, WellFormed, Prefix, PlayOne;
  }

  /** At every moment of a run every held block's checksum is the hash of the log it was checked against. */
  lemma ChecksumsOverRuns(e: Env, s: NodeState, steps: seq<NodeStep>, i: nat)
    requires Agrees(e, s) && i < |Run(e, s, steps).chain|
    ensures var s' := Run(e, s, steps);
      |s'.hist| == |s'.chain| && s'.hist[i].blk == s'.chain[i] && ChecksumHolds(e, s', i)
  {
    EveryRunAgrees(e, s, steps);
    ChecksumsHold(e, Run(e, s, steps), i);
    hide Run, ChecksumHolds, Replay, Validates, WellFormed, Prefix;
  }

  lemma ReplayEndsWithBlock(e: Env, s: NodeState, i: nat)
    requires Agrees(e, s) && i < |s.chain|
    ensures |s.hist| == |s.chain| && Replay(e, s.hist[..i + 1]).Some?
    ensures StateDatabases.LastBlock(Replay(e, s.hist[..i + 1]).value) == s.chain[i]
  {
    ChecksumsHold(e, s, i);
    hide Checks, Replay, Validates, WellFormed, Prefix;
  }

  lemma AgreesLogs(e: Env, s: NodeState)
    requires Agrees(e, s)
    ensures |s.hist| == |s.chain| > 0
    ensures Replay(e, s.hist[..|s.chain|]) == Some(s.head) && Replay(e, s.hist[..|s.chain| - 1]) == Some(s.disk)
    ensures |s.chain| == 1 ==> s.saved == None && s.disk == Empty
    ensures |s.chain| > 1 ==> s.saved == Some(s.chain[..|s.chain| - 1])
  {
    assert s.hist[..|s.chain|] == s.hist;
    assert |s.chain| == 1 ==> s.hist[..|s.chain| - 1] == [] && Replay(e, []) == Some(Empty);
    hide Replay, Validates, WellFormed, Prefix;
  }

  /** The last end record of the two logs names the last block of the chain and the one below it, so the state
      database on disk ends with the last block of the chain file. */
  lemma LogsEndWithTheirBlocks(e: Env, s: NodeState)
    requires Agrees(e, s)
    ensures s.chain != [] && StateDatabases.LastBlock(s.head) == LastBlockOf(s)
    ensures s.saved.Some? ==> s.saved.value != []
    ensures StateDatabases.LastBlock(s.disk)
      == if s.saved.None? then DEFAULT_BLOCK else s.saved.value[|s.saved.value| - 1]
  {
    hide Replay, Agrees;
    var n := |s.chain|;
    AgreesLogs(e, s);
    ReplayEndsWithBlock(e, s, n - 1);
    if n >= 2 {
      ReplayEndsWithBlock(e, s, n - 2);
      assert s.saved.value[n - 2] == s.chain[n - 2];
    }
  }

  /** What a fresh node's first block leaves: its end record alone, or nothing when the checksum is another one. */
  lemma GenesisExactly(e: Env, s: NodeState, blk: Block, gen: string, check: Hash)
    requires s == FRESH_NODE.(trxs := s.trxs, states := s.states)
    ensures var s' := Genesis(e, s, blk, gen, check);
      && s'.chain == [blk] && s'.base == s'.disk == Empty && s'.saved == None && s'.gen == s'.head
      && s'.head == if check == StateHash(e, []) then Snoc(Empty, EndBlock(blk, gen)) else Empty
  {
    BlockAppliesExactly(e, Empty, blk, gen, [], check);
    hide StateHash;
    assert TrxsRun(e, Empty, [], gen, [Empty]);
    if check == StateHash(e, []) {
      assert Checks(e, Empty, [], gen, check, [Empty]);
    }
  }

  /** What mining a first block on a fresh node leaves, and what the node then answers when asked for it. */
  lemma MinedGenesisExactly(e: Env, s: NodeState, gen: string, b: Block, found: bool)
    requires s == FRESH_NODE.(trxs := s.trxs, states := s.states)
    ensures var s' := GenerateGenesis(e, s, gen, b, found); var bs := BlockState(0, gen, StateHash(e, []), []);
      && s'.chain == [b] && s'.trxs == s.trxs && s'.states == s.states[b.state := bs] && s'.gen == s'.head
      && s'.head == (if found then Snoc(Empty, EndBlock(b, gen)) else Empty)
      && GetFullBlock(s', 0) == Ok(FullBlock(0, 0, b, bs, []))
  {
    GenesisExactly(e, s, b, gen, StateHash(e, []));
    hide StateHash, Genesis;
    assert Genesis(e, s, b, gen, StateHash(e, [])).trxs == s.trxs by {
      GenesisKeepsStore(e, s, b, gen, StateHash(e, []));
    }
  }

  lemma GenesisKeepsStore(e: Env, s: NodeState, blk: Block, gen: string, check: Hash)
    ensures Genesis(e, s, blk, gen, check).trxs == s.trxs
  {}

  // ---------------------------------------------------------------- submitted transactions

  /** A transaction that none of the three groups has is stored as pending and nothing else changes; a known one is
      refused and changes nothing. */
  lemma AddTransactionExactly(e: Env, s: NodeState, t: SignedTrx)
    ensures var (s', rc) := AddTransaction(e, s, t); var h := e.signedHash(t);
      if TrxKey(PENDING, h) in s.trxs || TrxKey(HEAD, h) in s.trxs || TrxKey(APPLIED, h) in s.trxs then
        (s', rc) == (s, -1)
      else
        && rc == 0 && s' == s.(trxs := s'.trxs)
        && forall k :: EntryAt(s'.trxs, k) == if k == TrxKey(PENDING, h) then Some(t) else EntryAt(s.trxs, k)
  {}

  /** Whether the entry at `i` applies on top of what was chosen before it. */
  predicate Applies(e: Env, l: Log, order: seq<Entry>, i: nat, gen: string)
    requires i < |order|
  {
    ApplyTrx(e, Select(e, l, order[..i], gen).0, order[i].trx, gen).status.Applied?
  }

  /** An entry is chosen exactly when it applies on top of those chosen before it. */
  lemma {:induction false} ChosenExactly(e: Env, l: Log, order: seq<Entry>, i: nat, n: nat, gen: string)
    requires i < n <= |order| && forall j, k :: 0 <= j < k < |order| ==> order[j].hash != order[k].hash
    ensures order[i] in Select(e, l, order[..n], gen).1 <==> Applies(e, l, order, i, gen)
  {
    hide Select, ApplyTrx;
    var m := n - 1;
    CatchUp.TakeMore(order, m);
    Generation.SelectSnoc(e, l, order[..m], order[m], gen);
    if i < m {
      ChosenExactly(e, l, order, i, m, gen);
    } else {
      Generation.SelectedFromOrder(e, l, order[..m], gen);
      forall x | x in order[..m]
        ensures x != order[m]
      {
        var j :| 0 <= j < m && order[j] == x;
      }
    }
  }

  /** The order lists this transaction at `i` only, and a candidate built from it takes it exactly when it applies on
      top of those taken before it. */
  ghost predicate ConsideredAt(e: Env, s: NodeState, x: Entry, order: seq<Entry>, gen: string, i: nat) {
    && i < |order| && order[i] == x && (forall j :: 0 <= j < |order| && order[j].hash == x.hash ==> j == i)
    && (x.hash in CandidateState(e, s, gen, order).trxs <==> Applies(e, s.head, order, i, gen))
  }

  /** After a new transaction was submitted, every order a candidate may be built from considers it. */
  lemma SubmittedIsConsidered(e: Env, s: NodeState, t: SignedTrx, order: seq<Entry>, gen: string)
    requires !Knows(s.trxs, e.signedHash(t)) && PendingInOrder(AddTransaction(e, s, t).0.trxs, order)
    ensures exists i: nat :: ConsideredAt(e, AddTransaction(e, s, t).0, Entry(e.signedHash(t), t), order, gen, i)
  {
    var h := e.signedHash(t);
    var s' := AddTransaction(e, s, t).0;
    var k := TrxKey(PENDING, h);
    assert k in s'.trxs && s'.trxs[k] == t && k.group == PENDING && s'.head == s.head;
    var i: nat :| i < |order| && order[i].hash == k.hash;
    ChosenExactly(e, s.head, order, i, |order|, gen);
    assert order[..|order|] == order;
    ListedHash(e, s.head, order, i, gen);
    assert order[i] == Entry(h, t);
    hide Select, Applies, StateHash, Bytes, PendingInOrder;
    assert ConsideredAt(e, s', order[i], order, gen, i);
  }

  lemma ListedHash(e: Env, l: Log, order: seq<Entry>, i: nat, gen: string)
    requires i < |order| && forall j, k :: 0 <= j < k < |order| ==> order[j].hash != order[k].hash
    ensures order[i].hash in Hashes(Select(e, l, order, gen).1) <==> order[i] in Select(e, l, order, gen).1
  {
    var chosen := Select(e, l, order, gen).1;
    Generation.SelectedFromOrder(e, l, order, gen);
    hide Select;
    if order[i] in chosen {
      var j :| 0 <= j < |chosen| && chosen[j] == order[i];
      assert Hashes(chosen)[j] == order[i].hash;
    }
    if order[i].hash in Hashes(chosen) {
      var j :| 0 <= j < |chosen| && Hashes(chosen)[j] == order[i].hash;
      assert chosen[j] in order;
      var k :| 0 <= k < |order| && order[k] == chosen[j];
    }
  }

  /** The chosen transactions are taken oldest first. */
  lemma {:induction false} ChosenOldestFirst(e: Env, db: TrxDb, l: Log, order: seq<Entry>, n: nat, gen: string)
    requires PendingInOrder(db, order) && n <= |order|
    ensures var chosen := Select(e, l, order[..n], gen).1;
      && (forall i, j :: 0 <= i < j < |chosen| ==> chosen[i].trx.utcTime <= chosen[j].trx.utcTime)
      && (forall i :: 0 <= i < |chosen| && n < |order| ==> chosen[i].trx.utcTime <= order[n].trx.utcTime)
  {
    if n == 0 {
      assert Select(e, l, order[..0], gen).1 == [];
    } else {
      var m := n - 1;
      ChosenOldestFirst(e, db, l, order, m, gen);
      CatchUp.TakeMore(order, m);
      Generation.SelectSnoc(e, l, order[..m], order[m], gen);
      assert n < |order| ==> order[m].trx.utcTime <= order[n].trx.utcTime;
    }
    hide Select, ApplyTrx, PendingInOrder;
  }

  // ---------------------------------------------------------------- full blocks, coming and going

  /** Of the transactions that come with a block the unknown ones are stored as pending; nothing stored changes. */
  ghost predicate StoredWith(e: Env, before: TrxDb, ts: seq<SignedTrx>, after: TrxDb, h: Hash) {
    && EntryAt(after, TrxKey(HEAD, h)) == EntryAt(before, TrxKey(HEAD, h))
    && EntryAt(after, TrxKey(APPLIED, h)) == EntryAt(before, TrxKey(APPLIED, h))
    && var x := EntryAt(after, TrxKey(PENDING, h));
      if Knows(before, h) then x == EntryAt(before, TrxKey(PENDING, h))
      else if forall t :: t in ts ==> e.signedHash(t) != h then x == None
      else x.Some? && x.value in ts && e.signedHash(x.value) == h
  }

  lemma {:induction false} StoreAllExactly(e: Env, db: TrxDb, ts: seq<SignedTrx>, h: Hash)
    ensures StoredWith(e, db, ts, StoreAll(e, db, ts), h)
    decreases |ts|
  {
    if ts != [] {
      StoreAllExactly(e, Store(e, db, ts[0]), ts[1..], h);
      assert forall t :: t in ts <==> t == ts[0] || t in ts[1..];
    }
  }

  /** A full block first leaves its transactions and its state with the node, whatever becomes of it; then it is the
      first block of an empty chain, if it says so, or a delivered block like any other. */
  lemma FullBlockExactly(e: Env, s: NodeState, fbs: FullBlock, now: u32)
    ensures exists s1: NodeState ::
      && s1 == s.(trxs := s1.trxs, states := s.states[fbs.blk.state := fbs.state])
      && (forall h :: StoredWith(e, s.trxs, fbs.trxs, s1.trxs, h))
      && AddFullBlock(e, s, fbs, now)
         == if |s.chain| == 0 && fbs.index == 0
            then (Genesis(e, s1, fbs.blk, fbs.state.generator, fbs.state.stateDb), 1)
            else AddBlock(e, s1, fbs.blk, now)
  {
    var s1 := CatchUp.Received(e, s, fbs);
    forall h
      ensures StoredWith(e, s.trxs, fbs.trxs, s1.trxs, h)
    {
      StoreAllExactly(e, s.trxs, fbs.trxs, h);
    }
    hide StoreAll, AddBlock, Genesis, StoredWith;
  }

  predicate Stored(db: TrxDb, h: Hash, g: int) {
    TrxKey(g, h) in db
  }

  /** The groups are searched in order, the fourth one too. */
  lemma FindTrxExactly(db: TrxDb, h: Hash)
    ensures match FindTrx(db, h)
      case None => forall g :: 0 <= g < 4 ==> !Stored(db, h, g)
      case Some(t) => exists g :: 0 <= g < 4 && Stored(db, h, g) && db[TrxKey(g, h)] == t
                               && forall f :: 0 <= f < g ==> !Stored(db, h, f)
  {
    if Stored(db, h, 0) {
    } else if Stored(db, h, 1) {
    } else if Stored(db, h, 2) {
    } else if Stored(db, h, 3) {
    }
  }

  lemma {:induction false} FindAllExactly(db: TrxDb, list: seq<Hash>)
    ensures FindAll(db, list).Ok? <==> forall i :: 0 <= i < |list| ==> FindTrx(db, list[i]).Some?
    decreases |list|
  {
    hide FindTrx;
    if list != [] {
      FindAllExactly(db, list[1..]);
      assert list == [list[0]] + list[1..];
    }
  }

  /** A request beyond the head gets the empty block; one on an empty chain, one for a block whose state is not held,
      and one whose list has a transaction in no group get none; every other request gets the block at that height
      with its state, the height of the head, and the listed transactions in order. */
  lemma AnswerExactly(s: NodeState, index: u32)
    ensures var r := GetFullBlock(s, index);
      if s.chain == [] then r.Err?
      else if index >= |s.chain| then r == Ok(NO_BLOCK)
      else var b := s.chain[index];
        && (r.Ok? <==> b.state in s.states
                       && forall i :: 0 <= i < |s.states[b.state].trxs| ==>
                            FindTrx(s.trxs, s.states[b.state].trxs[i]).Some?)
        && (r.Ok? ==> && r.value == FullBlock(index, |s.chain| - 1, b, s.states[b.state], r.value.trxs)
                      && |r.value.trxs| == |s.states[b.state].trxs|
                      && forall i :: 0 <= i < |r.value.trxs| ==>
                           FindTrx(s.trxs, s.states[b.state].trxs[i]) == Some(r.value.trxs[i]))
  {
    if index < |s.chain| && s.chain[index].state in s.states {
      var list := s.states[s.chain[index].state].trxs;
      FindAllExactly(s.trxs, list);
      if FindAll(s.trxs, list).Ok? {
        CatchUp.FindAllEach(s.trxs, list);
      }
    }
    hide FindAll, FindTrx;
  }

  // ---------------------------------------------------------------- candidates

  /** What a candidate says: it follows the head and is dated 15 seconds ahead; its state gives the height at which
      it will stand, the generator, pending transactions that run on the head's log, and the hash of what they leave. */
  lemma CandidateExactly(e: Env, s: NodeState, gen: string, order: seq<Entry>, now: u32)
    requires s.chain != []
    ensures var (s1, b) := Candidate(e, s, gen, order, now);
      && FollowsHead(e, s, b) && b.version == 0 && b.nonce == 0 && b.utcTime == (now + 15) % TWO_32
      && b.state in s1.states && s1 == s.(gen := s1.gen, states := s.states[b.state := s1.states[b.state]])
      && var bs := s1.states[b.state]; var chosen := Select(e, s.head, order, gen).1;
        && b.state == e.stateHash(bs) && bs.index == |s.chain| % TWO_32 && bs.generator == gen
        && bs.trxs == Hashes(chosen)
        && exists ms :: Checks(e, s.head, Trxs(chosen), gen, bs.stateDb, ms) && ms[|chosen|] == s1.gen
  {
    var (l, chosen) := Select(e, s.head, order, gen);
    var s1 := Candidate(e, s, gen, order, now).0;
    Generation.SelectReplays(e, s.head, order, gen);
    TrxsApplyExactly(e, s.head, Trxs(chosen), gen);
    hide Select, ApplyTrxs, StateHash, Bytes, TrxsRun;
    var ms :| TrxsRun(e, s.head, Trxs(chosen), gen, ms);
    assert Checks(e, s.head, Trxs(chosen), gen, StateHash(e, Bytes(e, l)), ms);
  }

  /** A candidate is in time as long as its clock does not wrap, whenever it is delivered later. */
  lemma CandidateInTime(e: Env, s: NodeState, gen: string, order: seq<Entry>, now: u32, clock: u32)
    requires s.chain != [] && now <= clock < TWO_32 - 30
    ensures Heard(Candidate(e, s, gen, order, now).0, Candidate(e, s, gen, order, now).1, clock)
  {
    hide Select, StateHash;
  }

  lemma MinedIndex(e: Env, s: NodeState, gen: string, order: seq<Entry>, now: u32, later: NodeState, b: Block)
    requires s.chain != []
    requires var (s1, c) := Candidate(e, s, gen, order, now);
      Generation.MinedFrom(b, c) && Generation.StillOpen(s, s1, c, later)
    ensures b.state in later.states && later.states[b.state].index == |s.chain| % TWO_32
  {
    var (s1, c) := Candidate(e, s, gen, order, now);
    assert b.state == c.state && later.states[b.state] == s1.states[c.state];
    hide Candidate, Generation.StillOpen, Generation.MinedFrom;
    CandidateExactly(e, s, gen, order, now);
    hide *;
  }

  /** The index in a mined candidate's state is where the block then stands. */
  lemma MinedBlockStandsAtIndex(e: Env, s: NodeState, gen: string, order: seq<Entry>, now: u32,
                                later: NodeState, b: Block, clock: u32)
    requires s.chain != [] && |s.chain| < TWO_32 && PendingInOrder(s.trxs, order)
    requires var (s1, c) := Candidate(e, s, gen, order, now);
      Generation.MinedFrom(b, c) && Generation.StillOpen(s, s1, c, later)
    requires AddBlock(e, later, b, clock).1 == 1
    ensures var s' := AddBlock(e, later, b, clock).0; var bs := later.states[b.state];
      bs.index < |s'.chain| && s'.chain[bs.index] == b
  {
    MinedIndex(e, s, gen, order, now, later, b);
    hide Candidate, PendingInOrder, AddBlock, Validates, Generation.StillOpen, Generation.MinedFrom;
    Generation.GeneratedBlockAccepted(e, s, gen, order, now, later, b, clock);
  }
}
