/** What every run of a node keeps: agreement of the layers with the replayed chain, finality of
    the blocks below the head, and the transaction store (libs/gpm/node/node.cpp:123-157, 568-798). */
module NodeRuns {
  import opened Common
  import opened BlockChain
  import opened Records
  import opened Ledger
  import opened NodeSpec

  // ---------------------------------------------------------------- replaying a chain

  function PlayOne(e: Env, l: Log, p: Played): Outcome {
    ApplyBlock(e, l, p.blk, p.gen, p.trxs, p.check)
  }

  /** The log that applying the blocks one after the other builds from nothing. */
  function Replay(e: Env, hist: seq<Played>): Option<Log>
    decreases |hist|
  {
    if hist == [] then Some(Empty)
    else
      match Replay(e, hist[..|hist| - 1])
      case None => None
      case Some(l) =>
        var o := PlayOne(e, l, hist[|hist| - 1]);
        if o.status.Applied? then Some(o.log) else None
  }

  lemma ReplaySnoc(e: Env, hist: seq<Played>, p: Played)
    requires Replay(e, hist).Some?
    ensures var o := PlayOne(e, Replay(e, hist).value, p);
      Replay(e, hist + [p]) == if o.status.Applied? then Some(o.log) else None
  {
    var h := hist + [p];
    assert h[..|h| - 1] == hist;
  }

  lemma {:induction false} ReplayWellFormed(e: Env, hist: seq<Played>)
    requires Replay(e, hist).Some?
    ensures WellFormed(e, Replay(e, hist).value)
    decreases |hist|
  {
    hide PlayOne, ApplyBlock;
    if hist != [] {
      var before, p := hist[..|hist| - 1], hist[|hist| - 1];
      ReplayWellFormed(e, before);
      PlayGrows(e, Replay(e, before).value, p);
    }
  }

  lemma PlayGrows(e: Env, l: Log, p: Played)
    requires WellFormed(e, l)
    ensures WellFormed(e, PlayOne(e, l, p).log) && PlayOne(e, l, p).status != Threw
  {
    ApplyBlockGrows(e, l, p.blk, p.gen, p.trxs, p.check);
  }

  /** The chain and the history describe the same blocks. */
  ghost predicate Describes(hist: seq<Played>, chain: seq<Block>) {
    |hist| == |chain| && forall i :: 0 <= i < |chain| ==> hist[i].blk == chain[i]
  }

  /** Node and ledger agree: the state database shows the replay of all blocks but the head, the head
      layer that of the whole chain; the two files describe exactly the chain without its head. */
  ghost predicate Agrees(e: Env, s: NodeState) {
    var n := |s.chain|;
    && s.chain != [] && Describes(s.hist, s.chain)
    && Replay(e, s.hist) == Some(s.head)
    && Replay(e, s.hist[..n - 1]) == Some(s.base)
    && s.disk == s.base
    && s.saved == (if n == 1 then None else Some(s.chain[..n - 1]))
    && (n >= 2 ==> Validates(e.blockHash, s.chain))
    && Prefix(s.head, s.gen) && WellFormed(e, s.gen)
  }

  /** Everything of a node but its transaction store. */
  predicate SameLedger(s: NodeState, s': NodeState) {
    s' == s.(trxs := s'.trxs)
  }

  /** A new head on top of a chain the state database shows. */
  lemma HeadPlayed(e: Env, s: NodeState, below: seq<Played>, p: Played)
    requires s.hist == below + [p] && Describes(s.hist, s.chain)
    requires Replay(e, below) == Some(s.base) && PlayOne(e, s.base, p) == Outcome(s.head, Applied)
    requires s.disk == s.base && s.gen == s.head
    requires s.saved == if |s.chain| == 1 then None else Some(s.chain[..|s.chain| - 1])
    requires |s.chain| >= 2 ==> Validates(e.blockHash, s.chain)
    ensures Agrees(e, s)
  {
    hide ApplyBlock, Validates, WellFormed, Prefix, PlayOne;
    ReplaySnoc(e, below, p);
    assert s.hist[..|s.chain| - 1] == below;
    ReplayWellFormed(e, s.hist);
    PrefixReflexive(s.head);
  }

  lemma AppendAgrees(e: Env, s: NodeState, blk: Block, bs: BlockState)
    requires Agrees(e, s)
    ensures var (s', rc) := Append(e, s, blk, bs);
      Agrees(e, s') && (rc == 1 || (rc == -3 && s' == s))
  {
    hide ApplyBlock, Validates, MoveList, MoveGroup, WellFormed, Prefix, GetTransactions, Replay;
    var (s', rc) := Append(e, s, blk, bs);
    if rc == 1 {
      assert s'.chain[..|s.chain|] == s.chain;
      HeadPlayed(e, s', s.hist, PlayedBlock(blk, bs, s.trxs));
    }
  }

  /** The head was swapped for another block played on the same base. */
  ghost predicate HeadSwapped(e: Env, s: NodeState, s': NodeState, p: Played)
    requires s.chain != [] && s.hist != []
  {
    && s'.base == s.base && s'.disk == s.disk && s'.saved == s.saved && s'.gen == s'.head
    && s'.chain == WithHead(s.chain, p.blk) && Validates(e.blockHash, s'.chain)
    && s'.hist == WithHead(s.hist, p) && PlayOne(e, s.base, p) == Outcome(s'.head, Applied)
  }

  lemma SwapAgrees(e: Env, s: NodeState, s': NodeState, p: Played)
    requires Agrees(e, s) && HeadSwapped(e, s, s', p)
    ensures Agrees(e, s')
  {
    hide PlayOne, Validates, WellFormed, Prefix, Replay;
    var n := |s.chain|;
    assert s'.chain[..n - 1] == s.chain[..n - 1];
    HeadPlayed(e, s', s.hist[..n - 1], p);
  }

  lemma ReplaceShape(e: Env, s: NodeState, blk: Block, bs: BlockState)
    requires s.chain != [] && s.hist != []
    ensures var (s', rc) := Replace(e, s, blk, bs);
      if rc == 1 then exists p: Played :: HeadSwapped(e, s, s', p) else rc == -3 && SameLedger(s, s')
  {
    hide ApplyBlock, Validates, MoveList, GetTransactions, WithHead;
    var db := MoveList(s.trxs, bs.trxs, HEAD, PENDING);
    var p := PlayedBlock(blk, bs, db);
    assert Accepts(TryApply(e, s.base, blk, bs, db)) ==>
      PlayOne(e, s.base, p) == TryApply(e, s.base, blk, bs, db).value;
    hide TryApply, PlayOne;
    var (s', rc) := Replace(e, s, blk, bs);
    assert rc == 1 ==> HeadSwapped(e, s, s', p);
  }

  lemma ReplaceAgrees(e: Env, s: NodeState, blk: Block, bs: BlockState)
    requires Agrees(e, s)
    ensures var (s', rc) := Replace(e, s, blk, bs);
      Agrees(e, s') && (rc == 1 || (rc == -3 && SameLedger(s, s')))
  {
    ReplaceShape(e, s, blk, bs);
    var (s', rc) := Replace(e, s, blk, bs);
    if rc == 1 {
      var p: Played :| HeadSwapped(e, s, s', p);
      SwapAgrees(e, s, s', p);
    } else {
      StoreOnly(e, s, s');
    }
    hide *;
  }

  /** Agreement does not look at the transaction store. */
  lemma StoreOnly(e: Env, s: NodeState, s': NodeState)
    requires Agrees(e, s) && SameLedger(s, s')
    ensures Agrees(e, s')
  {
    hide Replay, Validates, WellFormed, Prefix;
  }

  /** After every `add_block` node and ledger agree, and a block that is not accepted leaves chain,
      files and views unchanged. */
  lemma AddBlockAgrees(e: Env, s: NodeState, blk: Block, now: u32)
    requires Agrees(e, s)
    ensures var (s', rc) := AddBlock(e, s, blk, now);
      Agrees(e, s') && (rc == 1 || SameLedger(s, s'))
  {
    hide Append, Replace, Agrees;
    assert s.chain != [] by { AgreesFacts(e, s); }
    if blk.state in s.states {
      AppendAgrees(e, s, blk, s.states[blk.state]);
      ReplaceAgrees(e, s, blk, s.states[blk.state]);
    }
  }

  lemma AgreesFacts(e: Env, s: NodeState)
    requires Agrees(e, s)
    ensures s.chain != [] && Prefix(s.head, s.gen) && WellFormed(e, s.head)
  {
    ReplayWellFormed(e, s.hist);
  }

  /** The first block of a fresh node establishes agreement exactly when its checksum is that of the empty log. */
  lemma GenesisAgrees(e: Env, s: NodeState, blk: Block, gen: string, check: Hash)
    requires s == FRESH_NODE.(trxs := s.trxs, states := s.states)
    ensures Agrees(e, Genesis(e, s, blk, gen, check)) <==> check == StateHash(e, [])
  {
    var s' := Genesis(e, s, blk, gen, check);
    var p := Played(blk, gen, [], check);
    FirstBlock(e, p);
    hide ApplyBlock, Replay, Validates, WellFormed, Prefix, StateHash;
    if check == StateHash(e, []) {
      assert [] + [p] == [p];
      HeadPlayed(e, s', [], p);
    } else {
      assert s'.hist == [] && s'.chain == [blk];
    }
  }

  /** On an empty log a block without transactions is accepted exactly with the empty log's checksum. */
  lemma FirstBlock(e: Env, p: Played)
    requires p.trxs == []
    ensures PlayOne(e, Empty, p).status.Applied? <==> p.check == StateHash(e, [])
    ensures Replay(e, []) == Some(Empty)
  {
    hide StateHash;
  }

  // ---------------------------------------------------------------- runs

  datatype NodeStep =
    | Deliver(blk: Block, now: u32)
    | DeliverFull(fbs: FullBlock, now: u32)
    | Submit(trx: SignedTrx)
    | Build(gen: string, order: seq<Entry>, now: u32)

  function Next(e: Env, s: NodeState, step: NodeStep): NodeState {
    match step
    case Deliver(blk, now) => AddBlock(e, s, blk, now).0
    case DeliverFull(fbs, now) => AddFullBlock(e, s, fbs, now).0
    case Submit(t) => AddTransaction(e, s, t).0
    case Build(gen, order, now) => if s.chain == [] then s else Candidate(e, s, gen, order, now).0
  }

  function Run(e: Env, s: NodeState, steps: seq<NodeStep>): NodeState
    decreases |steps|
  {
    if steps == [] then s else Run(e, Next(e, s, steps[0]), steps[1..])
  }

  lemma {:induction false} SelectGrows(e: Env, l: Log, order: seq<Entry>, gen: string)
    requires WellFormed(e, l)
    ensures Grown(e, l, Select(e, l, order, gen).0)
    decreases |order|
  {
    hide ApplyTrx, WellFormed, Prefix;
    if order == [] {
      PrefixReflexive(l);
    } else {
      var o := ApplyTrx(e, l, order[0].trx, gen);
      ApplyTrxGrows(e, l, order[0].trx, gen);
      if o.status.Applied? {
        SelectGrows(e, o.log, order[1..], gen);
        PrefixTransitive(l, o.log, Select(e, l, order, gen).0);
      } else {
        SelectGrows(e, l, order[1..], gen);
      }
    }
  }

  lemma NextAgrees(e: Env, s: NodeState, step: NodeStep)
    requires Agrees(e, s)
    ensures Agrees(e, Next(e, s, step))
  {
    hide AddBlock, Select, StoreAll, Replay, WellFormed, Prefix, Validates;
    AgreesFacts(e, s);
    match step
    case Deliver(blk, now) => AddBlockAgrees(e, s, blk, now);
    case DeliverFull(fbs, now) =>
      AddBlockAgrees(e, s.(trxs := StoreAll(e, s.trxs, fbs.trxs),
                           states := s.states[fbs.blk.state := fbs.state]), fbs.blk, now);
    case Submit(_) =>
    case Build(gen, order, now) => SelectGrows(e, s.head, order, gen);
  }

  /** Over every run, whatever is delivered, submitted or built. */
  lemma {:induction false} EveryRunAgrees(e: Env, s: NodeState, steps: seq<NodeStep>)
    requires Agrees(e, s)
    ensures Agrees(e, Run(e, s, steps))
    decreases |steps|
  {
    hide Agrees, Next;
    if steps != [] {
      NextAgrees(e, s, steps[0]);
      EveryRunAgrees(e, Next(e, s, steps[0]), steps[1..]);
    }
  }

  // ---------------------------------------------------------------- progress and finality

  predicate Extended(s: NodeState, s': NodeState) {
    |s'.chain| == |s.chain| + 1 && s'.chain[..|s.chain|] == s.chain
  }

  /** Only the last block changed, to a sibling with a strictly lower hash. */
  predicate Replaced(e: Env, s: NodeState, s': NodeState) {
    && s.chain != [] && |s'.chain| == |s.chain|
    && s'.chain[..|s.chain| - 1] == s.chain[..|s.chain| - 1]
    && LastBlockOf(s').prevBlock == LastBlockOf(s).prevBlock
    && e.blockHash(LastBlockOf(s')) < e.blockHash(LastBlockOf(s))
  }

  /** Each step extends the chain by one block, replaces its last block, or keeps it. */
  lemma NextProgress(e: Env, s: NodeState, step: NodeStep)
    requires s.chain != []
    ensures var s' := Next(e, s, step);
      Extended(s, s') || Replaced(e, s, s') || s'.chain == s.chain
  {
    hide Validates, TryApply, MoveList, MoveGroup, Select, StoreAll, GetTransactions;
  }

  /** How many steps of a run replace the head. */
  function Replacements(e: Env, s: NodeState, steps: seq<NodeStep>): nat
    decreases |steps|
  {
    if steps == [] then 0
    else
      var s' := Next(e, s, steps[0]);
      (if Replaced(e, s, s') then 1 else 0) + Replacements(e, s', steps[1..])
  }

  /** Over every run the blocks below the head never change and the chain never shrinks; while its height
      stays the same the head's hash pays for every replacement, so they are finitely many. */
  lemma {:induction false} Finality(e: Env, s: NodeState, steps: seq<NodeStep>)
    requires s.chain != []
    ensures var s' := Run(e, s, steps); var n := |s.chain| - 1;
      && |s'.chain| > n && s'.chain[..n] == s.chain[..n]
      && (|s'.chain| == |s.chain| ==>
            e.blockHash(LastBlockOf(s')) + Replacements(e, s, steps) <= e.blockHash(LastBlockOf(s)))
    decreases |steps|
  {
    hide Next;
    if steps != [] {
      var s1 := Next(e, s, steps[0]);
      NextProgress(e, s, steps[0]);
      Finality(e, s1, steps[1..]);
      var s', n := Run(e, s, steps), |s.chain| - 1;
      assert s1.chain[..n] == s.chain[..n];
      assert s'.chain[..n] == s'.chain[..|s1.chain| - 1][..n];
      assert s1.chain[..n] == s1.chain[..|s1.chain| - 1][..n];
    }
  }

  // ---------------------------------------------------------------- the transaction store

  /** Every stored transaction is in exactly one of the three groups. */
  ghost predicate OneGroup(db: TrxDb) {
    && (forall k :: k in db ==> k.group == PENDING || k.group == HEAD || k.group == APPLIED)
    && (forall k, j :: k in db && j in db && k.hash == j.hash ==> k == j)
  }

  /** Whatever `a` has stored, `b` has under the same hash. */
  ghost predicate Keeps(a: TrxDb, b: TrxDb) {
    forall k :: k in a ==>
      exists j :: j in b && j.hash == k.hash && b[j] == a[k]
  }

  lemma KeepsTransitive(a: TrxDb, b: TrxDb, c: TrxDb)
    requires Keeps(a, b) && Keeps(b, c)
    ensures Keeps(a, c)
  {}

  lemma MoveOneKeeps(db: TrxDb, h: Hash, from: int, to: int)
    requires OneGroup(db) && from != to && 0 <= to <= 2
    ensures OneGroup(MoveOne(db, h, from, to)) && Keeps(db, MoveOne(db, h, from, to))
  {
    var db' := MoveOne(db, h, from, to);
    forall k | k in db
      ensures exists j :: j in db' && j.hash == k.hash && db'[j] == db[k]
    {
      if TrxKey(from, h) in db && k.hash == h {
        assert k == TrxKey(from, h);
        assert TrxKey(to, h) in db';
      } else {
        assert k in db';
      }
    }
  }

  lemma {:induction false} MoveListKeeps(db: TrxDb, list: seq<Hash>, from: int, to: int)
    requires OneGroup(db) && from != to && 0 <= to <= 2
    ensures OneGroup(MoveList(db, list, from, to)) && Keeps(db, MoveList(db, list, from, to))
    decreases |list|
  {
    hide OneGroup, MoveOne;
    if list != [] {
      MoveOneKeeps(db, list[0], from, to);
      MoveListKeeps(MoveOne(db, list[0], from, to), list[1..], from, to);
    }
  }

  lemma MovedTo(db: TrxDb, from: int, to: int, k: TrxKey)
    requires OneGroup(db) && from != to && k in db
    ensures var j := if k.group == from then TrxKey(to, k.hash) else k;
      j in MoveGroup(db, from, to) && MoveGroup(db, from, to)[j] == db[k]
  {}

  lemma MovedFrom(db: TrxDb, from: int, to: int, j: TrxKey)
    requires j in MoveGroup(db, from, to)
    ensures var k := if j in db && j.group != from then j else TrxKey(from, j.hash);
      k in db && (k == j || j.group == to)
  {}

  lemma MoveGroupOneGroup(db: TrxDb, from: int, to: int)
    requires OneGroup(db) && from != to && 0 <= to <= 2
    ensures OneGroup(MoveGroup(db, from, to))
  {
    var db' := MoveGroup(db, from, to);
    forall k | k in db'
      ensures k.group == PENDING || k.group == HEAD || k.group == APPLIED
    {
      MovedFrom(db, from, to, k);
    }
    forall k, j | k in db' && j in db' && k.hash == j.hash
      ensures k == j
    {
      MovedFrom(db, from, to, k);
      MovedFrom(db, from, to, j);
    }
    hide MoveGroup;
  }

  lemma MoveGroupKeeps(db: TrxDb, from: int, to: int)
    requires OneGroup(db) && from != to && 0 <= to <= 2
    ensures OneGroup(MoveGroup(db, from, to)) && Keeps(db, MoveGroup(db, from, to))
  {
    hide MoveGroup;
    MoveGroupOneGroup(db, from, to);
    forall k | k in db
      ensures exists j :: j in MoveGroup(db, from, to) && j.hash == k.hash && MoveGroup(db, from, to)[j] == db[k]
    {
      MovedTo(db, from, to, k);
    }
    hide OneGroup;
  }

  lemma StoreKeeps(e: Env, db: TrxDb, t: SignedTrx)
    requires OneGroup(db)
    ensures OneGroup(Store(e, db, t)) && Keeps(db, Store(e, db, t)) && Knows(Store(e, db, t), e.signedHash(t))
  {
    var db' := Store(e, db, t);
    forall k | k in db
      ensures exists j :: j in db' && j.hash == k.hash && db'[j] == db[k]
    {
      assert k in db';
    }
  }

  lemma {:induction false} StoreAllKeeps(e: Env, db: TrxDb, ts: seq<SignedTrx>)
    requires OneGroup(db)
    ensures OneGroup(StoreAll(e, db, ts)) && Keeps(db, StoreAll(e, db, ts))
    decreases |ts|
  {
    hide OneGroup, Store;
    if ts != [] {
      StoreKeeps(e, db, ts[0]);
      StoreAllKeeps(e, Store(e, db, ts[0]), ts[1..]);
    }
  }

  lemma KeepsReflexive(db: TrxDb)
    ensures Keeps(db, db)
  {}

  /** What a handler owes the store. */
  ghost predicate StoreKept(a: TrxDb, b: TrxDb) {
    OneGroup(b) && Keeps(a, b)
  }

  lemma AppendKeepsStore(e: Env, s: NodeState, blk: Block, bs: BlockState)
    requires OneGroup(s.trxs)
    ensures StoreKept(s.trxs, Append(e, s, blk, bs).0.trxs)
  {
    hide OneGroup, Keeps, Validates, TryApply, MoveList, MoveGroup, GetTransactions;
    KeepsReflexive(s.trxs);
    MoveGroupKeeps(s.trxs, HEAD, APPLIED);
    var db := MoveGroup(s.trxs, HEAD, APPLIED);
    MoveListKeeps(db, bs.trxs, PENDING, HEAD);
    KeepsTransitive(s.trxs, db, MoveList(db, bs.trxs, PENDING, HEAD));
  }

  lemma ReplaceKeepsStore(e: Env, s: NodeState, blk: Block, bs: BlockState)
    requires s.chain != [] && OneGroup(s.trxs)
    ensures StoreKept(s.trxs, Replace(e, s, blk, bs).0.trxs)
  {
    hide OneGroup, Keeps, Validates, TryApply, MoveList, GetTransactions;
    KeepsReflexive(s.trxs);
    MoveListKeeps(s.trxs, bs.trxs, HEAD, PENDING);
    var db := MoveList(s.trxs, bs.trxs, HEAD, PENDING);
    MoveListKeeps(db, bs.trxs, PENDING, HEAD);
    KeepsTransitive(s.trxs, db, MoveList(db, bs.trxs, PENDING, HEAD));
  }

  lemma AddBlockKeepsStore(e: Env, s: NodeState, blk: Block, now: u32)
    requires OneGroup(s.trxs)
    ensures StoreKept(s.trxs, AddBlock(e, s, blk, now).0.trxs)
  {
    hide OneGroup, Keeps, Append, Replace;
    KeepsReflexive(s.trxs);
    if s.chain != [] && blk.state in s.states {
      AppendKeepsStore(e, s, blk, s.states[blk.state]);
      ReplaceKeepsStore(e, s, blk, s.states[blk.state]);
    }
  }

  lemma AddFullBlockKeepsStore(e: Env, s: NodeState, fbs: FullBlock, now: u32)
    requires OneGroup(s.trxs)
    ensures StoreKept(s.trxs, AddFullBlock(e, s, fbs, now).0.trxs)
  {
    hide OneGroup, Keeps, AddBlock, StoreAll, ApplyBlock;
    var s1 := s.(trxs := StoreAll(e, s.trxs, fbs.trxs), states := s.states[fbs.blk.state := fbs.state]);
    StoreAllKeeps(e, s.trxs, fbs.trxs);
    AddBlockKeepsStore(e, s1, fbs.blk, now);
    KeepsTransitive(s.trxs, s1.trxs, AddBlock(e, s1, fbs.blk, now).0.trxs);
  }

  lemma SubmitKeepsStore(e: Env, s: NodeState, t: SignedTrx)
    requires OneGroup(s.trxs)
    ensures StoreKept(s.trxs, AddTransaction(e, s, t).0.trxs)
  {
    assert AddTransaction(e, s, t).0.trxs == s.trxs || AddTransaction(e, s, t).0.trxs == Store(e, s.trxs, t);
    hide OneGroup, Keeps, Store, AddTransaction;
    KeepsReflexive(s.trxs);
    StoreKeeps(e, s.trxs, t);
  }

  lemma BuildKeepsStore(e: Env, s: NodeState, gen: string, order: seq<Entry>, now: u32)
    requires s.chain != []
    ensures Candidate(e, s, gen, order, now).0.trxs == s.trxs
  {
    hide Select;
  }

  /** Every handler, whatever its outcome, keeps each stored transaction in exactly one group. */
  lemma NextKeepsStore(e: Env, s: NodeState, step: NodeStep)
    requires OneGroup(s.trxs)
    ensures StoreKept(s.trxs, Next(e, s, step).trxs)
  {
    hide OneGroup, Keeps, AddBlock, AddFullBlock, AddTransaction, Candidate;
    KeepsReflexive(s.trxs);
    match step
    case Deliver(blk, now) => AddBlockKeepsStore(e, s, blk, now);
    case DeliverFull(fbs, now) => AddFullBlockKeepsStore(e, s, fbs, now);
    case Submit(t) => SubmitKeepsStore(e, s, t);
    case Build(gen, order, now) =>
      if s.chain != [] {
        BuildKeepsStore(e, s, gen, order, now);
      }
  }

  /** No accepted transaction is ever lost from the store, over every run. */
  lemma {:induction false} StoreOverRuns(e: Env, s: NodeState, steps: seq<NodeStep>)
    requires OneGroup(s.trxs)
    ensures StoreKept(s.trxs, Run(e, s, steps).trxs)
    decreases |steps|
  {
    hide OneGroup, Keeps, Next;
    KeepsReflexive(s.trxs);
    if steps != [] {
      var s1 := Next(e, s, steps[0]);
      NextKeepsStore(e, s, steps[0]);
      StoreOverRuns(e, s1, steps[1..]);
      KeepsTransitive(s.trxs, s1.trxs, Run(e, s, steps).trxs);
    }
  }
}
