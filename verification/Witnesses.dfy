/** A concrete node on which the failures described elsewhere happen: their hypotheses can be met. */
module Witnesses {
  import opened Common
  import opened BlockChain
  import opened Records
  import opened Ledger
  import opened NodeSpec
  import opened NodeRuns
  import opened StoreMoves
  import opened Siblings
  import opened CatchUp
  import opened Serving
  import opened Replays

  // ---------------------------------------------------------------- a small world

  function NonceHash(b: Block): Hash {
    b.nonce
  }

  function TimeHash(t: SignedTrx): Hash {
    t.utcTime
  }

  function IndexHash(bs: BlockState): Hash {
    bs.index
  }

  function Zero<T>(x: T): Hash {
    0
  }

  /** Hashes that can be read off: the nonce of a block, the time of a transaction, the index of a block state. */
  function World(): Env {
    Env(_ => [], (_, _) => None, Zero, Zero, Zero, TimeHash, NonceHash, IndexHash,
        (_, _) => true, _ => "", _ => false, [])
  }

  const NO_LIST := BlockState(1, "", 0, [])
  const IDLE_LIST := BlockState(2, "", 0, [0])
  const NOBODY := BlockState(0, "", 0, [])

  const FIRST := Block(0, 0, 15, 0, 9)
  const LOW := Block(9, 0, 15, 1, 1)
  const HIGH := Block(9, 0, 15, 2, 2)
  const NEXT := Block(1, 0, 15, 1, 3)
  const OTHER_FIRST := Block(0, 0, 15, 2, 4)

  /** A fresh node that knows one pending transaction and three block states. */
  function Opened(): NodeState {
    FRESH_NODE.(trxs := map[TrxKey(PENDING, 0) := IDLE], states := map[0 := NOBODY, 1 := NO_LIST, 2 := IDLE_LIST])
  }

  /** The same after its first block. */
  function Started(): NodeState {
    Genesis(World(), Opened(), FIRST, "", 0)
  }

  lemma WorldHashes()
    ensures forall b: Block :: World().blockHash(b) == b.nonce
    ensures World().signedHash(IDLE) == 0
    ensures forall s: bytes :: StateHash(World(), s) == 0
  {
    hide ChunkHashes;
  }

  lemma StartedFacts()
    ensures var s := Started();
      && s.chain == [FIRST] && |s.hist| == 1 && s.base == Empty &&
         s.trxs == Opened().trxs && s.states == Opened().states
      && ServesAll(World(), s) && OneGroup(s.trxs) && KeyedByHash(World(), s.trxs) && Agrees(World(), s)
  {
    WorldHashes();
    var s := Opened();
    assert s.states[FIRST.state] == NOBODY;
    assert OneGroup(s.trxs) && KeyedByHash(World(), s.trxs);
    FirstBlock(World(), Played(FIRST, "", [], 0));
    GenesisServes(World(), s, FIRST);
    hide World, StateHash, ServesBlock, Replay, Validates;
  }

  /** Blocks of this world are valid on top of a valid chain when they are linked and late enough. */
  lemma Extends(bc: seq<Block>, b: Block)
    requires Validates(World().blockHash, bc) && b.utcTime >= 15
    requires b.prevBlock == if bc == [] then 0 else bc[|bc| - 1].nonce
    ensures Validates(World().blockHash, bc + [b])
  {
    WorldHashes();
    ValidateIncremental(World().blockHash, bc, b);
    hide World, Validates;
  }

  lemma NoneIsValid()
    ensures Validates(World().blockHash, [])
  {}

  /** In this world every checksum is 0, so a block is accepted when its transactions are. */
  lemma Passes(l: Log, b: Block, trxs: seq<SignedTrx>)
    requires trxs == [] || trxs == [IDLE]
    ensures ApplyBlock(World(), l, b, "", trxs, 0).status.Applied?
  {
    WorldHashes();
    var o := ApplyTrx(World(), l, IDLE, "");
    assert o.status.Applied?;
    hide World, StateHash, ApplyTrx;
    if trxs == [IDLE] {
      assert trxs[1..] == [];
      assert ApplyTrxs(World(), o.log, [], "") == Outcome(o.log, Applied);
    }
    assert ApplyTrxs(World(), l, trxs, "").status.Applied?;
  }

  lemma PassesTry(l: Log, b: Block, bs: BlockState, db: TrxDb)
    requires bs == NO_LIST || (bs == IDLE_LIST && TrxKey(PENDING, 0) in db && db[TrxKey(PENDING, 0)] == IDLE)
    ensures Accepts(TryApply(World(), l, b, bs, db))
    ensures |GetTransactions(db, bs.trxs, PENDING)| == |bs.trxs|
  {
    if bs == IDLE_LIST {
      assert [0][..0] == [];
      assert Fetch(db, [], PENDING) == Some([]) && [] + [IDLE] == [IDLE];
      assert Fetch(db, [0], PENDING) == Some([IDLE]);
    } else {
      assert Fetch(db, [], PENDING) == Some([]);
    }
    Passes(l, b, GetTransactions(db, bs.trxs, PENDING));
    hide World, ApplyBlock, Fetch;
  }

  lemma FirstChain()
    ensures Validates(World().blockHash, [FIRST])
  {
    NoneIsValid();
    Extends([], FIRST);
    assert [] + [FIRST] == [FIRST];
    hide World, Validates;
  }

  lemma SiblingAcceptable(b: Block)
    requires b == LOW || b == HIGH
    ensures Acceptable(World(), Started(), Delivery(b, 0))
  {
    WorldHashes();
    StartedFacts();
    FirstChain();
    Extends([FIRST], b);
    var s := Started();
    PassesTry(s.head, b, s.states[b.state], s.trxs);
    AppendResult(World(), s, b, s.states[b.state]);
    hide Started, World, Validates, TryApply, Append, ServesAll, Agrees;
  }

  // ---------------------------------------------------------------- the store depends on the order of siblings

  /** Delivered in one order the pending transaction ends in the head group, in the other it stays pending. */
  lemma StoreDependsOnOrderHere()
    ensures var s := Started(); var low, high := Delivery(LOW, 0), Delivery(HIGH, 0);
      && InGroup(DeliverAll(World(), s, [high, low]), HEAD, 0)
      && InGroup(DeliverAll(World(), s, [low, high]), PENDING, 0)
  {
    WorldHashes();
    StartedFacts();
    SiblingAcceptable(LOW);
    SiblingAcceptable(HIGH);
    var s := Started();
    assert s.states[HIGH.state] == IDLE_LIST && s.states[LOW.state] == NO_LIST && InGroup(s, PENDING, 0);
    hide World, Started, DeliverAll, ServesAll, Agrees;
    StoreDependsOnOrder(World(), s, Delivery(LOW, 0), Delivery(HIGH, 0), 0);
  }

  /** The transaction of a replaced head is lost: it ends as applied, and no block of the chain has it. */
  lemma OrphanHere(steps: seq<NodeStep>, blk: Block, now: u32)
    ensures var e, s := World(), Started();
      var s1 := Append(e, s, HIGH, IDLE_LIST).0; s1.chain != [] && var s2 := Replace(e, s1, LOW, NO_LIST).0;
      var s3 := Append(e, s2, NEXT, NO_LIST).0; var s4 := Run(e, s3, steps);
      && s3.chain == [FIRST, LOW, NEXT] && InGroup(s3, APPLIED, 0)
      && (AddBlock(e, s4, blk, now).1 == 1 ==> 0 !in s4.states[blk.state].trxs)
  {
    var e, s := World(), Started();
    WorldHashes();
    StartedFacts();
    SiblingAcceptable(LOW);
    SiblingAcceptable(HIGH);
    assert s.states[HIGH.state] == IDLE_LIST && s.states[LOW.state] == NO_LIST;
    var low, high := Delivery(LOW, 0), Delivery(HIGH, 0);
    FirstIsAppend(e, s, high);
    FirstSibling(e, s, high);
    var s1 := Append(e, s, HIGH, IDLE_LIST).0;
    assert s1 == With(e, s, HIGH);
    hide World, Started, ServesAll, Agrees, Acceptable, With, AddBlock, Append, Replace, Holds, Run;
    HighReplaced(s1);
    ReplacedChain(s1, LOW);
    NextFollows(Replace(e, s1, LOW, NO_LIST).0);
    AppendMovesExactly(e, s, HIGH, IDLE_LIST, 0);
    AppendKeepsStore(e, s, HIGH, IDLE_LIST);
    OrphanIsLost(e, s1, LOW, NO_LIST, NEXT, NO_LIST, 0, steps, blk, now);
  }

  /** The lower sibling takes over. */
  lemma HighReplaced(s1: NodeState)
    requires Acceptable(World(), Started(), Delivery(HIGH, 0)) && Acceptable(World(), Started(), Delivery(LOW, 0))
    requires Holds(World(), Started(), s1, Delivery(HIGH, 0))
    ensures Append(World(), Started(), HIGH, IDLE_LIST).1 == 1
    ensures s1.chain == [FIRST, HIGH] && Replace(World(), s1, LOW, NO_LIST).1 == 1
  {
    var e, s := World(), Started();
    hide Started, ServesAll, Agrees, Append, Replace, Available, Validates;
    WorldHashes();
    StartedFacts();
    assert HIGH.nonce == 2 && LOW.nonce == 1 && e.blockHash(LOW) < e.blockHash(HIGH);
    assert s.states[HIGH.state] == IDLE_LIST && s.states[LOW.state] == NO_LIST;
    assert Append(e, s, HIGH, IDLE_LIST).1 == 1;
    hide World, Holds, Acceptable;
    LowerIsAccepted(e, s, s1, Delivery(HIGH, 0), Delivery(LOW, 0));
    SiblingIsReplace(e, s, s1, Delivery(HIGH, 0), Delivery(LOW, 0));
    assert [FIRST] + [HIGH] == [FIRST, HIGH];
  }

  /** And the next block follows it. */
  lemma NextFollows(s2: NodeState)
    requires s2.chain == [FIRST, LOW]
    ensures var (s3, rc) := Append(World(), s2, NEXT, NO_LIST); rc == 1 && s3.chain == [FIRST, LOW, NEXT]
  {
    FirstChain();
    Extends([FIRST], LOW);
    Extends([FIRST, LOW], NEXT);
    assert [FIRST] + [LOW] == [FIRST, LOW] && [FIRST, LOW] + [NEXT] == [FIRST, LOW, NEXT];
    hide World, Validates, TryApply, Append;
    PassesTry(s2.head, NEXT, NO_LIST, s2.trxs);
    AppendResult(World(), s2, NEXT, NO_LIST);
  }

  lemma ReplacedChain(s1: NodeState, b: Block)
    requires s1.chain == [FIRST, HIGH] && Replace(World(), s1, b, NO_LIST).1 == 1
    ensures Replace(World(), s1, b, NO_LIST).0.chain == [FIRST, b]
  {
    assert WithHead(s1.chain, b) == [FIRST, b];
    hide World, Validates, TryApply, MoveList, WithHead;
  }

  // ---------------------------------------------------------------- a first block that is replaced

  /** The first block is replaced by one with a transaction: a fresh node takes over the chain but not the ledger. */
  lemma OtherFirstHere()
    ensures var e, s := World(), Started(); var peer := AddBlock(e, s, OTHER_FIRST, 0).0;
      && ServesAll(e, s) && !Careful(e, s, Deliver(OTHER_FIRST, 0)) && !ServesAll(e, peer)
      && Agrees(e, peer) && Answers(peer)
      && var s' := AddFullBlock(e, FRESH_NODE, ReplyAt(peer, 0), 0).0; s'.chain == peer.chain && s'.head != peer.head
  {
    var e, s := World(), Started();
    WorldHashes();
    StartedFacts();
    assert s.states[OTHER_FIRST.state] == IDLE_LIST && LastBlockOf(s) == FIRST;
    NoneIsValid();
    Extends([], OTHER_FIRST);
    assert WithHead(s.chain, OTHER_FIRST) == [] + [OTHER_FIRST];
    var db := MoveList(s.trxs, [0], HEAD, PENDING);
    MoveListAt(s.trxs, [0], HEAD, PENDING, TrxKey(PENDING, 0));
    PassesTry(s.base, OTHER_FIRST, IDLE_LIST, db);
    hide Started, World, Validates, TryApply, MoveList, WithHead;
    assert Reached(e, s, OTHER_FIRST);
    assert TakesOver(e, s, OTHER_FIRST, 0);
    hide ServesAll, Agrees, TakesOver, AddBlock, Answers, AddFullBlock, Reached;
    FirstWithListIsNotServed(e, s, OTHER_FIRST, 0);
    ReplacedFirstIsNotFollowed(e, s, OTHER_FIRST, 0, FRESH_NODE, 0);
  }

  /** A refused reply makes the node of this world unable to serve its first block. */
  lemma RefusedReplyHere()
    ensures var e, s := World(), Started();
      var fbs := FullBlock(0, 0, Unrelated(e, s, 0), NOBODY.(generator := "x"), []);
      var (s', rc) := AddFullBlock(e, s, fbs, 0);
      rc == -1 && s'.chain == s.chain && ServesAll(e, s) && !ServesAll(e, s')
  {
    StartedFacts();
    var e, s := World(), Started();
    RefusedReplyBreaksServing(e, s, 0, 0);
    assert s.states[s.chain[0].state] == NOBODY && NOBODY.generator + "x" == "x";
    hide World, Started, AddFullBlock, ServesBlock, Agrees;
  }

  // ---------------------------------------------------------------- a list that names a transaction twice

  /** A node of this world accepts a block that applies its pending transaction twice. */
  lemma TwiceHere()
    ensures var e, s := World(), Started(); var b := Block(9, 0, 15, 5, 1);
      var (s', rc) := AddBlock(e, s.(states := s.states[b.state := TwiceListed(e, s, "")]), b, 0);
      rc == 1 && Tracked(e, s) && OnceEach(e, s.hist) && !OnceEach(e, s'.hist)
  {
    var e, s, b := World(), Started(), Block(9, 0, 15, 5, 1);
    hide Started, Validates, TwiceListed, AddBlock, Agrees, FindAll, FindTrx, OneGroup, KeyedByHash;
    WorldHashes();
    StartedFacts();
    FirstChain();
    assert LastBlockOf(s) == FIRST && e.blockHash(FIRST) == 9;
    assert ListAt(s, 0) == [] && ServesBlock(e, s, 0) && s.hist[0].trxs == [];
    hide World, ServesBlock;
    Extends([FIRST], b);
    TwiceListedIsAppliedTwice(e, s, b, "", 0);
  }
}
