/** The node as a state machine (libs/gpm/node/node.cpp): what each handler does to the chain, to the
    ledger views of its layers, and to the transaction store. */
module NodeSpec {
  import opened Common
  import opened BlockChain
  import opened Records
  import opened Ledger

  // ---------------------------------------------------------------- the transaction store

  const PENDING := 0
  const HEAD := 1
  const APPLIED := 2

  datatype TrxKey = TrxKey(group: int, hash: Hash)

  type TrxDb = map<TrxKey, SignedTrx>

  /** Lines 106-122: all the transactions of a list, or none when one of them is missing. */
  function Fetch(db: TrxDb, list: seq<Hash>, group: int): (r: Option<seq<SignedTrx>>)
    ensures r.Some? ==> |r.value| == |list| && forall i :: 0 <= i < |list| ==>
      TrxKey(group, list[i]) in db && r.value[i] == db[TrxKey(group, list[i])]
    ensures r.None? ==> exists i :: 0 <= i < |list| && TrxKey(group, list[i]) !in db
  {
    if list == [] then Some([])
    else
      var k := TrxKey(group, list[|list| - 1]);
      assert list[|list| - 1] == k.hash;
      if k !in db then None
      else
        match Fetch(db, list[..|list| - 1], group)
        case None => None
        case Some(s) => Some(s + [db[k]])
  }

  function GetTransactions(db: TrxDb, list: seq<Hash>, group: int): seq<SignedTrx> {
    match Fetch(db, list, group) case Some(s) => s case None => []
  }

  function MoveOne(db: TrxDb, h: Hash, from: int, to: int): TrxDb {
    if TrxKey(from, h) in db then db[TrxKey(to, h) := db[TrxKey(from, h)]] - {TrxKey(from, h)} else db
  }

  /** Lines 139-157: those of the list that are in the group `from`. */
  function MoveList(db: TrxDb, list: seq<Hash>, from: int, to: int): TrxDb
    decreases |list|
  {
    if list == [] then db else MoveList(MoveOne(db, list[0], from, to), list[1..], from, to)
  }

  /** Lines 123-138: the whole group `from`. */
  function MoveGroup(db: TrxDb, from: int, to: int): TrxDb {
    (map k | k in db && k.group != from :: db[k])
    + (map k | k in db && k.group == from :: TrxKey(to, k.hash) := db[k])
  }

  predicate Knows(db: TrxDb, h: Hash) {
    TrxKey(PENDING, h) in db || TrxKey(HEAD, h) in db || TrxKey(APPLIED, h) in db
  }

  /** A transaction enters as pending unless one of the groups has it. */
  function Store(e: Env, db: TrxDb, t: SignedTrx): TrxDb {
    if Knows(db, e.signedHash(t)) then db else db[TrxKey(PENDING, e.signedHash(t)) := t]
  }

  function StoreAll(e: Env, db: TrxDb, ts: seq<SignedTrx>): TrxDb
    decreases |ts|
  {
    if ts == [] then db else StoreAll(e, Store(e, db, ts[0]), ts[1..])
  }

  // ---------------------------------------------------------------- the state of a node

  datatype FullBlock = FullBlock(index: int, headIndex: int, blk: Block, state: BlockState, trxs: seq<SignedTrx>)

  /** A block together with everything its application used. */
  datatype Played = Played(blk: Block, gen: string, trxs: seq<SignedTrx>, check: Hash)

  /** `base`, `head` and `gen` are the views of the three layers, `disk` is the log the file holds,
      `saved` the chain file; `hist` records, for the held chain, what was applied. */
  datatype NodeState = NodeState(
    chain: seq<Block>, base: Log, head: Log, gen: Log,
    trxs: TrxDb, states: map<Hash, BlockState>,
    saved: Option<seq<Block>>, disk: Log, hist: seq<Played>)

  const FRESH_NODE := NodeState([], Empty, Empty, Empty, map[], map[], None, Empty, [])

  function LastBlockOf(s: NodeState): Block
    requires s.chain != []
  {
    s.chain[|s.chain| - 1]
  }

  /** Fetching a block's transactions and applying them on `parent`: the log left, and whether it is accepted. */
  function TryApply(e: Env, parent: Log, blk: Block, bs: BlockState, db: TrxDb): Option<Outcome> {
    var strxs := GetTransactions(db, bs.trxs, PENDING);
    if |strxs| != |bs.trxs| then None
    else Some(ApplyBlock(e, parent, blk, bs.generator, strxs, bs.stateDb))
  }

  predicate Accepts(o: Option<Outcome>) {
    o.Some? && o.value.status.Applied?
  }

  function PlayedBlock(blk: Block, bs: BlockState, db: TrxDb): Played {
    Played(blk, bs.generator, GetTransactions(db, bs.trxs, PENDING), bs.stateDb)
  }

  /** Lines 674-738: the block follows the head. */
  function Append(e: Env, s: NodeState, blk: Block, bs: BlockState): (NodeState, int) {
    if !Validates(e.blockHash, s.chain + [blk]) then (s, -3)
    else
      var o := TryApply(e, s.head, blk, bs, s.trxs);
      if !Accepts(o) then (s, -3)
      else
        (s.(chain := s.chain + [blk], base := s.head, head := o.value.log, gen := o.value.log,
            trxs := MoveList(MoveGroup(s.trxs, HEAD, APPLIED), bs.trxs, PENDING, HEAD),
            saved := Some(s.chain), disk := s.head,
            hist := s.hist + [PlayedBlock(blk, bs, s.trxs)]), 1)
  }

  function WithHead<T>(s: seq<T>, x: T): seq<T>
    requires s != []
  {
    s[..|s| - 1] + [x]
  }

  /** Lines 739-791: the block is a sibling of the head.  `get_head_transactions` runs after the head
      was overwritten, so the list moved out of the head group and back is the new block's. */
  function Replace(e: Env, s: NodeState, blk: Block, bs: BlockState): (NodeState, int)
    requires s.chain != []
  {
    if e.blockHash(blk) >= e.blockHash(LastBlockOf(s)) then (s, -3)
    else if !Validates(e.blockHash, WithHead(s.chain, blk)) then (s, -3)
    else
      var db := MoveList(s.trxs, bs.trxs, HEAD, PENDING);
      var o := TryApply(e, s.base, blk, bs, db);
      var db' := MoveList(db, bs.trxs, PENDING, HEAD);
      if !Accepts(o) then (s.(trxs := db'), -3)
      else
        (s.(chain := WithHead(s.chain, blk), head := o.value.log, gen := o.value.log, trxs := db',
            hist := if s.hist == [] then [] else WithHead(s.hist, PlayedBlock(blk, bs, db))), 1)
  }

  /** Lines 648-798; `now` is the clock in seconds. */
  function AddBlock(e: Env, s: NodeState, blk: Block, now: u32): (NodeState, int) {
    if s.chain == [] then (s, 0)
    else if blk.state !in s.states then (s, -1)
    else if blk.utcTime > (now + 30) % TWO_32 then (s, -1)
    else if blk.prevBlock == e.blockHash(LastBlockOf(s)) then Append(e, s, blk, s.states[blk.state])
    else if blk.prevBlock == LastBlockOf(s).prevBlock then Replace(e, s, blk, s.states[blk.state])
    else (s, -1)
  }

  /** The first block of an empty chain is kept whether or not it can be applied. */
  function Genesis(e: Env, s: NodeState, blk: Block, gen: string, check: Hash): NodeState {
    var o := ApplyBlock(e, s.head, blk, gen, [], check);
    s.(chain := [blk], head := o.log, gen := o.log,
       hist := if o.status.Applied? then [Played(blk, gen, [], check)] else [])
  }

  /** Lines 591-645, up to restarting the generation of a block. */
  function AddFullBlock(e: Env, s: NodeState, fbs: FullBlock, now: u32): (NodeState, int) {
    var s1 := s.(trxs := StoreAll(e, s.trxs, fbs.trxs), states := s.states[fbs.blk.state := fbs.state]);
    if s.chain == [] && fbs.index == 0 then
      (Genesis(e, s1, fbs.blk, fbs.state.generator, fbs.state.stateDb), 1)
    else AddBlock(e, s1, fbs.blk, now)
  }

  /** Lines 568-589, up to building the next candidate. */
  function AddTransaction(e: Env, s: NodeState, t: SignedTrx): (NodeState, int) {
    if Knows(s.trxs, e.signedHash(t)) then (s, -1)
    else (s.(trxs := Store(e, s.trxs, t)), 0)
  }

  // ---------------------------------------------------------------- candidate blocks

  /** A pending transaction with its key in the store. */
  datatype Entry = Entry(hash: Hash, trx: SignedTrx)

  /** Lines 243-259: each transaction runs in a layer of its own that is kept only when it succeeds. */
  function Select(e: Env, l: Log, order: seq<Entry>, gen: string): (Log, seq<Entry>)
    decreases |order|
  {
    if order == [] then (l, [])
    else
      var o := ApplyTrx(e, l, order[0].trx, gen);
      if o.status.Applied? then
        var (l', rest) := Select(e, o.log, order[1..], gen); (l', [order[0]] + rest)
      else Select(e, l, order[1..], gen)
  }

  function Hashes(es: seq<Entry>): seq<Hash> {
    seq(|es|, i requires 0 <= i < |es| => es[i].hash)
  }

  function Trxs(es: seq<Entry>): seq<SignedTrx> {
    seq(|es|, i requires 0 <= i < |es| => es[i].trx)
  }

  predicate SortedByTime(es: seq<Entry>) {
    forall i, j :: 0 <= i < j < |es| ==> es[i].trx.utcTime <= es[j].trx.utcTime
  }

  /** `order` lists exactly the pending transactions, each once, oldest first; ties in any order. */
  ghost predicate PendingInOrder(db: TrxDb, order: seq<Entry>) {
    && SortedByTime(order)
    && (forall i, j :: 0 <= i < j < |order| ==> order[i].hash != order[j].hash)
    && (forall i :: 0 <= i < |order| ==>
          TrxKey(PENDING, order[i].hash) in db && db[TrxKey(PENDING, order[i].hash)] == order[i].trx)
    && (forall k :: k in db && k.group == PENDING ==> exists i :: 0 <= i < |order| && order[i].hash == k.hash)
  }

  /** Lines 194-215: on an empty chain a first block is mined; `b` is what mining left. */
  function GenerateGenesis(e: Env, s: NodeState, gen: string, b: Block, found: bool): NodeState {
    var bs := GenesisState(e, s, gen);
    var s1 := if found then Genesis(e, s, b, gen, bs.stateDb)
              else s.(chain := [b], gen := s.head, hist := []);
    s1.(states := s.states[b.state := bs])
  }

  function GenesisState(e: Env, s: NodeState, gen: string): BlockState {
    BlockState(0, gen, StateHash(e, Bytes(e, s.base)), [])
  }

  /** The state of the block that the next candidate describes. */
  function CandidateState(e: Env, s: NodeState, gen: string, order: seq<Entry>): BlockState {
    var (l, chosen) := Select(e, s.head, order, gen);
    BlockState(|s.chain| % TWO_32, gen, StateHash(e, Bytes(e, l)), Hashes(chosen))
  }

  /** Lines 217-287 on a chain that has a head. */
  function Candidate(e: Env, s: NodeState, gen: string, order: seq<Entry>, now: u32): (NodeState, Block)
    requires s.chain != []
  {
    var bs := CandidateState(e, s, gen, order);
    var b := Block(e.blockHash(LastBlockOf(s)), 0, (now + SECONDS_PER_BLOCK) % TWO_32, e.stateHash(bs), 0);
    (s.(gen := Select(e, s.head, order, gen).0, states := s.states[b.state := bs]), b)
  }

  // ---------------------------------------------------------------- serving blocks

  function FindTrx(db: TrxDb, h: Hash): Option<SignedTrx> {
    if TrxKey(PENDING, h) in db then Some(db[TrxKey(PENDING, h)])
    else if TrxKey(HEAD, h) in db then Some(db[TrxKey(HEAD, h)])
    else if TrxKey(APPLIED, h) in db then Some(db[TrxKey(APPLIED, h)])
    else if TrxKey(3, h) in db then Some(db[TrxKey(3, h)])
    else None
  }

  function FindAll(db: TrxDb, list: seq<Hash>): Result<seq<SignedTrx>>
    decreases |list|
  {
    if list == [] then Ok([])
    else
      match (FindTrx(db, list[0]), FindAll(db, list[1..]))
      case (Some(t), Ok(ts)) => Ok([t] + ts)
      case _ => Err
  }

  const NO_STATE := BlockState(0, "", 0, [])
  const NO_BLOCK := FullBlock(-1, -1, DEFAULT_BLOCK, NO_STATE, [])

  /** Lines 468-508.  A request beyond the head is answered by an empty block; on an empty chain the
      comparison with -1 is unsigned, so the request throws instead. */
  function GetFullBlock(s: NodeState, index: u32): Result<FullBlock> {
    if s.chain != [] && index > |s.chain| - 1 then Ok(NO_BLOCK)
    else if index >= |s.chain| then Err
    else
      var b := s.chain[index];
      if b.state !in s.states then Err
      else
        match FindAll(s.trxs, s.states[b.state].trxs)
        case Ok(ts) => Ok(FullBlock(index, |s.chain| - 1, b, s.states[b.state], ts))
        case Err => Err
  }
}
