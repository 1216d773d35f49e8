/** The catch-up protocol: a node asks a peer for the block after its head until a reply brings nothing new
    (libs/gpm/node/server.cpp:5-12, 43-68; libs/gpm/node/node.cpp:454-508, 591-645). */
module CatchUp {
  import opened Common
  import opened BlockChain
  import opened Records
  import opened Ledger
  import opened NodeSpec
  import opened NodeRuns
  import opened StoreMoves

  /** Chain lengths are bounded by the 32-bit head index. */
  const INT32: nat := 0x7fff_ffff

  // ---------------------------------------------------------------- the conversation

  function HeadValue(e: Env, s: NodeState): nat {
    if s.chain == [] then 0 else e.blockHash(LastBlockOf(s))
  }

  /** An accepted full block makes the chain longer or lowers the hash of its head. */
  lemma FullBlockProgress(e: Env, s: NodeState, fbs: FullBlock, now: u32)
    requires AddFullBlock(e, s, fbs, now).1 > 0
    ensures var s' := AddFullBlock(e, s, fbs, now).0;
      |s'.chain| == |s.chain| + 1 || (|s'.chain| == |s.chain| && HeadValue(e, s') < HeadValue(e, s))
  {
    if s.chain != [] {
      NextProgress(e, s, DeliverFull(fbs, now));
      AcceptedChanges(e, s.(trxs := StoreAll(e, s.trxs, fbs.trxs),
                      states := s.states[fbs.blk.state := fbs.state]), fbs.blk, now);
    }
    hide AddBlock, StoreAll, ApplyBlock;
  }

  lemma AcceptedChanges(e: Env, s: NodeState, blk: Block, now: u32)
    requires s.chain != [] && AddBlock(e, s, blk, now).1 > 0
    ensures var s' := AddBlock(e, s, blk, now).0;
      |s'.chain| == |s.chain| + 1 || (|s'.chain| == |s.chain| && HeadValue(e, s') < HeadValue(e, s))
  {
    hide Validates, TryApply, MoveList, MoveGroup, GetTransactions;
  }

  /** Requests and replies until nothing more is asked for: the node's last state and the number of replies.
      It ends with any peer, since every accepted reply makes progress; `clock` is read once for every reply. */
  function Converse(e: Env, peer: NodeState, s: NodeState, clock: nat -> u32, t: nat): (NodeState, nat)
    requires |peer.chain| < INT32 && |s.chain| < INT32
    decreases Max(|peer.chain|, |s.chain|) - |s.chain|, HeadValue(e, s)
  {
    match GetFullBlock(peer, |s.chain|)
    case Err => (s, 0)
    case Ok(fbs) =>
      var (s', rc) := AddFullBlock(e, s, fbs, clock(t));
      if rc > 0 && fbs.headIndex > fbs.index then
        FullBlockProgress(e, s, fbs, clock(t));
        var (last, n) := Converse(e, peer, s', clock, t + 1);
        (last, n + 1)
      else (s', 1)
  }

  // ---------------------------------------------------------------- an honest peer and its follower

  /** The transactions of the i-th block of the peer's chain. */
  function ListAt(peer: NodeState, i: nat): seq<Hash>
    requires i < |peer.chain|
  {
    if peer.chain[i].state in peer.states then peer.states[peer.chain[i].state].trxs else []
  }

  /** What the peer stores for a block is what its ledger applied. */
  ghost predicate ServesBlock(e: Env, peer: NodeState, i: nat)
    requires i < |peer.chain| && |peer.hist| == |peer.chain|
  {
    var b, list := peer.chain[i], ListAt(peer, i);
    && b.state in peer.states
    && (forall h :: h in list ==> FindTrx(peer.trxs, h).Some? && e.signedHash(FindTrx(peer.trxs, h).value) == h)
    && FindAll(peer.trxs, list).Ok?
    && peer.hist[i] == Played(b, peer.states[b.state].generator,
                              if i == 0 then [] else FindAll(peer.trxs, list).value, peer.states[b.state].stateDb)
  }

  ghost predicate Honest(e: Env, peer: NodeState) {
    && Agrees(e, peer)
    && (forall i: nat :: i < |peer.chain| ==> ServesBlock(e, peer, i))
    && (forall i: nat, j: nat, h :: i < j < |peer.chain| && h in ListAt(peer, i) ==> h !in ListAt(peer, j))
  }

  /** Transactions still to come are unknown to the follower, or pending as the peer has them. */
  ghost predicate Ready(peer: NodeState, db: TrxDb, k: nat) {
    forall i: nat, h :: k <= i < |peer.chain| && h in ListAt(peer, i) ==> OpenFor(peer, db, h)
  }

  predicate OpenFor(peer: NodeState, db: TrxDb, h: Hash) {
    && TrxKey(HEAD, h) !in db && TrxKey(APPLIED, h) !in db
    && (TrxKey(PENDING, h) in db ==> EntryAt(db, TrxKey(PENDING, h)) == FindTrx(peer.trxs, h))
  }

  /** The follower's chain is a prefix, possibly empty, of the peer's. */
  ghost predicate Follows(e: Env, peer: NodeState, s: NodeState) {
    var k := |s.chain|;
    && k <= |peer.chain| == |peer.hist| && s.chain == peer.chain[..k] && s.hist == peer.hist[..k]
    && (if k == 0 then s == FRESH_NODE.(trxs := s.trxs, states := s.states) else Agrees(e, s))
    && Ready(peer, s.trxs, k)
  }

  // ---------------------------------------------------------------- one reply

  lemma TakeMore<T>(s: seq<T>, k: nat)
    requires k < |s|
    ensures s[..k + 1] == s[..k] + [s[k]]
  {}

  lemma {:induction false} ReplayOfPrefix(e: Env, hist: seq<Played>, k: nat)
    requires k < |hist| && Replay(e, hist).Some?
    ensures Replay(e, hist[..k]).Some?
    ensures PlayOne(e, Replay(e, hist[..k]).value, hist[k]).status.Applied?
    decreases |hist|
  {
    hide PlayOne;
    var n := |hist| - 1;
    if k < n {
      ReplayOfPrefix(e, hist[..n], k);
      assert hist[..n][..k] == hist[..k];
    }
  }

  lemma {:induction false} FindAllEach(db: TrxDb, list: seq<Hash>)
    requires FindAll(db, list).Ok?
    ensures var ts := FindAll(db, list).value;
      |ts| == |list| && forall j :: 0 <= j < |list| ==> FindTrx(db, list[j]) == Some(ts[j])
    decreases |list|
  {
    hide FindTrx;
    if list != [] {
      FindAllEach(db, list[1..]);
    }
  }

  /** Storing the reply's transactions touches only what is not known. */
  lemma {:induction false} StoreAllAt(e: Env, db: TrxDb, ts: seq<SignedTrx>, h: Hash)
    ensures var db' := StoreAll(e, db, ts);
      && EntryAt(db', TrxKey(HEAD, h)) == EntryAt(db, TrxKey(HEAD, h))
      && EntryAt(db', TrxKey(APPLIED, h)) == EntryAt(db, TrxKey(APPLIED, h))
      && ((TrxKey(PENDING, h) in db || forall t :: t in ts ==> e.signedHash(t) != h) ==>
            EntryAt(db', TrxKey(PENDING, h)) == EntryAt(db, TrxKey(PENDING, h)))
      && (!Knows(db, h) && TrxKey(PENDING, h) in db' ==>
            db'[TrxKey(PENDING, h)] in ts && e.signedHash(db'[TrxKey(PENDING, h)]) == h)
      && (!Knows(db, h) && (exists t :: t in ts && e.signedHash(t) == h) ==> TrxKey(PENDING, h) in db')
    decreases |ts|
  {
    if ts != [] {
      StoreAllAt(e, Store(e, db, ts[0]), ts[1..], h);
    }
  }

  /** After storing a reply, its transactions are pending as the peer has them. */
  lemma ReplyIsStored(e: Env, peer: NodeState, i: nat, db: TrxDb, h: Hash)
    requires i < |peer.chain| == |peer.hist| && ServesBlock(e, peer, i) && OpenFor(peer, db, h)
    ensures var db' := StoreAll(e, db, FindAll(peer.trxs, ListAt(peer, i)).value);
      OpenFor(peer, db', h) && (h in ListAt(peer, i) ==> EntryAt(db', TrxKey(PENDING, h)) == FindTrx(peer.trxs, h))
  {
    var list := ListAt(peer, i);
    var ts := FindAll(peer.trxs, list).value;
    var db' := StoreAll(e, db, ts);
    FindAllEach(peer.trxs, list);
    StoreAllAt(e, db, ts, h);
    hide StoreAll, FindAll, FindTrx;
    if h in list {
      var j :| 0 <= j < |list| && list[j] == h;
      assert ts[j] in ts && e.signedHash(ts[j]) == h;
    }
    if TrxKey(PENDING, h) in db' && TrxKey(PENDING, h) !in db {
      var j :| 0 <= j < |ts| && ts[j] == db'[TrxKey(PENDING, h)];
      assert list[j] in list;
    }
  }

  lemma ReplyIsFetched(e: Env, peer: NodeState, i: nat, db: TrxDb)
    requires i < |peer.chain| == |peer.hist| && ServesBlock(e, peer, i)
    requires forall h :: h in ListAt(peer, i) ==> EntryAt(db, TrxKey(PENDING, h)) == FindTrx(peer.trxs, h)
    ensures Fetch(db, ListAt(peer, i), PENDING) == Some(FindAll(peer.trxs, ListAt(peer, i)).value)
  {
    var list := ListAt(peer, i);
    FindAllEach(peer.trxs, list);
    var r := Fetch(db, list, PENDING);
    hide Fetch, FindAll, FindTrx;
    forall j | 0 <= j < |list|
      ensures TrxKey(PENDING, list[j]) in db
    {
      assert list[j] in list;
    }
    assert r.Some? && r.value == FindAll(peer.trxs, list).value;
  }

  function ReplyAt(peer: NodeState, i: nat): FullBlock
    requires i < |peer.chain| && peer.chain[i].state in peer.states && FindAll(peer.trxs, ListAt(peer, i)).Ok?
  {
    FullBlock(i, |peer.chain| - 1, peer.chain[i], peer.states[peer.chain[i].state],
              FindAll(peer.trxs, ListAt(peer, i)).value)
  }

  /** An honest peer answers every request below its head. */
  lemma PeerReplies(e: Env, peer: NodeState, i: nat)
    requires Honest(e, peer) && i < |peer.chain| < INT32
    ensures ServesBlock(e, peer, i) && GetFullBlock(peer, i) == Ok(ReplyAt(peer, i))
  {
    hide Agrees, FindAll, FindTrx;
  }

  lemma FirstReply(e: Env, peer: NodeState, s: NodeState, now: u32)
    requires Honest(e, peer) && Follows(e, peer, s) && s.chain == [] && |peer.chain| < INT32
    ensures ServesBlock(e, peer, 0)
    ensures var (s', rc) := AddFullBlock(e, s, ReplyAt(peer, 0), now);
      rc == 1 && |s'.chain| == 1 && s'.chain == peer.chain[..1] && s'.hist == peer.hist[..1] && Agrees(e, s')
      && s'.trxs == StoreAll(e, s.trxs, ReplyAt(peer, 0).trxs)
  {
    PeerReplies(e, peer, 0);
    var fbs := ReplyAt(peer, 0);
    var s1 := s.(trxs := StoreAll(e, s.trxs, fbs.trxs), states := s.states[fbs.blk.state := fbs.state]);
    ReplayOfPrefix(e, peer.hist, 0);
    FirstBlock(e, peer.hist[0]);
    GenesisAgrees(e, s1, fbs.blk, fbs.state.generator, fbs.state.stateDb);
    assert PlayOne(e, Empty, peer.hist[0]) == ApplyBlock(e, Empty, fbs.blk, fbs.state.generator, [], fbs.state.stateDb);
    hide ApplyBlock, Replay, PlayOne, StoreAll, FindAll, Agrees, StateHash, Ready, GetFullBlock;
    assert peer.hist[..1] == [peer.hist[0]] && peer.chain[..1] == [peer.chain[0]];
    assert s1.chain == [] &&
      AddFullBlock(e, s, fbs, now) == (Genesis(e, s1, fbs.blk, fbs.state.generator, fbs.state.stateDb), 1);
  }

  /** The next block of the peer's chain follows the follower's head and applies on it. */
  lemma NextReplyApplies(e: Env, peer: NodeState, s: NodeState, db: TrxDb)
    requires Honest(e, peer) && Follows(e, peer, s) && 0 < |s.chain| < |peer.chain| < INT32
    requires ServesBlock(e, peer, |s.chain|)
    requires Fetch(db, ListAt(peer, |s.chain|), PENDING) == Some(FindAll(peer.trxs, ListAt(peer, |s.chain|)).value)
    ensures var b := peer.chain[|s.chain|]; var bs := peer.states[b.state];
      && b.prevBlock == e.blockHash(LastBlockOf(s)) && Validates(e.blockHash, s.chain + [b])
      && Accepts(TryApply(e, s.head, b, bs, db)) && PlayedBlock(b, bs, db) == peer.hist[|s.chain|]
  {
    var k := |s.chain|;
    var b := peer.chain[k];
    FindAllEach(peer.trxs, ListAt(peer, k));
    ReplayOfPrefix(e, peer.hist, k);
    assert Replay(e, s.hist) == Some(s.head);
    assert LinkedAt(e.blockHash, peer.chain, k);
    ValidatePrefixClosed(e.blockHash, peer.chain, k + 1);
    TakeMore(peer.chain, k);
    assert PlayOne(e, s.head, peer.hist[k]) == ApplyBlock(e, s.head, b, peer.states[b.state].generator,
      FindAll(peer.trxs, ListAt(peer, k)).value, peer.states[b.state].stateDb);
    hide ApplyBlock, Replay, Validates, PlayOne, Agrees, Ready, FindAll, FindTrx, Fetch;
  }

  /** A full block that follows the head is appended with its transactions stored. */
  lemma FullBlockAppends(e: Env, s: NodeState, fbs: FullBlock, now: u32)
    requires s.chain != [] && fbs.blk.utcTime <= (now + 30) % TWO_32
    requires fbs.blk.prevBlock == e.blockHash(LastBlockOf(s))
    ensures AddFullBlock(e, s, fbs, now) == Append(e, Received(e, s, fbs), fbs.blk, fbs.state)
  {
    hide Append, StoreAll;
  }

  /** The node with a reply's transactions and block state stored. */
  function Received(e: Env, s: NodeState, fbs: FullBlock): NodeState {
    s.(trxs := StoreAll(e, s.trxs, fbs.trxs), states := s.states[fbs.blk.state := fbs.state])
  }

  /** Everything the next reply needs to be accepted. */
  lemma ReplyFits(e: Env, peer: NodeState, s: NodeState)
    requires Honest(e, peer) && Follows(e, peer, s) && 0 < |s.chain| < |peer.chain| < INT32
    ensures ServesBlock(e, peer, |s.chain|)
    ensures var fbs := ReplyAt(peer, |s.chain|); var s1 := Received(e, s, fbs);
      && fbs.blk.prevBlock == e.blockHash(LastBlockOf(s)) && Validates(e.blockHash, s.chain + [fbs.blk])
      && Accepts(TryApply(e, s.head, fbs.blk, fbs.state, s1.trxs))
      && PlayedBlock(fbs.blk, fbs.state, s1.trxs) == peer.hist[|s.chain|]
  {
    var k := |s.chain|;
    PeerReplies(e, peer, k);
    var db := StoreAll(e, s.trxs, ReplyAt(peer, k).trxs);
    forall h | h in ListAt(peer, k)
      ensures EntryAt(db, TrxKey(PENDING, h)) == FindTrx(peer.trxs, h)
    {
      ReplyIsStored(e, peer, k, s.trxs, h);
    }
    ReplyIsFetched(e, peer, k, db);
    NextReplyApplies(e, peer, s, db);
    hide Agrees, TryApply, Validates, StoreAll, FindAll, FindTrx, GetTransactions, PlayedBlock, GetFullBlock, Fetch;
  }

  lemma LaterReply(e: Env, peer: NodeState, s: NodeState, now: u32)
    requires Honest(e, peer) && Follows(e, peer, s) && 0 < |s.chain| < |peer.chain| < INT32
    requires peer.chain[|s.chain|].utcTime <= (now + 30) % TWO_32
    ensures ServesBlock(e, peer, |s.chain|)
    ensures var k := |s.chain|; var (s', rc) := AddFullBlock(e, s, ReplyAt(peer, k), now);
      && rc == 1 && |s'.chain| == k + 1 && s'.chain == peer.chain[..k + 1] &&
         s'.hist == peer.hist[..k + 1] && Agrees(e, s')
      && s'.trxs ==
         MoveList(MoveGroup(StoreAll(e, s.trxs, ReplyAt(peer, k).trxs), HEAD, APPLIED), ListAt(peer, k), PENDING, HEAD)
  {
    var k := |s.chain|;
    ReplyFits(e, peer, s);
    var fbs := ReplyAt(peer, k);
    var s1 := Received(e, s, fbs);
    AgreesKept(e, s, s1);
    TakeMore(peer.chain, k);
    TakeMore(peer.hist, k);
    assert fbs.state.trxs == ListAt(peer, k) && fbs.blk.utcTime <= (now + 30) % TWO_32;
    assert s1.chain == s.chain && s1.head == s.head && s1.hist == s.hist && s1.trxs == StoreAll(e, s.trxs, fbs.trxs);
    hide *;
    FullBlockAppends(e, s, fbs, now);
    AppendAgrees(e, s1, fbs.blk, fbs.state);
    AppendResult(e, s1, fbs.blk, fbs.state);
  }

  lemma AppendResult(e: Env, s: NodeState, blk: Block, bs: BlockState)
    requires Validates(e.blockHash, s.chain + [blk]) && Accepts(TryApply(e, s.head, blk, bs, s.trxs))
    ensures var (s', rc) := Append(e, s, blk, bs);
      rc == 1 && s'.chain == s.chain + [blk] && s'.hist == s.hist + [PlayedBlock(blk, bs, s.trxs)]
      && s'.trxs == MoveList(MoveGroup(s.trxs, HEAD, APPLIED), bs.trxs, PENDING, HEAD)
  {
    hide Validates, TryApply, MoveList, MoveGroup, PlayedBlock;
  }

  lemma AgreesKept(e: Env, s: NodeState, s': NodeState)
    requires Agrees(e, s) && s' == s.(trxs := s'.trxs, states := s'.states)
    ensures Agrees(e, s')
  {
    hide Replay, Validates, WellFormed, Prefix;
  }

  /** What is still to come stays open when the reply's own list moves. */
  lemma StaysOpen(e: Env, peer: NodeState, k: nat, db: TrxDb, h: Hash)
    requires k < |peer.chain| == |peer.hist| && ServesBlock(e, peer, k) && OpenFor(peer, db, h) && h !in ListAt(peer, k)
    ensures var db1 := StoreAll(e, db, ReplyAt(peer, k).trxs);
      OpenFor(peer, db1, h) && OpenFor(peer, MoveList(MoveGroup(db1, HEAD, APPLIED), ListAt(peer, k), PENDING, HEAD), h)
  {
    var list := ListAt(peer, k);
    var db1 := StoreAll(e, db, ReplyAt(peer, k).trxs);
    ReplyIsStored(e, peer, k, db, h);
    hide StoreAll, ServesBlock, FindTrx, FindAll;
    var g := MoveGroup(db1, HEAD, APPLIED);
    MoveGroupAt(db1, HEAD, APPLIED, TrxKey(PENDING, h));
    MoveGroupAt(db1, HEAD, APPLIED, TrxKey(HEAD, h));
    MoveGroupAt(db1, HEAD, APPLIED, TrxKey(APPLIED, h));
    MoveListAt(g, list, PENDING, HEAD, TrxKey(PENDING, h));
    MoveListAt(g, list, PENDING, HEAD, TrxKey(HEAD, h));
    MoveListAt(g, list, PENDING, HEAD, TrxKey(APPLIED, h));
    hide MoveList, MoveGroup;
  }

  lemma ReadyAfter(e: Env, peer: NodeState, s: NodeState, s': NodeState)
    requires Honest(e, peer) && Follows(e, peer, s) && |s.chain| < |peer.chain| && ServesBlock(e, peer, |s.chain|)
    requires var k := |s.chain|; var db := StoreAll(e, s.trxs, ReplyAt(peer, k).trxs);
      s'.trxs == if k == 0 then db else MoveList(MoveGroup(db, HEAD, APPLIED), ListAt(peer, k), PENDING, HEAD)
    ensures Ready(peer, s'.trxs, |s.chain| + 1)
  {
    hide StoreAll, MoveList, MoveGroup, ServesBlock, Agrees, OpenFor;
    forall i: nat, h | |s.chain| + 1 <= i < |peer.chain| && h in ListAt(peer, i)
      ensures OpenFor(peer, s'.trxs, h)
    {
      StaysOpen(e, peer, |s.chain|, s.trxs, h);
    }
  }

  /** One reply of an honest peer takes the follower one block further. */
  lemma OneReply(e: Env, peer: NodeState, s: NodeState, now: u32)
    requires Honest(e, peer) && Follows(e, peer, s) && |s.chain| < |peer.chain| < INT32
    requires peer.chain[|s.chain|].utcTime <= (now + 30) % TWO_32
    ensures ServesBlock(e, peer, |s.chain|) && GetFullBlock(peer, |s.chain|) == Ok(ReplyAt(peer, |s.chain|))
    ensures var (s', rc) := AddFullBlock(e, s, ReplyAt(peer, |s.chain|), now);
      rc == 1 && |s'.chain| == |s.chain| + 1 && Follows(e, peer, s')
  {
    var k := |s.chain|;
    PeerReplies(e, peer, k);
    if k == 0 {
      FirstReply(e, peer, s, now);
    } else {
      LaterReply(e, peer, s, now);
    }
    var s' := AddFullBlock(e, s, ReplyAt(peer, k), now).0;
    ReadyAfter(e, peer, s, s');
    hide *;
    hide Agrees, AddFullBlock, StoreAll, MoveList, MoveGroup, Ready, Honest, ServesBlock, ReplyAt, GetFullBlock, ListAt;
  }

  // ---------------------------------------------------------------- the whole conversation

  /** No block of the peer's chain is dated beyond the follower's clock limit. */
  ghost predicate InTime(peer: NodeState, clock: nat -> u32) {
    forall i: nat, t: nat :: i < |peer.chain| ==> peer.chain[i].utcTime <= (clock(t) + 30) % TWO_32
  }

  /** Same chain, same ledger views, same files. */
  predicate SameView(a: NodeState, b: NodeState) {
    a.chain == b.chain && a.base == b.base && a.head == b.head &&
    a.disk == b.disk && a.saved == b.saved && a.hist == b.hist
  }

  lemma FullyFollows(e: Env, peer: NodeState, s: NodeState)
    requires Agrees(e, peer) && Follows(e, peer, s) && |s.chain| == |peer.chain|
    ensures SameView(s, peer)
  {
    hide Replay, Validates, WellFormed, Prefix, Ready;
    assert peer.chain[..|peer.chain|] == peer.chain && peer.hist[..|peer.chain|] == peer.hist;
  }

  /** Catch-up converges: a follower of an honest peer ends with exactly the peer's chain and ledger views,
      after one reply for each missing block. */
  lemma {:induction false} CatchUpConverges(e: Env, peer: NodeState, s: NodeState, clock: nat -> u32, t: nat)
    requires Honest(e, peer) && Follows(e, peer, s) && |s.chain| < |peer.chain| < INT32 && InTime(peer, clock)
    ensures var (s', replies) := Converse(e, peer, s, clock, t);
      SameView(s', peer) && Follows(e, peer, s') && replies == |peer.chain| - |s.chain|
    decreases |peer.chain| - |s.chain|
  {
    hide Agrees, Ready, AddFullBlock, GetFullBlock, SameView, FindAll, FindTrx;
    var k := |s.chain|;
    OneReply(e, peer, s, clock(t));
    var s' := AddFullBlock(e, s, ReplyAt(peer, k), clock(t)).0;
    if k + 1 < |peer.chain| {
      CatchUpConverges(e, peer, s', clock, t + 1);
    } else {
      FullyFollows(e, peer, s');
    }
  }

  /** A request beyond the peer's head is answered by an empty block, which never changes a chain, a ledger
      or a store; it only records an empty state under the zero hash. */
  lemma EmptyReplyIsHarmless(e: Env, s: NodeState, now: u32)
    ensures var (s', rc) := AddFullBlock(e, s, NO_BLOCK, now);
      rc <= 0 && s' == s.(states := s.states[DEFAULT_BLOCK.state := NO_STATE])
  {
    var s1 := s.(states := s.states[DEFAULT_BLOCK.state := NO_STATE]);
    NeverValid(e, s.chain);
    assert StoreAll(e, s.trxs, []) == s.trxs;
    if s.chain != [] {
      NeverValid(e, s.chain[..|s.chain| - 1]);
    }
    hide Validates, TryApply, MoveList, MoveGroup, GetTransactions, StoreAll;
    assert AddFullBlock(e, s, NO_BLOCK, now) == AddBlock(e, s1, DEFAULT_BLOCK, now);
  }

  /** The default block is dated before the first 15 seconds, so no chain that ends with it is valid. */
  lemma NeverValid(e: Env, bc: seq<Block>)
    ensures !Validates(e.blockHash, bc + [DEFAULT_BLOCK])
  {
    ValidateIncremental(e.blockHash, bc, DEFAULT_BLOCK);
  }

  /** A node that has caught up asks once more and stays as it is. */
  lemma CaughtUpStays(e: Env, peer: NodeState, s: NodeState, clock: nat -> u32, t: nat)
    requires peer.chain != [] && |peer.chain| <= |s.chain| < INT32
    ensures Converse(e, peer, s, clock, t) == (s.(states := s.states[DEFAULT_BLOCK.state := NO_STATE]), 1)
  {
    EmptyReplyIsHarmless(e, s, clock(t));
    assert GetFullBlock(peer, |s.chain|) == Ok(NO_BLOCK);
    hide AddFullBlock, GetFullBlock;
  }
}
