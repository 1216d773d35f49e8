/** Replay protection: how often one stored transaction is applied (libs/gpm/node/node.cpp:106-122, 674-791).
    Across blocks never twice; within a block as often as its list names it. */
module Replays {
  import opened Common
  import opened BlockChain
  import opened Records
  import opened Ledger
  import opened NodeSpec
  import opened NodeRuns
  import opened StoreMoves
  import opened CatchUp
  import opened Serving

  /** The hashes of the transactions a block applied, in order. */
  function PlayedHashes(e: Env, p: Played): seq<Hash> {
    seq(|p.trxs|, i requires 0 <= i < |p.trxs| => PlayedHash(e, p, i))
  }

  function PlayedHash(e: Env, p: Played, i: nat): Hash
    requires i < |p.trxs|
  {
    e.signedHash(p.trxs[i])
  }

  predicate NoRepeats(list: seq<Hash>) {
    forall i, j :: 0 <= i < j < |list| ==> list[i] != list[j]
  }

  /** No transaction is applied by two blocks. */
  ghost predicate Separate(e: Env, hist: seq<Played>) {
    forall i: nat, j: nat, h :: i < j < |hist| && h in PlayedHashes(e, hist[i]) ==> h !in PlayedHashes(e, hist[j])
  }

  /** No transaction is applied twice, by one block or by two. */
  ghost predicate OnceEach(e: Env, hist: seq<Played>) {
    Separate(e, hist) && forall i: nat :: i < |hist| ==> NoRepeats(PlayedHashes(e, hist[i]))
  }

  /** What the held blocks applied is in the applied group, what the head applied in the head group. */
  ghost predicate Tracked(e: Env, s: NodeState) {
    && s.chain != [] && |s.hist| == |s.chain| && OneGroup(s.trxs) && KeyedByHash(e, s.trxs) && Separate(e, s.hist)
    && (forall i: nat, h :: i < |s.hist| && h in PlayedHashes(e, s.hist[i]) ==>
          InGroup(s, if i + 1 < |s.hist| then APPLIED else HEAD, h))
  }

  /** A fetched list is played hash by hash. */
  lemma PlaysItsList(e: Env, blk: Block, bs: BlockState, db: TrxDb)
    requires KeyedByHash(e, db) && |GetTransactions(db, bs.trxs, PENDING)| == |bs.trxs|
    ensures PlayedHashes(e, PlayedBlock(blk, bs, db)) == bs.trxs
  {
    FetchComplete(db, bs.trxs, PENDING);
    var ts := GetTransactions(db, bs.trxs, PENDING);
    forall i | 0 <= i < |bs.trxs|
      ensures e.signedHash(ts[i]) == bs.trxs[i]
    {
      assert TrxKey(PENDING, bs.trxs[i]) in db;
    }
    hide Fetch, KeyedByHash;
  }

  /** The history of a step that puts a block playing `list` on top of the first `m` blocks. */
  lemma NewHeadTracked(e: Env, s: NodeState, s': NodeState, m: nat, list: seq<Hash>)
    requires Tracked(e, s) && m <= |s.hist| && |s'.hist| == |s'.chain| == m + 1 && s'.hist[..m] == s.hist[..m]
    requires OneGroup(s'.trxs) && KeyedByHash(e, s'.trxs) && PlayedHashes(e, s'.hist[m]) == list
    requires forall i: nat, h :: i < m && h in PlayedHashes(e, s.hist[i]) ==> InGroup(s', APPLIED, h) && h !in list
    requires forall h :: h in list ==> InGroup(s', HEAD, h)
    ensures Tracked(e, s')
  {
    hide PlayedHashes, OneGroup, KeyedByHash, InGroup;
    forall i: nat | i < m
      ensures s'.hist[i] == s.hist[i]
    {
      SameEntry(s.hist, s'.hist, m, i);
    }
  }

  lemma AppendMovesPlayed(e: Env, s: NodeState, blk: Block, bs: BlockState)
    requires Tracked(e, s) && Append(e, s, blk, bs).1 == 1
    ensures forall i: nat, h :: i < |s.hist| && h in PlayedHashes(e, s.hist[i]) ==>
      InGroup(Append(e, s, blk, bs).0, APPLIED, h) && h !in bs.trxs
    ensures forall h :: h in bs.trxs ==> InGroup(Append(e, s, blk, bs).0, HEAD, h)
  {
    hide Append, PlayedHashes, OneGroup, KeyedByHash, InGroup;
    forall i: nat, h | i < |s.hist| && h in PlayedHashes(e, s.hist[i])
      ensures InGroup(Append(e, s, blk, bs).0, APPLIED, h) && h !in bs.trxs
    {
      AppendPlacesOne(e, s, blk, bs, h);
    }
    forall h | h in bs.trxs
      ensures InGroup(Append(e, s, blk, bs).0, HEAD, h)
    {
      AppendMovesExactly(e, s, blk, bs, h);
    }
  }

  lemma AppendTracked(e: Env, s: NodeState, blk: Block, bs: BlockState)
    requires Tracked(e, s) && Append(e, s, blk, bs).1 == 1
    ensures var s' := Append(e, s, blk, bs).0;
      Tracked(e, s') && |s'.hist| == |s.hist| + 1 && PlayedHashes(e, s'.hist[|s.hist|]) == bs.trxs
      && s'.hist[..|s.hist|] == s.hist
  {
    hide Append, MoveList, MoveGroup, PlayedHashes, PlayedBlock, OneGroup, KeyedByHash, InGroup, Keeps, GetTransactions;
    var s', m := Append(e, s, blk, bs).0, |s.chain|;
    assert |s.hist| == m;
    TrackedIsKeyed(e, s);
    AppendedState(e, s, blk, bs);
    AppendKeepsStore(e, s, blk, bs);
    AppendFetches(e, s, blk, bs);
    MoveGroupKeyed(e, s.trxs, HEAD, APPLIED);
    MoveListKeyed(e, MoveGroup(s.trxs, HEAD, APPLIED), bs.trxs, PENDING, HEAD);
    PlaysItsList(e, blk, bs, s.trxs);
    AppendMovesPlayed(e, s, blk, bs);
    assert s.hist[..m] == s.hist;
    hide *;
    NewHeadTracked(e, s, s', m, bs.trxs);
  }

  lemma ReplaceMovesPlayed(e: Env, s: NodeState, blk: Block, bs: BlockState)
    requires Tracked(e, s) && Replace(e, s, blk, bs).1 == 1
    ensures forall i: nat, h :: i + 1 < |s.hist| && h in PlayedHashes(e, s.hist[i]) ==>
      InGroup(Replace(e, s, blk, bs).0, APPLIED, h) && h !in bs.trxs
    ensures forall h :: h in bs.trxs ==> InGroup(Replace(e, s, blk, bs).0, HEAD, h)
  {
    hide Replace, PlayedHashes, OneGroup, KeyedByHash, InGroup;
    forall i: nat, h | i + 1 < |s.hist| && h in PlayedHashes(e, s.hist[i])
      ensures InGroup(Replace(e, s, blk, bs).0, APPLIED, h) && h !in bs.trxs
    {
      ReplacePlacesOne(e, s, blk, bs, h);
    }
    forall h | h in bs.trxs
      ensures InGroup(Replace(e, s, blk, bs).0, HEAD, h)
    {
      ReplaceMovesExactly(e, s, blk, bs, h);
    }
  }

  lemma ReplaceTracked(e: Env, s: NodeState, blk: Block, bs: BlockState)
    requires Tracked(e, s) && Replace(e, s, blk, bs).1 == 1
    ensures var s' := Replace(e, s, blk, bs).0; var m := |s.hist| - 1;
      Tracked(e, s') && |s'.hist| == m + 1 && PlayedHashes(e, s'.hist[m]) == bs.trxs && s'.hist[..m] == s.hist[..m]
  {
    hide Replace, MoveList, Reached, PlayedHashes, PlayedBlock, OneGroup, KeyedByHash, InGroup, Keeps, GetTransactions;
    var s', m, db := Replace(e, s, blk, bs).0, |s.chain| - 1, MoveList(s.trxs, bs.trxs, HEAD, PENDING);
    assert |s.hist| == m + 1;
    TrackedIsKeyed(e, s);
    ReplacedState(e, s, blk, bs);
    ReplaceTrxs(e, s, blk, bs);
    ReplaceKeepsStore(e, s, blk, bs);
    MoveListKeyed(e, s.trxs, bs.trxs, HEAD, PENDING);
    MoveListKeyed(e, db, bs.trxs, PENDING, HEAD);
    PlaysItsList(e, blk, bs, db);
    ReplaceMovesPlayed(e, s, blk, bs);
    hide *;
    NewHeadTracked(e, s, s', m, bs.trxs);
  }

  /** A step that keeps the history keeps it tracked. */
  lemma SameHistoryTracked(e: Env, s: NodeState, s': NodeState)
    requires Tracked(e, s) && s'.chain == s.chain && s'.hist == s.hist && OneGroup(s'.trxs) && KeyedByHash(e, s'.trxs)
    requires forall h :: InGroup(s, APPLIED, h) ==> InGroup(s', APPLIED, h)
    requires forall h :: InGroup(s, HEAD, h) ==> InGroup(s', HEAD, h)
    ensures Tracked(e, s')
  {
    hide PlayedHashes, OneGroup, KeyedByHash, InGroup;
  }

  lemma RefusedTracked(e: Env, s: NodeState, blk: Block, bs: BlockState)
    requires Tracked(e, s) && Replace(e, s, blk, bs).1 != 1
    ensures Tracked(e, Replace(e, s, blk, bs).0) && Replace(e, s, blk, bs).0.hist == s.hist
  {
    var s', db := Replace(e, s, blk, bs).0, MoveList(s.trxs, bs.trxs, HEAD, PENDING);
    ReplaceTrxs(e, s, blk, bs);
    ReplaceShapeOnly(e, s, blk, bs);
    ReplaceKeepsStore(e, s, blk, bs);
    MoveListKeyed(e, s.trxs, bs.trxs, HEAD, PENDING);
    MoveListKeyed(e, db, bs.trxs, PENDING, HEAD);
    forall h
      ensures InGroup(s, APPLIED, h) ==> InGroup(s', APPLIED, h)
      ensures InGroup(s, HEAD, h) ==> InGroup(s', HEAD, h)
    {
      MovedKeys(s.trxs, bs.trxs, HEAD, PENDING, h);
      MovedKeys(db, bs.trxs, PENDING, HEAD, h);
    }
    hide Replace, MoveList, Reached, Tracked, OneGroup, KeyedByHash, InGroup, Keeps;
    SameHistoryTracked(e, s, s');
  }

  /** The list of the block that a step accepts, if it accepts one. */
  function AcceptedList(e: Env, s: NodeState, step: NodeStep): Option<seq<Hash>> {
    match step
    case Deliver(blk, now) =>
      if AddBlock(e, s, blk, now).1 == 1 && blk.state in s.states then Some(s.states[blk.state].trxs) else None
    case DeliverFull(fbs, now) => if AddFullBlock(e, s, fbs, now).1 == 1 then Some(fbs.state.trxs) else None
    case _ => None
  }

  /** What a step does to the history: nothing, or the head is a block that plays the accepted list. */
  ghost predicate HistoryStep(e: Env, s: NodeState, s': NodeState, list: Option<seq<Hash>>) {
    match list
    case None => s'.hist == s.hist
    case Some(l) =>
      var m := |s'.hist| - 1;
      |s.hist| - 1 <= m <= |s.hist| && m >= 0 && s'.hist[..m] == s.hist[..m] && PlayedHashes(e, s'.hist[m]) == l
  }

  lemma AddBlockTracked(e: Env, s: NodeState, blk: Block, now: u32)
    requires Tracked(e, s)
    ensures Tracked(e, AddBlock(e, s, blk, now).0)
    ensures HistoryStep(e, s, AddBlock(e, s, blk, now).0, AcceptedList(e, s, Deliver(blk, now)))
  {
    var r := AddBlock(e, s, blk, now);
    AddBlockCases(e, s, blk, now);
    AddBlockCodes(e, s, blk, now);
    hide AddBlock, Append, Replace, TakesOver, Tracked, PlayedHashes;
    assert s.chain != [];
    if r.1 == 1 {
      var bs := s.states[blk.state];
      if r == Append(e, s, blk, bs) {
        assert s.hist[..|s.hist|] == s.hist;
        AppendTracked(e, s, blk, bs);
      } else {
        ReplaceTracked(e, s, blk, bs);
      }
    } else if r.0 != s {
      RefusedTracked(e, s, blk, s.states[blk.state]);
    }
  }

  lemma AddBlockCodes(e: Env, s: NodeState, blk: Block, now: u32)
    requires Tracked(e, s)
    ensures var r := AddBlock(e, s, blk, now);
      && s.chain != [] && (r.1 == 1 ==> blk.state in s.states)
      && (r.1 == 1 ==> r == Append(e, s, blk, s.states[blk.state]) || r == Replace(e, s, blk, s.states[blk.state]))
      && (r.1 != 1 ==> r.0 == s || (blk.state in s.states && r.0 == Replace(e, s, blk, s.states[blk.state]).0
                                    && Replace(e, s, blk, s.states[blk.state]).1 != 1))
      && (r.1 == 1 && r == Append(e, s, blk, s.states[blk.state]) ==> |r.0.hist| == |s.hist| + 1)
  {
    if blk.state in s.states {
      if Append(e, s, blk, s.states[blk.state]).1 != 1 {
        AppendRejected(e, s, blk, s.states[blk.state]);
      } else {
        AppendTracked(e, s, blk, s.states[blk.state]);
      }
    }
    hide Append, Replace, Tracked, PlayedHashes;
  }

  /** Every step keeps the history tracked, and changes it only by the accepted block. */
  lemma NextTracked(e: Env, s: NodeState, step: NodeStep)
    requires Tracked(e, s)
    ensures Tracked(e, Next(e, s, step)) && HistoryStep(e, s, Next(e, s, step), AcceptedList(e, s, step))
  {
    assert s.chain != [];
    match step
    case Deliver(blk, now) => AddBlockTracked(e, s, blk, now);
    case DeliverFull(fbs, now) => FullTracked(e, s, fbs, now);
    case Submit(t) => SubmitTracked(e, s, t);
    case Build(gen, order, now) =>
      BuildShape(e, s, gen, order, now);
      BuildTracked(e, s, Candidate(e, s, gen, order, now).0);
    hide *;
  }

  lemma BuildTracked(e: Env, s: NodeState, s': NodeState)
    requires Tracked(e, s) && s' == s.(gen := s'.gen, states := s'.states)
    ensures Tracked(e, s')
  {
    hide PlayedHashes, OneGroup, KeyedByHash;
  }

  lemma SubmitTracked(e: Env, s: NodeState, t: SignedTrx)
    requires Tracked(e, s)
    ensures Tracked(e, AddTransaction(e, s, t).0) && AddTransaction(e, s, t).0.hist == s.hist
  {
    var s' := AddTransaction(e, s, t).0;
    SubmitKeepsStore(e, s, t);
    hide Tracked, OneGroup, Keeps;
    assert KeyedByHash(e, s.trxs) by { TrackedIsKeyed(e, s); }
    SameHistoryTracked(e, s, s');
  }

  lemma TrackedIsKeyed(e: Env, s: NodeState)
    requires Tracked(e, s)
    ensures OneGroup(s.trxs) && KeyedByHash(e, s.trxs)
  {
    hide OneGroup, KeyedByHash, PlayedHashes;
  }

  lemma FullTracked(e: Env, s: NodeState, fbs: FullBlock, now: u32)
    requires Tracked(e, s)
    ensures Tracked(e, AddFullBlock(e, s, fbs, now).0)
    ensures HistoryStep(e, s, AddFullBlock(e, s, fbs, now).0, AcceptedList(e, s, DeliverFull(fbs, now)))
  {
    var s1 := Received(e, s, fbs);
    assert s.chain != [] && AddFullBlock(e, s, fbs, now) == AddBlock(e, s1, fbs.blk, now);
    assert s1.states[fbs.blk.state] == fbs.state && s1.hist == s.hist && s1.chain == s.chain;
    TrackedIsKeyed(e, s);
    StoreAllKeyed(e, s.trxs, fbs.trxs);
    StoreAllKeeps(e, s.trxs, fbs.trxs);
    forall h
      ensures InGroup(s, APPLIED, h) ==> InGroup(s1, APPLIED, h)
      ensures InGroup(s, HEAD, h) ==> InGroup(s1, HEAD, h)
    {
      StoreAllAt(e, s.trxs, fbs.trxs, h);
    }
    hide AddFullBlock, AddBlock, Tracked, StoreAll, OneGroup, Keeps, KeyedByHash, InGroup, HistoryStep;
    SameHistoryTracked(e, s, s1);
    AddBlockTracked(e, s1, fbs.blk, now);
    SameStart(e, s, s1, AddBlock(e, s1, fbs.blk, now).0, AcceptedList(e, s, DeliverFull(fbs, now)));
  }

  lemma SameStart(e: Env, s: NodeState, s1: NodeState, s': NodeState, list: Option<seq<Hash>>)
    requires s1.hist == s.hist && HistoryStep(e, s1, s', list)
    ensures HistoryStep(e, s, s', list)
  {}

  // ---------------------------------------------------------------- whole runs

  /** At every moment of the run, the held chain has applied each transaction at most once. */
  ghost predicate OnceAlong(e: Env, s: NodeState, steps: seq<NodeStep>)
    decreases |steps|
  {
    OnceEach(e, s.hist) && (steps == [] || OnceAlong(e, Next(e, s, steps[0]), steps[1..]))
  }

  /** No accepted block of the run lists a transaction twice. */
  ghost predicate ListsClean(e: Env, s: NodeState, steps: seq<NodeStep>)
    decreases |steps|
  {
    steps == [] ||
    ((AcceptedList(e, s, steps[0]).Some? ==> NoRepeats(AcceptedList(e, s, steps[0]).value))
     && ListsClean(e, Next(e, s, steps[0]), steps[1..]))
  }

  /** After one step: the held chain has no repetition exactly when the accepted list has none. */
  lemma StepOnceExactly(e: Env, s: NodeState, s': NodeState, list: Option<seq<Hash>>)
    requires OnceEach(e, s.hist) && Separate(e, s'.hist) && HistoryStep(e, s, s', list)
    ensures OnceEach(e, s'.hist) <==> (list.Some? ==> NoRepeats(list.value))
  {
    hide PlayedHashes, NoRepeats, Separate;
    if list.Some? {
      var m := |s'.hist| - 1;
      forall i: nat | i < m
        ensures s'.hist[i] == s.hist[i]
      {
        SameEntry(s.hist, s'.hist, m, i);
      }
    }
  }

  /** Across blocks a transaction is never applied twice, over every run. */
  lemma {:induction false} NeverInTwoBlocks(e: Env, s: NodeState, steps: seq<NodeStep>)
    requires Tracked(e, s)
    ensures Tracked(e, Run(e, s, steps)) && Separate(e, Run(e, s, steps).hist)
    decreases |steps|
  {
    hide Next, AcceptedList, HistoryStep, OneGroup, KeyedByHash, PlayedHashes, Separate, InGroup;
    if steps != [] {
      NextTracked(e, s, steps[0]);
      NeverInTwoBlocks(e, Next(e, s, steps[0]), steps[1..]);
    }
  }

  /** Over every run each transaction is applied at most once exactly when no accepted block lists one twice. */
  lemma {:induction false} OnceOverRunsExactly(e: Env, s: NodeState, steps: seq<NodeStep>)
    requires Tracked(e, s) && OnceEach(e, s.hist)
    ensures OnceAlong(e, s, steps) <==> ListsClean(e, s, steps)
    decreases |steps|
  {
    if steps != [] {
      var s' := Next(e, s, steps[0]);
      NextTracked(e, s, steps[0]);
      assert Separate(e, s'.hist);
      StepOnceExactly(e, s, s', AcceptedList(e, s, steps[0]));
      hide Next, AcceptedList, HistoryStep, Tracked, OnceEach, NoRepeats, Separate;
      if OnceEach(e, s'.hist) {
        OnceOverRunsExactly(e, s', steps[1..]);
      }
    }
  }

  // ---------------------------------------------------------------- a list that names a transaction twice

  /** A transaction without commands leaves just its start record, and can be applied any number of times. */
  const IDLE := SignedTrx(0, [], [])

  function IdleStart(e: Env): Payload {
    StartTrx(e.trxHash(IDLE), 0)
  }

  /** The state of a block that lists it twice, with the checksum that fits. */
  function TwiceListed(e: Env, s: NodeState, gen: string): BlockState {
    BlockState(|s.chain| % TWO_32, gen, StateHash(e, Bytes(e, Snoc(Snoc(s.head, IdleStart(e)), IdleStart(e)))),
               [e.signedHash(IDLE), e.signedHash(IDLE)])
  }

  lemma IdleAppliesTwice(e: Env, l: Log, gen: string)
    ensures ApplyTrxs(e, l, [IDLE, IDLE], gen) == Outcome(Snoc(Snoc(l, IdleStart(e)), IdleStart(e)), Applied)
  {
    var l1 := Snoc(l, IdleStart(e));
    var l2 := Snoc(l1, IdleStart(e));
    assert ApplyTrx(e, l, IDLE, gen) == Outcome(l1, Applied) && ApplyTrx(e, l1, IDLE, gen) == Outcome(l2, Applied);
    assert [IDLE, IDLE][1..] == [IDLE] && [IDLE][1..] == [];
    hide ApplyTrx;
    assert ApplyTrxs(e, l2, [], gen) == Outcome(l2, Applied);
    assert ApplyTrxs(e, l1, [IDLE], gen) == Outcome(l2, Applied);
  }

  lemma FetchTwice(e: Env, db: TrxDb, h: Hash, t: SignedTrx)
    requires TrxKey(PENDING, h) in db && db[TrxKey(PENDING, h)] == t
    ensures GetTransactions(db, [h, h], PENDING) == [t, t]
  {
    assert [h, h][..1] == [h] && [h][..0] == [];
    assert Fetch(db, [], PENDING) == Some([]);
    assert [] + [t] == [t];
    assert Fetch(db, [h], PENDING) == Some([t]);
    assert [t] + [t] == [t, t];
  }

  /** Whenever it is pending, a block that lists it twice is accepted like any other, and applies it twice. */
  lemma TwiceListedIsAppliedTwice(e: Env, s: NodeState, b: Block, gen: string, now: u32)
    requires s.chain != [] && |s.hist| == |s.chain|
    requires TrxKey(PENDING, e.signedHash(IDLE)) in s.trxs && s.trxs[TrxKey(PENDING, e.signedHash(IDLE))] == IDLE
    requires b.prevBlock == e.blockHash(LastBlockOf(s)) && b.utcTime <= (now + 30) % TWO_32
    requires Validates(e.blockHash, s.chain + [b])
    ensures var (s', rc) := AddBlock(e, s.(states := s.states[b.state := TwiceListed(e, s, gen)]), b, now);
      && rc == 1 && |s'.hist| == |s.hist| + 1 && s'.hist[|s.hist|].trxs == [IDLE, IDLE]
      && !OnceEach(e, s'.hist)
  {
    var bs := TwiceListed(e, s, gen);
    var s1 := s.(states := s.states[b.state := bs]);
    var h := e.signedHash(IDLE);
    FetchTwice(e, s.trxs, h, IDLE);
    IdleAppliesTwice(e, s.head, gen);
    assert bs.trxs == [h, h];
    assert Accepts(TryApply(e, s.head, b, bs, s.trxs)) by {
      hide ApplyTrxs, StateHash, Bytes, GetTransactions;
    }
    assert PlayedBlock(b, bs, s.trxs).trxs == [IDLE, IDLE];
    hide TryApply, ApplyTrxs, GetTransactions, StateHash, Bytes, Validates,
         MoveList, MoveGroup, TwiceListed, PlayedBlock;
    AppendResult(e, s1, b, bs);
    var s' := AddBlock(e, s1, b, now).0;
    var p := s'.hist[|s.hist|];
    assert PlayedHashes(e, p)[0] == PlayedHashes(e, p)[1];
    assert !NoRepeats(PlayedHashes(e, p));
  }
}
