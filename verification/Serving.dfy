/** Every node that keeps its block states is an honest peer: it can serve its whole chain, so any fresh
    node can catch up with it (libs/gpm/node/node.cpp:454-508, 568-798). */
module Serving {
  import opened Common
  import opened BlockChain
  import opened Records
  import opened Ledger
  import opened NodeSpec
  import opened NodeRuns
  import opened StoreMoves
  import opened CatchUp

  /** Transactions are stored under their own hash. */
  ghost predicate KeyedByHash(e: Env, db: TrxDb) {
    forall k :: k in db ==> e.signedHash(db[k]) == k.hash
  }

  /** Of the first `m` blocks: each is served, no two share a transaction, and their transactions are where an
      accepted block leaves them, applied or in the head group.  The first block has none. */
  ghost predicate ServesFirst(e: Env, s: NodeState, m: nat) {
    && Agrees(e, s) && OneGroup(s.trxs) && KeyedByHash(e, s.trxs) && m <= |s.chain| == |s.hist|
    && (m > 0 ==> ListAt(s, 0) == [])
    && (forall i: nat :: i < m ==> ServesBlock(e, s, i))
    && (forall i: nat, j: nat, h :: i < j < m && h in ListAt(s, i) ==> h !in ListAt(s, j))
    && (forall i: nat, h :: i < m && h in ListAt(s, i) ==> InGroup(s, if i + 1 < |s.chain| then APPLIED else HEAD, h))
  }

  ghost predicate ServesAll(e: Env, s: NodeState) {
    ServesFirst(e, s, |s.chain|)
  }

  lemma ServingIsHonest(e: Env, s: NodeState)
    requires ServesAll(e, s)
    ensures Honest(e, s)
  {
    hide Agrees, ServesBlock, ListAt, InGroup, OneGroup, KeyedByHash;
  }

  /** No block state is replaced by another one under the same hash. */
  ghost predicate StatesKept(a: map<Hash, BlockState>, b: map<Hash, BlockState>) {
    forall k :: k in a ==> k in b && b[k] == a[k]
  }

  /** The same but for the index, which nothing reads. */
  predicate SameContent(a: BlockState, b: BlockState) {
    a.generator == b.generator && a.stateDb == b.stateDb && a.trxs == b.trxs
  }

  // ---------------------------------------------------------------- the store keeps what it serves

  /** A stored transaction is found whatever its group. */
  lemma FindTrxIs(db: TrxDb, k: TrxKey)
    requires OneGroup(db) && k in db
    ensures FindTrx(db, k.hash) == Some(db[k])
  {
    assert forall g :: TrxKey(g, k.hash) in db ==> TrxKey(g, k.hash) == k;
  }

  lemma FindTrxKept(a: TrxDb, b: TrxDb, h: Hash)
    requires OneGroup(a) && StoreKept(a, b) && FindTrx(a, h).Some?
    ensures FindTrx(b, h) == FindTrx(a, h)
  {
    var k: TrxKey :| k in a && k.hash == h && FindTrx(a, h) == Some(a[k]);
    var j: TrxKey :| j in b && j.hash == k.hash && b[j] == a[k];
    FindTrxIs(b, j);
  }

  lemma {:induction false} FindAllKept(a: TrxDb, b: TrxDb, list: seq<Hash>)
    requires OneGroup(a) && StoreKept(a, b) && FindAll(a, list).Ok?
    ensures FindAll(b, list) == FindAll(a, list)
    decreases |list|
  {
    hide FindTrx, StoreKept, OneGroup;
    if list != [] {
      FindTrxKept(a, b, list[0]);
      FindAllKept(a, b, list[1..]);
    }
  }

  lemma {:induction false} FetchedIsFound(db: TrxDb, list: seq<Hash>)
    requires OneGroup(db) && Fetch(db, list, PENDING).Some?
    ensures FindAll(db, list) == Ok(Fetch(db, list, PENDING).value)
  {
    var ts := Fetch(db, list, PENDING).value;
    hide Fetch;
    FoundEach(db, list, ts);
  }

  lemma {:induction false} FoundEach(db: TrxDb, list: seq<Hash>, ts: seq<SignedTrx>)
    requires OneGroup(db) && |ts| == |list|
    requires forall i :: 0 <= i < |list| ==> TrxKey(PENDING, list[i]) in db && ts[i] == db[TrxKey(PENDING, list[i])]
    ensures FindAll(db, list) == Ok(ts)
    decreases |list|
  {
    if list != [] {
      FindTrxIs(db, TrxKey(PENDING, list[0]));
      hide OneGroup, FindTrx;
      FoundEach(db, list[1..], ts[1..]);
      assert [ts[0]] + ts[1..] == ts;
    } else {
      assert ts == [];
    }
  }

  lemma MoveOneKeyed(e: Env, db: TrxDb, h: Hash, from: int, to: int)
    requires KeyedByHash(e, db)
    ensures KeyedByHash(e, MoveOne(db, h, from, to))
  {}

  lemma {:induction false} MoveListKeyed(e: Env, db: TrxDb, list: seq<Hash>, from: int, to: int)
    requires KeyedByHash(e, db)
    ensures KeyedByHash(e, MoveList(db, list, from, to))
    decreases |list|
  {
    hide KeyedByHash, MoveOne;
    if list != [] {
      MoveOneKeyed(e, db, list[0], from, to);
      MoveListKeyed(e, MoveOne(db, list[0], from, to), list[1..], from, to);
    }
  }

  lemma MoveGroupKeyed(e: Env, db: TrxDb, from: int, to: int)
    requires KeyedByHash(e, db)
    ensures KeyedByHash(e, MoveGroup(db, from, to))
  {}

  lemma {:induction false} StoreAllKeyed(e: Env, db: TrxDb, ts: seq<SignedTrx>)
    requires KeyedByHash(e, db)
    ensures KeyedByHash(e, StoreAll(e, db, ts))
    decreases |ts|
  {
    if ts != [] {
      StoreAllKeyed(e, Store(e, db, ts[0]), ts[1..]);
    }
  }

  // ---------------------------------------------------------------- blocks stay served

  /** The state of the i-th block is still stored with the same content. */
  predicate KeepsState(a: NodeState, b: NodeState, i: nat)
    requires i < |a.chain|
  {
    var st := a.chain[i].state;
    st in a.states ==> st in b.states && SameContent(a.states[st], b.states[st])
  }

  /** A served block is served by every later state that has the same block, history and store contents. */
  lemma StillServed(e: Env, a: NodeState, b: NodeState, i: nat)
    requires i < |a.chain| == |a.hist| && i < |b.chain| == |b.hist| && ServesBlock(e, a, i)
    requires a.chain[i] == b.chain[i] && a.hist[i] == b.hist[i] && KeepsState(a, b, i)
    requires OneGroup(a.trxs) && StoreKept(a.trxs, b.trxs)
    ensures ServesBlock(e, b, i) && ListAt(b, i) == ListAt(a, i)
  {
    var list := ListAt(a, i);
    forall h | h in list
      ensures FindTrx(b.trxs, h) == FindTrx(a.trxs, h)
    {
      FindTrxKept(a.trxs, b.trxs, h);
    }
    FindAllKept(a.trxs, b.trxs, list);
    hide FindAll, FindTrx, OneGroup, StoreKept;
  }

  /** A block just played is served: its transactions are in the store as they were applied. */
  lemma PlayedIsServed(e: Env, db: TrxDb, b: NodeState, i: nat)
    requires i < |b.chain| == |b.hist| && b.chain[i].state in b.states
    requires b.hist[i] == PlayedBlock(b.chain[i], b.states[b.chain[i].state], db)
    requires OneGroup(db) && StoreKept(db, b.trxs) && KeyedByHash(e, b.trxs)
    requires |GetTransactions(db, ListAt(b, i), PENDING)| == |ListAt(b, i)| && (i == 0 ==> ListAt(b, i) == [])
    ensures ServesBlock(e, b, i)
  {
    var list := ListAt(b, i);
    FetchComplete(db, list, PENDING);
    FetchedIsFound(db, list);
    FindAllKept(db, b.trxs, list);
    forall h | h in list
      ensures FindTrx(b.trxs, h).Some? && e.signedHash(FindTrx(b.trxs, h).value) == h
    {
      FindTrxIs(db, TrxKey(PENDING, h));
      FindTrxKept(db, b.trxs, h);
      FoundUnderHash(e, b.trxs, h);
    }
    hide FindAll, FindTrx, OneGroup, StoreKept, Fetch, KeyedByHash;
  }

  lemma FoundUnderHash(e: Env, db: TrxDb, h: Hash)
    requires KeyedByHash(e, db) && FindTrx(db, h).Some?
    ensures e.signedHash(FindTrx(db, h).value) == h
  {}

  /** An applied transaction is in no other group. */
  lemma AppliedIsNotOpen(s: NodeState, h: Hash)
    requires OneGroup(s.trxs) && InGroup(s, APPLIED, h)
    ensures !InGroup(s, PENDING, h) && !InGroup(s, HEAD, h)
  {
    assert TrxKey(APPLIED, h) in s.trxs;
    assert TrxKey(PENDING, h) in s.trxs ==> TrxKey(PENDING, h) == TrxKey(APPLIED, h);
    assert TrxKey(HEAD, h) in s.trxs ==> TrxKey(HEAD, h) == TrxKey(APPLIED, h);
  }

  lemma HeadIsNotPending(s: NodeState, h: Hash)
    requires OneGroup(s.trxs) && InGroup(s, HEAD, h)
    ensures !InGroup(s, PENDING, h)
  {
    assert TrxKey(PENDING, h) in s.trxs ==> TrxKey(PENDING, h) == TrxKey(HEAD, h);
  }

  /** The first `m` blocks stay served when their states and everything stored is kept. */
  lemma PrefixServed(e: Env, s: NodeState, s': NodeState, m: nat)
    requires ServesFirst(e, s, m) && m <= |s'.chain| == |s'.hist|
    requires s'.chain[..m] == s.chain[..m] && s'.hist[..m] == s.hist[..m]
    requires StoreKept(s.trxs, s'.trxs) && forall i: nat :: i < m ==> KeepsState(s, s', i)
    ensures forall i: nat :: i < m ==> ServesBlock(e, s', i) && ListAt(s', i) == ListAt(s, i)
  {
    forall i: nat | i < m
      ensures ServesBlock(e, s', i) && ListAt(s', i) == ListAt(s, i)
    {
      SameEntry(s.chain, s'.chain, m, i);
      SameEntry(s.hist, s'.hist, m, i);
      assert ServesBlock(e, s, i) && KeepsState(s, s', i);
      StillServed(e, s, s', i);
    }
    hide *;
  }

  lemma SameEntry<T>(a: seq<T>, b: seq<T>, m: nat, i: nat)
    requires i < m <= |a| && m <= |b| && a[..m] == b[..m]
    ensures a[i] == b[i]
  {
    assert a[..m][i] == b[..m][i];
  }

  /** Where the transactions of the old blocks are after a step that puts block `m` at the head. */
  ghost predicate PlacedBelow(s: NodeState, s': NodeState, m: nat, list: seq<Hash>)
    requires m <= |s.chain|
  {
    && (forall i: nat, h :: i < m && h in ListAt(s, i) ==> InGroup(s', APPLIED, h) && h !in list)
    && (forall h :: h in list ==> InGroup(s', HEAD, h))
  }

  /** A new last block on top of blocks already served. */
  lemma NewHeadServes(e: Env, s: NodeState, s': NodeState, m: nat)
    requires ServesFirst(e, s, m) && Agrees(e, s') && |s'.hist| == |s'.chain|
    requires m < |s'.chain| == m + 1 && s'.chain[..m] == s.chain[..m] && s'.hist[..m] == s.hist[..m]
    requires s'.states == s.states && StoreKept(s.trxs, s'.trxs) && KeyedByHash(e, s'.trxs)
    requires ServesBlock(e, s', m) && (m == 0 ==> ListAt(s', 0) == [])
    requires PlacedBelow(s, s', m, ListAt(s', m))
    ensures ServesAll(e, s')
  {
    hide ServesBlock, KeyedByHash, ListAt, Agrees, InGroup, Keeps, OneGroup;
    PrefixServed(e, s, s', m);
    StayDisjoint(e, s, s', m);
  }

  lemma StayDisjoint(e: Env, s: NodeState, s': NodeState, m: nat)
    requires ServesFirst(e, s, m) && |s'.chain| == m + 1
    requires forall i: nat :: i < m ==> ListAt(s', i) == ListAt(s, i)
    requires forall i: nat, h :: i < m && h in ListAt(s, i) ==> h !in ListAt(s', m)
    ensures forall i: nat, j: nat, h :: i < j < |s'.chain| && h in ListAt(s', i) ==> h !in ListAt(s', j)
  {
    hide ServesBlock, Agrees, ListAt, InGroup, OneGroup, KeyedByHash;
  }

  // ---------------------------------------------------------------- accepted blocks

  lemma AppendPlacesOne(e: Env, s: NodeState, blk: Block, bs: BlockState, h: Hash)
    requires OneGroup(s.trxs) && Append(e, s, blk, bs).1 == 1 && (InGroup(s, APPLIED, h) || InGroup(s, HEAD, h))
    ensures InGroup(Append(e, s, blk, bs).0, APPLIED, h) && h !in bs.trxs
  {
    AppendFetches(e, s, blk, bs);
    FetchComplete(s.trxs, bs.trxs, PENDING);
    assert h in bs.trxs ==> InGroup(s, PENDING, h);
    hide Append, GetTransactions, Fetch, OneGroup, InGroup;
    AppendMovesExactly(e, s, blk, bs, h);
    if InGroup(s, APPLIED, h) {
      AppliedIsNotOpen(s, h);
    } else {
      HeadIsNotPending(s, h);
    }
  }

  lemma AppendPlaces(e: Env, s: NodeState, blk: Block, bs: BlockState)
    requires ServesAll(e, s) && Append(e, s, blk, bs).1 == 1
    ensures PlacedBelow(s, Append(e, s, blk, bs).0, |s.chain|, bs.trxs)
  {
    hide Append, OneGroup, ListAt, InGroup, Agrees, ServesBlock, KeyedByHash;
    forall i: nat, h | i < |s.chain| && h in ListAt(s, i)
      ensures InGroup(Append(e, s, blk, bs).0, APPLIED, h) && h !in bs.trxs
    {
      AppendPlacesOne(e, s, blk, bs, h);
    }
    forall h | h in bs.trxs
      ensures InGroup(Append(e, s, blk, bs).0, HEAD, h)
    {
      AppendMovesExactly(e, s, blk, bs, h);
    }
  }

  lemma AppendPlayed(e: Env, s: NodeState, blk: Block)
    requires ServesAll(e, s) && s.chain != [] && blk.state in s.states && Append(e, s, blk, s.states[blk.state]).1 == 1
    ensures var s' := Append(e, s, blk, s.states[blk.state]).0; var m := |s.chain|;
      && |s'.chain| == m + 1 == |s'.hist| && s'.chain[m] == blk
      && KeyedByHash(e, s'.trxs) && StoreKept(s.trxs, s'.trxs) && ServesBlock(e, s', m)
  {
    var bs := s.states[blk.state];
    AppendedState(e, s, blk, bs);
    AppendKeepsStore(e, s, blk, bs);
    AppendFetches(e, s, blk, bs);
    MoveGroupKeyed(e, s.trxs, HEAD, APPLIED);
    MoveListKeyed(e, MoveGroup(s.trxs, HEAD, APPLIED), bs.trxs, PENDING, HEAD);
    PlayedIsServed(e, s.trxs, Append(e, s, blk, bs).0, |s.chain|);
    hide *;
  }

  lemma AppendServes(e: Env, s: NodeState, blk: Block)
    requires ServesAll(e, s) && s.chain != [] && blk.state in s.states && Append(e, s, blk, s.states[blk.state]).1 == 1
    ensures ServesAll(e, Append(e, s, blk, s.states[blk.state]).0)
  {
    var bs, m := s.states[blk.state], |s.chain|;
    var s' := Append(e, s, blk, bs).0;
    assert |s.hist| == m;
    AppendPlayed(e, s, blk);
    AppendedState(e, s, blk, bs);
    AppendAgrees(e, s, blk, bs);
    AppendPlaces(e, s, blk, bs);
    assert ListAt(s', m) == bs.trxs;
    hide *;
    NewHeadServes(e, s, s', m);
  }

  lemma AppendedState(e: Env, s: NodeState, blk: Block, bs: BlockState)
    requires Append(e, s, blk, bs).1 == 1 && |s.hist| == |s.chain|
    ensures var s' := Append(e, s, blk, bs).0; var m := |s.chain|;
      && |s'.chain| == m + 1 == |s'.hist| && s'.chain[m] == blk && s'.hist[m] == PlayedBlock(blk, bs, s.trxs)
      && s'.chain[..m] == s.chain[..m] && s'.hist[..m] == s.hist[..m] && s'.states == s.states
      && s'.trxs == MoveList(MoveGroup(s.trxs, HEAD, APPLIED), bs.trxs, PENDING, HEAD)
  {
    hide Validates, TryApply, MoveList, MoveGroup, PlayedBlock;
  }

  lemma ReplacePlacesOne(e: Env, s: NodeState, blk: Block, bs: BlockState, h: Hash)
    requires s.chain != [] && OneGroup(s.trxs) && InGroup(s, APPLIED, h) && Replace(e, s, blk, bs).1 == 1
    ensures InGroup(Replace(e, s, blk, bs).0, APPLIED, h) && h !in bs.trxs
  {
    AppliedIsNotOpen(s, h);
    hide Replace, OneGroup, InGroup;
    ReplaceMovesExactly(e, s, blk, bs, h);
  }

  lemma ReplacePlaces(e: Env, s: NodeState, blk: Block, bs: BlockState)
    requires s.chain != [] && ServesFirst(e, s, |s.chain| - 1) && Replace(e, s, blk, bs).1 == 1
    ensures PlacedBelow(s, Replace(e, s, blk, bs).0, |s.chain| - 1, bs.trxs)
  {
    hide Replace, OneGroup, ListAt, InGroup, Agrees, ServesBlock, KeyedByHash;
    forall i: nat, h | i + 1 < |s.chain| && h in ListAt(s, i)
      ensures InGroup(Replace(e, s, blk, bs).0, APPLIED, h) && h !in bs.trxs
    {
      ReplacePlacesOne(e, s, blk, bs, h);
    }
    forall h | h in bs.trxs
      ensures InGroup(Replace(e, s, blk, bs).0, HEAD, h)
    {
      ReplaceMovesExactly(e, s, blk, bs, h);
    }
  }

  lemma ReplacePlayed(e: Env, s: NodeState, blk: Block)
    requires s.chain != [] && ServesFirst(e, s, |s.chain| - 1) && blk.state in s.states
    requires |s.chain| == 1 ==> s.states[blk.state].trxs == []
    requires Replace(e, s, blk, s.states[blk.state]).1 == 1
    ensures var s' := Replace(e, s, blk, s.states[blk.state]).0; var m := |s.chain| - 1;
      && |s'.chain| == m + 1 == |s'.hist| && s'.chain[m] == blk
      && KeyedByHash(e, s'.trxs) && StoreKept(s.trxs, s'.trxs) && ServesBlock(e, s', m)
  {
    var bs := s.states[blk.state];
    var db := MoveList(s.trxs, bs.trxs, HEAD, PENDING);
    ReplacedState(e, s, blk, bs);
    ReplaceTrxs(e, s, blk, bs);
    ReplaceKeepsStore(e, s, blk, bs);
    MoveListKeyed(e, s.trxs, bs.trxs, HEAD, PENDING);
    MoveListKeyed(e, db, bs.trxs, PENDING, HEAD);
    MoveListKeeps(s.trxs, bs.trxs, HEAD, PENDING);
    MoveListKeeps(db, bs.trxs, PENDING, HEAD);
    PlayedIsServed(e, db, Replace(e, s, blk, bs).0, |s.chain| - 1);
    hide *;
  }

  lemma ReplaceServes(e: Env, s: NodeState, blk: Block)
    requires s.chain != [] && ServesFirst(e, s, |s.chain| - 1) && blk.state in s.states
    requires |s.chain| == 1 ==> s.states[blk.state].trxs == []
    requires Replace(e, s, blk, s.states[blk.state]).1 == 1
    ensures ServesAll(e, Replace(e, s, blk, s.states[blk.state]).0)
  {
    var bs, m := s.states[blk.state], |s.chain| - 1;
    var s' := Replace(e, s, blk, bs).0;
    assert |s.hist| == m + 1;
    ReplacePlayed(e, s, blk);
    ReplacedState(e, s, blk, bs);
    ReplaceAgrees(e, s, blk, bs);
    ReplacePlaces(e, s, blk, bs);
    assert ListAt(s', m) == bs.trxs;
    hide *;
    NewHeadServes(e, s, s', m);
  }

  lemma ReplacedState(e: Env, s: NodeState, blk: Block, bs: BlockState)
    requires s.chain != [] && Replace(e, s, blk, bs).1 == 1 && |s.hist| == |s.chain|
    ensures var s' := Replace(e, s, blk, bs).0; var m := |s.chain| - 1;
      var db := MoveList(s.trxs, bs.trxs, HEAD, PENDING);
      && |s'.chain| == m + 1 == |s'.hist| && s'.chain[m] == blk && s'.hist[m] == PlayedBlock(blk, bs, db)
      && s'.chain[..m] == s.chain[..m] && s'.hist[..m] == s.hist[..m] && s'.states == s.states
  {
    hide Validates, TryApply, MoveList, PlayedBlock;
  }

  // ---------------------------------------------------------------- changes that leave the chain alone

  lemma OtherChangesServe(e: Env, s: NodeState, s': NodeState, m: nat)
    requires ServesFirst(e, s, m) && Agrees(e, s') && OneGroup(s'.trxs) && KeyedByHash(e, s'.trxs)
    requires s'.chain == s.chain && s'.hist == s.hist && StoreKept(s.trxs, s'.trxs)
    requires forall i: nat :: i < m ==> KeepsState(s, s', i)
    requires forall h :: InGroup(s, APPLIED, h) ==> InGroup(s', APPLIED, h)
    requires forall h :: InGroup(s, HEAD, h) ==> InGroup(s', HEAD, h)
    ensures ServesFirst(e, s', m)
  {
    hide ServesBlock, KeyedByHash, ListAt, Agrees, InGroup, Keeps, OneGroup, KeepsState;
    PrefixServed(e, s, s', m);
  }

  lemma RejectedReplaceServes(e: Env, s: NodeState, blk: Block, bs: BlockState)
    requires ServesAll(e, s) && s.chain != [] && Replace(e, s, blk, bs).1 != 1
    ensures ServesAll(e, Replace(e, s, blk, bs).0)
  {
    var s' := Replace(e, s, blk, bs).0;
    ReplaceTrxs(e, s, blk, bs);
    ReplaceAgrees(e, s, blk, bs);
    ReplaceKeepsStore(e, s, blk, bs);
    var db := MoveList(s.trxs, bs.trxs, HEAD, PENDING);
    MoveListKeyed(e, s.trxs, bs.trxs, HEAD, PENDING);
    MoveListKeyed(e, db, bs.trxs, PENDING, HEAD);
    forall h
      ensures InGroup(s, APPLIED, h) ==> InGroup(s', APPLIED, h)
      ensures InGroup(s, HEAD, h) ==> InGroup(s', HEAD, h)
    {
      MovedKeys(s.trxs, bs.trxs, HEAD, PENDING, h);
      MovedKeys(db, bs.trxs, PENDING, HEAD, h);
    }
    assert SameLedger(s, s');
    hide Replace, MoveList, Reached, KeyedByHash, Agrees, OneGroup, Keeps, InGroup, ServesFirst;
    OtherChangesServe(e, s, s', |s.chain|);
  }

  lemma AppendRejected(e: Env, s: NodeState, blk: Block, bs: BlockState)
    requires Append(e, s, blk, bs).1 != 1
    ensures Append(e, s, blk, bs).0 == s
  {
    hide Validates, TryApply;
  }

  lemma ReceivedServes(e: Env, s: NodeState, fbs: FullBlock, m: nat)
    requires ServesFirst(e, s, m) && m <= |s.chain|
    requires forall i: nat :: i < m ==> KeepsState(s, Received(e, s, fbs), i)
    ensures ServesFirst(e, Received(e, s, fbs), m)
  {
    var s' := Received(e, s, fbs);
    AgreesKept(e, s, s');
    StoreAllKeyed(e, s.trxs, fbs.trxs);
    StoreAllKeeps(e, s.trxs, fbs.trxs);
    forall h
      ensures InGroup(s, APPLIED, h) ==> InGroup(s', APPLIED, h)
      ensures InGroup(s, HEAD, h) ==> InGroup(s', HEAD, h)
    {
      StoreAllAt(e, s.trxs, fbs.trxs, h);
    }
    hide StoreAll, KeyedByHash, Agrees, OneGroup, Keeps, InGroup, ServesFirst, KeepsState;
    OtherChangesServe(e, s, s', m);
  }

  lemma SubmitServes(e: Env, s: NodeState, t: SignedTrx)
    requires ServesAll(e, s)
    ensures ServesAll(e, AddTransaction(e, s, t).0)
  {
    var s' := AddTransaction(e, s, t).0;
    AgreesKept(e, s, s');
    SubmitKeepsStore(e, s, t);
    hide Agrees, OneGroup, Keeps, ServesFirst;
    OtherChangesServe(e, s, s', |s.chain|);
  }

  lemma BuildServes(e: Env, s: NodeState, gen: string, order: seq<Entry>, now: u32)
    requires ServesAll(e, s) && s.chain != []
    requires forall i: nat :: i < |s.chain| ==> KeepsState(s, Candidate(e, s, gen, order, now).0, i)
    ensures ServesAll(e, Candidate(e, s, gen, order, now).0)
  {
    var s' := Candidate(e, s, gen, order, now).0;
    NextAgrees(e, s, Build(gen, order, now));
    KeepsReflexive(s.trxs);
    BuildShape(e, s, gen, order, now);
    hide Candidate, Agrees, OneGroup, Keeps, ServesFirst, KeepsState;
    OtherChangesServe(e, s, s', |s.chain|);
  }

  lemma BuildShape(e: Env, s: NodeState, gen: string, order: seq<Entry>, now: u32)
    requires s.chain != []
    ensures var s' := Candidate(e, s, gen, order, now).0; var bs := CandidateState(e, s, gen, order);
      s' == s.(gen := s'.gen, states := s.states[e.stateHash(bs) := bs])
  {
    hide Select, CandidateState;
  }

  // ---------------------------------------------------------------- what a full block does to the blocks served

  /** What is found for a list determines the list. */
  lemma {:induction false} FoundDetermines(e: Env, db: TrxDb, list: seq<Hash>)
    requires KeyedByHash(e, db) && FindAll(db, list).Ok?
    ensures var ts := FindAll(db, list).value;
      |ts| == |list| && forall j :: 0 <= j < |list| ==> e.signedHash(ts[j]) == list[j]
  {
    FindAllEach(db, list);
    forall j | 0 <= j < |list|
      ensures e.signedHash(FindAll(db, list).value[j]) == list[j]
    {
      FoundUnderHash(e, db, list[j]);
    }
    hide FindAll, FindTrx, KeyedByHash;
  }

  lemma FoundListServes(e: Env, s: NodeState, i: nat)
    requires i < |s.chain| == |s.hist| && KeyedByHash(e, s.trxs) && s.chain[i].state in s.states
    ensures var bs := s.states[s.chain[i].state]; var r := FindAll(s.trxs, bs.trxs);
      ServesBlock(e, s, i) <==>
        r.Ok? && s.hist[i] == Played(s.chain[i], bs.generator, if i == 0 then [] else r.value, bs.stateDb)
  {
    var list := ListAt(s, i);
    if FindAll(s.trxs, list).Ok? {
      FindAllEach(s.trxs, list);
      forall h | h in list
        ensures FindTrx(s.trxs, h).Some? && e.signedHash(FindTrx(s.trxs, h).value) == h
      {
        var j :| 0 <= j < |list| && list[j] == h;
        FoundUnderHash(e, s.trxs, h);
      }
    }
    hide FindAll, FindTrx, KeyedByHash;
  }

  /** A full block that arrives, accepted or refused, overwrites the state stored under its state hash before
      anything is checked.  A block is still served exactly when that is not its state, or the new state has the
      generator, the checksum and the transactions that were applied. */
  lemma ReceivedServesExactly(e: Env, s: NodeState, fbs: FullBlock, i: nat)
    requires ServesAll(e, s) && i < |s.chain|
    ensures ServesBlock(e, Received(e, s, fbs), i) <==>
      || fbs.blk.state != s.chain[i].state
      || (&& fbs.state.generator == s.hist[i].gen && fbs.state.stateDb == s.hist[i].check
          && var r := FindAll(StoreAll(e, s.trxs, fbs.trxs), fbs.state.trxs);
             r.Ok? && (i == 0 || r.value == s.hist[i].trxs))
  {
    var s1 := Received(e, s, fbs);
    assert ServesBlock(e, s, i);
    StoreAllKeyed(e, s.trxs, fbs.trxs);
    StoreAllKeeps(e, s.trxs, fbs.trxs);
    if fbs.blk.state != s.chain[i].state {
      StillServed(e, s, s1, i);
    } else {
      FoundListServes(e, s1, i);
    }
    assert i == 0 ==> s.hist[0].trxs == [];
    assert s.hist[i].blk == s.chain[i];
    hide StoreAll, FindAll, FindTrx, Agrees, OneGroup, Keeps, InGroup, ServesFirst;
  }

  /** A reply that is refused because its block follows neither the head nor the head's parent. */
  function Unrelated(e: Env, s: NodeState, i: nat): Block
    requires i < |s.chain|
  {
    var a, b := e.blockHash(LastBlockOf(s)), LastBlockOf(s).prevBlock;
    Block(if 0 != a && 0 != b then 0 else if 1 != a && 1 != b then 1 else 2, 0, 0, s.chain[i].state, 0)
  }

  /** For every block a node serves there is a reply that the node refuses and that stops it from serving the
      block: its state names another generator. */
  lemma RefusedReplyBreaksServing(e: Env, s: NodeState, i: nat, now: u32)
    requires ServesAll(e, s) && i < |s.chain|
    ensures s.chain[i].state in s.states
    ensures var bad := s.states[s.chain[i].state].(generator := s.states[s.chain[i].state].generator + "x");
      var (s', rc) := AddFullBlock(e, s, FullBlock(0, 0, Unrelated(e, s, i), bad, []), now);
      rc == -1 && s'.chain == s.chain && !ServesBlock(e, s', i)
  {
    assert ServesBlock(e, s, i);
    var st := s.chain[i].state;
    var bad := s.states[st].(generator := s.states[st].generator + "x");
    var fbs := FullBlock(0, 0, Unrelated(e, s, i), bad, []);
    assert |bad.generator| != |s.states[st].generator|;
    ReceivedServesExactly(e, s, fbs, i);
    assert AddFullBlock(e, s, fbs, now) == (Received(e, s, fbs), -1);
    hide ServesAll, StoreAll, FindAll;
  }

  // ---------------------------------------------------------------- every step, exactly

  /** The guards on the way to an accepted sibling, all of them decided by the present state. */
  predicate TakesOver(e: Env, s: NodeState, blk: Block, now: u32) {
    && s.chain != [] && blk.state in s.states && blk.utcTime <= (now + 30) % TWO_32
    && blk.prevBlock != e.blockHash(LastBlockOf(s)) && blk.prevBlock == LastBlockOf(s).prevBlock
    && Reached(e, s, blk)
    && var bs := s.states[blk.state]; Accepts(TryApply(e, s.base, blk, bs, MoveList(s.trxs, bs.trxs, HEAD, PENDING)))
  }

  /** The first `m` blocks that have this state hash have this very content stored. */
  predicate Consistent(s: NodeState, st: Hash, bs: BlockState, m: nat)
    requires m <= |s.chain|
  {
    forall i: nat :: i < m && s.chain[i].state == st && st in s.states ==> SameContent(s.states[st], bs)
  }

  /** What the sibling that takes over leaves out of account: the block it replaces. */
  function Staying(e: Env, s: NodeState, blk: Block, now: u32): nat {
    if TakesOver(e, s, blk, now) then |s.chain| - 1 else |s.chain|
  }

  /** What keeps a node able to serve, as conditions on its state and the step.  A block state may be overwritten
      only by one of the same content, as far as a block that stays uses it; and the first block may not be
      replaced by one with transactions, since a fresh node applies none. */
  predicate Careful(e: Env, s: NodeState, step: NodeStep) {
    match step
    case Deliver(blk, now) =>
      |s.chain| == 1 && TakesOver(e, s, blk, now) ==> s.states[blk.state].trxs == []
    case DeliverFull(fbs, now) =>
      var s1 := Received(e, s, fbs);
      && Consistent(s, fbs.blk.state, fbs.state, Staying(e, s1, fbs.blk, now))
      && (|s.chain| == 1 && TakesOver(e, s1, fbs.blk, now) ==> fbs.state.trxs == [])
    case Submit(_) => true
    case Build(gen, order, _) =>
      var bs := CandidateState(e, s, gen, order); Consistent(s, e.stateHash(bs), bs, |s.chain|)
  }

  lemma AddBlockCases(e: Env, s: NodeState, blk: Block, now: u32)
    requires s.chain != []
    ensures var r := AddBlock(e, s, blk, now);
      if TakesOver(e, s, blk, now) then
        r == Replace(e, s, blk, s.states[blk.state]) && r.1 == 1
      else
        || r.0 == s
        || (blk.state in s.states && r == Append(e, s, blk, s.states[blk.state]) && r.1 == 1)
        || (blk.state in s.states && r == Replace(e, s, blk, s.states[blk.state]) && r.1 != 1)
  {
    if blk.state in s.states {
      ReplaceAccepts(e, s, blk, s.states[blk.state]);
      if Append(e, s, blk, s.states[blk.state]).1 != 1 {
        AppendRejected(e, s, blk, s.states[blk.state]);
      }
      AppendCodes(e, s, blk, s.states[blk.state]);
    }
    hide Append, Replace, Reached, TryApply, MoveList;
  }

  lemma AppendCodes(e: Env, s: NodeState, blk: Block, bs: BlockState)
    ensures Append(e, s, blk, bs).1 == 1 || Append(e, s, blk, bs).1 == -3
  {
    hide Validates, TryApply;
  }

  lemma ReplaceAccepts(e: Env, s: NodeState, blk: Block, bs: BlockState)
    requires s.chain != []
    ensures Replace(e, s, blk, bs).1 == 1 <==>
      Reached(e, s, blk) && Accepts(TryApply(e, s.base, blk, bs, MoveList(s.trxs, bs.trxs, HEAD, PENDING)))
  {
    hide Validates, TryApply, MoveList;
  }

  /** A block that stays is served before and after only if its state's content is the same. */
  lemma ServedKeepsState(e: Env, s: NodeState, s': NodeState, i: nat)
    requires ServesFirst(e, s, i + 1) && ServesFirst(e, s', i + 1)
    requires s'.chain[i] == s.chain[i] && s'.hist[i] == s.hist[i]
    ensures KeepsState(s, s', i)
  {
    assert ServesBlock(e, s, i) && ServesBlock(e, s', i);
    var a, b := ListAt(s, i), ListAt(s', i);
    FoundDetermines(e, s.trxs, a);
    FoundDetermines(e, s'.trxs, b);
    if i > 0 {
      assert FindAll(s.trxs, a).value == FindAll(s'.trxs, b).value;
      hide FindAll, FindTrx;
      assert a == b;
    }
    hide FindAll, FindTrx, Agrees, OneGroup, KeyedByHash, InGroup;
  }

  /** What `add_block` does to a node whose staying blocks are served. */
  lemma AddBlockServes(e: Env, s: NodeState, blk: Block, now: u32)
    requires s.chain != [] && ServesFirst(e, s, Staying(e, s, blk, now))
    requires |s.chain| == 1 && TakesOver(e, s, blk, now) ==> s.states[blk.state].trxs == []
    ensures ServesAll(e, AddBlock(e, s, blk, now).0)
  {
    AddBlockCases(e, s, blk, now);
    hide AddBlock, TakesOver, ServesFirst;
    if TakesOver(e, s, blk, now) {
      assert blk.state in s.states;
      ReplaceServes(e, s, blk);
    } else if AddBlock(e, s, blk, now).0 != s {
      if AddBlock(e, s, blk, now).1 == 1 && AddBlock(e, s, blk, now) == Append(e, s, blk, s.states[blk.state]) {
        AppendServes(e, s, blk);
      } else {
        RejectedReplaceServes(e, s, blk, s.states[blk.state]);
      }
    }
  }

  /** A first block with transactions is not served: a fresh node would not apply them. */
  lemma FirstWithListIsNotServed(e: Env, s: NodeState, blk: Block, now: u32)
    requires |s.chain| == |s.hist| == 1 && TakesOver(e, s, blk, now) && s.states[blk.state].trxs != []
    ensures !ServesAll(e, AddBlock(e, s, blk, now).0)
  {
    AddBlockCases(e, s, blk, now);
    ReplacedState(e, s, blk, s.states[blk.state]);
    assert ListAt(AddBlock(e, s, blk, now).0, 0) == s.states[blk.state].trxs;
    hide AddBlock, Replace, TakesOver, Agrees, ServesBlock;
  }

  lemma ServesFewer(e: Env, s: NodeState, m: nat, n: nat)
    requires ServesFirst(e, s, n) && m <= n
    ensures ServesFirst(e, s, m)
  {
    hide Agrees, ServesBlock, ListAt, InGroup, OneGroup, KeyedByHash;
  }

  /** `add_block` leaves the staying blocks and their history alone. */
  lemma StayingBlocks(e: Env, s: NodeState, blk: Block, now: u32, i: nat)
    requires |s.chain| == |s.hist| && s.chain != [] && i < Staying(e, s, blk, now)
    ensures var s' := AddBlock(e, s, blk, now).0;
      i < |s'.chain| == |s'.hist| && s'.chain[i] == s.chain[i] && s'.hist[i] == s.hist[i] && s'.states == s.states
  {
    var s' := AddBlock(e, s, blk, now).0;
    AddBlockCases(e, s, blk, now);
    hide AddBlock, TakesOver;
    if TakesOver(e, s, blk, now) {
      ReplacedState(e, s, blk, s.states[blk.state]);
      SameEntry(s.chain, s'.chain, |s.chain| - 1, i);
      SameEntry(s.hist, s'.hist, |s.chain| - 1, i);
    } else if s' != s {
      var bs := s.states[blk.state];
      if AddBlock(e, s, blk, now) == Append(e, s, blk, bs) && Append(e, s, blk, bs).1 == 1 {
        AppendedState(e, s, blk, bs);
        SameEntry(s.chain, s'.chain, |s.chain|, i);
        SameEntry(s.hist, s'.hist, |s.chain|, i);
      } else {
        ReplaceShapeOnly(e, s, blk, bs);
      }
    }
    hide *;
  }

  lemma FullBlockServes(e: Env, s: NodeState, fbs: FullBlock, now: u32)
    requires ServesAll(e, s) && s.chain != [] && Careful(e, s, DeliverFull(fbs, now))
    ensures ServesAll(e, AddFullBlock(e, s, fbs, now).0)
  {
    var s1 := Received(e, s, fbs);
    var m := Staying(e, s1, fbs.blk, now);
    assert AddFullBlock(e, s, fbs, now) == AddBlock(e, s1, fbs.blk, now);
    assert s1.states[fbs.blk.state] == fbs.state && m <= |s.chain|;
    forall i: nat | i < m
      ensures KeepsState(s, s1, i)
    {
    }
    hide ServesFirst, Received, AddBlock, AddFullBlock, TakesOver, StoreAll, KeepsState;
    ServesFewer(e, s, m, |s.chain|);
    ReceivedServes(e, s, fbs, m);
    AddBlockServes(e, s1, fbs.blk, now);
  }

  lemma FullBlockNeedsCare(e: Env, s: NodeState, fbs: FullBlock, now: u32)
    requires ServesAll(e, s) && s.chain != [] && ServesAll(e, AddFullBlock(e, s, fbs, now).0)
    ensures Careful(e, s, DeliverFull(fbs, now))
  {
    var s1, s' := Received(e, s, fbs), AddFullBlock(e, s, fbs, now).0;
    var m := Staying(e, s1, fbs.blk, now);
    assert s' == AddBlock(e, s1, fbs.blk, now).0 && s1.states[fbs.blk.state] == fbs.state;
    assert s1.chain == s.chain && s1.hist == s.hist && |s.hist| == |s.chain|;
    assert TakesOver(e, s1, fbs.blk, now) && |s.chain| == 1 && fbs.state.trxs != [] ==> false by {
      if TakesOver(e, s1, fbs.blk, now) && |s.chain| == 1 && fbs.state.trxs != [] {
        FirstWithListIsNotServed(e, s1, fbs.blk, now);
      }
    }
    hide ServesFirst, Received, AddBlock, AddFullBlock, TakesOver, StoreAll;
    forall i: nat | i < m && s.chain[i].state == fbs.blk.state && fbs.blk.state in s.states
      ensures SameContent(s.states[fbs.blk.state], fbs.state)
    {
      StayingBlocks(e, s1, fbs.blk, now, i);
      ServesFewer(e, s, i + 1, |s.chain|);
      ServesFewer(e, s', i + 1, |s'.chain|);
      ServedKeepsState(e, s, s', i);
    }
  }

  lemma BuildNeedsCare(e: Env, s: NodeState, gen: string, order: seq<Entry>, now: u32)
    requires ServesAll(e, s) && s.chain != [] && ServesAll(e, Candidate(e, s, gen, order, now).0)
    ensures Careful(e, s, Build(gen, order, now))
  {
    var s', bs := Candidate(e, s, gen, order, now).0, CandidateState(e, s, gen, order);
    BuildShape(e, s, gen, order, now);
    hide ServesFirst, Candidate, CandidateState;
    forall i: nat | i < |s.chain| && s.chain[i].state == e.stateHash(bs) && e.stateHash(bs) in s.states
      ensures SameContent(s.states[e.stateHash(bs)], bs)
    {
      ServesFewer(e, s, i + 1, |s.chain|);
      ServesFewer(e, s', i + 1, |s.chain|);
      ServedKeepsState(e, s, s', i);
    }
  }

  lemma BuildServesExactly(e: Env, s: NodeState, gen: string, order: seq<Entry>, now: u32)
    requires ServesAll(e, s) && s.chain != []
    ensures ServesAll(e, Candidate(e, s, gen, order, now).0) <==> Careful(e, s, Build(gen, order, now))
  {
    BuildShape(e, s, gen, order, now);
    hide ServesFirst, Candidate, CandidateState;
    if Careful(e, s, Build(gen, order, now)) {
      BuildServes(e, s, gen, order, now);
    } else if ServesAll(e, Candidate(e, s, gen, order, now).0) {
      BuildNeedsCare(e, s, gen, order, now);
    }
  }

  lemma DeliverServesExactly(e: Env, s: NodeState, blk: Block, now: u32)
    requires ServesAll(e, s) && s.chain != [] && |s.hist| == |s.chain|
    ensures ServesAll(e, AddBlock(e, s, blk, now).0) <==> Careful(e, s, Deliver(blk, now))
  {
    hide ServesFirst, AddBlock, TakesOver;
    ServesFewer(e, s, Staying(e, s, blk, now), |s.chain|);
    if Careful(e, s, Deliver(blk, now)) {
      AddBlockServes(e, s, blk, now);
    } else {
      assert TakesOver(e, s, blk, now) ==> blk.state in s.states by { TakesOverKnows(e, s, blk, now); }
      FirstWithListIsNotServed(e, s, blk, now);
    }
  }

  lemma TakesOverKnows(e: Env, s: NodeState, blk: Block, now: u32)
    ensures TakesOver(e, s, blk, now) ==> blk.state in s.states
  {}

  /** A step keeps a node able to serve its whole chain exactly when it is careful. */
  lemma NextServesExactly(e: Env, s: NodeState, step: NodeStep)
    requires ServesAll(e, s)
    ensures ServesAll(e, Next(e, s, step)) <==> Careful(e, s, step)
  {
    assert s.chain != [] && |s.hist| == |s.chain|;
    match step
    case Deliver(blk, now) => DeliverServesExactly(e, s, blk, now);
    case DeliverFull(fbs, now) =>
      if Careful(e, s, step) {
        FullBlockServes(e, s, fbs, now);
      } else if ServesAll(e, Next(e, s, step)) {
        FullBlockNeedsCare(e, s, fbs, now);
      }
    case Submit(t) => SubmitServes(e, s, t);
    case Build(gen, order, now) => BuildServesExactly(e, s, gen, order, now);
    hide *;
  }

  /** A first block without transactions whose checksum is that of the empty log starts such a node. */
  lemma GenesisServes(e: Env, s: NodeState, blk: Block)
    requires s == FRESH_NODE.(trxs := s.trxs, states := s.states) && OneGroup(s.trxs) && KeyedByHash(e, s.trxs)
    requires blk.state in s.states && s.states[blk.state].trxs == [] && s.states[blk.state].stateDb == StateHash(e, [])
    ensures ServesAll(e, Genesis(e, s, blk, s.states[blk.state].generator, s.states[blk.state].stateDb))
  {
    var bs := s.states[blk.state];
    var p := Played(blk, bs.generator, [], bs.stateDb);
    var s' := Genesis(e, s, blk, bs.generator, bs.stateDb);
    FirstBlock(e, p);
    GenesisAgrees(e, s, blk, bs.generator, bs.stateDb);
    assert PlayOne(e, Empty, p) == ApplyBlock(e, Empty, blk, bs.generator, [], bs.stateDb);
    assert s'.chain == [blk] && s'.hist == [p] && s'.trxs == s.trxs && s'.states == s.states;
    hide Genesis, PlayOne, ApplyBlock, Agrees, OneGroup, KeyedByHash, StateHash;
    assert ListAt(s', 0) == [] && ServesBlock(e, s', 0);
  }

  // ---------------------------------------------------------------- whole runs

  ghost predicate CarefulRun(e: Env, s: NodeState, steps: seq<NodeStep>)
    decreases |steps|
  {
    steps == [] || (Careful(e, s, steps[0]) && CarefulRun(e, Next(e, s, steps[0]), steps[1..]))
  }

  /** The node serves its whole chain at every moment of the run. */
  ghost predicate ServesAlong(e: Env, s: NodeState, steps: seq<NodeStep>)
    decreases |steps|
  {
    ServesAll(e, s) && (steps == [] || ServesAlong(e, Next(e, s, steps[0]), steps[1..]))
  }

  /** A node can serve every block it holds, with the transactions its ledger applied, at every moment of a run
      exactly when every step of the run is careful. */
  lemma {:induction false} ServingOverRunsExactly(e: Env, s: NodeState, steps: seq<NodeStep>)
    requires ServesAll(e, s)
    ensures ServesAlong(e, s, steps) <==> CarefulRun(e, s, steps)
    decreases |steps|
  {
    hide ServesAll, Next, Careful;
    if steps != [] {
      NextServesExactly(e, s, steps[0]);
      if ServesAll(e, Next(e, s, steps[0])) {
        ServingOverRunsExactly(e, Next(e, s, steps[0]), steps[1..]);
      }
    }
  }

  lemma {:induction false} ServesAtEnd(e: Env, s: NodeState, steps: seq<NodeStep>)
    requires ServesAlong(e, s, steps)
    ensures ServesAll(e, Run(e, s, steps))
    decreases |steps|
  {
    hide ServesAll, Next;
    if steps != [] {
      ServesAtEnd(e, Next(e, s, steps[0]), steps[1..]);
    }
  }

  /** So a fresh node that asks it ends with the same chain and the same ledger. */
  lemma FreshNodeCatchesUp(e: Env, start: NodeState, steps: seq<NodeStep>, clock: nat -> u32)
    requires ServesAll(e, start) && CarefulRun(e, start, steps)
    requires var peer := Run(e, start, steps); |peer.chain| < INT32 && InTime(peer, clock)
    ensures var peer := Run(e, start, steps); var (s', replies) := Converse(e, peer, FRESH_NODE, clock, 0);
      SameView(s', peer) && replies == |peer.chain|
  {
    var peer := Run(e, start, steps);
    ServingOverRunsExactly(e, start, steps);
    ServesAtEnd(e, start, steps);
    ServingIsHonest(e, peer);
    FreshFollows(e, peer);
    assert peer.chain != [];
    hide Converse, Honest, Follows, Run, InTime, CarefulRun;
    CatchUpConverges(e, peer, FRESH_NODE, clock, 0);
  }

  lemma FreshFollows(e: Env, peer: NodeState)
    requires |peer.chain| == |peer.hist|
    ensures Follows(e, peer, FRESH_NODE)
  {}

  // ---------------------------------------------------------------- a first block with transactions

  /** A transaction, applied or not, leaves at least its start record. */
  lemma TrxsLeaveRecords(e: Env, trxs: seq<SignedTrx>, gen: string)
    requires trxs != []
    ensures ApplyTrxs(e, Empty, trxs, gen).log != Empty
  {
    var o, start := ApplyTrx(e, Empty, trxs[0], gen), StartTrx(e.trxHash(trxs[0]), trxs[0].utcTime);
    StartGrows(e, Empty, start);
    ApplyCommandsGrows(e, Snoc(Empty, start), trxs[0], 0, gen, At(Size(e, Empty)));
    if o.status.Applied? {
      ApplyTrxsGrows(e, o.log, trxs[1..], gen);
    }
    hide ApplyCommands, WellFormed, TrxLoc;
  }

  /** The one-block peer can answer, and its stored block state is that of its history. */
  predicate Answers(peer: NodeState) {
    && |peer.chain| == |peer.hist| == 1 && peer.chain[0].state in peer.states
    && var bs := peer.states[peer.chain[0].state];
       bs.generator == peer.hist[0].gen && bs.stateDb == peer.hist[0].check && FindAll(peer.trxs, bs.trxs).Ok?
  }

  /** A fresh node takes over the first block of an agreeing peer in any case, but it ends with the peer's ledger
      exactly when the peer applied no transactions with that block. */
  lemma FirstReplyExactly(e: Env, peer: NodeState, s: NodeState, now: u32)
    requires Agrees(e, peer) && Answers(peer) && s == FRESH_NODE.(trxs := s.trxs, states := s.states)
    ensures GetFullBlock(peer, 0) == Ok(ReplyAt(peer, 0))
    ensures var s' := AddFullBlock(e, s, ReplyAt(peer, 0), now).0;
      s'.chain == peer.chain && (s'.head == peer.head <==> peer.hist[0].trxs == [])
  {
    var fbs, p := ReplyAt(peer, 0), peer.hist[0];
    assert GetFullBlock(peer, 0) == Ok(fbs);
    ReplaySnoc(e, [], p);
    assert peer.hist == [] + [p] && p.blk == peer.chain[0];
    assert Some(peer.head) == Some(PlayOne(e, Empty, p).log) && PlayOne(e, Empty, p).status.Applied?;
    var s' := AddFullBlock(e, s, fbs, now).0;
    assert s'.head == ApplyBlock(e, Empty, p.blk, p.gen, [], p.check).log && s'.chain == [peer.chain[0]];
    assert peer.head == Snoc(ApplyTrxs(e, Empty, p.trxs, p.gen).log, EndBlock(p.blk, p.gen));
    if p.trxs != [] {
      TrxsLeaveRecords(e, p.trxs, p.gen);
    }
    assert ApplyTrxs(e, Empty, [], p.gen).log == Empty;
    hide ApplyTrxs, StoreAll, FindAll, Agrees, Replay, StateHash, AddFullBlock, PlayOne;
  }

  /** So a first block that is replaced by one with transactions leaves every fresh node with another ledger. */
  lemma ReplacedFirstIsNotFollowed(e: Env, s: NodeState, blk: Block, now: u32, newcomer: NodeState, later: u32)
    requires Agrees(e, s) && OneGroup(s.trxs) && KeyedByHash(e, s.trxs) && |s.chain| == 1
    requires TakesOver(e, s, blk, now) && s.states[blk.state].trxs != []
    requires newcomer == FRESH_NODE.(trxs := newcomer.trxs, states := newcomer.states)
    ensures var peer := AddBlock(e, s, blk, now).0;
      && Agrees(e, peer) && Answers(peer)
      && var s' := AddFullBlock(e, newcomer, ReplyAt(peer, 0), later).0; s'.chain == peer.chain && s'.head != peer.head
  {
    var bs, peer := s.states[blk.state], AddBlock(e, s, blk, now).0;
    var db := MoveList(s.trxs, bs.trxs, HEAD, PENDING);
    AddBlockCases(e, s, blk, now);
    AddBlockAgrees(e, s, blk, now);
    ReplacedState(e, s, blk, bs);
    ReplaceTrxs(e, s, blk, bs);
    MoveListKeeps(s.trxs, bs.trxs, HEAD, PENDING);
    MoveListKeeps(db, bs.trxs, PENDING, HEAD);
    FetchComplete(db, bs.trxs, PENDING);
    FetchedIsFound(db, bs.trxs);
    FindAllKept(db, peer.trxs, bs.trxs);
    hide AddBlock, Replace, MoveList, Agrees, TakesOver, FindAll, OneGroup, Keeps, Reached, Fetch, AddFullBlock;
    FirstReplyExactly(e, peer, newcomer, later);
  }
}
