/** The node as an object over its layers (libs/gpm/node/node.cpp): every handler is proved against the
    state machine of NodeSpec. */
module Nodes {
  import opened Common
  import opened BlockChain
  import opened Records
  import opened TrxFile
  import opened StateDatabases
  import opened NodeSpec
  import opened NodeRuns
  import opened Generation
  import opened StoreMoves
  import L = Ledger

  /** The candidate's log can be written: its records pack, and positions stay below the source's -1. */
  ghost predicate Fits(e: Env, o: Option<L.Outcome>) {
    o.Some? ==> Encodable(e, o.value.log)
  }

  ghost predicate AppendFits(e: Env, s: NodeState, blk: Block, bs: BlockState) {
    Fits(e, TryApply(e, s.head, blk, bs, s.trxs))
  }

  ghost predicate ReplaceFits(e: Env, s: NodeState, blk: Block, bs: BlockState) {
    Fits(e, TryApply(e, s.base, blk, bs, MoveList(s.trxs, bs.trxs, HEAD, PENDING)))
  }

  ghost predicate BlockFits(e: Env, s: NodeState, blk: Block) {
    blk.state in s.states ==>
      AppendFits(e, s, blk, s.states[blk.state]) && ReplaceFits(e, s, blk, s.states[blk.state])
  }

  /** Every pending transaction that is tried, also one that fails half-way, fits the log. */
  ghost predicate SelectFits(e: Env, l: Log, order: seq<Entry>, gen: string)
    decreases |order|
  {
    order == [] ||
    (var o := L.ApplyTrx(e, l, order[0].trx, gen);
     Encodable(e, o.log) && SelectFits(e, if o.status.Applied? then o.log else l, order[1..], gen))
  }

  class Node {
    const e: Env
    const file: File

    var chain: seq<Block>
    var stateDb: StateDatabase
    var headTrx: StateDatabase
    var genTrx: StateDatabase
    var trxDb: TrxDb
    var blockStates: map<Hash, BlockState>
    /** What the file `blockchain` holds. */
    var saved: Option<seq<Block>>

    /** The log in the state file, and what was applied for the held chain. */
    ghost var disk: Log
    ghost var hist: seq<Played>

    /** Three layers, one on top of the other. */
    ghost predicate Layers()
      reads `stateDb, `headTrx, `genTrx, stateDb, headTrx, genTrx,
            stateDb.below, headTrx.below, genTrx.below, file`content
    {
      && stateDb.base == null && stateDb.e == e && stateDb.file == file
      && headTrx.base == stateDb && genTrx.base == headTrx && headTrx.file == genTrx.file == file
      && stateDb.Valid() && headTrx.Valid() && genTrx.Valid()
    }

    /** The layers and the two logs behind them, whatever the chain. */
    ghost predicate Sound()
      reads `stateDb, `headTrx, `genTrx, `disk, stateDb, headTrx, genTrx,
            stateDb.below, headTrx.below, genTrx.below, file
    {
      && Layers() && stateDb.local == []
      && file.content == Bytes(e, disk) && (file.content == [] ==> file.cursor == 0)
    }

    ghost predicate Valid()
      reads this, stateDb, headTrx, genTrx, stateDb.below, headTrx.below, genTrx.below, file
    {
      Sound() && (chain == [] ==> Untouched())
    }

    ghost predicate Untouched()
      reads `genTrx, genTrx
    {
      genTrx.local == [] && genTrx.names == map[] && genTrx.transfers == map[]
    }

    ghost function Abs(): NodeState
      reads this, stateDb, headTrx, genTrx
    {
      NodeState(chain, stateDb.log, headTrx.log, genTrx.log, trxDb, blockStates, saved, disk, hist)
    }

    /** A node opened on an empty directory. */
    constructor (e: Env)
      ensures Valid() && this.e == e && Abs() == FRESH_NODE
      ensures fresh(this) && fresh(file) && fresh(stateDb) && fresh(headTrx) && fresh(genTrx)
    {
      hide *;
      this.e := e;
      var f := new File();
      var s := new StateDatabase.Root(e, f);
      var h := new StateDatabase.Over(s);
      var g := new StateDatabase.Over(h);
      file, stateDb, headTrx, genTrx := f, s, h, g;
      chain, trxDb, blockStates, saved := [], map[], map[], None;
      disk, hist := Empty, [];
      new;
      Opened();
    }

    lemma Opened()
      requires stateDb.base == null && stateDb.local == [] && stateDb.e == e && stateDb.file == file
      requires headTrx.base == stateDb && genTrx.base == headTrx && headTrx.file == genTrx.file == file
      requires stateDb.Valid() && headTrx.Valid() && genTrx.Valid()
      requires stateDb.log == headTrx.log == genTrx.log == disk == Empty && file.content == [] && file.cursor == 0
      requires chain == [] && trxDb == map[] && blockStates == map[] && saved == None && hist == []
      requires genTrx.local == [] && genTrx.names == map[] && genTrx.transfers == map[]
      ensures Valid() && Abs() == FRESH_NODE
    {
      hide StateDatabase.Valid;
    }

    // -------------------------------------------------------------- the transaction store

    /** Lines 106-122. */
    method FetchTransactions(list: seq<Hash>, group: int) returns (strx: seq<SignedTrx>)
      ensures strx == GetTransactions(trxDb, list, group)
    {
      strx := [];
      for i := 0 to |list|
        invariant Fetch(trxDb, list[..i], group) == Some(strx)
      {
        assert list[..i + 1][..i] == list[..i];
        if TrxKey(group, list[i]) !in trxDb {
          assert list[i] in list && TrxKey(group, list[i]) !in trxDb;
          MissingFetch(trxDb, list, group, i);
          return [];
        }
        strx := strx + [trxDb[TrxKey(group, list[i])]];
      }
      assert list[..|list|] == list;
    }

    static lemma MissingFetch(db: TrxDb, list: seq<Hash>, group: int, i: nat)
      requires i < |list| && TrxKey(group, list[i]) !in db
      ensures Fetch(db, list, group) == None
    {}

    /** Lines 123-138.  Which transaction of the group comes first makes no difference. */
    method MoveAll(source: int, target: int)
      requires source != target
      modifies `trxDb
      ensures trxDb == MoveGroup(old(trxDb), source, target)
    {
      while exists k :: k in trxDb && k.group == source
        invariant MoveGroup(trxDb, source, target) == MoveGroup(old(trxDb), source, target)
        decreases |OfGroup(trxDb, source)|
      {
        var k :| k in trxDb && k.group == source;
        MovedOne(trxDb, k, target);
        trxDb := trxDb[TrxKey(target, k.hash) := trxDb[k]];
        trxDb := trxDb - {k};
      }
      NothingToMove(trxDb, source, target);
    }

    static ghost function OfGroup(db: TrxDb, group: int): set<TrxKey> {
      set k | k in db && k.group == group
    }

    static lemma MovedOne(db: TrxDb, k: TrxKey, target: int)
      requires k in db && k.group != target
      ensures var db' := db[TrxKey(target, k.hash) := db[k]] - {k};
        MoveGroup(db', k.group, target) == MoveGroup(db, k.group, target)
        && |OfGroup(db', k.group)| < |OfGroup(db, k.group)|
    {
      var db' := db[TrxKey(target, k.hash) := db[k]] - {k};
      assert OfGroup(db', k.group) == OfGroup(db, k.group) - {k};
      SameMoved(db, db', k, target);
    }

    static lemma SameMoved(db: TrxDb, db': TrxDb, k: TrxKey, target: int)
      requires k in db && k.group != target && db' == db[TrxKey(target, k.hash) := db[k]] - {k}
      ensures MoveGroup(db', k.group, target) == MoveGroup(db, k.group, target)
    {
      var a, b := MoveGroup(db, k.group, target), MoveGroup(db', k.group, target);
      forall j: TrxKey
        ensures EntryAt(b, j) == EntryAt(a, j)
      {
        MoveGroupAt(db, k.group, target, j);
        MoveGroupAt(db', k.group, target, j);
      }
      hide MoveGroup;
      SameEntries(b, a);
    }

    static lemma NothingToMove(db: TrxDb, source: int, target: int)
      requires forall k :: k in db ==> k.group != source
      ensures MoveGroup(db, source, target) == db
    {}

    /** Lines 139-157. */
    method MoveTransactions(list: seq<Hash>, source: int, target: int)
      modifies `trxDb
      ensures trxDb == MoveList(old(trxDb), list, source, target)
    {
      assert list[0..] == list;
      for i := 0 to |list|
        invariant MoveList(trxDb, list[i..], source, target) == MoveList(old(trxDb), list, source, target)
      {
        assert list[i..][0] == list[i] && list[i..][1..] == list[i + 1..];
        var k := TrxKey(source, list[i]);
        if k in trxDb {
          trxDb := trxDb[TrxKey(target, list[i]) := trxDb[k]];
          trxDb := trxDb - {k};
        }
      }
    }

    /** Lines 98-105, once the head's state is known to be stored. */
    method HeadTransactions() returns (list: seq<Hash>)
      requires chain != [] && chain[|chain| - 1].state in blockStates
      ensures list == blockStates[chain[|chain| - 1].state].trxs
    {
      list := blockStates[chain[|chain| - 1].state].trxs;
    }

    /** The lookup of both `add_transaction` and `add_full_block`. */
    method IsKnown(h: Hash) returns (found: bool)
      ensures found == Knows(trxDb, h)
    {
      found := false;
      for x := 0 to 3
        invariant found <==> exists g :: 0 <= g < x && TrxKey(g, h) in trxDb
      {
        if TrxKey(x, h) in trxDb {
          found := true;
        }
      }
      assert found ==> Knows(trxDb, h);
    }

    /** The loop of `add_full_block` over the transactions that came with the block. */
    method StoreTransactions(trxs: seq<SignedTrx>)
      modifies `trxDb
      ensures trxDb == StoreAll(e, old(trxDb), trxs)
    {
      assert trxs[0..] == trxs;
      for i := 0 to |trxs|
        invariant StoreAll(e, trxDb, trxs[i..]) == StoreAll(e, old(trxDb), trxs)
      {
        assert trxs[i..][0] == trxs[i] && trxs[i..][1..] == trxs[i + 1..];
        var found := IsKnown(e.signedHash(trxs[i]));
        if !found {
          trxDb := trxDb[TrxKey(PENDING, e.signedHash(trxs[i])) := trxs[i]];
        }
      }
    }

    // -------------------------------------------------------------- adding blocks

    /** Lines 693-701: the old head goes down into the state database, the new layer takes its place. */
    method Promote(trx: StateDatabase)
      requires Layers() && trx.Valid() && trx.base == headTrx
      requires file.cursor == |file.content|
      modifies `headTrx, `genTrx, stateDb, headTrx, trx, file
      ensures Layers() && stateDb == old(stateDb) && headTrx == trx && fresh(genTrx)
      ensures stateDb.log == old(headTrx.log) && headTrx.log == genTrx.log == old(trx.log)
      ensures file.cursor == |file.content|
    {
      hide *;
      LayerFacts();
      trx.Stacked();
      CommitState();
      trx.KeptOnBase();
      CommitHead(trx);
      headTrx := trx;
      headTrx.Rebase(stateDb);
      genTrx := new StateDatabase.Over(headTrx);
      InLayers();
    }

    method CommitState()
      requires stateDb.base == null && stateDb.Valid() && headTrx.base == stateDb && headTrx.Valid()
      requires headTrx != stateDb && stateDb.file == file && file.cursor == |file.content|
      modifies stateDb, file
      ensures stateDb.Valid() && stateDb.log == old(stateDb.log) &&
        stateDb.below == old(stateDb.below) && stateDb.local == []
      ensures stateDb.base == null && headTrx.Valid()
      ensures file.content == Bytes(stateDb.e, stateDb.log) && file.cursor == |file.content|
    {
      assert stateDb.AtEnd();
      hide *;
      stateDb.Commit();
      headTrx.KeptOnBase();
    }

    method CommitHead(trx: StateDatabase)
      requires headTrx.Valid() && headTrx.base == stateDb && trx.Valid() && trx.base == headTrx
      requires trx != headTrx && trx != stateDb && headTrx != stateDb && stateDb.base == null && headTrx.file == file
      modifies stateDb, headTrx, file
      ensures stateDb.Valid() && stateDb.base == null && stateDb.below == old(stateDb.below)
      ensures stateDb.log == headTrx.log == old(headTrx.log) && trx.Valid()
      ensures file.content == old(file.content) && file.cursor == old(file.cursor)
    {
      hide *;
      headTrx.Commit();
      trx.KeptOnBase();
    }

    lemma LayerFacts()
      requires Layers()
      ensures stateDb.base == null && stateDb.e == e && stateDb.file == file && stateDb.below == {}
      ensures headTrx.base == stateDb && genTrx.base == headTrx && headTrx.file == genTrx.file == file
      ensures headTrx.e == genTrx.e == e && headTrx.below == {stateDb} && genTrx.below == {stateDb, headTrx}
      ensures stateDb != headTrx && stateDb != genTrx && headTrx != genTrx
      ensures stateDb.Valid() && headTrx.Valid() && genTrx.Valid()
    {
      hide StateDatabase.Valid;
      stateDb.Stacked();
      headTrx.Stacked();
      genTrx.Stacked();
    }

    lemma InLayers()
      requires stateDb.base == null && stateDb.e == e && stateDb.file == file
      requires headTrx.base == stateDb && genTrx.base == headTrx && headTrx.file == genTrx.file == file
      requires stateDb.Valid() && headTrx.Valid() && genTrx.Valid()
      ensures Layers()
    {}

    /** The second commit of the state database: what came down from the old head is written. */
    method WriteState()
      requires Layers() && file.cursor == |file.content|
      modifies stateDb, file
      ensures Layers() && stateDb.local == [] && stateDb.log == old(stateDb.log)
      ensures file.content == Bytes(e, stateDb.log) && file.cursor == |file.content|
    {
      hide *;
      LayerFacts();
      CommitState();
      genTrx.KeptOnBase();
      InLayers();
    }

    /** A layer over `parent` on which the block is applied: the layer, or nothing when it is not accepted. */
    method TryBlock(parent: StateDatabase, blk: Block, bs: BlockState) returns (trx: Option<StateDatabase>)
      requires parent.Valid() && parent.e == e && parent.file == file && (file.content == [] ==> file.cursor == 0)
      requires Fits(e, TryApply(e, parent.log, blk, bs, trxDb))
      modifies file`cursor
      ensures trx.Some? <==> Accepts(TryApply(e, parent.log, blk, bs, trxDb))
      ensures trx.Some? ==>
        && fresh(trx.value) && trx.value.Valid() && trx.value.base == parent &&
           trx.value.e == e && trx.value.file == file
        && trx.value.log == TryApply(e, parent.log, blk, bs, trxDb).value.log
        && file.cursor == |file.content|
      ensures file.content == [] ==> file.cursor == 0
    {
      ghost var o := TryApply(e, parent.log, blk, bs, trxDb);
      var strxs := FetchTransactions(bs.trxs, PENDING);
      if |strxs| != |bs.trxs| {
        return None;
      }
      assert o == Some(L.ApplyBlock(e, parent.log, blk, bs.generator, strxs, bs.stateDb)) && Encodable(e, o.value.log);
      assert Accepts(o) <==> o.value.status.Applied?;
      hide *;
      var t := new StateDatabase.Over(parent);
      var status := t.ApplyBlock(blk, bs.generator, strxs, bs.stateDb);
      trx := if status == L.Applied then Some(t) else None;
    }

    /** Lines 693-711: the layers, and the two files; the accepted block is already the last of the chain. */
    method AcceptLayers(trx: StateDatabase)
      requires Layers() && trx.Valid() && trx.base == headTrx && chain != []
      requires file.cursor == |file.content|
      modifies `headTrx, `genTrx, `chain, `saved, `disk, stateDb, headTrx, trx, file
      ensures Sound() && chain == old(chain) && saved == Some(chain[..|chain| - 1])
      ensures stateDb == old(stateDb) && headTrx == trx && fresh(genTrx)
      ensures stateDb.log == disk == old(headTrx.log) && headTrx.log == genTrx.log == old(trx.log)
    {
      hide Layers;
      Promote(trx);
      var blk := chain[|chain| - 1];
      chain := chain[..|chain| - 1];
      saved := Some(chain);
      WriteState();
      chain := chain + [blk];
      disk := stateDb.log;
    }

    /** Lines 690-711: what follows an accepted block. */
    method Accept(trx: StateDatabase, blk: Block, bs: BlockState)
      requires Layers() && trx.Valid() && trx.base == headTrx && chain != []
      requires file.cursor == |file.content|
      modifies this, stateDb, headTrx, trx, file
      ensures Sound() && chain == old(chain) && stateDb == old(stateDb) && headTrx == trx && fresh(genTrx)
      ensures Abs() == Accepted(old(Abs()), old(trx.log), blk, bs)
    {
      hide Layers, StateDatabase.Valid, MoveList, MoveGroup, Sound, PlayedBlock;
      ghost var p := PlayedBlock(blk, bs, trxDb);
      MoveAll(HEAD, APPLIED);
      MoveTransactions(bs.trxs, PENDING, HEAD);
      AcceptLayers(trx);
      hist := hist + [p];
    }

    /** Lines 679-711, with the block already at the end of the chain. */
    method TryAppend(blk: Block, bs: BlockState) returns (ok: bool)
      requires Sound() && chain != [] && Fits(e, TryApply(e, headTrx.log, blk, bs, trxDb))
      modifies this, stateDb, headTrx, file
      ensures Sound() && chain == old(chain)
      ensures var o := TryApply(e, old(headTrx.log), blk, bs, old(trxDb));
        && ok == Accepts(o)
        && Abs() == if ok then Accepted(old(Abs()), o.value.log, blk, bs) else old(Abs())
    {
      hide *;
      SoundFacts();
      var trx := TryBlock(headTrx, blk, bs);
      ok := trx.Some?;
      if ok {
        Accept(trx.value, blk, bs);
      } else {
        SoundAgain();
      }
    }

    /** A state with the new block already at the end of its chain, after the block was accepted. */
    static ghost function Accepted(s: NodeState, log: Log, blk: Block, bs: BlockState): NodeState
      requires s.chain != []
    {
      s.(base := s.head, head := log, gen := log,
         trxs := MoveList(MoveGroup(s.trxs, HEAD, APPLIED), bs.trxs, PENDING, HEAD),
         saved := Some(s.chain[..|s.chain| - 1]), disk := s.head, hist := s.hist + [PlayedBlock(blk, bs, s.trxs)])
    }

    /** Lines 674-738. */
    method AppendBlock(blk: Block, bs: BlockState) returns (rc: int)
      requires Valid() && AppendFits(e, Abs(), blk, bs) && chain != []
      modifies this, stateDb, headTrx, file
      ensures Valid() && (Abs(), rc) == Append(e, old(Abs()), blk, bs)
    {
      AppendCases(e, Abs(), blk, bs);
      hide Append, TryApply, Validates, Sound, Layers, Accepts, Accepted;
      chain := chain + [blk];
      var ok := Validate(e.blockHash, chain);
      if ok {
        ok := TryAppend(blk, bs);
      }
      if ok {
        return 1;
      }
      chain := chain[..|chain| - 1];
      rc := -3;
    }

    static lemma AppendCases(e: Env, s: NodeState, blk: Block, bs: BlockState)
      ensures var o := TryApply(e, s.head, blk, bs, s.trxs); var longer := s.(chain := s.chain + [blk]);
        && longer.chain[..|longer.chain| - 1] == s.chain
        && Append(e, s, blk, bs) ==
          if Validates(e.blockHash, longer.chain) && Accepts(o) then
              (Accepted(longer, o.value.log, blk, bs), 1) else (s, -3)
    {
      assert (s.chain + [blk])[..|s.chain|] == s.chain;
      hide TryApply, Validates, MoveList, MoveGroup, PlayedBlock;
    }

    /** Lines 764-765: the new head goes on top of the state database. */
    method InstallHead(trx: StateDatabase)
      requires Layers() && trx.Valid() && trx.base == stateDb && trx.file == file
      modifies `headTrx, `genTrx
      ensures Layers() && headTrx == trx && fresh(genTrx) && genTrx.log == trx.log
    {
      LayerFacts();
      hide *;
      headTrx := trx;
      genTrx := new StateDatabase.Over(headTrx);
      InLayers();
    }

    lemma SoundFacts()
      requires Sound()
      ensures Layers() && stateDb.local == [] && stateDb.base == null && stateDb.Valid() && headTrx.Valid()
      ensures stateDb.e == e && stateDb.file == file && headTrx.e == e && headTrx.file == file
      ensures file.content == Bytes(e, disk) && (file.content == [] ==> file.cursor == 0)
    {
      LayerFacts();
    }

    lemma SoundAgain()
      requires Layers() && stateDb.local == []
      requires file.content == Bytes(e, disk) && (file.content == [] ==> file.cursor == 0)
      ensures Sound()
    {}

    /** Lines 750-784, with the block already in place of the old head. */
    method TryReplace(blk: Block, bs: BlockState) returns (ok: bool)
      requires Sound() && chain != [] && chain[|chain| - 1].state in blockStates
      requires blockStates[chain[|chain| - 1].state] == bs
      requires Fits(e, TryApply(e, stateDb.log, blk, bs, MoveList(trxDb, bs.trxs, HEAD, PENDING)))
      modifies `trxDb, `headTrx, `genTrx, `hist, file`cursor
      ensures Sound()
      ensures ok <==> Accepts(TryApply(e, stateDb.log, blk, bs, MoveList(old(trxDb), bs.trxs, HEAD, PENDING)))
      ensures trxDb == MoveList(MoveList(old(trxDb), bs.trxs, HEAD, PENDING), bs.trxs, PENDING, HEAD)
      ensures ok ==>
        var o := TryApply(e, stateDb.log, blk, bs, MoveList(old(trxDb), bs.trxs, HEAD, PENDING));
        && headTrx.log == genTrx.log == o.value.log
        && hist == SwapLast(old(hist), PlayedBlock(blk, bs, MoveList(old(trxDb), bs.trxs, HEAD, PENDING)))
      ensures !ok ==> headTrx == old(headTrx) && genTrx == old(genTrx) && hist == old(hist)
    {
      hide *;
      SoundFacts();
      var oldHeadTrx := HeadTransactions();
      MoveTransactions(oldHeadTrx, HEAD, PENDING);
      ghost var p := PlayedBlock(blk, bs, trxDb);
      var trx := TryBlock(stateDb, blk, bs);
      ok := trx.Some?;
      if ok {
        MoveTransactions(bs.trxs, PENDING, HEAD);
        InstallHead(trx.value);
        hist := SwapLast(hist, p);
      } else {
        MoveTransactions(oldHeadTrx, PENDING, HEAD);
      }
      SoundAgain();
    }

    static ghost function SwapLast(hist: seq<Played>, p: Played): seq<Played> {
      if hist == [] then [] else WithHead(hist, p)
    }

    static ghost function Swapped(s: NodeState, log: Log, blk: Block, bs: BlockState): NodeState {
      var db := MoveList(s.trxs, bs.trxs, HEAD, PENDING);
      s.(head := log, gen := log, trxs := MoveList(db, bs.trxs, PENDING, HEAD),
         hist := SwapLast(s.hist, PlayedBlock(blk, bs, db)))
    }

    static ghost function NotSwapped(s: NodeState, bs: BlockState): NodeState {
      s.(trxs := MoveList(MoveList(s.trxs, bs.trxs, HEAD, PENDING), bs.trxs, PENDING, HEAD))
    }

    /** Lines 748-789, with the block already in place of the old head. */
    method ReplaceValid(blk: Block, bs: BlockState) returns (ok: bool)
      requires Sound() && chain != [] && chain[|chain| - 1] == blk
      requires blk.state in blockStates && blockStates[blk.state] == bs
      requires Fits(e, TryApply(e, stateDb.log, blk, bs, MoveList(trxDb, bs.trxs, HEAD, PENDING)))
      modifies `trxDb, `headTrx, `genTrx, `hist, file`cursor
      ensures Sound()
      ensures var o := TryApply(e, old(stateDb.log), blk, bs, MoveList(old(trxDb), bs.trxs, HEAD, PENDING));
        var v := Validates(e.blockHash, chain);
        && ok == (v && Accepts(o))
        && Abs() == if ok then Swapped(old(Abs()), o.value.log, blk, bs)
                    else if v then NotSwapped(old(Abs()), bs) else old(Abs())
    {
      hide Validates, TryApply, Accepts, MoveList, Sound, SwapLast, PlayedBlock;
      ok := Validate(e.blockHash, chain);
      if ok {
        ok := TryReplace(blk, bs);
      }
    }

    /** Lines 746-788: the block takes the old head's place, which is undone unless everything succeeds. */
    method SwapHead(blk: Block, bs: BlockState) returns (ok: bool)
      requires Sound() && chain != [] && blk.state in blockStates && blockStates[blk.state] == bs
      requires Fits(e, TryApply(e, stateDb.log, blk, bs, MoveList(trxDb, bs.trxs, HEAD, PENDING)))
      modifies this, file`cursor
      ensures Sound() && chain != []
      ensures var o := TryApply(e, old(stateDb.log), blk, bs, MoveList(old(trxDb), bs.trxs, HEAD, PENDING));
        var there := old(Abs()).(chain := WithHead(old(chain), blk)); var v := Validates(e.blockHash, there.chain);
        && ok == (v && Accepts(o))
        && Abs() == if ok then Swapped(there, o.value.log, blk, bs)
                    else if v then NotSwapped(old(Abs()), bs) else old(Abs())
    {
      hide Sound, Layers, StateDatabase.Valid, Fits, Validates, TryApply, Accepts, MoveList, PlayedBlock;
      hide SwapLast, WithHead, Swapped, NotSwapped;
      ThereAndBack(chain, blk);
      SwappedBack(Abs(), WithHead(chain, blk), bs);
      var oldHead := chain[|chain| - 1];
      chain := WithHead(chain, blk);
      ok := ReplaceValid(blk, bs);
      if !ok {
        chain := WithHead(chain, oldHead);
      }
    }

    static lemma SwappedBack(s: NodeState, there: seq<Block>, bs: BlockState)
      ensures NotSwapped(s.(chain := there), bs).(chain := s.chain) == NotSwapped(s, bs)
    {}

    static lemma ThereAndBack(s: seq<Block>, x: Block)
      requires s != []
      ensures var t := WithHead(s, x); t != [] && t[|t| - 1] == x && WithHead(t, s[|s| - 1]) == s
    {}

    /** Lines 739-791. */
    method ReplaceHead(blk: Block, bs: BlockState) returns (rc: int)
      requires Valid() && ReplaceFits(e, Abs(), blk, bs) && chain != []
      requires blk.state in blockStates && blockStates[blk.state] == bs
      modifies this, file`cursor
      ensures Valid() && (Abs(), rc) == Replace(e, old(Abs()), blk, bs)
    {
      hide Sound, Layers, StateDatabase.Valid, Fits, Untouched, Replace, TryApply, Validates, Accepts, MoveList;
      hide WithHead, Swapped, NotSwapped;
      ReplaceCases(e, Abs(), blk, bs);
      if e.blockHash(blk) < e.blockHash(chain[|chain| - 1]) {
        var ok := SwapHead(blk, bs);
        if ok {
          return 1;
        }
      }
      rc := -3;
    }

    static lemma ReplaceCases(e: Env, s: NodeState, blk: Block, bs: BlockState)
      requires s.chain != []
      ensures var o := TryApply(e, s.base, blk, bs, MoveList(s.trxs, bs.trxs, HEAD, PENDING));
        var there := s.(chain := WithHead(s.chain, blk));
        Replace(e, s, blk, bs) ==
          if e.blockHash(blk) >= e.blockHash(LastBlockOf(s)) || !Validates(e.blockHash, there.chain) then (s, -3)
          else if !Accepts(o) then (NotSwapped(s, bs), -3)
          else (Swapped(there, o.value.log, blk, bs), 1)
    {
      hide TryApply, Validates, MoveList, PlayedBlock, WithHead;
    }

    /** Lines 648-798. */
    method AddBlock(blk: Block, now: u32) returns (rc: int)
      requires Valid() && BlockFits(e, Abs(), blk)
      modifies this, stateDb, headTrx, file
      ensures Valid() && (Abs(), rc) == NodeSpec.AddBlock(e, old(Abs()), blk, now)
    {
      hide Append, Replace, Sound, AppendFits, ReplaceFits;
      if |chain| == 0 {
        return 0;
      }
      var headHash := e.blockHash(chain[|chain| - 1]);
      if blk.state !in blockStates {
        return -1;
      }
      var bs := blockStates[blk.state];
      if blk.utcTime > (now + 30) % TWO_32 {
        return -1;
      }
      if blk.prevBlock == headHash {
        rc := AppendBlock(blk, bs);
      } else if blk.prevBlock == chain[|chain| - 1].prevBlock {
        rc := ReplaceHead(blk, bs);
      } else {
        rc := -1;
      }
    }

    // -------------------------------------------------------------- first blocks and full blocks

    /** The first block is applied in the head layer itself; the layer above has nothing and follows. */
    method ApplyFirst(blk: Block, gen: string, check: Hash) returns (status: L.Status)
      requires Sound() && Untouched() && Encodable(e, L.ApplyBlock(e, headTrx.log, blk, gen, [], check).log)
      modifies headTrx, genTrx, file`cursor
      ensures Sound() && Untouched() && stateDb.log == old(stateDb.log)
      ensures L.Outcome(headTrx.log, status) == L.ApplyBlock(e, old(headTrx.log), blk, gen, [], check)
      ensures genTrx.log == headTrx.log
    {
      hide Layers, StateDatabase.Valid, L.ApplyBlock, Encodable, Bytes;
      LayerFacts();
      hide Sound;
      status := headTrx.ApplyBlock(blk, gen, [], check);
      genTrx.Follow();
      InLayers();
      SoundAgain();
    }

    /** Lines 624-634: the first block is kept whether or not it can be applied. */
    method AddFirst(blk: Block, gen: string, check: Hash)
      requires Valid() && chain == [] && Encodable(e, L.ApplyBlock(e, headTrx.log, blk, gen, [], check).log)
      modifies this, headTrx, genTrx, file`cursor
      ensures Valid() && Abs() == Genesis(e, old(Abs()), blk, gen, check)
    {
      hide Sound, Untouched, L.ApplyBlock;
      var status := ApplyFirst(blk, gen, check);
      hist := if status == L.Applied then [Played(blk, gen, [], check)] else [];
      chain := [blk];
    }

    /** Lines 591-645, up to restarting the generation of a block. */
    method AddFullBlock(fbs: FullBlock, now: u32) returns (rc: int)
      requires Valid()
      requires chain == [] && fbs.index == 0 ==>
        Encodable(e, L.ApplyBlock(e, headTrx.log, fbs.blk, fbs.state.generator, [], fbs.state.stateDb).log)
      requires BlockFits(e, Abs().(trxs := StoreAll(e, trxDb, fbs.trxs),
                                   states := blockStates[fbs.blk.state := fbs.state]), fbs.blk)
      modifies this, stateDb, headTrx, genTrx, file
      ensures Valid() && (Abs(), rc) == NodeSpec.AddFullBlock(e, old(Abs()), fbs, now)
    {
      hide Sound, Untouched, BlockFits, StoreAll, L.ApplyBlock, NodeSpec.AddBlock, Genesis, Encodable;
      StoreTransactions(fbs.trxs);
      blockStates := blockStates[fbs.blk.state := fbs.state];
      if |chain| == 0 && fbs.index == 0 {
        AddFirst(fbs.blk, fbs.state.generator, fbs.state.stateDb);
        return 1;
      }
      rc := AddBlock(fbs.blk, now);
    }

    /** Lines 568-589, up to building the next candidate. */
    method AddTransaction(t: SignedTrx) returns (rc: int)
      requires Valid()
      modifies `trxDb
      ensures Valid() && (Abs(), rc) == NodeSpec.AddTransaction(e, old(Abs()), t)
    {
      hide Sound, Untouched;
      var found := IsKnown(e.signedHash(t));
      if found {
        return -1;
      }
      trxDb := trxDb[TrxKey(PENDING, e.signedHash(t)) := t];
      rc := 0;
    }

    // -------------------------------------------------------------- building blocks

    /** `m_gen_trx->abort()`. */
    method AbortGen()
      requires Sound()
      modifies genTrx
      ensures Sound() && Untouched() && genTrx.log == headTrx.log
      ensures headTrx.log == old(headTrx.log) && stateDb.log == old(stateDb.log)
    {
      hide *;
      SoundFacts();
      LayerFacts();
      genTrx.Abort();
      InLayers();
      SoundAgain();
      NowUntouched();
    }

    lemma NowUntouched()
      requires genTrx.local == [] && genTrx.names == map[] && genTrx.transfers == map[]
      ensures Untouched()
    {}

    /** The checksum of what a layer shows. */
    method CheckOf(layer: StateDatabase) returns (h: Hash)
      requires Sound() && layer.Valid() && layer.file == file && layer.e == e
      modifies file`cursor
      ensures Sound() && h == StateHash(e, Bytes(e, layer.log))
    {
      hide *;
      SoundFacts();
      h := layer.CalculateStateHash();
      SoundAgain();
    }

    /** Lines 206-214: the mined block is applied when mining succeeded, and kept in any case. */
    method InstallFirst(gen: string, mined: Block, found: bool, bs: BlockState)
      requires Sound() && Untouched() && chain == [] && genTrx.log == headTrx.log && bs == GenesisState(e, Abs(), gen)
      requires Encodable(e, L.ApplyBlock(e, headTrx.log, mined, gen, [], bs.stateDb).log)
      modifies this, headTrx, genTrx, file`cursor
      ensures Sound() && chain != [] && Abs() == GenerateGenesis(e, old(Abs()), gen, mined, found)
    {
      hide Sound, L.ApplyBlock, Untouched, GenesisState, Encodable;
      hist := [];
      if found {
        var status := ApplyFirst(mined, gen, bs.stateDb);
        hist := if status == L.Applied then [Played(mined, gen, [], bs.stateDb)] else [];
      }
      blockStates := blockStates[mined.state := bs];
      chain := [mined];
    }

    /** Lines 193-215: an empty chain gets a first block, mined on the spot. */
    method MineFirst(gen: string, now: u32) returns (ghost b: Block, ghost found: bool)
      requires Valid() && chain == []
      requires forall b: Block ::
        Encodable(e, L.ApplyBlock(e, headTrx.log, b, gen, [], GenesisState(e, Abs(), gen).stateDb).log)
      modifies this, headTrx, genTrx, file`cursor
      ensures Valid() && Abs() == GenerateGenesis(e, old(Abs()), gen, b, found)
      ensures MinedFrom(b, Block(0, 0, now, e.stateHash(GenesisState(e, old(Abs()), gen)), 0)) && b.utcTime == now
      ensures found <==> e.blockHash(b) < MAX_HASH
    {
      hide Layers, StateDatabase.Valid, L.ApplyBlock, Encodable, Bytes, StateHash, Untouched;
      AbortGen();
      SoundFacts();
      hide Sound;
      var check := CheckOf(stateDb);
      var bs := BlockState(0, gen, check, []);
      assert bs == GenesisState(e, Abs(), gen) == GenesisState(e, old(Abs()), gen);
      AbortedGen(e, old(Abs()), Abs(), gen);
      hide GenerateGenesis, GenesisState;
      var mined, ok := Generate(e.blockHash, Block(0, 0, now, e.stateHash(bs), 0), MAX_HASH, 0, MAX_U64);
      b, found := mined, ok;
      InstallFirst(gen, mined, ok, bs);
    }

    /** The first block does not depend on what the generation layer showed. */
    static lemma AbortedGen(e: Env, s: NodeState, s1: NodeState, gen: string)
      requires s1 == s.(gen := s1.gen)
      ensures forall b, found :: GenerateGenesis(e, s1, gen, b, found) == GenerateGenesis(e, s, gen, b, found)
    {
      hide L.ApplyBlock, StateHash;
    }

    /** Lines 227-240: the pending transactions, oldest first. */
    method PendingSorted() returns (order: seq<Entry>)
      ensures PendingInOrder(trxDb, order)
    {
      order := [];
      var todo := set k | k in trxDb && k.group == PENDING;
      while todo != {}
        invariant forall k :: k in todo ==> k in trxDb && k.group == PENDING
        invariant SortedByTime(order)
        invariant forall i, j :: 0 <= i < j < |order| ==> order[i].hash != order[j].hash
        invariant forall i :: 0 <= i < |order| ==> Pending(trxDb, order[i]) && TrxKey(PENDING, order[i].hash) !in todo
        invariant forall k :: k in trxDb && k.group == PENDING && k !in todo ==> Listed(order, k.hash)
        decreases |todo|
      {
        var k :| k in todo;
        var x := Entry(k.hash, trxDb[k]);
        var p := 0;
        while p < |order| && order[p].trx.utcTime <= x.trx.utcTime
          invariant 0 <= p <= |order|
          invariant forall i :: 0 <= i < p ==> order[i].trx.utcTime <= x.trx.utcTime
        {
          p := p + 1;
        }
        InsertedAt(order, x, p);
        order := order[..p] + [x] + order[p..];
        todo := todo - {k};
      }
    }

    static ghost predicate Listed(order: seq<Entry>, h: Hash) {
      exists i :: 0 <= i < |order| && order[i].hash == h
    }

    /** Inserting a new entry behind all that are not younger. */
    static lemma InsertedAt(s: seq<Entry>, x: Entry, p: nat)
      requires p <= |s| && SortedByTime(s)
      requires forall i :: 0 <= i < p ==> s[i].trx.utcTime <= x.trx.utcTime
      requires p < |s| ==> x.trx.utcTime <= s[p].trx.utcTime
      ensures var r := s[..p] + [x] + s[p..];
        && SortedByTime(r)
        && (forall i :: 0 <= i < |r| ==> r[i] == x || exists j :: 0 <= j < |s| && r[i] == s[j])
        && (forall h :: Listed(s, h) || h == x.hash ==> Listed(r, h))
        && ((forall i, j :: 0 <= i < j < |s| ==> s[i].hash != s[j].hash) &&
             (forall i :: 0 <= i < |s| ==> s[i].hash != x.hash) ==>
              forall i, j :: 0 <= i < j < |r| ==> r[i].hash != r[j].hash)
    {
      var r := s[..p] + [x] + s[p..];
      EntriesOfInserted(s, x, p);
      forall h | Listed(s, h) || h == x.hash
        ensures Listed(r, h)
      {
        ListedInInserted(s, x, p, h);
      }
      hide Listed;
    }

    static lemma EntriesOfInserted(s: seq<Entry>, x: Entry, p: nat)
      requires p <= |s|
      ensures var r := s[..p] + [x] + s[p..];
        |r| == |s| + 1 && forall i :: 0 <= i < |r| ==> r[i] == if i < p then s[i] else if i == p then x else s[i - 1]
    {}

    static lemma ListedInInserted(s: seq<Entry>, x: Entry, p: nat, h: Hash)
      requires p <= |s| && (Listed(s, h) || h == x.hash)
      ensures Listed(s[..p] + [x] + s[p..], h)
    {
      var r := s[..p] + [x] + s[p..];
      EntriesOfInserted(s, x, p);
      if h == x.hash {
        assert r[p].hash == h;
      } else {
        var i :| 0 <= i < |s| && s[i].hash == h;
        assert r[if i < p then i else i + 1].hash == h;
      }
    }

    /** Lines 247-252: a transaction in a layer of its own, which is kept only when it succeeds. */
    method TryTransaction(t: SignedTrx, gen: string) returns (ok: bool)
      requires Sound() && Encodable(e, L.ApplyTrx(e, genTrx.log, t, gen).log)
      modifies genTrx, file
      ensures Sound() && headTrx.log == old(headTrx.log) && stateDb.log == old(stateDb.log)
      ensures var o := L.ApplyTrx(e, old(genTrx.log), t, gen);
        ok == o.status.Applied? && genTrx.log == if ok then o.log else old(genTrx.log)
    {
      hide *;
      SoundFacts();
      LayerFacts();
      var tmp := new StateDatabase.Over(genTrx);
      var status := tmp.ApplyTrx(t, gen);
      ok := status == L.Applied;
      if ok {
        tmp.Commit();
      }
      InLayers();
      SoundAgain();
    }

    /** Lines 242-259. */
    method SelectPending(order: seq<Entry>, gen: string) returns (hashes: seq<Hash>)
      requires Sound() && SelectFits(e, genTrx.log, order, gen)
      modifies genTrx, file
      ensures Sound() && headTrx.log == old(headTrx.log) && stateDb.log == old(stateDb.log)
      ensures var (l, chosen) := Select(e, old(genTrx.log), order, gen); genTrx.log == l && hashes == Hashes(chosen)
    {
      hide Sound, Encodable, L.ApplyTrx;
      hashes := [];
      ghost var goal := Select(e, genTrx.log, order, gen);
      assert order[0..] == order;
      for i := 0 to |order|
        invariant Sound() && headTrx.log == old(headTrx.log) && stateDb.log == old(stateDb.log)
        invariant SelectFits(e, genTrx.log, order[i..], gen)
        invariant Select(e, genTrx.log, order[i..], gen).0 == goal.0
        invariant hashes + Hashes(Select(e, genTrx.log, order[i..], gen).1) == Hashes(goal.1)
      {
        assert order[i..][0] == order[i] && order[i..][1..] == order[i + 1..];
        SelectOne(e, genTrx.log, order[i..], gen);
        var ok := TryTransaction(order[i].trx, gen);
        if ok {
          hashes := hashes + [order[i].hash];
        }
      }
    }

    static lemma SelectOne(e: Env, l: Log, order: seq<Entry>, gen: string)
      requires order != []
      ensures var o := L.ApplyTrx(e, l, order[0].trx, gen); var (l', chosen) := Select(e, l, order, gen);
        var l1 := if o.status.Applied? then o.log else l; var (l'', rest) := Select(e, l1, order[1..], gen);
        l' == l'' && Hashes(chosen) == if o.status.Applied? then [order[0].hash] + Hashes(rest) else Hashes(rest)
    {
      hide L.ApplyTrx;
    }

    /** Lines 217-287, on a chain that has a head. */
    method BuildCandidate(gen: string, now: u32) returns (newBlock: Block, ghost order: seq<Entry>)
      requires Valid() && chain != []
      requires forall order :: PendingInOrder(trxDb, order) ==> SelectFits(e, headTrx.log, order, gen)
      modifies this, genTrx, file
      ensures Valid() && PendingInOrder(old(trxDb), order)
      ensures (Abs(), newBlock) == Candidate(e, old(Abs()), gen, order, now)
    {
      hide Sound, Encodable, L.ApplyTrx, Select, SelectFits, PendingInOrder, Untouched, StateHash, Bytes;
      AbortGen();
      var prev := e.blockHash(chain[|chain| - 1]);
      var sorted := PendingSorted();
      order := sorted;
      var hashes := SelectPending(sorted, gen);
      var check := CheckOfGen();
      var bs := BlockState(|chain| % TWO_32, gen, check, hashes);
      newBlock := Block(prev, 0, (now + SECONDS_PER_BLOCK) % TWO_32, e.stateHash(bs), 0);
      blockStates := blockStates[newBlock.state := bs];
    }

    method CheckOfGen() returns (h: Hash)
      requires Sound()
      modifies file`cursor
      ensures Sound() && h == StateHash(e, Bytes(e, genTrx.log))
    {
      hide *;
      SoundFacts();
      LayerFacts();
      h := CheckOf(genTrx);
    }

    // -------------------------------------------------------------- serving blocks

    /** Lines 454-466, as `None` when no group has it. */
    method GetTransaction(h: Hash) returns (t: Option<SignedTrx>)
      ensures t == FindTrx(trxDb, h)
    {
      for i := 0 to 4
        invariant forall g :: 0 <= g < i ==> TrxKey(g, h) !in trxDb
      {
        if TrxKey(i, h) in trxDb {
          return Some(trxDb[TrxKey(i, h)]);
        }
      }
      t := None;
    }

    /** Lines 468-484; an exception is an `Err`. */
    method GetFullBlock(index: u32) returns (r: Result<FullBlock>)
      ensures r == NodeSpec.GetFullBlock(Abs(), index)
    {
      if chain != [] && index > |chain| - 1 {
        return Ok(NO_BLOCK);
      }
      if index >= |chain| || chain[index].state !in blockStates {
        return Err;
      }
      var b := chain[index];
      var bs := blockStates[b.state];
      var trxs: seq<SignedTrx> := [];
      assert bs.trxs[0..] == bs.trxs;
      PrependNothing(FindAll(trxDb, bs.trxs));
      for i := 0 to |bs.trxs|
        invariant FindAll(trxDb, bs.trxs) == Prepend(trxs, FindAll(trxDb, bs.trxs[i..]))
      {
        assert bs.trxs[i..][0] == bs.trxs[i] && bs.trxs[i..][1..] == bs.trxs[i + 1..];
        var t := GetTransaction(bs.trxs[i]);
        PrependStep(trxDb, trxs, bs.trxs[i..]);
        if t.None? {
          return Err;
        }
        trxs := trxs + [t.value];
      }
      assert trxs + [] == trxs;
      r := Ok(FullBlock(index, |chain| - 1, b, bs, trxs));
    }

    static ghost function Prepend(a: seq<SignedTrx>, r: Result<seq<SignedTrx>>): Result<seq<SignedTrx>> {
      match r case Ok(ts) => Ok(a + ts) case Err => Err
    }

    static lemma PrependNothing(r: Result<seq<SignedTrx>>)
      ensures Prepend([], r) == r
    {
      assert r.Ok? ==> [] + r.value == r.value;
    }

    static lemma PrependStep(db: TrxDb, a: seq<SignedTrx>, list: seq<Hash>)
      requires list != []
      ensures Prepend(a, FindAll(db, list)) ==
        match FindTrx(db, list[0])
        case Some(t) => Prepend(a + [t], FindAll(db, list[1..]))
        case None => Err
    {
      hide FindTrx;
      if FindAll(db, list).Ok? {
        var t, ts := FindTrx(db, list[0]).value, FindAll(db, list[1..]).value;
        assert a + ([t] + ts) == (a + [t]) + ts;
      }
    }
  }

  /** The handlers of libs/gpm/node/server.cpp:5-12, 43-68 that catch up with a peer.  A message to send is
      returned; receiving it is the peer's next call. */
  class Connection {
    const node: Node

    constructor (node: Node)
      ensures this.node == node
    {
      this.node := node;
    }

    /** The first request asks for the block after the head. */
    method Start() returns (request: nat)
      ensures request == |node.chain|
    {
      request := |node.chain|;
    }

    /** A full block that was accepted and is not the peer's head leads to the next request. */
    method AddFullBlock(fbs: FullBlock, now: u32) returns (request: Option<nat>)
      requires node.Valid()
      requires node.chain == [] && fbs.index == 0 ==>
        Encodable(node.e, L.ApplyBlock(node.e, node.headTrx.log, fbs.blk, fbs.state.generator, [],
                                   fbs.state.stateDb).log)
      requires BlockFits(node.e, node.Abs().(trxs := StoreAll(node.e, node.trxDb, fbs.trxs),
                                             states := node.blockStates[fbs.blk.state := fbs.state]), fbs.blk)
      modifies node, node.stateDb, node.headTrx, node.genTrx, node.file
      ensures node.Valid()
      ensures var (s', rc) := NodeSpec.AddFullBlock(node.e, old(node.Abs()), fbs, now);
        && node.Abs() == s'
        && request == if rc > 0 && fbs.headIndex > fbs.index then Some(|s'.chain|) else None
    {
      var rc := node.AddFullBlock(fbs, now);
      request := if rc > 0 && fbs.headIndex > fbs.index then Some(|node.chain|) else None;
    }

    /** A request that cannot be answered is only logged. */
    method GetFullBlock(index: u32) returns (reply: Option<FullBlock>)
      ensures NodeSpec.GetFullBlock(node.Abs(), index) == (if reply.Some? then Ok(reply.value) else Err)
    {
      var r := node.GetFullBlock(index);
      reply := match r case Ok(fbs) => Some(fbs) case Err => None;
    }
  }
}
