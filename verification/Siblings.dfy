/** Choosing a head among siblings does not depend on the order in which they arrive
    (libs/gpm/node/node.cpp:674-791; the intent is stated in libs/gpm/block_chain/block_chain.hpp:21-25). */
module Siblings {
  import opened Common
  import opened BlockChain
  import opened Records
  import opened Ledger
  import opened NodeSpec
  import opened NodeRuns
  import opened StoreMoves

  /** A block and the clock when it arrives. */
  datatype Delivery = Delivery(blk: Block, now: u32)

  /** The node would take this block on top of its present head.  A block whose own hash is its parent's is left
      out: once at the head it would be appended to itself. */
  predicate Acceptable(e: Env, s: NodeState, d: Delivery) {
    && s.chain != [] && d.blk.state in s.states && d.blk.utcTime <= (d.now + 30) % TWO_32
    && d.blk.prevBlock == e.blockHash(LastBlockOf(s)) && d.blk.prevBlock != e.blockHash(d.blk)
    && Append(e, s, d.blk, s.states[d.blk.state]).1 == 1
  }

  function DeliverAll(e: Env, s: NodeState, ds: seq<Delivery>): NodeState
    decreases |ds|
  {
    if ds == [] then s
    else
      var n := |ds| - 1;
      AddBlock(e, DeliverAll(e, s, ds[..n]), ds[n].blk, ds[n].now).0
  }

  /** The node as if only this one sibling had arrived. */
  function With(e: Env, s: NodeState, b: Block): NodeState
    requires b.state in s.states
  {
    Append(e, s, b, s.states[b.state]).0
  }

  /** Every transaction once pending still is, or is in the head group. */
  ghost predicate Available(a: TrxDb, b: TrxDb) {
    forall h :: TrxKey(PENDING, h) in a ==>
      var v := EntryAt(a, TrxKey(PENDING, h));
      && (TrxKey(PENDING, h) in b || TrxKey(HEAD, h) in b)
      && (TrxKey(PENDING, h) in b ==> EntryAt(b, TrxKey(PENDING, h)) == v)
      && (TrxKey(HEAD, h) in b ==> EntryAt(b, TrxKey(HEAD, h)) == v)
  }

  /** Among the siblings of `s`, `b` holds the head. */
  ghost predicate Holds(e: Env, s: NodeState, s': NodeState, b: Delivery) {
    && Acceptable(e, s, b) && SameLedger(With(e, s, b.blk), s') && Available(s.trxs, s'.trxs)
  }

  lemma {:induction false} FetchSame(a: TrxDb, b: TrxDb, list: seq<Hash>)
    requires forall h :: h in list ==> EntryAt(a, TrxKey(PENDING, h)) == EntryAt(b, TrxKey(PENDING, h))
    ensures Fetch(a, list, PENDING) == Fetch(b, list, PENDING)
    decreases |list|
  {
    if list != [] {
      FetchSame(a, b, list[..|list| - 1]);
      assert list[|list| - 1] in list;
    }
  }

  /** Within the open transactions, moving a list between pending and head group loses none. */
  lemma MovesKeepAvailable(a: TrxDb, b: TrxDb, list: seq<Hash>, from: int, to: int)
    requires Available(a, b) && ((from == PENDING && to == HEAD) || (from == HEAD && to == PENDING))
    ensures Available(a, MoveList(b, list, from, to))
  {
    forall h | TrxKey(PENDING, h) in a
      ensures var c := MoveList(b, list, from, to); var v := EntryAt(a, TrxKey(PENDING, h));
        && (TrxKey(PENDING, h) in c || TrxKey(HEAD, h) in c)
        && (TrxKey(PENDING, h) in c ==> EntryAt(c, TrxKey(PENDING, h)) == v)
        && (TrxKey(HEAD, h) in c ==> EntryAt(c, TrxKey(HEAD, h)) == v)
    {
      MoveListAt(b, list, from, to, TrxKey(PENDING, h));
      MoveListAt(b, list, from, to, TrxKey(HEAD, h));
    }
    hide MoveList;
  }

  /** Whatever has been head since, a sibling's list is found again once it is taken out of the head group. */
  lemma SiblingFinds(a: TrxDb, b: TrxDb, list: seq<Hash>)
    requires Available(a, b) && forall h :: h in list ==> TrxKey(PENDING, h) in a
    ensures GetTransactions(MoveList(b, list, HEAD, PENDING), list, PENDING) == GetTransactions(a, list, PENDING)
  {
    var c := MoveList(b, list, HEAD, PENDING);
    forall h | h in list
      ensures EntryAt(a, TrxKey(PENDING, h)) == EntryAt(c, TrxKey(PENDING, h))
    {
      MoveListAt(b, list, HEAD, PENDING, TrxKey(PENDING, h));
    }
    hide MoveList;
    FetchSame(a, c, list);
  }

  lemma AcceptableFacts(e: Env, s: NodeState, d: Delivery)
    requires Acceptable(e, s, d)
    ensures var bs := s.states[d.blk.state]; var o := TryApply(e, s.head, d.blk, bs, s.trxs);
      && Validates(e.blockHash, s.chain + [d.blk]) && Accepts(o)
      && |GetTransactions(s.trxs, bs.trxs, PENDING)| == |bs.trxs|
      && SameLedger(With(e, s, d.blk),
           s.(chain := s.chain + [d.blk], base := s.head, head := o.value.log, gen := o.value.log,
              saved := Some(s.chain), disk := s.head, hist := s.hist + [PlayedBlock(d.blk, bs, s.trxs)], trxs := map[]))
      && With(e, s, d.blk).trxs == MoveList(MoveGroup(s.trxs, HEAD, APPLIED), bs.trxs, PENDING, HEAD)
  {
    hide Validates, MoveList, MoveGroup, GetTransactions, ApplyBlock;
  }

  /** The first sibling becomes the head. */
  lemma FirstSibling(e: Env, s: NodeState, d: Delivery)
    requires Acceptable(e, s, d)
    ensures Holds(e, s, AddBlock(e, s, d.blk, d.now).0, d)
  {
    AcceptableFacts(e, s, d);
    var list, g := s.states[d.blk.state].trxs, MoveGroup(s.trxs, HEAD, APPLIED);
    assert AddBlock(e, s, d.blk, d.now).0 == With(e, s, d.blk);
    forall h | TrxKey(PENDING, h) in s.trxs
      ensures EntryAt(g, TrxKey(PENDING, h)) == EntryAt(s.trxs, TrxKey(PENDING, h)) && TrxKey(HEAD, h) !in g
    {
      MoveGroupAt(s.trxs, HEAD, APPLIED, TrxKey(PENDING, h));
      MoveGroupAt(s.trxs, HEAD, APPLIED, TrxKey(HEAD, h));
    }
    hide MoveGroup, AddBlock, With, Acceptable;
    assert Available(s.trxs, g);
    MovesKeepAvailable(s.trxs, g, list, PENDING, HEAD);
    assert Acceptable(e, s, d);
  }

  /** A later sibling takes over exactly when its hash is lower. */
  lemma NextSibling(e: Env, s: NodeState, s1: NodeState, b: Delivery, d: Delivery)
    requires Holds(e, s, s1, b) && Acceptable(e, s, d)
    ensures Holds(e, s, AddBlock(e, s1, d.blk, d.now).0,
      if e.blockHash(d.blk) < e.blockHash(b.blk) then d else b)
  {
    AcceptableFacts(e, s, b);
    AcceptableFacts(e, s, d);
    var list := s.states[d.blk.state].trxs;
    SiblingIsReplace(e, s, s1, b, d);
    if e.blockHash(d.blk) < e.blockHash(b.blk) {
      FetchComplete(s.trxs, list, PENDING);
      SiblingFinds(s.trxs, s1.trxs, list);
      MovesKeepAvailable(s.trxs, s1.trxs, list, HEAD, PENDING);
      MovesKeepAvailable(s.trxs, MoveList(s1.trxs, list, HEAD, PENDING), list, PENDING, HEAD);
      LowerTakesOver(e, s, s1, b, d);
    }
    hide *;
    assert Holds(e, s, s1, b);
  }

  lemma SiblingIsReplace(e: Env, s: NodeState, s1: NodeState, b: Delivery, d: Delivery)
    requires Holds(e, s, s1, b) && Acceptable(e, s, d)
    ensures s1.chain == s.chain + [b.blk] && s1.states == s.states
    ensures AddBlock(e, s1, d.blk, d.now) == Replace(e, s1, d.blk, s.states[d.blk.state])
    ensures e.blockHash(d.blk) >= e.blockHash(b.blk) ==> AddBlock(e, s1, d.blk, d.now).0 == s1
  {
    AcceptableFacts(e, s, b);
    hide Append, TryApply, Validates, MoveList, Available;
  }

  lemma LowerTakesOver(e: Env, s: NodeState, s1: NodeState, b: Delivery, d: Delivery)
    requires Holds(e, s, s1, b) && Acceptable(e, s, d) && e.blockHash(d.blk) < e.blockHash(b.blk)
    requires var list := s.states[d.blk.state].trxs;
      GetTransactions(MoveList(s1.trxs, list, HEAD, PENDING), list, PENDING) == GetTransactions(s.trxs, list, PENDING)
    ensures var s2 := Replace(e, s1, d.blk, s.states[d.blk.state]).0; var list := s.states[d.blk.state].trxs;
      s1.chain != [] && SameLedger(With(e, s, d.blk), s2)
      && s2.trxs == MoveList(MoveList(s1.trxs, list, HEAD, PENDING), list, PENDING, HEAD)
  {
    AcceptableFacts(e, s, b);
    AcceptableFacts(e, s, d);
    var bs := s.states[d.blk.state];
    assert WithHead(s1.chain, d.blk) == s.chain + [d.blk];
    assert WithHead(s1.hist, PlayedBlock(d.blk, bs, s.trxs)) == s.hist + [PlayedBlock(d.blk, bs, s.trxs)];
    assert TryApply(e, s.head, d.blk, bs, MoveList(s1.trxs, bs.trxs, HEAD, PENDING))
      == TryApply(e, s.head, d.blk, bs, s.trxs);
    hide Validates, MoveList, GetTransactions, TryApply, Available, With, Append, WithHead;
  }

  /** The i-th sibling holds the head, and none has a lower hash. */
  ghost predicate Wins(e: Env, s: NodeState, s': NodeState, ds: seq<Delivery>, i: int) {
    && 0 <= i < |ds| && Holds(e, s, s', ds[i])
    && forall j :: 0 <= j < |ds| ==> e.blockHash(ds[i].blk) <= e.blockHash(ds[j].blk)
  }

  /** The siblings in any order and with repeats: the one with the lowest hash ends as the head, with the
      ledger it would have had on its own. */
  lemma {:induction false} LowestSiblingWins(e: Env, s: NodeState, ds: seq<Delivery>)
    requires ds != [] && forall i :: 0 <= i < |ds| ==> Acceptable(e, s, ds[i])
    ensures exists i :: Wins(e, s, DeliverAll(e, s, ds), ds, i)
    decreases |ds|
  {
    var n := |ds| - 1;
    hide Acceptable, Holds, AddBlock;
    if n == 0 {
      assert DeliverAll(e, s, ds[..0]) == s;
      FirstSibling(e, s, ds[0]);
      assert Wins(e, s, DeliverAll(e, s, ds), ds, 0);
    } else {
      var before := ds[..n];
      LowestSiblingWins(e, s, before);
      var i :| Wins(e, s, DeliverAll(e, s, before), before, i);
      NextSibling(e, s, DeliverAll(e, s, before), ds[i], ds[n]);
      assert forall j :: 0 <= j < n ==> ds[j] == before[j];
      assert Wins(e, s, DeliverAll(e, s, ds), ds, if e.blockHash(ds[n].blk) < e.blockHash(ds[i].blk) then n else i);
    }
  }

  predicate Has(ds: seq<Delivery>, b: Block) {
    exists i :: 0 <= i < |ds| && ds[i].blk == b
  }

  /** Two deliveries of one set of siblings. */
  ghost predicate SameBlocks(a: seq<Delivery>, b: seq<Delivery>) {
    forall x: Block :: Has(a, x) <==> Has(b, x)
  }

  /** Two different siblings with one hash. */
  ghost predicate Clash(e: Env, a: seq<Delivery>, b: seq<Delivery>) {
    exists i, j :: 0 <= i < |a| && 0 <= j < |b| && a[i].blk != b[j].blk
      && e.blockHash(a[i].blk) == e.blockHash(b[j].blk)
  }

  lemma WinnersTie(e: Env, s: NodeState, s1: NodeState, s2: NodeState,
                   a: seq<Delivery>, b: seq<Delivery>, i: int, j: int)
    requires SameBlocks(a, b) && Wins(e, s, s1, a, i) && Wins(e, s, s2, b, j)
    ensures a[i].blk == b[j].blk || Clash(e, a, b)
  {
    assert Has(a, a[i].blk) && Has(b, b[j].blk);
    var j' :| 0 <= j' < |b| && b[j'].blk == a[i].blk;
    var i' :| 0 <= i' < |a| && a[i'].blk == b[j].blk;
    hide Holds, Has;
    if a[i].blk != b[j].blk {
      assert e.blockHash(a[i].blk) == e.blockHash(b[j].blk);
    }
  }

  lemma SameWinner(e: Env, s: NodeState, s1: NodeState, s2: NodeState, a: Delivery, b: Delivery)
    requires Holds(e, s, s1, a) && Holds(e, s, s2, b) && a.blk == b.blk
    ensures SameLedger(s1, s2)
  {
    hide Append, Available;
  }

  /** Order independence: everything but the transaction store comes out the same, unless two different
      siblings have one hash. */
  lemma SiblingOrderIndependence(e: Env, s: NodeState, a: seq<Delivery>, b: seq<Delivery>)
    requires a != [] && SameBlocks(a, b)
    requires forall i :: 0 <= i < |a| ==> Acceptable(e, s, a[i])
    requires forall j :: 0 <= j < |b| ==> Acceptable(e, s, b[j])
    ensures SameLedger(DeliverAll(e, s, a), DeliverAll(e, s, b)) || Clash(e, a, b)
  {
    assert Has(a, a[0].blk) && Has(b, a[0].blk);
    hide Acceptable, DeliverAll, SameLedger, Clash, Holds;
    LowestSiblingWins(e, s, a);
    LowestSiblingWins(e, s, b);
    var i :| Wins(e, s, DeliverAll(e, s, a), a, i);
    var j :| Wins(e, s, DeliverAll(e, s, b), b, j);
    WinnersTie(e, s, DeliverAll(e, s, a), DeliverAll(e, s, b), a, b, i, j);
    if a[i].blk == b[j].blk {
      SameWinner(e, s, DeliverAll(e, s, a), DeliverAll(e, s, b), a[i], b[j]);
    }
    hide *;
  }

  /** The store is not order independent: with the lower sibling last, what only the higher one lists stays
      in the head group; with the lower sibling first it stays pending. */
  lemma StoreDependsOnOrder(e: Env, s: NodeState, low: Delivery, high: Delivery, h: Hash)
    requires Acceptable(e, s, low) && Acceptable(e, s, high) && e.blockHash(low.blk) < e.blockHash(high.blk)
    requires h in s.states[high.blk.state].trxs && h !in s.states[low.blk.state].trxs
    requires InGroup(s, PENDING, h)
    ensures InGroup(DeliverAll(e, s, [high, low]), HEAD, h) && !InGroup(DeliverAll(e, s, [high, low]), PENDING, h)
    ensures InGroup(DeliverAll(e, s, [low, high]), PENDING, h) && !InGroup(DeliverAll(e, s, [low, high]), HEAD, h)
  {
    DeliverTwo(e, s, high, low);
    DeliverTwo(e, s, low, high);
    hide DeliverAll;
    FirstIsAppend(e, s, high);
    FirstIsAppend(e, s, low);
    FirstSibling(e, s, high);
    FirstSibling(e, s, low);
    var sh, sl := With(e, s, high.blk), With(e, s, low.blk);
    SiblingIsReplace(e, s, sh, high, low);
    SiblingIsReplace(e, s, sl, low, high);
    AppendMovesExactly(e, s, high.blk, s.states[high.blk.state], h);
    AppendMovesExactly(e, s, low.blk, s.states[low.blk.state], h);
    LowerIsAccepted(e, s, sh, high, low);
    ReplaceMovesExactly(e, sh, low.blk, s.states[low.blk.state], h);
    hide *;
    assert sh == With(e, s, high.blk);
  }

  lemma DeliverTwo(e: Env, s: NodeState, a: Delivery, b: Delivery)
    ensures DeliverAll(e, s, [a, b]) == AddBlock(e, AddBlock(e, s, a.blk, a.now).0, b.blk, b.now).0
  {
    assert [a, b][..1] == [a] && [a][..0] == [];
    assert DeliverAll(e, s, [a]) == AddBlock(e, DeliverAll(e, s, []), a.blk, a.now).0;
    hide AddBlock;
  }

  lemma FirstIsAppend(e: Env, s: NodeState, d: Delivery)
    requires Acceptable(e, s, d)
    ensures AddBlock(e, s, d.blk, d.now).0 == With(e, s, d.blk)
  {
    hide Append;
  }

  lemma LowerIsAccepted(e: Env, s: NodeState, s1: NodeState, b: Delivery, d: Delivery)
    requires Holds(e, s, s1, b) && Acceptable(e, s, d) && e.blockHash(d.blk) < e.blockHash(b.blk)
    ensures s1.chain != [] && Replace(e, s1, d.blk, s.states[d.blk.state]).1 == 1
  {
    AcceptableFacts(e, s, b);
    AcceptableFacts(e, s, d);
    var bs := s.states[d.blk.state];
    FetchComplete(s.trxs, bs.trxs, PENDING);
    SiblingFinds(s.trxs, s1.trxs, bs.trxs);
    assert WithHead(s1.chain, d.blk) == s.chain + [d.blk];
    assert TryApply(e, s.head, d.blk, bs, MoveList(s1.trxs, bs.trxs, HEAD, PENDING))
      == TryApply(e, s.head, d.blk, bs, s.trxs);
    hide Validates, MoveList, GetTransactions, TryApply, Available, With, Append, WithHead, Fetch;
  }
}
