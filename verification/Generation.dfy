/** Candidate blocks: what a node builds from its pending transactions is what it later accepts
    (libs/gpm/node/node.cpp:191-288, 674-730). */
module Generation {
  import opened Common
  import opened BlockChain
  import opened Records
  import opened Ledger
  import opened NodeSpec
  import opened NodeRuns

  /** Running the chosen transactions one after the other in a single layer gives the log that committing
      one layer for each successful transaction gave: the failing ones leave no trace. */
  lemma {:induction false} SelectReplays(e: Env, l: Log, order: seq<Entry>, gen: string)
    ensures var (l', chosen) := Select(e, l, order, gen); ApplyTrxs(e, l, Trxs(chosen), gen) == Outcome(l', Applied)
    decreases |order|
  {
    hide ApplyTrx;
    if order != [] {
      var o := ApplyTrx(e, l, order[0].trx, gen);
      if o.status.Applied? {
        SelectReplays(e, o.log, order[1..], gen);
        var rest := Select(e, o.log, order[1..], gen).1;
        assert Trxs([order[0]] + rest)[0] == order[0].trx;
        assert Trxs([order[0]] + rest)[1..] == Trxs(rest);
      } else {
        SelectReplays(e, l, order[1..], gen);
      }
    }
  }

  /** One more transaction is chosen exactly when it applies on top of those chosen before it. */
  lemma {:induction false} SelectSnoc(e: Env, l: Log, order: seq<Entry>, x: Entry, gen: string)
    ensures var (l1, chosen) := Select(e, l, order, gen); var o := ApplyTrx(e, l1, x.trx, gen);
      Select(e, l, order + [x], gen) == if o.status.Applied? then (o.log, chosen + [x]) else (l1, chosen)
    decreases |order|
  {
    hide ApplyTrx;
    if order == [] {
      var all := order + [x];
      assert all == [x] && all[1..] == [];
      var o := ApplyTrx(e, l, x.trx, gen);
      assert Select(e, o.log, all[1..], gen) == (o.log, []) && Select(e, l, all[1..], gen) == (l, []);
      assert [all[0]] + [] == [] + [x];
    } else {
      assert (order + [x])[1..] == order[1..] + [x];
      var o := ApplyTrx(e, l, order[0].trx, gen);
      if o.status.Applied? {
        SelectSnoc(e, o.log, order[1..], x, gen);
        var rest := Select(e, o.log, order[1..], gen).1;
        assert [order[0]] + (rest + [x]) == ([order[0]] + rest) + [x];
      } else {
        SelectSnoc(e, l, order[1..], x, gen);
      }
    }
  }

  lemma {:induction false} SelectedFromOrder(e: Env, l: Log, order: seq<Entry>, gen: string)
    ensures forall c :: c in Select(e, l, order, gen).1 ==> c in order
    decreases |order|
  {
    hide ApplyTrx;
    if order != [] {
      var o := ApplyTrx(e, l, order[0].trx, gen);
      SelectedFromOrder(e, if o.status.Applied? then o.log else l, order[1..], gen);
    }
  }

  predicate Pending(db: TrxDb, x: Entry) {
    TrxKey(PENDING, x.hash) in db && db[TrxKey(PENDING, x.hash)] == x.trx
  }

  lemma FetchPending(db: TrxDb, es: seq<Entry>)
    requires forall x :: x in es ==> Pending(db, x)
    ensures Fetch(db, Hashes(es), PENDING) == Some(Trxs(es))
  {
    var r := Fetch(db, Hashes(es), PENDING);
    forall i | 0 <= i < |es|
      ensures TrxKey(PENDING, Hashes(es)[i]) in db && db[TrxKey(PENDING, Hashes(es)[i])] == Trxs(es)[i]
    {
      assert es[i] in es;
    }
    hide Fetch;
    if r.Some? {
      assert r.value == Trxs(es);
    }
  }

  /** Mining changes only the time and the nonce of the candidate. */
  predicate MinedFrom(b: Block, candidate: Block) {
    b == candidate.(utcTime := b.utcTime, nonce := b.nonce)
  }

  /** What may happen to the node while the candidate is being mined. */
  ghost predicate StillOpen(s: NodeState, s1: NodeState, c: Block, later: NodeState) {
    && later.chain == s.chain && later.head == s.head
    && c.state in later.states && c.state in s1.states && later.states[c.state] == s1.states[c.state]
    && forall k :: k in s.trxs && k.group == PENDING ==> k in later.trxs && later.trxs[k] == s.trxs[k]
  }

  /** Applying the candidate's own transactions on the head passes the state check. */
  lemma CandidateApplies(e: Env, s: NodeState, gen: string, order: seq<Entry>, now: u32, later: NodeState, b: Block)
    requires s.chain != [] && PendingInOrder(s.trxs, order)
    requires var (s1, c) := Candidate(e, s, gen, order, now); MinedFrom(b, c) && StillOpen(s, s1, c, later)
    ensures var o := TryApply(e, s.head, b, later.states[b.state], later.trxs);
      Accepts(o) && o.value.log == Snoc(Candidate(e, s, gen, order, now).0.gen, EndBlock(b, gen))
  {
    var (l, chosen) := Select(e, s.head, order, gen);
    SelectReplays(e, s.head, order, gen);
    SelectedFromOrder(e, s.head, order, gen);
    forall x | x in chosen
      ensures Pending(later.trxs, x)
    {
      var i :| 0 <= i < |order| && order[i] == x;
    }
    FetchPending(later.trxs, chosen);
    hide Select, StateHash, ApplyTrxs, Bytes, Fetch, PendingInOrder;
  }

  /** A block mined from a candidate never fails its own state check: it is accepted exactly when it is not
      dated too far ahead and the chain rules take it, and the new head is the candidate's log with its end. */
  lemma GeneratedBlockAccepted(e: Env, s: NodeState, gen: string, order: seq<Entry>, now: u32,
                               later: NodeState, b: Block, clock: u32)
    requires s.chain != [] && PendingInOrder(s.trxs, order)
    requires var (s1, c) := Candidate(e, s, gen, order, now); MinedFrom(b, c) && StillOpen(s, s1, c, later)
    ensures var (s', rc) := AddBlock(e, later, b, clock);
      && (rc == 1 <==> b.utcTime <= (clock + 30) % TWO_32 && Validates(e.blockHash, s.chain + [b]))
      && (rc == 1 ==> s'.chain == s.chain + [b] && s'.base == s.head
                      && s'.head == Snoc(Candidate(e, s, gen, order, now).0.gen, EndBlock(b, gen)))
  {
    CandidateApplies(e, s, gen, order, now, later, b);
    CandidateFollowsHead(e, s, gen, order, now);
    assert StillOpen(s, Candidate(e, s, gen, order, now).0, Candidate(e, s, gen, order, now).1, later);
    hide PendingInOrder, TryApply, Validates, MoveList, MoveGroup, Candidate, GetTransactions;
  }

  lemma CandidateFollowsHead(e: Env, s: NodeState, gen: string, order: seq<Entry>, now: u32)
    requires s.chain != []
    ensures Candidate(e, s, gen, order, now).1.prevBlock == e.blockHash(LastBlockOf(s))
  {
    hide Select, StateHash;
  }

  /** Another candidate built on the way has a different block state with the same hash. */
  ghost predicate Clashes(e: Env, later: NodeState, steps: seq<NodeStep>, c: Block, bs: BlockState)
    decreases |steps|
  {
    steps != [] &&
    ((steps[0].Build? && later.chain != [] &&
      var x := CandidateState(e, later, steps[0].gen, steps[0].order); x != bs && e.stateHash(x) == c.state)
     || Clashes(e, Next(e, later, steps[0]), steps[1..], c, bs))
  }

  /** One submission or one rebuilt candidate. */
  lemma WorkStepKeepsOpen(e: Env, s: NodeState, s1: NodeState, c: Block, later: NodeState, step: NodeStep)
    requires StillOpen(s, s1, c, later) && (step.Submit? || step.Build?)
    requires step.Build? && later.chain != [] ==>
      var x := CandidateState(e, later, step.gen, step.order); x == s1.states[c.state] || e.stateHash(x) != c.state
    ensures StillOpen(s, s1, c, Next(e, later, step))
  {
    if step.Submit? {
      assert Next(e, later, step) == AddTransaction(e, later, step.trx).0;
    } else {
      hide Select, CandidateState;
    }
    hide Select, StateHash;
  }

  /** Transactions that arrive, and the candidates that are rebuilt for each of them, do not get in the way of a
      block being mined, unless another candidate's block state has the hash of this one's. */
  lemma {:induction false} WorkKeepsOpen(e: Env, s: NodeState, s1: NodeState, c: Block, later: NodeState,
                                       steps: seq<NodeStep>)
    requires StillOpen(s, s1, c, later)
    requires forall i :: 0 <= i < |steps| ==> steps[i].Submit? || steps[i].Build?
    ensures StillOpen(s, s1, c, Run(e, later, steps)) || Clashes(e, later, steps, c, s1.states[c.state])
    decreases |steps|
  {
    hide Next, CandidateState;
    if steps != [] && !Clashes(e, later, steps, c, s1.states[c.state]) {
      WorkStepKeepsOpen(e, s, s1, c, later, steps[0]);
      WorkKeepsOpen(e, s, s1, c, Next(e, later, steps[0]), steps[1..]);
    }
  }

  /** A node that mines its own first block agrees with its ledger exactly when mining succeeded. */
  lemma MinedGenesisAgrees(e: Env, s: NodeState, gen: string, b: Block, found: bool)
    requires s == FRESH_NODE.(trxs := s.trxs, states := s.states)
    ensures Agrees(e, GenerateGenesis(e, s, gen, b, found)) <==> found
  {
    var s1 := Genesis(e, s, b, gen, GenesisState(e, s, gen).stateDb);
    var s' := GenerateGenesis(e, s, gen, b, found);
    GenesisAgrees(e, s, b, gen, GenesisState(e, s, gen).stateDb);
    assert found ==> s' == s1.(states := s'.states);
    assert !found ==> s'.hist == [] && s'.chain != [];
    hide GenerateGenesis, Genesis, Replay, Validates, WellFormed, Prefix;
  }
}
