/**
 The whole cycle: submit, collect, execute, flush, commit. What the pool hands out reaches the
 EVM, and when the pool is ready for the next block.
 */
module EndToEnd {
  import opened Primitives
  import opened Finite
  import opened Transactions
  import opened PoolModel
  import opened PoolInvariants
  import PoolRuns
  import opened PoolDiscipline
  import opened Payload
  import opened Execution
  import opened Executor
  import TxPool
  import WorldState

  // ----- Pool entries are what their bytes decode to -----

  predicate Genuine(decode: Decoder, tx: VerifiedTx) {
    decode(tx.raw) == Some(tx)
  }

  ghost predicate AllGenuine(decode: Decoder, p: Pool) {
    forall e :: e in Held(p) ==> Genuine(decode, e.verified)
  }

  /** Some bytes decode to the transaction, as a submission asks. */
  ghost predicate Decoded(decode: Decoder, tx: VerifiedTx) {
    exists raw: Bytes :: decode(raw) == Some(tx)
  }

  lemma DecodedIsGenuine(decode: Decoder, tx: VerifiedTx)
    requires KeepsRaw(decode) && Decoded(decode, tx)
    ensures Genuine(decode, tx)
  {
    var raw: Bytes :| decode(raw) == Some(tx);
    assert decode(raw).Some? && decode(raw).value.raw == raw;
  }

  lemma StepKeepsGenuine(cfg: PoolConfig, decode: Decoder, p: Pool, ev: PoolRuns.Event, p': Pool)
    requires Sound(cfg, p) && PoolRuns.Step(cfg, p, ev, p') && AllGenuine(decode, p)
    requires ev.SubmitTx? ==> Genuine(decode, ev.tx)
    ensures AllGenuine(decode, p')
  {
    match ev
    case SubmitTx(tx, current) =>
      var e := NewEntry(cfg, tx);
      if Submit(cfg, p, e, current).1.Accepted? {
        SubmitEffect(cfg, p, e, current);
      } else {
        RejectionChangesNothing(cfg, p, e, current);
      }
    case CollectHeads(taken) => CollectEffect(p, taken);
    case CommitAt(nonceOf) => CommitEffect(p, nonceOf);
  }

  lemma GenuineAfter(cfg: PoolConfig, decode: Decoder, evs: seq<PoolRuns.Event>, ps: seq<Pool>, i: nat, j: nat)
    requires PoolRuns.IsRun(cfg, evs, ps) && j == i + 1 < |ps|
    requires KeepsRaw(decode) && forall k :: 0 <= k < |evs| && At(k) && evs[k].SubmitTx? ==> Decoded(decode, evs[k].tx)
    requires Sound(cfg, ps[i]) && AllGenuine(decode, ps[i])
    ensures AllGenuine(decode, ps[j])
  {
    assert At(i);
    PoolRuns.RunStep(cfg, evs, ps, i, j);
    if evs[i].SubmitTx? {
      DecodedIsGenuine(decode, evs[i].tx);
    }
    StepKeepsGenuine(cfg, decode, ps[i], evs[i], ps[j]);
  }

  /** On every run that submits decoded bytes, every entry is what its own bytes decode to. */
  lemma {:induction false} GenuineOnEveryRun(cfg: PoolConfig, decode: Decoder, evs: seq<PoolRuns.Event>, ps: seq<Pool>, i: nat)
    requires PoolRuns.IsRun(cfg, evs, ps) && i < |ps|
    requires KeepsRaw(decode) && forall j :: 0 <= j < |evs| && At(j) && evs[j].SubmitTx? ==> Decoded(decode, evs[j].tx)
    ensures AllGenuine(decode, ps[i])
    decreases i
  {
    if i == 0 {
      PoolRuns.EmptyIsSound(cfg);
    } else {
      GenuineOnEveryRun(cfg, decode, evs, ps, i - 1);
      PoolRuns.RunIsSound(cfg, evs, ps, i - 1);
      GenuineAfter(cfg, decode, evs, ps, i - 1, i);
    }
  }

  // ----- From entries to transactions -----

  function TxsOf(es: seq<PoolEntry>): (txs: seq<VerifiedTx>)
    ensures |txs| == |es| && forall i :: 0 <= i < |es| ==> txs[i] == es[i].verified
  {
    if es == [] then [] else TxsOf(es[..|es| - 1]) + [es[|es| - 1].verified]
  }

  lemma {:induction false} DecodesBack(decode: Decoder, es: seq<PoolEntry>)
    requires forall i :: 0 <= i < |es| ==> Genuine(decode, es[i].verified)
    ensures DecodeAll(decode, Raws(es)) == TxsOf(es)
    decreases |es|
  {
    if es != [] {
      var n := |es| - 1;
      DecodesBack(decode, es[..n]);
      assert Raws(es)[..n] == Raws(es[..n]);
    }
  }

  function GasLimits(txs: seq<VerifiedTx>): nat {
    if txs == [] then 0 else GasLimits(txs[..|txs| - 1]) + txs[|txs| - 1].envelope.gasLimit
  }

  lemma {:induction false} GasLimitsOf(es: seq<PoolEntry>)
    ensures GasLimits(TxsOf(es)) == GasSum(es)
    decreases |es|
  {
    if es != [] {
      var n := |es| - 1;
      GasLimitsOf(es[..n]);
      assert TxsOf(es)[..n] == TxsOf(es[..n]);
    }
  }

  // ----- Everything reaches the EVM -----

  predicate OnePerSender(txs: seq<VerifiedTx>) {
    forall j, k :: 0 <= j < k < |txs| ==> txs[j].sender != txs[k].sender
  }

  ghost predicate AllDue<W>(nonceOf: NonceReader<W>, w: W, txs: seq<VerifiedTx>) {
    forall k :: 0 <= k < |txs| ==> txs[k].envelope.nonce == nonceOf(w, txs[k].sender)
  }

  /** Nothing was skipped and nothing stopped the loop. */
  ghost predicate Reached<W>(nonceOf: NonceReader<W>, eoa: Address -> bool, w: W, txs: seq<VerifiedTx>, pr: Progress<W>) {
    && pr.attempted == txs && !pr.halted && pr.gas <= GasLimits(txs)
    && forall a :: eoa(a) && Outside(txs, a) ==> nonceOf(pr.world, a) == nonceOf(w, a)
  }

  /** None of `txs` is sent by `a`. */
  predicate Outside(txs: seq<VerifiedTx>, a: Address) {
    forall k :: 0 <= k < |txs| ==> txs[k].sender != a
  }

  lemma OutsideFront(front: seq<VerifiedTx>, tx: VerifiedTx, a: Address)
    requires Outside(front + [tx], a)
    ensures Outside(front, a) && tx.sender != a
  {
    var txs := front + [tx];
    assert txs[|front|] == tx;
    assert forall k :: 0 <= k < |front| ==> front[k] == txs[k];
  }

  lemma TurnReaches<W(!new)>(nonceOf: NonceReader<W>, transact: Transact<W>, eoa: Address -> bool, env: BlockEnv,
                             w: W, pr: Progress<W>, front: seq<VerifiedTx>, tx: VerifiedTx)
    requires Honest(nonceOf, transact, eoa) && eoa(tx.sender)
    requires Reached(nonceOf, eoa, w, front, pr)
    requires Outside(front, tx.sender) && tx.envelope.nonce == nonceOf(w, tx.sender)
    requires GasLimits(front) + tx.envelope.gasLimit <= env.gasLimit
    ensures Reached(nonceOf, eoa, w, front + [tx], Turn(nonceOf, transact, env, pr, tx, |front|))
  {
    var txs, pr' := front + [tx], Turn(nonceOf, transact, env, pr, tx, |front|);
    var (w', o) := transact(pr.world, tx);
    assert StepIsHonest(nonceOf, pr.world, tx, w', o, eoa);
    assert txs[..|front|] == front;
    assert nonceOf(pr.world, tx.sender) == nonceOf(w, tx.sender);
    assert pr'.world == w';
    forall a | eoa(a) && Outside(txs, a)
      ensures nonceOf(w', a) == nonceOf(w, a)
    {
      OutsideFront(front, tx, a);
    }
  }

  /** The block minus its last transaction meets the conditions of the block. */
  lemma FrontFits<W(!new)>(nonceOf: NonceReader<W>, eoa: Address -> bool, env: BlockEnv, w: W, txs: seq<VerifiedTx>, front: seq<VerifiedTx>)
    requires txs != [] && front == txs[..|txs| - 1]
    requires FromEoas(txs, eoa) && OnePerSender(txs) && AllDue(nonceOf, w, txs) && GasLimits(txs) <= env.gasLimit
    ensures FromEoas(front, eoa) && OnePerSender(front) && AllDue(nonceOf, w, front) && GasLimits(front) <= env.gasLimit
  {
  }

  /** Transactions of distinct senders, each due, whose gas limits fit the block, all reach the EVM. */
  lemma {:induction false} AllReach<W(!new)>(nonceOf: NonceReader<W>, transact: Transact<W>, eoa: Address -> bool,
                                             env: BlockEnv, w: W, txs: seq<VerifiedTx>)
    requires Honest(nonceOf, transact, eoa) && FromEoas(txs, eoa)
    requires OnePerSender(txs) && AllDue(nonceOf, w, txs) && GasLimits(txs) <= env.gasLimit
    ensures Reached(nonceOf, eoa, w, txs, Execute(nonceOf, transact, env, w, txs))
    decreases |txs|
  {
    if txs != [] {
      var n := |txs| - 1;
      var front := txs[..n];
      FrontFits(nonceOf, eoa, env, w, txs, front);
      AllReach(nonceOf, transact, eoa, env, w, front);
      TurnReaches(nonceOf, transact, eoa, env, w, Execute(nonceOf, transact, env, w, front), front, txs[n]);
      assert txs == front + [txs[n]];
    }
  }

  /** Every sender's lowest pending nonce is its account nonce. */
  ghost predicate Ready(p: Pool, nu: NonceLookup) {
    forall s :: s in p.senders ==> HeadDue(p.senders[s], nu(s))
  }

  predicate HeadDue(q: SenderQueue, current: U64) {
    q.pending != map[] ==> MinKey(q.pending) == current
  }

  lemma TakenAreDue<W>(nonceOf: NonceReader<W>, w: W, nu: NonceLookup, p: Pool, cs: seq<PoolEntry>, maxBytes: nat, maxGas: U64)
    requires WellKeyed(p) && IsCandidateOrder(p, cs) && Ready(p, nu)
    requires forall a :: nu(a) == nonceOf(w, a)
    ensures var taken := Select(cs, maxBytes, maxGas).taken;
            && OnePerSender(TxsOf(taken)) && AllDue(nonceOf, w, TxsOf(taken))
            && forall i :: 0 <= i < |taken| ==> taken[i].Sender() in p.senders && taken[i] in Held(p)
  {
    var taken := Select(cs, maxBytes, maxGas).taken;
    TxPool.TakenAreHeads(p, cs, maxBytes, maxGas);
    forall i | 0 <= i < |taken|
      ensures taken[i].Nonce() == nu(taken[i].Sender())
      ensures taken[i].Sender() in p.senders && taken[i] in Held(p)
    {
      var s := taken[i].Sender();
      var q := p.senders[s];
      assert HasPending(p, s) && taken[i] == Head(q);
      assert Keyed(s, q) && HeadDue(q, nu(s));
      assert taken[i] in Entries(q);
    }
  }

  /**
   If every sender's lowest pending nonce is its account nonce, and gas sums fit a u64, then the
   payload the pool hands out decodes to the transactions taken, and executed on that state every
   one of them reaches the EVM: none is skipped for its nonce and the gas check never stops the loop.
   */
  lemma EveryCollectedTxReachesTheEvm<W(!new)>(
      cfg: PoolConfig, p: Pool, cs: seq<PoolEntry>, decode: Decoder, maxBytes: nat, cap: U64,
      nonceOf: NonceReader<W>, transact: Transact<W>, eoa: Address -> bool, env: BlockEnv, w: W, nu: NonceLookup)
    requires Sound(cfg, p) && AllGenuine(decode, p)
    requires IsCandidateOrder(p, cs) && maxBytes < TWO_32 + 4
    requires env.gasLimit > 0 && GasCapped(cs, cap) && SumsFit(cap, env.gasLimit, |cs|)
    requires Honest(nonceOf, transact, eoa) && forall s :: s in p.senders ==> eoa(s)
    requires Ready(p, nu) && forall a :: nu(a) == nonceOf(w, a)
    ensures var sel := Select(cs, maxBytes, env.gasLimit);
            && Parse(sel.payload) == Some(Raws(sel.taken))
            && DecodeAll(decode, Raws(sel.taken)) == TxsOf(sel.taken)
            && var pr := Execute(nonceOf, transact, env, w, TxsOf(sel.taken));
               pr.attempted == TxsOf(sel.taken) && !pr.halted
  {
    var sel := Select(cs, maxBytes, env.gasLimit);
    PayloadParsesBack(cs, maxBytes, env.gasLimit);
    TakenAreDue(nonceOf, w, nu, p, cs, maxBytes, env.gasLimit);
    DecodesBack(decode, sel.taken);
    GasIsBounded(cs, maxBytes, env.gasLimit, cap, |cs|);
    GasLimitsOf(sel.taken);
    AllReach(nonceOf, transact, eoa, env, w, TxsOf(sel.taken));
  }

  // ----- Ready for the next block -----

  /** Settling a contiguous queue leaves its head due unless the head is one past an unmoved nonce. */
  lemma SettleMakesDue(q: SenderQueue, current: U64, current': U64)
    requires Contiguous(q, current) && current <= current'
    ensures HeadDue(Settle(q, current'), current')
            <==> !(q.pending != map[] && MinKey(q.pending) == current + 1 && current' == current)
    ensures Settle(q, current') == EMPTY_QUEUE ==> HeadDue(Settle(q, current'), current')
  {
    var q1 := Evict(q, current');
    var q' := Settle(q, current');
    EvictKeepsContiguous(q, current, current');
    PromoteKeepsContiguous(q1, current');
    if q'.pending != map[] {
      if q1.pending == map[] {
        FreshHead(q1, current');
      } else {
        SameHead(q1, current');
        EvictedHead(q, current, current');
      }
    }
    if q.pending != map[] && MinKey(q.pending) == current + 1 && current' == current {
      assert q1.pending == q.pending;
      SameHead(q1, current');
    }
  }

  /** Promotion into an empty lane starts at the account nonce. */
  lemma FreshHead(q: SenderQueue, current: U64)
    requires q.pending == map[] && Promote(q, current).pending != map[]
    ensures MinKey(Promote(q, current).pending) == current
  {
    var k := RunLength(q.queued, current);
    var m := MinKey(Promote(q, current).pending);
    PromotedPending(q, current, m);
    assert current <= m < current + k;
    PromotedPending(q, current, current);
  }

  /** Promotion never changes the head of a non-empty lane. */
  lemma SameHead(q: SenderQueue, current: U64)
    requires q.pending != map[]
    ensures Promote(q, current).pending != map[]
    ensures MinKey(Promote(q, current).pending) == MinKey(q.pending)
  {
    var m := MinKey(q.pending);
    PromotedPending(q, current, m);
    var m' := MinKey(Promote(q, current).pending);
    PromotedPending(q, current, m');
    assert MaxKey(q.pending) + 1 > m;
  }

  lemma EvictedHead(q: SenderQueue, current: U64, current': U64)
    requires Contiguous(q, current) && current <= current' && Evict(q, current').pending != map[]
    ensures MinKey(Evict(q, current').pending) == Max(MinKey(q.pending), current')
  {
    var a, b := MinKey(q.pending), MaxKey(q.pending) + 1;
    assert Interval(Evict(q, current').pending, Max(a, current'), b);
    var m := MinKey(Evict(q, current').pending);
    assert Max(a, current') <= m < b;
    IntervalEnds(Evict(q, current').pending, Max(a, current'), b);
  }

  lemma CycleOne(q: SenderQueue, current: U64, current': U64, taken: bool)
    requires Contiguous(q, current) && HeadDue(q, current) && current <= current'
    requires taken ==> q.pending != map[]
    ensures var q1 := if taken then DropHead(q) else q;
            HeadDue(Settle(q1, current'), current') <==> !taken || current' > current || |q.pending| == 1
  {
    if taken {
      DropHeadContiguous(q, current);
      SingletonInterval(q.pending);
      var a, b := MinKey(q.pending), MaxKey(q.pending) + 1;
      assert Interval(DropHead(q).pending, a + 1, b);
      if a + 1 < b {
        IntervalEnds(DropHead(q).pending, a + 1, b);
      } else {
        EmptyInterval(DropHead(q).pending, a + 1, b);
      }
      SettleMakesDue(DropHead(q), current, current');
    } else {
      SettleMakesDue(q, current, current');
    }
  }

  /**
   After collecting from a ready pool and committing, the pool is ready again exactly when the
   nonce moved for every sender collected from, except those that had nothing else pending.
   */
  lemma ReadyAgainExactlyWhen(p: Pool, nu: NonceLookup, nu': NonceLookup, taken: set<Address>)
    requires AllContiguous(p, nu) && Ready(p, nu) && Collectable(p, taken)
    requires forall s :: s in p.senders ==> nu(s) <= nu'(s)
    ensures Ready(Commit(Collect(p, taken), nu'), nu')
            <==> forall s :: s in taken ==> nu'(s) > nu(s) || |p.senders[s].pending| == 1
  {
    var p1 := Collect(p, taken);
    var p2 := Commit(p1, nu');
    forall s | s in p.senders
      ensures HeadDue(Settle(p1.senders[s], nu'(s)), nu'(s))
              <==> s !in taken || nu'(s) > nu(s) || |p.senders[s].pending| == 1
    {
      CycleOne(p.senders[s], nu(s), nu'(s), s in taken);
    }
    CommittedQueues(p1, nu');
  }

  lemma CommittedQueues(p: Pool, nu: NonceLookup)
    ensures Ready(Commit(p, nu), nu) <==> forall s :: s in p.senders ==> HeadDue(Settle(p.senders[s], nu(s)), nu(s))
  {
    var p' := Commit(p, nu);
    forall s | s in p.senders
      ensures s in p'.senders <==> Settle(p.senders[s], nu(s)) != EMPTY_QUEUE
      ensures s in p'.senders ==> p'.senders[s] == Settle(p.senders[s], nu(s))
    {
    }
    assert HeadDue(EMPTY_QUEUE, 0);
  }

  lemma NoncesMove<W(!new)>(nonceOf: NonceReader<W>, transact: Transact<W>, eoa: Address -> bool, env: BlockEnv,
                            w: W, txs: seq<VerifiedTx>)
    requires Honest(nonceOf, transact, eoa) && FromEoas(txs, eoa)
    ensures var pr := Execute(nonceOf, transact, env, w, txs);
            forall a :: eoa(a) ==> nonceOf(pr.world, a) == nonceOf(w, a) + CountFrom(pr.executed, a)
  {
    var pr := Execute(nonceOf, transact, env, w, txs);
    NoncesAdvance(nonceOf, transact, eoa, env, a => nonceOf(w, a), [], w, txs);
    assert [] + pr.executed == pr.executed;
  }

  lemma FromThePool(p: Pool, eoa: Address -> bool, taken: seq<PoolEntry>)
    requires Collectable(p, SendersOf(taken)) && forall s :: s in p.senders ==> eoa(s)
    ensures FromEoas(TxsOf(taken), eoa)
  {
    forall i | 0 <= i < |taken|
      ensures eoa(TxsOf(taken)[i].sender)
    {
      assert taken[i].Sender() in SendersOf(taken);
    }
  }

  lemma ReadyByCount(p: Pool, nu: NonceLookup, nu': NonceLookup, taken: set<Address>, executed: seq<VerifiedTx>)
    requires AllContiguous(p, nu) && Ready(p, nu) && Collectable(p, taken)
    requires forall s :: s in p.senders ==> nu'(s) == nu(s) + CountFrom(executed, s)
    ensures Ready(Commit(Collect(p, taken), nu'), nu')
            <==> forall s :: s in taken ==> CountFrom(executed, s) > 0 || |p.senders[s].pending| == 1
  {
    ReadyAgainExactlyWhen(p, nu, nu', taken);
  }

  /**
   One whole cycle from a ready pool: collect, execute the payload, commit on the resulting
   nonces. The pool is ready again exactly when every collected transaction got a receipt, or was
   its sender's only pending one.
   */
  lemma CycleKeepsReadyExactlyWhen<W(!new)>(
      p: Pool, cs: seq<PoolEntry>, maxBytes: nat,
      nonceOf: NonceReader<W>, transact: Transact<W>, eoa: Address -> bool, env: BlockEnv,
      w: W, nu: NonceLookup, nu': NonceLookup)
    requires AllContiguous(p, nu) && Ready(p, nu) && IsCandidateOrder(p, cs)
    requires Honest(nonceOf, transact, eoa) && forall s :: s in p.senders ==> eoa(s)
    requires forall a :: nu(a) == nonceOf(w, a)
    requires forall a :: nu'(a) == nonceOf(Execute(nonceOf, transact, env, w, TxsOf(Select(cs, maxBytes, env.gasLimit).taken)).world, a)
    ensures var taken := Select(cs, maxBytes, env.gasLimit).taken;
            var pr := Execute(nonceOf, transact, env, w, TxsOf(taken));
            && Collectable(p, SendersOf(taken))
            && (Ready(Commit(Collect(p, SendersOf(taken)), nu'), nu')
                <==> forall s :: s in SendersOf(taken) ==> CountFrom(pr.executed, s) > 0 || |p.senders[s].pending| == 1)
  {
    var taken := Select(cs, maxBytes, env.gasLimit).taken;
    TxPool.TakenAreHeads(p, cs, maxBytes, env.gasLimit);
    FromThePool(p, eoa, taken);
    NoncesMove(nonceOf, transact, eoa, env, w, TxsOf(taken));
    ReadyByCount(p, nu, nu', SendersOf(taken), Execute(nonceOf, transact, env, w, TxsOf(taken)).executed);
  }

  // ----- On the real world state -----

  /**
   Blocks executed on the world state, with a flush after each, form a chain in the sense of
   Executor: a flush moves no nonce.
   */
  lemma FlushedBlocksFormChain(eoa: Address -> bool, blocks: seq<Block<WorldState.World>>, starts: seq<WorldState.World>)
    requires |starts| == |blocks| + 1
    requires forall i :: 0 <= i < |blocks| && At(i) ==>
               && Honest(WorldState.GetNonce, blocks[i].transact, eoa)
               && FromEoas(blocks[i].txs, eoa)
               && WorldState.IsFlushed(RunBlock(WorldState.GetNonce, blocks[i], starts[i]).world, starts[i + 1])
    ensures IsChain(WorldState.GetNonce, eoa, blocks, starts)
  {
    forall i | 0 <= i < |blocks| && At(i)
      ensures forall a :: eoa(a) ==>
                WorldState.GetNonce(starts[i + 1], a) == WorldState.GetNonce(RunBlock(WorldState.GetNonce, blocks[i], starts[i]).world, a)
    {
      forall a | eoa(a)
        ensures WorldState.GetNonce(starts[i + 1], a) == WorldState.GetNonce(RunBlock(WorldState.GetNonce, blocks[i], starts[i]).world, a)
      {
        WorldState.ReadsSurviveFlush(RunBlock(WorldState.GetNonce, blocks[i], starts[i]).world, starts[i + 1], a, 0);
      }
    }
  }
}
