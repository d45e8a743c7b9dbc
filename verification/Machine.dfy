/**
 The node as one machine: bytes come in, payloads go out, blocks are executed, persisted and
 committed, and every nonce lookup reads the world the last block left behind.
 */
module Machine {
  import opened Primitives
  import opened Finite
  import opened Transactions
  import opened PoolModel
  import opened PoolInvariants
  import PoolRuns
  import opened PoolDiscipline
  import opened Payload
  import opened Execution
  import opened Executor
  import TxPool
  import opened EndToEnd
  import OrderlyRuns

  /** What the node is built with. */
  datatype Rules<!W> = Rules(
    nonceOf: NonceReader<W>,
    decode: Decoder,
    persist: W -> W,
    gasLimit: U64,
    baseFee: U64,
    maxBytes: nat)

  /** The pool, the world, and the payload handed out since the last block, if any. */
  datatype Node<W> = Node(pool: Pool, world: W, out: Option<Selection>)

  datatype Action<!W> =
    | Receive(raw: Bytes)
    | Propose(order: seq<PoolEntry>)
    | Finalize(raws: seq<Bytes>, height: U64, transact: Transact<W>)

  function Lookup<W>(ru: Rules<W>, w: W): NonceLookup {
    (a: Address) => ru.nonceOf(w, a)
  }

  function BlockOf<W>(ru: Rules<W>, raws: seq<Bytes>, height: U64, transact: Transact<W>): Block<W> {
    Block(transact, BlockEnv(height, ru.gasLimit, ru.baseFee), DecodeAll(ru.decode, raws))
  }

  /** One step: submit_tx, create_payload, or execute_block followed by on_commit. */
  ghost predicate Act<W(!new)>(cfg: PoolConfig, ru: Rules<W>, n: Node<W>, act: Action<W>, n': Node<W>) {
    match act
    case Receive(raw) =>
      (match ru.decode(raw)
       case None => n' == n
       case Some(tx) =>
         n' == n.(pool := Submit(cfg, n.pool, NewEntry(cfg, tx), ru.nonceOf(n.world, tx.sender)).0))
    case Propose(order) =>
      var sel := Select(order, ru.maxBytes, ru.gasLimit);
      && IsCandidateOrder(n.pool, order) && Collectable(n.pool, SendersOf(sel.taken))
      && n' == Node(Collect(n.pool, SendersOf(sel.taken)), n.world, Some(sel))
    case Finalize(raws, height, transact) =>
      var world := ru.persist(RunBlock(ru.nonceOf, BlockOf(ru, raws, height, transact), n.world).world);
      n' == Node(Commit(n.pool, Lookup(ru, world)), world, None)
  }

  /** What is taken from foreign code: decoding keeps the bytes and names externally owned senders; persisting moves no nonce. */
  ghost predicate Trusted<W(!new)>(ru: Rules<W>, eoa: Address -> bool) {
    && KeepsRaw(ru.decode)
    && (forall raw: Bytes :: ru.decode(raw).Some? ==> eoa(ru.decode(raw).value.sender))
    && (forall w: W :: SameNonces(ru.nonceOf, eoa, w, ru.persist(w)))
    && ru.gasLimit > 0 && ru.maxBytes < TWO_32 + 4
  }

  /**
   How the node is driven. A payload is asked for only when none is out, and its gas sums fit; when
   one is out, the next block carries it and the EVM rejects none of its transactions. Any other
   block is somebody else's, and may do anything.
   */
  ghost predicate Conduct<W(!new)>(ru: Rules<W>, eoa: Address -> bool, n: Node<W>, act: Action<W>) {
    match act
    case Receive(raw) => true
    case Propose(order) =>
      n.out.None? && exists cap: U64 :: GasCapped(order, cap) && SumsFit(cap, ru.gasLimit, |order|)
    case Finalize(raws, height, transact) =>
      && Honest(ru.nonceOf, transact, eoa)
      && (n.out.Some? ==>
            && Parse(n.out.value.payload) == Some(raws)
            && var pr := RunBlock(ru.nonceOf, BlockOf(ru, raws, height, transact), n.world);
               pr.executed == pr.attempted)
  }

  ghost predicate IsMachineRun<W(!new)>(cfg: PoolConfig, ru: Rules<W>, eoa: Address -> bool, acts: seq<Action<W>>, ns: seq<Node<W>>) {
    && |ns| == |acts| + 1 && ns[0].pool == EMPTY_POOL && ns[0].out.None?
    && forall i :: 0 <= i < |acts| && At(i) ==> Act(cfg, ru, ns[i], acts[i], ns[i + 1]) && Conduct(ru, eoa, ns[i], acts[i])
  }

  // ----- What every node keeps -----

  /** Heads are due, except those of senders in `out`, which may be one past. */
  ghost predicate Waiting(p: Pool, nu: NonceLookup, out: set<Address>) {
    AllContiguous(p, nu) && forall s :: s in p.senders && s !in out ==> HeadDue(p.senders[s], nu(s))
  }

  /** The payload out would run in full on world `w`. */
  ghost predicate WouldRun<W>(ru: Rules<W>, eoa: Address -> bool, w: W, sel: Selection) {
    && Parse(sel.payload) == Some(Raws(sel.taken))
    && DecodeAll(ru.decode, Raws(sel.taken)) == TxsOf(sel.taken)
    && FromEoas(TxsOf(sel.taken), eoa) && OnePerSender(TxsOf(sel.taken)) && AllDue(ru.nonceOf, w, TxsOf(sel.taken))
    && GasLimits(TxsOf(sel.taken)) <= ru.gasLimit
  }

  ghost function SendersOut(out: Option<Selection>): set<Address> {
    if out.Some? then SendersOf(out.value.taken) else {}
  }

  ghost predicate OwnedSenders(p: Pool, eoa: Address -> bool) {
    forall s :: s in p.senders ==> eoa(s)
  }

  ghost predicate Kept<W>(cfg: PoolConfig, ru: Rules<W>, eoa: Address -> bool, n: Node<W>) {
    && Sound(cfg, n.pool) && AllGenuine(ru.decode, n.pool) && OwnedSenders(n.pool, eoa)
    && Waiting(n.pool, Lookup(ru, n.world), SendersOut(n.out))
    && (n.out.Some? ==> WouldRun(ru, eoa, n.world, n.out.value))
  }

  // ----- Receiving -----

  lemma SubmitKeepsWaiting(cfg: PoolConfig, p: Pool, e: PoolEntry, nu: NonceLookup, out: set<Address>, eoa: Address -> bool)
    requires Waiting(p, nu, out) && OwnedSenders(p, eoa) && eoa(e.Sender())
    ensures var p' := Submit(cfg, p, e, nu(e.Sender())).0; Waiting(p', nu, out) && OwnedSenders(p', eoa)
  {
    var p' := Submit(cfg, p, e, nu(e.Sender())).0;
    forall s | s in p'.senders
      ensures eoa(s) && Contiguous(p'.senders[s], nu(s)) && (s !in out ==> HeadDue(p'.senders[s], nu(s)))
    {
      var q := QueueOf(p, s);
      SubmitTouchesOne(cfg, p, e, nu(e.Sender()), s);
      if p'.senders[s] != q {
        InsertKeepsContiguous(q, e, nu(s));
        PromoteKeepsContiguous(Insert(q, IsPending(q, e.Nonce(), nu(s)), e), nu(s));
        if s !in out {
          OrderlyRuns.SubmitKeepsDue(q, e, nu(s));
        }
      }
    }
  }

  lemma ReceiveKeeps<W(!new)>(cfg: PoolConfig, ru: Rules<W>, eoa: Address -> bool, n: Node<W>, raw: Bytes, n': Node<W>)
    requires Trusted(ru, eoa) && Kept(cfg, ru, eoa, n) && Act(cfg, ru, n, Receive(raw), n')
    ensures Kept(cfg, ru, eoa, n')
  {
    if ru.decode(raw).Some? {
      var tx := ru.decode(raw).value;
      var ev := PoolRuns.SubmitTx(tx, ru.nonceOf(n.world, tx.sender));
      DecodedIsGenuine(ru.decode, tx);
      PoolRuns.StepKeepsSound(cfg, n.pool, ev, n'.pool);
      StepKeepsGenuine(cfg, ru.decode, n.pool, ev, n'.pool);
      SubmitKeepsWaiting(cfg, n.pool, NewEntry(cfg, tx), Lookup(ru, n.world), SendersOut(n.out), eoa);
    }
  }

  // ----- Proposing -----

  lemma CollectKeepsWaiting(p: Pool, nu: NonceLookup, taken: set<Address>)
    requires Waiting(p, nu, {}) && Collectable(p, taken)
    ensures Waiting(Collect(p, taken), nu, taken)
  {
    var p' := Collect(p, taken);
    forall s | s in p'.senders
      ensures Contiguous(p'.senders[s], nu(s)) && (s !in taken ==> HeadDue(p'.senders[s], nu(s)))
    {
      assert HeadDue(p.senders[s], nu(s));
      if s in taken {
        DropHeadContiguous(p.senders[s], nu(s));
      }
    }
  }

  lemma SelectionWouldRun<W(!new)>(cfg: PoolConfig, ru: Rules<W>, eoa: Address -> bool, n: Node<W>, order: seq<PoolEntry>, cap: U64)
    requires Trusted(ru, eoa) && Kept(cfg, ru, eoa, n) && n.out.None? && IsCandidateOrder(n.pool, order)
    requires GasCapped(order, cap) && SumsFit(cap, ru.gasLimit, |order|)
    ensures WouldRun(ru, eoa, n.world, Select(order, ru.maxBytes, ru.gasLimit))
  {
    var sel := Select(order, ru.maxBytes, ru.gasLimit);
    PayloadParsesBack(order, ru.maxBytes, ru.gasLimit);
    TakenAreDue(ru.nonceOf, n.world, Lookup(ru, n.world), n.pool, order, ru.maxBytes, ru.gasLimit);
    DecodesBack(ru.decode, sel.taken);
    GasIsBounded(order, ru.maxBytes, ru.gasLimit, cap, |order|);
    GasLimitsOf(sel.taken);
  }

  lemma ProposeKeeps<W(!new)>(cfg: PoolConfig, ru: Rules<W>, eoa: Address -> bool, n: Node<W>, order: seq<PoolEntry>, n': Node<W>)
    requires Trusted(ru, eoa) && Kept(cfg, ru, eoa, n)
    requires Act(cfg, ru, n, Propose(order), n') && Conduct(ru, eoa, n, Propose(order))
    ensures Kept(cfg, ru, eoa, n')
  {
    var cap: U64 :| GasCapped(order, cap) && SumsFit(cap, ru.gasLimit, |order|);
    var taken := SendersOf(Select(order, ru.maxBytes, ru.gasLimit).taken);
    SelectionWouldRun(cfg, ru, eoa, n, order, cap);
    PoolRuns.StepKeepsSound(cfg, n.pool, PoolRuns.CollectHeads(taken), n'.pool);
    StepKeepsGenuine(cfg, ru.decode, n.pool, PoolRuns.CollectHeads(taken), n'.pool);
    CollectKeepsWaiting(n.pool, Lookup(ru, n.world), taken);
  }

  // ----- Finalizing -----

  /** A payload that would run does: all of it is attempted and nothing stops the loop. */
  lemma PayloadRuns<W(!new)>(ru: Rules<W>, eoa: Address -> bool, w: W, sel: Selection, height: U64, transact: Transact<W>)
    requires WouldRun(ru, eoa, w, sel) && Honest(ru.nonceOf, transact, eoa)
    ensures var pr := RunBlock(ru.nonceOf, BlockOf(ru, Raws(sel.taken), height, transact), w);
            pr.attempted == TxsOf(sel.taken) && !pr.halted
  {
    AllReach(ru.nonceOf, transact, eoa, BlockEnv(height, ru.gasLimit, ru.baseFee), w, TxsOf(sel.taken));
  }

  lemma {:induction false} DecodedOwners(decode: Decoder, eoa: Address -> bool, raws: seq<Bytes>)
    requires forall raw: Bytes :: decode(raw).Some? ==> eoa(decode(raw).value.sender)
    ensures FromEoas(DecodeAll(decode, raws), eoa)
    decreases |raws|
  {
    if raws != [] {
      DecodedOwners(decode, eoa, raws[..|raws| - 1]);
    }
  }

  lemma {:induction false} CountsTaken(es: seq<PoolEntry>, i: nat)
    requires i < |es|
    ensures CountFrom(TxsOf(es), es[i].Sender()) > 0
    decreases |es|
  {
    var n := |es| - 1;
    assert TxsOf(es)[..n] == TxsOf(es[..n]);
    if i < n {
      CountsTaken(es[..n], i);
    }
  }

  /** A commit on nonces that only grow, and that moved for every sender out, leaves every head due. */
  lemma CommitEndsWaiting(p: Pool, nu: NonceLookup, nu': NonceLookup, out: set<Address>)
    requires Waiting(p, nu, out) && forall s :: s in p.senders ==> nu(s) <= nu'(s) && (s in out ==> nu(s) < nu'(s))
    ensures Waiting(Commit(p, nu'), nu', {})
  {
    var p' := Commit(p, nu');
    forall s | s in p.senders && OnePast(p.senders[s], nu(s))
      ensures nu'(s) > nu(s)
    {
      assert !HeadDue(p.senders[s], nu(s));
    }
    OrderlyRuns.CommitMakesReadyExactlyWhen(p, nu, nu');
    forall s | s in p'.senders
      ensures Contiguous(p'.senders[s], nu'(s))
    {
      EvictKeepsContiguous(p.senders[s], nu(s), nu'(s));
      PromoteKeepsContiguous(Evict(p.senders[s], nu'(s)), nu'(s));
    }
  }

  /** The nonces a block leaves behind: none falls, and those of a payload that was out all rise. */
  lemma BlockMovesNonces<W(!new)>(cfg: PoolConfig, ru: Rules<W>, eoa: Address -> bool, n: Node<W>,
                                  raws: seq<Bytes>, height: U64, transact: Transact<W>, world: W)
    requires Trusted(ru, eoa) && Kept(cfg, ru, eoa, n) && Conduct(ru, eoa, n, Finalize(raws, height, transact))
    requires world == ru.persist(RunBlock(ru.nonceOf, BlockOf(ru, raws, height, transact), n.world).world)
    ensures forall s :: eoa(s) ==>
              && ru.nonceOf(n.world, s) <= ru.nonceOf(world, s)
              && (s in SendersOut(n.out) ==> ru.nonceOf(n.world, s) < ru.nonceOf(world, s))
  {
    var b := BlockOf(ru, raws, height, transact);
    var pr := RunBlock(ru.nonceOf, b, n.world);
    DecodedOwners(ru.decode, eoa, raws);
    NoncesMove(ru.nonceOf, transact, eoa, b.env, n.world, b.txs);
    assert SameNonces(ru.nonceOf, eoa, pr.world, world);
    if n.out.Some? {
      var taken := n.out.value.taken;
      PayloadRuns(ru, eoa, n.world, n.out.value, height, transact);
      forall s | s in SendersOut(n.out)
        ensures CountFrom(pr.executed, s) > 0
      {
        var i :| 0 <= i < |taken| && taken[i].Sender() == s;
        CountsTaken(taken, i);
      }
    }
  }

  lemma FinalizeKeeps<W(!new)>(cfg: PoolConfig, ru: Rules<W>, eoa: Address -> bool, n: Node<W>,
                               raws: seq<Bytes>, height: U64, transact: Transact<W>, n': Node<W>)
    requires Trusted(ru, eoa) && Kept(cfg, ru, eoa, n)
    requires Act(cfg, ru, n, Finalize(raws, height, transact), n') && Conduct(ru, eoa, n, Finalize(raws, height, transact))
    ensures Kept(cfg, ru, eoa, n')
  {
    var nu' := Lookup(ru, n'.world);
    BlockMovesNonces(cfg, ru, eoa, n, raws, height, transact, n'.world);
    CommitEndsWaiting(n.pool, Lookup(ru, n.world), nu', SendersOut(n.out));
    PoolRuns.StepKeepsSound(cfg, n.pool, PoolRuns.CommitAt(nu'), n'.pool);
    StepKeepsGenuine(cfg, ru.decode, n.pool, PoolRuns.CommitAt(nu'), n'.pool);
  }

  // ----- Whole runs -----

  lemma ActKeeps<W(!new)>(cfg: PoolConfig, ru: Rules<W>, eoa: Address -> bool, n: Node<W>, act: Action<W>, n': Node<W>)
    requires Trusted(ru, eoa) && Kept(cfg, ru, eoa, n) && Act(cfg, ru, n, act, n') && Conduct(ru, eoa, n, act)
    ensures Kept(cfg, ru, eoa, n')
  {
    match act
    case Receive(raw) => ReceiveKeeps(cfg, ru, eoa, n, raw, n');
    case Propose(order) => ProposeKeeps(cfg, ru, eoa, n, order, n');
    case Finalize(raws, height, transact) => FinalizeKeeps(cfg, ru, eoa, n, raws, height, transact, n');
  }

  lemma FirstIsKept<W(!new)>(cfg: PoolConfig, ru: Rules<W>, eoa: Address -> bool, n: Node<W>)
    requires n.pool == EMPTY_POOL && n.out.None?
    ensures Kept(cfg, ru, eoa, n)
  {
    PoolRuns.EmptyIsSound(cfg);
  }

  lemma MachineAt<W(!new)>(cfg: PoolConfig, ru: Rules<W>, eoa: Address -> bool, acts: seq<Action<W>>, ns: seq<Node<W>>, i: nat, j: nat)
    requires IsMachineRun(cfg, ru, eoa, acts, ns) && j == i + 1 < |ns|
    ensures Act(cfg, ru, ns[i], acts[i], ns[j]) && Conduct(ru, eoa, ns[i], acts[i])
  {
    assert At(i);
  }

  /** Every node of every run is sound, contiguous, and ready whenever no payload is out. */
  lemma {:induction false} KeptOnEveryRun<W(!new)>(cfg: PoolConfig, ru: Rules<W>, eoa: Address -> bool,
                                                   acts: seq<Action<W>>, ns: seq<Node<W>>, i: nat)
    requires Trusted(ru, eoa) && IsMachineRun(cfg, ru, eoa, acts, ns) && i < |ns|
    ensures Kept(cfg, ru, eoa, ns[i])
    decreases i
  {
    if i == 0 {
      FirstIsKept(cfg, ru, eoa, ns[i]);
    } else {
      var before := i - 1;
      KeptOnEveryRun(cfg, ru, eoa, acts, ns, before);
      MachineAt(cfg, ru, eoa, acts, ns, before, i);
      ActKeeps(cfg, ru, eoa, ns[before], acts[before], ns[i]);
    }
  }

  /**
   On every run of the machine, whatever comes in between: a block that carries the payload out
   decodes to exactly the transactions taken, hands every one of them to the EVM, gives each a
   receipt, and leaves every sender's lowest pending nonce at its account nonce.
   */
  lemma EveryPayloadRunsInFull<W(!new)>(cfg: PoolConfig, ru: Rules<W>, eoa: Address -> bool,
                                        acts: seq<Action<W>>, ns: seq<Node<W>>, i: nat, j: nat)
    requires Trusted(ru, eoa) && IsMachineRun(cfg, ru, eoa, acts, ns) && j == i + 1 < |ns|
    requires acts[i].Finalize? && ns[i].out.Some?
    ensures var b := BlockOf(ru, acts[i].raws, acts[i].height, acts[i].transact);
            var pr := RunBlock(ru.nonceOf, b, ns[i].world);
            && b.txs == TxsOf(ns[i].out.value.taken)
            && pr.attempted == b.txs && !pr.halted && pr.executed == b.txs && |pr.receipts| == |b.txs|
    ensures ns[j].out.None? && Ready(ns[j].pool, Lookup(ru, ns[j].world))
  {
    KeptOnEveryRun(cfg, ru, eoa, acts, ns, i);
    KeptOnEveryRun(cfg, ru, eoa, acts, ns, j);
    MachineAt(cfg, ru, eoa, acts, ns, i, j);
    RunsInFull(ru, eoa, ns[i], acts[i].raws, acts[i].height, acts[i].transact);
  }

  lemma RunsInFull<W(!new)>(ru: Rules<W>, eoa: Address -> bool, n: Node<W>, raws: seq<Bytes>, height: U64, transact: Transact<W>)
    requires n.out.Some? && WouldRun(ru, eoa, n.world, n.out.value) && Conduct(ru, eoa, n, Finalize(raws, height, transact))
    ensures var b := BlockOf(ru, raws, height, transact);
            var pr := RunBlock(ru.nonceOf, b, n.world);
            && b.txs == TxsOf(n.out.value.taken)
            && pr.attempted == b.txs && !pr.halted && pr.executed == b.txs && |pr.receipts| == |b.txs|
  {
    PayloadRuns(ru, eoa, n.world, n.out.value, height, transact);
    BlockReceipts(ru.nonceOf, transact, BlockEnv(height, ru.gasLimit, ru.baseFee), n.world, TxsOf(n.out.value.taken));
  }
}
