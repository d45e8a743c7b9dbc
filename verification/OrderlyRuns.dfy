/**
 Whole runs of the cycle under conditions a caller can see: a payload is collected at most once
 between commits, lookups are coherent, and a commit moves the nonce of every sender whose
 transaction was taken out. Then every payload ever collected reaches the EVM in full.
 */
module OrderlyRuns {
  import opened Primitives
  import opened Finite
  import opened Transactions
  import opened PoolModel
  import opened PoolInvariants
  import opened PoolRuns
  import opened PoolDiscipline
  import opened Payload
  import opened Execution
  import Executor
  import opened EndToEnd

  /** Nothing was collected since the last commit, or since the start. */
  predicate Quiet(evs: seq<Event>, i: nat)
    requires i <= |evs|
  {
    i == 0 || evs[i - 1].CommitAt? || (evs[i - 1].SubmitTx? && Quiet(evs, i - 1))
  }

  /** A commit moves the nonce of every sender whose head is one past it. */
  ghost predicate Includes(p: Pool, ev: Event, nu: NonceLookup, nu': NonceLookup) {
    ev.CommitAt? ==> forall s :: s in p.senders && OnePast(p.senders[s], nu(s)) ==> nu'(s) > nu(s)
  }

  ghost predicate Orderly(evs: seq<Event>, ps: seq<Pool>, nus: seq<NonceLookup>) {
    && Coherent(evs, nus) && |ps| == |nus|
    && (forall i :: 0 <= i < |evs| && At(i) ==>
          && (evs[i].CollectHeads? ==> Quiet(evs, i))
          && Includes(ps[i], evs[i], nus[i], nus[i + 1]))
  }

  // ----- One step -----

  /** A submission leaves the head of a due queue due. */
  lemma SubmitKeepsDue(q: SenderQueue, e: PoolEntry, current: U64)
    requires Contiguous(q, current) && HeadDue(q, current) && current <= e.Nonce()
    ensures HeadDue(Promote(Insert(q, IsPending(q, e.Nonce(), current), e), current), current)
  {
    var q1 := Insert(q, IsPending(q, e.Nonce(), current), e);
    if q1.pending == map[] {
      if Promote(q1, current).pending != map[] {
        FreshHead(q1, current);
      }
    } else {
      assert current in q1.pending;
      assert MinKey(q1.pending) == current;
      SameHead(q1, current);
    }
  }

  lemma SubmitKeepsReady(cfg: PoolConfig, p: Pool, e: PoolEntry, nu: NonceLookup)
    requires AllContiguous(p, nu) && Ready(p, nu)
    ensures Ready(Submit(cfg, p, e, nu(e.Sender())).0, nu)
  {
    var p' := Submit(cfg, p, e, nu(e.Sender())).0;
    forall s | s in p'.senders
      ensures HeadDue(p'.senders[s], nu(s))
    {
      SubmitTouchesOne(cfg, p, e, nu(e.Sender()), s);
      if p'.senders[s] != QueueOf(p, s) {
        SubmitKeepsDue(QueueOf(p, s), e, nu(s));
      }
    }
  }

  lemma ReadyPointwise(p: Pool, nu: NonceLookup, nu': NonceLookup)
    requires Ready(p, nu) && forall a :: nu'(a) == nu(a)
    ensures Ready(p, nu')
  {
  }

  /** After a commit the pool is ready exactly when no sender is left one past an unmoved nonce. */
  lemma CommitMakesReadyExactlyWhen(p: Pool, nu: NonceLookup, nu': NonceLookup)
    requires AllContiguous(p, nu) && forall s :: s in p.senders ==> nu(s) <= nu'(s)
    ensures Ready(Commit(p, nu'), nu')
            <==> forall s :: s in p.senders && OnePast(p.senders[s], nu(s)) ==> nu'(s) > nu(s)
  {
    forall s | s in p.senders
      ensures HeadDue(Settle(p.senders[s], nu'(s)), nu'(s)) <==> (OnePast(p.senders[s], nu(s)) ==> nu'(s) > nu(s))
    {
      SettleMakesDue(p.senders[s], nu(s), nu'(s));
    }
    CommittedQueues(p, nu');
  }

  lemma CommitReady(p: Pool, nonceOf: NonceLookup, nu: NonceLookup, nu': NonceLookup)
    requires AllContiguous(p, nu) && forall a :: nu(a) <= nu'(a) == nonceOf(a)
    requires forall s :: s in p.senders && OnePast(p.senders[s], nu(s)) ==> nu'(s) > nu(s)
    ensures Ready(Commit(p, nonceOf), nu')
  {
    CommitMakesReadyExactlyWhen(p, nu, nonceOf);
    ReadyPointwise(Commit(p, nonceOf), nonceOf, nu');
  }

  lemma StepKeepsReady(cfg: PoolConfig, p: Pool, ev: Event, p': Pool, nu: NonceLookup, nu': NonceLookup)
    requires Step(cfg, p, ev, p') && StepNonces(ev, nu, nu') && AllContiguous(p, nu) && !ev.CollectHeads?
    requires ev.SubmitTx? ==> Ready(p, nu)
    requires Includes(p, ev, nu, nu')
    ensures Ready(p', nu')
  {
    match ev
    case SubmitTx(tx, current) =>
      SubmitKeepsReady(cfg, p, NewEntry(cfg, tx), nu);
      ReadyPointwise(p', nu, nu');
    case CommitAt(nonceOf) =>
      CommitReady(p, nonceOf, nu, nu');
  }

  lemma ReadyHeadsAreDue(p: Pool, ev: Event, nu: NonceLookup)
    requires ev.CollectHeads? ==> Ready(p, nu)
    ensures HeadsAreDue(p, ev, nu)
  {
    if ev.CollectHeads? && Collectable(p, ev.taken) {
      forall s | s in ev.taken
        ensures MinKey(p.senders[s].pending) == nu(s)
      {
        assert HeadDue(p.senders[s], nu(s));
      }
    }
  }

  // ----- Whole runs -----

  /** What holds at every moment of an orderly run. */
  ghost predicate InOrder(p: Pool, nu: NonceLookup, quiet: bool) {
    AllContiguous(p, nu) && (quiet ==> Ready(p, nu))
  }

  lemma StepKeepsOrder(cfg: PoolConfig, p: Pool, ev: Event, p': Pool, nu: NonceLookup, nu': NonceLookup, quiet: bool)
    requires Step(cfg, p, ev, p') && StepNonces(ev, nu, nu') && Includes(p, ev, nu, nu')
    requires InOrder(p, nu, quiet) && (ev.CollectHeads? ==> quiet)
    ensures InOrder(p', nu', ev.CommitAt? || (ev.SubmitTx? && quiet))
  {
    ReadyHeadsAreDue(p, ev, nu);
    forall s | s in p'.senders
      ensures Contiguous(p'.senders[s], nu'(s))
    {
      QueueAfterStep(cfg, p, ev, p', nu, nu', s);
    }
    if ev.CommitAt? || (ev.SubmitTx? && quiet) {
      StepKeepsReady(cfg, p, ev, p', nu, nu');
    }
  }

  lemma OrderlyAt(cfg: PoolConfig, evs: seq<Event>, ps: seq<Pool>, nus: seq<NonceLookup>, i: nat, j: nat)
    requires IsRun(cfg, evs, ps) && Orderly(evs, ps, nus) && j == i + 1 <= |evs|
    ensures Step(cfg, ps[i], evs[i], ps[j]) && StepNonces(evs[i], nus[i], nus[j]) && Includes(ps[i], evs[i], nus[i], nus[j])
    ensures evs[i].CollectHeads? ==> Quiet(evs, i)
    ensures Quiet(evs, j) == (evs[i].CommitAt? || (evs[i].SubmitTx? && Quiet(evs, i)))
  {
    assert At(i);
    RunStep(cfg, evs, ps, i, j);
  }

  lemma OrderlyStep(cfg: PoolConfig, evs: seq<Event>, ps: seq<Pool>, nus: seq<NonceLookup>, i: nat, j: nat)
    requires IsRun(cfg, evs, ps) && Orderly(evs, ps, nus) && j == i + 1 <= |evs|
    requires InOrder(ps[i], nus[i], Quiet(evs, i))
    ensures InOrder(ps[j], nus[j], Quiet(evs, j))
  {
    OrderlyAt(cfg, evs, ps, nus, i, j);
    StepKeepsOrder(cfg, ps[i], evs[i], ps[j], nus[i], nus[j], Quiet(evs, i));
  }

  lemma EmptyIsInOrder(p: Pool, nu: NonceLookup, quiet: bool)
    requires p == EMPTY_POOL
    ensures InOrder(p, nu, quiet)
  {
  }

  /**
   On every orderly run, at every moment, pending nonces are contiguous; and whenever nothing is
   out in a block, every sender's lowest pending nonce is its account nonce.
   */
  lemma {:induction false} ReadyOnOrderlyRuns(cfg: PoolConfig, evs: seq<Event>, ps: seq<Pool>, nus: seq<NonceLookup>, i: nat)
    requires IsRun(cfg, evs, ps) && Orderly(evs, ps, nus) && i <= |evs|
    ensures InOrder(ps[i], nus[i], Quiet(evs, i))
    decreases i
  {
    if i == 0 {
      EmptyIsInOrder(ps[i], nus[i], Quiet(evs, i));
    } else {
      var before := i - 1;
      ReadyOnOrderlyRuns(cfg, evs, ps, nus, before);
      OrderlyStep(cfg, evs, ps, nus, before, i);
    }
  }

  /** So an orderly run is disciplined: what the discipline asks of each collection is never violated. */
  lemma OrderlyIsDisciplined(cfg: PoolConfig, evs: seq<Event>, ps: seq<Pool>, nus: seq<NonceLookup>)
    requires IsRun(cfg, evs, ps) && Orderly(evs, ps, nus)
    ensures Disciplined(evs, ps, nus)
  {
    forall i | 0 <= i < |evs| && At(i)
      ensures HeadsAreDue(ps[i], evs[i], nus[i])
    {
      ReadyOnOrderlyRuns(cfg, evs, ps, nus, i);
      ReadyHeadsAreDue(ps[i], evs[i], nus[i]);
    }
  }

  /**
   At every quiet moment of every orderly run that submits decoded bytes, the payload the pool
   hands out parses and decodes to the transactions taken, and executed on the state the lookups
   describe, every one of them reaches the EVM.
   */
  lemma EveryPayloadReachesTheEvm<W(!new)>(
      cfg: PoolConfig, evs: seq<Event>, ps: seq<Pool>, nus: seq<NonceLookup>, i: nat,
      cs: seq<PoolEntry>, decode: Decoder, maxBytes: nat, cap: U64,
      nonceOf: NonceReader<W>, transact: Transact<W>, eoa: Address -> bool, env: BlockEnv, w: W)
    requires IsRun(cfg, evs, ps) && Orderly(evs, ps, nus) && i <= |evs| && Quiet(evs, i)
    requires KeepsRaw(decode) && forall j :: 0 <= j < |evs| && At(j) && evs[j].SubmitTx? ==> Decoded(decode, evs[j].tx)
    requires IsCandidateOrder(ps[i], cs) && maxBytes < TWO_32 + 4
    requires env.gasLimit > 0 && GasCapped(cs, cap) && SumsFit(cap, env.gasLimit, |cs|)
    requires Honest(nonceOf, transact, eoa) && forall s :: s in ps[i].senders ==> eoa(s)
    requires forall a :: nus[i](a) == nonceOf(w, a)
    ensures var sel := Select(cs, maxBytes, env.gasLimit);
            && Parse(sel.payload) == Some(Raws(sel.taken))
            && Executor.DecodeAll(decode, Raws(sel.taken)) == TxsOf(sel.taken)
            && var pr := Execute(nonceOf, transact, env, w, TxsOf(sel.taken));
               pr.attempted == TxsOf(sel.taken) && !pr.halted
  {
    ReadyOnOrderlyRuns(cfg, evs, ps, nus, i);
    RunIsSound(cfg, evs, ps, i);
    GenuineOnEveryRun(cfg, decode, evs, ps, i);
    EveryCollectedTxReachesTheEvm(cfg, ps[i], cs, decode, maxBytes, cap, nonceOf, transact, eoa, env, w, nus[i]);
  }
}
