/**
 Runs of the pool, from empty, on which a property fails outside its exact condition: each is a
 handful of calls any client can make.
 */
module Counterexamples {
  import opened Primitives
  import opened Finite
  import opened Transactions
  import opened PoolModel
  import opened PoolInvariants
  import opened PoolRuns
  import opened PoolDiscipline
  import opened Replacement
  import opened EndToEnd
  import opened OrderlyRuns

  // ----- One sender's transactions -----

  /** Transaction number `id` of account 0, with nonce `n`, tipping `tip` over the base fee. */
  function Tx(cfg: PoolConfig, n: Nonce, id: Byte, tip: U64): VerifiedTx
    requires cfg.baseFee + tip < TWO_64
  {
    VerifiedTx([id], Envelope(None, n, 21_000, cfg.baseFee + tip, Some(tip), Some(0), 0, []), 0, id)
  }

  lemma TipOf(cfg: PoolConfig, n: Nonce, id: Byte, tip: U64)
    requires cfg.baseFee + tip < TWO_64
    ensures NewEntry(cfg, Tx(cfg, n, id, tip)).tip == tip
  {
  }

  /** Account 0 has exactly the nonces [a, b) pending and nothing queued; ids from `used` on are free. */
  ghost predicate Solo(p: Pool, a: nat, b: nat, used: nat) {
    && 0 in p.senders && p.senders[0].queued == map[]
    && Interval(p.senders[0].pending, a, b)
    && forall h :: h in p.byHash ==> h < used
  }

  lemma {:induction false} IntervalSize(m: Lane, a: nat, b: nat)
    requires Interval(m, a, b) && a <= b < TWO_64
    ensures |m| == b - a
    decreases b - a
  {
    if a == b {
      EmptyInterval(m, a, b);
    } else {
      var rest := m - {b - 1};
      assert b - 1 in m;
      assert rest.Keys == m.Keys - {b - 1};
      IntervalSize(rest, a, b - 1);
    }
  }

  lemma FirstSubmit(cfg: PoolConfig, tip: U64) returns (p: Pool)
    requires cfg.baseFee + tip < TWO_64 && cfg.maxPending > 0
    ensures Step(cfg, EMPTY_POOL, SubmitTx(Tx(cfg, 0, 0, tip), 0), p) && Solo(p, 0, 1, 1)
    ensures p.senders[0].pending[0] == NewEntry(cfg, Tx(cfg, 0, 0, tip))
  {
    var e := NewEntry(cfg, Tx(cfg, 0, 0, tip));
    SubmitToPending(cfg, EMPTY_POOL, e, 0);
    p := Submit(cfg, EMPTY_POOL, e, 0).0;
  }

  lemma NextSubmit(cfg: PoolConfig, p: Pool, b: Nonce, used: Byte) returns (p': Pool)
    requires Solo(p, 0, b, used) && 0 < b < cfg.maxPending
    ensures Step(cfg, p, SubmitTx(Tx(cfg, b, used, 0), 0), p') && Solo(p', 0, b + 1, used + 1)
  {
    var e := NewEntry(cfg, Tx(cfg, b, used, 0));
    IntervalSize(p.senders[0].pending, 0, b);
    assert b - 1 in p.senders[0].pending;
    SubmitToPending(cfg, p, e, 0);
    p' := Submit(cfg, p, e, 0).0;
  }

  lemma TakeHead(cfg: PoolConfig, p: Pool, a: nat, b: nat, used: nat) returns (p': Pool)
    requires Solo(p, a, b, used) && a < b < TWO_64
    ensures Step(cfg, p, CollectHeads({0}), p') && Solo(p', a + 1, b, used)
  {
    IntervalEnds(p.senders[0].pending, a, b);
    p' := Collect(p, {0});
  }

  // ----- Runs on which every account stays at nonce 0 -----

  ghost function Zero(): NonceLookup {
    (a: Address) => 0
  }

  ghost predicate AtZero(ev: Event) {
    match ev
    case SubmitTx(tx, current) => current == 0
    case CollectHeads(taken) => true
    case CommitAt(nonceOf) => nonceOf == Zero()
  }

  /** `k` calls, with lookups that always answer 0, take the empty pool to `p`. */
  ghost predicate Reached(cfg: PoolConfig, p: Pool, k: nat) {
    exists evs: seq<Event>, ps: seq<Pool> :: IsRun(cfg, evs, ps) && EndsAt(evs, ps, p, k)
  }

  ghost predicate EndsAt(evs: seq<Event>, ps: seq<Pool>, p: Pool, k: nat) {
    && |evs| == k && |ps| == k + 1 && ps[k] == p
    && forall i :: 0 <= i < |evs| && At(i) ==> AtZero(evs[i])
  }

  lemma ReachedFirst(cfg: PoolConfig)
    ensures Reached(cfg, EMPTY_POOL, 0)
  {
    assert IsRun(cfg, [], [EMPTY_POOL]) && EndsAt([], [EMPTY_POOL], EMPTY_POOL, 0);
  }

  lemma ReachedNext(cfg: PoolConfig, p: Pool, k: nat, ev: Event, p': Pool)
    requires Reached(cfg, p, k) && Step(cfg, p, ev, p') && AtZero(ev)
    ensures Reached(cfg, p', k + 1)
  {
    var evs: seq<Event>, ps: seq<Pool> :| IsRun(cfg, evs, ps) && EndsAt(evs, ps, p, k);
    RunOneMore(cfg, evs, ps, ev, p');
    EndsOneMore(evs, ps, p, k, ev, p');
  }

  lemma RunOneMore(cfg: PoolConfig, evs: seq<Event>, ps: seq<Pool>, ev: Event, p': Pool)
    requires IsRun(cfg, evs, ps) && Step(cfg, ps[|evs|], ev, p')
    ensures IsRun(cfg, evs + [ev], ps + [p'])
  {
    var evs', ps' := evs + [ev], ps + [p'];
    forall i | 0 <= i < |evs'| && At(i)
      ensures Step(cfg, ps'[i], evs'[i], ps'[i + 1])
    {
      if i < |evs| {
        RunStep(cfg, evs, ps, i, i + 1);
      }
    }
  }

  lemma EndsOneMore(evs: seq<Event>, ps: seq<Pool>, p: Pool, k: nat, ev: Event, p': Pool)
    requires EndsAt(evs, ps, p, k) && AtZero(ev)
    ensures EndsAt(evs + [ev], ps + [p'], p', k + 1)
  {
  }

  /** Such a run is coherent: what a submission sees is what the last commit saw. */
  lemma ReachedIsCoherent(evs: seq<Event>, ps: seq<Pool>, p: Pool, k: nat)
    requires EndsAt(evs, ps, p, k)
    ensures Coherent(evs, seq(k + 1, _ => Zero()))
  {
  }

  lemma SubmitEvent(cfg: PoolConfig, p: Pool, tx: VerifiedTx, p': Pool)
    requires Submit(cfg, p, NewEntry(cfg, tx), 0).0 == p'
    ensures Step(cfg, p, SubmitTx(tx, 0), p') && AtZero(SubmitTx(tx, 0))
  {
  }

  lemma OnePending(cfg: PoolConfig, tip: U64) returns (p: Pool)
    requires cfg.baseFee + tip < TWO_64 && cfg.maxPending > 0
    ensures Reached(cfg, p, 1) && Solo(p, 0, 1, 1) && p.senders[0].pending[0].tip == tip
  {
    ReachedFirst(cfg);
    p := FirstSubmit(cfg, tip);
    TipOf(cfg, 0, 0, tip);
    ReachedNext(cfg, EMPTY_POOL, 0, SubmitTx(Tx(cfg, 0, 0, tip), 0), p);
  }

  lemma TwoPending(cfg: PoolConfig) returns (p: Pool)
    requires cfg.maxPending >= 2
    ensures Reached(cfg, p, 2) && Solo(p, 0, 2, 2)
  {
    var p1 := OnePending(cfg, 0);
    p := NextSubmit(cfg, p1, 1, 1);
    ReachedNext(cfg, p1, 1, SubmitTx(Tx(cfg, 1, 1, 0), 0), p);
  }

  // ----- Two collections before a commit -----

  lemma ThreePending(cfg: PoolConfig) returns (p: Pool)
    requires cfg.maxPending >= 3
    ensures Reached(cfg, p, 3) && Solo(p, 0, 3, 3)
  {
    var p2 := TwoPending(cfg);
    p := NextSubmit(cfg, p2, 2, 2);
    ReachedNext(cfg, p2, 2, SubmitTx(Tx(cfg, 2, 2, 0), 0), p);
  }

  lemma TwoTaken(cfg: PoolConfig) returns (p: Pool)
    requires cfg.maxPending >= 3
    ensures Reached(cfg, p, 5) && Solo(p, 2, 3, 3)
  {
    var p3 := ThreePending(cfg);
    var p4 := TakeHead(cfg, p3, 0, 3, 3);
    ReachedNext(cfg, p3, 3, CollectHeads({0}), p4);
    p := TakeHead(cfg, p4, 1, 3, 3);
    ReachedNext(cfg, p4, 4, CollectHeads({0}), p);
  }

  lemma FillBelow(cfg: PoolConfig, p: Pool, e: PoolEntry) returns (p': Pool)
    requires Solo(p, 2, 3, 3) && e.Sender() == 0 && e.Nonce() == 0 && e.Hash() == 3 && cfg.maxPending >= 3
    ensures Submit(cfg, p, e, 0) == (p', Accepted(3))
    ensures 0 in p'.senders && var q := p'.senders[0]; 0 in q.pending && 1 !in q.pending && 2 in q.pending
  {
    IntervalSize(p.senders[0].pending, 2, 3);
    SubmitToPending(cfg, p, e, 0);
    p' := Submit(cfg, p, e, 0).0;
  }

  lemma HoleIsNoInterval(q: SenderQueue)
    requires 0 in q.pending && 1 !in q.pending && 2 in q.pending
    ensures !Contiguous(q, 0)
  {
    assert MinKey(q.pending) <= 1 < MaxKey(q.pending) + 1;
  }

  /**
   Submit three nonces, collect twice, submit the account nonce again: the submission is accepted
   and pending has a hole.
   */
  lemma TwoCollectionsLeaveHole(cfg: PoolConfig) returns (p: Pool, tx: VerifiedTx, p': Pool)
    requires cfg.maxPending >= 3
    ensures Reached(cfg, p, 5) && Submit(cfg, p, NewEntry(cfg, tx), 0) == (p', Accepted(tx.txHash)) && Reached(cfg, p', 6)
    ensures 0 in p'.senders && !Contiguous(p'.senders[0], 0)
  {
    p := TwoTaken(cfg);
    tx := Tx(cfg, 0, 3, 0);
    p' := FillBelow(cfg, p, NewEntry(cfg, tx));
    SubmitEvent(cfg, p, tx, p');
    ReachedNext(cfg, p, 5, SubmitTx(tx, 0), p');
    HoleIsNoInterval(p'.senders[0]);
  }

  // ----- A cheaper replacement -----

  /** The tip of a replacement meets the threshold of the tip it replaces. */
  predicate Reaches(tip: U64, before: U64, pct: BumpPct) {
    tip >= MinTip(before, pct)
  }

  lemma ReplaceOnly(cfg: PoolConfig, p: Pool, e: PoolEntry) returns (p': Pool)
    requires Solo(p, 0, 1, 1) && e.Sender() == 0 && e.Nonce() == 0 && e.Hash() == 1
    requires Reaches(e.tip, p.senders[0].pending[0].tip, cfg.bumpPct)
    ensures Submit(cfg, p, e, 0) == (p', Accepted(1))
    ensures 0 in p'.senders && 0 in p'.senders[0].pending && p'.senders[0].pending[0] == e
  {
    PromoteNothing(Insert(p.senders[0], true, e), 0);
    assert Refusal(cfg, p.senders[0], e, 0) == None;
    p' := Submit(cfg, p, e, 0).0;
  }

  /**
   For every tip above a hundredth of 2^64, an accepted submission replaces it by a lower one: the
   threshold comes from a saturated product.
   */
  lemma CheaperReplacementIsAccepted(cfg: PoolConfig, tip: U64) returns (p: Pool, tx: VerifiedTx, p': Pool)
    requires cfg.baseFee + tip < TWO_64 && cfg.maxPending > 0 && tip > (TWO_64 - 1) / 100
    ensures Reached(cfg, p, 1) && Submit(cfg, p, NewEntry(cfg, tx), 0) == (p', Accepted(tx.txHash)) && Reached(cfg, p', 2)
    ensures LaneTip(QueueOf(p, 0), 0, true) == Some(tip) && Replaces(cfg, p, SubmitTx(tx, 0), 0, 0, true)
    ensures LaneTip(QueueOf(p', 0), 0, true).Some? && LaneTip(QueueOf(p', 0), 0, true).value < tip
  {
    p := OnePending(cfg, tip);
    var lower := LowerTip(tip, cfg.bumpPct);
    tx := Tx(cfg, 0, 1, lower);
    TipOf(cfg, 0, 1, lower);
    p' := ReplaceOnly(cfg, p, NewEntry(cfg, tx));
    SubmitEvent(cfg, p, tx, p');
    ReachedNext(cfg, p, 1, SubmitTx(tx, 0), p');
  }

  lemma LowerTip(tip: U64, pct: BumpPct) returns (lower: U64)
    requires tip > (TWO_64 - 1) / 100
    ensures Reaches(lower, tip, pct) && lower < tip
  {
    ReplacementNeverLowers(tip, pct);
    lower := MinTip(tip, pct);
  }

  // ----- A commit that includes nothing -----

  /** Two nonces submitted and the first collected. */
  lemma OneOut(cfg: PoolConfig) returns (p: Pool)
    requires cfg.maxPending >= 2
    ensures Reached(cfg, p, 3) && Solo(p, 1, 2, 2)
    ensures Contiguous(p.senders[0], 0) && OnePast(p.senders[0], 0)
  {
    var p2 := TwoPending(cfg);
    p := TakeHead(cfg, p2, 0, 2, 2);
    ReachedNext(cfg, p2, 2, CollectHeads({0}), p);
    IntervalEnds(p.senders[0].pending, 1, 2);
  }

  lemma StaysOnePast(p: Pool)
    requires 0 in p.senders && Contiguous(p.senders[0], 0) && OnePast(p.senders[0], 0)
    ensures !Ready(Commit(p, Zero()), Zero())
  {
    SettleMakesDue(p.senders[0], 0, 0);
    CommittedQueues(p, Zero());
  }

  /** Collect, then commit with the nonce unmoved: the pool is left not ready. */
  lemma EmptyBlockLeavesUnready(cfg: PoolConfig) returns (p: Pool, p': Pool)
    requires cfg.maxPending >= 2
    ensures Reached(cfg, p, 3) && p' == Commit(p, Zero()) && Reached(cfg, p', 4) && !Ready(p', Zero())
  {
    p := OneOut(cfg);
    p' := Commit(p, Zero());
    ReachedNext(cfg, p, 3, CommitAt(Zero()), p');
    StaysOnePast(p);
  }

  // ----- A nonce held twice -----

  lemma PlaceTwice(cfg: PoolConfig, p: Pool, e: PoolEntry) returns (p': Pool)
    requires Solo(p, 1, 2, 2) && Contiguous(p.senders[0], 0) && OnePast(p.senders[0], 0)
    requires e.Sender() == 0 && e.Nonce() == 1 && e.Hash() == 2 && cfg.maxQueued > 0
    ensures Submit(cfg, p, e, 0) == (p', Accepted(2))
    ensures 0 in p'.senders && 1 in p'.senders[0].pending && 1 in p'.senders[0].queued
  {
    RoutedPastTheFeeTest(cfg, p.senders[0], e, 0);
    p' := Submit(cfg, p, e, 0).0;
  }

  /** After a collection, a submission under the next nonce passes no fee test and the nonce is held twice. */
  lemma OneNonceHeldTwice(cfg: PoolConfig) returns (p: Pool, tx: VerifiedTx, p': Pool)
    requires cfg.maxPending >= 2 && cfg.maxQueued > 0
    ensures Reached(cfg, p, 3) && Submit(cfg, p, NewEntry(cfg, tx), 0) == (p', Accepted(tx.txHash)) && Reached(cfg, p', 4)
    ensures 0 in p'.senders && 1 in p'.senders[0].pending && 1 in p'.senders[0].queued
  {
    p := OneOut(cfg);
    tx := Tx(cfg, 1, 2, 0);
    p' := PlaceTwice(cfg, p, NewEntry(cfg, tx));
    SubmitEvent(cfg, p, tx, p');
    ReachedNext(cfg, p, 3, SubmitTx(tx, 0), p');
  }

  // ----- A fee cut to 64 bits -----

  /** At every base fee, an admitted transaction with a fee of 2^64 ranks by tip 0 and is priced with tip 1. */
  lemma CutFeeHidesTheTip(baseFee: U64) returns (tx: Envelope)
    ensures ValidateTx(tx, 1, 0, TWO_256 - 1, 30_000_000, baseFee) == None
    ensures EffectiveGasTip(tx, baseFee) == 0 && ReceiptTip(tx, baseFee) == 1
  {
    tx := Envelope(Some(1), 0, 21_000, TWO_64, Some(1), Some(0), 0, []);
    assert DataGas([], 0) == 0;
    assert MaxCost(tx, baseFee) == 21_000 * TWO_64;
  }
}
