/**
 (sender, nonce) deduplication: on disciplined runs each nonce of a sender is held once, until a
 submission hits the one case the routing misses.
 */
module Deduplication {
  import opened Primitives
  import opened Finite
  import opened Transactions
  import opened PoolModel
  import opened PoolInvariants
  import opened PoolRuns
  import opened PoolDiscipline

  // ----- One queue -----

  /** No nonce is in both lanes. */
  predicate Disjoint(q: SenderQueue) {
    forall n :: n in q.queued ==> n !in q.pending
  }

  /** Each nonce is held once, and what is queued waits for more than the account nonce. */
  predicate HeldOnce(q: SenderQueue, current: U64) {
    Disjoint(q) && forall n :: n in q.queued ==> n > current
  }

  /** The account nonce is out in a block, and the submission is for the nonce after it. */
  predicate Misrouted(q: SenderQueue, n: Nonce, current: U64) {
    OnePast(q, current) && n == current + 1
  }

  lemma PromoteKeepsDisjoint(q: SenderQueue, current: U64)
    requires Disjoint(q)
    ensures Disjoint(Promote(q, current))
    ensures forall n :: n in Promote(q, current).queued ==> n in q.queued
  {
    forall n: Nonce | n in Promote(q, current).queued
      ensures n !in Promote(q, current).pending && n in q.queued
    {
      PromotedPending(q, current, n);
    }
  }

  lemma PromoteKeepsDouble(q: SenderQueue, current: U64, n: Nonce)
    requires n in q.pending && n in q.queued
    ensures n in Promote(q, current).pending && n in Promote(q, current).queued
  {
    PromotedPending(q, current, n);
  }

  /** Where a submission lands, in a contiguous queue that holds each nonce once. */
  lemma InsertDisjoint(q: SenderQueue, e: PoolEntry, current: U64)
    requires Contiguous(q, current) && Topped(q) && HeldOnce(q, current) && current <= e.Nonce()
    ensures var q1 := Insert(q, IsPending(q, e.Nonce(), current), e);
            if Misrouted(q, e.Nonce(), current) then e.Nonce() in q1.pending && e.Nonce() in q1.queued
            else HeldOnce(q1, current)
  {
    var n := e.Nonce();
    if q.pending != map[] {
      var a, b := MinKey(q.pending), MaxKey(q.pending) + 1;
      assert Interval(q.pending, a, b);
      if n > current && n - 1 in q.pending {
        assert a < n <= b;
        assert n !in q.queued;
      }
      if n in q.pending && n > current && n - 1 !in q.pending {
        assert n == a;
      }
    }
  }

  /** An accepted submission leaves each nonce held once exactly when it is not misrouted. */
  lemma SubmissionDoublesExactlyWhen(q: SenderQueue, e: PoolEntry, current: U64)
    requires Contiguous(q, current) && Topped(q) && HeldOnce(q, current) && current <= e.Nonce()
    ensures var q' := Promote(Insert(q, IsPending(q, e.Nonce(), current), e), current);
            && (Disjoint(q') <==> !Misrouted(q, e.Nonce(), current))
            && (Disjoint(q') ==> HeldOnce(q', current))
  {
    var q1 := Insert(q, IsPending(q, e.Nonce(), current), e);
    InsertDisjoint(q, e, current);
    if Misrouted(q, e.Nonce(), current) {
      PromoteKeepsDouble(q1, current, e.Nonce());
    } else {
      PromoteKeepsDisjoint(q1, current);
    }
  }

  lemma SettleKeepsHeldOnce(q: SenderQueue, current: U64, current': U64)
    requires Contiguous(q, current) && HeldOnce(q, current) && current <= current'
    ensures HeldOnce(Settle(q, current'), current')
  {
    var q1 := Evict(q, current');
    PromoteKeepsDisjoint(q1, current');
    forall n: Nonce | n in Settle(q, current').queued
      ensures n > current'
    {
      PromotedPending(q1, current', n);
      if q1.pending != map[] {
        assert current < current' ==> MinKey(q.pending) <= current' <= MaxKey(q1.pending);
      }
    }
  }

  // ----- One step -----

  ghost predicate AllDisjoint(p: Pool) {
    forall s :: s in p.senders ==> Disjoint(p.senders[s])
  }

  ghost predicate AllHeldOnce(p: Pool, nu: NonceLookup) {
    forall s :: s in p.senders ==> HeldOnce(p.senders[s], nu(s))
  }

  /** The event is an accepted submission that is misrouted. */
  ghost predicate Doubles(cfg: PoolConfig, p: Pool, ev: Event, nu: NonceLookup) {
    && ev.SubmitTx? && Submit(cfg, p, NewEntry(cfg, ev.tx), ev.current).1.Accepted?
    && Misrouted(QueueOf(p, ev.tx.sender), ev.tx.envelope.nonce, nu(ev.tx.sender))
  }

  lemma QueueHeldOnce(cfg: PoolConfig, p: Pool, ev: Event, p': Pool, nu: NonceLookup, nu': NonceLookup, s: Address)
    requires Step(cfg, p, ev, p') && StepNonces(ev, nu, nu') && s in p'.senders
    requires Contiguous(QueueOf(p, s), nu(s)) && Topped(QueueOf(p, s)) && HeldOnce(QueueOf(p, s), nu(s))
    ensures Disjoint(p'.senders[s]) <==> !(Doubles(cfg, p, ev, nu) && ev.tx.sender == s)
    ensures Disjoint(p'.senders[s]) ==> HeldOnce(p'.senders[s], nu'(s))
  {
    var q := QueueOf(p, s);
    match ev
    case SubmitTx(tx, current) =>
      var e := NewEntry(cfg, tx);
      if s == tx.sender && Submit(cfg, p, e, current).1.Accepted? {
        SubmissionDoublesExactlyWhen(q, e, current);
      }
    case CollectHeads(taken) =>
    case CommitAt(nonceOf) =>
      SettleKeepsHeldOnce(q, nu(s), nu'(s));
  }

  lemma StepHeldOnce(cfg: PoolConfig, p: Pool, ev: Event, p': Pool, nu: NonceLookup, nu': NonceLookup)
    requires Step(cfg, p, ev, p') && StepNonces(ev, nu, nu')
    requires AllContiguous(p, nu) && Capped(cfg, p) && AllHeldOnce(p, nu)
    ensures AllDisjoint(p') <==> !Doubles(cfg, p, ev, nu)
    ensures AllDisjoint(p') ==> AllHeldOnce(p', nu')
  {
    forall s | s in p'.senders
      ensures Disjoint(p'.senders[s]) <==> !(Doubles(cfg, p, ev, nu) && ev.tx.sender == s)
      ensures Disjoint(p'.senders[s]) ==> HeldOnce(p'.senders[s], nu'(s))
    {
      assert s in p.senders ==> Topped(p.senders[s]) && Contiguous(p.senders[s], nu(s)) && HeldOnce(p.senders[s], nu(s));
      QueueHeldOnce(cfg, p, ev, p', nu, nu', s);
    }
    if Doubles(cfg, p, ev, nu) {
      assert ev.tx.sender in p'.senders;
    }
  }

  // ----- Whole runs -----

  /** Up to moment `i`, no pool held a nonce twice. */
  ghost predicate DisjointUpTo(ps: seq<Pool>, i: nat)
    requires i < |ps|
  {
    AllDisjoint(ps[i]) && (i == 0 || DisjointUpTo(ps, i - 1))
  }

  /** Up to moment `i`, no accepted submission was misrouted. */
  ghost predicate NoneDoubles(cfg: PoolConfig, evs: seq<Event>, ps: seq<Pool>, nus: seq<NonceLookup>, i: nat)
    requires i <= |evs| < |ps| && |ps| == |nus|
  {
    i == 0 || (!Doubles(cfg, ps[i - 1], evs[i - 1], nus[i - 1]) && NoneDoubles(cfg, evs, ps, nus, i - 1))
  }

  lemma RunStepHeldOnce(cfg: PoolConfig, evs: seq<Event>, ps: seq<Pool>, nus: seq<NonceLookup>, i: nat, j: nat)
    requires IsRun(cfg, evs, ps) && Disciplined(evs, ps, nus) && j == i + 1 < |ps|
    requires AllHeldOnce(ps[i], nus[i])
    ensures AllDisjoint(ps[j]) <==> !Doubles(cfg, ps[i], evs[i], nus[i])
    ensures AllDisjoint(ps[j]) ==> AllHeldOnce(ps[j], nus[j])
  {
    StepOf(cfg, evs, ps, nus, i, j);
    ContiguityOnDisciplinedRuns(cfg, evs, ps, nus, i);
    RunIsSound(cfg, evs, ps, i);
    StepHeldOnce(cfg, ps[i], evs[i], ps[j], nus[i], nus[j]);
  }

  lemma StepOf(cfg: PoolConfig, evs: seq<Event>, ps: seq<Pool>, nus: seq<NonceLookup>, i: nat, j: nat)
    requires IsRun(cfg, evs, ps) && Disciplined(evs, ps, nus) && j == i + 1 < |ps|
    ensures Step(cfg, ps[i], evs[i], ps[j]) && StepNonces(evs[i], nus[i], nus[j])
  {
    assert At(i);
    RunStep(cfg, evs, ps, i, j);
  }

  /**
   On every disciplined run, each (sender, nonce) is held at most once up to any moment exactly
   when no accepted submission so far was for the nonce after one that was out in a block.
   */
  lemma {:induction false} HeldOnceExactlyWhen(cfg: PoolConfig, evs: seq<Event>, ps: seq<Pool>, nus: seq<NonceLookup>, i: nat)
    requires IsRun(cfg, evs, ps) && Disciplined(evs, ps, nus) && i < |ps|
    ensures DisjointUpTo(ps, i) <==> NoneDoubles(cfg, evs, ps, nus, i)
    ensures DisjointUpTo(ps, i) ==> AllHeldOnce(ps[i], nus[i])
    decreases i
  {
    if i == 0 {
      assert ps[i].senders == map[];
    } else {
      var before := i - 1;
      HeldOnceExactlyWhen(cfg, evs, ps, nus, before);
      if DisjointUpTo(ps, before) {
        RunStepHeldOnce(cfg, evs, ps, nus, before, i);
      }
    }
  }
}
