/**
 What the pool promises to callers that keep its discipline: account nonces only grow, a
 submission sees the nonces of the last commit, and a collection waits until heads are due.
 */
module PoolDiscipline {
  import opened Primitives
  import opened Finite
  import opened Transactions
  import opened PoolModel
  import opened PoolInvariants
  import opened PoolRuns

  // ----- Intervals of nonces -----

  /** The keys of `m` are exactly the nonces in [a, b). */
  predicate Interval(m: Lane, a: nat, b: nat) {
    forall n: Nonce :: n in m <==> a <= n < b
  }

  /** The pending nonces are unbroken, starting at the account nonce or one past it. */
  predicate Contiguous(q: SenderQueue, current: U64) {
    q.pending != map[] ==>
      && current <= MinKey(q.pending) <= current + 1
      && Interval(q.pending, MinKey(q.pending), MaxKey(q.pending) + 1)
  }

  /** The account nonce of `q` is missing from pending: its transaction is out in a block. */
  predicate OnePast(q: SenderQueue, current: U64) {
    q.pending != map[] && MinKey(q.pending) == current + 1
  }

  /**
   Pending is exactly [nonce, next) and everything queued lies strictly beyond `next`, where
   `next` is the first nonce not pending.
   */
  predicate Partitioned(q: SenderQueue, current: U64) {
    && Interval(q.pending, current, NextNonce(q, current))
    && forall n :: n in q.queued ==> n > NextNonce(q, current)
  }

  lemma IntervalEnds(m: Lane, a: nat, b: nat)
    requires Interval(m, a, b) && a < b < TWO_64
    ensures m != map[] && MinKey(m) == a && MaxKey(m) == b - 1
  {
    assert a in m && b - 1 in m;
  }

  lemma EmptyInterval(m: Lane, a: nat, b: nat)
    requires Interval(m, a, b) && b <= a
    ensures m == map[]
  {
    assert forall n :: n !in m;
  }

  lemma IntervalIsContiguous(q: SenderQueue, a: nat, b: nat, current: U64)
    requires Interval(q.pending, a, b) && b < TWO_64
    requires a < b ==> current <= a <= current + 1
    ensures Contiguous(q, current)
  {
    if a < b {
      IntervalEnds(q.pending, a, b);
    } else {
      EmptyInterval(q.pending, a, b);
    }
  }

  // ----- Promotion -----

  lemma PromotedPending(q: SenderQueue, current: U64, n: Nonce)
    ensures var next := NextNonce(q, current);
            var k := RunLength(q.queued, next);
            && (n in Promote(q, current).pending <==> n in q.pending || next <= n < next + k)
            && (n in Promote(q, current).queued <==> n in q.queued && !(next <= n < next + k))
  {
  }

  lemma RunFits(queued: Lane, next: U64)
    ensures next + RunLength(queued, next) < TWO_64
  {
    var k := RunLength(queued, next);
    if k > 0 {
      assert next + k - 1 in queued;
    }
  }

  lemma PromoteKeepsContiguous(q: SenderQueue, current: U64)
    requires Contiguous(q, current)
    ensures Contiguous(Promote(q, current), current)
  {
    var next := NextNonce(q, current);
    var k := RunLength(q.queued, next);
    RunFits(q.queued, next);
    var a := if q.pending == map[] then current else MinKey(q.pending);
    forall n: Nonce
      ensures n in Promote(q, current).pending <==> a <= n < next + k
    {
      PromotedPending(q, current, n);
    }
    IntervalIsContiguous(Promote(q, current), a, next + k, current);
  }

  lemma PromotePartitions(q: SenderQueue, current: U64)
    requires Interval(q.pending, current, NextNonce(q, current))
    requires forall n :: n in q.queued ==> n >= NextNonce(q, current)
    ensures Partitioned(Promote(q, current), current)
  {
    var next := NextNonce(q, current);
    var k := RunLength(q.queued, next);
    var q' := Promote(q, current);
    RunFits(q.queued, next);
    assert current <= next;
    forall n: Nonce
      ensures n in q'.pending <==> current <= n < next + k
      ensures n in q'.queued ==> n > next + k
    {
      PromotedPending(q, current, n);
    }
    if current < next + k {
      IntervalEnds(q'.pending, current, next + k);
    } else {
      EmptyInterval(q'.pending, current, next + k);
    }
    assert NextNonce(q', current) == next + k;
  }

  // ----- Submission -----

  lemma InsertKeepsContiguous(q: SenderQueue, e: PoolEntry, current: U64)
    requires Contiguous(q, current)
    ensures Contiguous(Insert(q, IsPending(q, e.Nonce(), current), e), current)
  {
    var n: int := e.Nonce();
    var q1 := Insert(q, IsPending(q, n, current), e);
    if IsPending(q, n, current) {
      if q.pending == map[] {
        assert n == current;
        IntervalIsContiguous(q1, n, n + 1, current);
      } else {
        var a, b := MinKey(q.pending), MaxKey(q.pending) + 1;
        IntervalIsContiguous(q1, Min(a, n), Max(b, n + 1), current);
      }
    }
  }

  lemma InsertPartitions(q: SenderQueue, e: PoolEntry, current: U64)
    requires Partitioned(q, current) && current <= e.Nonce()
    ensures var q1 := Insert(q, IsPending(q, e.Nonce(), current), e);
            && Interval(q1.pending, current, NextNonce(q1, current))
            && forall n :: n in q1.queued ==> n >= NextNonce(q1, current)
  {
    var n, next := e.Nonce(), NextNonce(q, current);
    var q1 := Insert(q, IsPending(q, n, current), e);
    assert current <= next;
    if n <= next {
      assert IsPending(q, n, current) by {
        assert n > current ==> current <= n - 1 < next;
      }
      assert Interval(q1.pending, current, Max(next, n + 1));
      IntervalEnds(q1.pending, current, Max(next, n + 1));
    } else {
      assert !IsPending(q, n, current);
    }
  }

  // ----- Collection -----

  lemma SingletonInterval(m: Lane)
    requires m != map[] && Interval(m, MinKey(m), MaxKey(m) + 1)
    ensures |m| == 1 <==> MinKey(m) == MaxKey(m)
  {
    var a := MinKey(m);
    if MinKey(m) == MaxKey(m) {
      assert m.Keys == {a};
    } else {
      assert {a, MaxKey(m)} <= m.Keys;
      SubsetSize({a, MaxKey(m)}, m.Keys);
    }
  }

  /** Taking a head keeps the sender contiguous exactly when the head was due or was alone. */
  lemma DropHeadContiguous(q: SenderQueue, current: U64)
    requires q.pending != map[] && Contiguous(q, current)
    ensures Contiguous(DropHead(q), current)
            <==> MinKey(q.pending) == current || |q.pending| == 1
  {
    var a, b := MinKey(q.pending), MaxKey(q.pending) + 1;
    var q' := DropHead(q);
    SingletonInterval(q.pending);
    assert Interval(q'.pending, a + 1, b);
    if a + 1 < b {
      IntervalEnds(q'.pending, a + 1, b);
    } else {
      EmptyInterval(q'.pending, a + 1, b);
    }
  }

  // ----- Commit -----

  lemma EvictKeepsContiguous(q: SenderQueue, current: U64, current': U64)
    requires Contiguous(q, current) && current <= current'
    ensures Contiguous(Evict(q, current'), current')
  {
    if q.pending != map[] {
      var a, b := MinKey(q.pending), MaxKey(q.pending) + 1;
      assert Interval(Evict(q, current').pending, Max(a, current'), b);
      IntervalIsContiguous(Evict(q, current'), Max(a, current'), b, current');
    }
  }

  lemma EvictPartitions(q: SenderQueue, current: U64, current': U64)
    requires Partitioned(q, current) && current <= current'
    ensures var q1 := Evict(q, current');
            && Interval(q1.pending, current', NextNonce(q1, current'))
            && forall n :: n in q1.queued ==> n >= NextNonce(q1, current')
  {
    var next, q1 := NextNonce(q, current), Evict(q, current');
    assert Interval(q1.pending, current', next);
    if current' < next {
      IntervalEnds(q1.pending, current', next);
    } else {
      EmptyInterval(q1.pending, current', next);
    }
  }

  // ----- Disciplined runs -----

  /** `nus[i]` is the account nonce of every address when the pool is in state `ps[i]`. */
  ghost predicate StepNonces(ev: Event, nu: NonceLookup, nu': NonceLookup) {
    match ev
    case SubmitTx(tx, current) => current == nu(tx.sender) && forall a :: nu'(a) == nu(a)
    case CollectHeads(taken) => forall a :: nu'(a) == nu(a)
    case CommitAt(nonceOf) => forall a :: nu(a) <= nu'(a) == nonceOf(a)
  }

  /** Each head taken is at its account's nonce, or is its sender's only pending transaction. */
  ghost predicate HeadsAreDue(p: Pool, ev: Event, nu: NonceLookup) {
    ev.CollectHeads? && Collectable(p, ev.taken) ==>
      forall s :: s in ev.taken ==>
        MinKey(p.senders[s].pending) == nu(s) || |p.senders[s].pending| == 1
  }

  ghost predicate Coherent(evs: seq<Event>, nus: seq<NonceLookup>) {
    && |nus| == |evs| + 1
    && forall i :: 0 <= i < |evs| && At(i) ==> StepNonces(evs[i], nus[i], nus[i + 1])
  }

  ghost predicate Disciplined(evs: seq<Event>, ps: seq<Pool>, nus: seq<NonceLookup>) {
    && Coherent(evs, nus) && |ps| == |nus|
    && forall i :: 0 <= i < |evs| && At(i) ==> HeadsAreDue(ps[i], evs[i], nus[i])
  }

  ghost predicate AllContiguous(p: Pool, nu: NonceLookup) {
    forall s :: s in p.senders ==> Contiguous(p.senders[s], nu(s))
  }

  ghost predicate AllPartitioned(p: Pool, nu: NonceLookup) {
    forall s :: s in p.senders ==> Partitioned(p.senders[s], nu(s))
  }

  /** What a submission does to one sender's queue; every other queue is untouched. */
  lemma SubmitTouchesOne(cfg: PoolConfig, p: Pool, e: PoolEntry, current: U64, s: Address)
    ensures var p' := Submit(cfg, p, e, current).0;
            s in p'.senders ==>
              || p'.senders[s] == QueueOf(p, s)
              || (&& s == e.Sender() && current <= e.Nonce()
                  && p'.senders[s] == Promote(Insert(QueueOf(p, s), IsPending(QueueOf(p, s), e.Nonce(), current), e), current))
  {
  }

  lemma QueueAfterStep(cfg: PoolConfig, p: Pool, ev: Event, p': Pool, nu: NonceLookup, nu': NonceLookup, s: Address)
    requires Step(cfg, p, ev, p') && StepNonces(ev, nu, nu') && s in p'.senders
    requires Contiguous(QueueOf(p, s), nu(s)) && HeadsAreDue(p, ev, nu)
    ensures Contiguous(p'.senders[s], nu'(s))
  {
    var q := QueueOf(p, s);
    match ev
    case SubmitTx(tx, current) =>
      var e := NewEntry(cfg, tx);
      SubmitTouchesOne(cfg, p, e, current, s);
      if p'.senders[s] != q {
        InsertKeepsContiguous(q, e, current);
        PromoteKeepsContiguous(Insert(q, IsPending(q, e.Nonce(), current), e), current);
      }
    case CollectHeads(taken) =>
      if s in taken {
        DropHeadContiguous(q, nu(s));
      }
    case CommitAt(nonceOf) =>
      EvictKeepsContiguous(q, nu(s), nu'(s));
      PromoteKeepsContiguous(Evict(q, nu'(s)), nu'(s));
  }

  lemma RunStepKeepsContiguous(cfg: PoolConfig, evs: seq<Event>, ps: seq<Pool>, nus: seq<NonceLookup>, i: nat, j: nat)
    requires IsRun(cfg, evs, ps) && Disciplined(evs, ps, nus) && i < |evs| && j == i + 1
    requires AllContiguous(ps[i], nus[i])
    ensures AllContiguous(ps[j], nus[j])
  {
    assert At(i);
    RunStep(cfg, evs, ps, i, j);
    var ev := evs[i];
    forall s | s in ps[j].senders
      ensures Contiguous(ps[j].senders[s], nus[j](s))
    {
      QueueAfterStep(cfg, ps[i], ev, ps[j], nus[i], nus[j], s);
    }
  }

  /** On every disciplined run, pending nonces are unbroken from the account nonce or one past it. */
  lemma {:induction false} ContiguityOnDisciplinedRuns(cfg: PoolConfig, evs: seq<Event>, ps: seq<Pool>, nus: seq<NonceLookup>, i: nat)
    requires IsRun(cfg, evs, ps) && Disciplined(evs, ps, nus) && i < |ps|
    ensures AllContiguous(ps[i], nus[i])
    decreases i
  {
    if i > 0 {
      ContiguityOnDisciplinedRuns(cfg, evs, ps, nus, i - 1);
      RunStepKeepsContiguous(cfg, evs, ps, nus, i - 1, i);
    }
  }

  lemma PartitionAfterStep(cfg: PoolConfig, p: Pool, ev: Event, p': Pool, nu: NonceLookup, nu': NonceLookup, s: Address)
    requires Step(cfg, p, ev, p') && StepNonces(ev, nu, nu') && !ev.CollectHeads? && s in p'.senders
    requires Partitioned(QueueOf(p, s), nu(s))
    ensures Partitioned(p'.senders[s], nu'(s))
  {
    var q := QueueOf(p, s);
    match ev
    case SubmitTx(tx, current) =>
      var e := NewEntry(cfg, tx);
      SubmitTouchesOne(cfg, p, e, current, s);
      if p'.senders[s] != q {
        InsertPartitions(q, e, current);
        PromotePartitions(Insert(q, IsPending(q, e.Nonce(), current), e), current);
      }
    case CommitAt(nonceOf) =>
      EvictPartitions(q, nu(s), nu'(s));
      PromotePartitions(Evict(q, nu'(s)), nu'(s));
  }

  lemma RunStepPartitions(cfg: PoolConfig, evs: seq<Event>, ps: seq<Pool>, nus: seq<NonceLookup>, i: nat, j: nat)
    requires IsRun(cfg, evs, ps) && Coherent(evs, nus) && i < |evs| && j == i + 1
    requires !evs[i].CollectHeads? && AllPartitioned(ps[i], nus[i])
    ensures AllPartitioned(ps[j], nus[j])
  {
    assert At(i);
    RunStep(cfg, evs, ps, i, j);
    var ev := evs[i];
    forall s | s in ps[j].senders
      ensures Partitioned(ps[j].senders[s], nus[j](s))
    {
      PartitionAfterStep(cfg, ps[i], ev, ps[j], nus[i], nus[j], s);
    }
  }

  ghost predicate NoCollections(evs: seq<Event>) {
    forall i :: 0 <= i < |evs| && At(i) ==> !evs[i].CollectHeads?
  }

  /**
   On every coherent run of submissions and commits, pending is exactly [nonce, nonce + k) and
   everything queued is strictly greater than nonce + k.
   */
  lemma {:induction false} PartitionOnCoherentRuns(cfg: PoolConfig, evs: seq<Event>, ps: seq<Pool>, nus: seq<NonceLookup>, i: nat)
    requires IsRun(cfg, evs, ps) && Coherent(evs, nus) && i < |ps|
    requires NoCollections(evs)
    ensures AllPartitioned(ps[i], nus[i])
    decreases i
  {
    if i == 0 {
      assert ps[0].senders == map[];
    } else {
      PartitionOnCoherentRuns(cfg, evs, ps, nus, i - 1);
      assert At(i - 1);
      RunStepPartitions(cfg, evs, ps, nus, i - 1, i);
    }
  }

  /** A partitioned queue holds each nonce once, and nothing promotable stays queued. */
  lemma PartitionMeansOnce(q: SenderQueue, current: U64)
    requires Partitioned(q, current)
    ensures q.pending.Keys !! q.queued.Keys
    ensures Promote(q, current) == q
    ensures forall n: Nonce :: n in q.pending ==> forall m: Nonce :: current <= m < n ==> m in q.pending
  {
    var next := NextNonce(q, current);
    assert RunLength(q.queued, next) == 0;
    assert Promote(q, current).queued == q.queued;
    assert Promote(q, current).pending == q.pending;
  }
}
