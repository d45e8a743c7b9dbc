/**
 What each pool operation answers and where it leaves every nonce, said of the maps themselves:
 the lane a submission is for, when it is accepted and which error it gets otherwise, what
 promotion moves, and what a commit keeps.
 */
module PoolAnswers {
  import opened Primitives
  import opened Finite
  import opened Transactions
  import opened PoolModel
  import opened PoolInvariants

  // ----- Promotion -----

  /** Queued nonce `n` is reached from the end of pending, or from `current`, without a gap. */
  ghost predicate Promotable(q: SenderQueue, current: U64, n: Nonce) {
    var from: nat := if q.pending == map[] then current else MaxKey(q.pending) + 1;
    from <= n && forall m :: from <= m <= n ==> m in q.queued
  }

  /** Nonce `n` of `q'` is what promotion from `q` makes of it. */
  ghost predicate PromotedAt(q: SenderQueue, current: U64, q': SenderQueue, n: Nonce) {
    && (n in q'.pending <==> n in q.pending || Promotable(q, current, n))
    && (n in q'.queued <==> n in q.queued && !Promotable(q, current, n))
    && (n in q'.pending ==> q'.pending[n] == if n in q.pending then q.pending[n] else q.queued[n])
    && (n in q'.queued ==> q'.queued[n] == q.queued[n])
  }

  ghost predicate IsPromoted(q: SenderQueue, current: U64, q': SenderQueue) {
    forall n: Nonce :: (n in q'.pending ==> n in q.pending || n in q.queued) && PromotedAt(q, current, q', n)
  }

  lemma InRunExactlyWhen(q: SenderQueue, current: U64, n: Nonce)
    ensures var next := NextNonce(q, current);
            Promotable(q, current, n) <==> next <= n < next + RunLength(q.queued, next)
  {
    var next := NextNonce(q, current);
    var k := RunLength(q.queued, next);
    if next <= n && n >= next + k {
      assert next + k !in q.queued;
    }
  }

  /** Promotion moves exactly the gapless run of queued nonces after pending, and nothing else. */
  lemma PromotedExactly(q: SenderQueue, current: U64)
    ensures IsPromoted(q, current, Promote(q, current))
  {
    forall n: Nonce
      ensures PromotedAt(q, current, Promote(q, current), n)
      ensures n in Promote(q, current).pending ==> n in q.pending || n in q.queued
    {
      InRunExactlyWhen(q, current, n);
      PromotedOne(q, current, n);
    }
  }

  lemma PromotedOne(q: SenderQueue, current: U64, n: Nonce)
    requires var next := NextNonce(q, current);
             Promotable(q, current, n) <==> next <= n < next + RunLength(q.queued, next)
    ensures PromotedAt(q, current, Promote(q, current), n)
    ensures n in Promote(q, current).pending ==> n in q.pending || n in q.queued
  {
    if Promotable(q, current, n) {
      assert n in q.queued;
    }
  }

  // ----- Submission -----

  /** Nonce `n` is for the pending lane: it is due, or its predecessor (itself, for 0) is pending. */
  predicate ForPending(q: SenderQueue, n: Nonce, current: U64) {
    n == current || (n > 0 && n - 1 in q.pending) || (n == 0 && 0 in q.pending)
  }

  /**
   Whether a queue takes an entry: the lane's holder of that nonce has to be outbid by the bump, and
   without one the lane has to have room under its own cap.
   */
  ghost predicate IsVerdict(cfg: PoolConfig, q: SenderQueue, e: PoolEntry, current: U64, error: Option<SubmitError>) {
    var pending := ForPending(q, e.Nonce(), current);
    var lane := if pending then q.pending else q.queued;
    var room := |lane| < if pending then cfg.maxPending else cfg.maxQueued;
    if e.Nonce() in lane then
      var threshold := Min(lane[e.Nonce()].tip * (100 + cfg.bumpPct), TWO_64 - 1) / 100;
      error == if e.tip >= threshold then None else Some(Underpriced(threshold))
    else
      error == if room then None else Some(QueueFull)
  }

  lemma VerdictIs(cfg: PoolConfig, q: SenderQueue, e: PoolEntry, current: U64)
    ensures IsVerdict(cfg, q, e, current, Refusal(cfg, q, e, current))
    ensures ForPending(q, e.Nonce(), current) == IsPending(q, e.Nonce(), current)
  {
  }

  function QueueIn(p: Pool, s: Address): SenderQueue {
    if s in p.senders then p.senders[s] else SenderQueue(map[], map[])
  }

  function LaneFor(p: Pool, e: PoolEntry, current: U64): Lane {
    var q := QueueIn(p, e.Sender());
    if ForPending(q, e.Nonce(), current) then q.pending else q.queued
  }

  function CapFor(cfg: PoolConfig, p: Pool, e: PoolEntry, current: U64): nat {
    if ForPending(QueueIn(p, e.Sender()), e.Nonce(), current) then cfg.maxPending else cfg.maxQueued
  }

  /**
   The answer to a submission. It is accepted exactly when its hash is unknown, its nonce is not
   stale, it pays the bumped tip of the entry it replaces in its lane, or finds room there under
   that lane's own cap. Each error has its exact case.
   */
  ghost predicate IsAnswer(cfg: PoolConfig, p: Pool, e: PoolEntry, current: U64, r: SubmitResult) {
    var lane := LaneFor(p, e, current);
    var known := e.Hash() in p.byHash;
    var stale := e.Nonce() < current;
    var taken := e.Nonce() in lane;
    var threshold := if taken then Min(lane[e.Nonce()].tip * (100 + cfg.bumpPct), TWO_64 - 1) / 100 else 0;
    var pays := e.tip >= threshold;
    var room := |lane| < CapFor(cfg, p, e, current);
    && (r.Accepted? <==> !known && !stale && (if taken then pays else room))
    && (r.Accepted? ==> r.hash == e.Hash())
    && (r.Rejected? && r.error.AlreadyKnown? <==> known)
    && (r.Rejected? && r.error.StaleNonce? <==> !known && stale)
    && (r.Rejected? && r.error.Underpriced? <==> !known && !stale && taken && !pays)
    && (r.Rejected? && r.error.Underpriced? ==> r.error.minTip == threshold)
    && (r.Rejected? && r.error.QueueFull? <==> !known && !stale && !taken && !room)
  }

  lemma SubmissionAnswer(cfg: PoolConfig, p: Pool, e: PoolEntry, current: U64)
    ensures IsAnswer(cfg, p, e, current, Submit(cfg, p, e, current).1)
  {
    LaneIsTarget(p, e, current);
  }

  lemma LaneIsTarget(p: Pool, e: PoolEntry, current: U64)
    ensures QueueIn(p, e.Sender()) == QueueOf(p, e.Sender())
    ensures var q := QueueOf(p, e.Sender());
            var pending := IsPending(q, e.Nonce(), current);
            ForPending(q, e.Nonce(), current) == pending && LaneFor(p, e, current) == Target(q, pending)
  {
  }

  /** The sender's queue with the entry put in its lane, before promotion. */
  function Placed(p: Pool, e: PoolEntry, current: U64): SenderQueue {
    var q := QueueIn(p, e.Sender());
    if ForPending(q, e.Nonce(), current)
    then SenderQueue(q.pending[e.Nonce() := e], q.queued)
    else SenderQueue(q.pending, q.queued[e.Nonce() := e])
  }

  /**
   The pool after an accepted submission: the entry in its lane, then promotion; the replaced
   entry's hash out of the index and the new one in; every other sender as before.
   */
  ghost predicate IsPlaced(p: Pool, e: PoolEntry, current: U64, p': Pool) {
    var s, lane := e.Sender(), LaneFor(p, e, current);
    && s in p'.senders && IsPromoted(Placed(p, e, current), current, p'.senders[s])
    && (forall a :: a in p'.senders <==> a in p.senders || a == s)
    && (forall a :: a in p.senders && a != s ==> p'.senders[a] == p.senders[a])
    && (forall h :: h in p'.byHash
                    <==> h == e.Hash() || (h in p.byHash && !(e.Nonce() in lane && lane[e.Nonce()].Hash() == h)))
    && p'.byHash[e.Hash()] == s
    && (forall h :: h in p'.byHash && h != e.Hash() ==> p'.byHash[h] == p.byHash[h])
  }

  lemma AcceptedIsPlaced(cfg: PoolConfig, p: Pool, e: PoolEntry, current: U64)
    requires Submit(cfg, p, e, current).1.Accepted?
    ensures IsPlaced(p, e, current, Submit(cfg, p, e, current).0)
  {
    AcceptedShape(cfg, p, e, current);
    ShapeIsPlaced(p, e, current, Submit(cfg, p, e, current).0);
  }

  lemma AcceptedShape(cfg: PoolConfig, p: Pool, e: PoolEntry, current: U64)
    requires Submit(cfg, p, e, current).1.Accepted?
    ensures HasShape(p, e, current, Submit(cfg, p, e, current).0)
  {
    AcceptedPool(cfg, p, e, current);
    PoolHasShape(p, e, current);
  }

  function PoolWith(p: Pool, e: PoolEntry, q: SenderQueue, out: Option<PoolEntry>): Pool {
    Pool(p.senders[e.Sender() := q],
         (if out.Some? then p.byHash - {out.value.Hash()} else p.byHash)[e.Hash() := e.Sender()])
  }

  lemma AcceptedPool(cfg: PoolConfig, p: Pool, e: PoolEntry, current: U64)
    requires Submit(cfg, p, e, current).1.Accepted?
    ensures var q := QueueOf(p, e.Sender());
            var q' := Promote(Insert(q, IsPending(q, e.Nonce(), current), e), current);
            Submit(cfg, p, e, current).0 == PoolWith(p, e, q', Displaced(q, e, current))
  {
  }

  lemma PoolHasShape(p: Pool, e: PoolEntry, current: U64)
    ensures var q := QueueOf(p, e.Sender());
            var q' := Promote(Insert(q, IsPending(q, e.Nonce(), current), e), current);
            HasShape(p, e, current, PoolWith(p, e, q', Displaced(q, e, current)))
  {
    PlacedIsInserted(p, e, current);
  }

  lemma PlacedIsInserted(p: Pool, e: PoolEntry, current: U64)
    ensures var q, lane := QueueOf(p, e.Sender()), LaneFor(p, e, current);
            && Placed(p, e, current) == Insert(q, IsPending(q, e.Nonce(), current), e)
            && Displaced(q, e, current) == if e.Nonce() in lane then Some(lane[e.Nonce()]) else None
  {
    LaneIsTarget(p, e, current);
  }

  ghost predicate HasShape(p: Pool, e: PoolEntry, current: U64, p': Pool) {
    var lane := LaneFor(p, e, current);
    && p'.senders == p.senders[e.Sender() := Promote(Placed(p, e, current), current)]
    && p'.byHash == (if e.Nonce() in lane then p.byHash - {lane[e.Nonce()].Hash()} else p.byHash)[e.Hash() := e.Sender()]
  }

  lemma ShapeIsPlaced(p: Pool, e: PoolEntry, current: U64, p': Pool)
    requires HasShape(p, e, current, p')
    ensures IsPlaced(p, e, current, p')
  {
    PromotedExactly(Placed(p, e, current), current);
  }

  /** A rejection leaves the pool alone, but for an empty queue of a sender met for the first time past the nonce check. */
  ghost predicate IsRefused(p: Pool, e: PoolEntry, current: U64, p': Pool) {
    && p'.byHash == p.byHash
    && p'.senders == if e.Hash() in p.byHash || e.Nonce() < current then p.senders
                     else p.senders[e.Sender() := QueueIn(p, e.Sender())]
  }

  lemma RejectedIsRefused(cfg: PoolConfig, p: Pool, e: PoolEntry, current: U64)
    requires Submit(cfg, p, e, current).1.Rejected?
    ensures IsRefused(p, e, current, Submit(cfg, p, e, current).0)
  {
  }

  /** Answer and new state of a submission together. */
  ghost predicate IsSubmission(cfg: PoolConfig, p: Pool, e: PoolEntry, current: U64, p': Pool, r: SubmitResult) {
    && IsAnswer(cfg, p, e, current, r)
    && (if r.Accepted? then IsPlaced(p, e, current, p') else IsRefused(p, e, current, p'))
  }

  lemma SubmissionIs(cfg: PoolConfig, p: Pool, e: PoolEntry, current: U64)
    ensures IsSubmission(cfg, p, e, current, Submit(cfg, p, e, current).0, Submit(cfg, p, e, current).1)
  {
    SubmissionAnswer(cfg, p, e, current);
    if Submit(cfg, p, e, current).1.Accepted? {
      AcceptedIsPlaced(cfg, p, e, current);
    } else {
      RejectedIsRefused(cfg, p, e, current);
    }
  }

  // ----- Collection -----

  /** `q'` is `q` without the entry under its lowest pending nonce. */
  ghost predicate LosesLowest(q: SenderQueue, q': SenderQueue) {
    && q'.queued == q.queued
    && exists low :: low in q.pending && (forall n :: n in q.pending ==> low <= n) && q'.pending == q.pending - {low}
  }

  /** `h` is the hash of the entry under the lowest pending nonce of a sender in `taken`. */
  ghost predicate IsTakenHash(p: Pool, taken: set<Address>, h: Hash) {
    exists s :: s in taken && s in p.senders && p.senders[s].pending != map[] && HasLowestHash(p.senders[s].pending, h)
  }

  ghost predicate HasLowestHash(m: Lane, h: Hash) {
    exists low :: low in m && (forall n :: n in m ==> low <= n) && m[low].Hash() == h
  }

  /** The pool after a collection: each sender taken loses its lowest pending entry and that entry's hash, and nothing else goes. */
  ghost predicate IsCollected(p: Pool, taken: set<Address>, p': Pool) {
    && (forall s :: s in p'.senders <==> s in p.senders)
    && (forall s :: s in p.senders && s !in taken ==> p'.senders[s] == p.senders[s])
    && (forall s :: s in p.senders && s in taken ==> LosesLowest(p.senders[s], p'.senders[s]))
    && (forall h :: h in p'.byHash <==> h in p.byHash && !IsTakenHash(p, taken, h))
    && (forall h :: h in p'.byHash ==> p'.byHash[h] == p.byHash[h])
  }

  lemma HeadIsLowest(q: SenderQueue, h: Hash)
    requires q.pending != map[]
    ensures LosesLowest(q, DropHead(q))
    ensures HasLowestHash(q.pending, h) <==> Head(q).Hash() == h
  {
    var low := MinKey(q.pending);
    assert DropHead(q).pending == q.pending - {low};
    assert low in q.pending && forall n :: n in q.pending ==> low <= n;
    if HasLowestHash(q.pending, h) {
      var k :| k in q.pending && (forall n :: n in q.pending ==> k <= n) && q.pending[k].Hash() == h;
      assert k == low;
    }
  }

  lemma CollectIs(p: Pool, taken: set<Address>)
    requires Collectable(p, taken)
    ensures IsCollected(p, taken, Collect(p, taken))
  {
    var p' := Collect(p, taken);
    forall s | s in taken
      ensures LosesLowest(p.senders[s], p'.senders[s])
    {
      HeadIsLowest(p.senders[s], 0);
    }
    forall h: Hash
      ensures h in p'.byHash <==> h in p.byHash && !IsTakenHash(p, taken, h)
    {
      TakenHashExactlyWhen(p, taken, h);
    }
  }

  lemma TakenHashExactlyWhen(p: Pool, taken: set<Address>, h: Hash)
    requires Collectable(p, taken)
    ensures IsTakenHash(p, taken, h) <==> exists s :: s in taken && Head(p.senders[s]).Hash() == h
  {
    forall s | s in taken
      ensures HasLowestHash(p.senders[s].pending, h) <==> Head(p.senders[s]).Hash() == h
    {
      HeadIsLowest(p.senders[s], h);
    }
  }

  // ----- Commit -----

  function FreshPart(q: SenderQueue, current: U64): SenderQueue {
    SenderQueue(map n | n in q.pending && n >= current :: q.pending[n], map n | n in q.queued && n >= current :: q.queued[n])
  }

  /**
   The pool after a commit: of every sender what is not stale, promoted; senders with nothing left
   are forgotten; the index loses exactly the hashes of what was stale.
   */
  ghost predicate IsCommitted(p: Pool, nonceOf: NonceLookup, p': Pool) {
    && (forall s :: s in p'.senders
                    <==> s in p.senders && FreshPart(p.senders[s], nonceOf(s)) != SenderQueue(map[], map[]))
    && (forall s :: s in p'.senders ==> IsPromoted(FreshPart(p.senders[s], nonceOf(s)), nonceOf(s), p'.senders[s]))
    && (forall h :: h in p'.byHash <==> h in p.byHash && !IsStaleHash(p, nonceOf, h))
    && (forall h :: h in p'.byHash ==> p'.byHash[h] == p.byHash[h])
  }

  ghost predicate IsStaleHash(p: Pool, nonceOf: NonceLookup, h: Hash) {
    exists s, n: Nonce :: s in p.senders && n < nonceOf(s) && HasHash(p.senders[s], n, h)
  }

  predicate HasHash(q: SenderQueue, n: Nonce, h: Hash) {
    (n in q.pending && q.pending[n].Hash() == h) || (n in q.queued && q.queued[n].Hash() == h)
  }

  lemma FreshPartIsEvicted(q: SenderQueue, current: U64)
    ensures FreshPart(q, current) == Evict(q, current)
  {
    assert FreshPart(q, current).pending == Fresh(q.pending, current);
    assert FreshPart(q, current).queued == Fresh(q.queued, current);
  }

  lemma SettledQueue(q: SenderQueue, current: U64)
    ensures IsPromoted(FreshPart(q, current), current, Settle(q, current))
    ensures Settle(q, current) == EMPTY_QUEUE <==> FreshPart(q, current) == SenderQueue(map[], map[])
  {
    FreshPartIsEvicted(q, current);
    PromotedExactly(Evict(q, current), current);
    PromoteKeepsSize(Evict(q, current), current);
  }

  lemma QueueStaleHash(q: SenderQueue, current: U64, h: Hash)
    ensures h in StaleHashes(q, current) <==> exists n: Nonce :: n < current && HasHash(q, n, h)
  {
    if h in StaleHashes(q, current) {
      if n :| n in q.pending && n < current && q.pending[n].Hash() == h {
        assert HasHash(q, n, h);
      } else {
        var n :| n in q.queued && n < current && q.queued[n].Hash() == h;
        assert HasHash(q, n, h);
      }
    }
  }

  lemma StaleHashExactlyWhen(p: Pool, nonceOf: NonceLookup, h: Hash)
    ensures h in UnionOf(StaleAll(p.senders, nonceOf)) <==> IsStaleHash(p, nonceOf, h)
  {
    var stale := StaleAll(p.senders, nonceOf);
    forall s | s in p.senders
      ensures h in stale[s] <==> exists n: Nonce :: n < nonceOf(s) && HasHash(p.senders[s], n, h)
    {
      QueueStaleHash(p.senders[s], nonceOf(s), h);
    }
    if s, n: Nonce :| s in p.senders && n < nonceOf(s) && HasHash(p.senders[s], n, h) {
      assert h in stale[s];
    }
  }

  lemma CommitIs(p: Pool, nonceOf: NonceLookup)
    ensures IsCommitted(p, nonceOf, Commit(p, nonceOf))
  {
    var p' := Commit(p, nonceOf);
    forall s | s in p.senders
      ensures s in p'.senders <==> FreshPart(p.senders[s], nonceOf(s)) != SenderQueue(map[], map[])
      ensures s in p'.senders ==> IsPromoted(FreshPart(p.senders[s], nonceOf(s)), nonceOf(s), p'.senders[s])
    {
      SettledQueue(p.senders[s], nonceOf(s));
    }
    forall h: Hash
      ensures h in p'.byHash <==> h in p.byHash && !IsStaleHash(p, nonceOf, h)
    {
      StaleHashExactlyWhen(p, nonceOf, h);
    }
  }
}
