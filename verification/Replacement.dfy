/** Replacement-by-fee over whole runs: how fast the tip of one (sender, nonce) slot has to grow. */
module Replacement {
  import opened Primitives
  import opened Finite
  import opened Transactions
  import opened PoolModel
  import opened PoolInvariants
  import opened PoolRuns
  import opened PoolDiscipline

  // ----- The threshold -----

  /** While the product fits a u64, the threshold is the old tip plus the rounded-down bump. */
  lemma MinTipIsBump(tip: U64, pct: BumpPct)
    requires tip * (100 + pct) < TWO_64
    ensures tip * pct >= 0 && MinTip(tip, pct) == tip + tip * pct / 100
  {
    MulNat(tip, pct);
    assert tip * (100 + pct) == tip * 100 + tip * pct;
  }

  /**
   A replacement can never lower the tip exactly while a hundred times the tip fits a u64;
   beyond that the saturated product admits cheaper replacements.
   */
  lemma ReplacementNeverLowers(tip: U64, pct: BumpPct)
    ensures MinTip(tip, pct) >= tip <==> tip <= (TWO_64 - 1) / 100
  {
    assert tip * (100 + pct) == tip * 100 + tip * pct;
    MulNat(tip, pct);
  }

  // ----- One slot of one lane -----

  /** The tip of the entry that one lane of the queue holds under nonce `n`. */
  function LaneTip(q: SenderQueue, n: Nonce, pending: bool): Option<U64> {
    if n in Target(q, pending) then Some(Target(q, pending)[n].tip) else None
  }

  /**
   An entry stays in its lane, or is promoted: it was queued alone under its nonce and is no
   longer queued.
   */
  predicate Follows(q: SenderQueue, q': SenderQueue, n: Nonce, pending: bool, pending': bool) {
    pending' == pending || (!pending && pending' && n !in q.pending && n !in q'.queued)
  }

  /** The event is an accepted submission under nonce `n` to this lane. */
  ghost predicate Replaces(cfg: PoolConfig, p: Pool, ev: Event, s: Address, n: Nonce, pending: bool) {
    && ev.SubmitTx? && ev.tx.sender == s && ev.tx.envelope.nonce == n
    && IsPending(QueueOf(p, s), n, ev.current) == pending
    && Submit(cfg, p, NewEntry(cfg, ev.tx), ev.current).1.Accepted?
  }

  /** An accepted submission meets the threshold of what it replaces; promotion changes no tip. */
  lemma TipAfterPlacing(cfg: PoolConfig, q: SenderQueue, e: PoolEntry, current: U64, n: Nonce, pending: bool, pending': bool)
    requires Refusal(cfg, q, e, current) == None
    requires var q' := Promote(Insert(q, IsPending(q, e.Nonce(), current), e), current);
             && LaneTip(q, n, pending).Some? && LaneTip(q', n, pending').Some?
             && Follows(q, q', n, pending, pending')
    ensures var q' := Promote(Insert(q, IsPending(q, e.Nonce(), current), e), current);
            if e.Nonce() == n && IsPending(q, n, current) == pending
            then LaneTip(q', n, pending').value >= MinTip(LaneTip(q, n, pending).value, cfg.bumpPct)
            else LaneTip(q', n, pending') == LaneTip(q, n, pending)
  {
    var q1 := Insert(q, IsPending(q, e.Nonce(), current), e);
    TipAfterPromotion(q1, current, n);
  }

  /** Promotion leaves pending entries where they are, and moves or keeps queued ones whole. */
  lemma TipAfterPromotion(q: SenderQueue, current: U64, n: Nonce)
    ensures var q' := Promote(q, current);
            && (n in q.pending ==> n in q'.pending && q'.pending[n] == q.pending[n])
            && (n in q.pending && n in q.queued ==> n in q'.queued)
            && (n in q'.queued ==> n in q.queued && q'.queued[n] == q.queued[n])
            && (n !in q.pending && n in q'.pending ==> n in q.queued && q'.pending[n] == q.queued[n])
  {
    PromotedPending(q, current, n);
  }

  lemma TipAfterSettling(q: SenderQueue, current: U64, n: Nonce, pending: bool, pending': bool)
    requires LaneTip(q, n, pending).Some? && LaneTip(Settle(q, current), n, pending').Some?
    requires Follows(q, Settle(q, current), n, pending, pending')
    ensures LaneTip(Settle(q, current), n, pending') == LaneTip(q, n, pending)
  {
    TipAfterPromotion(Evict(q, current), current, n);
  }

  /** What any step of the pool does to an entry it does not take out. */
  lemma TipAfterAnyStep(cfg: PoolConfig, p: Pool, ev: Event, p': Pool, s: Address, n: Nonce, pending: bool, pending': bool)
    requires Step(cfg, p, ev, p')
    requires LaneTip(QueueOf(p, s), n, pending).Some? && LaneTip(QueueOf(p', s), n, pending').Some?
    requires Follows(QueueOf(p, s), QueueOf(p', s), n, pending, pending')
    ensures if Replaces(cfg, p, ev, s, n, pending)
            then LaneTip(QueueOf(p', s), n, pending').value >= MinTip(LaneTip(QueueOf(p, s), n, pending).value, cfg.bumpPct)
            else LaneTip(QueueOf(p', s), n, pending') == LaneTip(QueueOf(p, s), n, pending)
  {
    match ev
    case SubmitTx(tx, current) =>
      var e := NewEntry(cfg, tx);
      if s == tx.sender && Submit(cfg, p, e, current).1.Accepted? {
        TipAfterPlacing(cfg, QueueOf(p, s), e, current, n, pending, pending');
      }
    case CollectHeads(taken) =>
    case CommitAt(nonceOf) =>
      TipAfterSettling(p.senders[s], nonceOf(s), n, pending, pending');
  }

  /**
   The fee test guards a lane, not a nonce. Once a sender's head is out in a block, a submission
   under the nonce after it is routed to the queue: whatever its tip, it is accepted beside the
   pending entry it was meant to replace.
   */
  lemma RoutedPastTheFeeTest(cfg: PoolConfig, q: SenderQueue, e: PoolEntry, current: U64)
    requires Contiguous(q, current) && q.pending != map[] && MinKey(q.pending) == current + 1
    requires e.Nonce() == current + 1 && e.Nonce() !in q.queued && |q.queued| < cfg.maxQueued
    ensures Refusal(cfg, q, e, current) == None && Displaced(q, e, current) == None
    ensures var q' := Promote(Insert(q, IsPending(q, e.Nonce(), current), e), current);
            e.Nonce() in q'.pending && e.Nonce() in q'.queued && q'.queued[e.Nonce()] == e
  {
    var n := e.Nonce();
    assert n in q.pending && current !in q.pending;
    var q1 := Insert(q, IsPending(q, n, current), e);
    PromotedPending(q1, current, n);
  }

  // ----- Whole runs -----

  predicate Fits(tip: U64, pct: BumpPct) {
    tip * (100 + pct) < TWO_64
  }

  function Count(flags: seq<bool>): nat {
    if flags == [] then 0 else Count(flags[..|flags| - 1]) + if flags[|flags| - 1] then 1 else 0
  }

  /** A replacement meets the threshold of the tip before it; any other step keeps the tip. */
  predicate Rung(u: U64, v: U64, replaced: bool, pct: BumpPct) {
    if replaced then Fits(u, pct) && v >= MinTip(u, pct) else v == u
  }

  predicate IsClimb(tips: seq<U64>, flags: seq<bool>, pct: BumpPct) {
    && |tips| == |flags| + 1
    && forall i, j :: 0 <= i < |flags| && j == i + 1 ==> Rung(tips[i], tips[j], flags[i], pct)
  }

  lemma OneBumpMore(t: U64, u: U64, v: U64, pct: BumpPct, k: nat)
    requires t * pct >= 0 && u >= t && u >= t + k * (t * pct / 100)
    requires Fits(u, pct) && v >= MinTip(u, pct)
    ensures v >= t && v >= t + (k + 1) * (t * pct / 100)
  {
    MinTipIsBump(u, pct);
    MulMono(t, u, pct, pct);
    assert (k + 1) * (t * pct / 100) == k * (t * pct / 100) + t * pct / 100;
  }

  lemma {:induction false} ClimbGrows(tips: seq<U64>, flags: seq<bool>, pct: BumpPct)
    requires IsClimb(tips, flags, pct)
    ensures var t, v := tips[0], tips[|flags|];
            && t * pct >= 0 && v >= t && v >= t + Count(flags) * (t * pct / 100)
    decreases |flags|
  {
    var n, t := |flags|, tips[0];
    MulNat(t, pct);
    if n > 0 {
      forall i, j | 0 <= i < n - 1 && j == i + 1
        ensures Rung(tips[..n][i], tips[..n][j], flags[..n - 1][i], pct)
      {
        assert Rung(tips[i], tips[j], flags[i], pct);
      }
      ClimbGrows(tips[..n], flags[..n - 1], pct);
      assert Rung(tips[n - 1], tips[n], flags[n - 1], pct);
      if flags[n - 1] {
        OneBumpMore(t, tips[n - 1], tips[n], pct, Count(flags[..n - 1]));
      }
    }
  }

  /**
   The history of one slot from moment `i` on: at moment i + m it is in lane `lanes[m]` with tip
   `tips[m]`, and `flags[m]` says whether the step from there replaced its transaction. While it
   is replaced, the product of its tip and 100 + pct fits a u64.
   */
  ghost predicate IsHistory(cfg: PoolConfig, evs: seq<Event>, ps: seq<Pool>, s: Address, n: Nonce, i: nat,
                            lanes: seq<bool>, tips: seq<U64>, flags: seq<bool>)
  {
    && |tips| == |lanes| == |flags| + 1 && |ps| == |evs| + 1 && i + |flags| < |ps|
    && (forall m :: 0 <= m < |tips| && At(m) ==> LaneTip(QueueOf(ps[i + m], s), n, lanes[m]) == Some(tips[m]))
    && (forall m :: 0 <= m < |flags| && At(m) ==>
          && Follows(QueueOf(ps[i + m], s), QueueOf(ps[i + m + 1], s), n, lanes[m], lanes[m + 1])
          && (flags[m] <==> Replaces(cfg, ps[i + m], evs[i + m], s, n, lanes[m]))
          && (flags[m] ==> Fits(tips[m], cfg.bumpPct)))
  }

  lemma HistoryTip(cfg: PoolConfig, evs: seq<Event>, ps: seq<Pool>, s: Address, n: Nonce, i: nat,
                   lanes: seq<bool>, tips: seq<U64>, flags: seq<bool>, m: nat, k: nat)
    requires IsHistory(cfg, evs, ps, s, n, i, lanes, tips, flags) && m < |tips| && k == i + m
    ensures LaneTip(QueueOf(ps[k], s), n, lanes[m]) == Some(tips[m])
  {
    assert At(m);
  }

  lemma HistoryStep(cfg: PoolConfig, evs: seq<Event>, ps: seq<Pool>, s: Address, n: Nonce, i: nat,
                    lanes: seq<bool>, tips: seq<U64>, flags: seq<bool>, m: nat, m': nat, k: nat, k': nat)
    requires IsHistory(cfg, evs, ps, s, n, i, lanes, tips, flags)
    requires m < |flags| && m' == m + 1 && k == i + m && k' == k + 1
    ensures Follows(QueueOf(ps[k], s), QueueOf(ps[k'], s), n, lanes[m], lanes[m'])
    ensures flags[m] <==> Replaces(cfg, ps[k], evs[k], s, n, lanes[m])
    ensures flags[m] ==> Fits(tips[m], cfg.bumpPct)
  {
    assert At(m);
  }

  lemma RungAfterStep(cfg: PoolConfig, evs: seq<Event>, ps: seq<Pool>,
                      s: Address, n: Nonce, i: nat, lanes: seq<bool>, tips: seq<U64>, flags: seq<bool>, a: nat, b: nat)
    requires IsRun(cfg, evs, ps) && IsHistory(cfg, evs, ps, s, n, i, lanes, tips, flags)
    requires a < |flags| && b == a + 1
    ensures Rung(tips[a], tips[b], flags[a], cfg.bumpPct)
  {
    HistoryTip(cfg, evs, ps, s, n, i, lanes, tips, flags, a, i + a);
    HistoryTip(cfg, evs, ps, s, n, i, lanes, tips, flags, b, i + b);
    HistoryStep(cfg, evs, ps, s, n, i, lanes, tips, flags, a, b, i + a, i + b);
    RunStep(cfg, evs, ps, i + a, i + b);
    TipAfterAnyStep(cfg, ps[i + a], evs[i + a], ps[i + b], s, n, lanes[a], lanes[b]);
  }

  /**
   On every run, with no discipline assumed: while its bumped products fit a u64, a slot that
   starts at tip t gains at least floor(t * pct / 100) with each of its k replacements and never
   loses tip, promoted or not; so if that bump is positive, k is below 2^64 - t.
   */
  lemma ReplacementGrowth(cfg: PoolConfig, evs: seq<Event>, ps: seq<Pool>,
                          s: Address, n: Nonce, i: nat, lanes: seq<bool>, tips: seq<U64>, flags: seq<bool>)
    requires IsRun(cfg, evs, ps) && IsHistory(cfg, evs, ps, s, n, i, lanes, tips, flags)
    ensures var t, v, k := tips[0], tips[|flags|], Count(flags);
            && v >= t && t * cfg.bumpPct >= 0
            && v >= t + k * (t * cfg.bumpPct / 100)
            && (t * cfg.bumpPct >= 100 ==> k < TWO_64 - t)
  {
    forall a, b | 0 <= a < |flags| && b == a + 1
      ensures Rung(tips[a], tips[b], flags[a], cfg.bumpPct)
    {
      RungAfterStep(cfg, evs, ps, s, n, i, lanes, tips, flags, a, b);
    }
    GrowthBounds(tips, flags, cfg.bumpPct);
  }

  lemma GrowthBounds(tips: seq<U64>, flags: seq<bool>, pct: BumpPct)
    requires IsClimb(tips, flags, pct)
    ensures var t, v, k := tips[0], tips[|flags|], Count(flags);
            && v >= t && t * pct >= 0 && v >= t + k * (t * pct / 100)
            && (t * pct >= 100 ==> k < TWO_64 - t)
  {
    var t, k := tips[0], Count(flags);
    ClimbGrows(tips, flags, pct);
    if t * pct >= 100 {
      MulMono(k, k, 1, t * pct / 100);
    }
  }
}
