/**
 When the block gas limit binds a payload. The running total of `collect_payload` wraps at 64
 bits, so the limit holds on every pool exactly when no sum can get that far.
 */
module GasLimit {
  import opened Primitives
  import opened Finite
  import opened Transactions
  import opened PoolModel
  import opened PoolInvariants
  import opened PoolRuns
  import opened Payload

  /** A transaction is determined by its bytes, and by its hash. */
  ghost predicate Unambiguous(evs: seq<Event>) {
    forall i, j :: 0 <= i < |evs| && 0 <= j < |evs| && evs[i].SubmitTx? && evs[j].SubmitTx?
                   && (evs[i].tx.raw == evs[j].tx.raw || evs[i].tx.txHash == evs[j].tx.txHash)
                   ==> evs[i].tx == evs[j].tx
  }

  /**
   The gas limits of a payload never sum past `maxGas`, whatever run filled the pool, for at most
   `k` candidates with gas limits up to `cap`.
   */
  ghost predicate GasLimitHolds(cfg: PoolConfig, maxBytes: nat, maxGas: U64, cap: U64, k: nat) {
    forall evs: seq<Event>, ps: seq<Pool>, cs: seq<PoolEntry> ::
      IsRun(cfg, evs, ps) && Unambiguous(evs) && IsCandidateOrder(ps[|evs|], cs) && |cs| <= k && GasCapped(cs, cap) ==>
        GasSum(Select(cs, maxBytes, maxGas).taken) <= maxGas
  }

  // ----- A pool of plain senders -----

  /** The first transaction of account `i`: it tips nothing and its bytes are its sender's number. */
  function PlainTx(i: Address, gas: U64): VerifiedTx {
    VerifiedTx(WordBytes(i), Envelope(None, 0, gas, 0, None, Some(0), 0, []), i, i)
  }

  function PlainEntry(i: Address, gas: U64): PoolEntry {
    PoolEntry(PlainTx(i, gas), 0)
  }

  function PlainQueue(i: Address, gas: U64): SenderQueue {
    SenderQueue(map[0 := PlainEntry(i, gas)], map[])
  }

  function PlainPool(gs: seq<U64>): Pool
    requires |gs| <= TWO_160
  {
    Pool(map i: Address | 0 <= i < |gs| :: PlainQueue(i, gs[i]),
         map h: Hash | 0 <= h < |gs| :: PlainTx(h, gs[h]).sender)
  }

  lemma SubmitPlain(cfg: PoolConfig, gs: seq<U64>, gas: U64)
    requires |gs| < TWO_160 && cfg.maxPending > 0
    ensures NewEntry(cfg, PlainTx(|gs|, gas)) == PlainEntry(|gs|, gas)
    ensures Submit(cfg, PlainPool(gs), PlainEntry(|gs|, gas), 0) == (PlainPool(gs + [gas]), Accepted(|gs|))
  {
    var e, p := PlainEntry(|gs|, gas), PlainPool(gs);
    assert |gs| !in p.byHash && QueueOf(p, |gs|) == EMPTY_QUEUE;
    SubmitToPending(cfg, p, e, 0);
    PlainPoolGrows(gs, gas);
  }

  lemma PlainPoolGrows(gs: seq<U64>, gas: U64)
    requires |gs| < TWO_160
    ensures var p, n := PlainPool(gs), |gs|;
            PlainPool(gs + [gas]) == Pool(p.senders[n := PlainQueue(n, gas)], p.byHash[n := n])
  {
    var p, p' := PlainPool(gs), PlainPool(gs + [gas]);
    assert p'.senders == p.senders[|gs| := PlainQueue(|gs|, gas)];
    assert p'.byHash == p.byHash[|gs| := |gs|];
  }

  ghost function PlainEvents(gs: seq<U64>): seq<Event>
    requires |gs| <= TWO_160
  {
    seq(|gs|, i requires 0 <= i < |gs| => SubmitTx(PlainTx(i, gs[i]), 0))
  }

  ghost function PlainPools(gs: seq<U64>): seq<Pool>
    requires |gs| <= TWO_160
  {
    seq(|gs| + 1, i requires 0 <= i <= |gs| => PlainPool(gs[..i]))
  }

  lemma PlainStep(cfg: PoolConfig, gs: seq<U64>, i: nat)
    requires i < |gs| <= TWO_160 && cfg.maxPending > 0
    ensures Step(cfg, PlainPool(gs[..i]), SubmitTx(PlainTx(i, gs[i]), 0), PlainPool(gs[..i + 1]))
  {
    var front := gs[..i];
    assert gs[..i + 1] == front + [gs[i]];
    SubmitPlain(cfg, front, gs[i]);
    SubmitStep(cfg, PlainPool(front), PlainTx(i, gs[i]), 0, PlainPool(front + [gs[i]]));
  }

  lemma SubmitStep(cfg: PoolConfig, p: Pool, tx: VerifiedTx, current: U64, p': Pool)
    requires Submit(cfg, p, NewEntry(cfg, tx), current).0 == p'
    ensures Step(cfg, p, SubmitTx(tx, current), p')
  {
  }

  lemma PlainIsRun(cfg: PoolConfig, gs: seq<U64>)
    requires |gs| <= TWO_160 && cfg.maxPending > 0
    ensures IsRun(cfg, PlainEvents(gs), PlainPools(gs)) && PlainPools(gs)[|gs|] == PlainPool(gs)
  {
    var evs, ps := PlainEvents(gs), PlainPools(gs);
    assert gs[..|gs|] == gs;
    assert ps[0].senders == map[] && ps[0].byHash == map[];
    forall i | 0 <= i < |evs| && At(i)
      ensures Step(cfg, ps[i], evs[i], ps[i + 1])
    {
      PlainStep(cfg, gs, i);
    }
  }

  lemma PlainIsUnambiguous(gs: seq<U64>)
    requires |gs| <= TWO_160
    ensures Unambiguous(PlainEvents(gs))
  {
    var evs := PlainEvents(gs);
    forall i, j | 0 <= i < |evs| && 0 <= j < |evs|
                  && (evs[i].tx.raw == evs[j].tx.raw || evs[i].tx.txHash == evs[j].tx.txHash)
      ensures evs[i].tx == evs[j].tx
    {
      WordRoundTrip(i);
      WordRoundTrip(j);
    }
  }

  ghost function PlainOrder(gs: seq<U64>): (cs: seq<PoolEntry>)
    requires |gs| <= TWO_160
    ensures |cs| == |gs| && forall i :: 0 <= i < |gs| ==> cs[i] == PlainEntry(i, gs[i])
  {
    seq(|gs|, i requires 0 <= i < |gs| => PlainEntry(i, gs[i]))
  }

  lemma PlainIsOrder(gs: seq<U64>)
    requires |gs| <= TWO_160
    ensures IsCandidateOrder(PlainPool(gs), PlainOrder(gs))
  {
    var p, cs := PlainPool(gs), PlainOrder(gs);
    forall i | 0 <= i < |cs|
      ensures HasPending(p, cs[i].Sender()) && cs[i] == Head(p.senders[cs[i].Sender()])
    {
      assert p.senders[i] == PlainQueue(i, gs[i]);
      assert 0 in p.senders[i].pending;
    }
    forall s: Address | HasPending(p, s)
      ensures s in SendersOf(cs)
    {
      assert cs[s].Sender() == s;
    }
  }

  // ----- Filling it up -----

  function Total(gs: seq<U64>): nat {
    if gs == [] then 0 else Total(gs[..|gs| - 1]) + gs[|gs| - 1]
  }

  predicate AllCapped(gs: seq<U64>, cap: U64) {
    forall i :: 0 <= i < |gs| ==> gs[i] <= cap
  }

  lemma {:induction false} FillGas(target: U64, cap: U64, n: nat) returns (gs: seq<U64>)
    requires target <= Times(cap, n)
    ensures |gs| <= n && AllCapped(gs, cap) && Total(gs) == target
    decreases n
  {
    if n == 0 {
      gs := [];
    } else {
      var last := Min(target, cap);
      var front := FillGas(target - last, cap, n - 1);
      gs := front + [last];
      assert gs[..|gs| - 1] == front;
    }
  }

  /** Plain transactions that fit are all taken, at 36 bytes each. */
  lemma {:induction false} AllFit(gs: seq<U64>, maxBytes: nat, maxGas: U64)
    requires |gs| <= TWO_160 && 36 * |gs| <= maxBytes && Total(gs) <= maxGas
    ensures var sel := Select(PlainOrder(gs), maxBytes, maxGas);
            sel.taken == PlainOrder(gs) && sel.gas == Total(gs) && |sel.payload| == 36 * |gs| && !sel.full
    decreases |gs|
  {
    if gs != [] {
      var n := |gs| - 1;
      AllFit(gs[..n], maxBytes, maxGas);
      assert PlainOrder(gs)[..n] == PlainOrder(gs[..n]);
      assert PlainOrder(gs) == PlainOrder(gs[..n]) + [PlainEntry(n, gs[n])];
      WrapIsExact(Total(gs[..n]), gs[n]);
    }
  }

  lemma {:induction false} PlainGas(gs: seq<U64>)
    requires |gs| <= TWO_160
    ensures GasSum(PlainOrder(gs)) == Total(gs)
    decreases |gs|
  {
    if gs != [] {
      var n := |gs| - 1;
      PlainGas(gs[..n]);
      assert PlainOrder(gs)[..n] == PlainOrder(gs[..n]);
    }
  }

  lemma WrappedTurn(sel: Selection, c: PoolEntry, maxBytes: nat, maxGas: U64)
    requires !sel.full && |sel.payload| + 4 + |c.Raw()| <= maxBytes
    requires sel.gas <= maxGas && sel.gas + c.Gas() >= TWO_64
    ensures Consider(sel, c, maxBytes, maxGas).taken == sel.taken + [c]
  {
    assert WrapAdd64(sel.gas, c.Gas()) == sel.gas + c.Gas() - TWO_64;
  }

  /** One more transaction whose gas takes the running total past 2^64 is taken as well. */
  lemma WrapLetsOneIn(gs: seq<U64>, cap: U64, maxBytes: nat, maxGas: U64)
    requires |gs| < TWO_160 && 36 * (|gs| + 1) <= maxBytes
    requires Total(gs) <= maxGas && Total(gs) + cap >= TWO_64
    ensures GasSum(Select(PlainOrder(gs + [cap]), maxBytes, maxGas).taken) == Total(gs) + cap
  {
    var all := gs + [cap];
    var cs := PlainOrder(all);
    AllFit(gs, maxBytes, maxGas);
    assert all[..|gs|] == gs;
    assert cs[..|gs|] == PlainOrder(gs);
    assert cs == PlainOrder(gs) + [PlainEntry(|gs|, cap)];
    WrappedTurn(Select(PlainOrder(gs), maxBytes, maxGas), PlainEntry(|gs|, cap), maxBytes, maxGas);
    PlainGas(all);
  }

  /** A run of submissions from the empty pool whose payload breaks the limit. */
  lemma LimitBroken(cfg: PoolConfig, maxBytes: nat, maxGas: U64, cap: U64, k: nat)
    requires cfg.maxPending > 0 && 36 * k <= maxBytes < TWO_64 && !SumsFit(cap, maxGas, k)
    ensures !GasLimitHolds(cfg, maxBytes, maxGas, cap, k)
  {
    var gs := FillGas(Min(maxGas, Times(cap, k - 1)), cap, k - 1);
    var all := gs + [cap];
    WrapLetsOneIn(gs, cap, maxBytes, maxGas);
    PlainIsRun(cfg, all);
    PlainIsUnambiguous(all);
    PlainIsOrder(all);
    var evs, ps, cs := PlainEvents(all), PlainPools(all), PlainOrder(all);
    assert IsRun(cfg, evs, ps) && IsCandidateOrder(ps[|evs|], cs);
    assert GasCapped(cs, cap);
  }

  /**
   For at most `k` candidates with gas limits up to `cap`, and a byte limit with room for them, the
   block gas limit holds on every run exactly when `cap` plus the largest running total before the
   last candidate fits a u64. Beyond that the total wraps and lets a transaction in.
   */
  lemma GasLimitHoldsExactlyWhen(cfg: PoolConfig, maxBytes: nat, maxGas: U64, cap: U64, k: nat)
    requires maxGas > 0 && cfg.maxPending > 0 && 36 * k <= maxBytes < TWO_64
    ensures GasLimitHolds(cfg, maxBytes, maxGas, cap, k) <==> SumsFit(cap, maxGas, k)
    ensures SumsFit(cap, maxGas, k) <==> k == 0 || cap + Min(maxGas, cap * (k - 1)) < TWO_64
  {
    if k > 0 {
      TimesIsProduct(cap, k - 1);
    }
    if SumsFit(cap, maxGas, k) {
      forall evs: seq<Event>, ps: seq<Pool>, cs: seq<PoolEntry> |
        IsRun(cfg, evs, ps) && Unambiguous(evs) && IsCandidateOrder(ps[|evs|], cs) && |cs| <= k && GasCapped(cs, cap)
        ensures GasSum(Select(cs, maxBytes, maxGas).taken) <= maxGas
      {
        GasIsBounded(cs, maxBytes, maxGas, cap, k);
      }
    } else {
      LimitBroken(cfg, maxBytes, maxGas, cap, k);
    }
  }

  /** Two transactions are enough: one that uses the whole limit, and one with the largest gas limit. */
  lemma TwoSendersBreakTheLimit(cfg: PoolConfig, maxBytes: nat, maxGas: U64)
    requires maxGas > 0 && cfg.maxPending > 0 && 72 <= maxBytes < TWO_64
    ensures !GasLimitHolds(cfg, maxBytes, maxGas, TWO_64 - 1, 2)
  {
    GasLimitHoldsExactlyWhen(cfg, maxBytes, maxGas, TWO_64 - 1, 2);
  }
}
