/**
 The pool as the node runs it: `EvmTxPool` of crates/txpool/src/lib.rs, with its maps updated in
 place and its loops over unordered maps, proved against PoolModel.
 */
module TxPool {
  import opened Primitives
  import opened Finite
  import opened Transactions
  import opened PoolModel
  import opened PoolInvariants
  import opened PoolAnswers
  import opened PoolRuns
  import opened Payload

  // ----- Loops on one sender's lanes -----

  function MoveOne(q: SenderQueue, n: Nonce): SenderQueue
    requires n in q.queued
  {
    SenderQueue(q.pending[n := q.queued[n]], q.queued - {n})
  }

  /** Promotion one nonce at a time. */
  ghost function Promoted(q: SenderQueue, next: U64): SenderQueue
    decreases TWO_64 - next
  {
    if next in q.queued then Promoted(MoveOne(q, next), next + 1) else q
  }

  lemma {:induction false} RunSkips(queued: Lane, rest: Lane, next: U64)
    requires forall n :: n >= next ==> (n in rest <==> n in queued)
    ensures RunLength(rest, next) == RunLength(queued, next)
    decreases TWO_64 - next
  {
    if next in queued {
      RunSkips(queued, rest, next + 1);
    }
  }

  lemma ShiftNone(q: SenderQueue, start: U64)
    ensures Shift(q, start, 0) == q
  {
    assert Shift(q, start, 0).pending == q.pending;
    assert Shift(q, start, 0).queued == q.queued;
  }

  lemma ShiftRest(q: SenderQueue, next: U64, k: nat)
    requires next in q.queued
    ensures Shift(MoveOne(q, next), next + 1, k) == Shift(q, next, k + 1)
  {
    var q1, q2 := Shift(MoveOne(q, next), next + 1, k), Shift(q, next, k + 1);
    forall n: Nonce
      ensures n in q1.pending <==> n in q2.pending
      ensures n in q1.pending ==> q1.pending[n] == q2.pending[n]
      ensures n in q1.queued <==> n in q2.queued
      ensures n in q1.queued ==> q1.queued[n] == q2.queued[n]
    {
    }
    SameMap(q1.pending, q2.pending);
    SameMap(q1.queued, q2.queued);
  }

  lemma RunAfterMove(q: SenderQueue, next: U64)
    requires next in q.queued
    ensures RunLength(q.queued, next) == RunLength(MoveOne(q, next).queued, next + 1) + 1
  {
    RunSkips(q.queued, MoveOne(q, next).queued, next + 1);
  }

  ghost function ShiftRun(q: SenderQueue, next: U64): SenderQueue {
    Shift(q, next, RunLength(q.queued, next))
  }

  lemma ShiftRunStep(q: SenderQueue, next: U64)
    requires next in q.queued
    ensures ShiftRun(MoveOne(q, next), next + 1) == ShiftRun(q, next)
  {
    RunAfterMove(q, next);
    ShiftRunBy(q, next, RunLength(MoveOne(q, next).queued, next + 1), RunLength(q.queued, next));
  }

  lemma ShiftRunBy(q: SenderQueue, next: U64, k: nat, k': nat)
    requires next in q.queued && k' == k + 1
    ensures Shift(MoveOne(q, next), next + 1, k) == Shift(q, next, k')
  {
    ShiftRest(q, next, k);
  }

  /** One at a time or in one go, promotion comes to the same. */
  lemma {:induction false} PromotedIsShift(q: SenderQueue, next: U64)
    ensures Promoted(q, next) == ShiftRun(q, next)
    decreases TWO_64 - next
  {
    if next in q.queued {
      PromotedIsShift(MoveOne(q, next), next + 1);
      ShiftRunStep(q, next);
    } else {
      ShiftNone(q, next);
    }
  }

  /** `promote_queued_static`. */
  method PromoteQueued(queue: SenderQueue, current: U64) returns (q: SenderQueue)
    ensures q == Promote(queue, current)
  {
    q := queue;
    var next: U64 := if q.pending == map[] then current else MaxKey(q.pending) + 1;
    PromotedIsShift(queue, next);
    while next in q.queued
      invariant Promoted(q, next) == Promote(queue, current)
      decreases TWO_64 - next
    {
      q := MoveOne(q, next);
      next := next + 1;
    }
  }

  /** Drop the nonces below `current`, remembering the hashes of what was dropped. */
  method EvictStale(m: Lane, current: U64) returns (kept: Lane, hashes: seq<Hash>)
    ensures kept == Fresh(m, current)
    ensures forall h :: h in hashes <==> exists n :: n in m && n < current && m[n].Hash() == h
  {
    kept, hashes := m, [];
    var stale := set n | n in m && n < current;
    while stale != {}
      invariant forall n :: n in stale ==> n in m && n < current
      invariant forall n :: n in kept <==> n in m && (n >= current || n in stale)
      invariant forall n :: n in kept ==> kept[n] == m[n]
      invariant forall h :: h in hashes <==> exists n :: n in m && n < current && n !in stale && m[n].Hash() == h
      decreases stale
    {
      var n :| n in stale;
      ghost var before := stale;
      stale := stale - {n};
      assert forall k :: k in m && k < current && k !in stale <==> k == n || (k in m && k < current && k !in before);
      hashes := hashes + [kept[n].Hash()];
      kept := kept - {n};
    }
  }

  /** The part of `submit_tx` that looks at the sender's queue: refuse the entry, or insert and promote. */
  method Place(config: PoolConfig, queue: SenderQueue, entry: PoolEntry, current: U64)
    returns (error: Option<SubmitError>, displaced: Option<Hash>, q: SenderQueue)
    ensures error == Refusal(config, queue, entry, current)
    ensures error.None? ==> q == Promote(Insert(queue, IsPending(queue, entry.Nonce(), current), entry), current)
    ensures error.None? ==> displaced == match Displaced(queue, entry, current) case Some(e) => Some(e.Hash()) case None => None
    ensures IsVerdict(config, queue, entry, current, error)
  {
    VerdictIs(config, queue, entry, current);
    var nonce := entry.Nonce();
    error, displaced, q := None, None, queue;
    var isPending := nonce == current || SatSub(nonce, 1) in queue.pending;
    var target := if isPending then queue.pending else queue.queued;
    if nonce in target {
      var minTip := MinTip(target[nonce].tip, config.bumpPct);
      if entry.tip < minTip {
        error := Some(Underpriced(minTip));
        return;
      }
      displaced := Some(target[nonce].Hash());
    }
    var limit := if isPending then config.maxPending else config.maxQueued;
    if displaced.None? && |target| >= limit {
      error := Some(QueueFull);
      return;
    }
    target := target[nonce := entry];
    q := if isPending then queue.(pending := target) else queue.(queued := target);
    q := PromoteQueued(q, current);
  }

  // ----- Candidates -----

  /** The entries with tip `t`, in their order. */
  function WithTip(es: seq<PoolEntry>, t: U64): seq<PoolEntry> {
    if es == [] then []
    else WithTip(es[..|es| - 1], t) + if es[|es| - 1].tip == t then [es[|es| - 1]] else []
  }

  lemma {:induction false} WithTipConcat(xs: seq<PoolEntry>, ys: seq<PoolEntry>, t: U64)
    ensures WithTip(xs + ys, t) == WithTip(xs, t) + WithTip(ys, t)
    decreases |ys|
  {
    if ys == [] {
      assert xs + ys == xs;
    } else {
      var n, all := |ys| - 1, xs + ys;
      assert all[..|all| - 1] == xs + ys[..n];
      WithTipConcat(xs, ys[..n], t);
    }
  }

  lemma {:induction false} WithTipNone(es: seq<PoolEntry>, t: U64)
    requires forall i :: 0 <= i < |es| ==> es[i].tip != t
    ensures WithTip(es, t) == []
    decreases |es|
  {
    if es != [] {
      WithTipNone(es[..|es| - 1], t);
    }
  }

  /** An entry placed before all smaller tips and after all others comes last among its equals. */
  lemma SpliceIsStable(high: seq<PoolEntry>, c: PoolEntry, low: seq<PoolEntry>, t: U64)
    requires forall j :: 0 <= j < |low| ==> low[j].tip < c.tip
    ensures WithTip(high + [c] + low, t) == WithTip(high + low, t) + WithTip([c], t)
  {
    WithTipConcat(high + [c], low, t);
    WithTipConcat(high, [c], t);
    WithTipConcat(high, low, t);
    if t == c.tip {
      WithTipNone(low, t);
    } else {
      WithTipNone([c], t);
    }
    Commute(WithTip(high, t), WithTip([c], t), WithTip(low, t));
  }

  lemma Commute<T>(a: seq<T>, b: seq<T>, c: seq<T>)
    requires b == [] || c == []
    ensures (a + b) + c == (a + c) + b
  {
  }

  method SortByTip(cs: seq<PoolEntry>) returns (r: seq<PoolEntry>)
    requires DistinctSenders(cs)
    ensures FallingTips(r) && DistinctSenders(r)
    ensures multiset(r) == multiset(cs)
    ensures forall t: U64 :: WithTip(r, t) == WithTip(cs, t)
  {
    r := [];
    for i := 0 to |cs|
      invariant FallingTips(r) && DistinctSenders(r)
      invariant multiset(r) == multiset(cs[..i])
      invariant forall t: U64 :: WithTip(r, t) == WithTip(cs[..i], t)
    {
      assert cs[..i + 1] == cs[..i] + [cs[i]];
      forall j | 0 <= j < |r|
        ensures r[j].Sender() != cs[i].Sender()
      {
        assert r[j] in multiset(r);
        assert r[j] in cs[..i];
      }
      forall t: U64
        ensures WithTip(cs[..i + 1], t) == WithTip(cs[..i], t) + WithTip([cs[i]], t)
      {
        WithTipConcat(cs[..i], [cs[i]], t);
      }
      r := InsertByTip(r, cs[i]);
    }
    assert cs[..|cs|] == cs;
  }

  lemma SpliceKeepsOrder(r: seq<PoolEntry>, k: nat, c: PoolEntry)
    requires k <= |r| && FallingTips(r) && DistinctSenders(r)
    requires forall j :: 0 <= j < |r| ==> r[j].Sender() != c.Sender()
    requires forall j :: k <= j < |r| ==> r[j].tip < c.tip
    requires k > 0 ==> r[k - 1].tip >= c.tip
    ensures FallingTips(r[..k] + [c] + r[k..]) && DistinctSenders(r[..k] + [c] + r[k..])
  {
    var r' := r[..k] + [c] + r[k..];
    forall i, j | 0 <= i < j < |r'|
      ensures r'[i].tip >= r'[j].tip && r'[i].Sender() != r'[j].Sender()
    {
      var a, b := if i < k then i else i - 1, if j < k then j else j - 1;
      assert i < k ==> r'[i] == r[a];
      assert i > k ==> r'[i] == r[a];
      assert j < k ==> r'[j] == r[b];
      assert j > k ==> r'[j] == r[b];
    }
  }

  lemma InsertIsStable(r: seq<PoolEntry>, k: nat, c: PoolEntry)
    requires k <= |r| && forall j :: k <= j < |r| ==> r[j].tip < c.tip
    ensures forall t: U64 :: WithTip(r[..k] + [c] + r[k..], t) == WithTip(r, t) + WithTip([c], t)
  {
    assert r == r[..k] + r[k..];
    forall t: U64
      ensures WithTip(r[..k] + [c] + r[k..], t) == WithTip(r, t) + WithTip([c], t)
    {
      SpliceIsStable(r[..k], c, r[k..], t);
    }
  }

  /** `r'` is `r` with `c` put in place by tip, after its equals. */
  ghost predicate Inserted(r: seq<PoolEntry>, c: PoolEntry, r': seq<PoolEntry>) {
    && FallingTips(r') && DistinctSenders(r')
    && multiset(r') == multiset(r) + multiset{c}
    && forall t: U64 :: WithTip(r', t) == WithTip(r, t) + WithTip([c], t)
  }

  lemma SpliceAddsOne(r: seq<PoolEntry>, k: nat, c: PoolEntry)
    requires k <= |r|
    ensures multiset(r[..k] + [c] + r[k..]) == multiset(r) + multiset{c}
  {
    assert r == r[..k] + r[k..];
  }

  lemma SpliceInserts(r: seq<PoolEntry>, k: nat, c: PoolEntry)
    requires k <= |r| && FallingTips(r) && DistinctSenders(r)
    requires forall j :: 0 <= j < |r| ==> r[j].Sender() != c.Sender()
    requires forall j :: k <= j < |r| ==> r[j].tip < c.tip
    requires k > 0 ==> r[k - 1].tip >= c.tip
    ensures Inserted(r, c, r[..k] + [c] + r[k..])
  {
    SpliceKeepsOrder(r, k, c);
    InsertIsStable(r, k, c);
    SpliceAddsOne(r, k, c);
  }

  method InsertByTip(r: seq<PoolEntry>, c: PoolEntry) returns (r': seq<PoolEntry>)
    requires FallingTips(r) && DistinctSenders(r)
    requires forall j :: 0 <= j < |r| ==> r[j].Sender() != c.Sender()
    ensures Inserted(r, c, r')
  {
    var k: nat := |r|;
    while k > 0 && r[k - 1].tip < c.tip
      invariant k <= |r|
      invariant forall j :: k <= j < |r| ==> r[j].tip < c.tip
    {
      k := k - 1;
    }
    r' := r[..k] + [c] + r[k..];
    SpliceInserts(r, k, c);
  }

  // ----- Removal -----

  lemma CollectNone(p: Pool)
    ensures Collect(p, {}) == p
  {
  }

  /** Taking one more sender's head out of an already collected pool. */
  lemma CollectOneMore(p: Pool, taken: set<Address>, s: Address)
    requires Collectable(p, taken + {s}) && s !in taken
    ensures Collectable(p, taken) && s in Collect(p, taken).senders
    ensures var p1, p2 := Collect(p, taken), Collect(p, taken + {s});
            && p1.senders[s] == p.senders[s]
            && p2.senders == p1.senders[s := DropHead(p.senders[s])]
            && p2.byHash == p1.byHash - {Head(p.senders[s]).Hash()}
  {
  }

  lemma SendersOneMore(es: seq<PoolEntry>, i: nat)
    requires i < |es|
    ensures SendersOf(es[..i + 1]) == SendersOf(es[..i]) + {es[i].Sender()}
    ensures DistinctSenders(es) ==> es[i].Sender() !in SendersOf(es[..i])
  {
    assert forall j :: 0 <= j < i ==> es[..i][j] == es[j] && es[..i + 1][j] == es[j];
    assert es[..i + 1][i] == es[i];
    forall s | s in SendersOf(es[..i])
      ensures s in SendersOf(es[..i + 1])
    {
      var j :| 0 <= j < i && es[..i][j].Sender() == s;
      assert es[..i + 1][j].Sender() == s;
    }
  }

  lemma SendersAppend(es: seq<PoolEntry>, e: PoolEntry)
    ensures SendersOf(es + [e]) == SendersOf(es) + {e.Sender()}
    ensures DistinctSenders(es) && e.Sender() !in SendersOf(es) ==> DistinctSenders(es + [e])
  {
    var es' := es + [e];
    assert es'[|es|] == e;
    forall s | s in SendersOf(es)
      ensures s in SendersOf(es')
    {
      var i :| 0 <= i < |es| && es[i].Sender() == s;
      assert es'[i].Sender() == s;
    }
  }

  lemma TakenAreHeads(p: Pool, cs: seq<PoolEntry>, maxBytes: nat, maxGas: U64)
    requires IsCandidateOrder(p, cs)
    ensures var taken := Select(cs, maxBytes, maxGas).taken;
            && DistinctSenders(taken) && FallingTips(taken)
            && Collectable(p, SendersOf(taken))
            && forall i :: 0 <= i < |taken| ==> HasPending(p, taken[i].Sender()) && taken[i] == Head(p.senders[taken[i].Sender()])
  {
    var taken := Select(cs, maxBytes, maxGas).taken;
    TakenKeepsOrder(cs, maxBytes, maxGas);
    forall i | 0 <= i < |taken|
      ensures HasPending(p, taken[i].Sender()) && taken[i] == Head(p.senders[taken[i].Sender()])
    {
      var k :| 0 <= k < |cs| && cs[k] == taken[i];
    }
  }

  lemma {:induction false} FullStays(cs: seq<PoolEntry>, maxBytes: nat, maxGas: U64, i: nat)
    requires i <= |cs| && Select(cs[..i], maxBytes, maxGas).full
    ensures Select(cs, maxBytes, maxGas) == Select(cs[..i], maxBytes, maxGas)
    decreases |cs| - i
  {
    if i < |cs| {
      TurnOf(cs, maxBytes, maxGas, i);
      FullStays(cs, maxBytes, maxGas, i + 1);
    } else {
      assert cs[..i] == cs;
    }
  }

  lemma OrderFromHeads(p: Pool, heads: seq<PoolEntry>, order: seq<PoolEntry>)
    requires multiset(order) == multiset(heads)
    requires FallingTips(order) && DistinctSenders(order)
    requires forall i :: 0 <= i < |heads| ==> HasPending(p, heads[i].Sender()) && heads[i] == Head(p.senders[heads[i].Sender()])
    requires forall s :: HasPending(p, s) ==> s in SendersOf(heads)
    ensures IsCandidateOrder(p, order)
  {
    forall i | 0 <= i < |order|
      ensures HasPending(p, order[i].Sender()) && order[i] == Head(p.senders[order[i].Sender()])
    {
      assert order[i] in multiset(order);
      assert order[i] in heads;
    }
    forall s | HasPending(p, s)
      ensures s in SendersOf(order)
    {
      var i :| 0 <= i < |heads| && heads[i].Sender() == s;
      assert heads[i] in multiset(heads);
      assert heads[i] in order;
    }
  }

  /** The slots of one lane of the senders already counted. */
  ghost function SlotsExcept(senders: map<Address, SenderQueue>, pending: bool, todo: set<Address>): set<Slot> {
    set s, n | s in senders && s !in todo && n in Target(senders[s], pending) :: Slot(s, pending, n)
  }

  ghost function LaneSlots(s: Address, pending: bool, m: Lane): set<Slot> {
    set n | n in m :: Slot(s, pending, n)
  }

  lemma LaneSlotCount(s: Address, pending: bool, m: Lane)
    ensures |LaneSlots(s, pending, m)| == |m|
  {
    var f := map n | n in m :: Slot(s, pending, n);
    InjectiveSize(f);
    assert f.Keys == m.Keys;
    assert f.Values == LaneSlots(s, pending, m);
  }

  lemma SlotsOneMore(senders: map<Address, SenderQueue>, pending: bool, todo: set<Address>, s: Address)
    requires s in senders && s in todo
    ensures |SlotsExcept(senders, pending, todo - {s})| == |SlotsExcept(senders, pending, todo)| + |Target(senders[s], pending)|
  {
    var more := LaneSlots(s, pending, Target(senders[s], pending));
    LaneSlotCount(s, pending, Target(senders[s], pending));
    DisjointUnionSize(SlotsExcept(senders, pending, todo), more, SlotsExcept(senders, pending, todo - {s}));
  }

  lemma SlotsStart(senders: map<Address, SenderQueue>, pending: bool)
    ensures SlotsExcept(senders, pending, senders.Keys) == {}
  {
  }

  lemma SlotsEnd(p: Pool)
    ensures SlotsExcept(p.senders, true, {}) == PendingSlots(p) && SlotsExcept(p.senders, false, {}) == QueuedSlots(p)
  {
  }

  /** The size of one lane, summed over the senders in any order. */
  method CountSlots(senders: map<Address, SenderQueue>, pending: bool) returns (c: nat)
    ensures c == |SlotsExcept(senders, pending, {})|
  {
    c := 0;
    var todo := senders.Keys;
    SlotsStart(senders, pending);
    while todo != {}
      invariant todo <= senders.Keys
      invariant c == |SlotsExcept(senders, pending, todo)|
      decreases todo
    {
      var s :| s in todo;
      SlotsOneMore(senders, pending, todo, s);
      c := c + |Target(senders[s], pending)|;
      todo := todo - {s};
    }
  }

  /** What `Submit` is for a fresh hash and a nonce that is not stale. */
  lemma SubmitCases(cfg: PoolConfig, p: Pool, e: PoolEntry, current: U64)
    requires e.Hash() !in p.byHash && e.Nonce() >= current
    ensures var q := QueueOf(p, e.Sender());
            var refusal := Refusal(cfg, q, e, current);
            if refusal.Some? then
              Submit(cfg, p, e, current) == (Pool(p.senders[e.Sender() := q], p.byHash), Rejected(refusal.value))
            else
              var out := Displaced(q, e, current);
              var q' := Promote(Insert(q, IsPending(q, e.Nonce(), current), e), current);
              Submit(cfg, p, e, current)
              == (Pool(p.senders[e.Sender() := q'],
                       (if out.Some? then p.byHash - {out.value.Hash()} else p.byHash)[e.Hash() := e.Sender()]),
                  Accepted(e.Hash()))
  {
  }

  /** A mark naming the sender a sweep is about to settle. */
  predicate Due(s: Address) {
    true
  }

  class EvmTxPool {
    const config: PoolConfig
    const decode: Decoder
    var senders: map<Address, SenderQueue>
    var byHash: map<Hash, Address>

    ghost function State(): Pool
      reads this
    {
      Pool(senders, byHash)
    }

    ghost predicate Valid()
      reads this
    {
      Sound(config, State())
    }

    constructor (config: PoolConfig, decode: Decoder)
      ensures Valid() && State() == EMPTY_POOL
      ensures this.config == config && this.decode == decode
    {
      this.config := config;
      this.decode := decode;
      senders := map[];
      byHash := map[];
      new;
      EmptyIsSound(config);
    }

    /** `submit_tx`; an unset nonce lookup answers 0. */
    method SubmitTx(raw: Bytes, nonceFn: Option<NonceLookup>) returns (r: SubmitResult)
      requires Valid()
      modifies this
      ensures Valid()
      ensures match decode(raw)
              case None => r == Rejected(Undecodable) && State() == old(State())
              case Some(tx) =>
                var current := if nonceFn.Some? then nonceFn.value(tx.sender) else 0;
                && (State(), r) == Submit(config, old(State()), NewEntry(config, tx), current)
                && IsSubmission(config, old(State()), NewEntry(config, tx), current, State(), r)
    {
      var decoded := decode(raw);
      if decoded.None? {
        return Rejected(Undecodable);
      }
      var tx := decoded.value;
      var entry := PoolEntry(tx, EffectiveGasTip(tx.envelope, config.baseFee));
      var current: U64 := if nonceFn.Some? then nonceFn.value(tx.sender) else 0;
      SubmitKeepsSound(config, State(), entry, current);
      r := Admit(entry, current);
    }

    method Admit(entry: PoolEntry, current: U64) returns (r: SubmitResult)
      modifies this
      ensures (State(), r) == Submit(config, old(State()), entry, current)
      ensures IsSubmission(config, old(State()), entry, current, State(), r)
    {
      SubmissionIs(config, State(), entry, current);
      if entry.Hash() in byHash {
        return Rejected(AlreadyKnown);
      }
      var sender, nonce := entry.Sender(), entry.Nonce();
      if nonce < current {
        return Rejected(StaleNonce);
      }
      if sender !in senders {
        senders := senders[sender := EMPTY_QUEUE];
      } else {
        UpdateSame(senders, sender);
      }
      ghost var was := QueueOf(old(State()), sender);
      assert senders == old(senders)[sender := was];
      SubmitCases(config, old(State()), entry, current);
      var error, displaced, queue := Place(config, senders[sender], entry, current);
      if error.Some? {
        return Rejected(error.value);
      }
      if displaced.Some? {
        byHash := byHash - {displaced.value};
      }
      byHash := byHash[entry.Hash() := sender];
      UpdateTwice(old(senders), sender, was, queue);
      senders := senders[sender := queue];
      return Accepted(entry.Hash());
    }

    /** The head of every sender with pending transactions, in whatever order the map yields them. */
    method GatherHeads() returns (heads: seq<PoolEntry>)
      requires WellKeyed(State())
      ensures DistinctSenders(heads)
      ensures forall i :: 0 <= i < |heads| ==> HasPending(State(), heads[i].Sender()) && heads[i] == Head(senders[heads[i].Sender()])
      ensures forall s :: HasPending(State(), s) ==> s in SendersOf(heads)
    {
      heads := [];
      var todo := senders.Keys;
      while todo != {}
        invariant todo <= senders.Keys
        invariant DistinctSenders(heads)
        invariant forall i :: 0 <= i < |heads| ==> HasPending(State(), heads[i].Sender()) && heads[i] == Head(senders[heads[i].Sender()])
        invariant forall s :: s in SendersOf(heads) <==> s !in todo && HasPending(State(), s)
        decreases todo
      {
        var s :| s in todo;
        todo := todo - {s};
        var queue := senders[s];
        if queue.pending != map[] {
          var first := queue.pending[MinKey(queue.pending)];
          assert first.Sender() == s by {
            assert Keyed(s, queue);
          }
          SendersAppend(heads, first);
          heads := heads + [first];
        }
      }
    }

    /** `collect_payload`. The order in which candidates were considered comes back as a ghost. */
    method CollectPayload(maxBytes: nat, maxGas: U64) returns (payload: Bytes, ghost order: seq<PoolEntry>)
      requires Valid()
      modifies this
      ensures Valid()
      ensures IsCandidateOrder(old(State()), order) && AreLowest(old(State()), order)
      ensures var sel := Select(order, maxBytes, maxGas);
              && payload == sel.payload
              && Collectable(old(State()), SendersOf(sel.taken))
              && State() == Collect(old(State()), SendersOf(sel.taken))
              && IsCollected(old(State()), SendersOf(sel.taken), State())
    {
      ghost var p := State();
      var heads := GatherHeads();
      var candidates := SortByTip(heads);
      OrderFromHeads(p, heads, candidates);
      order := candidates;
      var included;
      payload, included := Fill(candidates, maxBytes, maxGas);
      TakenAreHeads(p, candidates, maxBytes, maxGas);
      CandidatesAreLowest(p, candidates);
      CollectKeepsSound(config, p, SendersOf(included));
      CollectIs(p, SendersOf(included));
      RemoveIncluded(included);
    }

    /** The greedy pass. */
    method Fill(candidates: seq<PoolEntry>, maxBytes: nat, maxGas: U64)
      returns (payload: Bytes, included: seq<PoolEntry>)
      ensures payload == Select(candidates, maxBytes, maxGas).payload
      ensures included == Select(candidates, maxBytes, maxGas).taken
    {
      payload, included := [], [];
      var totalGas: U64 := 0;
      var i := 0;
      while i < |candidates|
        invariant 0 <= i <= |candidates|
        invariant Select(candidates[..i], maxBytes, maxGas) == Selection(payload, totalGas, included, false)
      {
        var c := candidates[i];
        var gas := c.Gas();
        TurnOf(candidates, maxBytes, maxGas, i);
        i := i + 1;
        if |payload| + 4 + |c.Raw()| > maxBytes {
          FullStays(candidates, maxBytes, maxGas, i);
          return;
        }
        if maxGas > 0 && WrapAdd64(totalGas, gas) > maxGas {
          continue;
        }
        payload := payload + Le32(|c.Raw()| % TWO_32) + c.Raw();
        assert payload == Select(candidates[..i], maxBytes, maxGas).payload;
        totalGas := WrapAdd64(totalGas, gas);
        included := included + [c];
      }
      assert candidates[..|candidates|] == candidates;
    }

    method RemoveIncluded(included: seq<PoolEntry>)
      requires DistinctSenders(included) && Collectable(State(), SendersOf(included))
      requires forall i :: 0 <= i < |included| ==>
                 HasPending(State(), included[i].Sender()) && included[i] == Head(senders[included[i].Sender()])
      requires WellKeyed(State())
      modifies this
      ensures State() == Collect(old(State()), SendersOf(included))
    {
      ghost var p := State();
      var i := 0;
      CollectNone(p);
      assert SendersOf(included[..0]) == {};
      while i < |included|
        invariant 0 <= i <= |included|
        invariant Collectable(p, SendersOf(included[..i]))
        invariant State() == Collect(p, SendersOf(included[..i]))
      {
        var s := included[i].Sender();
        var nonce := included[i].Nonce();
        SendersOneMore(included, i);
        ghost var done := SendersOf(included[..i]);
        assert Collectable(p, done + {s}) by {
          assert included[i] == included[i] && HasPending(p, s);
        }
        CollectOneMore(p, done, s);
        var queue := senders[s];
        assert Keyed(s, p.senders[s]);
        assert nonce == MinKey(queue.pending);
        var hash := queue.pending[nonce].Hash();
        DropIsRemoval(queue, nonce);
        senders := senders[s := queue.(pending := queue.pending - {nonce})];
        byHash := byHash - {hash};
        i := i + 1;
      }
      assert included[..|included|] == included;
    }

    /** `on_commit`. */
    method OnCommit(nonceOf: NonceLookup)
      requires Valid()
      modifies this
      ensures Valid()
      ensures State() == Commit(old(State()), nonceOf) && IsCommitted(old(State()), nonceOf, State())
    {
      ghost var p := State();
      CommitKeepsSound(config, p, nonceOf);
      CommitIs(p, nonceOf);
      ghost var settled, stale := SettleAll(senders, nonceOf), StaleAll(senders, nonceOf);
      ghost var gone := EmptySenders(settled);
      SpecIsExpected(senders, nonceOf);
      var hashes, empties;
      senders, hashes, empties := SettleSenders(senders, nonceOf, settled, stale, gone);
      byHash := RemoveAll(byHash, hashes, UnionOf(stale));
      senders := RemoveAll(senders, empties, gone);
    }

    /** `pending_count`, summed over the senders in any order. */
    method PendingCount() returns (c: nat)
      ensures c == |PendingSlots(State())|
    {
      c := CountSlots(senders, true);
      SlotsEnd(State());
    }

    /** `queued_count`. */
    method QueuedCount() returns (c: nat)
      ensures c == |QueuedSlots(State())|
    {
      c := CountSlots(senders, false);
      SlotsEnd(State());
    }

    /** `contains`: the index answers for the queues. */
    method Contains(hash: Hash) returns (b: bool)
      requires Valid()
      ensures b <==> exists e :: Holds(State(), e) && e.Hash() == hash
    {
      b := hash in byHash;
      HeldIffHolds(State());
      if b {
        ghost var e :| e in Held(State()) && e.Hash() == hash;
        assert Holds(State(), e);
      }
    }
  }

  /** The stale hashes of the senders already done. */
  ghost function StaleExcept(stale: map<Address, set<Hash>>, todo: set<Address>): set<Hash> {
    set s, h | s in stale && s !in todo && h in stale[s] :: h
  }

  lemma StaleOneMore(stale: map<Address, set<Hash>>, todo: set<Address>, s: Address)
    requires s in stale && s in todo
    ensures StaleExcept(stale, todo - {s}) == StaleExcept(stale, todo) + stale[s]
  {
  }

  lemma StaleEnds(stale: map<Address, set<Hash>>)
    ensures StaleExcept(stale, stale.Keys) == {} && StaleExcept(stale, {}) == UnionOf(stale)
  {
  }

  /** What the sweep has to do to each sender: its settled queue, its stale hashes, whether it goes. */
  ghost predicate Expects(senders: map<Address, SenderQueue>, nonceOf: NonceLookup,
                          settled: map<Address, SenderQueue>, stale: map<Address, set<Hash>>, gone: set<Address>)
  {
    && senders.Keys == settled.Keys == stale.Keys
    && gone <= senders.Keys
    && forall s :: s in senders && Due(s) ==>
         && settled[s] == Settle(senders[s], nonceOf(s))
         && stale[s] == StaleHashes(senders[s], nonceOf(s))
         && (s in gone <==> settled[s] == EMPTY_QUEUE)
  }

  /** Settle one sender's queue: drop what is stale, promote, and say whether anything is left. */
  method SettleQueue(queue: SenderQueue, current: U64) returns (q: SenderQueue, hashes: seq<Hash>, empty: bool)
    ensures q == Settle(queue, current)
    ensures forall h :: h in hashes <==> h in StaleHashes(queue, current)
    ensures empty <==> q == EMPTY_QUEUE
  {
    var pending, stalePending := EvictStale(queue.pending, current);
    var queued, staleQueued := EvictStale(queue.queued, current);
    q := PromoteQueued(SenderQueue(pending, queued), current);
    hashes := stalePending + staleQueued;
    empty := q.pending == map[] && q.queued == map[];
  }

  /** The same, in terms of what the sweep expects of the sender. */
  method SettleOne(queue: SenderQueue, current: U64, ghost s: Address,
                   ghost senders: map<Address, SenderQueue>, ghost nonceOf: NonceLookup,
                   ghost settled: map<Address, SenderQueue>, ghost stale: map<Address, set<Hash>>, ghost gone: set<Address>)
    returns (q: SenderQueue, hashes: seq<Hash>, empty: bool)
    requires Expects(senders, nonceOf, settled, stale, gone)
    requires s in senders && queue == senders[s] && current == nonceOf(s)
    ensures q == settled[s]
    ensures forall h :: h in hashes <==> h in stale[s]
    ensures empty <==> s in gone
  {
    assert Due(s);
    q, hashes, empty := SettleQueue(queue, current);
  }

  /** The loop over all senders: evict, promote, and note what has to go afterwards. */
  method SettleSenders(senders: map<Address, SenderQueue>, nonceOf: NonceLookup,
                       ghost settled: map<Address, SenderQueue>, ghost stale: map<Address, set<Hash>>, ghost gone: set<Address>)
    returns (r: map<Address, SenderQueue>, hashes: seq<Hash>, empties: seq<Address>)
    requires Expects(senders, nonceOf, settled, stale, gone)
    ensures r == settled
    ensures forall h :: h in hashes <==> h in UnionOf(stale)
    ensures forall s :: s in empties <==> s in gone
  {
    r, hashes, empties := senders, [], [];
    var todo := senders.Keys;
    MergeEnds(senders, settled);
    StaleEnds(stale);
    while todo != {}
      invariant todo <= senders.Keys
      invariant r == Merge(senders, settled, todo)
      invariant forall h :: h in hashes <==> h in StaleExcept(stale, todo)
      invariant forall s :: s in empties <==> s in gone && s !in todo
      decreases todo
    {
      var s :| s in todo;
      MergeOneMore(senders, settled, todo, s);
      var queue, more, empty := SettleOne(r[s], nonceOf(s), s, senders, nonceOf, settled, stale, gone);
      StaleOneMore(stale, todo, s);
      todo := todo - {s};
      r := r[s := queue];
      hashes := hashes + more;
      if empty {
        empties := empties + [s];
      }
    }
  }

  /** Remove a list of keys one by one; keys that are absent are skipped. */
  method RemoveAll<K(==), V(==)>(m: map<K, V>, keys: seq<K>, ghost all: set<K>) returns (r: map<K, V>)
    requires forall k :: k in keys <==> k in all
    ensures r == m - all
  {
    r := m;
    for i := 0 to |keys|
      invariant r == m - (set j | 0 <= j < i :: keys[j])
    {
      r := r - {keys[i]};
    }
  }

  lemma SpecIsExpected(senders: map<Address, SenderQueue>, nonceOf: NonceLookup)
    ensures var settled := SettleAll(senders, nonceOf);
            Expects(senders, nonceOf, settled, StaleAll(senders, nonceOf), EmptySenders(settled))
  {
    var settled, stale := SettleAll(senders, nonceOf), StaleAll(senders, nonceOf);
    forall s | s in senders && Due(s)
      ensures settled[s] == Settle(senders[s], nonceOf(s))
      ensures stale[s] == StaleHashes(senders[s], nonceOf(s))
      ensures s in EmptySenders(settled) <==> settled[s] == EMPTY_QUEUE
    {
    }
  }

  lemma DropIsRemoval(q: SenderQueue, n: Nonce)
    requires q.pending != map[] && n == MinKey(q.pending)
    ensures q.(pending := q.pending - {n}) == DropHead(q)
  {
    assert q.pending - {n} == DropHead(q).pending;
  }
}
