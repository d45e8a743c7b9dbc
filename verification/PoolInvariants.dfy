/**
 What every pool operation keeps, with no assumption on the calling order: the hash index
 agrees with the queues, the per-sender capacities hold, and no entry appears or vanishes
 unaccounted for.
 */
module PoolInvariants {
  import opened Primitives
  import opened Finite
  import opened Transactions
  import opened PoolModel

  // ----- Invariants of one sender's queue -----

  /** Every entry sits under its own nonce, in its own sender's queue. */
  predicate Keyed(s: Address, q: SenderQueue) {
    && (forall n :: n in q.pending ==> q.pending[n].Nonce() == n && q.pending[n].Sender() == s)
    && (forall n :: n in q.queued ==> q.queued[n].Nonce() == n && q.queued[n].Sender() == s)
  }

  /** No entry is in both lanes. */
  predicate NoDouble(q: SenderQueue) {
    forall n :: n in q.pending && n in q.queued ==> q.pending[n] != q.queued[n]
  }

  /** The nonce after the last pending one is not queued: promotion has nothing left to do. */
  predicate Topped(q: SenderQueue) {
    q.pending != map[] ==> MaxKey(q.pending) + 1 !in q.queued
  }

  predicate WithinCaps(cfg: PoolConfig, q: SenderQueue) {
    && |q.queued| <= cfg.maxQueued
    && |q.pending| <= cfg.maxPending + cfg.maxQueued
  }

  // ----- Invariants of the whole pool -----

  predicate WellKeyed(p: Pool) {
    forall s :: s in p.senders ==> Keyed(s, p.senders[s]) && NoDouble(p.senders[s])
  }

  predicate Capped(cfg: PoolConfig, p: Pool) {
    forall s :: s in p.senders ==> Topped(p.senders[s]) && WithinCaps(cfg, p.senders[s])
  }

  /** `index` is exactly the map from the hash of each held entry to its sender; hashes are distinct. */
  ghost predicate IndexAgrees(held: set<PoolEntry>, index: map<Hash, Address>) {
    && (forall e :: e in held ==> e.Hash() in index && index[e.Hash()] == e.Sender())
    && (forall h :: h in index ==> exists e :: e in held && e.Hash() == h)
    && (forall e, f :: e in held && f in held && e.Hash() == f.Hash() ==> e == f)
  }

  function Entries(q: SenderQueue): set<PoolEntry> {
    (set n | n in q.pending :: q.pending[n]) + (set n | n in q.queued :: q.queued[n])
  }

  /** Everything in the pool. */
  function Held(p: Pool): set<PoolEntry> {
    set s, e | s in p.senders && e in Entries(p.senders[s]) :: e
  }

  ghost predicate Sound(cfg: PoolConfig, p: Pool) {
    WellKeyed(p) && Capped(cfg, p) && IndexAgrees(Held(p), p.byHash)
  }

  lemma HeldIffHolds(p: Pool)
    requires WellKeyed(p)
    ensures forall e :: e in Held(p) <==> Holds(p, e)
  {
    forall e
      ensures e in Held(p) <==> Holds(p, e)
    {
      if e in Held(p) {
        var s :| s in p.senders && e in Entries(p.senders[s]);
        assert Keyed(s, p.senders[s]);
      }
      if Holds(p, e) {
        assert e in Entries(p.senders[e.Sender()]);
      }
    }
  }

  // ----- The index, apart from the queues -----

  lemma IndexAfterDrop(held: set<PoolEntry>, index: map<Hash, Address>,
                       held': set<PoolEntry>, index': map<Hash, Address>, gone: set<PoolEntry>)
    requires IndexAgrees(held, index)
    requires forall e :: e in held' <==> e in held && e !in gone
    requires forall h :: h in index' <==> h in index && forall e :: e in gone ==> e.Hash() != h
    requires forall h :: h in index' ==> index'[h] == index[h]
    requires gone <= held
    ensures IndexAgrees(held', index')
  {
    forall h | h in index'
      ensures exists e :: e in held' && e.Hash() == h
    {
      var e :| e in held && e.Hash() == h;
      assert e in held';
    }
  }

  lemma IndexAfterAdd(held: set<PoolEntry>, index: map<Hash, Address>,
                      held': set<PoolEntry>, index': map<Hash, Address>, e: PoolEntry)
    requires IndexAgrees(held, index) && e.Hash() !in index
    requires forall x :: x in held' <==> x == e || x in held
    requires index' == index[e.Hash() := e.Sender()]
    ensures IndexAgrees(held', index')
  {
    forall h | h in index'
      ensures exists x :: x in held' && x.Hash() == h
    {
      if h == e.Hash() {
        assert e in held';
      } else {
        var x :| x in held && x.Hash() == h;
        assert x in held';
      }
    }
  }

  // ----- Promotion -----

  /** Promotion moves whole entries: it never overwrites, drops or invents one. */
  lemma PromoteKeepsEntries(s: Address, q: SenderQueue, current: U64)
    requires Keyed(s, q)
    ensures Keyed(s, Promote(q, current))
    ensures forall e :: InQueue(Promote(q, current), e) <==> InQueue(q, e)
    ensures NoDouble(q) ==> NoDouble(Promote(q, current))
  {
    var next := NextNonce(q, current);
    var k := RunLength(q.queued, next);
    assert forall n :: n in q.pending ==> !(next <= n < next + k);
    assert forall e :: InQueue(Promote(q, current), e) <==> InQueue(q, e);
  }

  lemma PromoteTops(q: SenderQueue, current: U64)
    ensures Topped(Promote(q, current))
    ensures Topped(q) && q.pending != map[] ==> Promote(q, current) == q
  {
    var next := NextNonce(q, current);
    var k := RunLength(q.queued, next);
    var q' := Promote(q, current);
    if q'.pending != map[] {
      if k > 0 {
        assert next + k - 1 in q'.pending;
        assert MaxKey(q'.pending) == next + k - 1;
      } else {
        assert q'.pending == q.pending;
      }
    }
    if Topped(q) && q.pending != map[] {
      assert k == 0;
      assert q'.queued == q.queued;
      assert q'.pending == q.pending;
    }
  }

  lemma MoveSize(a: Lane, b: Lane, a': Lane, b': Lane, moved: set<Nonce>)
    requires forall n :: n in moved ==> n !in a && n in b
    requires forall n :: n in a' <==> n in a || n in moved
    requires forall n :: n in b' <==> n in b && n !in moved
    ensures |a'| + |b'| == |a| + |b| && |b'| <= |b|
  {
    DisjointUnionSize(a.Keys, moved, a'.Keys);
    DisjointUnionSize(b'.Keys, moved, b.Keys);
  }

  lemma ShiftKeepsSize(q: SenderQueue, next: U64, k: nat)
    requires forall n :: n in q.pending ==> !(next <= n < next + k)
    ensures |Shift(q, next, k).pending| + |Shift(q, next, k).queued| == |q.pending| + |q.queued|
    ensures |Shift(q, next, k).queued| <= |q.queued|
  {
    var q' := Shift(q, next, k);
    var moved: set<Nonce> := set n | n in q.queued && next <= n < next + k;
    MoveSize(q.pending, q.queued, q'.pending, q'.queued, moved);
  }

  lemma PromoteKeepsSize(q: SenderQueue, current: U64)
    ensures |Promote(q, current).pending| + |Promote(q, current).queued| == |q.pending| + |q.queued|
    ensures |Promote(q, current).queued| <= |q.queued|
  {
    var next := NextNonce(q, current);
    ShiftKeepsSize(q, next, RunLength(q.queued, next));
  }

  // ----- Submission, one queue -----

  lemma InsertEffect(s: Address, q: SenderQueue, e: PoolEntry, current: U64)
    requires Keyed(s, q) && NoDouble(q)
    requires e.Sender() == s && !InQueue(q, e)
    ensures var q1 := Insert(q, IsPending(q, e.Nonce(), current), e);
            && Keyed(s, q1) && NoDouble(q1)
            && forall x :: InQueue(q1, x) <==> x == e || (InQueue(q, x) && Displaced(q, e, current) != Some(x))
  {
  }

  /** Only an entry that extends pending can leave the queue untopped, and then pending is within its own limit. */
  lemma InsertKeepsCaps(cfg: PoolConfig, q: SenderQueue, e: PoolEntry, current: U64)
    requires Topped(q) && WithinCaps(cfg, q)
    requires Refusal(cfg, q, e, current) == None
    ensures var q1 := Insert(q, IsPending(q, e.Nonce(), current), e);
            && WithinCaps(cfg, q1)
            && (|q1.pending| <= cfg.maxPending || (q1.pending != map[] && Topped(q1)))
  {
    var n, pending := e.Nonce(), IsPending(q, e.Nonce(), current);
    var q1 := Insert(q, pending, e);
    if pending && n in q.pending {
      SameKeysSameMax(q.pending, q1.pending);
    } else if !pending && q.pending != map[] {
      assert MaxKey(q.pending) + 1 != n;
    } else if !pending {
      assert |q.pending| == 0;
    }
  }

  lemma SameKeysSameMax(a: Lane, b: Lane)
    requires a != map[] && b != map[]
    requires forall n :: n in b <==> n in a
    ensures MaxKey(a) == MaxKey(b) && |a| == |b|
  {
    assert a.Keys == b.Keys;
  }

  /** Removing keys that leave a survivor, all of them below it, keeps the greatest key. */
  lemma SameMax(a: Lane, b: Lane)
    requires a != map[] && b != map[]
    requires forall n :: n in b ==> n in a
    requires forall m, n :: m in a && m !in b && n in b ==> m < n
    ensures MaxKey(a) == MaxKey(b)
  {
    assert MaxKey(a) in b by {
      assert MaxKey(b) in b;
    }
  }

  lemma SubmitKeepsCaps(cfg: PoolConfig, q: SenderQueue, e: PoolEntry, current: U64)
    requires Topped(q) && WithinCaps(cfg, q)
    requires Refusal(cfg, q, e, current) == None
    ensures var q' := Promote(Insert(q, IsPending(q, e.Nonce(), current), e), current);
            Topped(q') && WithinCaps(cfg, q')
  {
    var q1 := Insert(q, IsPending(q, e.Nonce(), current), e);
    InsertKeepsCaps(cfg, q, e, current);
    PromoteTops(q1, current);
    PromoteKeepsSize(q1, current);
  }

  // ----- Submission, the pool -----

  /** The lane of the sender's queue an accepted entry went to no longer holds the displaced one. */
  lemma SubmitQueueEffect(s: Address, q: SenderQueue, e: PoolEntry, current: U64)
    requires Keyed(s, q) && NoDouble(q)
    requires e.Sender() == s && !InQueue(q, e)
    ensures var q' := Promote(Insert(q, IsPending(q, e.Nonce(), current), e), current);
            && Keyed(s, q') && NoDouble(q')
            && forall x :: InQueue(q', x) <==> x == e || (InQueue(q, x) && Displaced(q, e, current) != Some(x))
  {
    var q1 := Insert(q, IsPending(q, e.Nonce(), current), e);
    InsertEffect(s, q, e, current);
    PromoteKeepsEntries(s, q1, current);
  }

  ghost function DisplacedSet(p: Pool, e: PoolEntry, current: U64): set<PoolEntry> {
    var out := Displaced(QueueOf(p, e.Sender()), e, current);
    if out.Some? then {out.value} else {}
  }

  lemma NotIndexedNotHeld(p: Pool, e: PoolEntry)
    requires WellKeyed(p) && IndexAgrees(Held(p), p.byHash) && e.Hash() !in p.byHash
    ensures e !in Held(p) && !InQueue(QueueOf(p, e.Sender()), e)
  {
    HeldIffHolds(p);
    assert !Holds(p, e);
  }

  /** Replacing one sender's queue changes what is held for that sender and nothing else. */
  lemma ReplaceQueue(p: Pool, p': Pool, s: Address, q': SenderQueue, e: PoolEntry, gone: set<PoolEntry>)
    requires p'.senders == p.senders[s := q']
    requires WellKeyed(p) && Keyed(s, q') && NoDouble(q') && e.Sender() == s
    requires forall x :: x in gone ==> x.Sender() == s
    requires forall x :: InQueue(q', x) <==> x == e || (InQueue(QueueOf(p, s), x) && x !in gone)
    ensures WellKeyed(p') && (forall x :: x in Held(p') <==> x == e || (x in Held(p) && x !in gone))
  {
    HeldIffHolds(p);
    HeldIffHolds(p');
    forall x
      ensures x in Held(p') <==> x == e || (x in Held(p) && x !in gone)
    {
      assert x.Sender() != s ==> (Holds(p', x) <==> Holds(p, x));
      if x.Sender() == s && InQueue(q', x) {
        assert Holds(p', x);
        assert x == e || (s in p.senders && Holds(p, x));
      }
      if x.Sender() == s && Holds(p', x) {
        assert InQueue(q', x);
        assert Keyed(s, q');
      }
    }
  }

  /** An accepted submission adds exactly its entry and removes exactly the one it displaced. */
  lemma SubmitEffect(cfg: PoolConfig, p: Pool, e: PoolEntry, current: U64)
    requires WellKeyed(p) && IndexAgrees(Held(p), p.byHash)
    requires Submit(cfg, p, e, current).1.Accepted?
    ensures var p' := Submit(cfg, p, e, current).0;
            var gone := DisplacedSet(p, e, current);
            && WellKeyed(p')
            && e !in Held(p) && gone <= Held(p)
            && (forall x :: x in Held(p') <==> x == e || (x in Held(p) && x !in gone))
  {
    var q := QueueOf(p, e.Sender());
    PlaceEffect(p, Submit(cfg, p, e, current).0, e, current,
                Promote(Insert(q, IsPending(q, e.Nonce(), current), e), current), DisplacedSet(p, e, current));
  }

  lemma PlaceEffect(p: Pool, p': Pool, e: PoolEntry, current: U64, q': SenderQueue, gone: set<PoolEntry>)
    requires WellKeyed(p) && IndexAgrees(Held(p), p.byHash) && e.Hash() !in p.byHash
    requires var q := QueueOf(p, e.Sender()); q' == Promote(Insert(q, IsPending(q, e.Nonce(), current), e), current)
    requires p'.senders == p.senders[e.Sender() := q'] && gone == DisplacedSet(p, e, current)
    ensures WellKeyed(p') && e !in Held(p) && gone <= Held(p)
    ensures forall x :: x in Held(p') <==> x == e || (x in Held(p) && x !in gone)
  {
    var s := e.Sender();
    NotIndexedNotHeld(p, e);
    assert Keyed(s, QueueOf(p, s)) && NoDouble(QueueOf(p, s));
    SubmitQueueEffect(s, QueueOf(p, s), e, current);
    DisplacedIsHeld(p, e, current);
    ReplaceQueue(p, p', s, q', e, gone);
  }

  lemma PromoteNothing(q: SenderQueue, current: U64)
    requires q.queued == map[]
    ensures Promote(q, current) == q
  {
    var q' := Promote(q, current);
    assert q'.pending == q.pending;
    assert q'.queued == q.queued;
  }

  /** With nothing queued, a fresh nonce of the pending lane is placed there and nothing else moves. */
  lemma SubmitToPending(cfg: PoolConfig, p: Pool, e: PoolEntry, current: U64)
    requires var q := QueueOf(p, e.Sender());
             && q.queued == map[] && IsPending(q, e.Nonce(), current)
             && e.Nonce() !in q.pending && |q.pending| < cfg.maxPending
    requires e.Hash() !in p.byHash && current <= e.Nonce()
    ensures var q := QueueOf(p, e.Sender());
            Submit(cfg, p, e, current)
            == (Pool(p.senders[e.Sender() := SenderQueue(q.pending[e.Nonce() := e], map[])], p.byHash[e.Hash() := e.Sender()]),
                Accepted(e.Hash()))
  {
    PromoteNothing(SenderQueue(QueueOf(p, e.Sender()).pending[e.Nonce() := e], map[]), current);
  }

  lemma DisplacedIsHeld(p: Pool, e: PoolEntry, current: U64)
    requires WellKeyed(p)
    ensures DisplacedSet(p, e, current) <= Held(p)
    ensures forall x :: x in DisplacedSet(p, e, current) ==> x.Sender() == e.Sender() && x.Nonce() == e.Nonce()
  {
    HeldIffHolds(p);
    var s := e.Sender();
    var out := Displaced(QueueOf(p, s), e, current);
    if out.Some? {
      assert s in p.senders && Keyed(s, p.senders[s]);
      assert Holds(p, out.value);
    }
  }

  lemma SubmitIndex(cfg: PoolConfig, p: Pool, e: PoolEntry, current: U64)
    requires Submit(cfg, p, e, current).1.Accepted?
    ensures e.Hash() !in p.byHash
    ensures Submit(cfg, p, e, current).0.byHash
            == (p.byHash - (set x | x in DisplacedSet(p, e, current) :: x.Hash()))[e.Hash() := e.Sender()]
  {
  }

  lemma SubmitKeepsIndex(cfg: PoolConfig, p: Pool, p': Pool, e: PoolEntry, gone: set<PoolEntry>)
    requires IndexAgrees(Held(p), p.byHash) && gone <= Held(p) && e.Hash() !in p.byHash
    requires forall x :: x in Held(p') <==> x == e || (x in Held(p) && x !in gone)
    requires p'.byHash == (p.byHash - (set x | x in gone :: x.Hash()))[e.Hash() := e.Sender()]
    ensures IndexAgrees(Held(p'), p'.byHash)
  {
    var held, index := Held(p) - gone, p.byHash - (set x | x in gone :: x.Hash());
    IndexAfterDrop(Held(p), p.byHash, held, index, gone);
    IndexAfterAdd(held, index, Held(p'), p'.byHash, e);
  }

  /** A rejected submission changes no entry and no index record. */
  lemma RejectionChangesNothing(cfg: PoolConfig, p: Pool, e: PoolEntry, current: U64)
    requires Submit(cfg, p, e, current).1.Rejected?
    ensures Submit(cfg, p, e, current).0.byHash == p.byHash
    ensures forall s :: QueueOf(Submit(cfg, p, e, current).0, s) == QueueOf(p, s)
    ensures Held(Submit(cfg, p, e, current).0) == Held(p)
  {
    var p' := Submit(cfg, p, e, current).0;
    forall x
      ensures x in Held(p') <==> x in Held(p)
    {
      if x in Held(p) {
        var s :| s in p.senders && x in Entries(p.senders[s]);
        assert s in p'.senders;
      }
    }
  }

  lemma SubmitKeepsCapped(cfg: PoolConfig, p: Pool, e: PoolEntry, current: U64)
    requires Capped(cfg, p)
    ensures Capped(cfg, Submit(cfg, p, e, current).0)
  {
    var (p', r) := Submit(cfg, p, e, current);
    var s := e.Sender();
    var q := QueueOf(p, s);
    assert Topped(q) && WithinCaps(cfg, q);
    if r.Accepted? {
      SubmitKeepsCaps(cfg, q, e, current);
      ReplaceCapped(cfg, p, p', s, Promote(Insert(q, IsPending(q, e.Nonce(), current), e), current));
    } else if p' != p {
      ReplaceCapped(cfg, p, p', s, q);
    }
  }

  lemma ReplaceCapped(cfg: PoolConfig, p: Pool, p': Pool, s: Address, q: SenderQueue)
    requires Capped(cfg, p) && Topped(q) && WithinCaps(cfg, q)
    requires p'.senders == p.senders[s := q]
    ensures Capped(cfg, p')
  {
  }

  lemma SubmitKeepsSound(cfg: PoolConfig, p: Pool, e: PoolEntry, current: U64)
    requires Sound(cfg, p)
    ensures Sound(cfg, Submit(cfg, p, e, current).0)
  {
    var (p', r) := Submit(cfg, p, e, current);
    SubmitKeepsCapped(cfg, p, e, current);
    if r.Accepted? {
      SubmitEffect(cfg, p, e, current);
      SubmitIndex(cfg, p, e, current);
      SubmitKeepsIndex(cfg, p, p', e, DisplacedSet(p, e, current));
    } else {
      RejectionChangesNothing(cfg, p, e, current);
      RejectionKeepsKeys(cfg, p, e, current);
    }
  }

  lemma RejectionKeepsKeys(cfg: PoolConfig, p: Pool, e: PoolEntry, current: U64)
    requires WellKeyed(p) && Submit(cfg, p, e, current).1.Rejected?
    ensures WellKeyed(Submit(cfg, p, e, current).0)
  {
    var p' := Submit(cfg, p, e, current).0;
    assert forall s :: s in p'.senders ==> p'.senders[s] == QueueOf(p, s);
  }

  // ----- Collection -----

  /** The entries a collection takes out: the heads of the senders taken. */
  ghost function Heads(p: Pool, taken: set<Address>): set<PoolEntry>
    requires Collectable(p, taken)
  {
    set s | s in taken :: Head(p.senders[s])
  }

  lemma DropHeadEffect(s: Address, q: SenderQueue)
    requires Keyed(s, q) && NoDouble(q) && q.pending != map[]
    ensures Keyed(s, DropHead(q)) && NoDouble(DropHead(q))
    ensures InQueue(q, Head(q)) && Head(q).Sender() == s
    ensures forall e :: InQueue(DropHead(q), e) <==> InQueue(q, e) && e != Head(q)
  {
    assert Head(q).Nonce() == MinKey(q.pending);
  }

  lemma DropHeadKeepsCaps(cfg: PoolConfig, q: SenderQueue)
    requires Topped(q) && WithinCaps(cfg, q) && q.pending != map[]
    ensures Topped(DropHead(q)) && WithinCaps(cfg, DropHead(q))
  {
    var rest := DropHead(q).pending;
    SubsetSize(rest.Keys, q.pending.Keys);
    if rest != map[] {
      SameMax(q.pending, rest);
    }
  }

  lemma CollectEffect(p: Pool, taken: set<Address>)
    requires WellKeyed(p) && Collectable(p, taken)
    ensures WellKeyed(Collect(p, taken))
    ensures Heads(p, taken) <= Held(p)
    ensures forall e :: e in Held(Collect(p, taken)) <==> e in Held(p) && e !in Heads(p, taken)
  {
    var p' := Collect(p, taken);
    forall s | s in taken
      ensures Keyed(s, p'.senders[s]) && NoDouble(p'.senders[s])
      ensures Holds(p, Head(p.senders[s])) && Head(p.senders[s]).Sender() == s
      ensures forall e :: InQueue(p'.senders[s], e) <==> InQueue(p.senders[s], e) && e != Head(p.senders[s])
    {
      DropHeadEffect(s, p.senders[s]);
    }
    HeldIffHolds(p);
    HeldIffHolds(p');
    forall e
      ensures e in Held(p') <==> e in Held(p) && e !in Heads(p, taken)
    {
      var s := e.Sender();
      if s in taken {
        assert e in Heads(p, taken) <==> e == Head(p.senders[s]);
      } else {
        assert e !in Heads(p, taken);
      }
    }
  }

  lemma CollectKeepsCapped(cfg: PoolConfig, p: Pool, taken: set<Address>)
    requires Capped(cfg, p) && Collectable(p, taken)
    ensures Capped(cfg, Collect(p, taken))
  {
    forall s | s in taken
      ensures Topped(DropHead(p.senders[s])) && WithinCaps(cfg, DropHead(p.senders[s]))
    {
      DropHeadKeepsCaps(cfg, p.senders[s]);
    }
  }

  lemma CollectIndex(p: Pool, taken: set<Address>)
    requires Collectable(p, taken)
    ensures var index := Collect(p, taken).byHash;
            && (forall h :: h in index <==> h in p.byHash && forall e :: e in Heads(p, taken) ==> e.Hash() != h)
            && (forall h :: h in index ==> index[h] == p.byHash[h])
  {
  }

  lemma CollectKeepsSound(cfg: PoolConfig, p: Pool, taken: set<Address>)
    requires Sound(cfg, p) && Collectable(p, taken)
    ensures Sound(cfg, Collect(p, taken))
  {
    var p' := Collect(p, taken);
    CollectEffect(p, taken);
    CollectIndex(p, taken);
    IndexAfterDrop(Held(p), p.byHash, Held(p'), p'.byHash, Heads(p, taken));
    CollectKeepsCapped(cfg, p, taken);
  }

  // ----- Commit -----

  lemma EvictKeepsCaps(cfg: PoolConfig, q: SenderQueue, current: U64)
    requires Topped(q) && WithinCaps(cfg, q)
    ensures Topped(Evict(q, current)) && WithinCaps(cfg, Evict(q, current))
  {
    var q' := Evict(q, current);
    SubsetSize(q'.pending.Keys, q.pending.Keys);
    SubsetSize(q'.queued.Keys, q.queued.Keys);
    if q'.pending != map[] {
      SameMax(q.pending, q'.pending);
    }
  }

  lemma SettleKeepsCaps(cfg: PoolConfig, q: SenderQueue, current: U64)
    requires Topped(q) && WithinCaps(cfg, q)
    ensures Topped(Settle(q, current)) && WithinCaps(cfg, Settle(q, current))
  {
    var q1 := Evict(q, current);
    EvictKeepsCaps(cfg, q, current);
    PromoteTops(q1, current);
    PromoteKeepsSize(q1, current);
  }

  lemma SettleEffect(s: Address, q: SenderQueue, current: U64)
    requires Keyed(s, q) && NoDouble(q)
    ensures Keyed(s, Settle(q, current)) && NoDouble(Settle(q, current))
    ensures forall e :: InQueue(Settle(q, current), e) <==> InQueue(q, e) && e.Nonce() >= current
  {
    var q1 := Evict(q, current);
    assert forall e :: InQueue(q1, e) <==> InQueue(q, e) && e.Nonce() >= current;
    PromoteKeepsEntries(s, q1, current);
  }

  /** The entries a commit has to drop: those below their account's nonce. */
  ghost function Stale(p: Pool, nonceOf: NonceLookup): set<PoolEntry> {
    set e | e in Held(p) && e.Nonce() < nonceOf(e.Sender())
  }

  lemma CommitHolds(p: Pool, nonceOf: NonceLookup, e: PoolEntry)
    requires WellKeyed(p)
    ensures Holds(Commit(p, nonceOf), e) <==> Holds(p, e) && e.Nonce() >= nonceOf(e.Sender())
  {
    var s := e.Sender();
    if s in p.senders {
      SettleEffect(s, p.senders[s], nonceOf(s));
    }
  }

  lemma CommitKeepsKeys(p: Pool, nonceOf: NonceLookup)
    requires WellKeyed(p)
    ensures WellKeyed(Commit(p, nonceOf))
  {
    forall s | s in Commit(p, nonceOf).senders
      ensures Keyed(s, Settle(p.senders[s], nonceOf(s))) && NoDouble(Settle(p.senders[s], nonceOf(s)))
    {
      SettleEffect(s, p.senders[s], nonceOf(s));
    }
  }

  /** A commit drops exactly the stale entries. */
  lemma CommitEffect(p: Pool, nonceOf: NonceLookup)
    requires WellKeyed(p)
    ensures WellKeyed(Commit(p, nonceOf))
    ensures forall e :: e in Held(Commit(p, nonceOf)) <==> e in Held(p) && e !in Stale(p, nonceOf)
  {
    CommitKeepsKeys(p, nonceOf);
    HeldIffHolds(p);
    HeldIffHolds(Commit(p, nonceOf));
    forall e
      ensures e in Held(Commit(p, nonceOf)) <==> e in Held(p) && e !in Stale(p, nonceOf)
    {
      CommitHolds(p, nonceOf, e);
    }
  }

  lemma QueueStaleHashes(s: Address, q: SenderQueue, current: U64, h: Hash)
    requires Keyed(s, q)
    ensures h in StaleHashes(q, current) <==> exists e :: InQueue(q, e) && e.Hash() == h && e.Nonce() < current
  {
    if h in StaleHashes(q, current) {
      if n :| n in q.pending && n < current && q.pending[n].Hash() == h {
        assert InQueue(q, q.pending[n]);
      } else {
        var n :| n in q.queued && n < current && q.queued[n].Hash() == h;
        assert InQueue(q, q.queued[n]);
      }
    }
  }

  lemma StaleHashIsHeld(p: Pool, nonceOf: NonceLookup, s: Address, h: Hash)
    requires WellKeyed(p) && s in p.senders && h in StaleHashes(p.senders[s], nonceOf(s))
    ensures exists e :: e in Stale(p, nonceOf) && e.Hash() == h
  {
    HeldIffHolds(p);
    QueueStaleHashes(s, p.senders[s], nonceOf(s), h);
    var e :| InQueue(p.senders[s], e) && e.Hash() == h && e.Nonce() < nonceOf(s);
    assert Keyed(s, p.senders[s]) && Holds(p, e);
    assert e in Stale(p, nonceOf);
  }

  lemma StaleEntryIsSwept(p: Pool, nonceOf: NonceLookup, e: PoolEntry)
    requires WellKeyed(p) && e in Stale(p, nonceOf)
    ensures e.Sender() in p.senders && e.Hash() in StaleHashes(p.senders[e.Sender()], nonceOf(e.Sender()))
  {
    HeldIffHolds(p);
    assert Holds(p, e);
    QueueStaleHashes(e.Sender(), p.senders[e.Sender()], nonceOf(e.Sender()), e.Hash());
  }

  /** The hashes a commit sweeps out are exactly those of the stale entries. */
  lemma SweptHashes(p: Pool, nonceOf: NonceLookup, h: Hash)
    requires WellKeyed(p)
    ensures h in UnionOf(StaleAll(p.senders, nonceOf)) <==> exists e :: e in Stale(p, nonceOf) && e.Hash() == h
  {
    if h in UnionOf(StaleAll(p.senders, nonceOf)) {
      var s :| s in p.senders && h in StaleHashes(p.senders[s], nonceOf(s));
      StaleHashIsHeld(p, nonceOf, s, h);
    }
    if e :| e in Stale(p, nonceOf) && e.Hash() == h {
      StaleEntryIsSwept(p, nonceOf, e);
      var sets := StaleAll(p.senders, nonceOf);
      assert e.Sender() in sets && h in sets[e.Sender()];
    }
  }

  lemma CommitIndex(p: Pool, nonceOf: NonceLookup)
    requires WellKeyed(p)
    ensures var index := Commit(p, nonceOf).byHash;
            && (forall h :: h in index <==> h in p.byHash && forall e :: e in Stale(p, nonceOf) ==> e.Hash() != h)
            && (forall h :: h in index ==> index[h] == p.byHash[h])
  {
    forall h
      ensures h in UnionOf(StaleAll(p.senders, nonceOf)) <==> exists e :: e in Stale(p, nonceOf) && e.Hash() == h
    {
      SweptHashes(p, nonceOf, h);
    }
  }

  lemma CommitKeepsCapped(cfg: PoolConfig, p: Pool, nonceOf: NonceLookup)
    requires Capped(cfg, p)
    ensures Capped(cfg, Commit(p, nonceOf))
  {
    forall s | s in p.senders
      ensures Topped(Settle(p.senders[s], nonceOf(s))) && WithinCaps(cfg, Settle(p.senders[s], nonceOf(s)))
    {
      SettleKeepsCaps(cfg, p.senders[s], nonceOf(s));
    }
  }

  lemma CommitKeepsSound(cfg: PoolConfig, p: Pool, nonceOf: NonceLookup)
    requires Sound(cfg, p)
    ensures Sound(cfg, Commit(p, nonceOf))
  {
    var p' := Commit(p, nonceOf);
    CommitEffect(p, nonceOf);
    CommitIndex(p, nonceOf);
    IndexAfterDrop(Held(p), p.byHash, Held(p'), p'.byHash, Stale(p, nonceOf));
    CommitKeepsCapped(cfg, p, nonceOf);
  }
}
