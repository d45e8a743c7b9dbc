/**
 Whole runs of the pool: any interleaving of submissions, collections and commits, from the
 empty pool, with nonce lookups that may answer anything.
 */
module PoolRuns {
  import opened Primitives
  import opened Finite
  import opened Transactions
  import opened PoolModel
  import opened PoolInvariants

  /** One atomic call. A collection is recorded by the senders whose heads it took. */
  datatype Event =
    | SubmitTx(tx: VerifiedTx, current: U64)
    | CollectHeads(taken: set<Address>)
    | CommitAt(nonceOf: NonceLookup)

  ghost predicate Step(cfg: PoolConfig, p: Pool, ev: Event, p': Pool) {
    match ev
    case SubmitTx(tx, current) => p' == Submit(cfg, p, NewEntry(cfg, tx), current).0
    case CollectHeads(taken) => Collectable(p, taken) && p' == Collect(p, taken)
    case CommitAt(nonceOf) => p' == Commit(p, nonceOf)
  }

  ghost predicate IsRun(cfg: PoolConfig, evs: seq<Event>, ps: seq<Pool>) {
    && |ps| == |evs| + 1
    && ps[0] == EMPTY_POOL
    && forall i :: 0 <= i < |evs| && At(i) ==> Step(cfg, ps[i], evs[i], ps[i + 1])
  }

  lemma StepKeepsSound(cfg: PoolConfig, p: Pool, ev: Event, p': Pool)
    requires Sound(cfg, p) && Step(cfg, p, ev, p')
    ensures Sound(cfg, p')
  {
    match ev
    case SubmitTx(tx, current) => SubmitKeepsSound(cfg, p, NewEntry(cfg, tx), current);
    case CollectHeads(taken) => CollectKeepsSound(cfg, p, taken);
    case CommitAt(nonceOf) => CommitKeepsSound(cfg, p, nonceOf);
  }

  lemma RunStep(cfg: PoolConfig, evs: seq<Event>, ps: seq<Pool>, i: nat, j: nat)
    requires IsRun(cfg, evs, ps) && i < |evs| && j == i + 1
    ensures Step(cfg, ps[i], evs[i], ps[j])
  {
    assert At(i);
  }

  lemma EmptyIsSound(cfg: PoolConfig)
    ensures Held(EMPTY_POOL) == {} && Sound(cfg, EMPTY_POOL)
  {
  }

  lemma RunStepKeepsSound(cfg: PoolConfig, evs: seq<Event>, ps: seq<Pool>, i: nat, j: nat)
    requires IsRun(cfg, evs, ps) && i < |evs| && j == i + 1
    requires Sound(cfg, ps[i])
    ensures Sound(cfg, ps[j])
  {
    RunStep(cfg, evs, ps, i, j);
    StepKeepsSound(cfg, ps[i], evs[i], ps[j]);
  }

  lemma {:induction false} RunIsSound(cfg: PoolConfig, evs: seq<Event>, ps: seq<Pool>, i: nat)
    requires IsRun(cfg, evs, ps) && i < |ps|
    ensures Sound(cfg, ps[i])
    decreases i
  {
    if i == 0 {
      EmptyIsSound(cfg);
    } else {
      RunIsSound(cfg, evs, ps, i - 1);
      RunStepKeepsSound(cfg, evs, ps, i - 1, i);
    }
  }

  // ----- Capacity -----

  /** Promotion may overfill pending, but only by what the queue could hold. */
  lemma CapacityOnEveryRun(cfg: PoolConfig, evs: seq<Event>, ps: seq<Pool>, i: nat, s: Address)
    requires IsRun(cfg, evs, ps) && i < |ps| && s in ps[i].senders
    ensures |ps[i].senders[s].queued| <= cfg.maxQueued
    ensures |ps[i].senders[s].pending| <= cfg.maxPending + cfg.maxQueued
    ensures ps[i].senders[s].pending != map[] ==> MaxKey(ps[i].senders[s].pending) + 1 !in ps[i].senders[s].queued
  {
    RunIsSound(cfg, evs, ps, i);
    assert Topped(ps[i].senders[s]) && WithinCaps(cfg, ps[i].senders[s]);
  }

  // ----- Index agreement and counts -----

  datatype Slot = Slot(sender: Address, pending: bool, nonce: Nonce)

  function PendingSlots(p: Pool): set<Slot> {
    set s, n | s in p.senders && n in p.senders[s].pending :: Slot(s, true, n)
  }

  function QueuedSlots(p: Pool): set<Slot> {
    set s, n | s in p.senders && n in p.senders[s].queued :: Slot(s, false, n)
  }

  function EntryAt(p: Pool, at: Slot): PoolEntry
    requires at in PendingSlots(p) || at in QueuedSlots(p)
  {
    if at.pending then p.senders[at.sender].pending[at.nonce] else p.senders[at.sender].queued[at.nonce]
  }

  lemma SlotsAreDistinct(p: Pool, a: Slot, b: Slot)
    requires WellKeyed(p) && IndexAgrees(Held(p), p.byHash)
    requires a in PendingSlots(p) || a in QueuedSlots(p)
    requires b in PendingSlots(p) || b in QueuedSlots(p)
    requires EntryAt(p, a).Hash() == EntryAt(p, b).Hash()
    ensures a == b
  {
    HeldIffHolds(p);
    var e, f := EntryAt(p, a), EntryAt(p, b);
    assert Keyed(a.sender, p.senders[a.sender]) && Keyed(b.sender, p.senders[b.sender]);
    assert Holds(p, e) && Holds(p, f);
    assert e == f;
    assert NoDouble(p.senders[a.sender]);
  }

  /** The hash in every slot, pending and queued. */
  ghost function SlotHashes(p: Pool): map<Slot, Hash> {
    map at | at in PendingSlots(p) + QueuedSlots(p) :: EntryAt(p, at).Hash()
  }

  lemma SlotHashIsIndexed(p: Pool, at: Slot)
    requires WellKeyed(p) && IndexAgrees(Held(p), p.byHash)
    requires at in PendingSlots(p) || at in QueuedSlots(p)
    ensures EntryAt(p, at).Hash() in p.byHash
  {
    HeldIffHolds(p);
    assert Keyed(at.sender, p.senders[at.sender]);
    assert Holds(p, EntryAt(p, at));
  }

  lemma IndexedHashHasSlot(p: Pool, h: Hash) returns (at: Slot)
    requires IndexAgrees(Held(p), p.byHash) && h in p.byHash
    ensures at in PendingSlots(p) || at in QueuedSlots(p)
    ensures EntryAt(p, at).Hash() == h
  {
    var e :| e in Held(p) && e.Hash() == h;
    var s :| s in p.senders && e in Entries(p.senders[s]);
    var q := p.senders[s];
    if n :| n in q.pending && q.pending[n] == e {
      at := Slot(s, true, n);
    } else {
      var n :| n in q.queued && q.queued[n] == e;
      at := Slot(s, false, n);
    }
  }

  lemma SlotHashesAreIndexed(p: Pool)
    requires WellKeyed(p) && IndexAgrees(Held(p), p.byHash)
    ensures SlotHashes(p).Values == p.byHash.Keys
  {
    var m := SlotHashes(p);
    forall at | at in m
      ensures m[at] in p.byHash
    {
      SlotHashIsIndexed(p, at);
    }
    forall h | h in p.byHash
      ensures h in m.Values
    {
      var at := IndexedHashHasSlot(p, h);
      assert at in m;
    }
  }

  lemma CountsMatchIndex(p: Pool)
    requires WellKeyed(p) && IndexAgrees(Held(p), p.byHash)
    ensures |PendingSlots(p)| + |QueuedSlots(p)| == |p.byHash|
  {
    var m := SlotHashes(p);
    DisjointUnionSize(PendingSlots(p), QueuedSlots(p), m.Keys);
    forall a, b | a in m && b in m && m[a] == m[b]
      ensures a == b
    {
      SlotsAreDistinct(p, a, b);
    }
    InjectiveSize(m);
    SlotHashesAreIndexed(p);
  }

  /**
   On every run, `by_hash` relates a hash to a sender exactly when the pool holds that sender's
   entry with that hash; held hashes are distinct; and the two counts add up to its size.
   */
  lemma IndexOnEveryRun(cfg: PoolConfig, evs: seq<Event>, ps: seq<Pool>, i: nat)
    requires IsRun(cfg, evs, ps) && i < |ps|
    ensures var p := ps[i];
            && (forall h :: h in p.byHash <==> exists e :: Holds(p, e) && e.Hash() == h)
            && (forall e :: Holds(p, e) ==> e.Hash() in p.byHash && p.byHash[e.Hash()] == e.Sender())
            && (forall e, f :: Holds(p, e) && Holds(p, f) && e.Hash() == f.Hash() ==> e == f)
            && |PendingSlots(p)| + |QueuedSlots(p)| == |p.byHash|
  {
    var p := ps[i];
    RunIsSound(cfg, evs, ps, i);
    HeldIffHolds(p);
    CountsMatchIndex(p);
    forall h | h in p.byHash
      ensures exists e :: Holds(p, e) && e.Hash() == h
    {
      var e :| e in Held(p) && e.Hash() == h;
      assert Holds(p, e);
    }
  }

  // ----- Conservation -----

  /** Where accepted entries have gone. */
  datatype Ledger = Ledger(
    accepted: multiset<PoolEntry>,
    collected: multiset<PoolEntry>,
    replaced: multiset<PoolEntry>,
    evicted: multiset<PoolEntry>)

  ghost function Book(cfg: PoolConfig, p: Pool, ev: Event, l: Ledger): Ledger
    requires ev.CollectHeads? ==> Collectable(p, ev.taken)
  {
    match ev
    case SubmitTx(tx, current) =>
      var e := NewEntry(cfg, tx);
      if Submit(cfg, p, e, current).1.Rejected? then l
      else l.(accepted := l.accepted + multiset{e},
              replaced := l.replaced + multiset(DisplacedSet(p, e, current)))
    case CollectHeads(taken) => l.(collected := l.collected + multiset(Heads(p, taken)))
    case CommitAt(nonceOf) => l.(evicted := l.evicted + multiset(Stale(p, nonceOf)))
  }

  ghost predicate IsBooked(cfg: PoolConfig, evs: seq<Event>, ps: seq<Pool>, ls: seq<Ledger>)
    requires IsRun(cfg, evs, ps)
  {
    && |ls| == |ps|
    && ls[0] == Ledger(multiset{}, multiset{}, multiset{}, multiset{})
    && forall i :: 0 <= i < |evs| && At(i) ==>
                     assert Step(cfg, ps[i], evs[i], ps[i + 1]);
                     ls[i + 1] == Book(cfg, ps[i], evs[i], ls[i])
  }

  ghost predicate Balanced(p: Pool, l: Ledger) {
    l.accepted == multiset(Held(p)) + l.collected + l.replaced + l.evicted
  }

  lemma EmptyIsBalanced()
    ensures Balanced(EMPTY_POOL, Ledger(multiset{}, multiset{}, multiset{}, multiset{}))
  {
    assert Held(EMPTY_POOL) == {};
  }

  lemma BookedStart(cfg: PoolConfig, evs: seq<Event>, ps: seq<Pool>, ls: seq<Ledger>)
    requires IsRun(cfg, evs, ps) && IsBooked(cfg, evs, ps, ls)
    ensures Balanced(ps[0], ls[0])
  {
    EmptyIsBalanced();
  }

  lemma SplitMultiset(held: set<PoolEntry>, held': set<PoolEntry>, gone: set<PoolEntry>)
    requires gone <= held
    requires forall e :: e in held' <==> e in held && e !in gone
    ensures multiset(held) == multiset(held') + multiset(gone)
  {
  }

  lemma SwapMultiset(held: set<PoolEntry>, held': set<PoolEntry>, gone: set<PoolEntry>, e: PoolEntry)
    requires gone <= held && e !in held
    requires forall x :: x in held' <==> x == e || (x in held && x !in gone)
    ensures multiset(held) + multiset{e} == multiset(held') + multiset(gone)
  {
  }

  /** Books stay balanced when what leaves the pool is entered once in any one account. */
  lemma Rebalance(l: Ledger, held: multiset<PoolEntry>, held': multiset<PoolEntry>,
                  added: multiset<PoolEntry>, gone: multiset<PoolEntry>)
    requires l.accepted == held + l.collected + l.replaced + l.evicted
    requires held + added == held' + gone
    ensures l.accepted + added == held' + (l.collected + gone) + l.replaced + l.evicted
    ensures l.accepted + added == held' + l.collected + (l.replaced + gone) + l.evicted
    ensures l.accepted + added == held' + l.collected + l.replaced + (l.evicted + gone)
  {
    assert l.accepted + added == (held + added) + l.collected + l.replaced + l.evicted;
  }

  lemma SubmitKeepsBalance(cfg: PoolConfig, p: Pool, e: PoolEntry, current: U64, p': Pool, l: Ledger)
    requires WellKeyed(p) && IndexAgrees(Held(p), p.byHash) && Balanced(p, l)
    requires p' == Submit(cfg, p, e, current).0 && Submit(cfg, p, e, current).1.Accepted?
    ensures Balanced(p', l.(accepted := l.accepted + multiset{e},
                            replaced := l.replaced + multiset(DisplacedSet(p, e, current))))
  {
    var gone := DisplacedSet(p, e, current);
    SubmitEffect(cfg, p, e, current);
    SwapMultiset(Held(p), Held(p'), gone, e);
    Rebalance(l, multiset(Held(p)), multiset(Held(p')), multiset{e}, multiset(gone));
  }

  lemma DropKeepsBalance(p: Pool, p': Pool, gone: set<PoolEntry>, l: Ledger)
    requires Balanced(p, l) && gone <= Held(p)
    requires forall e :: e in Held(p') <==> e in Held(p) && e !in gone
    ensures Balanced(p', l.(collected := l.collected + multiset(gone)))
    ensures Balanced(p', l.(evicted := l.evicted + multiset(gone)))
  {
    SplitMultiset(Held(p), Held(p'), gone);
    Rebalance(l, multiset(Held(p)), multiset(Held(p')), multiset{}, multiset(gone));
    assert l.accepted + multiset{} == l.accepted;
  }

  lemma StepKeepsBalance(cfg: PoolConfig, p: Pool, ev: Event, p': Pool, l: Ledger)
    requires Sound(cfg, p) && Step(cfg, p, ev, p') && Balanced(p, l)
    ensures Balanced(p', Book(cfg, p, ev, l))
  {
    match ev
    case SubmitTx(tx, current) =>
      var e := NewEntry(cfg, tx);
      if Submit(cfg, p, e, current).1.Accepted? {
        SubmitKeepsBalance(cfg, p, e, current, p', l);
      } else {
        RejectionChangesNothing(cfg, p, e, current);
      }
    case CollectHeads(taken) =>
      CollectEffect(p, taken);
      DropKeepsBalance(p, p', Heads(p, taken), l);
    case CommitAt(nonceOf) =>
      CommitEffect(p, nonceOf);
      DropKeepsBalance(p, p', Stale(p, nonceOf), l);
  }

  lemma RunStepKeepsBalance(cfg: PoolConfig, evs: seq<Event>, ps: seq<Pool>, ls: seq<Ledger>, i: nat, j: nat)
    requires IsRun(cfg, evs, ps) && IsBooked(cfg, evs, ps, ls) && i < |evs| && j == i + 1
    requires Sound(cfg, ps[i]) && Balanced(ps[i], ls[i])
    ensures Balanced(ps[j], ls[j])
  {
    assert At(i);
    RunStep(cfg, evs, ps, i, j);
    StepKeepsBalance(cfg, ps[i], evs[i], ps[j], ls[i]);
  }

  /** On every run: accepted = in the pool + collected + replaced + evicted as stale. */
  lemma {:induction false} ConservationOnEveryRun(cfg: PoolConfig, evs: seq<Event>, ps: seq<Pool>, ls: seq<Ledger>, i: nat)
    requires IsRun(cfg, evs, ps) && IsBooked(cfg, evs, ps, ls) && i < |ps|
    ensures Balanced(ps[i], ls[i])
    decreases i
  {
    if i == 0 {
      BookedStart(cfg, evs, ps, ls);
    } else {
      ConservationOnEveryRun(cfg, evs, ps, ls, i - 1);
      RunIsSound(cfg, evs, ps, i - 1);
      RunStepKeepsBalance(cfg, evs, ps, ls, i - 1, i);
    }
  }
}
