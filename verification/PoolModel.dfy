/**
 The transaction pool of crates/txpool/src/lib.rs as values: per-sender pending and queued
 nonce maps, the hash index, and what one call of each public operation does to them.
 The class in TxPool.dfy is proved against these functions.
 */
module PoolModel {
  import opened Primitives
  import opened Finite
  import opened Transactions

  /** `100 + pct` must be a u64. */
  type BumpPct = x: int | 0 <= x < TWO_64 - 100

  datatype PoolConfig = PoolConfig(maxPending: nat, maxQueued: nat, bumpPct: BumpPct, baseFee: U64)

  datatype PoolEntry = PoolEntry(verified: VerifiedTx, tip: U64) {
    function Sender(): Address { verified.sender }
    function Nonce(): Nonce { verified.envelope.nonce }
    function Hash(): Hash { verified.txHash }
    function Gas(): U64 { verified.envelope.gasLimit }
    function Raw(): Bytes { verified.raw }
  }

  type Lane = map<Nonce, PoolEntry>

  datatype SenderQueue = SenderQueue(pending: Lane, queued: Lane)

  datatype Pool = Pool(senders: map<Address, SenderQueue>, byHash: map<Hash, Address>)

  const EMPTY_QUEUE := SenderQueue(map[], map[])
  const EMPTY_POOL := Pool(map[], map[])

  /** Nonce lookup: the account nonce of every address at one moment. */
  type NonceLookup = Address -> U64

  datatype SubmitError = Undecodable | AlreadyKnown | StaleNonce | Underpriced(minTip: U64) | QueueFull

  datatype SubmitResult = Accepted(hash: Hash) | Rejected(error: SubmitError)

  function NewEntry(cfg: PoolConfig, tx: VerifiedTx): PoolEntry {
    PoolEntry(tx, EffectiveGasTip(tx.envelope, cfg.baseFee))
  }

  function QueueOf(p: Pool, s: Address): SenderQueue {
    if s in p.senders then p.senders[s] else EMPTY_QUEUE
  }

  // ----- Promotion -----

  /** How many consecutive nonces, starting at `next`, are queued. */
  function RunLength(queued: Lane, next: U64): (k: nat)
    ensures forall n :: next <= n < next + k ==> n in queued
    ensures next + k !in queued
    decreases TWO_64 - next
  {
    if next in queued then 1 + RunLength(queued, next + 1) else 0
  }

  /** Move the queued nonces in [next, next + k) to pending. */
  function Shift(q: SenderQueue, next: U64, k: nat): SenderQueue {
    SenderQueue(
      q.pending + (map n | n in q.queued && next <= n < next + k :: q.queued[n]),
      map n | n in q.queued && !(next <= n < next + k) :: q.queued[n])
  }

  function NextNonce(q: SenderQueue, current: U64): U64 {
    if q.pending == map[] then current else MaxKey(q.pending) + 1
  }

  /** `promote_queued_static`. */
  function Promote(q: SenderQueue, current: U64): SenderQueue {
    var next := NextNonce(q, current);
    Shift(q, next, RunLength(q.queued, next))
  }

  // ----- Submission -----

  predicate IsPending(q: SenderQueue, n: Nonce, current: U64) {
    n == current || SatSub(n, 1) in q.pending
  }

  /** The tip a replacement has to reach: a saturating product, then an integer division. */
  function MinTip(tip: U64, pct: BumpPct): U64 {
    MulNat(tip, 100 + pct);
    Min(tip * (100 + pct), TWO_64 - 1) / 100
  }

  function Target(q: SenderQueue, pending: bool): Lane {
    if pending then q.pending else q.queued
  }

  function Insert(q: SenderQueue, pending: bool, e: PoolEntry): SenderQueue {
    if pending
    then q.(pending := q.pending[e.Nonce() := e])
    else q.(queued := q.queued[e.Nonce() := e])
  }

  /** Why the sender's queue refuses the entry, if it does. */
  function Refusal(cfg: PoolConfig, q: SenderQueue, e: PoolEntry, current: U64): Option<SubmitError> {
    var pending := IsPending(q, e.Nonce(), current);
    var target := Target(q, pending);
    var limit := if pending then cfg.maxPending else cfg.maxQueued;
    if e.Nonce() in target then
      var minTip := MinTip(target[e.Nonce()].tip, cfg.bumpPct);
      if e.tip < minTip then Some(Underpriced(minTip)) else None
    else if |target| >= limit then
      Some(QueueFull)
    else
      None
  }

  /** The entry that an accepted submission pushes out of its slot. */
  function Displaced(q: SenderQueue, e: PoolEntry, current: U64): Option<PoolEntry> {
    var target := Target(q, IsPending(q, e.Nonce(), current));
    if e.Nonce() in target then Some(target[e.Nonce()]) else None
  }

  /** `submit_tx`, after decoding, for a sender whose account nonce is `current`. */
  function Submit(cfg: PoolConfig, p: Pool, e: PoolEntry, current: U64): (Pool, SubmitResult) {
    var s := e.Sender();
    var q := QueueOf(p, s);
    if e.Hash() in p.byHash then
      (p, Rejected(AlreadyKnown))
    else if e.Nonce() < current then
      (p, Rejected(StaleNonce))
    else if Refusal(cfg, q, e, current).Some? then
      // The sender's queue is created before the checks and stays, possibly empty.
      (p.(senders := p.senders[s := q]), Rejected(Refusal(cfg, q, e, current).value))
    else
      var pending := IsPending(q, e.Nonce(), current);
      var out := Displaced(q, e, current);
      var index := if out.Some? then p.byHash - {out.value.Hash()} else p.byHash;
      (Pool(p.senders[s := Promote(Insert(q, pending, e), current)], index[e.Hash() := s]),
       Accepted(e.Hash()))
  }

  // ----- Collection -----

  predicate HasPending(p: Pool, s: Address) {
    s in p.senders && p.senders[s].pending != map[]
  }

  predicate Collectable(p: Pool, taken: set<Address>) {
    forall s :: s in taken ==> s in p.senders && p.senders[s].pending != map[]
  }

  /** A sender's collectable transaction: the one with its lowest pending nonce. */
  function Head(q: SenderQueue): PoolEntry
    requires q.pending != map[]
  {
    q.pending[MinKey(q.pending)]
  }

  function DropHead(q: SenderQueue): SenderQueue
    requires q.pending != map[]
  {
    var first := MinKey(q.pending);
    q.(pending := map n | n in q.pending && n != first :: q.pending[n])
  }

  /** The pool after `collect_payload` took the heads of the senders in `taken`. */
  function Collect(p: Pool, taken: set<Address>): Pool
    requires Collectable(p, taken)
  {
    Pool(
      map s: Address | s in p.senders :: if s in taken then DropHead(p.senders[s]) else p.senders[s],
      p.byHash - (set s: Address | s in taken :: Head(p.senders[s]).Hash()))
  }

  // ----- Commit -----

  function Fresh(m: Lane, current: U64): Lane {
    map n | n in m && n >= current :: m[n]
  }

  function Evict(q: SenderQueue, current: U64): SenderQueue {
    SenderQueue(Fresh(q.pending, current), Fresh(q.queued, current))
  }

  function Settle(q: SenderQueue, current: U64): SenderQueue {
    Promote(Evict(q, current), current)
  }

  function StaleHashes(q: SenderQueue, current: U64): set<Hash> {
    (set n | n in q.pending && n < current :: q.pending[n].Hash())
    + (set n | n in q.queued && n < current :: q.queued[n].Hash())
  }

  function SettleAll(senders: map<Address, SenderQueue>, nonceOf: NonceLookup): map<Address, SenderQueue> {
    map s | s in senders :: Settle(senders[s], nonceOf(s))
  }

  /** Senders with nothing left, which the pool forgets. */
  function EmptySenders(senders: map<Address, SenderQueue>): set<Address> {
    set s | s in senders && senders[s] == EMPTY_QUEUE
  }

  function StaleAll(senders: map<Address, SenderQueue>, nonceOf: NonceLookup): map<Address, set<Hash>> {
    map s | s in senders :: StaleHashes(senders[s], nonceOf(s))
  }

  function UnionOf(sets: map<Address, set<Hash>>): set<Hash> {
    set s, h | s in sets && h in sets[s] :: h
  }

  /** `on_commit` with the nonces of the committed state. */
  function Commit(p: Pool, nonceOf: NonceLookup): Pool {
    var settled := SettleAll(p.senders, nonceOf);
    Pool(settled - EmptySenders(settled), p.byHash - UnionOf(StaleAll(p.senders, nonceOf)))
  }

  // ----- What the pool holds -----

  predicate InQueue(q: SenderQueue, e: PoolEntry) {
    || (e.Nonce() in q.pending && q.pending[e.Nonce()] == e)
    || (e.Nonce() in q.queued && q.queued[e.Nonce()] == e)
  }

  predicate Holds(p: Pool, e: PoolEntry) {
    e.Sender() in p.senders && InQueue(p.senders[e.Sender()], e)
  }
}
