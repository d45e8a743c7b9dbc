/**
 Chains of executed blocks, and `EvmExecutor` of crates/execution/src/executor.rs as the object
 that holds the state, the pool and the receipts.
 */
module Executor {
  import opened Primitives
  import opened Finite
  import opened Transactions
  import opened PoolModel
  import opened PoolInvariants
  import opened Payload
  import opened TxPool
  import opened Execution

  datatype Block<!W> = Block(transact: Transact<W>, env: BlockEnv, txs: seq<VerifiedTx>)

  function RunBlock<W>(nonceOf: NonceReader<W>, b: Block<W>, w: W): Progress<W> {
    Execute(nonceOf, b.transact, b.env, w, b.txs)
  }

  /**
   `starts[i]` is the state block i executes on. Between blocks the state may be flushed or
   otherwise touched, as long as no externally owned account's nonce moves.
   */
  ghost predicate IsChain<W(!new)>(nonceOf: NonceReader<W>, eoa: Address -> bool, blocks: seq<Block<W>>, starts: seq<W>) {
    && |starts| == |blocks| + 1
    && forall i :: 0 <= i < |blocks| && At(i) ==>
         && Honest(nonceOf, blocks[i].transact, eoa)
         && FromEoas(blocks[i].txs, eoa)
         && forall a :: eoa(a) ==> nonceOf(starts[i + 1], a) == nonceOf(RunBlock(nonceOf, blocks[i], starts[i]).world, a)
  }

  /** Everything executed in the first `i` blocks, in order. */
  ghost function History<W>(nonceOf: NonceReader<W>, blocks: seq<Block<W>>, starts: seq<W>, i: nat): seq<VerifiedTx>
    requires |starts| == |blocks| + 1 && i <= |blocks|
  {
    if i == 0 then []
    else History(nonceOf, blocks, starts, i - 1) + RunBlock(nonceOf, blocks[i - 1], starts[i - 1]).executed
  }

  /** All receipts of the first `i` blocks, in order. */
  ghost function Receipts<W>(nonceOf: NonceReader<W>, blocks: seq<Block<W>>, starts: seq<W>, i: nat): seq<Receipt>
    requires |starts| == |blocks| + 1 && i <= |blocks|
  {
    if i == 0 then []
    else Receipts(nonceOf, blocks, starts, i - 1) + RunBlock(nonceOf, blocks[i - 1], starts[i - 1]).receipts
  }

  ghost predicate ReceiptsOf(rs: seq<Receipt>, executed: seq<VerifiedTx>) {
    |rs| == |executed| && forall k :: 0 <= k < |rs| ==> rs[k].txHash == executed[k].txHash && rs[k].from == executed[k].sender
  }

  lemma {:induction false} BlockReceipts<W>(nonceOf: NonceReader<W>, transact: Transact<W>, env: BlockEnv, w: W, txs: seq<VerifiedTx>)
    ensures var pr := Execute(nonceOf, transact, env, w, txs); ReceiptsOf(pr.receipts, pr.executed)
    decreases |txs|
  {
    if txs != [] {
      BlockReceipts(nonceOf, transact, env, w, txs[..|txs| - 1]);
    }
  }

  lemma {:induction false} ChainReceipts<W>(nonceOf: NonceReader<W>, blocks: seq<Block<W>>, starts: seq<W>, i: nat)
    requires |starts| == |blocks| + 1 && i <= |blocks|
    ensures ReceiptsOf(Receipts(nonceOf, blocks, starts, i), History(nonceOf, blocks, starts, i))
    decreases i
  {
    if i > 0 {
      ChainReceipts(nonceOf, blocks, starts, i - 1);
      var b := blocks[i - 1];
      BlockReceipts(nonceOf, b.transact, b.env, starts[i - 1], b.txs);
    }
  }

  /** Neither state sees a different nonce of an externally owned account. */
  ghost predicate SameNonces<W>(nonceOf: NonceReader<W>, eoa: Address -> bool, w: W, w': W) {
    forall a :: eoa(a) ==> nonceOf(w', a) == nonceOf(w, a)
  }

  /** What was executed is consecutive from `start`, and the nonces of `w` are where that leaves them. */
  ghost predicate OnTrack<W>(nonceOf: NonceReader<W>, eoa: Address -> bool, start: Address -> U64, done: seq<VerifiedTx>, w: W) {
    Consecutive(done, start) && NoncesFollow(nonceOf, eoa, start, done, w)
  }

  lemma ChainStep<W(!new)>(nonceOf: NonceReader<W>, eoa: Address -> bool, blocks: seq<Block<W>>, starts: seq<W>,
                           start: Address -> U64, i: nat, j: nat)
    requires IsChain(nonceOf, eoa, blocks, starts) && j == i + 1 <= |blocks|
    requires OnTrack(nonceOf, eoa, start, History(nonceOf, blocks, starts, i), starts[i])
    ensures OnTrack(nonceOf, eoa, start, History(nonceOf, blocks, starts, j), starts[j])
  {
    ChainAt(nonceOf, eoa, blocks, starts, i, j);
    BlockStaysOnTrack(nonceOf, eoa, start, History(nonceOf, blocks, starts, i), blocks[i], starts[i], starts[j]);
  }

  lemma ChainAt<W(!new)>(nonceOf: NonceReader<W>, eoa: Address -> bool, blocks: seq<Block<W>>, starts: seq<W>, i: nat, j: nat)
    requires IsChain(nonceOf, eoa, blocks, starts) && j == i + 1 <= |blocks|
    ensures Honest(nonceOf, blocks[i].transact, eoa) && FromEoas(blocks[i].txs, eoa)
    ensures SameNonces(nonceOf, eoa, RunBlock(nonceOf, blocks[i], starts[i]).world, starts[j])
  {
    assert At(i);
  }

  lemma BlockStaysOnTrack<W(!new)>(nonceOf: NonceReader<W>, eoa: Address -> bool, start: Address -> U64, done: seq<VerifiedTx>,
                                   b: Block<W>, w: W, w': W)
    requires Honest(nonceOf, b.transact, eoa) && FromEoas(b.txs, eoa) && OnTrack(nonceOf, eoa, start, done, w)
    requires SameNonces(nonceOf, eoa, RunBlock(nonceOf, b, w).world, w')
    ensures OnTrack(nonceOf, eoa, start, done + RunBlock(nonceOf, b, w).executed, w')
  {
    NoncesAdvance(nonceOf, b.transact, eoa, b.env, start, done, w, b.txs);
  }

  lemma NothingDone<W(!new)>(nonceOf: NonceReader<W>, eoa: Address -> bool, start: Address -> U64, done: seq<VerifiedTx>, w: W)
    requires done == [] && forall a :: start(a) == nonceOf(w, a)
    ensures OnTrack(nonceOf, eoa, start, done, w)
  {
  }

  /** Over any number of blocks each sender's executed nonces are consecutive from where they started. */
  lemma {:induction false} ChainIsConsecutive<W(!new)>(nonceOf: NonceReader<W>, eoa: Address -> bool, blocks: seq<Block<W>>,
                                                       starts: seq<W>, start: Address -> U64, i: nat)
    requires IsChain(nonceOf, eoa, blocks, starts) && i <= |blocks|
    requires forall a :: start(a) == nonceOf(starts[0], a)
    ensures OnTrack(nonceOf, eoa, start, History(nonceOf, blocks, starts, i), starts[i])
    decreases i
  {
    if i == 0 {
      NothingDone(nonceOf, eoa, start, History(nonceOf, blocks, starts, i), starts[i]);
    } else {
      var before := i - 1;
      ChainIsConsecutive(nonceOf, eoa, blocks, starts, start, before);
      ChainStep(nonceOf, eoa, blocks, starts, start, before, i);
    }
  }

  /** A transaction hash determines its sender and nonce. */
  ghost predicate HashesBind(txs: seq<VerifiedTx>) {
    forall j, k :: 0 <= j < |txs| && 0 <= k < |txs| && txs[j].txHash == txs[k].txHash ==>
                     txs[j].sender == txs[k].sender && txs[j].envelope.nonce == txs[k].envelope.nonce
  }

  /** Over any run of blocks no (sender, nonce) and no transaction hash gets two receipts. */
  lemma NoReexecution<W(!new)>(nonceOf: NonceReader<W>, eoa: Address -> bool, blocks: seq<Block<W>>, starts: seq<W>,
                               start: Address -> U64, i: nat, j: nat, k: nat)
    requires IsChain(nonceOf, eoa, blocks, starts) && i <= |blocks|
    requires forall a :: start(a) == nonceOf(starts[0], a)
    requires j < k < |Receipts(nonceOf, blocks, starts, i)|
    ensures var done, rs := History(nonceOf, blocks, starts, i), Receipts(nonceOf, blocks, starts, i);
            && |rs| == |done|
            && (done[j].sender, done[j].envelope.nonce) != (done[k].sender, done[k].envelope.nonce)
            && (HashesBind(done) ==> rs[j].txHash != rs[k].txHash)
  {
    var done := History(nonceOf, blocks, starts, i);
    ChainReceipts(nonceOf, blocks, starts, i);
    ChainIsConsecutive(nonceOf, eoa, blocks, starts, start, i);
    if done[j].sender == done[k].sender {
      ConsecutiveIsDistinct(done, start, j, k);
    }
  }

  /** So a lookup by hash, over all receipts of a chain, has at most one answer. */
  lemma LookupIsUnique<W(!new)>(nonceOf: NonceReader<W>, eoa: Address -> bool, blocks: seq<Block<W>>, starts: seq<W>,
                                start: Address -> U64, i: nat, x: Receipt, y: Receipt)
    requires IsChain(nonceOf, eoa, blocks, starts) && i <= |blocks|
    requires forall a :: start(a) == nonceOf(starts[0], a)
    requires HashesBind(History(nonceOf, blocks, starts, i))
    requires x in Receipts(nonceOf, blocks, starts, i) && y in Receipts(nonceOf, blocks, starts, i)
    requires x.txHash == y.txHash
    ensures x == y
  {
    var rs := Receipts(nonceOf, blocks, starts, i);
    forall j: nat, k: nat | j < k < |rs|
      ensures rs[j].txHash != rs[k].txHash
    {
      NoReexecution(nonceOf, eoa, blocks, starts, start, i, j, k);
    }
    DistinctHashes(rs, x, y);
  }

  lemma DistinctHashes(rs: seq<Receipt>, x: Receipt, y: Receipt)
    requires forall j: nat, k: nat :: j < k < |rs| ==> rs[j].txHash != rs[k].txHash
    requires x in rs && y in rs && x.txHash == y.txHash
    ensures x == y
  {
    var j: nat :| j < |rs| && rs[j] == x;
    var k: nat :| k < |rs| && rs[k] == y;
    assert !(j < k) && !(k < j);
  }

  // ----- Decoding a block -----

  /** The transactions of a block, skipping what does not decode. */
  function DecodeAll(decode: Decoder, raws: seq<Bytes>): seq<VerifiedTx> {
    if raws == [] then []
    else
      var front := DecodeAll(decode, raws[..|raws| - 1]);
      match decode(raws[|raws| - 1])
      case Some(tx) => front + [tx]
      case None => front
  }

  /** What decodes is kept, where it stood; what does not is left out. */
  lemma {:induction false} DecodedInOrder(decode: Decoder, raws: seq<Bytes>, i: nat)
    requires i < |raws|
    ensures DecodeAll(decode, []) == []
    ensures DecodeAll(decode, raws)
            == DecodeAll(decode, raws[..i]) + (match decode(raws[i]) case Some(tx) => [tx] case None => [])
               + DecodeAll(decode, raws[i + 1..])
    decreases |raws|
  {
    var n := |raws| - 1;
    if i < n {
      DecodedInOrder(decode, raws[..n], i);
      assert raws[..n][..i] == raws[..i];
      assert raws[i + 1..][..n - i - 1] == raws[..n][i + 1..];
    }
  }

  // ----- Looking a receipt up -----

  function Concat(rss: seq<seq<Receipt>>): seq<Receipt> {
    if rss == [] then [] else Concat(rss[..|rss| - 1]) + rss[|rss| - 1]
  }

  lemma {:induction false} ConcatHolds(rss: seq<seq<Receipt>>, b: nat, r: Receipt)
    requires b < |rss| && r in rss[b]
    ensures r in Concat(rss)
    decreases |rss|
  {
    if b < |rss| - 1 {
      ConcatHolds(rss[..|rss| - 1], b, r);
    }
  }

  /** The receipts kept block by block, laid end to end, are the receipts of the chain. */
  lemma {:induction false} StoredReceipts<W>(nonceOf: NonceReader<W>, blocks: seq<Block<W>>, starts: seq<W>, rss: seq<seq<Receipt>>)
    requires |starts| == |blocks| + 1 && |rss| <= |blocks|
    requires forall i :: 0 <= i < |rss| ==> rss[i] == RunBlock(nonceOf, blocks[i], starts[i]).receipts
    ensures Concat(rss) == Receipts(nonceOf, blocks, starts, |rss|)
    decreases |rss|
  {
    if rss != [] {
      StoredReceipts(nonceOf, blocks, starts, rss[..|rss| - 1]);
    }
  }

  /** Block `b` is the newest with a receipt for `hash`, and `k` its first one there. */
  ghost predicate IsNewestMatch(rss: seq<seq<Receipt>>, hash: Hash, b: nat, k: nat) {
    && b < |rss| && k < |rss[b]| && rss[b][k].txHash == hash
    && (forall m :: 0 <= m < k ==> rss[b][m].txHash != hash)
    && NoMatchFrom(rss, hash, b + 1)
  }

  ghost predicate NoMatchFrom(rss: seq<seq<Receipt>>, hash: Hash, b: nat) {
    forall c, m :: b <= c < |rss| && 0 <= m < |rss[c]| ==> rss[c][m].txHash != hash
  }

  /** `get_receipt_by_tx_hash`: the newest block first; within a block, the first match. */
  method FindReceipt(rss: seq<seq<Receipt>>, hash: Hash) returns (r: Option<Receipt>)
    ensures r.Some? ==> exists b: nat, k: nat :: IsNewestMatch(rss, hash, b, k) && rss[b][k] == r.value
    ensures r.None? <==> forall x :: x in Concat(rss) ==> x.txHash != hash
    ensures r.Some? ==> r.value.txHash == hash && r.value in Concat(rss)
    ensures r.Some? && (forall x, y :: x in Concat(rss) && y in Concat(rss) && x.txHash == y.txHash ==> x == y) ==>
              forall x :: x in Concat(rss) && x.txHash == hash ==> x == r.value
  {
    var b := |rss|;
    assert rss[..b] == rss;
    while b > 0
      invariant 0 <= b <= |rss|
      invariant NoMatchFrom(rss, hash, b)
      invariant forall x :: x in Concat(rss) && x.txHash == hash ==> x in Concat(rss[..b])
    {
      b := b - 1;
      assert rss[..b + 1][..b] == rss[..b];
      var k := 0;
      while k < |rss[b]|
        invariant 0 <= k <= |rss[b]|
        invariant forall m :: 0 <= m < k ==> rss[b][m].txHash != hash
      {
        if rss[b][k].txHash == hash {
          ConcatHolds(rss, b, rss[b][k]);
          assert IsNewestMatch(rss, hash, b, k);
          return Some(rss[b][k]);
        }
        k := k + 1;
      }
    }
    return None;
  }

  // ----- The executor's own record -----

  /** The receipts kept are those of the blocks executed, each on the state it started from. */
  ghost predicate Recorded<W>(nonceOf: NonceReader<W>, blocks: seq<Block<W>>, starts: seq<W>, rss: seq<seq<Receipt>>) {
    && |starts| == |blocks| + 1 && |rss| == |blocks|
    && forall i :: 0 <= i < |blocks| && At(i) ==> rss[i] == RunBlock(nonceOf, blocks[i], starts[i]).receipts
  }

  lemma RecordGrows<W>(nonceOf: NonceReader<W>, blocks: seq<Block<W>>, starts: seq<W>, rss: seq<seq<Receipt>>,
                       b: Block<W>, start: W, end: W)
    requires Recorded(nonceOf, blocks, starts, rss)
    ensures Recorded(nonceOf, blocks + [b], starts[..|blocks|] + [start, end], rss + [RunBlock(nonceOf, b, start).receipts])
  {
  }

  lemma ChainGrows<W(!new)>(nonceOf: NonceReader<W>, eoa: Address -> bool, blocks: seq<Block<W>>, starts: seq<W>,
                            b: Block<W>, start: W, end: W)
    requires IsChain(nonceOf, eoa, blocks, starts)
    requires Honest(nonceOf, b.transact, eoa) && FromEoas(b.txs, eoa)
    requires SameNonces(nonceOf, eoa, starts[|blocks|], start)
    requires SameNonces(nonceOf, eoa, RunBlock(nonceOf, b, start).world, end)
    ensures IsChain(nonceOf, eoa, blocks + [b], starts[..|blocks|] + [start, end])
  {
    var blocks', starts' := blocks + [b], starts[..|blocks|] + [start, end];
    forall i | 0 <= i < |blocks'| && At(i)
      ensures Honest(nonceOf, blocks'[i].transact, eoa) && FromEoas(blocks'[i].txs, eoa)
      ensures forall a :: eoa(a) ==> nonceOf(starts'[i + 1], a) == nonceOf(RunBlock(nonceOf, blocks'[i], starts'[i]).world, a)
    {
      if i < |blocks| {
        assert blocks'[i] == blocks[i] && starts'[i] == starts[i];
        assert starts'[i + 1] == if i + 1 < |blocks| then starts[i + 1] else start;
      }
    }
  }

  /** Over a recorded chain a hash has at most one receipt. */
  lemma RecordIsUnique<W(!new)>(nonceOf: NonceReader<W>, eoa: Address -> bool, blocks: seq<Block<W>>, starts: seq<W>,
                                rss: seq<seq<Receipt>>, x: Receipt, y: Receipt)
    requires Recorded(nonceOf, blocks, starts, rss) && IsChain(nonceOf, eoa, blocks, starts)
    requires HashesBind(History(nonceOf, blocks, starts, |blocks|))
    requires x in Concat(rss) && y in Concat(rss) && x.txHash == y.txHash
    ensures x == y
  {
    forall i | 0 <= i < |rss|
      ensures rss[i] == RunBlock(nonceOf, blocks[i], starts[i]).receipts
    {
      assert At(i);
    }
    StoredReceipts(nonceOf, blocks, starts, rss);
    LookupIsUnique(nonceOf, eoa, blocks, starts, (a: Address) => nonceOf(starts[0], a), |blocks|, x, y);
  }

  class EvmExecutor<W(!new)> {
    const nonceOf: NonceReader<W>
    const decode: Decoder
    /** `record_block_hash`, `flush_cache_to_vsdb` and `state_root` of the state. */
    const record: (W, U64) -> W
    const flush: W -> W
    const root: W -> Hash
    const gasLimit: U64
    const baseFee: U64
    const txpool: EvmTxPool
    var state: W
    var receipts: seq<seq<Receipt>>
    var blockHeight: U64
    /** The blocks executed, and the states they started from, ending with the present one. */
    ghost var blocks: seq<Block<W>>
    ghost var starts: seq<W>

    ghost predicate Valid()
      reads this
    {
      Recorded(nonceOf, blocks, starts, receipts) && starts[|blocks|] == state
    }

    /** What was executed so far is a chain, on which no transaction runs twice. */
    ghost predicate Chained(eoa: Address -> bool)
      reads this
    {
      IsChain(nonceOf, eoa, blocks, starts)
    }

    /** A new executor has executed nothing, so no hash has a receipt. */
    constructor (state: W, nonceOf: NonceReader<W>, decode: Decoder, record: (W, U64) -> W, flush: W -> W, root: W -> Hash,
                 gasLimit: U64, baseFee: U64, txpool: EvmTxPool)
      ensures Valid() && starts == [state] && forall eoa :: Chained(eoa)
      ensures forall x :: x !in Concat(receipts)
      ensures this.nonceOf == nonceOf && this.decode == decode && this.txpool == txpool
      ensures this.record == record && this.flush == flush && this.root == root
      ensures this.gasLimit == gasLimit && this.baseFee == baseFee && blockHeight == 0
    {
      this.state, this.nonceOf, this.decode := state, nonceOf, decode;
      this.record, this.flush, this.root := record, flush, root;
      this.gasLimit, this.baseFee, this.txpool := gasLimit, baseFee, txpool;
      receipts, blockHeight, blocks, starts := [], 0, [], [state];
    }

    method Decode(raws: seq<Bytes>) returns (txs: seq<VerifiedTx>)
      ensures txs == DecodeAll(decode, raws)
    {
      txs := [];
      for i := 0 to |raws|
        invariant txs == DecodeAll(decode, raws[..i])
      {
        assert raws[..i + 1][..i] == raws[..i];
        match decode(raws[i]) {
          case Some(tx) => txs := txs + [tx];
          case None =>
        }
      }
      assert raws[..|raws|] == raws;
    }

    /**
     `execute_block`: record the parent hash, decode, execute what is due, flush, keep the receipts
     and answer with the state root.
     */
    method ExecuteBlock(raws: seq<Bytes>, height: U64, transact: Transact<W>) returns (appHash: Hash)
      requires Valid()
      modifies this`state, this`receipts, this`blocks, this`starts
      ensures Valid() && appHash == root(state)
      ensures var b := Block(transact, BlockEnv(height, gasLimit, baseFee), DecodeAll(decode, raws));
              var start := if height > 0 then record(old(state), height - 1) else old(state);
              var pr := RunBlock(nonceOf, b, start);
              && state == flush(pr.world) && receipts == old(receipts) + [pr.receipts]
              && IsBlockRun(nonceOf, transact, b.env, start, b.txs)
              && blocks == old(blocks) + [b]
              && forall eoa: Address -> bool ::
                   && old(Chained(eoa)) && Honest(nonceOf, transact, eoa) && FromEoas(b.txs, eoa)
                   && SameNonces(nonceOf, eoa, old(state), start)
                   && SameNonces(nonceOf, eoa, pr.world, state)
                   ==> Chained(eoa)
    {
      var start := if height > 0 then record(state, height - 1) else state;
      var txs := Decode(raws);
      var env := BlockEnv(height, gasLimit, baseFee);
      var world, blockReceipts := Loop(start, txs, env, transact);
      ghost var b := Block(transact, env, txs);
      ghost var was, before := starts, blocks;
      RecordGrows(nonceOf, blocks, starts, receipts, b, start, flush(world));
      state := flush(world);
      receipts := receipts + [blockReceipts];
      blocks, starts := before + [b], was[..|before|] + [start, state];
      forall eoa: Address -> bool |
        && IsChain(nonceOf, eoa, before, was) && Honest(nonceOf, transact, eoa) && FromEoas(txs, eoa)
        && SameNonces(nonceOf, eoa, was[|before|], start) && SameNonces(nonceOf, eoa, world, state)
        ensures Chained(eoa)
      {
        ChainGrows(nonceOf, eoa, before, was, b, start, state);
      }
      return root(state);
    }

    /** `get_receipt_by_tx_hash`: on a chain, the one receipt with that hash, if there is any. */
    method GetReceipt(hash: Hash) returns (r: Option<Receipt>)
      requires Valid()
      ensures r.None? <==> forall x :: x in Concat(receipts) ==> x.txHash != hash
      ensures r.Some? ==> r.value in Concat(receipts) && r.value.txHash == hash
      ensures forall eoa: Address -> bool :: Chained(eoa) && HashesBind(History(nonceOf, blocks, starts, |blocks|)) && r.Some? ==>
                forall x :: x in Concat(receipts) && x.txHash == hash ==> x == r.value
    {
      r := FindReceipt(receipts, hash);
      forall eoa: Address -> bool, x | Chained(eoa) && HashesBind(History(nonceOf, blocks, starts, |blocks|)) && r.Some?
                                       && x in Concat(receipts) && x.txHash == hash
        ensures x == r.value
      {
        RecordIsUnique(nonceOf, eoa, blocks, starts, receipts, x, r.value);
      }
    }

    method Loop(start: W, txs: seq<VerifiedTx>, env: BlockEnv, transact: Transact<W>)
      returns (world: W, blockReceipts: seq<Receipt>)
      ensures var pr := Execute(nonceOf, transact, env, start, txs);
              world == pr.world && blockReceipts == pr.receipts
      ensures IsBlockRun(nonceOf, transact, env, start, txs)
    {
      BlockRuns(nonceOf, transact, env, start, txs);
      world, blockReceipts := start, [];
      var cumulative: U64 := 0;
      ghost var pr := Execute(nonceOf, transact, env, start, txs[..0]);
      var i := 0;
      while i < |txs|
        invariant 0 <= i <= |txs|
        invariant pr == Execute(nonceOf, transact, env, start, txs[..i])
        invariant !pr.halted && pr.world == world && pr.gas == cumulative && pr.receipts == blockReceipts
      {
        var tx := txs[i];
        ghost var index := i;
        TurnAt(nonceOf, transact, env, start, txs, i);
        pr := Turn(nonceOf, transact, env, pr, tx, index);
        i := i + 1;
        if tx.envelope.nonce != nonceOf(world, tx.sender) {
          continue;
        }
        if SatAdd64(cumulative, tx.envelope.gasLimit) > env.gasLimit {
          HaltStays(nonceOf, transact, env, start, txs, i);
          break;
        }
        var (next, outcome) := transact(world, tx);
        world := next;
        if outcome.Executed? {
          cumulative := SatAdd64(cumulative, outcome.gasUsed);
          blockReceipts := blockReceipts + [MakeReceipt(env, tx, i - 1, cumulative, outcome.gasUsed, outcome.success)];
        }
      }
      assert txs[..|txs|] == txs;
    }

    /** `create_payload`: at most 4 MiB, up to the block gas limit. */
    method CreatePayload() returns (payload: Bytes, ghost order: seq<PoolEntry>)
      requires txpool.Valid()
      modifies txpool
      ensures txpool.Valid()
      ensures IsCandidateOrder(old(txpool.State()), order)
      ensures AreLowest(old(txpool.State()), order)
      ensures var sel := Select(order, 4_194_304, gasLimit);
              && payload == sel.payload
              && Collectable(old(txpool.State()), SendersOf(sel.taken))
              && txpool.State() == Collect(old(txpool.State()), SendersOf(sel.taken))
    {
      payload, order := txpool.CollectPayload(4 * 1024 * 1024, gasLimit);
    }

    /** `on_commit`: take over the height and settle the pool on the committed nonces. */
    method OnCommit(height: U64)
      requires txpool.Valid()
      modifies this`blockHeight, txpool
      ensures blockHeight == height && txpool.Valid()
      ensures forall nu: NonceLookup :: (forall a :: nu(a) == nonceOf(state, a)) ==>
                txpool.State() == Commit(old(txpool.State()), nu)
    {
      blockHeight := height;
      var w, read := state, nonceOf;
      var nu := (a: Address) => read(w, a);
      ghost var p := txpool.State();
      txpool.OnCommit(nu);
      forall other: NonceLookup | forall a :: other(a) == nonceOf(state, a)
        ensures txpool.State() == Commit(p, other)
      {
        CommitReadsPointwise(p, nu, other);
      }
    }
  }

  /** A commit depends on the answers of the lookup only. */
  lemma CommitReadsPointwise(p: Pool, nu: NonceLookup, other: NonceLookup)
    requires forall a :: nu(a) == other(a)
    ensures Commit(p, nu) == Commit(p, other)
  {
    SameMap(SettleAll(p.senders, nu), SettleAll(p.senders, other));
    SameMap(StaleAll(p.senders, nu), StaleAll(p.senders, other));
  }

  lemma {:induction false} HaltStays<W>(nonceOf: NonceReader<W>, transact: Transact<W>, env: BlockEnv, w: W, txs: seq<VerifiedTx>, i: nat)
    requires i <= |txs| && Execute(nonceOf, transact, env, w, txs[..i]).halted
    ensures Execute(nonceOf, transact, env, w, txs) == Execute(nonceOf, transact, env, w, txs[..i])
    decreases |txs| - i
  {
    if i < |txs| {
      TurnAt(nonceOf, transact, env, w, txs, i);
      HaltStays(nonceOf, transact, env, w, txs, i + 1);
    } else {
      assert txs[..i] == txs;
    }
  }
}
