/**
 The block execution loop of crates/execution/src/executor.rs: nonce filtering, gas admission,
 receipts and cumulative gas, over an abstract EVM step.
 */
module Execution {
  import opened Primitives
  import opened Transactions

  /** What one `transact_commit` reports. */
  datatype Outcome = Executed(gasUsed: U64, success: bool) | Failed

  /** The account nonce as the executor reads it. */
  type NonceReader<!W> = (W, Address) -> U64

  /** `transact_commit` in the context of one block. */
  type Transact<!W> = (W, VerifiedTx) -> (W, Outcome)

  /**
   What is asked of the EVM. An executed transaction uses at most its gas limit and raises the
   nonce of its sender by one and of no other externally owned account; a failed one changes no
   nonce.
   */
  ghost predicate Honest<W(!new)>(nonceOf: NonceReader<W>, transact: Transact<W>, eoa: Address -> bool) {
    forall w: W, tx: VerifiedTx :: StepIsHonest(nonceOf, w, tx, transact(w, tx).0, transact(w, tx).1, eoa)
  }

  ghost predicate StepIsHonest<W(!new)>(nonceOf: NonceReader<W>, w: W, tx: VerifiedTx, w': W, o: Outcome, eoa: Address -> bool) {
    && (o.Executed? ==> o.gasUsed <= tx.envelope.gasLimit)
    && forall a :: eoa(a) ==>
         nonceOf(w', a) == nonceOf(w, a) + if o.Executed? && a == tx.sender then 1 else 0
  }

  datatype Receipt = Receipt(
    txHash: Hash,
    txIndex: nat,
    blockNumber: U64,
    from: Address,
    to: Option<Address>,
    cumulativeGasUsed: U64,
    gasUsed: U64,
    effectiveGasPrice: U128,
    status: nat)

  datatype BlockEnv = BlockEnv(number: U64, gasLimit: U64, baseFee: U64)

  /** The loop's variables, with the transactions handed to the EVM and those it executed. */
  datatype Progress<W> = Progress(
    world: W,
    gas: U64,
    receipts: seq<Receipt>,
    attempted: seq<VerifiedTx>,
    executed: seq<VerifiedTx>,
    halted: bool)

  function MakeReceipt(env: BlockEnv, tx: VerifiedTx, index: nat, gas: U64, gasUsed: U64, success: bool): Receipt {
    Receipt(tx.txHash, index, env.number, tx.sender, tx.envelope.to, gas, gasUsed,
            EffectiveGasPrice(tx.envelope, env.baseFee), if success then 1 else 0)
  }

  /** One turn: skip on a nonce mismatch, stop for good past the gas limit, otherwise execute. */
  function Turn<W>(nonceOf: NonceReader<W>, transact: Transact<W>, env: BlockEnv, pr: Progress<W>,
                   tx: VerifiedTx, index: nat): Progress<W>
  {
    if pr.halted then pr
    else if tx.envelope.nonce != nonceOf(pr.world, tx.sender) then pr
    else if SatAdd64(pr.gas, tx.envelope.gasLimit) > env.gasLimit then pr.(halted := true)
    else
      match transact(pr.world, tx)
      case (w, Executed(gasUsed, success)) =>
        var gas := SatAdd64(pr.gas, gasUsed);
        Progress(w, gas, pr.receipts + [MakeReceipt(env, tx, index, gas, gasUsed, success)],
                 pr.attempted + [tx], pr.executed + [tx], false)
      case (w, Failed) =>
        pr.(world := w, attempted := pr.attempted + [tx])
  }

  function Execute<W>(nonceOf: NonceReader<W>, transact: Transact<W>, env: BlockEnv, w: W, txs: seq<VerifiedTx>): Progress<W>
    decreases |txs|
  {
    if txs == [] then Progress(w, 0, [], [], [], false)
    else
      var n := |txs| - 1;
      Turn(nonceOf, transact, env, Execute(nonceOf, transact, env, w, txs[..n]), txs[n], n)
  }

  // ----- Gas accounting -----

  function GasUsed(rs: seq<Receipt>): nat {
    if rs == [] then 0 else GasUsed(rs[..|rs| - 1]) + rs[|rs| - 1].gasUsed
  }

  /** Receipt `r` is for transaction `tx`, at the place in the block it names. */
  predicate IsReceiptOf(r: Receipt, tx: VerifiedTx, txs: seq<VerifiedTx>) {
    && r.txIndex < |txs| && txs[r.txIndex] == tx
    && r.txHash == tx.txHash && r.from == tx.sender && r.gasUsed <= tx.envelope.gasLimit
  }

  /** Cumulative gas is the exact sum of the gas used so far, within the limit. */
  predicate ExactGas(rs: seq<Receipt>, limit: U64) {
    forall k :: 0 <= k < |rs| ==> rs[k].cumulativeGasUsed == GasUsed(rs[..k + 1]) <= limit
  }

  predicate Rising(rs: seq<Receipt>) {
    forall j, k :: 0 <= j < k < |rs| ==> rs[j].txIndex < rs[k].txIndex
  }

  /** Receipts belong to the transactions they name, in order, with exact running gas. */
  ghost predicate Accounts(rs: seq<Receipt>, executed: seq<VerifiedTx>, txs: seq<VerifiedTx>, limit: U64) {
    && |rs| == |executed|
    && (forall k :: 0 <= k < |rs| ==> IsReceiptOf(rs[k], executed[k], txs))
    && ExactGas(rs, limit) && Rising(rs)
  }

  lemma ExactGasOneMore(rs: seq<Receipt>, limit: U64, r: Receipt)
    requires ExactGas(rs, limit) && r.cumulativeGasUsed == GasUsed(rs) + r.gasUsed <= limit
    ensures ExactGas(rs + [r], limit) && GasUsed(rs + [r]) == GasUsed(rs) + r.gasUsed
  {
    var rs' := rs + [r];
    assert rs'[..|rs|] == rs && rs'[..|rs'|] == rs';
    forall k | 0 <= k < |rs'|
      ensures rs'[k].cumulativeGasUsed == GasUsed(rs'[..k + 1]) <= limit
    {
      if k < |rs| {
        assert rs'[..k + 1] == rs[..k + 1];
      }
    }
  }

  lemma AccountsOneMore(rs: seq<Receipt>, executed: seq<VerifiedTx>, txs: seq<VerifiedTx>, limit: U64,
                        r: Receipt, tx: VerifiedTx)
    requires txs != [] && Accounts(rs, executed, txs[..|txs| - 1], limit)
    requires IsReceiptOf(r, tx, txs) && r.txIndex == |txs| - 1
    requires r.cumulativeGasUsed == GasUsed(rs) + r.gasUsed <= limit
    ensures Accounts(rs + [r], executed + [tx], txs, limit)
    ensures GasUsed(rs + [r]) == GasUsed(rs) + r.gasUsed
  {
    ExactGasOneMore(rs, limit, r);
    assert forall k :: 0 <= k < |rs| ==> IsReceiptOf(rs[k], executed[k], txs[..|txs| - 1]);
  }

  lemma AccountsSkip(rs: seq<Receipt>, executed: seq<VerifiedTx>, txs: seq<VerifiedTx>, limit: U64)
    requires txs != [] && Accounts(rs, executed, txs[..|txs| - 1], limit)
    ensures Accounts(rs, executed, txs, limit)
  {
  }

  ghost predicate Accounted<W>(pr: Progress<W>, txs: seq<VerifiedTx>, limit: U64) {
    Accounts(pr.receipts, pr.executed, txs, limit) && pr.gas == GasUsed(pr.receipts) <= limit
  }

  lemma TurnAccounts<W(!new)>(nonceOf: NonceReader<W>, transact: Transact<W>, eoa: Address -> bool, env: BlockEnv,
                              pr: Progress<W>, txs: seq<VerifiedTx>)
    requires Honest(nonceOf, transact, eoa) && env.gasLimit < TWO_64 - 1 && txs != []
    requires Accounted(pr, txs[..|txs| - 1], env.gasLimit)
    ensures Accounted(Turn(nonceOf, transact, env, pr, txs[|txs| - 1], |txs| - 1), txs, env.gasLimit)
  {
    var n, limit := |txs| - 1, env.gasLimit;
    var tx := txs[n];
    var (w', o) := transact(pr.world, tx);
    assert StepIsHonest(nonceOf, pr.world, tx, w', o, eoa);
    AccountsSkip(pr.receipts, pr.executed, txs, limit);
    if !pr.halted && tx.envelope.nonce == nonceOf(pr.world, tx.sender)
       && SatAdd64(pr.gas, tx.envelope.gasLimit) <= limit && o.Executed? {
      var gas := pr.gas + o.gasUsed;
      assert SatAdd64(pr.gas, o.gasUsed) == gas <= limit;
      AccountsOneMore(pr.receipts, pr.executed, txs, limit, MakeReceipt(env, tx, n, gas, o.gasUsed, o.success), tx);
    }
  }

  /**
   For every block gas limit below 2^64 - 1: each receipt's cumulative gas is the exact sum of the
   gas used up to it and never exceeds the limit, and transaction indices strictly increase.
   */
  lemma {:induction false} GasAccounting<W(!new)>(nonceOf: NonceReader<W>, transact: Transact<W>, eoa: Address -> bool,
                                                  env: BlockEnv, w: W, txs: seq<VerifiedTx>)
    requires Honest(nonceOf, transact, eoa) && env.gasLimit < TWO_64 - 1
    ensures Accounted(Execute(nonceOf, transact, env, w, txs), txs, env.gasLimit)
    decreases |txs|
  {
    if txs != [] {
      var n := |txs| - 1;
      GasAccounting(nonceOf, transact, eoa, env, w, txs[..n]);
      TurnAccounts(nonceOf, transact, eoa, env, Execute(nonceOf, transact, env, w, txs[..n]), txs);
    }
  }

  /** What a receipt reports: the base fee plus the tip, never more than admission reserved. */
  ghost predicate IsPriced(r: Receipt, tx: VerifiedTx, env: BlockEnv) {
    && r.blockNumber == env.number && r.to == tx.envelope.to
    && r.effectiveGasPrice == env.baseFee + ReceiptTip(tx.envelope, env.baseFee)
    && r.gasUsed * r.effectiveGasPrice + tx.envelope.value <= MaxCost(tx.envelope, env.baseFee)
  }

  lemma ReceiptIsPriced(env: BlockEnv, tx: VerifiedTx, index: nat, gas: U64, gasUsed: U64, success: bool)
    requires gasUsed <= tx.envelope.gasLimit
    ensures IsPriced(MakeReceipt(env, tx, index, gas, gasUsed, success), tx, env)
  {
    PriceIsCovered(tx.envelope, env.baseFee);
    MulMono(gasUsed, tx.envelope.gasLimit, EffectiveGasPrice(tx.envelope, env.baseFee), Max(tx.envelope.maxFee, env.baseFee));
  }

  /** Every receipt of a block reports a price within the cost its transaction's admission was checked for. */
  lemma {:induction false} ReceiptsAreCovered<W(!new)>(nonceOf: NonceReader<W>, transact: Transact<W>, eoa: Address -> bool,
                                                       env: BlockEnv, w: W, txs: seq<VerifiedTx>)
    requires Honest(nonceOf, transact, eoa)
    ensures var pr := Execute(nonceOf, transact, env, w, txs);
            && |pr.receipts| == |pr.executed|
            && forall k :: 0 <= k < |pr.receipts| ==> IsPriced(pr.receipts[k], pr.executed[k], env)
    decreases |txs|
  {
    if txs != [] {
      var n := |txs| - 1;
      ReceiptsAreCovered(nonceOf, transact, eoa, env, w, txs[..n]);
      var before := Execute(nonceOf, transact, env, w, txs[..n]);
      var (w', o) := transact(before.world, txs[n]);
      assert StepIsHonest(nonceOf, before.world, txs[n], w', o, eoa);
      if o.Executed? {
        ReceiptIsPriced(env, txs[n], n, SatAdd64(before.gas, o.gasUsed), o.gasUsed, o.success);
      }
    }
  }

  /** An EVM with a single account, 0, that burns all the gas it is given. */
  function OneAccountNonce(w: U64, a: Address): U64 {
    if a == 0 then w else 0
  }

  function BurnAll(w: U64, tx: VerifiedTx): (U64, Outcome) {
    if tx.sender == 0 && w + 1 < TWO_64 then (w + 1, Executed(tx.envelope.gasLimit, true)) else (w, Failed)
  }

  /** The bound on the block gas limit is needed: at 2^64 - 1 the running gas saturates silently. */
  lemma AccountingFailsAtTop(t0: VerifiedTx, t1: VerifiedTx)
    requires t0.sender == 0 && t1.sender == 0 && t0.envelope.nonce == 0 && t1.envelope.nonce == 1
    requires t0.envelope.gasLimit == TWO_64 - 1 && t1.envelope.gasLimit == TWO_64 - 1
    ensures Honest(OneAccountNonce, BurnAll, (a: Address) => a == 0)
    ensures var pr := Execute(OneAccountNonce, BurnAll, BlockEnv(0, TWO_64 - 1, 0), 0, [t0, t1]);
            pr.executed == [t0, t1] && !Accounted(pr, [t0, t1], TWO_64 - 1)
  {
    var env := BlockEnv(0, TWO_64 - 1, 0);
    var pr0: Progress<U64> := Progress(0, 0, [], [], [], false);
    var r0, r1 := MakeReceipt(env, t0, 0, TWO_64 - 1, TWO_64 - 1, true), MakeReceipt(env, t1, 1, TWO_64 - 1, TWO_64 - 1, true);
    var pr1: Progress<U64> := Progress(1, TWO_64 - 1, [r0], [t0], [t0], false);
    var pr2: Progress<U64> := Progress(2, TWO_64 - 1, [r0, r1], [t0, t1], [t0, t1], false);
    assert Turn(OneAccountNonce, BurnAll, env, pr0, t0, 0) == pr1 by {
      assert OneAccountNonce(0, 0) == 0 && BurnAll(0, t0) == (1, Executed(TWO_64 - 1, true));
    }
    assert Turn(OneAccountNonce, BurnAll, env, pr1, t1, 1) == pr2 by {
      assert OneAccountNonce(1, 0) == 1 && BurnAll(1, t1) == (2, Executed(TWO_64 - 1, true));
    }
    TwoTurns(OneAccountNonce, BurnAll, env, 0, t0, t1);
    assert [r0, r1][..1] == [r0] && [r0][..0] == [];
    assert GasUsed([r0, r1]) == GasUsed([r0]) + (TWO_64 - 1);
  }

  lemma TwoTurns<W>(nonceOf: NonceReader<W>, transact: Transact<W>, env: BlockEnv, w: W, t0: VerifiedTx, t1: VerifiedTx)
    ensures Execute(nonceOf, transact, env, w, [t0, t1])
            == Turn(nonceOf, transact, env, Turn(nonceOf, transact, env, Progress(w, 0, [], [], [], false), t0, 0), t1, 1)
  {
    assert [t0, t1][..1] == [t0] && [t0][..0] == [];
    assert Execute(nonceOf, transact, env, w, [t0])
      == Turn(nonceOf, transact, env, Execute(nonceOf, transact, env, w, []), t0, 0);
  }

  // ----- Which transactions run -----

  /** Transaction `i` carries the nonce its sender has once the first `i` transactions are dealt with. */
  ghost predicate IsDue<W>(nonceOf: NonceReader<W>, transact: Transact<W>, env: BlockEnv, w: W, txs: seq<VerifiedTx>, i: nat)
    requires i < |txs|
  {
    txs[i].envelope.nonce == nonceOf(Execute(nonceOf, transact, env, w, txs[..i]).world, txs[i].sender)
  }

  /** It is due, and its gas limit on top of the gas used by then, clamped to a u64, exceeds the block's limit. */
  ghost predicate Overfills<W>(nonceOf: NonceReader<W>, transact: Transact<W>, env: BlockEnv, w: W, txs: seq<VerifiedTx>, i: nat)
    requires i < |txs|
  {
    && IsDue(nonceOf, transact, env, w, txs, i)
    && Min(GasUsed(Execute(nonceOf, transact, env, w, txs[..i]).receipts) + txs[i].envelope.gasLimit, TWO_64 - 1) > env.gasLimit
  }

  /** Transaction `i` is handed to the EVM: it is due, and neither it nor any before it overfills the block. */
  ghost predicate Runs<W>(nonceOf: NonceReader<W>, transact: Transact<W>, env: BlockEnv, w: W, txs: seq<VerifiedTx>, i: nat)
    requires i < |txs|
  {
    IsDue(nonceOf, transact, env, w, txs, i) && forall j: nat :: j <= i ==> !Overfills(nonceOf, transact, env, w, txs, j)
  }

  /** The receipt of an executed transaction, field by field. */
  ghost predicate Reports(env: BlockEnv, rs: seq<Receipt>, tx: VerifiedTx, index: nat, gasUsed: U64, success: bool, r: Receipt) {
    && r.txHash == tx.txHash && r.txIndex == index && r.blockNumber == env.number
    && r.from == tx.sender && r.to == tx.envelope.to
    && r.gasUsed == gasUsed && r.cumulativeGasUsed == Min(GasUsed(rs) + gasUsed, TWO_64 - 1)
    && r.status == (if success then 1 else 0)
    && r.effectiveGasPrice == env.baseFee + ReceiptTip(tx.envelope, env.baseFee)
  }

  /**
   What becomes of transaction `i`. If it runs, the world is the one the EVM leaves, and there is one
   more receipt exactly if the EVM executed it, reporting what the EVM reported; if it does not
   run, nothing changes.
   */
  ghost predicate IsDealtWith<W>(nonceOf: NonceReader<W>, transact: Transact<W>, env: BlockEnv, w: W, txs: seq<VerifiedTx>, i: nat)
    requires i < |txs|
  {
    var before := Execute(nonceOf, transact, env, w, txs[..i]);
    var after := Execute(nonceOf, transact, env, w, txs[..i + 1]);
    if Runs(nonceOf, transact, env, w, txs, i) then
      var (w', o) := transact(before.world, txs[i]);
      && after.world == w' && after.attempted == before.attempted + [txs[i]]
      && (match o
          case Failed => after.receipts == before.receipts && after.executed == before.executed
          case Executed(gasUsed, success) =>
            && after.executed == before.executed + [txs[i]]
            && |after.receipts| == |before.receipts| + 1 && after.receipts[..|before.receipts|] == before.receipts
            && Reports(env, before.receipts, txs[i], i, gasUsed, success, after.receipts[|before.receipts|]))
    else
      && after.world == before.world && after.receipts == before.receipts
      && after.attempted == before.attempted && after.executed == before.executed
  }

  lemma {:induction false} GasIsClamped<W>(nonceOf: NonceReader<W>, transact: Transact<W>, env: BlockEnv, w: W, txs: seq<VerifiedTx>)
    ensures var pr := Execute(nonceOf, transact, env, w, txs); pr.gas == Min(GasUsed(pr.receipts), TWO_64 - 1)
    decreases |txs|
  {
    if txs != [] {
      var n := |txs| - 1;
      GasIsClamped(nonceOf, transact, env, w, txs[..n]);
      TurnClamps(nonceOf, transact, env, Execute(nonceOf, transact, env, w, txs[..n]), txs[n], n);
    }
  }

  lemma GasOneMore(rs: seq<Receipt>, r: Receipt)
    ensures GasUsed(rs + [r]) == GasUsed(rs) + r.gasUsed
  {
    assert (rs + [r])[..|rs|] == rs;
  }

  lemma TurnClamps<W>(nonceOf: NonceReader<W>, transact: Transact<W>, env: BlockEnv, pr: Progress<W>, tx: VerifiedTx, n: nat)
    requires pr.gas == Min(GasUsed(pr.receipts), TWO_64 - 1)
    ensures var pr' := Turn(nonceOf, transact, env, pr, tx, n); pr'.gas == Min(GasUsed(pr'.receipts), TWO_64 - 1)
  {
    var (w', o) := transact(pr.world, tx);
    if o.Executed? {
      GasOneMore(pr.receipts, MakeReceipt(env, tx, n, SatAdd64(pr.gas, o.gasUsed), o.gasUsed, o.success));
    }
  }

  lemma TurnAt<W>(nonceOf: NonceReader<W>, transact: Transact<W>, env: BlockEnv, w: W, txs: seq<VerifiedTx>, i: nat)
    requires i < |txs|
    ensures Execute(nonceOf, transact, env, w, txs[..i + 1])
            == Turn(nonceOf, transact, env, Execute(nonceOf, transact, env, w, txs[..i]), txs[i], i)
  {
    assert txs[..i + 1][..i] == txs[..i];
  }

  lemma TurnHalts<W>(nonceOf: NonceReader<W>, transact: Transact<W>, env: BlockEnv, w: W, txs: seq<VerifiedTx>, i: nat, j: nat)
    requires i < |txs| && j == i + 1
    ensures Execute(nonceOf, transact, env, w, txs[..j]).halted
            <==> Execute(nonceOf, transact, env, w, txs[..i]).halted || Overfills(nonceOf, transact, env, w, txs, i)
  {
    TurnAt(nonceOf, transact, env, w, txs, i);
    GasIsClamped(nonceOf, transact, env, w, txs[..i]);
  }

  /** The loop has stopped before transaction `i` exactly when an earlier one overfilled the block. */
  lemma {:induction false} StoppedExactlyWhen<W>(nonceOf: NonceReader<W>, transact: Transact<W>, env: BlockEnv, w: W, txs: seq<VerifiedTx>, i: nat)
    requires i <= |txs|
    ensures Execute(nonceOf, transact, env, w, txs[..i]).halted
            <==> exists j: nat :: j < i && Overfills(nonceOf, transact, env, w, txs, j)
    decreases i
  {
    if i > 0 {
      StoppedExactlyWhen(nonceOf, transact, env, w, txs, i - 1);
      TurnHalts(nonceOf, transact, env, w, txs, i - 1, i);
    }
  }

  lemma RunsIfTried<W>(nonceOf: NonceReader<W>, transact: Transact<W>, env: BlockEnv, w: W, txs: seq<VerifiedTx>, i: nat)
    requires i < |txs|
    ensures var pr := Execute(nonceOf, transact, env, w, txs[..i]);
            Runs(nonceOf, transact, env, w, txs, i)
            <==> !pr.halted && txs[i].envelope.nonce == nonceOf(pr.world, txs[i].sender)
                 && SatAdd64(pr.gas, txs[i].envelope.gasLimit) <= env.gasLimit
  {
    StoppedExactlyWhen(nonceOf, transact, env, w, txs, i);
    GasIsClamped(nonceOf, transact, env, w, txs[..i]);
    if Runs(nonceOf, transact, env, w, txs, i) {
      assert !Overfills(nonceOf, transact, env, w, txs, i);
    } else if IsDue(nonceOf, transact, env, w, txs, i) {
      var j: nat :| j <= i && Overfills(nonceOf, transact, env, w, txs, j);
      assert j < i || j == i;
    }
  }

  /** Every transaction of every block is dealt with as stated: run or skipped, and reported truthfully. */
  lemma RunsExactlyWhen<W>(nonceOf: NonceReader<W>, transact: Transact<W>, env: BlockEnv, w: W, txs: seq<VerifiedTx>, i: nat)
    requires i < |txs|
    ensures IsDealtWith(nonceOf, transact, env, w, txs, i)
  {
    RunsIfTried(nonceOf, transact, env, w, txs, i);
    TurnAt(nonceOf, transact, env, w, txs, i);
    GasIsClamped(nonceOf, transact, env, w, txs[..i]);
    PriceIsCovered(txs[i].envelope, env.baseFee);
  }

  /** The whole block: it starts from the world given with no receipts, and deals with every transaction in turn. */
  ghost predicate IsBlockRun<W>(nonceOf: NonceReader<W>, transact: Transact<W>, env: BlockEnv, w: W, txs: seq<VerifiedTx>) {
    && (var pr := Execute(nonceOf, transact, env, w, []);
        pr.world == w && pr.receipts == [] && pr.attempted == [] && pr.executed == [])
    && forall i :: 0 <= i < |txs| ==> IsDealtWith(nonceOf, transact, env, w, txs, i)
  }

  lemma BlockRuns<W>(nonceOf: NonceReader<W>, transact: Transact<W>, env: BlockEnv, w: W, txs: seq<VerifiedTx>)
    ensures IsBlockRun(nonceOf, transact, env, w, txs)
  {
    forall i | 0 <= i < |txs|
      ensures IsDealtWith(nonceOf, transact, env, w, txs, i)
    {
      RunsExactlyWhen(nonceOf, transact, env, w, txs, i);
    }
  }

  // ----- Nonces -----

  /** How many of `txs` were sent by `a`. */
  function CountFrom(txs: seq<VerifiedTx>, a: Address): nat {
    if txs == [] then 0 else CountFrom(txs[..|txs| - 1], a) + if txs[|txs| - 1].sender == a then 1 else 0
  }

  lemma CountOneMore(txs: seq<VerifiedTx>, tx: VerifiedTx, a: Address)
    ensures CountFrom(txs + [tx], a) == CountFrom(txs, a) + if tx.sender == a then 1 else 0
  {
    assert (txs + [tx])[..|txs|] == txs;
  }

  /** Each sender's transactions carry consecutive nonces, starting where `start` says. */
  ghost predicate Consecutive(txs: seq<VerifiedTx>, start: Address -> U64) {
    forall k :: 0 <= k < |txs| ==> txs[k].envelope.nonce == start(txs[k].sender) + CountFrom(txs[..k], txs[k].sender)
  }

  lemma ConsecutiveOneMore(txs: seq<VerifiedTx>, tx: VerifiedTx, start: Address -> U64)
    requires Consecutive(txs, start)
    requires tx.envelope.nonce == start(tx.sender) + CountFrom(txs, tx.sender)
    ensures Consecutive(txs + [tx], start)
  {
    var txs' := txs + [tx];
    assert txs'[..|txs|] == txs;
    assert forall k :: 0 <= k < |txs| ==> txs'[..k] == txs[..k] && txs'[k] == txs[k];
  }

  /** All senders are externally owned. */
  predicate FromEoas(txs: seq<VerifiedTx>, eoa: Address -> bool) {
    forall k :: 0 <= k < |txs| ==> eoa(txs[k].sender)
  }

  /** The nonces of a world are those at the start plus what has been executed since. */
  ghost predicate NoncesFollow<W>(nonceOf: NonceReader<W>, eoa: Address -> bool, start: Address -> U64, done: seq<VerifiedTx>, w: W) {
    forall a :: eoa(a) ==> nonceOf(w, a) == start(a) + CountFrom(done, a)
  }

  lemma TurnAdvances<W(!new)>(nonceOf: NonceReader<W>, transact: Transact<W>, eoa: Address -> bool, env: BlockEnv,
                              start: Address -> U64, done: seq<VerifiedTx>, pr: Progress<W>, tx: VerifiedTx, index: nat)
    requires Honest(nonceOf, transact, eoa) && eoa(tx.sender)
    requires Consecutive(done, start) && NoncesFollow(nonceOf, eoa, start, done, pr.world)
    ensures var pr' := Turn(nonceOf, transact, env, pr, tx, index);
            if pr'.executed == pr.executed then NoncesFollow(nonceOf, eoa, start, done, pr'.world)
            else && pr'.executed == pr.executed + [tx]
                 && Consecutive(done + [tx], start) && NoncesFollow(nonceOf, eoa, start, done + [tx], pr'.world)
  {
    var pr' := Turn(nonceOf, transact, env, pr, tx, index);
    var (w', o) := transact(pr.world, tx);
    assert StepIsHonest(nonceOf, pr.world, tx, w', o, eoa);
    if pr'.executed != pr.executed {
      ConsecutiveOneMore(done, tx, start);
      forall a | eoa(a)
        ensures nonceOf(pr'.world, a) == start(a) + CountFrom(done + [tx], a)
      {
        CountOneMore(done, tx, a);
      }
    }
  }

  /**
   After transactions `done`, executing a block keeps every sender's nonces consecutive from where
   they started, and every account nonce equal to its start plus its sender's receipts.
   */
  lemma {:induction false} NoncesAdvance<W(!new)>(nonceOf: NonceReader<W>, transact: Transact<W>, eoa: Address -> bool,
                                                  env: BlockEnv, start: Address -> U64, done: seq<VerifiedTx>,
                                                  w: W, txs: seq<VerifiedTx>)
    requires Honest(nonceOf, transact, eoa) && FromEoas(txs, eoa)
    requires Consecutive(done, start) && NoncesFollow(nonceOf, eoa, start, done, w)
    ensures var pr := Execute(nonceOf, transact, env, w, txs);
            Consecutive(done + pr.executed, start) && NoncesFollow(nonceOf, eoa, start, done + pr.executed, pr.world)
    decreases |txs|
  {
    if txs == [] {
      assert done + [] == done;
    } else {
      var n := |txs| - 1;
      NoncesAdvance(nonceOf, transact, eoa, env, start, done, w, txs[..n]);
      var before := Execute(nonceOf, transact, env, w, txs[..n]);
      TurnAdvances(nonceOf, transact, eoa, env, start, done + before.executed, before, txs[n], n);
      assert done + (before.executed + [txs[n]]) == done + before.executed + [txs[n]];
    }
  }

  /** Consecutive nonces are never repeated. */
  lemma {:induction false} ConsecutiveIsDistinct(txs: seq<VerifiedTx>, start: Address -> U64, j: nat, k: nat)
    requires Consecutive(txs, start) && j < k < |txs| && txs[j].sender == txs[k].sender
    ensures txs[j].envelope.nonce < txs[k].envelope.nonce
  {
    CountGrows(txs, j, k);
  }

  lemma {:induction false} CountGrows(txs: seq<VerifiedTx>, j: nat, k: nat)
    requires j < k <= |txs|
    ensures CountFrom(txs[..k], txs[j].sender) > CountFrom(txs[..j], txs[j].sender)
    decreases k
  {
    assert txs[..k] == txs[..k - 1] + [txs[k - 1]];
    CountOneMore(txs[..k - 1], txs[k - 1], txs[j].sender);
    if j < k - 1 {
      CountGrows(txs, j, k - 1);
    }
  }
}
