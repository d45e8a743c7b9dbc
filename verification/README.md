# nbnet between consensus and the EVM, in Dafny

nbnet runs an EVM chain under a consensus engine. Between the two sit five pieces of
hand-written state: a transaction pool, a block execution loop, two stateful precompiles, a
cached world state with a trie beside it, and the fee arithmetic that admits transactions.
Together they run one cycle: submit, collect, execute, flush, commit. This project models
those pieces and proves what they keep over every run.

`dafny verify dfyconfig.toml` checks everything.

| file | what it holds |
|---|---|
| `Primitives.dfy`, `Finite.dfy`, `Overlay.dfy` | machine words and byte encodings; sums, counts and extreme keys of finite maps; batches of writes over a map |
| `Transactions.dfy` | admission, intrinsic gas, tips and prices |
| `PoolModel.dfy` | the pool as values: what one call does |
| `PoolAnswers.dfy` | what each pool operation answers and where it leaves every nonce, said of the maps |
| `PoolInvariants.dfy`, `PoolRuns.dfy` | what every step keeps; whole runs with no discipline assumed |
| `PoolDiscipline.dfy`, `Deduplication.dfy` | runs whose callers follow a discipline: contiguity, partition, each nonce held once |
| `Replacement.dfy` | growth of tips under replacement, on every run |
| `Payload.dfy`, `GasLimit.dfy` | length framing and the greedy selection; when the block gas limit binds it |
| `TxPool.dfy` | the pool as the object the source has, proved against `PoolModel` |
| `Execution.dfy`, `Executor.dfy` | the block loop over an abstract EVM step; chains of blocks; the executor object |
| `Staking.dfy`, `Precompiles.dfy` | the delegation ledger and the balances it must be backed by; the objects |
| `WorldState.dfy`, `BlockHashes.dfy`, `EvmState.dfy` | cache, store and trie; the block-hash window; the object |
| `EndToEnd.dfy` | pool, executor and world state together, one cycle |
| `OrderlyRuns.dfy` | whole runs of the pool under conditions a caller can see: every payload ever collected reaches the EVM |
| `Machine.dfy` | the whole node as one state machine, lookups reading the world the last block left |
| `Counterexamples.dfy` | short runs from the empty pool on which a property fails outside its condition |

## How it is modelled

- A pool state is a value `Pool(senders, byHash)`. `EvmTxPool` changes its two maps the way the
  source does and each method's postcondition equates the new state with a function of the
  old one; the invariants are proved about those functions, over sequences of events.
  `EvmExecutor`, `StakingState`, `HotmintPrecompiles` and `EvmState` are treated alike.
- A loop over a hash map picks its next key freely, so what is proved about it holds for every
  iteration order.
- Integers are mathematical; widths are written out. The running gas of a payload and the
  upfront cost of an admission wrap, as they do in a release build; the rest saturates where
  the source saturates.
- Predicates `At`, `Due`, `Key` and `Of` are true everywhere. They only mark where the
  quantifier that carries them is to be used.

What is taken from foreign code as a stated contract:

- Decoding is a function from bytes to an optional transaction, which keeps the bytes it came
  from (`KeepsRaw`).
- `transact_commit` is a function (`Transact`). `Honest` says that an executed transaction uses at
  most its gas limit and raises its sender's nonce by one and no other externally owned
  account's, and that a failed one moves no nonce.
- The journal's transfer is checked: it refuses when funds are short or the receiver overflows.
- The stores are maps; the state root is a function of the trie's contents.

## What is true, and exactly when

Some things one might expect of this code hold only under a condition. Each of these is an
if-and-only-if, or a lemma with its failing input beside it:

- For at most k candidates with gas limits up to cap, a payload's gas limits sum to at most the
  block limit on every run exactly when cap + min(limit, cap * (k - 1)) fits 64 bits
  (`GasLimitHoldsExactlyWhen`). Otherwise the running sum wraps: two senders are enough
  (`TwoSendersBreakTheLimit`).
- An admitted transaction is affordable exactly when its upfront cost does not wrap 256 bits
  (`Affordability`, `WrappedUpfrontIsAccepted`).
- The pool's tip is the receipt's tip exactly when cutting the fees to 64 bits is harmless
  (`PoolTipIsReceiptTip`); `CutFeeHidesTheTip` is an admitted envelope for which it is not.
- A replacement cannot lower a tip exactly while a hundred times the tip fits 64 bits
  (`ReplacementNeverLowers`); for every larger tip, `CheaperReplacementIsAccepted` lowers it.
- The fee test guards a lane, not a nonce: on disciplined runs each (sender, nonce) is held once
  exactly until a submission is accepted for the nonce after one that is out in a block
  (`HeldOnceExactlyWhen`, `OneNonceHeldTwice`), and such a submission meets no fee test
  (`RoutedPastTheFeeTest`).
- Taking a sender's head keeps its pending nonces contiguous exactly when the head was at the
  account nonce or alone (`DropHeadContiguous`); `TwoCollectionsLeaveHole` is a run with a hole.
- After one whole cycle the pool is ready for the next exactly when every collected transaction
  got a receipt or was its sender's only pending one (`CycleKeepsReadyExactlyWhen`).
- After any commit on a contiguous pool, the pool is ready exactly when no sender is left with its
  head one past a nonce that did not move (`CommitMakesReadyExactlyWhen`; `EmptyBlockLeavesUnready`
  is a run that leaves one). So on every run that
  collects at most once between commits and whose commits move those nonces, every payload
  reaches the EVM in full (`EveryPayloadReachesTheEvm`), whatever is submitted in between.
- Gas accounting is exact for every block gas limit below 2^64 - 1 and fails at 2^64 - 1
  (`GasAccounting`, `AccountingFailsAtTop`).
- An affordable delegation keeps the ledger solvent exactly when the caller is not the staking
  address or that address has the amount to spare (`DelegationKeepsSolventExactlyWhen`), and an
  unbond within the stake is all or nothing exactly when the staking address holds the amount
  (`UnbondIsAtomicExactlyWhen`).
- A flush leaves the trie as it was exactly when every cached account is stored as it is cached
  (`TrieUnchangedExactlyWhen`); a read of an account that does not exist is cached and adds a leaf
  (`AbsentReadAddsLeaf`).

Where documentation and code disagree the code is followed: docs/architecture.md:89 puts staking
at 0x0800 and the code at 0x0801; crates/txpool/README.md:12 asks a replacement for a higher tip
and the code accepts an equal one when the bump rounds down to nothing; the pool promises
nonce-continuous payloads (crates/txpool/src/lib.rs:6) and takes one transaction per sender;
docs/architecture.md:71 demands ordered traversal and the flush walks a hash map, which is proved
harmless. A refused unbond, and a refused submission, leave an empty entry behind, as in the code.

## Model

| member | source | states |
|---|---|---|
| `Transactions.IntrinsicGasIsExact` | crates/types/src/tx.rs:146-153 | the two saturating folds give the exact price list of call data, base + 16 per byte - 12 per zero byte, clamped to 64 bits once |
| `Transactions.AdmittedExactlyWhen` | crates/types/src/tx.rs:86-143 | acceptance, and each of the five errors, if and only if: chain id equal or absent; nonce not stale; gas limit within the block; intrinsic gas (21000 or 53000, 16 a byte, 4 a zero byte, clamped) within the gas limit; gas limit times max(fee cap, base fee) plus value, modulo 2^256, within the balance |
| `Transactions.ErrorsReport` | crates/types/src/tx.rs:94-140 | each error reports the figure asked for and the figure there is |
| `Transactions.PriceIsCovered` | crates/execution/src/executor.rs:327-334 | the receipt's price is base fee plus tip with no saturation, and lies between the base fee and the fee admission reserved |
| `Transactions.PriceIsStandard` | crates/execution/src/executor.rs:327-334 | the price is min(fee cap, base fee + priority fee), or the base fee when the cap is below it; a legacy transaction has tip 0 |
| `Transactions.PoolTipIsLargest` | crates/types/src/tx.rs:156-161 | the pool's tip is the largest one within the priority fee and, over the base fee, within the fee cap, each cut to 64 bits |
| `Transactions.Affordability` | crates/types/src/tx.rs:114-142 | an accepted transaction's largest cost is within the balance if and only if the upfront sum does not wrap; then every gas use up to the limit, at the executor's price, plus value, is too |
| `Transactions.AnyReservedPriceIsAfforded` | crates/execution/src/executor.rs:274-290 | the same for every price up to the fee reserved, such as the full gas price the EVM is given for a legacy transaction |
| `Transactions.WrappedUpfrontIsAccepted` | crates/types/src/tx.rs:132-140 | a concrete transaction whose upfront sum wraps is accepted from a sender who cannot pay |
| `Transactions.PoolTipIsReceiptTip` | crates/types/src/tx.rs:156-161 | the pool's tip never exceeds the receipt's; price = base fee + pool tip if and only if no 64-bit cut bites, in particular for all fees below 2^64 |
| `PoolModel.RunLength` | crates/txpool/src/lib.rs:334-337 | the run of consecutive queued nonces promotion moves: all of them queued, the next one not |
| `PoolAnswers.PromotedExactly` | crates/txpool/src/lib.rs:326-338 | for every nonce of every queue: pending afterwards if and only if it was, or it is queued and reached without a gap from the end of pending (from the account nonce, if pending is empty); entries unchanged |
| `PoolAnswers.VerdictIs` | crates/txpool/src/lib.rs:127-162 | whether a queue takes an entry: the bumped tip of the holder of its nonce in its lane, or room under that lane's own cap; otherwise which error |
| `PoolAnswers.SubmissionAnswer` | crates/txpool/src/lib.rs:110-178 | a submission is accepted if and only if its hash is unknown, its nonce not stale, and it pays the bumped tip of what it replaces in its lane or finds room there under that lane's cap; each error if and only if its own case holds |
| `PoolAnswers.AcceptedIsPlaced` | crates/txpool/src/lib.rs:164-174 | an accepted entry is in its lane or promoted from it, every other nonce where promotion leaves it, every other sender untouched, and the index gains its hash and loses the replaced one |
| `PoolAnswers.RejectedIsRefused` | crates/txpool/src/lib.rs:110-162 | a rejection changes nothing but that a sender met for the first time past the nonce check is left with an empty queue |
| `PoolAnswers.CollectIs` | crates/txpool/src/lib.rs:228-238 | each sender taken loses exactly the entry under its lowest pending nonce, and that entry's hash; nothing else goes |
| `PoolAnswers.CommitIs` | crates/txpool/src/lib.rs:244-293 | every sender keeps exactly what is not stale, promoted; senders with nothing left are forgotten; the index loses exactly the stale hashes |
| `PoolInvariants.PromoteKeepsEntries` | crates/txpool/src/lib.rs:326-338 | promotion overwrites and loses no entry |
| `PoolInvariants.PromoteTops` | crates/txpool/src/lib.rs:326-338 | after promotion, the nonce after the largest pending one is not queued |
| `PoolInvariants.PromoteKeepsSize` | crates/txpool/src/lib.rs:326-338 | promotion moves between the two maps and keeps their total size, the queue never growing |
| `PoolInvariants.SubmitEffect` | crates/txpool/src/lib.rs:98-178 | an accepted submission adds exactly its entry and removes exactly the one it displaced |
| `PoolInvariants.RejectionChangesNothing` | crates/txpool/src/lib.rs:110-162 | a rejected submission changes no entry, no queue and no index record |
| `PoolInvariants.SubmitKeepsSound` | crates/txpool/src/lib.rs:98-178 | submission keeps keys, capacities and index agreement |
| `PoolInvariants.CollectEffect` | crates/txpool/src/lib.rs:228-238 | collection removes exactly the heads of the senders taken |
| `PoolInvariants.CollectKeepsSound` | crates/txpool/src/lib.rs:228-238 | collection keeps keys, capacities and index agreement |
| `PoolInvariants.CommitEffect` | crates/txpool/src/lib.rs:244-293 | a commit drops exactly the entries whose nonce is below the account nonce |
| `PoolInvariants.CommitKeepsSound` | crates/txpool/src/lib.rs:244-293 | a commit keeps keys, capacities and index agreement |
| `PoolRuns.RunIsSound` | crates/txpool/src/lib.rs:98-293 | every state of every run of submissions, collections and commits is sound, with no discipline assumed |
| `PoolRuns.CapacityOnEveryRun` | crates/txpool/src/lib.rs:153-174 | on every run queued stays within its cap, pending within the sum of both caps, and the nonce after the largest pending one is never queued |
| `PoolRuns.CountsMatchIndex` | crates/txpool/src/lib.rs:296-315 | pending count plus queued count is the size of the hash index |
| `PoolRuns.IndexOnEveryRun` | crates/txpool/src/lib.rs:66-73 | on every run the hash index has exactly the hashes of the held entries, each at its sender; held hashes are distinct; the counts add up to its size |
| `PoolRuns.ConservationOnEveryRun` | crates/txpool/src/lib.rs:98-293 | on every run, as multisets: accepted = in the pool + collected + replaced + evicted as stale |
| `PoolDiscipline.DropHeadContiguous` | crates/txpool/src/lib.rs:228-238 | taking the head of a contiguous queue leaves it contiguous if and only if the head was at the account nonce or alone |
| `PoolDiscipline.PromotePartitions` | crates/txpool/src/lib.rs:326-338 | promotion turns a queue with pending = [nonce, next) and queued from next on into one with every queued nonce strictly beyond the new next |
| `PoolDiscipline.ContiguityOnDisciplinedRuns` | crates/txpool/src/lib.rs:128-135 | with coherent, growing nonces and collections only of due or lone heads, each sender's pending nonces are an unbroken interval from the account nonce or one past it |
| `PoolDiscipline.PartitionOnCoherentRuns` | crates/txpool/src/lib.rs:48-56 | on every coherent run of submissions and commits, pending is exactly [nonce, nonce + k) and every queued nonce is greater than nonce + k |
| `PoolDiscipline.PartitionMeansOnce` | crates/txpool/src/lib.rs:119-174 | a partitioned queue holds each nonce once, has no gap below a pending nonce, and nothing promotable stays queued |
| `Replacement.MinTipIsBump` | crates/txpool/src/lib.rs:140-143 | while the product fits 64 bits the threshold is the old tip plus the rounded-down bump |
| `Replacement.ReplacementNeverLowers` | crates/txpool/src/lib.rs:137-151 | the threshold is at least the old tip if and only if the tip is at most (2^64 - 1) / 100 |
| `Replacement.TipAfterAnyStep` | crates/txpool/src/lib.rs:137-174 | any step that keeps an entry, in its lane or by promotion, keeps its tip, unless it is an accepted submission to that lane and nonce, which meets the threshold |
| `Replacement.RoutedPastTheFeeTest` | crates/txpool/src/lib.rs:128-151 | when the account nonce is out in a block, a submission for the next nonce is accepted into the queue beside the pending entry, whatever its tip |
| `Replacement.ReplacementGrowth` | crates/txpool/src/lib.rs:137-151 | on every run, with no discipline, a slot that starts at tip t and is replaced k times while its products fit 64 bits holds at least t + k * floor(t * p / 100), never less than t; if that bump is positive, k < 2^64 - t |
| `Payload.FramingRoundTrip` | crates/txpool/src/lib.rs:221-223 | parsing the 4-byte little-endian framing gives back exactly the framed transactions |
| `Payload.FrameIsLittleEndian` | crates/txpool/src/lib.rs:221-223 | a frame is the length in four bytes, least significant first, followed by the transaction |
| `Payload.PayloadFramesTaken` | crates/txpool/src/lib.rs:205-226 | the payload is the framing of the transactions taken, in order, and at most `max_bytes` long |
| `Payload.PayloadParsesBack` | crates/txpool/src/lib.rs:180-241 | the payload parses back to exactly the raw transactions taken, in order |
| `Payload.TakenKeepsOrder` | crates/txpool/src/lib.rs:190-226 | what is taken comes from the candidates, one per sender, in non-increasing tip order |
| `Payload.CandidatesAreLowest` | crates/txpool/src/lib.rs:190-203 | the candidates are the entry under the lowest pending nonce of every sender that has one, no sender twice, the higher tip first |
| `Payload.OmittedExactlyWhen` | crates/txpool/src/lib.rs:214-219 | a candidate is left out if and only if it failed the gas test at its turn or stands at or after the first byte overflow |
| `Payload.GasIsBounded` | crates/txpool/src/lib.rs:217-224 | when the sums of k candidates fit 64 bits the running gas is the exact sum of the gas limits taken and at most `max_gas` |
| `Payload.GasIsWrapped` | crates/txpool/src/lib.rs:217-224 | the running gas is the sum of the gas limits taken modulo 2^64, always |
| `GasLimit.GasLimitHoldsExactlyWhen` | crates/txpool/src/lib.rs:217-224 | over every run whose transactions are determined by bytes and by hash, with room for k transactions of 32 bytes: the limit holds if and only if `cap + min(max_gas, cap * (k - 1))` fits 64 bits |
| `GasLimit.LimitBroken` | crates/txpool/src/lib.rs:217-224 | when it does not fit, a run of first submissions by distinct senders, with distinct bytes and hashes, fills a pool whose payload exceeds the limit |
| `GasLimit.TwoSendersBreakTheLimit` | crates/txpool/src/lib.rs:217-224 | at every limit two transactions are enough, one with a gas limit of 2^64 - 1 |
| `TxPool.PromotedIsShift` | crates/txpool/src/lib.rs:334-337 | moving queued entries one nonce at a time comes to the same as moving the whole run at once |
| `TxPool.PromoteQueued` | crates/txpool/src/lib.rs:326-338 | the loop computes `Promote` |
| `TxPool.EvictStale` | crates/txpool/src/lib.rs:254-276 | the loop keeps exactly the nonces from the account nonce on and reports exactly the hashes it dropped |
| `TxPool.Place` | crates/txpool/src/lib.rs:127-174 | choice of lane, replacement test, capacity test, insertion and promotion; the verdict is the exact one stated above |
| `TxPool.SortByTip` | crates/txpool/src/lib.rs:202-203 | the candidates come out as a permutation in non-increasing tip order, those of equal tip in their old order |
| `TxPool.TakenAreHeads` | crates/txpool/src/lib.rs:190-226 | what is taken is the lowest pending nonce of distinct senders, by falling tip |
| `TxPool.EvmTxPool.constructor` | crates/txpool/src/lib.rs:77-86 | a new pool is empty and sound |
| `TxPool.EvmTxPool.SubmitTx` | crates/txpool/src/lib.rs:98-178 | undecodable bytes change nothing; otherwise answer and new state are exactly those stated above, with nonce 0 when no lookup is set; soundness is kept |
| `TxPool.EvmTxPool.Admit` | crates/txpool/src/lib.rs:108-178 | the in-place steps after decoding give exactly the answer and the state stated above |
| `TxPool.EvmTxPool.GatherHeads` | crates/txpool/src/lib.rs:190-201 | exactly the head of every sender with pending transactions, once each, in any iteration order |
| `TxPool.EvmTxPool.CollectPayload` | crates/txpool/src/lib.rs:185-241 | the candidates are the lowest pending entries of all senders by falling tip, the payload is the greedy selection's, and the pool loses exactly the heads taken |
| `TxPool.EvmTxPool.Fill` | crates/txpool/src/lib.rs:205-226 | the loop with its `break` and `continue` computes the greedy selection |
| `TxPool.EvmTxPool.RemoveIncluded` | crates/txpool/src/lib.rs:228-238 | removing the included one by one takes exactly their entries and hashes |
| `TxPool.EvmTxPool.OnCommit` | crates/txpool/src/lib.rs:244-293 | the sweep over all senders in any order computes `Commit`, leaving exactly what is stated above, and keeps soundness |
| `TxPool.EvmTxPool.PendingCount` | crates/txpool/src/lib.rs:296-304 | the number of pending (sender, nonce) slots |
| `TxPool.EvmTxPool.QueuedCount` | crates/txpool/src/lib.rs:307-315 | the number of queued (sender, nonce) slots |
| `TxPool.EvmTxPool.Contains` | crates/txpool/src/lib.rs:318-324 | the index answers yes if and only if some queue holds an entry with that hash |
| `TxPool.SettleQueue` | crates/txpool/src/lib.rs:253-283 | evicting and promoting one queue gives its settled form, its stale hashes, and whether it is empty |
| `TxPool.SettleSenders` | crates/txpool/src/lib.rs:251-285 | the loop settles every sender once and collects exactly the stale hashes and the empty senders |
| `Execution.GasAccounting` | crates/execution/src/executor.rs:248-374 | for every block and every limit below 2^64 - 1, each receipt is for the transaction at its index, its cumulative gas is the exact sum so far and within the limit, and indices strictly increase |
| `Execution.AccountingFailsAtTop` | crates/execution/src/executor.rs:261-313 | at limit 2^64 - 1 two transactions saturate the running gas and the accounting is wrong |
| `Execution.StoppedExactlyWhen` | crates/execution/src/executor.rs:261-271 | the loop has stopped before a transaction if and only if an earlier one was due and overfilled the block |
| `Execution.RunsExactlyWhen` | crates/execution/src/executor.rs:248-373 | a transaction is handed to the EVM if and only if its nonce is its sender's at its turn and no due transaction up to it had gas used so far plus its gas limit, clamped, above the block limit; then the world is the one the EVM left and there is one more receipt exactly if it was executed, with hash, index, block, parties, status, gas used, cumulative gas and price as reported; otherwise nothing changes |
| `Execution.BlockRuns` | crates/execution/src/executor.rs:236-374 | so for every transaction of every block, starting from the world given with no receipts |
| `Execution.ReceiptsAreCovered` | crates/execution/src/executor.rs:327-363 | every receipt names its block and receiver, reports base fee plus tip as its price, and reports, with the value, no more than the cost admission checks |
| `Execution.NoncesAdvance` | crates/execution/src/executor.rs:248-259 | in each block a sender's executed transactions have consecutive nonces from the pre-block nonce, and every account ends at its start plus its receipts |
| `Execution.ConsecutiveIsDistinct` | crates/execution/src/executor.rs:248-259 | consecutive nonces of one sender strictly increase, so none repeats |
| `Executor.ChainIsConsecutive` | crates/execution/src/executor.rs:215-400 | over any number of blocks each sender's executed nonces are consecutive from where they started |
| `Executor.NoReexecution` | crates/execution/src/executor.rs:391-394 | over any run of blocks no (sender, nonce) gets two receipts, nor any transaction hash when a hash determines sender and nonce |
| `Executor.LookupIsUnique` | crates/execution/src/executor.rs:94-104 | two receipts of a chain with the same hash are the same receipt |
| `Executor.StoredReceipts` | crates/execution/src/executor.rs:391-394 | the receipts pushed block by block, laid end to end, are the receipts of the chain |
| `Executor.FindReceipt` | crates/execution/src/executor.rs:94-104 | the scan returns the first match in the newest block that has one, nothing if and only if there is none, and the only match when hashes are unique |
| `Executor.EvmExecutor.constructor` | crates/execution/src/executor.rs:41-62 | a new executor satisfies its record invariant, has an empty chain whatever the accounts, and no receipt for any hash |
| `Executor.EvmExecutor.Decode` | crates/execution/src/executor.rs:225-234 | the decodable transactions of the block, in order |
| `Executor.DecodedInOrder` | crates/execution/src/executor.rs:225-234 | what decodes is kept where it stood, what does not is left out |
| `Executor.EvmExecutor.Loop` | crates/execution/src/executor.rs:236-374 | the loop with its `continue` and `break` computes `Execute` and deals with every transaction as stated above |
| `Executor.EvmExecutor.ExecuteBlock` | crates/execution/src/executor.rs:215-400 | above height 0 the hash of height - 1 is recorded, the block is run on that as stated above, the result flushed, the receipts appended and the root of the new state returned; the record invariant is kept, and what was executed stays a chain when the EVM keeps its contract and recording and flushing move no nonce |
| `Executor.EvmExecutor.GetReceipt` | crates/execution/src/executor.rs:94-104 | nothing if and only if no block has a receipt with that hash; on a chain the answer is the only receipt with that hash |
| `Executor.RecordIsUnique` | crates/execution/src/executor.rs:94-104 | in the record of a chain two receipts with the same hash are the same |
| `Executor.EvmExecutor.CreatePayload` | crates/execution/src/executor.rs:402-408 | a collection of at most 4194304 bytes under the block gas limit, from the lowest pending entries of all senders |
| `Executor.EvmExecutor.OnCommit` | crates/execution/src/executor.rs:410-423 | the height is taken over and the pool is committed on the executor's own nonces |
| `Staking.TransferConserves` | crates/precompile/src/lib.rs:200-230 | a transfer moves the amount between its two accounts, touches no other, and keeps the total |
| `Staking.TransferFailsOnlyShort` | crates/precompile/src/lib.rs:200-230 | with supply below 2^256 a transfer fails if and only if the sender is short |
| `Staking.TransferInAnyState` | crates/precompile/src/lib.rs:200-230 | in any state a transfer goes through if and only if the sender has the tokens and the receiver's balance stays a word |
| `Staking.DelegateIsExact` | crates/precompile/src/lib.rs:52-55 | in a solvent state the saturating add of an affordable delegation is exact |
| `Staking.DelegateCallIsSound` | crates/precompile/src/lib.rs:260-294 | a delegation succeeds if and only if the caller has the tokens; it moves stake and tokens by the same amount, touches nothing else and keeps solvency and supply |
| `Staking.UnbondCallIsSound` | crates/precompile/src/lib.rs:295-333 | an unbond succeeds if and only if the stake covers it, the payment never failing; it moves stake and tokens together or changes no stake and no balance |
| `Staking.UnbondIsAtomicExactlyWhen` | crates/precompile/src/lib.rs:311-330 | within the stake, in any state, an unbond is all or nothing if and only if the staking address holds the amount |
| `Staking.LedgerInAnyState` | crates/precompile/src/lib.rs:52-69 | in any state a delegation adds to its own entry, clamped to a word, and an unbond subtracts from it if it is covered; no other entry moves |
| `Staking.DelegateInAnyState` | crates/precompile/src/lib.rs:260-294 | in any state and from any caller: granted if and only if the caller has the tokens and 0x0801 can take them; then recorded and paid |
| `Staking.UnbondInAnyState` | crates/precompile/src/lib.rs:295-333 | in any state and from any caller: the stake comes off if covered, and is paid if and only if 0x0801 has it and the caller can take it |
| `Staking.DelegationKeepsSolventExactlyWhen` | crates/precompile/src/lib.rs:260-294 | an affordable delegation in a solvent state keeps it solvent if and only if the caller is not the staking address, or all delegations plus the amount are still backed |
| `Staking.StakingCallKeepsSolvent` | crates/precompile/src/lib.rs:240-377 | any call with any input keeps solvency and supply, and one that does not return normally changes no stake and no balance |
| `Staking.BalancesCallKeepsSolvent` | crates/precompile/src/lib.rs:163-237 | any call with any input keeps solvency and supply, and one that does not return normally changes no balance |
| `Staking.SolvencyOnEveryRun` | crates/precompile/src/lib.rs:163-377 | on every run of committed calls and other credits the delegations never exceed the balance of the staking address |
| `Staking.SupplyOnEveryRun` | crates/precompile/src/lib.rs:163-377 | on every such run whose other changes conserve tokens, the total balance is constant |
| `Staking.SolventTotalsFit` | crates/precompile/src/lib.rs:78-84 | in a solvent state a validator's delegations sum to less than 2^256, so the clamped total is the exact sum |
| `Staking.CallsMoveOneTotal` | crates/precompile/src/lib.rs:52-84 | a delegation or unbond of x moves its validator's total by exactly x and no other validator's |
| `Staking.DelegateOutcome` | crates/precompile/src/lib.rs:260-294 | for every input: status, gas left and the word answered; granted if and only if the caller has the tokens, and then stake and tokens move together; otherwise nothing changes |
| `Staking.UnbondOutcome` | crates/precompile/src/lib.rs:295-333 | for every input: status, gas left and the word answered; granted if and only if the stake covers the amount, and then stake and tokens move together; otherwise no stake and no balance changes |
| `Staking.TransferOutcome` | crates/precompile/src/lib.rs:200-230 | for every input: status, gas left and the word answered; granted if and only if the caller has the tokens, and then exactly they move |
| `Staking.BalanceOutcome` | crates/precompile/src/lib.rs:183-199 | for every input of balanceOf: nothing changes; short input is an error, missing gas is reported, else 150 gas is spent and the answer is the balance of the address asked about |
| `Staking.BalanceAnswers` | crates/precompile/src/lib.rs:183-199 | balanceOf, called with its encoded argument, answers that address's balance, whoever asks |
| `Staking.StakeOutcome` | crates/precompile/src/lib.rs:334-352 | for every input of getStake: nothing changes; error, missing gas, or 150 gas and the recorded stake |
| `Staking.TotalOutcome` | crates/precompile/src/lib.rs:353-370 | for every input of totalStake: nothing changes; error, missing gas, or 150 gas and the clamped sum |
| `Staking.UnknownOutcome` | crates/precompile/src/lib.rs:177-181 | a call that names no operation of its precompile is an error that costs nothing and changes nothing |
| `Staking.StakeAnswers` | crates/precompile/src/lib.rs:334-352 | getStake, called with its encoded arguments, answers the recorded stake in one word for 150 gas and changes nothing |
| `Staking.TotalAnswers` | crates/precompile/src/lib.rs:353-370 | totalStake answers the exact sum of the validator's delegations in a solvent state |
| `Staking.DelegationReadsBack` | crates/precompile/src/lib.rs:260-370 | after an encoded delegate call, getStake and totalStake answer what they did before plus the amount |
| `Staking.UnbondUndoesDelegate` | crates/precompile/src/lib.rs:260-333 | delegating and then unbonding the same amount, by encoded calls, restores every stake and every balance |
| `Precompiles.StakingState.DelegateTo` | crates/precompile/src/lib.rs:52-55 | the ledger after a delegation |
| `Precompiles.StakingState.UnbondFrom` | crates/precompile/src/lib.rs:57-69 | the ledger and the answer after an unbond, including the zero entry a refusal leaves |
| `Precompiles.StakingState.FoldTotal` | crates/precompile/src/lib.rs:78-84 | for every map and every iteration order the saturating fold is min(sum of the validator's delegations, 2^256 - 1) |
| `Precompiles.HotmintPrecompiles.Balances` | crates/precompile/src/lib.rs:163-237 | for every input of every operation the answer is the one stated above, by selector bytes and gas figures; solvency and supply are kept from a solvent state and a caller other than the staking address |
| `Precompiles.HotmintPrecompiles.Staking` | crates/precompile/src/lib.rs:240-377 | for every input of every operation the answer is the one stated above, by selector bytes and gas figures; solvency and supply are kept from a solvent state and a caller other than the staking address, and unless it returns no stake and no balance changes |
| `Precompiles.HotmintPrecompiles.DelegateOp` | crates/precompile/src/lib.rs:260-294 | locking tokens and recording the delegation in place has the delegation outcome stated above |
| `Precompiles.HotmintPrecompiles.UnbondOp` | crates/precompile/src/lib.rs:295-333 | taking the stake and returning the tokens in place has the unbond outcome stated above |
| `WorldState.StoredRoundTrip` | crates/state/src/state.rs:25-42 | a stored account gives back the balance, nonce and code hash it was made from |
| `WorldState.StorageKeyInjective` | crates/state/src/state.rs:267-272 | the 52-byte key tells apart every (address, slot) |
| `WorldState.StorageKeyLayout` | crates/state/src/state.rs:266-272 | the address in the first 20 bytes, the slot in the other 32 |
| `Primitives.LastByteIsLeast` | crates/state/src/state.rs:434-441 | words, nonces and addresses are encoded with the least significant byte last |
| `WorldState.LeafInjective` | crates/state/src/state.rs:434-441 | the 72-byte leaf tells apart every stored account |
| `WorldState.ReadsSurviveFlush` | crates/state/src/state.rs:348-383 | balance, nonce and storage read the same before and after a flush, and afterwards the store alone gives the same answers |
| `WorldState.FlushIsIdempotent` | crates/state/src/state.rs:417-431 | a second flush changes nothing (contracts too, when a code hash determines its bytes) |
| `WorldState.FlushKeepsMirror` | crates/state/src/state.rs:417-431 | a flush keeps the trie's keys equal to the stored accounts' and each leaf the encoding of its account |
| `WorldState.FlushedCode` | crates/state/src/state.rs:91-96 | the code of every cached account that has any is stored under its code hash, when a code hash determines its bytes |
| `WorldState.ReadOnlyFlushKeepsTrie` | crates/state/src/state.rs:417-431 | flushing stored accounts that were only read leaves the trie as it was |
| `WorldState.TrieUnchangedExactlyWhen` | crates/state/src/state.rs:417-431 | a flush leaves the trie as it was if and only if every cached account is stored with the balance, nonce and code hash it is cached with |
| `WorldState.AbsentReadAddsLeaf` | crates/state/src/state.rs:417-431 | flushing a cached account that does not exist in the store adds its leaf, although its balance and nonce read as before |
| `WorldState.MirrorOnEveryRun` | crates/state/src/state.rs:294-336 | from genesis through any executions and flushes the trie mirrors the stored accounts |
| `WorldState.GenesisReads` | crates/state/src/state.rs:298-319 | balance, nonce and slot of every address read as allocated, and 0 where nothing is; accounts are stored for the allocated addresses alone, each leaf being its nonce, its balance and the empty code hash |
| `WorldState.GenesisCode` | crates/state/src/state.rs:304-309 | genesis code is stored under the empty code hash, and kept there when all allocations with code have the same |
| `WorldState.EqualTriesEqualAccounts` | crates/state/src/state.rs:434-441 | two mirrored states with the same trie hold the same accounts |
| `BlockHashes.RecordKeepsWindow` | crates/state/src/state.rs:405-413 | recording any number, old, new or repeated, keeps memory equal to the 256 largest recorded numbers |
| `BlockHashes.WindowOnEveryRun` | crates/state/src/state.rs:405-413 | after any sequence of records memory is the persistent map restricted to its 256 largest numbers, or all if fewer |
| `BlockHashes.WindowIsUnique` | crates/state/src/state.rs:405-413 | what was recorded determines the window |
| `EvmState.InsertSlots` | crates/state/src/state.rs:423-425 | writing an account's slots in any order gives the same storage |
| `EvmState.PersistOne` | crates/state/src/state.rs:87-102 | writing one account, its slots and its leaf extends the batch by exactly that account |
| `EvmState.PersistAll` | crates/state/src/state.rs:417-431 | in any iteration order, accounts, storage and trie are one function of the state before (contracts too, when a code hash determines its bytes) |
| `EvmState.BuildGenesis` | crates/state/src/state.rs:294-319 | the allocations written into an empty store, in any order, read as allocated, with the trie mirroring them |
| `EvmState.Flush` | crates/state/src/state.rs:417-431 | the flushed state, with the mirror kept |
| `EvmState.EvmState.FromGenesis` | crates/state/src/state.rs:294-336 | the state reads exactly as allocated, address by address and slot by slot, with its leaves as stated above, mirrored, and with no block hashes |
| `EvmState.EvmState.FlushCacheToVsdb` | crates/state/src/state.rs:417-431 | the state after is the flushed state, block hashes untouched |
| `EvmState.EvmState.RecordBlockHash` | crates/state/src/state.rs:405-413 | both maps after a record, the window of 256 kept |
| `EndToEnd.GenuineOnEveryRun` | crates/txpool/src/lib.rs:98-106 | on every run that submits what some bytes decode to, every held entry is what its own bytes decode to |
| `EndToEnd.AllReach` | crates/execution/src/executor.rs:248-271 | due transactions of distinct senders whose gas limits fit the block all reach the EVM |
| `EndToEnd.EveryCollectedTxReachesTheEvm` | crates/execution/src/executor.rs:402-408 | from a ready pool the payload decodes to the transactions taken, and executed on that state none is skipped for its nonce and the gas check never stops the loop |
| `EndToEnd.SettleMakesDue` | crates/txpool/src/lib.rs:251-284 | settling a contiguous queue leaves its head at the account nonce if and only if the head was not one past a nonce that did not move |
| `EndToEnd.ReadyAgainExactlyWhen` | crates/txpool/src/lib.rs:185-293 | after collecting from a ready pool and committing, the pool is ready again if and only if the nonce moved for every sender taken that had more pending |
| `EndToEnd.CycleKeepsReadyExactlyWhen` | crates/execution/src/executor.rs:215-423 | one whole cycle leaves the pool ready if and only if every collected transaction got a receipt or was its sender's only pending one |
| `EndToEnd.FlushedBlocksFormChain` | crates/execution/src/executor.rs:385-386 | blocks executed on the world state with a flush after each form a chain, so nothing is executed twice across flushes |
| `OrderlyRuns.SubmitKeepsReady` | crates/txpool/src/lib.rs:119-174 | a submission, accepted or not, leaves a contiguous ready pool ready |
| `OrderlyRuns.CommitMakesReadyExactlyWhen` | crates/txpool/src/lib.rs:244-293 | after a commit every head is at its account nonce if and only if no sender's head was one past a nonce that did not move |
| `OrderlyRuns.ReadyOnOrderlyRuns` | crates/txpool/src/lib.rs:98-293 | on every run with coherent lookups, at most one collection between commits, and commits that move the nonce of every sender with a transaction out: always contiguous, and ready whenever nothing is out |
| `OrderlyRuns.OrderlyIsDisciplined` | crates/txpool/src/lib.rs:185-241 | on such a run every head collected is at its account nonce, so the contiguity theorem applies to it |
| `OrderlyRuns.EveryPayloadReachesTheEvm` | crates/execution/src/executor.rs:402-408 | at every moment of such a run with nothing out, the payload parses and decodes to the transactions taken, and executed on the state the lookups describe all of them reach the EVM |
| `Deduplication.SubmissionDoublesExactlyWhen` | crates/txpool/src/lib.rs:128-174 | in a contiguous queue that holds each nonce once, an accepted submission leaves it so if and only if it is not for the nonce after one that is out |
| `Deduplication.HeldOnceExactlyWhen` | docs/architecture.md:70 | on every disciplined run, each (sender, nonce) is held at most once up to any moment if and only if no submission accepted so far was of that kind |
| `Machine.BlockMovesNonces` | crates/execution/src/executor.rs:248-374 | on the machine, no nonce of an externally owned account falls over a block, and those of the payload that was out all rise |
| `Machine.KeptOnEveryRun` | crates/execution/src/executor.rs:215-423 | on every run that receives any bytes, proposes when nothing is out, and finalizes its own payload or anybody's block: the pool is sound, genuine and contiguous, ready whenever nothing is out, and a payload that is out would run in full on the present world |
| `Machine.EveryPayloadRunsInFull` | crates/execution/src/executor.rs:215-423 | on every such run a block that carries the payload out decodes to the transactions taken, attempts and executes every one, gives each a receipt, and the commit leaves every head at its account nonce |
| `Counterexamples.TwoCollectionsLeaveHole` | crates/txpool/src/lib.rs:185-241 | a run of three submissions, two collections and one more accepted submission, all lookups answering 0, after which pending has a hole |
| `Counterexamples.CheaperReplacementIsAccepted` | crates/txpool/src/lib.rs:137-151 | for every tip above (2^64 - 1) / 100, a run of two submissions that replaces it by a lower one |
| `Counterexamples.EmptyBlockLeavesUnready` | crates/txpool/src/lib.rs:244-293 | a run of two submissions, a collection and a commit at the old nonce that leaves the pool not ready |
| `Counterexamples.OneNonceHeldTwice` | crates/txpool/src/lib.rs:128-135 | a run of two submissions, a collection and one more accepted submission after which a nonce is both pending and queued |
| `Counterexamples.ReachedIsCoherent` | crates/txpool/src/lib.rs:115-123 | every lookup on these runs is coherent |
| `Counterexamples.CutFeeHidesTheTip` | crates/types/src/tx.rs:156-161 | at every base fee, an admitted envelope whose pool tip is 0 and whose receipt tip is 1 |

## Left out

- Nonce 2^64 - 1, which EIP-2681 forbids, and a replacement bump for which `100 + pct` overflows: excluded by the types `Nonce` and `BumpPct`.
- Overflow panics of debug builds: arithmetic is that of a release build.
- EVM internals, envelope decoding, signature recovery and Keccak: foreign code, kept as the stated contracts above.
- vsdb and the Merkle trie's own structure, and their error paths: plain maps. A transfer that fails with a database error is not told apart from one that is refused.
- Executor.EvmExecutor.ExecuteBlock: recording the parent hash, flushing and taking the root are functions of an abstract state, since the executor is generic in it; `EvmState` models the first two, and `FlushedBlocksFormChain` connects them. The coinbase and timestamp are part of the EVM step.
- Execution.GasAccounting: logs, bloom, contract address and block hash of a receipt are not modelled.
- TxPool.EvmTxPool.CollectPayload: a candidate carries its pool entry, so the gas limit is read from it rather than looked up again under the same lock; a sender's queue is a value that is put back, so aliasing of a borrowed queue is not captured.
- GasLimit.GasLimitHoldsExactlyWhen: its failing half is shown where the byte limit has room for k transactions of 32 bytes and the pending cap is positive; its holding half, `Payload.GasIsBounded`, needs neither.
- Payload.PayloadParsesBack: payloads of 4 GiB and more, where a length no longer fits its prefix; the executor asks for 4 MiB.
- EvmState.EvmState.RecordBlockHash: block numbers are the keys themselves, not their 8-byte encoding.
- EvmState.EvmState.FromGenesis: chain configuration is not kept; a genesis contract's bytes are stored as given, without the padding of the foreign bytecode type, under the default code hash the source leaves in place.
- Staking.SolvencyOnEveryRun: calls whose enclosing frame reverts, and dry runs, since the ledger lives outside the journal and is not rolled back; calls from the staking address itself; supplies of 2^256 and more.
- Staking.DelegationKeepsSolventExactlyWhen: a supply of exactly 2^256 - 1, at which a delegation by the staking address to itself could saturate and still look backed.
- Choosing a precompile by address, warm addresses and input taken from shared memory: dispatch code.
- Reading contract code, and setting nonces and balances directly: used by queries and tests only.
- Locks, poisoning and threads: each public operation holds its lock throughout and is one step.
- JSON-RPC, node start-up, cluster tools, benchmarks, block sync, genesis and receipt serialisation, log filters and the admission priority of `validate_tx`'s caller: I/O, wiring and easy members.
