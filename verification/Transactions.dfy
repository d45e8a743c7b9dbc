/**
 Decoded transactions and the arithmetic of crates/types/src/tx.rs: admission checks,
 intrinsic gas and tips, tied to the price the executor puts on a receipt.
 */
module Transactions {
  import opened Primitives

  /** The envelope accessors the node reads. Signature and encoding stay outside. */
  datatype Envelope = Envelope(
    chainId: Option<U64>,
    nonce: Nonce,
    gasLimit: U64,
    maxFee: U128,
    maxPriority: Option<U128>,
    to: Option<Address>,
    value: U256,
    input: Bytes)

  datatype VerifiedTx = VerifiedTx(raw: Bytes, envelope: Envelope, sender: Address, txHash: Hash)

  /** Decoding and signature recovery are foreign: a partial function from bytes. */
  type Decoder = Bytes -> Option<VerifiedTx>

  /** What the pool and the executor rely on: a decoded transaction keeps the bytes it came from. */
  ghost predicate KeepsRaw(decode: Decoder) {
    forall raw: Bytes :: decode(raw).Some? ==> decode(raw).value.raw == raw
  }

  datatype TxError =
    | ChainIdMismatch(expectedId: U64, gotId: U64)
    | NonceTooLow(expectedNonce: U64, gotNonce: U64)
    | GasLimitExceedsBlock(txGas: U64, blockLimit: U64)
    | IntrinsicGasTooLow(requiredGas: U64, gotGas: U64)
    | InsufficientBalance(required: U256, available: U256)

  // ----- Intrinsic gas -----

  function ByteCost(b: Byte): U64 {
    if b == 0 then 4 else 16
  }

  /** The saturating left fold over the call data. */
  function DataGas(input: Bytes, acc: U64): U64
    decreases |input|
  {
    if input == [] then acc else DataGas(input[1..], SatAdd64(acc, ByteCost(input[0])))
  }

  function BaseGas(to: Option<Address>): U64 {
    if to.Some? then 21_000 else 53_000
  }

  function IntrinsicGas(tx: Envelope): U64 {
    SatAdd64(BaseGas(tx.to), DataGas(tx.input, 0))
  }

  /** How many bytes of `s` are zero. */
  function Zeros(s: Bytes): (z: nat)
    ensures z <= |s|
  {
    if s == [] then 0 else (if s[0] == 0 then 1 else 0) + Zeros(s[1..])
  }

  lemma {:induction false} DataGasIsClamped(input: Bytes, acc: U64)
    ensures DataGas(input, acc) == Min(acc + 16 * |input| - 12 * Zeros(input), TWO_64 - 1)
    decreases |input|
  {
    if input == [] {
    } else {
      DataGasIsClamped(input[1..], SatAdd64(acc, ByteCost(input[0])));
    }
  }

  /** The two saturating folds compute the exact price list of call data, clamped to a u64 once. */
  lemma IntrinsicGasIsExact(tx: Envelope)
    ensures IntrinsicGas(tx)
            == Min((if tx.to == None then 53_000 else 21_000) + 16 * |tx.input| - 12 * Zeros(tx.input), TWO_64 - 1)
  {
    DataGasIsClamped(tx.input, 0);
  }

  // ----- Admission -----

  /** `validate_tx`: the first failing check, or None on acceptance. Sums of 256-bit words wrap. */
  function ValidateTx(tx: Envelope, chainId: U64, accountNonce: U64, balance: U256,
                      blockGasLimit: U64, baseFee: U64): Option<TxError>
  {
    if tx.chainId.Some? && tx.chainId.value != chainId then
      Some(ChainIdMismatch(chainId, tx.chainId.value))
    else if tx.nonce < accountNonce then
      Some(NonceTooLow(accountNonce, tx.nonce))
    else if tx.gasLimit > blockGasLimit then
      Some(GasLimitExceedsBlock(tx.gasLimit, blockGasLimit))
    else if tx.gasLimit < IntrinsicGas(tx) then
      Some(IntrinsicGasTooLow(IntrinsicGas(tx), tx.gasLimit))
    else
      var upfront := MaxCost(tx, baseFee) % TWO_256;
      if upfront > balance then Some(InsufficientBalance(upfront, balance)) else None
  }

  /** The largest amount the transaction can cost its sender, as a mathematical integer. */
  function MaxCost(tx: Envelope, baseFee: U64): nat {
    MulNat(tx.gasLimit, Max(tx.maxFee, baseFee));
    tx.gasLimit * Max(tx.maxFee, baseFee) + tx.value
  }

  /**
   Admission in plain integers: acceptance depends on no saturation and on no order of the checks,
   only on the 256-bit wrap of the upfront cost; each error means that its own check fails and
   those before it do not.
   */
  lemma AdmittedExactlyWhen(tx: Envelope, chainId: U64, accountNonce: U64, balance: U256,
                            blockGasLimit: U64, baseFee: U64)
    ensures var r := ValidateTx(tx, chainId, accountNonce, balance, blockGasLimit, baseFee);
            var rightChain := tx.chainId == None || tx.chainId == Some(chainId);
            var newEnough := accountNonce <= tx.nonce;
            var fits := tx.gasLimit <= blockGasLimit;
            var intrinsic := Min((if tx.to == None then 53_000 else 21_000) + 16 * |tx.input| - 12 * Zeros(tx.input), TWO_64 - 1);
            var enough := intrinsic <= tx.gasLimit;
            var cost := (tx.gasLimit * Max(tx.maxFee, baseFee) + tx.value) % TWO_256;
            && (r == None <==> rightChain && newEnough && fits && enough && cost <= balance)
            && (r.Some? && r.value.ChainIdMismatch? <==> !rightChain)
            && (r.Some? && r.value.NonceTooLow? <==> rightChain && !newEnough)
            && (r.Some? && r.value.GasLimitExceedsBlock? <==> rightChain && newEnough && !fits)
            && (r.Some? && r.value.IntrinsicGasTooLow? <==> rightChain && newEnough && fits && !enough)
            && (r.Some? && r.value.InsufficientBalance? <==> rightChain && newEnough && fits && enough && cost > balance)
  {
    IntrinsicGasIsExact(tx);
  }

  /** The figures an error reports: what was asked for and what there is. */
  lemma ErrorsReport(tx: Envelope, chainId: U64, accountNonce: U64, balance: U256, blockGasLimit: U64, baseFee: U64)
    ensures match ValidateTx(tx, chainId, accountNonce, balance, blockGasLimit, baseFee)
            case None => true
            case Some(ChainIdMismatch(expected, got)) => expected == chainId && tx.chainId == Some(got)
            case Some(NonceTooLow(expected, got)) => expected == accountNonce && got == tx.nonce
            case Some(GasLimitExceedsBlock(gas, limit)) => gas == tx.gasLimit && limit == blockGasLimit
            case Some(IntrinsicGasTooLow(required, got)) =>
              && required == Min((if tx.to == None then 53_000 else 21_000) + 16 * |tx.input| - 12 * Zeros(tx.input), TWO_64 - 1)
              && got == tx.gasLimit
            case Some(InsufficientBalance(required, available)) =>
              required == (tx.gasLimit * Max(tx.maxFee, baseFee) + tx.value) % TWO_256 && available == balance
  {
    IntrinsicGasIsExact(tx);
  }

  lemma MulNat(a: nat, b: nat)
    ensures a * b >= 0
  {
  }

  // ----- Tips and prices -----

  /** The pool's tip. Both fees are cut to 64 bits first. */
  function EffectiveGasTip(tx: Envelope, baseFee: U64): U64 {
    Min(SatSub(tx.maxFee % TWO_64, baseFee), Priority(tx) % TWO_64)
  }

  function Priority(tx: Envelope): U128 {
    if tx.maxPriority.Some? then tx.maxPriority.value else 0
  }

  /** The tip in a receipt's price, in full 128-bit arithmetic. */
  function ReceiptTip(tx: Envelope, baseFee: U64): U128 {
    Min(SatSub(tx.maxFee, baseFee), Priority(tx))
  }

  /** The receipt's `effective_gas_price`, a saturating 128-bit sum. */
  function EffectiveGasPrice(tx: Envelope, baseFee: U64): U128 {
    if baseFee + ReceiptTip(tx, baseFee) < TWO_128
    then baseFee + ReceiptTip(tx, baseFee)
    else TWO_128 - 1
  }

  lemma MulMono(a: nat, b: nat, x: nat, y: nat)
    requires a <= b && x <= y
    ensures a * x <= b * y
  {
    assert a * x <= b * x;
    assert b * x <= b * y;
  }

  /** The price never exceeds what admission reserved, and its saturation never happens. */
  lemma PriceIsCovered(tx: Envelope, baseFee: U64)
    ensures EffectiveGasPrice(tx, baseFee) == baseFee + ReceiptTip(tx, baseFee)
    ensures baseFee <= EffectiveGasPrice(tx, baseFee) <= Max(tx.maxFee, baseFee)
  {
  }

  /**
   The price of EIP-1559: the base fee plus the priority fee, capped by the fee cap; the base fee
   alone when the cap is below it. A legacy transaction has no priority fee.
   */
  lemma PriceIsStandard(tx: Envelope, baseFee: U64)
    ensures var priority := match tx.maxPriority case Some(p) => p case None => 0;
            EffectiveGasPrice(tx, baseFee)
            == if tx.maxFee < baseFee then baseFee else Min(tx.maxFee, baseFee + priority)
    ensures tx.maxPriority == None ==> ReceiptTip(tx, baseFee) == 0 && EffectiveGasTip(tx, baseFee) == 0
  {
  }

  /** The pool's tip, by what bounds it: the largest tip within both fees once each is cut to 64 bits. */
  lemma PoolTipIsLargest(tx: Envelope, baseFee: U64, tip: U64)
    ensures var priority := match tx.maxPriority case Some(p) => p case None => 0;
            tip <= EffectiveGasTip(tx, baseFee)
            <==> tip <= priority % TWO_64 && (tip == 0 || baseFee + tip <= tx.maxFee % TWO_64)
  {
  }

  /**
   An accepted transaction can be paid for, whatever it ends up using, exactly when the
   256-bit upfront sum did not wrap.
   */
  lemma Affordability(tx: Envelope, chainId: U64, accountNonce: U64, balance: U256,
                      blockGasLimit: U64, baseFee: U64)
    ensures ValidateTx(tx, chainId, accountNonce, balance, blockGasLimit, baseFee) == None ==>
              (MaxCost(tx, baseFee) <= balance <==> MaxCost(tx, baseFee) < TWO_256)
    ensures ValidateTx(tx, chainId, accountNonce, balance, blockGasLimit, baseFee) == None && MaxCost(tx, baseFee) < TWO_256 ==>
              forall gasUsed: nat :: gasUsed <= tx.gasLimit ==>
                gasUsed * EffectiveGasPrice(tx, baseFee) + tx.value <= balance
  {
    WrapOnly(MaxCost(tx, baseFee), balance);
    forall gasUsed: nat | gasUsed <= tx.gasLimit
      ensures gasUsed * EffectiveGasPrice(tx, baseFee) + tx.value <= MaxCost(tx, baseFee)
    {
      UseIsReserved(tx, baseFee, gasUsed);
    }
  }

  lemma WrapOnly(cost: nat, balance: U256)
    ensures cost % TWO_256 <= balance ==> (cost <= balance <==> cost < TWO_256)
  {
  }

  lemma UseIsReserved(tx: Envelope, baseFee: U64, gasUsed: nat)
    requires gasUsed <= tx.gasLimit
    ensures gasUsed * EffectiveGasPrice(tx, baseFee) + tx.value <= MaxCost(tx, baseFee)
  {
    PriceIsCovered(tx, baseFee);
    MulMono(gasUsed, tx.gasLimit, EffectiveGasPrice(tx, baseFee), Max(tx.maxFee, baseFee));
  }

  /**
   The same for any price up to the one reserved, such as the full gas price the EVM takes for a
   legacy transaction, whose receipt reports the base fee alone.
   */
  lemma AnyReservedPriceIsAfforded(tx: Envelope, chainId: U64, accountNonce: U64, balance: U256,
                                   blockGasLimit: U64, baseFee: U64, gasUsed: nat, price: nat)
    requires gasUsed <= tx.gasLimit && price <= Max(tx.maxFee, baseFee)
    ensures ValidateTx(tx, chainId, accountNonce, balance, blockGasLimit, baseFee) == None && MaxCost(tx, baseFee) < TWO_256
            ==> gasUsed * price + tx.value <= balance
  {
    MulMono(gasUsed, tx.gasLimit, price, Max(tx.maxFee, baseFee));
    Affordability(tx, chainId, accountNonce, balance, blockGasLimit, baseFee);
  }

  /** Admission that wraps: a sender holding one unit is accepted for a cost of 2^256. */
  lemma WrappedUpfrontIsAccepted()
    ensures exists tx: Envelope, balance: U256 ::
              && ValidateTx(tx, 1, 0, balance, 30_000_000, 1) == None
              && MaxCost(tx, 1) > balance
  {
    var tx := Envelope(None, 0, 21_000, 1, None, Some(0), TWO_256 - 21_000, []);
    assert DataGas([], 0) == 0;
    assert MaxCost(tx, 1) == TWO_256;
    assert ValidateTx(tx, 1, 0, 1, 30_000_000, 1) == None;
    assert MaxCost(tx, 1) > 1;
  }

  /** Neither cut fee is the one that binds the tip. */
  predicate CutsAreHarmless(tx: Envelope, baseFee: U64) {
    && (Priority(tx) < TWO_64 || SatSub(tx.maxFee, baseFee) <= Priority(tx) % TWO_64)
    && (tx.maxFee < TWO_64 || Priority(tx) <= SatSub(tx.maxFee % TWO_64, baseFee))
  }

  /**
   The tip the pool ranks by is never above the receipt's, and the two agree exactly when
   no 64-bit cut bites; in particular for all fees below 2^64, whatever the base fee.
   */
  lemma PoolTipIsReceiptTip(tx: Envelope, baseFee: U64)
    ensures EffectiveGasTip(tx, baseFee) <= ReceiptTip(tx, baseFee)
    ensures EffectiveGasPrice(tx, baseFee) == baseFee + EffectiveGasTip(tx, baseFee)
            <==> CutsAreHarmless(tx, baseFee)
    ensures tx.maxFee < TWO_64 && Priority(tx) < TWO_64 ==> CutsAreHarmless(tx, baseFee)
  {
    PriceIsCovered(tx, baseFee);
    CutIsSmaller(tx.maxFee);
    CutIsSmaller(Priority(tx));
  }

  lemma CutIsSmaller(v: U128)
    ensures v < TWO_64 ==> v % TWO_64 == v
    ensures v >= TWO_64 ==> v % TWO_64 <= v - TWO_64
  {
    assert v == TWO_64 * (v / TWO_64) + v % TWO_64;
    if v >= TWO_64 {
      assert v / TWO_64 >= 1;
    }
  }
}
