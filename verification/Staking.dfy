/**
 The Balances and Staking precompiles of crates/precompile/src/lib.rs. The delegation ledger lives
 outside the EVM journal; what backs it is the balance of the staking address.
 */
module Staking {
  import opened Primitives
  import opened Finite

  const STAKING_ADDR: Address := 0x0801

  const PRECOMPILE_BASE_GAS: U64 := 150
  const PRECOMPILE_WRITE_GAS: U64 := 500

  const SEL_BALANCE_OF: Bytes := [0x70, 0xa0, 0x82, 0x31]
  const SEL_TRANSFER: Bytes := [0xa9, 0x05, 0x9c, 0xbb]
  const SEL_DELEGATE: Bytes := [0x02, 0x6e, 0x40, 0x2b]
  const SEL_UNBOND: Bytes := [0xa5, 0xd0, 0x59, 0xca]
  const SEL_GET_STAKE: Bytes := [0x82, 0xdd, 0xa2, 0x2d]
  const SEL_TOTAL_STAKE: Bytes := [0xb2, 0x73, 0xfc, 0x9a]

  /** (delegator, validator) */
  type Pair = (Address, Address)
  type Delegations = map<Pair, U256>
  type Balances = map<Address, U256>

  /** The delegation ledger and the journal's balances. */
  datatype Ledgers = Ledgers(delegations: Delegations, balances: Balances)

  datatype Status = Return | Revert | PrecompileError | PrecompileOOG

  datatype Call = Call(caller: Address, input: Bytes, gasLimit: U64)

  datatype CallResult = CallResult(status: Status, gasLeft: U64, output: Bytes)

  function BalanceOf(b: Balances, a: Address): U256 {
    if a in b then b[a] else 0
  }

  /** The journal's checked transfer: nothing moves when funds are short or the receiver would overflow. */
  function Transfer(b: Balances, from: Address, to: Address, amount: U256): Option<Balances> {
    if BalanceOf(b, from) < amount then None
    else if from == to then Some(b)
    else if BalanceOf(b, to) + amount >= TWO_256 then None
    else Some(b[from := BalanceOf(b, from) - amount][to := BalanceOf(b, to) + amount])
  }

  // ----- The delegation ledger -----

  function Stake(d: Delegations, k: Pair): U256 {
    if k in d then d[k] else 0
  }

  function Delegate(d: Delegations, k: Pair, amount: U256): Delegations {
    d[k := SatAdd256(Stake(d, k), amount)]
  }

  /** The entry is created before the check, so a refused unbond leaves a zero entry behind. */
  function Unbond(d: Delegations, k: Pair, amount: U256): (Delegations, bool) {
    if Stake(d, k) < amount then (d[k := Stake(d, k)], false)
    else (d[k := SatSub(Stake(d, k), amount)], true)
  }

  /** The delegations to one validator. */
  function DelegatedTo(d: Delegations, validator: Address): Delegations {
    map k | k in d && k.1 == validator :: d[k]
  }

  /** The sum of a validator's delegations, clamped to a word. */
  ghost function TotalStake(d: Delegations, validator: Address): U256 {
    Min(Sum(DelegatedTo(d, validator)), TWO_256 - 1)
  }

  // ----- The calls -----

  function Fail(status: Status, gas: U64): CallResult {
    CallResult(status, gas, if status == Revert then WordBytes(0) else [])
  }

  /** Length check, then the gas charge; None when the call may go on. */
  function Refused(call: Call, length: nat, cost: U64): Option<CallResult> {
    if |call.input| < length then Some(Fail(PrecompileError, call.gasLimit))
    else if call.gasLimit < cost then Some(Fail(PrecompileOOG, call.gasLimit))
    else None
  }

  function Done(call: Call, cost: U64, value: U256): CallResult
    requires cost <= call.gasLimit
  {
    CallResult(Return, call.gasLimit - cost, WordBytes(value))
  }

  function FirstAddress(input: Bytes): Address
    requires |input| >= 36
  {
    AddressFrom(input[16..36])
  }

  function SecondAddress(input: Bytes): Address
    requires |input| >= 68
  {
    AddressFrom(input[48..68])
  }

  function SecondWord(input: Bytes): U256
    requires |input| >= 68
  {
    WordFrom(input[36..68])
  }

  /** Lock the caller's tokens, then record the delegation. */
  function DelegateCall(l: Ledgers, caller: Address, validator: Address, amount: U256): Option<Ledgers> {
    match Transfer(l.balances, caller, STAKING_ADDR, amount)
    case Some(b) => Some(Ledgers(Delegate(l.delegations, (caller, validator), amount), b))
    case None => None
  }

  /** Take the stake off the ledger first, then pay; a failed payment does not put it back. */
  function UnbondCall(l: Ledgers, caller: Address, validator: Address, amount: U256): (Ledgers, bool) {
    var (d, enough) := Unbond(l.delegations, (caller, validator), amount);
    if !enough then (Ledgers(d, l.balances), false)
    else
      match Transfer(l.balances, STAKING_ADDR, caller, amount)
      case Some(b) => (Ledgers(d, b), true)
      case None => (Ledgers(d, l.balances), false)
  }

  /** `run_staking`. */
  ghost function RunStaking(l: Ledgers, call: Call): (Ledgers, CallResult) {
    if |call.input| < 4 then (l, Fail(PrecompileError, call.gasLimit))
    else
      var selector := call.input[..4];
      if selector == SEL_DELEGATE then
        var refused := Refused(call, 68, PRECOMPILE_WRITE_GAS);
        if refused.Some? then (l, refused.value)
        else
          match DelegateCall(l, call.caller, FirstAddress(call.input), SecondWord(call.input))
          case Some(l') => (l', Done(call, PRECOMPILE_WRITE_GAS, 1))
          case None => (l, Fail(Revert, call.gasLimit - PRECOMPILE_WRITE_GAS))
      else if selector == SEL_UNBOND then
        var refused := Refused(call, 68, PRECOMPILE_WRITE_GAS);
        if refused.Some? then (l, refused.value)
        else
          var (l', ok) := UnbondCall(l, call.caller, FirstAddress(call.input), SecondWord(call.input));
          (l', if ok then Done(call, PRECOMPILE_WRITE_GAS, 1) else Fail(Revert, call.gasLimit - PRECOMPILE_WRITE_GAS))
      else if selector == SEL_GET_STAKE then
        var refused := Refused(call, 68, PRECOMPILE_BASE_GAS);
        if refused.Some? then (l, refused.value)
        else (l, Done(call, PRECOMPILE_BASE_GAS, Stake(l.delegations, (FirstAddress(call.input), SecondAddress(call.input)))))
      else if selector == SEL_TOTAL_STAKE then
        var refused := Refused(call, 36, PRECOMPILE_BASE_GAS);
        if refused.Some? then (l, refused.value)
        else (l, Done(call, PRECOMPILE_BASE_GAS, TotalStake(l.delegations, FirstAddress(call.input))))
      else (l, Fail(PrecompileError, call.gasLimit))
  }

  /** `run_balances`. */
  function RunBalances(b: Balances, call: Call): (Balances, CallResult) {
    if |call.input| < 4 then (b, Fail(PrecompileError, call.gasLimit))
    else
      var selector := call.input[..4];
      if selector == SEL_BALANCE_OF then
        var refused := Refused(call, 36, PRECOMPILE_BASE_GAS);
        if refused.Some? then (b, refused.value)
        else (b, Done(call, PRECOMPILE_BASE_GAS, BalanceOf(b, FirstAddress(call.input))))
      else if selector == SEL_TRANSFER then
        var refused := Refused(call, 68, PRECOMPILE_WRITE_GAS);
        if refused.Some? then (b, refused.value)
        else
          match Transfer(b, call.caller, FirstAddress(call.input), SecondWord(call.input))
          case Some(b') => (b', Done(call, PRECOMPILE_WRITE_GAS, 1))
          case None => (b, Fail(Revert, call.gasLimit - PRECOMPILE_WRITE_GAS))
      else (b, Fail(PrecompileError, call.gasLimit))
  }

  // ----- Conservation -----

  lemma TransferConserves(b: Balances, from: Address, to: Address, amount: U256)
    requires Transfer(b, from, to, amount).Some?
    ensures var b' := Transfer(b, from, to, amount).value;
            && Sum(b') == Sum(b)
            && (forall a :: a != from && a != to ==> BalanceOf(b', a) == BalanceOf(b, a))
            && (from != to ==> BalanceOf(b', from) == BalanceOf(b, from) - amount
                               && BalanceOf(b', to) == BalanceOf(b, to) + amount)
            && (from == to ==> b' == b)
  {
    if from != to {
      var b1 := b[from := BalanceOf(b, from) - amount];
      SumUpdate(b, from, BalanceOf(b, from) - amount);
      SumUpdate(b1, to, BalanceOf(b, to) + amount);
    }
  }

  /** With the supply below 2^256 a transfer fails only for want of funds. */
  lemma TransferFailsOnlyShort(b: Balances, from: Address, to: Address, amount: U256)
    requires Sum(b) < TWO_256
    ensures Transfer(b, from, to, amount).None? <==> BalanceOf(b, from) < amount
  {
    if from != to && BalanceOf(b, from) >= amount {
      TwoBalances(b, from, to);
    }
  }

  lemma TwoBalances(b: Balances, x: Address, y: Address)
    requires x != y
    ensures BalanceOf(b, x) + BalanceOf(b, y) <= Sum(b)
  {
    if x in b {
      SumRemove(b, x);
      if y in b {
        SumAtLeast(b - {x}, y);
      }
    } else if y in b {
      SumAtLeast(b, y);
    }
  }

  lemma BalanceBelowSupply(b: Balances, a: Address)
    ensures BalanceOf(b, a) <= Sum(b)
  {
    if a in b {
      SumAtLeast(b, a);
    }
  }

  // ----- Solvency -----

  /** Every delegated token is locked at the staking address, and the supply fits a word. */
  ghost predicate Solvent(l: Ledgers) {
    && Sum(l.delegations) <= BalanceOf(l.balances, STAKING_ADDR)
    && Sum(l.balances) < TWO_256
  }

  /** One entry of the ledger changed by exactly `change`; no other did. */
  predicate Moved(d: Delegations, d': Delegations, k: Pair, change: int) {
    && d' == d[k := Stake(d', k)]
    && Stake(d', k) == Stake(d, k) + change
  }

  lemma StakeBelowTotal(d: Delegations, k: Pair)
    ensures Stake(d, k) <= Sum(d)
  {
    if k in d {
      SumAtLeast(d, k);
    }
  }

  /** In a solvent state the saturating sum of a delegation does not saturate. */
  lemma DelegateIsExact(l: Ledgers, k: Pair, amount: U256)
    requires Solvent(l) && k.0 != STAKING_ADDR && amount <= BalanceOf(l.balances, k.0)
    ensures Stake(l.delegations, k) + amount < TWO_256
    ensures Sum(Delegate(l.delegations, k, amount)) == Sum(l.delegations) + amount
  {
    StakeBelowTotal(l.delegations, k);
    TwoBalances(l.balances, k.0, STAKING_ADDR);
    SumUpdate(l.delegations, k, Stake(l.delegations, k) + amount);
  }

  /**
   A delegation from any caller but the staking address moves stake and tokens together, by the
   same amount, or changes nothing; it goes through exactly when the caller has the tokens.
   */
  lemma DelegateCallIsSound(l: Ledgers, caller: Address, validator: Address, amount: U256)
    requires Solvent(l) && caller != STAKING_ADDR
    ensures DelegateCall(l, caller, validator, amount).Some? <==> amount <= BalanceOf(l.balances, caller)
    ensures match DelegateCall(l, caller, validator, amount)
            case None => true
            case Some(l') =>
              && Solvent(l') && Sum(l'.balances) == Sum(l.balances)
              && Moved(l.delegations, l'.delegations, (caller, validator), amount)
              && BalanceOf(l'.balances, caller) == BalanceOf(l.balances, caller) - amount
              && BalanceOf(l'.balances, STAKING_ADDR) == BalanceOf(l.balances, STAKING_ADDR) + amount
              && forall a :: a != caller && a != STAKING_ADDR ==> BalanceOf(l'.balances, a) == BalanceOf(l.balances, a)
  {
    TransferFailsOnlyShort(l.balances, caller, STAKING_ADDR, amount);
    if amount <= BalanceOf(l.balances, caller) {
      TransferConserves(l.balances, caller, STAKING_ADDR, amount);
      DelegateIsExact(l, (caller, validator), amount);
    }
  }

  /**
   An unbond goes through exactly when the stake covers it: the payment cannot fail. It moves
   stake and tokens together, or leaves every stake and every balance as it was.
   */
  lemma UnbondCallIsSound(l: Ledgers, caller: Address, validator: Address, amount: U256)
    requires Solvent(l) && caller != STAKING_ADDR
    ensures var (l', ok) := UnbondCall(l, caller, validator, amount);
            && (ok <==> amount <= Stake(l.delegations, (caller, validator)))
            && Solvent(l') && Sum(l'.balances) == Sum(l.balances)
            && (!ok ==> l'.balances == l.balances && forall k :: Stake(l'.delegations, k) == Stake(l.delegations, k))
            && (ok ==>
                  && Moved(l.delegations, l'.delegations, (caller, validator), -(amount as int))
                  && BalanceOf(l'.balances, caller) == BalanceOf(l.balances, caller) + amount
                  && BalanceOf(l'.balances, STAKING_ADDR) == BalanceOf(l.balances, STAKING_ADDR) - amount
                  && forall a :: a != caller && a != STAKING_ADDR ==> BalanceOf(l'.balances, a) == BalanceOf(l.balances, a))
  {
    var k := (caller, validator);
    StakeBelowTotal(l.delegations, k);
    SumUpdate(l.delegations, k, Stake(l.delegations, k));
    if amount <= Stake(l.delegations, k) {
      TransferFailsOnlyShort(l.balances, STAKING_ADDR, caller, amount);
      TransferConserves(l.balances, STAKING_ADDR, caller, amount);
      SumUpdate(l.delegations, k, Stake(l.delegations, k) - amount);
    }
  }

  /**
   Outside solvent states an unbond can lose stake: within the stake, it is all or nothing exactly
   when the staking address holds the amount.
   */
  lemma UnbondIsAtomicExactlyWhen(l: Ledgers, caller: Address, validator: Address, amount: U256)
    requires Sum(l.balances) < TWO_256 && 0 < amount <= Stake(l.delegations, (caller, validator))
    ensures var (l', ok) := UnbondCall(l, caller, validator, amount);
            (ok || Stake(l'.delegations, (caller, validator)) == Stake(l.delegations, (caller, validator)))
            <==> amount <= BalanceOf(l.balances, STAKING_ADDR)
  {
    TransferFailsOnlyShort(l.balances, STAKING_ADDR, caller, amount);
  }

  /**
   An affordable delegation keeps solvency exactly when the caller is not the staking address
   itself, or the staking address holds enough spare tokens to back the amount twice over.
   */
  lemma DelegationKeepsSolventExactlyWhen(l: Ledgers, caller: Address, validator: Address, amount: U256)
    requires Solvent(l) && amount <= BalanceOf(l.balances, caller) && Sum(l.balances) < TWO_256 - 1
    ensures DelegateCall(l, caller, validator, amount).Some?
    ensures Solvent(DelegateCall(l, caller, validator, amount).value)
            <==> caller != STAKING_ADDR || Sum(l.delegations) + amount <= BalanceOf(l.balances, STAKING_ADDR)
  {
    if caller != STAKING_ADDR {
      DelegateCallIsSound(l, caller, validator, amount);
    } else {
      var k := (caller, validator);
      BalanceBelowSupply(l.balances, STAKING_ADDR);
      StakeBelowTotal(l.delegations, k);
      SumUpdate(l.delegations, k, SatAdd256(Stake(l.delegations, k), amount));
    }
  }

  // ----- Whole runs -----

  // ----- What a caller gets -----

  /**
   The result of a write call of at least `length` input bytes, priced at `cost`: malformed input
   costs nothing, missing gas is reported, and otherwise the gas is spent and the answer is one
   word, 1 if the call is granted and 0, with a revert, if not.
   */
  predicate IsAnswer(call: Call, length: nat, cost: U64, granted: bool, r: CallResult) {
    if |call.input| < length then r.status == PrecompileError && r.gasLeft == call.gasLimit && r.output == []
    else if call.gasLimit < cost then r.status == PrecompileOOG && r.gasLeft == call.gasLimit && r.output == []
    else
      && r.gasLeft == call.gasLimit - cost && |r.output| == 32
      && r.status == (if granted then Return else Revert)
      && WordFrom(r.output) == (if granted then 1 else 0)
  }

  /** A call that moves nothing changes no stake and no balance. */
  ghost predicate SameHoldings(l: Ledgers, l': Ledgers) {
    l'.balances == l.balances && forall k :: Stake(l'.delegations, k) == Stake(l.delegations, k)
  }

  /** `amount` tokens went from `from` to `to`; nobody else's balance changed. */
  ghost predicate Paid(b: Balances, b': Balances, from: Address, to: Address, amount: U256) {
    && (from != to ==> BalanceOf(b', from) == BalanceOf(b, from) - amount && BalanceOf(b', to) == BalanceOf(b, to) + amount)
    && (from == to ==> b' == b)
    && forall a :: a != from && a != to ==> BalanceOf(b', a) == BalanceOf(b, a)
  }

  predicate Selects(call: Call, selector: Bytes) {
    |call.input| >= 4 && call.input[..4] == selector
  }

  /** In a solvent state delegate(address,uint256) is granted exactly when the caller has the tokens. */
  ghost predicate IsDelegation(l: Ledgers, call: Call, l': Ledgers, r: CallResult) {
    && IsAnswer(call, 68, 500, |call.input| >= 68 && WordFrom(call.input[36..68]) <= BalanceOf(l.balances, call.caller), r)
    && (r.status == Return ==>
          && |call.input| >= 68
          && Moved(l.delegations, l'.delegations, (call.caller, AddressFrom(call.input[16..36])), WordFrom(call.input[36..68]))
          && Paid(l.balances, l'.balances, call.caller, 0x0801, WordFrom(call.input[36..68])))
    && (r.status != Return ==> l' == l)
  }

  /** In a solvent state unbond(address,uint256) is granted exactly when the stake covers it. */
  ghost predicate IsUnbond(l: Ledgers, call: Call, l': Ledgers, r: CallResult) {
    && IsAnswer(call, 68, 500,
                |call.input| >= 68 && WordFrom(call.input[36..68]) <= Stake(l.delegations, (call.caller, AddressFrom(call.input[16..36]))), r)
    && (r.status == Return ==>
          && |call.input| >= 68
          && Moved(l.delegations, l'.delegations, (call.caller, AddressFrom(call.input[16..36])), -(WordFrom(call.input[36..68]) as int))
          && Paid(l.balances, l'.balances, 0x0801, call.caller, WordFrom(call.input[36..68])))
    && (r.status != Return ==> SameHoldings(l, l'))
  }

  /** In a solvent state transfer(address,uint256) is granted exactly when the caller has the tokens. */
  ghost predicate IsTransfer(b: Balances, call: Call, b': Balances, r: CallResult) {
    && IsAnswer(call, 68, 500, |call.input| >= 68 && WordFrom(call.input[36..68]) <= BalanceOf(b, call.caller), r)
    && (r.status == Return ==> |call.input| >= 68 && Paid(b, b', call.caller, AddressFrom(call.input[16..36]), WordFrom(call.input[36..68])))
    && (r.status != Return ==> b' == b)
  }

  lemma DelegateOutcome(l: Ledgers, call: Call)
    requires Solvent(l) && call.caller != STAKING_ADDR && Selects(call, [0x02, 0x6e, 0x40, 0x2b])
    ensures var (l', r) := RunStaking(l, call); IsDelegation(l, call, l', r)
  {
    WordRoundTrip(0);
    WordRoundTrip(1);
    if |call.input| >= 68 {
      DelegateCallIsSound(l, call.caller, FirstAddress(call.input), SecondWord(call.input));
    }
  }

  lemma UnbondOutcome(l: Ledgers, call: Call)
    requires Solvent(l) && call.caller != STAKING_ADDR && Selects(call, [0xa5, 0xd0, 0x59, 0xca])
    ensures var (l', r) := RunStaking(l, call); IsUnbond(l, call, l', r)
  {
    WordRoundTrip(0);
    WordRoundTrip(1);
    assert SEL_DELEGATE[0] != SEL_UNBOND[0];
    if |call.input| >= 68 {
      UnbondCallIsSound(l, call.caller, FirstAddress(call.input), SecondWord(call.input));
    }
  }

  lemma DelegateAnswers(l: Ledgers, call: Call)
    requires Selects(call, [0x02, 0x6e, 0x40, 0x2b])
    ensures Solvent(l) && call.caller != STAKING_ADDR ==> IsDelegation(l, call, RunStaking(l, call).0, RunStaking(l, call).1)
  {
    if Solvent(l) && call.caller != STAKING_ADDR {
      DelegateOutcome(l, call);
    }
  }

  lemma UnbondAnswers(l: Ledgers, call: Call)
    requires Selects(call, [0xa5, 0xd0, 0x59, 0xca])
    ensures Solvent(l) && call.caller != STAKING_ADDR ==> IsUnbond(l, call, RunStaking(l, call).0, RunStaking(l, call).1)
  {
    if Solvent(l) && call.caller != STAKING_ADDR {
      UnbondOutcome(l, call);
    }
  }

  lemma TransferOutcome(l: Ledgers, call: Call)
    requires Solvent(l) && Selects(call, [0xa9, 0x05, 0x9c, 0xbb])
    ensures var (b', r) := RunBalances(l.balances, call); IsTransfer(l.balances, call, b', r)
  {
    WordRoundTrip(0);
    WordRoundTrip(1);
    assert SEL_BALANCE_OF[0] != SEL_TRANSFER[0];
    if |call.input| >= 68 {
      var to, amount := FirstAddress(call.input), SecondWord(call.input);
      TransferFailsOnlyShort(l.balances, call.caller, to, amount);
      if Transfer(l.balances, call.caller, to, amount).Some? {
        TransferConserves(l.balances, call.caller, to, amount);
      }
    }
  }

  /** The result of a query: nothing spent on malformed input or for want of gas, else 150 gas and one word. */
  predicate IsReading(call: Call, length: nat, value: U256, r: CallResult) {
    if |call.input| < length then r.status == PrecompileError && r.gasLeft == call.gasLimit && r.output == []
    else if call.gasLimit < 150 then r.status == PrecompileOOG && r.gasLeft == call.gasLimit && r.output == []
    else r.status == Return && r.gasLeft == call.gasLimit - 150 && |r.output| == 32 && WordFrom(r.output) == value
  }

  /** balanceOf(address) answers the balance of the address asked about, and changes nothing. */
  ghost predicate IsBalanceQuery(b: Balances, call: Call, b': Balances, r: CallResult) {
    b' == b && IsReading(call, 36, if |call.input| >= 36 then BalanceOf(b, AddressFrom(call.input[16..36])) else 0, r)
  }

  /** getStake(address,address) answers the stake recorded for the pair, and changes nothing. */
  ghost predicate IsStakeQuery(l: Ledgers, call: Call, l': Ledgers, r: CallResult) {
    && l' == l
    && IsReading(call, 68,
                 if |call.input| >= 68
                 then Stake(l.delegations, (AddressFrom(call.input[16..36]), AddressFrom(call.input[48..68])))
                 else 0, r)
  }

  /** totalStake(address) answers the sum of the validator's delegations, clamped to a word, and changes nothing. */
  ghost predicate IsTotalQuery(l: Ledgers, call: Call, l': Ledgers, r: CallResult) {
    && l' == l
    && IsReading(call, 36,
                 if |call.input| >= 36
                 then Min(Sum(DelegatedTo(l.delegations, AddressFrom(call.input[16..36]))), TWO_256 - 1)
                 else 0, r)
  }

  /** The call names none of delegate, unbond, getStake and totalStake. */
  predicate IsNoStaking(call: Call) {
    && !Selects(call, [0x02, 0x6e, 0x40, 0x2b]) && !Selects(call, [0xa5, 0xd0, 0x59, 0xca])
    && !Selects(call, [0x82, 0xdd, 0xa2, 0x2d]) && !Selects(call, [0xb2, 0x73, 0xfc, 0x9a])
  }

  /** The call names neither balanceOf nor transfer. */
  predicate IsNoBalances(call: Call) {
    !Selects(call, [0x70, 0xa0, 0x82, 0x31]) && !Selects(call, [0xa9, 0x05, 0x9c, 0xbb])
  }

  /** A call that names no operation is an error that costs nothing and changes nothing. */
  predicate IsUnknown(call: Call, r: CallResult) {
    r.status == PrecompileError && r.gasLeft == call.gasLimit && r.output == []
  }

  lemma BalanceOutcome(b: Balances, call: Call)
    requires Selects(call, [0x70, 0xa0, 0x82, 0x31])
    ensures var (b', r) := RunBalances(b, call); IsBalanceQuery(b, call, b', r)
  {
    if |call.input| >= 36 {
      WordRoundTrip(BalanceOf(b, AddressFrom(call.input[16..36])));
    }
  }

  lemma StakeOutcome(l: Ledgers, call: Call)
    requires Selects(call, [0x82, 0xdd, 0xa2, 0x2d])
    ensures var (l', r) := RunStaking(l, call); IsStakeQuery(l, call, l', r)
  {
    SelectorsDiffer();
    if |call.input| >= 68 {
      WordRoundTrip(Stake(l.delegations, (AddressFrom(call.input[16..36]), AddressFrom(call.input[48..68]))));
    }
  }

  lemma TotalOutcome(l: Ledgers, call: Call)
    requires Selects(call, [0xb2, 0x73, 0xfc, 0x9a])
    ensures var (l', r) := RunStaking(l, call); IsTotalQuery(l, call, l', r)
  {
    SelectorsDiffer();
    if |call.input| >= 36 {
      WordRoundTrip(TotalStake(l.delegations, AddressFrom(call.input[16..36])));
    }
  }

  /** Everything there is to say about the answer to a staking call. */
  ghost predicate IsStakingAnswer(l: Ledgers, call: Call, l': Ledgers, r: CallResult) {
    && (Selects(call, [0x82, 0xdd, 0xa2, 0x2d]) ==> IsStakeQuery(l, call, l', r))
    && (Selects(call, [0xb2, 0x73, 0xfc, 0x9a]) ==> IsTotalQuery(l, call, l', r))
    && (IsNoStaking(call) ==> l' == l && IsUnknown(call, r))
    && (Solvent(l) && call.caller != 0x0801 ==>
          && (Selects(call, [0x02, 0x6e, 0x40, 0x2b]) ==> IsDelegation(l, call, l', r))
          && (Selects(call, [0xa5, 0xd0, 0x59, 0xca]) ==> IsUnbond(l, call, l', r))
          && Solvent(l') && Sum(l'.balances) == Sum(l.balances)
          && (r.status != Return ==> SameHoldings(l, l')))
  }

  lemma StakingAnswers(l: Ledgers, call: Call)
    ensures IsStakingAnswer(l, call, RunStaking(l, call).0, RunStaking(l, call).1)
  {
    UnknownOutcome(l, call);
    if Selects(call, [0x82, 0xdd, 0xa2, 0x2d]) {
      StakeOutcome(l, call);
    }
    if Selects(call, [0xb2, 0x73, 0xfc, 0x9a]) {
      TotalOutcome(l, call);
    }
    if Selects(call, [0x02, 0x6e, 0x40, 0x2b]) {
      DelegateAnswers(l, call);
    }
    if Selects(call, [0xa5, 0xd0, 0x59, 0xca]) {
      UnbondAnswers(l, call);
    }
    if Solvent(l) && call.caller != STAKING_ADDR {
      StakingCallKeepsSolvent(l, call);
    }
  }

  /** The same for a balances call. */
  ghost predicate IsBalancesAnswer(l: Ledgers, call: Call, b: Balances, r: CallResult) {
    && (Selects(call, [0x70, 0xa0, 0x82, 0x31]) ==> IsBalanceQuery(l.balances, call, b, r))
    && (IsNoBalances(call) ==> b == l.balances && IsUnknown(call, r))
    && (Solvent(l) && Selects(call, [0xa9, 0x05, 0x9c, 0xbb]) ==> IsTransfer(l.balances, call, b, r))
    && (Solvent(l) && call.caller != 0x0801 ==>
          && Solvent(l.(balances := b)) && Sum(b) == Sum(l.balances)
          && (r.status != Return ==> b == l.balances))
  }

  lemma BalancesAnswers(l: Ledgers, call: Call)
    ensures IsBalancesAnswer(l, call, RunBalances(l.balances, call).0, RunBalances(l.balances, call).1)
  {
    UnknownOutcome(l, call);
    if Selects(call, [0x70, 0xa0, 0x82, 0x31]) {
      BalanceOutcome(l.balances, call);
    }
    if Solvent(l) && Selects(call, [0xa9, 0x05, 0x9c, 0xbb]) {
      TransferOutcome(l, call);
    }
    if Solvent(l) && call.caller != STAKING_ADDR {
      BalancesCallKeepsSolvent(l, call);
    }
  }

  lemma UnknownOutcome(l: Ledgers, call: Call)
    ensures IsNoStaking(call) ==> RunStaking(l, call).0 == l && IsUnknown(call, RunStaking(l, call).1)
    ensures IsNoBalances(call) ==> RunBalances(l.balances, call).0 == l.balances && IsUnknown(call, RunBalances(l.balances, call).1)
  {
  }

  /** The ledger in any state: a delegation adds, clamped to a word; an unbond subtracts what is there or does nothing. */
  lemma LedgerInAnyState(d: Delegations, k: Pair, amount: U256, j: Pair)
    ensures Stake(Delegate(d, k, amount), j) == if j == k then Min(Stake(d, k) + amount, TWO_256 - 1) else Stake(d, j)
    ensures var (d', ok) := Unbond(d, k, amount);
            && (ok <==> amount <= Stake(d, k))
            && Stake(d', j) == if ok && j == k then Stake(d, k) - amount else Stake(d, j)
  {
  }

  /**
   A delegation in any state, from any caller: granted exactly when the caller has the tokens and
   the staking address can take them in a word; then the ledger records it and the tokens move.
   */
  lemma DelegateInAnyState(l: Ledgers, caller: Address, validator: Address, amount: U256)
    ensures DelegateCall(l, caller, validator, amount).Some?
            <==> && amount <= BalanceOf(l.balances, caller)
                 && (caller == 0x0801 || BalanceOf(l.balances, 0x0801) + amount < TWO_256)
    ensures match DelegateCall(l, caller, validator, amount)
            case None => true
            case Some(l') => l'.delegations == Delegate(l.delegations, (caller, validator), amount)
                             && Paid(l.balances, l'.balances, caller, 0x0801, amount)
  {
  }

  /** A transfer in any state goes through exactly when the sender has the tokens and the receiver's balance stays a word. */
  lemma TransferInAnyState(b: Balances, from: Address, to: Address, amount: U256)
    ensures Transfer(b, from, to, amount).Some?
            <==> amount <= BalanceOf(b, from) && (from == to || BalanceOf(b, to) + amount < TWO_256)
    ensures match Transfer(b, from, to, amount) case None => true case Some(b') => Paid(b, b', from, to, amount)
  {
  }

  /** An unbond in any state: the stake comes off if it covers the amount, and is paid exactly when it can be. */
  lemma UnbondInAnyState(l: Ledgers, caller: Address, validator: Address, amount: U256)
    ensures var (l', ok) := UnbondCall(l, caller, validator, amount);
            var stake := Stake(l.delegations, (caller, validator));
            && l'.delegations == Unbond(l.delegations, (caller, validator), amount).0
            && (ok <==> amount <= stake && amount <= BalanceOf(l.balances, 0x0801)
                        && (caller == 0x0801 || BalanceOf(l.balances, caller) + amount < TWO_256))
            && (if ok then Paid(l.balances, l'.balances, 0x0801, caller, amount) else l'.balances == l.balances)
  {
  }

  // ----- The calls as a contract writes them -----

  /** An address argument, left-padded to a word. */
  function AddressArg(a: Address): (s: Bytes)
    ensures |s| == 32
  {
    seq(12, _ => 0) + AddressBytes(a)
  }

  function DelegateData(validator: Address, amount: U256): Bytes {
    SEL_DELEGATE + AddressArg(validator) + WordBytes(amount)
  }

  function UnbondData(validator: Address, amount: U256): Bytes {
    SEL_UNBOND + AddressArg(validator) + WordBytes(amount)
  }

  function GetStakeData(delegator: Address, validator: Address): Bytes {
    SEL_GET_STAKE + AddressArg(delegator) + AddressArg(validator)
  }

  function BalanceOfData(a: Address): Bytes {
    SEL_BALANCE_OF + AddressArg(a)
  }

  /** balanceOf, called with its encoded argument, answers that address's balance for 150 gas. */
  lemma BalanceAnswers(b: Balances, caller: Address, a: Address, gas: U64)
    requires gas >= 150
    ensures var (b', r) := RunBalances(b, Call(caller, BalanceOfData(a), gas));
            && b' == b && r.status == Return && r.gasLeft == gas - 150
            && |r.output| == 32 && WordFrom(r.output) == BalanceOf(b, a)
  {
    var call := Call(caller, BalanceOfData(a), gas);
    assert call.input[16..36] == AddressBytes(a) && call.input[..4] == SEL_BALANCE_OF;
    AddressRoundTrip(a);
    BalanceOutcome(b, call);
  }

  function TotalStakeData(validator: Address): Bytes {
    SEL_TOTAL_STAKE + AddressArg(validator)
  }

  lemma WriteDataReads(selector: Bytes, validator: Address, amount: U256)
    requires |selector| == 4
    ensures var data := selector + AddressArg(validator) + WordBytes(amount);
            |data| == 68 && data[..4] == selector && FirstAddress(data) == validator && SecondWord(data) == amount
  {
    var data := selector + AddressArg(validator) + WordBytes(amount);
    assert data[16..36] == AddressBytes(validator);
    assert data[36..68] == WordBytes(amount);
    AddressRoundTrip(validator);
    WordRoundTrip(amount);
  }

  lemma QueryDataReads(delegator: Address, validator: Address)
    ensures var data := GetStakeData(delegator, validator);
            |data| == 68 && data[..4] == SEL_GET_STAKE && FirstAddress(data) == delegator && SecondAddress(data) == validator
    ensures var data := TotalStakeData(validator);
            |data| == 36 && data[..4] == SEL_TOTAL_STAKE && FirstAddress(data) == validator
  {
    var data, total := GetStakeData(delegator, validator), TotalStakeData(validator);
    assert data[16..36] == AddressBytes(delegator);
    assert data[48..68] == AddressBytes(validator);
    assert total[16..36] == AddressBytes(validator);
    AddressRoundTrip(delegator);
    AddressRoundTrip(validator);
  }

  lemma SelectorsDiffer()
    ensures SEL_DELEGATE != SEL_UNBOND && SEL_DELEGATE != SEL_GET_STAKE && SEL_DELEGATE != SEL_TOTAL_STAKE
    ensures SEL_UNBOND != SEL_GET_STAKE && SEL_UNBOND != SEL_TOTAL_STAKE && SEL_GET_STAKE != SEL_TOTAL_STAKE
  {
    assert SEL_DELEGATE[0] == 0x02 && SEL_UNBOND[0] == 0xa5 && SEL_GET_STAKE[0] == 0x82 && SEL_TOTAL_STAKE[0] == 0xb2;
  }

  /** getStake answers what the ledger holds, in one word, and changes nothing. */
  lemma StakeAnswers(l: Ledgers, caller: Address, delegator: Address, validator: Address, gas: U64)
    requires gas >= 150
    ensures var (l', r) := RunStaking(l, Call(caller, GetStakeData(delegator, validator), gas));
            && l' == l && r.status == Return && r.gasLeft == gas - 150
            && |r.output| == 32 && WordFrom(r.output) == Stake(l.delegations, (delegator, validator))
  {
    SelectorsDiffer();
    QueryDataReads(delegator, validator);
    WordRoundTrip(Stake(l.delegations, (delegator, validator)));
  }

  /** totalStake answers the exact sum of the validator's delegations, and changes nothing. */
  lemma TotalAnswers(l: Ledgers, caller: Address, validator: Address, gas: U64)
    requires Solvent(l) && gas >= 150
    ensures var (l', r) := RunStaking(l, Call(caller, TotalStakeData(validator), gas));
            && l' == l && r.status == Return && r.gasLeft == gas - 150
            && |r.output| == 32 && WordFrom(r.output) == Sum(DelegatedTo(l.delegations, validator))
  {
    SelectorsDiffer();
    QueryDataReads(validator, validator);
    SolventTotalsFit(l, validator);
    WordRoundTrip(TotalStake(l.delegations, validator));
  }

  /** A delegate call as a contract writes it, in a solvent state with the tokens and the gas at hand. */
  lemma DelegateByData(l: Ledgers, caller: Address, validator: Address, amount: U256, gas: U64)
    requires Solvent(l) && caller != STAKING_ADDR && gas >= 500 && amount <= BalanceOf(l.balances, caller)
    ensures var (l', r) := RunStaking(l, Call(caller, DelegateData(validator, amount), gas));
            && r.status == Return && Solvent(l') && DelegateCall(l, caller, validator, amount) == Some(l')
  {
    WriteDataReads(SEL_DELEGATE, validator, amount);
    DelegateCallIsSound(l, caller, validator, amount);
  }

  lemma UnbondByData(l: Ledgers, caller: Address, validator: Address, amount: U256, gas: U64)
    requires Solvent(l) && caller != STAKING_ADDR && gas >= 500 && amount <= Stake(l.delegations, (caller, validator))
    ensures var (l', r) := RunStaking(l, Call(caller, UnbondData(validator, amount), gas));
            && r.status == Return && UnbondCall(l, caller, validator, amount) == (l', true)
  {
    SelectorsDiffer();
    WriteDataReads(SEL_UNBOND, validator, amount);
    UnbondCallIsSound(l, caller, validator, amount);
  }

  /** Delegate, then ask: stake and total answer what they answered before, plus the amount. */
  lemma DelegationReadsBack(l: Ledgers, caller: Address, validator: Address, amount: U256, asker: Address, gas: U64)
    requires Solvent(l) && caller != STAKING_ADDR && gas >= 500 && amount <= BalanceOf(l.balances, caller)
    ensures var l1 := RunStaking(l, Call(caller, DelegateData(validator, amount), gas)).0;
            var stake := RunStaking(l1, Call(asker, GetStakeData(caller, validator), gas)).1;
            var total := RunStaking(l1, Call(asker, TotalStakeData(validator), gas)).1;
            && BalanceOf(l1.balances, 0x0801) == BalanceOf(l.balances, 0x0801) + amount
            && |stake.output| == 32 && WordFrom(stake.output) == Stake(l.delegations, (caller, validator)) + amount
            && |total.output| == 32 && WordFrom(total.output) == Sum(DelegatedTo(l.delegations, validator)) + amount
  {
    DelegateByData(l, caller, validator, amount, gas);
    var l1 := RunStaking(l, Call(caller, DelegateData(validator, amount), gas)).0;
    StakeAnswers(l1, asker, caller, validator, gas);
    TotalAnswers(l1, asker, validator, gas);
    DelegateCallIsSound(l, caller, validator, amount);
    CallsMoveOneTotal(l, caller, validator, amount, validator);
  }

  /** Delegate, then unbond the same: every stake and every balance is what it was. */
  lemma UnbondUndoesDelegate(l: Ledgers, caller: Address, validator: Address, amount: U256, gas: U64)
    requires Solvent(l) && caller != STAKING_ADDR && gas >= 500 && amount <= BalanceOf(l.balances, caller)
    ensures var l1 := RunStaking(l, Call(caller, DelegateData(validator, amount), gas)).0;
            var (l2, r) := RunStaking(l1, Call(caller, UnbondData(validator, amount), gas));
            && r.status == Return
            && (forall k :: Stake(l2.delegations, k) == Stake(l.delegations, k))
            && (forall a :: BalanceOf(l2.balances, a) == BalanceOf(l.balances, a))
  {
    DelegateByData(l, caller, validator, amount, gas);
    DelegateCallIsSound(l, caller, validator, amount);
    var l1 := RunStaking(l, Call(caller, DelegateData(validator, amount), gas)).0;
    UnbondByData(l1, caller, validator, amount, gas);
    UnbondCallIsSound(l1, caller, validator, amount);
  }

  /** A committed precompile call, or any other change of balances that takes nothing from the staking address. */
  datatype Event =
    | StakingCall(call: Call)
    | BalancesCall(call: Call)
    | OtherTransfers(after: Balances)

  ghost predicate Step(l: Ledgers, ev: Event, l': Ledgers) {
    match ev
    case StakingCall(call) => call.caller != STAKING_ADDR && l' == RunStaking(l, call).0
    case BalancesCall(call) => call.caller != STAKING_ADDR && l' == l.(balances := RunBalances(l.balances, call).0)
    case OtherTransfers(after) =>
      && l' == l.(balances := after)
      && BalanceOf(after, STAKING_ADDR) >= BalanceOf(l.balances, STAKING_ADDR)
      && Sum(after) < TWO_256
  }

  lemma StakingCallKeepsSolvent(l: Ledgers, call: Call)
    requires Solvent(l) && call.caller != STAKING_ADDR
    ensures var (l', r) := RunStaking(l, call);
            && Solvent(l') && Sum(l'.balances) == Sum(l.balances)
            && (r.status != Return ==> l'.balances == l.balances && forall k :: Stake(l'.delegations, k) == Stake(l.delegations, k))
  {
    if |call.input| >= 68 {
      DelegateCallIsSound(l, call.caller, FirstAddress(call.input), SecondWord(call.input));
      UnbondCallIsSound(l, call.caller, FirstAddress(call.input), SecondWord(call.input));
    }
  }

  lemma BalancesCallKeepsSolvent(l: Ledgers, call: Call)
    requires Solvent(l) && call.caller != STAKING_ADDR
    ensures var (b, r) := RunBalances(l.balances, call);
            && Solvent(l.(balances := b)) && Sum(b) == Sum(l.balances)
            && (r.status != Return ==> b == l.balances)
  {
    if |call.input| >= 68 {
      var to, amount := FirstAddress(call.input), SecondWord(call.input);
      if Transfer(l.balances, call.caller, to, amount).Some? {
        TransferConserves(l.balances, call.caller, to, amount);
      }
    }
  }

  ghost predicate IsRun(evs: seq<Event>, ls: seq<Ledgers>) {
    && |ls| == |evs| + 1
    && forall i :: 0 <= i < |evs| && At(i) ==> Step(ls[i], evs[i], ls[i + 1])
  }

  lemma RunStepKeepsSolvent(evs: seq<Event>, ls: seq<Ledgers>, i: nat, j: nat)
    requires IsRun(evs, ls) && j == i + 1 < |ls| && Solvent(ls[i])
    ensures Solvent(ls[j])
  {
    assert At(i);
    assert Step(ls[i], evs[i], ls[j]);
    match evs[i]
    case StakingCall(call) => StakingCallKeepsSolvent(ls[i], call);
    case BalancesCall(call) => BalancesCallKeepsSolvent(ls[i], call);
    case OtherTransfers(after) =>
  }

  /** On every run the delegations never exceed what is locked at the staking address. */
  lemma {:induction false} SolvencyOnEveryRun(evs: seq<Event>, ls: seq<Ledgers>, i: nat)
    requires IsRun(evs, ls) && i < |ls|
    requires ls[0].delegations == map[] && Sum(ls[0].balances) < TWO_256
    ensures Solvent(ls[i])
    decreases i
  {
    if i == 0 {
      assert Sum(ls[0].delegations) == 0;
    } else {
      SolvencyOnEveryRun(evs, ls, i - 1);
      RunStepKeepsSolvent(evs, ls, i - 1, i);
    }
  }

  lemma SupplyAfterStep(evs: seq<Event>, ls: seq<Ledgers>, i: nat, j: nat)
    requires IsRun(evs, ls) && j == i + 1 < |ls| && Solvent(ls[i])
    requires evs[i].OtherTransfers? ==> Sum(evs[i].after) == Sum(ls[i].balances)
    ensures Sum(ls[j].balances) == Sum(ls[i].balances)
  {
    assert At(i);
    assert Step(ls[i], evs[i], ls[j]);
    match evs[i]
    case StakingCall(call) => StakingCallKeepsSolvent(ls[i], call);
    case BalancesCall(call) => BalancesCallKeepsSolvent(ls[i], call);
    case OtherTransfers(after) =>
  }

  /** Precompile calls never create or destroy tokens, on any run whose other changes do not. */
  lemma {:induction false} SupplyOnEveryRun(evs: seq<Event>, ls: seq<Ledgers>, i: nat)
    requires IsRun(evs, ls) && i < |ls|
    requires ls[0].delegations == map[] && Sum(ls[0].balances) < TWO_256
    requires forall j :: 0 <= j < |evs| && At(j) && evs[j].OtherTransfers? ==> Sum(evs[j].after) == Sum(ls[j].balances)
    ensures Sum(ls[i].balances) == Sum(ls[0].balances)
    decreases i
  {
    if i > 0 {
      SupplyOnEveryRun(evs, ls, i - 1);
      SolvencyOnEveryRun(evs, ls, i - 1);
      assert At(i - 1);
      SupplyAfterStep(evs, ls, i - 1, i);
    }
  }

  // ----- Total stake -----

  /** In a solvent state a validator's delegations sum to less than 2^256. */
  lemma SolventTotalsFit(l: Ledgers, validator: Address)
    requires Solvent(l)
    ensures Sum(DelegatedTo(l.delegations, validator)) < TWO_256
  {
    var others := set k | k in l.delegations && k.1 != validator;
    assert DelegatedTo(l.delegations, validator) == l.delegations - others;
    SumSubset(l.delegations, others);
    BalanceBelowSupply(l.balances, STAKING_ADDR);
  }

  /** Changing one entry moves that validator's total by the same amount and no other validator's. */
  lemma EntryMovesOneTotal(d: Delegations, d': Delegations, k: Pair, change: int, v: Address)
    requires Moved(d, d', k, change)
    ensures Sum(DelegatedTo(d', v)) == Sum(DelegatedTo(d, v)) + if v == k.1 then change else 0
  {
    if v == k.1 {
      assert DelegatedTo(d', v) == DelegatedTo(d, v)[k := Stake(d', k)];
      SumUpdate(DelegatedTo(d, v), k, Stake(d', k));
    } else {
      assert DelegatedTo(d', v) == DelegatedTo(d, v);
    }
  }

  /** In solvent states a delegation or an unbond of x moves its validator's total by exactly x. */
  lemma CallsMoveOneTotal(l: Ledgers, caller: Address, validator: Address, amount: U256, v: Address)
    requires Solvent(l) && caller != STAKING_ADDR
    ensures match DelegateCall(l, caller, validator, amount)
            case None => true
            case Some(l') => Sum(DelegatedTo(l'.delegations, v))
                             == Sum(DelegatedTo(l.delegations, v)) + if v == validator then amount else 0
    ensures var (l', ok) := UnbondCall(l, caller, validator, amount);
            ok ==> Sum(DelegatedTo(l'.delegations, v))
                   == Sum(DelegatedTo(l.delegations, v)) - if v == validator then amount else 0
  {
    var k := (caller, validator);
    DelegateCallIsSound(l, caller, validator, amount);
    UnbondCallIsSound(l, caller, validator, amount);
    var delegated, unbonded := DelegateCall(l, caller, validator, amount), UnbondCall(l, caller, validator, amount);
    if delegated.Some? {
      EntryMovesOneTotal(l.delegations, delegated.value.delegations, k, amount, v);
    }
    if unbonded.1 {
      EntryMovesOneTotal(l.delegations, unbonded.0.delegations, k, -(amount as int), v);
    }
  }
}
