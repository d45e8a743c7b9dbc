/**
 `StakingState` and `HotmintPrecompiles` of crates/precompile/src/lib.rs as objects: the ledger is
 updated in place, the total is folded in hash-map order, and a call works its way from the
 selector to a result.
 */
module Precompiles {
  import opened Primitives
  import opened Finite
  import opened Staking

  lemma ClampedAdd(total: nat, amount: U256)
    ensures SatAdd256(Min(total, TWO_256 - 1), amount) == Min(total + amount, TWO_256 - 1)
  {
  }

  lemma OneDelegationLess(d: Delegations, k: (Address, Address), validator: Address)
    requires k in d
    ensures Sum(DelegatedTo(d, validator))
            == Sum(DelegatedTo(d - {k}, validator)) + if k.1 == validator then d[k] else 0
  {
    var mine := DelegatedTo(d, validator);
    if k.1 == validator {
      SumRemove(mine, k);
      assert DelegatedTo(d - {k}, validator) == mine - {k};
    } else {
      assert DelegatedTo(d - {k}, validator) == mine;
    }
  }

  /** The fold has `todo` still to go. */
  ghost predicate Folded(d: Delegations, todo: Delegations, validator: Address, total: U256) {
    && Sum(DelegatedTo(todo, validator)) <= Sum(DelegatedTo(d, validator))
    && total == Min(Sum(DelegatedTo(d, validator)) - Sum(DelegatedTo(todo, validator)), TWO_256 - 1)
  }

  lemma FoldStarts(d: Delegations, validator: Address)
    ensures Folded(d, d, validator, 0)
  {
  }

  lemma FoldStep(d: Delegations, todo: Delegations, validator: Address, total: U256, k: Pair)
    requires Folded(d, todo, validator, total) && k in todo
    ensures Folded(d, todo - {k}, validator, if k.1 == validator then SatAdd256(total, todo[k]) else total)
  {
    OneDelegationLess(todo, k, validator);
    if k.1 == validator {
      ClampedAdd(Sum(DelegatedTo(d, validator)) - Sum(DelegatedTo(todo, validator)), todo[k]);
    }
  }

  lemma FoldEnds(d: Delegations, validator: Address, total: U256)
    requires Folded(d, map[], validator, total)
    ensures total == TotalStake(d, validator)
  {
    assert DelegatedTo(map[], validator) == map[];
  }

  class StakingState {
    var delegations: Delegations

    constructor ()
      ensures delegations == map[]
    {
      delegations := map[];
    }

    method DelegateTo(delegator: Address, validator: Address, amount: U256)
      modifies this
      ensures delegations == Delegate(old(delegations), (delegator, validator), amount)
    {
      var k := (delegator, validator);
      if k !in delegations {
        delegations := delegations[k := 0];
      }
      delegations := delegations[k := SatAdd256(delegations[k], amount)];
    }

    method UnbondFrom(delegator: Address, validator: Address, amount: U256) returns (ok: bool)
      modifies this
      ensures (delegations, ok) == Unbond(old(delegations), (delegator, validator), amount)
    {
      var k := (delegator, validator);
      if k !in delegations {
        delegations := delegations[k := 0];
      }
      if delegations[k] < amount {
        UpdateSame(delegations, k);
        return false;
      }
      delegations := delegations[k := SatSub(delegations[k], amount)];
      assert delegations == old(delegations)[k := SatSub(Stake(old(delegations), k), amount)];
      return true;
    }

    method GetStake(delegator: Address, validator: Address) returns (stake: U256)
      ensures stake == Stake(delegations, (delegator, validator))
    {
      stake := if (delegator, validator) in delegations then delegations[(delegator, validator)] else 0;
    }

    /** `total_stake`: whatever the order of iteration, the saturating fold is the clamped sum. */
    method FoldTotal(validator: Address) returns (total: U256)
      ensures total == TotalStake(delegations, validator)
    {
      total := 0;
      var todo := delegations;
      FoldStarts(todo, validator);
      while todo != map[]
        invariant Folded(delegations, todo, validator, total)
        decreases |todo|
      {
        var k :| k in todo;
        FoldStep(delegations, todo, validator, total, k);
        if k.1 == validator {
          total := SatAdd256(total, todo[k]);
        }
        todo := todo - {k};
      }
      FoldEnds(delegations, validator, total);
    }
  }

  class HotmintPrecompiles {
    const staking: StakingState
    var balances: Balances

    ghost function State(): Ledgers
      reads this, staking
    {
      Ledgers(staking.delegations, balances)
    }

    /** Every delegated token is backed at the staking address. */
    ghost predicate Valid()
      reads this, staking
    {
      Solvent(State())
    }

    constructor (staking: StakingState, balances: Balances)
      ensures staking.delegations == map[] && Sum(balances) < TWO_256 ==> Valid()
      ensures this.staking == staking && this.balances == balances
    {
      this.staking := staking;
      this.balances := balances;
    }

    /** `run_balances`. */
    method Balances(call: Call) returns (r: CallResult)
      modifies this
      ensures (balances, r) == RunBalances(old(balances), call)
      ensures IsBalancesAnswer(old(State()), call, balances, r)
      ensures old(Valid()) && call.caller != STAKING_ADDR ==> Valid() && Sum(balances) == Sum(old(balances))
    {
      BalancesAnswers(State(), call);
      if |call.input| < 4 {
        return CallResult(PrecompileError, call.gasLimit, []);
      }
      var selector := call.input[..4];
      if selector == SEL_BALANCE_OF {
        var refused := Refused(call, 36, PRECOMPILE_BASE_GAS);
        if refused.Some? {
          return refused.value;
        }
        var balance := BalanceOf(balances, AddressFrom(call.input[16..36]));
        return CallResult(Return, call.gasLimit - PRECOMPILE_BASE_GAS, WordBytes(balance));
      } else if selector == SEL_TRANSFER {
        var refused := Refused(call, 68, PRECOMPILE_WRITE_GAS);
        if refused.Some? {
          return refused.value;
        }
        var gas := call.gasLimit - PRECOMPILE_WRITE_GAS;
        var moved := Transfer(balances, call.caller, AddressFrom(call.input[16..36]), WordFrom(call.input[36..68]));
        if moved.None? {
          return CallResult(Revert, gas, WordBytes(0));
        }
        balances := moved.value;
        return CallResult(Return, gas, WordBytes(1));
      }
      return CallResult(PrecompileError, call.gasLimit, []);
    }

    /** `run_staking`. */
    method Staking(call: Call) returns (r: CallResult)
      modifies this, staking
      ensures (State(), r) == RunStaking(old(State()), call)
      ensures IsStakingAnswer(old(State()), call, State(), r)
      ensures old(Valid()) && call.caller != STAKING_ADDR ==> Valid() && Sum(balances) == Sum(old(balances))
    {
      StakingAnswers(State(), call);
      if |call.input| < 4 {
        return CallResult(PrecompileError, call.gasLimit, []);
      }
      var selector := call.input[..4];
      if selector == SEL_DELEGATE {
        r := DelegateOp(call);
      } else if selector == SEL_UNBOND {
        r := UnbondOp(call);
      } else if selector == SEL_GET_STAKE {
        var refused := Refused(call, 68, PRECOMPILE_BASE_GAS);
        if refused.Some? {
          return refused.value;
        }
        var stake := staking.GetStake(AddressFrom(call.input[16..36]), AddressFrom(call.input[48..68]));
        r := CallResult(Return, call.gasLimit - PRECOMPILE_BASE_GAS, WordBytes(stake));
      } else if selector == SEL_TOTAL_STAKE {
        var refused := Refused(call, 36, PRECOMPILE_BASE_GAS);
        if refused.Some? {
          return refused.value;
        }
        var total := staking.FoldTotal(AddressFrom(call.input[16..36]));
        r := CallResult(Return, call.gasLimit - PRECOMPILE_BASE_GAS, WordBytes(total));
      } else {
        r := CallResult(PrecompileError, call.gasLimit, []);
      }
    }

    /** delegate(address,uint256): lock the tokens, then record the delegation. */
    method DelegateOp(call: Call) returns (r: CallResult)
      requires Selects(call, [0x02, 0x6e, 0x40, 0x2b])
      modifies this, staking
      ensures (State(), r) == RunStaking(old(State()), call)
      ensures old(Valid()) && call.caller != STAKING_ADDR ==> IsDelegation(old(State()), call, State(), r)
    {
      DelegateAnswers(State(), call);
      var refused := Refused(call, 68, PRECOMPILE_WRITE_GAS);
      if refused.Some? {
        return refused.value;
      }
      var gas := call.gasLimit - PRECOMPILE_WRITE_GAS;
      var validator, amount := AddressFrom(call.input[16..36]), WordFrom(call.input[36..68]);
      var locked := Transfer(balances, call.caller, STAKING_ADDR, amount);
      if locked.None? {
        return CallResult(Revert, gas, WordBytes(0));
      }
      balances := locked.value;
      staking.DelegateTo(call.caller, validator, amount);
      return CallResult(Return, gas, WordBytes(1));
    }

    /** unbond(address,uint256): take the stake off the ledger, then return the tokens. */
    method UnbondOp(call: Call) returns (r: CallResult)
      requires Selects(call, [0xa5, 0xd0, 0x59, 0xca])
      modifies this, staking
      ensures (State(), r) == RunStaking(old(State()), call)
      ensures old(Valid()) && call.caller != STAKING_ADDR ==> IsUnbond(old(State()), call, State(), r)
    {
      UnbondAnswers(State(), call);
      SelectorsDiffer();
      var refused := Refused(call, 68, PRECOMPILE_WRITE_GAS);
      if refused.Some? {
        return refused.value;
      }
      var gas := call.gasLimit - PRECOMPILE_WRITE_GAS;
      var validator, amount := AddressFrom(call.input[16..36]), WordFrom(call.input[36..68]);
      var ok := staking.UnbondFrom(call.caller, validator, amount);
      if !ok {
        return CallResult(Revert, gas, WordBytes(0));
      }
      var paid := Transfer(balances, STAKING_ADDR, call.caller, amount);
      if paid.None? {
        return CallResult(Revert, gas, WordBytes(0));
      }
      balances := paid.value;
      return CallResult(Return, gas, WordBytes(1));
    }
  }
}
