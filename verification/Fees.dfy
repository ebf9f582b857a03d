/**
  What a transaction pays (`core/state_transition.go`): it buys its gas, runs, gets back what
  is left, and pays the block producer; since London (EIP-1559) the base fee is burnt. All
  amounts are 256-bit words. The EVM is a parameter: any function that hands back no more
  gas than it got and neither makes nor destroys money.
 */
module Fees {
  import opened Common
  import opened GasPool
  import opened World

  const REFUND_QUOTIENT := 2
  const REFUND_QUOTIENT_EIP3529 := 5
  const EFFECTIVE_GAS_PRICE_MAX_VAL := 256

  datatype Result<+T> = Ok(value: T) | Err(error: Error)

  datatype Error =
    | NonceTooHigh | NonceTooLow | NonceMax | SenderNoEOA
    | TipAboveFeeCap | FeeCapTooLow | MaxFeePerBlobGas
    | InsufficientFunds | InternalFailure | BlobGasLimitReached | GasLimitReached
    | GasUintOverflow | IntrinsicGas | MaxInitCodeSizeExceeded

  /** Rules and block context. No blob price means that the header has no excess blob gas. */
  datatype Env = Env(
    london: bool, cancun: bool, noBaseFee: bool,
    coinbase: Address, baseFee: uint256, burntContract: Option<Address>, blobPrice: Option<uint256>)

  /** A message; the price of its data is a number here, absent if it leaves 64 bits. */
  datatype Message = Message(
    from: Address, creation: bool, checkNonce: bool, nonce: uint64, isFree: bool,
    gas: uint64, gasPrice: uint256, feeCap: uint256, tip: uint256, value: uint256,
    blobGas: uint64, maxFeePerBlobGas: uint256,
    intrinsicGas: Option<uint64>, initCodeTooLong: bool)

  datatype Outcome = Outcome(after: Snapshot, gasLeft: uint64, refund: uint64)

  type Evm = (Snapshot, uint64) -> Outcome

  ghost predicate Sound(evm: Evm) {
    forall s, gas: uint64 :: evm(s, gas).gasLeft <= gas && Total(evm(s, gas).after.balances) == Total(s.balances)
  }

  // ---------------------------------------------------------------- prices

  /** What gas costs, unit by unit. */
  function Fee(gas: nat, price: nat): nat {
    if gas == 0 then 0 else price + Fee(gas - 1, price)
  }

  lemma {:induction false} FeeIs(gas: nat, price: nat)
    ensures Fee(gas, price) == gas * price
  {
    if gas > 0 {
      FeeIs(gas - 1, price);
    }
  }

  lemma {:induction false} FeeMonotone(gas: nat, more: nat, price: nat, higher: nat)
    requires gas <= more && price <= higher
    ensures Fee(gas, price) <= Fee(more, higher)
  {
    if gas > 0 {
      FeeMonotone(gas - 1, more - 1, price, higher);
    }
  }

  lemma {:induction false} FeeSplits(a: nat, b: nat, price: nat)
    ensures Fee(a + b, price) == Fee(a, price) + Fee(b, price)
  {
    if a > 0 {
      FeeSplits(a - 1, b, price);
    }
  }

  lemma {:induction false} FeeOfSum(gas: nat, p: nat, q: nat)
    ensures Fee(gas, p + q) == Fee(gas, p) + Fee(gas, q)
  {
    if gas > 0 {
      FeeOfSum(gas - 1, p, q);
    }
  }

  /** What the block producer gets per unit of gas. */
  function EffectiveTip(env: Env, msg: Message): uint256 {
    if !env.london then msg.gasPrice
    else if msg.feeCap > env.baseFee then
      if msg.tip < msg.feeCap - env.baseFee then msg.tip else msg.feeCap - env.baseFee
    else 0
  }

  /** The base fee goes to somebody. */
  predicate Credited(env: Env, msg: Message) {
    env.london && !msg.isFree && env.burntContract.Some?
  }

  /** An amount that concerns one account only. */
  function Only(k: Address, a: Address, amount: nat): nat {
    if k == a then amount else 0
  }

  /** What an account is paid for `used` units of gas. */
  function Income(env: Env, msg: Message, k: Address, used: nat): nat {
    Only(k, env.coinbase, Fee(used, EffectiveTip(env, msg)))
    + if Credited(env, msg) then Only(k, env.burntContract.value, Fee(used, env.baseFee)) else 0
  }

  /** What is handed out per unit of gas. */
  function PaidOut(env: Env, msg: Message): nat {
    EffectiveTip(env, msg) + if Credited(env, msg) then env.baseFee else 0
  }

  function BlobFee(env: Env, msg: Message): nat {
    if env.cancun && env.blobPrice.Some? then Fee(msg.blobGas, env.blobPrice.value) else 0
  }

  function MaxBlobFee(env: Env, msg: Message): nat {
    if env.cancun then Fee(msg.blobGas, msg.maxFeePerBlobGas) else 0
  }

  /** The balance check covers what is then taken. */
  predicate Covered(env: Env, msg: Message) {
    msg.gasPrice <= msg.feeCap && BlobFee(env, msg) <= MaxBlobFee(env, msg)
  }

  /** What is taken from the sender for gas and blobs. */
  function Bill(env: Env, msg: Message): nat {
    Fee(msg.gas, msg.gasPrice) + BlobFee(env, msg)
  }

  predicate Affordable(env: Env, msg: Message, balance: nat, gas: nat, blobGas: nat) {
    && (env.cancun ==> env.blobPrice.Some? && BlobFee(env, msg) < TWO_TO_THE_256 && msg.blobGas <= blobGas)
    && Fee(msg.gas, msg.gasPrice) < TWO_TO_THE_256
    && Fee(msg.gas, msg.feeCap) + msg.value + MaxBlobFee(env, msg) <= balance
    && msg.gas <= gas
  }

  function FeeCapVerdict(env: Env, msg: Message): Option<Error> {
    if msg.feeCap < msg.tip then Some(TipAboveFeeCap)
    else if msg.feeCap < env.baseFee && !msg.isFree then Some(FeeCapTooLow)
    else None
  }

  function Nonce(s: Snapshot, a: Address): uint64 {
    if a in s.nonces then s.nonces[a] else 0
  }

  predicate Acceptable(env: Env, msg: Message, s: Snapshot) {
    && (msg.checkNonce ==>
          && msg.nonce == Nonce(s, msg.from)
          && msg.nonce < TWO_TO_THE_64 - 1
          && msg.from !in s.codes)
    && (env.london ==> (env.noBaseFee && msg.feeCap == msg.tip == 0) || FeeCapVerdict(env, msg).None?)
    && (env.cancun && msg.blobGas > 0 ==>
          env.blobPrice.Some? && (env.noBaseFee || env.blobPrice.value <= msg.maxFeePerBlobGas))
  }

  /** The gas bought pays for the data of the message. */
  predicate Runnable(msg: Message) {
    msg.intrinsicGas.Some? && msg.intrinsicGas.value <= msg.gas && !msg.initCodeTooLong
  }

  /** The error says what is the matter. */
  predicate Explains(e: Error, env: Env, msg: Message, s: Snapshot, gas: nat, blobGas: nat) {
    match e
    case NonceTooHigh => msg.checkNonce && Nonce(s, msg.from) < msg.nonce
    case NonceTooLow => msg.checkNonce && Nonce(s, msg.from) > msg.nonce
    case NonceMax => msg.checkNonce && Nonce(s, msg.from) == msg.nonce == TWO_TO_THE_64 - 1
    case SenderNoEOA => msg.checkNonce && msg.from in s.codes
    case TipAboveFeeCap => env.london && msg.feeCap < msg.tip
    case FeeCapTooLow => env.london && msg.feeCap < env.baseFee && !msg.isFree
    case MaxFeePerBlobGas =>
      env.cancun && !env.noBaseFee && msg.blobGas > 0
      && env.blobPrice.Some? && env.blobPrice.value > msg.maxFeePerBlobGas
    case InsufficientFunds =>
      || Fee(msg.gas, msg.gasPrice) >= TWO_TO_THE_256 || BlobFee(env, msg) >= TWO_TO_THE_256
      || Fee(msg.gas, msg.feeCap) + msg.value + MaxBlobFee(env, msg) > Balance(s.balances, msg.from)
    case InternalFailure => env.cancun && env.blobPrice.None?
    case BlobGasLimitReached => env.cancun && msg.blobGas > blobGas
    case GasLimitReached => msg.gas > gas
    case GasUintOverflow => msg.intrinsicGas.None?
    case IntrinsicGas => msg.intrinsicGas.Some? && msg.intrinsicGas.value > msg.gas
    case MaxInitCodeSizeExceeded => msg.initCodeTooLong
  }

  /** How much more than the price is handed out per unit of gas; nothing if all is well. */
  function Surplus(env: Env, msg: Message): nat {
    if PaidOut(env, msg) > msg.gasPrice then PaidOut(env, msg) - msg.gasPrice else 0
  }

  function RefundQuotient(env: Env): uint64 {
    if env.london then REFUND_QUOTIENT_EIP3529 else REFUND_QUOTIENT
  }

  // ---------------------------------------------------------------- what a message does

  /** The state the EVM starts from: the sender is billed, and the message is counted unless a creation does that. */
  ghost predicate Enters(env: Env, msg: Message, s: Snapshot, entry: Snapshot) {
    && (forall k :: Balance(entry.balances, k) == Wrap(Balance(s.balances, k) - Only(k, msg.from, Bill(env, msg))))
    && entry.codes == s.codes
    && entry.nonces == if msg.creation then s.nonces
                       else s.nonces[msg.from := (Nonce(s, msg.from) + 1) % TWO_TO_THE_64]
  }

  /** The gas that is charged for: what the EVM did not hand back, less a refund of at most a fifth or half of it. */
  function GasCharged(env: Env, msg: Message, outcome: Outcome): int {
    var used := msg.gas - outcome.gasLeft;
    var most := used / if env.london then 5 else 2;
    used - if outcome.refund < most then outcome.refund else most
  }

  /** What the EVM leaves, with the gas settled: the sender gets the rest back, and the fees are paid out. */
  ghost predicate Leaves(env: Env, msg: Message, outcome: Outcome, used: uint64, after: Snapshot) {
    && used == GasCharged(env, msg, outcome) <= msg.gas
    && after.codes == outcome.after.codes && after.nonces == outcome.after.nonces
    && forall k :: Balance(after.balances, k) == Wrap(Balance(outcome.after.balances, k)
                     + Only(k, msg.from, Fee(msg.gas - used, msg.gasPrice)) + Income(env, msg, k, used))
  }

  /** Applying the message to `s` takes `used` units of gas and leads to `after`. */
  ghost predicate Applied(env: Env, msg: Message, evm: Evm, s: Snapshot, used: uint64, after: Snapshot)
    requires Runnable(msg)
  {
    exists entry :: Enters(env, msg, s, entry)
                    && Leaves(env, msg, evm(entry, msg.gas - msg.intrinsicGas.value), used, after)
  }

  // ---------------------------------------------------------------- the transition

  class StateTransition {
    const gp: Pool
    const state: State
    const env: Env
    const msg: Message
    var gasRemaining: uint64
    var initialGas: uint64

    constructor (gp: Pool, state: State, env: Env, msg: Message)
      ensures this.gp == gp && this.state == state && this.env == env && this.msg == msg
      ensures gasRemaining == 0 && initialGas == 0
    {
      this.gp, this.state, this.env, this.msg := gp, state, env, msg;
      gasRemaining, initialGas := 0, 0;
    }

    /**
      The sender has been charged, and nobody else. If the bill is more than the sender has, the
      balance wraps around; that is not what the balance check compares.
     */
    twostate predicate Charged(bill: nat)
      reads state
    {
      && Balance(state.s.balances, msg.from) == Wrap(old(Balance(state.s.balances, msg.from)) - bill)
      && (forall k :: k != msg.from ==> Balance(state.s.balances, k) == old(Balance(state.s.balances, k)))
      && (state.wrapped <==> old(state.wrapped) || bill > old(Balance(state.s.balances, msg.from)))
      && (bill <= old(Balance(state.s.balances, msg.from)) ==>
            && Total(state.s.balances) == old(Total(state.s.balances)) - bill
            && Balance(state.s.balances, msg.from) == old(Balance(state.s.balances, msg.from)) - bill)
    }

    /** Succeeds exactly if the sender can pay and the pools have room. */
    method BuyGas() returns (e: Option<Error>)
      requires gasRemaining == 0
      modifies this, gp, state`s, state`wrapped
      ensures e.None? <==> old(Affordable(env, msg, Balance(state.s.balances, msg.from), gp.gas, gp.blobGas))
      ensures e.Some? ==> old(Explains(e.value, env, msg, state.s, gp.gas, gp.blobGas))
      ensures e.None? ==> gasRemaining == initialGas == msg.gas && gp.gas == old(gp.gas) - msg.gas
      ensures e.None? ==> gp.blobGas == old(gp.blobGas) - if env.cancun then msg.blobGas else 0
      ensures e.None? ==> state.s.(balances := map[]) == old(state.s).(balances := map[])
      ensures e.None? ==> Charged(Bill(env, msg))
    {
      hide Fee, Wrap, Balance;
      WrapSteps(Balance(state.s.balances, msg.from) - Fee(msg.gas, msg.gasPrice), BlobFee(env, msg));
      var gasVal := Fee(msg.gas, msg.gasPrice);
      if gasVal >= TWO_TO_THE_256 {
        return Some(InsufficientFunds);
      }
      var blobGasVal := 0;
      if env.cancun {
        if env.blobPrice.None? {
          return Some(InternalFailure);
        }
        blobGasVal := Fee(msg.blobGas, env.blobPrice.value);
        if blobGasVal >= TWO_TO_THE_256 {
          return Some(InsufficientFunds);
        }
        var room := gp.SubBlobGas(msg.blobGas);
        if !room {
          return Some(BlobGasLimitReached);
        }
      }
      var balanceCheck := Fee(msg.gas, msg.feeCap);
      if balanceCheck >= TWO_TO_THE_256 {
        return Some(InsufficientFunds);
      }
      balanceCheck := balanceCheck + msg.value;
      if balanceCheck >= TWO_TO_THE_256 {
        return Some(InsufficientFunds);
      }
      if env.cancun {
        var maxBlobFee := Fee(msg.blobGas, msg.maxFeePerBlobGas);
        if maxBlobFee >= TWO_TO_THE_256 {
          return Some(InsufficientFunds);
        }
        balanceCheck := balanceCheck + maxBlobFee;
        if balanceCheck >= TWO_TO_THE_256 {
          return Some(InsufficientFunds);
        }
      }
      var have := Balance(state.s.balances, msg.from);
      if have < balanceCheck {
        return Some(InsufficientFunds);
      }
      var room := gp.SubGas(msg.gas);
      if !room {
        return Some(GasLimitReached);
      }
      gasRemaining := gasRemaining + msg.gas;
      initialGas := msg.gas;
      state.SubBalance(msg.from, gasVal);
      state.SubBalance(msg.from, blobGasVal);
      return None;
    }

    /** Nonce, sender and price checks, then the purchase. */
    method PreCheck() returns (e: Option<Error>)
      requires gasRemaining == 0
      modifies this, gp, state`s, state`wrapped
      ensures e.None? <==>
                && old(Acceptable(env, msg, state.s))
                && old(Affordable(env, msg, Balance(state.s.balances, msg.from), gp.gas, gp.blobGas))
      ensures e.Some? ==> old(Explains(e.value, env, msg, state.s, gp.gas, gp.blobGas))
      ensures e.None? && !env.noBaseFee ==> BlobFee(env, msg) <= MaxBlobFee(env, msg)
      ensures e.None? ==> gasRemaining == initialGas == msg.gas && gp.gas == old(gp.gas) - msg.gas
      ensures e.None? ==> gp.blobGas == old(gp.blobGas) - if env.cancun then msg.blobGas else 0
      ensures e.None? ==> state.s.(balances := map[]) == old(state.s).(balances := map[])
      ensures e.None? ==> Charged(Bill(env, msg))
    {
      if msg.checkNonce {
        var nonce := Nonce(state.s, msg.from);
        if nonce < msg.nonce {
          return Some(NonceTooHigh);
        } else if nonce > msg.nonce {
          return Some(NonceTooLow);
        } else if nonce == TWO_TO_THE_64 - 1 {
          return Some(NonceMax);
        }
        if msg.from in state.s.codes {
          return Some(SenderNoEOA);
        }
      }
      if env.london {
        var skipCheck := env.noBaseFee && msg.feeCap == 0 && msg.tip == 0;
        if !skipCheck {
          var verdict := FeeCapVerdict(env, msg);
          if verdict.Some? {
            return verdict;
          }
        }
      }
      if msg.blobGas > 0 && env.cancun {
        if env.blobPrice.None? {
          return Some(InternalFailure);
        }
        if !env.noBaseFee && env.blobPrice.value > msg.maxFeePerBlobGas {
          return Some(MaxFeePerBlobGas);
        }
      }
      if !env.cancun || env.blobPrice.Some? {
        BlobFeeCoveredIff(env, msg);
      }
      e := BuyGas();
    }

    function GasUsed(): uint64
      requires gasRemaining <= initialGas
      reads this
    {
      initialGas - gasRemaining
    }

    /** Returns unused gas and the refund, which is capped to a share of what was used. */
    method RefundGas(quotient: uint64)
      requires quotient > 0 && gasRemaining <= initialGas && gp.gas + initialGas < TWO_TO_THE_64
      modifies this`gasRemaining, gp`gas, state`s, state`wrapped
      ensures old(gasRemaining) <= gasRemaining <= initialGas
      ensures var refund := gasRemaining - old(gasRemaining);
              && refund <= state.refund && refund <= old(GasUsed()) / quotient
              && (refund == state.refund || refund == old(GasUsed()) / quotient)
      ensures gp.gas == old(gp.gas) + gasRemaining
      ensures state.s.(balances := map[]) == old(state.s).(balances := map[]) && (old(state.wrapped) ==> state.wrapped)
      ensures old(Total(state.s.balances)) + Fee(gasRemaining, msg.gasPrice) < TWO_TO_THE_256 ==>
                && state.wrapped == old(state.wrapped)
                && Total(state.s.balances) == old(Total(state.s.balances)) + Fee(gasRemaining, msg.gasPrice)
                && forall k :: Balance(state.s.balances, k) == old(Balance(state.s.balances, k))
                                 + Only(k, msg.from, Fee(gasRemaining, msg.gasPrice))
      ensures forall k :: Balance(state.s.balances, k) == Wrap(old(Balance(state.s.balances, k))
                            + Only(k, msg.from, Fee(gasRemaining, msg.gasPrice)))
    {
      hide Fee, Wrap, Balance;
      var refund := GasUsed() / quotient;
      ShareAtMost(GasUsed(), quotient);
      if refund > state.refund {
        refund := state.refund;
      }
      gasRemaining := gasRemaining + refund;
      Credit(msg.from, gasRemaining, msg.gasPrice);
      gp.AddGas(gasRemaining);
    }

    /** An account gets the price of some gas. */
    method Credit(to: Address, gas: uint64, price: uint256)
      modifies state`s, state`wrapped
      ensures state.s.(balances := map[]) == old(state.s).(balances := map[]) && (old(state.wrapped) ==> state.wrapped)
      ensures forall k :: Balance(state.s.balances, k)
                          == Wrap(old(Balance(state.s.balances, k)) + Only(k, to, Fee(gas, price)))
      ensures old(Total(state.s.balances)) + Fee(gas, price) < TWO_TO_THE_256 ==>
                && state.wrapped == old(state.wrapped)
                && Total(state.s.balances) == old(Total(state.s.balances)) + Fee(gas, price)
                && forall k :: Balance(state.s.balances, k) == old(Balance(state.s.balances, k))
                                 + Only(k, to, Fee(gas, price))
    {
      hide Fee, Wrap, Balance;
      var amount := Product(gas, price);
      BalanceAtMostTotal(state.s.balances, to);
      WrapSum(Fee(gas, price), Balance(state.s.balances, to));
      WordsAreWords(state.s.balances);
      state.AddBalance(to, amount);
    }

    /** Pays the block producer and, where one is set, the contract that collects the base fee. */
    method PayFees()
      requires gasRemaining <= initialGas
      modifies state`s, state`wrapped
      ensures state.s.(balances := map[]) == old(state.s).(balances := map[]) && (old(state.wrapped) ==> state.wrapped)
      ensures old(Total(state.s.balances)) + Fee(GasUsed(), PaidOut(env, msg)) < TWO_TO_THE_256 ==>
                && state.wrapped == old(state.wrapped)
                && Total(state.s.balances) == old(Total(state.s.balances)) + Fee(GasUsed(), PaidOut(env, msg))
                && forall k :: Balance(state.s.balances, k) == old(Balance(state.s.balances, k))
                                 + Income(env, msg, k, GasUsed())
      ensures forall k :: Balance(state.s.balances, k)
                          == Wrap(old(Balance(state.s.balances, k)) + Income(env, msg, k, GasUsed()))
    {
      hide Fee, Wrap, Balance, Only;
      var effectiveTip := EffectiveTip(env, msg);
      FeeOfSum(GasUsed(), effectiveTip, env.baseFee);
      Credit(env.coinbase, GasUsed(), effectiveTip);
      if !msg.isFree && env.london && env.burntContract.Some? {
        WrapSums(old(state.s.balances), env.coinbase, Fee(GasUsed(), effectiveTip),
                 env.burntContract.value, Fee(GasUsed(), env.baseFee));
        Credit(env.burntContract.value, GasUsed(), env.baseFee);
      }
    }

    /** Refund and payment together: what was paid for gas comes back, except for the gas used. */
    method Settle()
      requires gasRemaining <= initialGas == msg.gas && gp.gas + initialGas < TWO_TO_THE_64
      modifies this`gasRemaining, gp`gas, state`s, state`wrapped
      ensures old(gasRemaining) <= gasRemaining <= initialGas && gp.gas == old(gp.gas) + gasRemaining
      ensures (old(gasRemaining) < initialGas ==> gasRemaining < initialGas) && (old(state.wrapped) ==> state.wrapped)
      ensures old(Total(state.s.balances)) + Fee(msg.gas, msg.gasPrice) + Fee(msg.gas, Surplus(env, msg))
              < TWO_TO_THE_256 ==>
                && state.wrapped == old(state.wrapped)
                && Total(state.s.balances) == old(Total(state.s.balances)) + Fee(msg.gas, msg.gasPrice)
                     - Fee(GasUsed(), msg.gasPrice) + Fee(GasUsed(), PaidOut(env, msg))
                && forall k :: Balance(state.s.balances, k) == old(Balance(state.s.balances, k))
                                 + Only(k, msg.from, Fee(gasRemaining, msg.gasPrice)) + Income(env, msg, k, GasUsed())
      ensures var used := msg.gas - old(gasRemaining); var most := used / if env.london then 5 else 2;
              GasUsed() == used - if state.refund < most then state.refund else most
      ensures state.s.(balances := map[]) == old(state.s).(balances := map[])
      ensures forall k :: Balance(state.s.balances, k) == Wrap(old(Balance(state.s.balances, k))
                            + Only(k, msg.from, Fee(gasRemaining, msg.gasPrice)) + Income(env, msg, k, GasUsed()))
    {
      hide Fee, PaidOut, Surplus, Income, Balance, Wrap;
      ShareAtMost(GasUsed(), RefundQuotient(env));
      RefundGas(RefundQuotient(env));
      FeeBounds(env, msg, GasUsed(), gasRemaining);
      PayFees();
      forall k
        ensures Wrap(Wrap(old(Balance(state.s.balances, k)) + Only(k, msg.from, Fee(gasRemaining, msg.gasPrice)))
                  + Income(env, msg, k, GasUsed()))
             == Wrap(old(Balance(state.s.balances, k)) + Only(k, msg.from, Fee(gasRemaining, msg.gasPrice))
                  + Income(env, msg, k, GasUsed()))
      {
        WrapSum(old(Balance(state.s.balances, k)) + Only(k, msg.from, Fee(gasRemaining, msg.gasPrice)),
                Income(env, msg, k, GasUsed()));
      }
    }

    /** Counts the message, unless a creation does that itself, and runs it on the gas that remains. */
    method Execute(evm: Evm) returns (ghost entry: Snapshot, ghost outcome: Outcome)
      requires Sound(evm)
      modifies this`gasRemaining, state`s, state`refund
      ensures entry.balances == old(state.s.balances) && entry.codes == old(state.s.codes)
      ensures entry.nonces == if msg.creation then old(state.s.nonces)
                              else old(state.s.nonces[msg.from := (Nonce(state.s, msg.from) + 1) % TWO_TO_THE_64])
      ensures outcome == evm(entry, old(gasRemaining)) && state.s == outcome.after && state.refund == outcome.refund
      ensures gasRemaining == outcome.gasLeft <= old(gasRemaining)
      ensures Total(state.s.balances) == old(Total(state.s.balances))
    {
      if !msg.creation {
        state.s := state.s.(nonces := state.s.nonces[msg.from := (Nonce(state.s, msg.from) + 1) % TWO_TO_THE_64]);
      }
      var result := evm(state.s, gasRemaining);
      entry, outcome := state.s, result;
      state.s, state.refund, gasRemaining := result.after, result.refund, result.gasLeft;
    }

    /** Runs the message and settles what it used. */
    method Run(evm: Evm) returns (ghost entry: Snapshot, ghost outcome: Outcome)
      requires Sound(evm) && gasRemaining <= initialGas == msg.gas && gp.gas + initialGas < TWO_TO_THE_64
      modifies this`gasRemaining, gp`gas, state
      ensures entry.balances == old(state.s.balances) && entry.codes == old(state.s.codes)
      ensures entry.nonces == if msg.creation then old(state.s.nonces)
                              else old(state.s.nonces[msg.from := (Nonce(state.s, msg.from) + 1) % TWO_TO_THE_64])
      ensures outcome == evm(entry, old(gasRemaining))
      ensures gasRemaining <= initialGas && Leaves(env, msg, outcome, GasUsed(), state.s)
      ensures gp.gas == old(gp.gas) + gasRemaining && (old(state.wrapped) ==> state.wrapped)
      ensures old(gasRemaining) < initialGas ==> gasRemaining < initialGas
      ensures old(Total(state.s.balances)) + Fee(msg.gas, msg.gasPrice) + Fee(msg.gas, Surplus(env, msg))
              < TWO_TO_THE_256 ==>
                && state.wrapped == old(state.wrapped)
                && Total(state.s.balances) == old(Total(state.s.balances)) + Fee(msg.gas, msg.gasPrice)
                     - Fee(GasUsed(), msg.gasPrice) + Fee(GasUsed(), PaidOut(env, msg))
                && forall k :: Balance(state.s.balances, k) == Balance(outcome.after.balances, k)
                                 + Only(k, msg.from, Fee(gasRemaining, msg.gasPrice)) + Income(env, msg, k, GasUsed())
    {
      hide Fee, PaidOut, Surplus, Income, Balance, Wrap, Total, Sound;
      entry, outcome := Execute(evm);
      Settle();
    }

    /**
      The whole transition, with refunds and without bailout. On success the pool is short of
      exactly the gas used, and the sum of all balances changes by the difference between
      what was handed out and what was paid, less the blob fee, with no balance wrapping.
     */
    method TransitionDb(evm: Evm) returns (r: Result<uint64>, ghost entry: Snapshot, ghost outcome: Outcome)
      requires Sound(evm) && gasRemaining == 0
      modifies this, gp, state
      ensures r.Ok? <==>
                && old(Acceptable(env, msg, state.s)) && Runnable(msg)
                && old(Affordable(env, msg, Balance(state.s.balances, msg.from), gp.gas, gp.blobGas))
      ensures r.Err? ==> old(Explains(r.error, env, msg, state.s, gp.gas, gp.blobGas))
      ensures r.Ok? ==> r.value <= msg.gas && gp.gas + r.value == old(gp.gas)
      ensures r.Ok? ==> gp.blobGas == old(gp.blobGas) - if env.cancun then msg.blobGas else 0
      ensures r.Ok? && msg.intrinsicGas.value > 0 ==> r.value > 0
      ensures r.Ok? && Bill(env, msg) > old(Balance(state.s.balances, msg.from)) ==> state.wrapped
      ensures r.Ok? && Bill(env, msg) <= old(Balance(state.s.balances, msg.from))
              && old(Total(state.s.balances)) + Fee(msg.gas, Surplus(env, msg)) < TWO_TO_THE_256 ==>
                && state.wrapped == old(state.wrapped)
                && Total(state.s.balances) == old(Total(state.s.balances))
                     - Fee(r.value, msg.gasPrice) + Fee(r.value, PaidOut(env, msg)) - BlobFee(env, msg)
                && (forall k :: Balance(entry.balances, k) == old(Balance(state.s.balances, k))
                                  - Only(k, msg.from, Bill(env, msg)))
                && (forall k :: Balance(state.s.balances, k) == Balance(outcome.after.balances, k)
                                  + Only(k, msg.from, Fee(msg.gas - r.value, msg.gasPrice))
                                  + Income(env, msg, k, r.value))
      ensures r.Ok? ==> Enters(env, msg, old(state.s), entry) && Leaves(env, msg, outcome, r.value, state.s)
      ensures r.Ok? ==> outcome == evm(entry, msg.gas - msg.intrinsicGas.value)
    {
      hide Fee, PaidOut, Surplus, Acceptable, Affordable, BlobFee, Income, Balance, Wrap, Total, Sound, Leaves;
      entry, outcome := state.s, Outcome(state.s, 0, 0);
      WordsAreWords(state.s.balances);
      var e := PreCheck();
      if e.Some? {
        return Err(e.value), entry, outcome;
      }
      if msg.intrinsicGas.None? {
        return Err(GasUintOverflow), entry, outcome;
      }
      if gasRemaining < msg.intrinsicGas.value {
        return Err(IntrinsicGas), entry, outcome;
      }
      gasRemaining := gasRemaining - msg.intrinsicGas.value;
      if msg.initCodeTooLong {
        return Err(MaxInitCodeSizeExceeded), entry, outcome;
      }
      entry, outcome := Run(evm);
      return Ok(GasUsed()), entry, outcome;
    }

    /** A product of 256-bit words. */
    method Product(gas: uint64, price: uint256) returns (p: uint256)
      modifies state`wrapped
      ensures p == Wrap(Fee(gas, price)) && (state.wrapped <==> old(state.wrapped) || Fee(gas, price) >= TWO_TO_THE_256)
      ensures Fee(gas, price) < TWO_TO_THE_256 ==> p == Fee(gas, price)
    {
      FeeIs(gas, price);
      p := Wrap(gas * price);
      if Fee(gas, price) >= TWO_TO_THE_256 {
        state.wrapped := true;
      } else {
        WordOf(gas * price, gas * price, 0);
      }
    }
  }

  /** Two payments, word by word and at once. */
  lemma WrapSums(b: Balances, to: Address, amount: nat, other: Address, more: nat)
    ensures forall k :: Wrap(Wrap(Balance(b, k) + Only(k, to, amount)) + Only(k, other, more))
                        == Wrap(Balance(b, k) + (Only(k, to, amount) + Only(k, other, more)))
  {
    hide Wrap, Balance;
    forall k
      ensures Wrap(Wrap(Balance(b, k) + Only(k, to, amount)) + Only(k, other, more))
           == Wrap(Balance(b, k) + (Only(k, to, amount) + Only(k, other, more)))
    {
      WrapSum(Balance(b, k) + Only(k, to, amount), Only(k, other, more));
    }
  }

  lemma WordsAreWords(b: Balances)
    ensures forall k :: Wrap(Balance(b, k)) == Balance(b, k)
  {
  }

  /** Gas used and gas left are paid for separately; what is handed out stays within bounds. */
  lemma FeeBounds(env: Env, msg: Message, used: uint64, left: uint64)
    requires used + left == msg.gas
    ensures Fee(msg.gas, msg.gasPrice) == Fee(used, msg.gasPrice) + Fee(left, msg.gasPrice)
    ensures Fee(used, PaidOut(env, msg)) <= Fee(used, msg.gasPrice) + Fee(msg.gas, Surplus(env, msg))
  {
    hide Fee;
    FeeSplits(used, left, msg.gasPrice);
    FeeMonotone(used, used, PaidOut(env, msg), msg.gasPrice + Surplus(env, msg));
    FeeOfSum(used, msg.gasPrice, Surplus(env, msg));
    FeeMonotone(used, msg.gas, Surplus(env, msg), Surplus(env, msg));
  }

  lemma ShareAtMost(n: nat, quotient: nat)
    requires quotient > 0
    ensures 0 <= n / quotient <= n
  {
    var q := n / quotient;
    assert n == quotient * q + n % quotient;
    if q > n {
      FeeMonotone(1, quotient, q, q);
    }
  }

  // ---------------------------------------------------------------- conservation

  /** The base fee that nobody gets, per unit of gas. */
  function Burnt(env: Env, msg: Message): nat {
    if env.london && !Credited(env, msg) then env.baseFee else 0
  }

  /** The price splits into what the producer gets and the base fee. */
  predicate FairPrice(env: Env, msg: Message) {
    env.london ==> !msg.isFree && msg.gasPrice == EffectiveTip(env, msg) + env.baseFee
  }

  /** The price that EIP-1559 sets. */
  predicate LondonPrice(env: Env, msg: Message) {
    && env.baseFee <= msg.feeCap
    && msg.gasPrice == if msg.tip + env.baseFee < msg.feeCap then msg.tip + env.baseFee else msg.feeCap
  }

  lemma LondonPriceIsFair(env: Env, msg: Message)
    requires env.london && !msg.isFree && env.baseFee <= msg.feeCap
    ensures FairPrice(env, msg) <==> LondonPrice(env, msg)
  {
  }

  function Min(a: int, b: int): int {
    if a < b then a else b
  }

  /**
    Since London the block producer gets the tip, as far as the cap leaves room for it above the base fee; the
    base fee goes to the contract set for it. Of a fair price that is all there is.
   */
  lemma IncomeSplits(env: Env, msg: Message, used: nat, k: Address)
    requires env.london && env.burntContract != Some(env.coinbase)
    ensures var room := msg.feeCap - env.baseFee; var tip := if room > 0 then Min(msg.tip, room) else 0;
            && Income(env, msg, k, used) == (if k == env.coinbase then Fee(used, tip)
                                             else if !msg.isFree && env.burntContract == Some(k) then
                                               Fee(used, env.baseFee)
                                             else 0)
            && (FairPrice(env, msg) ==> tip + env.baseFee == msg.gasPrice)
  {
  }

  lemma FairPaysOutNoMore(env: Env, msg: Message)
    requires FairPrice(env, msg)
    ensures PaidOut(env, msg) + Burnt(env, msg) == msg.gasPrice && Surplus(env, msg) == 0
  {
  }

  /** For gas that is used, handing out the price and handing out as much are the same. */
  lemma FeeCancels(used: nat, p: nat, q: nat)
    requires used > 0
    ensures Fee(used, p) == Fee(used, q) <==> p == q
  {
    if p < q {
      FeeOfSum(used, p, q - p);
      FeeMonotone(1, used, q - p, q - p);
    } else if q < p {
      FeeOfSum(used, q, p - q);
      FeeMonotone(1, used, p - q, p - q);
    }
  }

  /**
    Applies a message. For a fair price, which every message has before London, the sum of all
    balances falls by exactly the burnt base fee of the gas used and the blob fee. Since London
    a fair price is also necessary. A balance wraps around exactly if the sender is billed more
    than there is, which the balance check does not rule out by itself.
   */
  method ApplyMessage(gp: Pool, state: State, env: Env, msg: Message, evm: Evm) returns (r: Result<uint64>)
    requires Sound(evm)
    modifies gp, state
    ensures r.Ok? <==>
              && old(Acceptable(env, msg, state.s)) && Runnable(msg)
              && old(Affordable(env, msg, Balance(state.s.balances, msg.from), gp.gas, gp.blobGas))
    ensures r.Err? ==> old(Explains(r.error, env, msg, state.s, gp.gas, gp.blobGas))
    ensures r.Ok? ==> r.value <= msg.gas && gp.gas + r.value == old(gp.gas)
    ensures r.Ok? ==> gp.blobGas == old(gp.blobGas) - if env.cancun then msg.blobGas else 0
    ensures r.Ok? ==> Applied(env, msg, evm, old(state.s), r.value, state.s)
    ensures r.Ok? && old(Total(state.s.balances)) + Fee(msg.gas, Surplus(env, msg)) < TWO_TO_THE_256 ==>
              (state.wrapped <==> old(state.wrapped) || Bill(env, msg) > old(Balance(state.s.balances, msg.from)))
    ensures r.Ok? && Bill(env, msg) <= old(Balance(state.s.balances, msg.from))
            && FairPrice(env, msg) && old(Total(state.s.balances)) < TWO_TO_THE_256 ==>
              && state.wrapped == old(state.wrapped)
              && Total(state.s.balances)
                 == old(Total(state.s.balances)) - Fee(r.value, Burnt(env, msg)) - BlobFee(env, msg)
    ensures r.Ok? && Bill(env, msg) <= old(Balance(state.s.balances, msg.from))
            && env.london && !msg.isFree && msg.intrinsicGas != Some(0)
            && old(Total(state.s.balances)) + Fee(msg.gas, Surplus(env, msg)) < TWO_TO_THE_256 ==>
              (FairPrice(env, msg) <==>
                 Total(state.s.balances)
                 == old(Total(state.s.balances)) - Fee(r.value, Burnt(env, msg)) - BlobFee(env, msg))
  {
    hide Fee, BlobFee, Bill, Affordable, Acceptable, Explains, Income, Only, Balance, Enters, Leaves;
    var st := new StateTransition(gp, state, env, msg);
    ghost var entry, outcome;
    r, entry, outcome := st.TransitionDb(evm);
    if r.Ok? {
      FeeOfSum(r.value, PaidOut(env, msg), Burnt(env, msg));
      NoFee(msg.gas);
      if FairPrice(env, msg) {
        FairPaysOutNoMore(env, msg);
      }
      if r.value > 0 {
        FeeCancels(r.value, msg.gasPrice, PaidOut(env, msg) + Burnt(env, msg));
      }
    }
  }

  lemma NoFee(gas: nat)
    ensures Fee(gas, 0) == 0
  {
  }

  /** The balance check is enough if price and blob price are within what it assumes. */
  lemma CoveredIsPaid(env: Env, msg: Message, balance: nat, gas: nat, blobGas: nat)
    requires Affordable(env, msg, balance, gas, blobGas) && Covered(env, msg)
    ensures Bill(env, msg) <= balance
  {
    hide Fee;
    FeeMonotone(msg.gas, msg.gas, msg.gasPrice, msg.feeCap);
  }

  /** Without base fees an accepted message can be billed more for its blobs than the check assumes. */
  lemma BlobFeeCoveredIff(env: Env, msg: Message)
    requires env.cancun ==> env.blobPrice.Some?
    ensures BlobFee(env, msg) > MaxBlobFee(env, msg) <==>
              env.cancun && msg.blobGas > 0 && env.blobPrice.value > msg.maxFeePerBlobGas
  {
    hide Fee;
    if env.cancun {
      var price, cap := env.blobPrice.value, msg.maxFeePerBlobGas;
      if price <= cap {
        FeeMonotone(msg.blobGas, msg.blobGas, price, cap);
      } else if msg.blobGas == 0 {
        FeeIs(0, price);
      } else {
        FeeOfSum(msg.blobGas, cap, price - cap);
        FeeMonotone(1, msg.blobGas, price - cap, price - cap);
        FeeIs(1, price - cap);
      }
    }
  }

  /** The blob price is within them for every message that is accepted with base fees enabled. */
  lemma AcceptedBlobFee(env: Env, msg: Message, s: Snapshot)
    requires Acceptable(env, msg, s) && !env.noBaseFee && (env.cancun ==> env.blobPrice.Some?)
    ensures BlobFee(env, msg) <= MaxBlobFee(env, msg)
  {
    BlobFeeCoveredIff(env, msg);
  }

  // ---------------------------------------------------------------- effective prices

  type uint8 = n: int | 0 <= n < 256

  function CalculateEffectiveGas(gas: uint256, ep: uint8): uint256 {
    Wrap(Fee(gas, ep + 1)) / EFFECTIVE_GAS_PRICE_MAX_VAL
  }

  /** Prices for which the product does not wrap, whatever the percentage. */
  const SCALABLE: int := TWO_TO_THE_256 / EFFECTIVE_GAS_PRICE_MAX_VAL

  /** At most the price, and a share of `ep + 1` in 256, rounded down, unless the product wraps. */
  lemma ScaledIs(gas: uint256, ep: uint8)
    ensures CalculateEffectiveGas(gas, ep) <= gas && CalculateEffectiveGas(gas, ep) < SCALABLE
    ensures CalculateEffectiveGas(gas, ep) == gas <==> gas == 0 || (ep == 255 && gas < SCALABLE)
    ensures if Fee(gas, ep + 1) < TWO_TO_THE_256 then CalculateEffectiveGas(gas, ep) == Fee(gas, ep + 1) / 256
            else CalculateEffectiveGas(gas, ep) + SCALABLE <= gas
  {
    hide Fee, Wrap;
    var product := Fee(gas, ep + 1);
    WrapAtMost(product);
    FeeMonotone(gas, gas, ep + 1, 256);
    FeeIs(gas, 256);
    if ep < 255 {
      FeeMonotone(gas, gas, ep + 1, 255);
      FeeIs(gas, 255);
    }
    if gas == 0 {
      FeeIs(gas, ep + 1);
    }
  }

  lemma ScaledMonotone(a: uint256, b: uint256, ep: uint8)
    requires a <= b && Fee(b, ep + 1) < TWO_TO_THE_256
    ensures CalculateEffectiveGas(a, ep) <= CalculateEffectiveGas(b, ep)
  {
    hide Fee, CalculateEffectiveGas;
    ScaledIs(a, ep);
    ScaledIs(b, ep);
    FeeMonotone(a, b, ep + 1, ep + 1);
  }

  datatype Pricing = Legacy(price: uint256) | Dynamic(feeCap: uint256, tip: uint256)

  /** The prices of a message, by the kind of its transaction. Dynamic fees need London. */
  function AsMessage(env: Env, body: Message, pricing: Pricing): Option<Message> {
    match pricing
    case Legacy(price) => Some(body.(gasPrice := price, feeCap := price, tip := price))
    case Dynamic(feeCap, tip) =>
      if !env.london then None else
      var price := Wrap(env.baseFee + tip);
      Some(body.(gasPrice := if price > feeCap then feeCap else price, feeCap := feeCap, tip := tip))
  }

  /** Price and fee cap are scaled by the effective percentage since fork 5; the tip is not. */
  function Scaled(msg: Message, fork5: bool, ep: uint8): Message {
    if fork5 then
      msg.(gasPrice := CalculateEffectiveGas(msg.gasPrice, ep), feeCap := CalculateEffectiveGas(msg.feeCap, ep))
    else msg
  }

  /** The cap a transaction names. */
  function CapOf(pricing: Pricing): uint256 {
    if pricing.Legacy? then pricing.price else pricing.feeCap
  }

  /** Without scaling an accepted message has a fair price, unless its full price leaves 256 bits. */
  lemma UnscaledIsFairIff(env: Env, body: Message, pricing: Pricing)
    requires env.london && !body.isFree && FeeCapVerdict(env, AsMessage(env, body, pricing).value).None?
    ensures var msg := AsMessage(env, body, pricing).value;
            && msg.gasPrice <= msg.feeCap
            && (FairPrice(env, msg) <==> pricing.Legacy? || env.baseFee + pricing.tip < TWO_TO_THE_256)
  {
    hide Wrap;
    if pricing.Dynamic? {
      WrapAtMost(env.baseFee + pricing.tip);
    }
  }

  /** The full price of a message cannot leave 256 bits if two units of gas at the cap do not. */
  lemma PayableIsFair(env: Env, body: Message, pricing: Pricing)
    requires env.london && !body.isFree && FeeCapVerdict(env, AsMessage(env, body, pricing).value).None?
    requires 2 <= body.gas && Fee(body.gas, CapOf(pricing)) < TWO_TO_THE_256
    ensures FairPrice(env, AsMessage(env, body, pricing).value)
  {
    hide Fee, Wrap;
    FeeMonotone(2, body.gas, CapOf(pricing), CapOf(pricing));
    FeeIs(2, CapOf(pricing));
    UnscaledIsFairIff(env, body, pricing);
  }

  /** A price below 2^248 stays within its cap under any percentage. */
  lemma ScaledIsCovered(env: Env, body: Message, pricing: Pricing, fork5: bool, ep: uint8)
    requires AsMessage(env, body, pricing).Some? && CapOf(pricing) < SCALABLE
    ensures var msg := Scaled(AsMessage(env, body, pricing).value, fork5, ep); msg.gasPrice <= msg.feeCap
  {
    hide Fee, Wrap, CalculateEffectiveGas;
    var msg := AsMessage(env, body, pricing).value;
    FeeMonotone(CapOf(pricing), CapOf(pricing), ep + 1, 256);
    FeeIs(CapOf(pricing), 256);
    ScaledMonotone(msg.gasPrice, msg.feeCap, ep);
  }

  /** What an accepted, scaled dynamic-fee message says about its prices. */
  lemma AcceptedPrices(env: Env, body: Message, feeCap: uint256, tip: uint256, ep: uint8)
    requires env.london && !body.isFree
    requires FeeCapVerdict(env, Scaled(AsMessage(env, body, Dynamic(feeCap, tip)).value, true, ep)).None?
    ensures env.baseFee <= CalculateEffectiveGas(feeCap, ep) && tip <= CalculateEffectiveGas(feeCap, ep) < SCALABLE
    ensures var full := env.baseFee + tip;
            AsMessage(env, body, Dynamic(feeCap, tip)).value.gasPrice == if full > feeCap then feeCap else full
  {
    hide Wrap, CalculateEffectiveGas;
    ScaledIs(feeCap, ep);
    WrapAtMost(env.baseFee + tip);
  }

  /**
    An accepted dynamic-fee message is charged more than its scaled cap exactly if the product
    of the cap wraps, that of the full price does not, and what is left of the first is less.
   */
  lemma ScaledDynamicIsCoveredIff(env: Env, body: Message, feeCap: uint256, tip: uint256, ep: uint8)
    requires env.london && !body.isFree
    requires FeeCapVerdict(env, Scaled(AsMessage(env, body, Dynamic(feeCap, tip)).value, true, ep)).None?
    ensures var msg := Scaled(AsMessage(env, body, Dynamic(feeCap, tip)).value, true, ep);
            var cap, full := Fee(feeCap, ep + 1), Fee(env.baseFee + tip, ep + 1);
            msg.gasPrice > msg.feeCap <==>
              full < TWO_TO_THE_256 <= cap && (cap % TWO_TO_THE_256) / 256 < full / 256
  {
    hide Fee, CalculateEffectiveGas;
    var price := env.baseFee + tip;
    AcceptedPrices(env, body, feeCap, tip, ep);
    ScaledIs(price, ep);
    ScaledOfCap(feeCap, ep);
    if feeCap <= price {
      FeeMonotone(feeCap, price, ep + 1, ep + 1);
    } else if Fee(feeCap, ep + 1) < TWO_TO_THE_256 {
      ScaledMonotone(price, feeCap, ep);
    }
  }

  /**
    A message whose scaled cap is zero is accepted only with a zero tip, whether it is free, passes the fee
    check or skips it without base fees. It is charged all the same exactly if the base fee is below its
    cap and not scaled away.
   */
  lemma ScaledFreeIsCoveredIff(env: Env, body: Message, feeCap: uint256, tip: uint256, ep: uint8)
    requires env.london && CalculateEffectiveGas(feeCap, ep) == 0 && tip == 0
    ensures var msg := Scaled(AsMessage(env, body, Dynamic(feeCap, tip)).value, true, ep);
            && (msg.gasPrice > msg.feeCap <==> env.baseFee < feeCap && CalculateEffectiveGas(env.baseFee, ep) > 0)
            && (msg.gasPrice > msg.feeCap ==> Fee(feeCap, ep + 1) >= TWO_TO_THE_256)
  {
    hide Wrap, Fee, CalculateEffectiveGas;
    WrapAtMost(env.baseFee + tip);
    if env.baseFee < feeCap && Fee(feeCap, ep + 1) < TWO_TO_THE_256 {
      ScaledMonotone(env.baseFee, feeCap, ep);
    }
  }

  lemma ScaledOfCap(feeCap: uint256, ep: uint8)
    ensures CalculateEffectiveGas(feeCap, ep) == (Fee(feeCap, ep + 1) % TWO_TO_THE_256) / 256
  {
  }

  /**
    The scaled price of an accepted dynamic-fee message is fair exactly if its cap was binding
    before scaling, nothing was scaled, or both scale to the same number.
   */
  lemma ScaledDynamicIsFairIff(env: Env, body: Message, feeCap: uint256, tip: uint256, ep: uint8)
    requires env.london && !body.isFree
    requires FeeCapVerdict(env, Scaled(AsMessage(env, body, Dynamic(feeCap, tip)).value, true, ep)).None?
    ensures var msg := Scaled(AsMessage(env, body, Dynamic(feeCap, tip)).value, true, ep);
            var full, cap := env.baseFee + tip, CalculateEffectiveGas(feeCap, ep);
            FairPrice(env, msg) <==>
              || feeCap <= full
              || (full <= cap && (ep == 255 || full == 0))
              || CalculateEffectiveGas(full, ep) == cap
  {
    hide Wrap, CalculateEffectiveGas;
    AcceptedPrices(env, body, feeCap, tip, ep);
    ScaledIs(env.baseFee + tip, ep);
    ScaledIs(feeCap, ep);
  }

  /** A scaled legacy message is fair if it is accepted; since London that means it was not scaled. */
  lemma ScaledLegacy(env: Env, body: Message, price: uint256, ep: uint8)
    requires env.london && !body.isFree
    ensures var msg := Scaled(AsMessage(env, body, Legacy(price)).value, true, ep);
            && msg.gasPrice == msg.feeCap
            && (msg.feeCap < msg.tip <==> price > 0 && (ep < 255 || price >= SCALABLE))
            && (FeeCapVerdict(env, msg).None? ==> FairPrice(env, msg))
  {
    hide CalculateEffectiveGas;
    ScaledIs(price, ep);
  }

  /** An accepted message that makes money: the sender pays 1, the block producer gets 2. */
  lemma ScaledMints(env: Env, body: Message, used: nat)
    requires env.london && env.baseFee == 0 && !body.isFree && used > 0
    ensures var msg := Scaled(AsMessage(env, body, Dynamic(100, 2)).value, true, 127);
            && FeeCapVerdict(env, msg).None? && msg.gasPrice <= msg.feeCap
            && Fee(used, msg.gasPrice) == used && Fee(used, PaidOut(env, msg)) == 2 * used
  {
    hide Fee;
    assert Wrap(0 + 2) == 2;
    assert CalculateEffectiveGas(2, 127) == 1 by { FeeIs(2, 128); }
    assert CalculateEffectiveGas(100, 127) == 50 by { FeeIs(100, 128); }
    FeeIs(used, 1);
    FeeIs(used, 2);
  }

  /**
    A message that passes every check and is then billed more than the sender has: with a cap
    of 2^248 + 10 the scaled cap is 10, but the price stays 20.
   */
  lemma ScaledUnderflows(env: Env, body: Message, s: Snapshot)
    requires env.london && env.baseFee == 10 && !env.cancun && !body.isFree && !body.checkNonce
    requires body.gas == 21000 && body.value == 0 && body.intrinsicGas == Some(21000) && !body.initCodeTooLong
    ensures var msg := Scaled(AsMessage(env, body, Dynamic(SCALABLE + 10, 10)).value, true, 255);
            && msg.feeCap == 10 && msg.gasPrice == 20
            && Acceptable(env, msg, s) && Runnable(msg)
            && Affordable(env, msg, 210000, 21000, 0) && Bill(env, msg) > 210000
  {
    hide Fee, Wrap;
    assert Wrap(env.baseFee + 10) == 20 by { WordOf(20, 20, 0); }
    assert CalculateEffectiveGas(20, 255) == 20 by {
      FeeIs(20, 256);
      WordOf(5120, 5120, 0);
    }
    assert CalculateEffectiveGas(SCALABLE + 10, 255) == 10 by {
      FeeIs(SCALABLE + 10, 256);
      WordOf((SCALABLE + 10) * 256, 2560, 1);
    }
    FeeIs(21000, 10);
    FeeIs(21000, 20);
  }
}
