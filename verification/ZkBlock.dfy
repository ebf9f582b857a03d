/**
  The transaction loop of a zkEVM block (`core/blockchain_zkevm.go`,
  `core/state_processor_zkevm.go`): one gas pool for the block, the gas used so far, and the
  gas fields of the receipts.
 */
module ZkBlock {
  import opened Common
  import opened GasPool
  import opened World
  import opened Fees

  const FORK_ID7_BLOCK_GAS_LIMIT: uint64 := 18446744073709551615

  datatype Tx = Tx(body: Message, pricing: Pricing, ep: uint8, evm: Evm)

  datatype Forks = Forks(fork5: bool, fork8: bool)

  /** The gas fields of a receipt. */
  datatype Receipt = Receipt(gasUsed: uint64, cumulativeGasUsed: uint64)

  datatype BlockResult = Executed(receipts: seq<Receipt>, usedGas: uint64) | Rejected

  function GasOf(receipts: seq<Receipt>): nat {
    if receipts == [] then 0 else GasOf(receipts[..|receipts|-1]) + receipts[|receipts|-1].gasUsed
  }

  function BlockGasLimit(forks: Forks, headerLimit: uint64): uint64 {
    if forks.fork8 then headerLimit else FORK_ID7_BLOCK_GAS_LIMIT
  }

  /** The message a transaction becomes. */
  function MessageOf(env: Env, forks: Forks, tx: Tx): Option<Message> {
    var msg := AsMessage(env, tx.body, tx.pricing);
    if msg.None? then None else Some(Scaled(msg.value, forks.fork5, tx.ep))
  }

  /** From fork 8 on the cumulative gas is that of the block so far; before, the transaction's own. */
  ghost predicate GasFieldsRight(forks: Forks, receipts: seq<Receipt>) {
    forall i :: 0 <= i < |receipts| ==>
                  receipts[i].cumulativeGasUsed == if forks.fork8 then GasOf(receipts[..i+1]) else receipts[i].gasUsed
  }

  /** What holds of every message that is applied: it passes the fee check and its cap can be billed. */
  predicate Payable(env: Env, msg: Message) {
    && (env.london ==> (env.noBaseFee && msg.feeCap == msg.tip == 0) || FeeCapVerdict(env, msg).None?)
    && Fee(msg.gas, msg.feeCap) < TWO_TO_THE_256 && Runnable(msg)
  }

  /** The transaction, if it can be applied, pays a fair price within its cap. */
  ghost predicate Fair(env: Env, forks: Forks, tx: Tx) {
    var msg := MessageOf(env, forks, tx);
    msg.Some? && Payable(env, msg.value) ==> msg.value.gasPrice <= msg.value.feeCap && FairPrice(env, msg.value)
  }

  ghost predicate AllFair(env: Env, forks: Forks, txs: seq<Tx>) {
    forall i :: 0 <= i < |txs| ==> Fair(env, forks, txs[i])
  }

  /** The base fee of a block that nobody gets, per unit of gas. */
  function BlockBurn(env: Env): nat {
    if env.london && env.burntContract.None? then env.baseFee else 0
  }

  /** The transaction can be applied to `s` with `gas` and `blobGas` left in the pool. */
  predicate Accepts(env: Env, forks: Forks, tx: Tx, s: Snapshot, gas: int, blobGas: int) {
    var msg := MessageOf(env, forks, tx);
    && msg.Some? && Acceptable(env, msg.value, s) && Runnable(msg.value)
    && gas >= 0 && blobGas >= 0
    && Affordable(env, msg.value, Balance(s.balances, msg.value.from), gas, blobGas)
  }

  /** Its message, applied to `s`, takes `used` units of gas and leads to `after`. */
  ghost predicate Executes(env: Env, forks: Forks, tx: Tx, s: Snapshot, used: uint64, after: Snapshot) {
    var msg := MessageOf(env, forks, tx);
    msg.Some? && Runnable(msg.value) && Applied(env, msg.value, tx.evm, s, used, after)
  }

  /** Applies one transaction: receipt and running total. The pool of a block has no blob gas. */
  method ApplyTransaction(gp: Pool, state: State, env: Env, forks: Forks, tx: Tx, usedGas: uint64)
    returns (r: Option<Receipt>)
    requires Sound(tx.evm) && usedGas + gp.gas < TWO_TO_THE_64
    modifies gp, state
    ensures r.Some? <==> old(Accepts(env, forks, tx, state.s, gp.gas, gp.blobGas))
    ensures r.Some? ==> Executes(env, forks, tx, old(state.s), r.value.gasUsed, state.s)
    ensures r.Some? ==>
              && MessageOf(env, forks, tx).Some? && r.value.gasUsed <= MessageOf(env, forks, tx).value.gas
              && gp.gas + r.value.gasUsed == old(gp.gas) && gp.blobGas <= old(gp.blobGas)
              && r.value.cumulativeGasUsed == usedGas + r.value.gasUsed
    ensures r.Some? && Fair(env, forks, tx) && old(gp.blobGas) == 0 && old(Total(state.s.balances)) < TWO_TO_THE_256 ==>
              && state.wrapped == old(state.wrapped)
              && Total(state.s.balances) == old(Total(state.s.balances)) - Fee(r.value.gasUsed, BlockBurn(env))
  {
    hide Fee, AsMessage, Scaled, Balance, EffectiveTip, Applied;
    var msg := MessageOf(env, forks, tx);
    if msg.None? {
      return None;
    }
    ghost var balance, gas, blobGas := Balance(state.s.balances, msg.value.from), gp.gas, gp.blobGas;
    var result := ApplyMessage(gp, state, env, msg.value, tx.evm);
    if result.Err? {
      return None;
    }
    if Fair(env, forks, tx) && blobGas == 0 {
      NoBlobFee(env, msg.value, balance, gas, blobGas);
      CoveredIsPaid(env, msg.value, balance, gas, blobGas);
      BurnIs(env, msg.value);
    }
    return Some(Receipt(result.value, usedGas + result.value));
  }

  /** Under a pool without blob gas no message with blobs is applied. */
  lemma NoBlobFee(env: Env, msg: Message, balance: nat, gas: nat, blobGas: nat)
    requires Affordable(env, msg, balance, gas, blobGas) && blobGas == 0
    ensures BlobFee(env, msg) == 0
  {
    if env.cancun {
      FeeOfNothing(env.blobPrice.value);
    }
  }

  lemma BurnIs(env: Env, msg: Message)
    requires FairPrice(env, msg)
    ensures Burnt(env, msg) == BlockBurn(env)
  {
  }

  /** Before fork 8 the cumulative gas is overwritten with the transaction's own. */
  function ProcessReceipt(forks: Forks, receipt: Receipt): Receipt {
    if forks.fork8 then receipt else receipt.(cumulativeGasUsed := receipt.gasUsed)
  }

  /** Transaction `i` was accepted in the state its predecessors left, with the gas they did not use, and executed. */
  ghost predicate Plays(env: Env, forks: Forks, limit: uint64, txs: seq<Tx>,
                        worlds: seq<Snapshot>, receipts: seq<Receipt>, i: nat)
    requires i < |receipts| <= |txs| && i + 1 < |worlds|
  {
    && Accepts(env, forks, txs[i], worlds[i], limit - GasOf(receipts[..i]), 0)
    && Executes(env, forks, txs[i], worlds[i], receipts[i].gasUsed, worlds[i+1])
  }

  /** The transactions that have a receipt were executed one after the other. */
  ghost predicate Played(env: Env, forks: Forks, limit: uint64, txs: seq<Tx>,
                         worlds: seq<Snapshot>, receipts: seq<Receipt>) {
    && |receipts| <= |txs| && |worlds| == |receipts| + 1
    && forall i :: 0 <= i < |receipts| ==> Plays(env, forks, limit, txs, worlds, receipts, i)
  }

  lemma PlayedOn(env: Env, forks: Forks, limit: uint64, txs: seq<Tx>,
                 worlds: seq<Snapshot>, receipts: seq<Receipt>, receipt: Receipt, after: Snapshot)
    requires Played(env, forks, limit, txs, worlds, receipts) && |receipts| < |txs|
    requires Accepts(env, forks, txs[|receipts|], worlds[|receipts|], limit - GasOf(receipts), 0)
    requires Executes(env, forks, txs[|receipts|], worlds[|receipts|], receipt.gasUsed, after)
    ensures Played(env, forks, limit, txs, worlds + [after], receipts + [receipt])
  {
    hide Accepts, Executes, GasOf;
    var worlds', receipts' := worlds + [after], receipts + [receipt];
    forall i | 0 <= i < |receipts'|
      ensures Plays(env, forks, limit, txs, worlds', receipts', i)
    {
      if i < |receipts| {
        assert Plays(env, forks, limit, txs, worlds, receipts, i);
        assert receipts'[..i] == receipts[..i];
      } else {
        assert receipts'[..i] == receipts;
      }
    }
  }

  /**
    Executes a block: its transactions one after the other, up to the first that is not accepted. After
    every one the pool and the gas used add up to the block's limit, so the pool never overflows and the
    block stays within its limit.
   */
  method ExecuteBlock(state: State, env: Env, forks: Forks, headerLimit: uint64, txs: seq<Tx>)
    returns (r: BlockResult, gp: Pool, ghost worlds: seq<Snapshot>, ghost done: seq<Receipt>)
    requires forall i :: 0 <= i < |txs| ==> Sound(txs[i].evm)
    modifies state
    ensures Played(env, forks, BlockGasLimit(forks, headerLimit), txs, worlds, done) && worlds[0] == old(state.s)
    ensures r.Executed? <==> |done| == |txs|
    ensures r.Rejected? ==> !Accepts(env, forks, txs[|done|], worlds[|done|],
                                     BlockGasLimit(forks, headerLimit) - GasOf(done), 0)
    ensures r.Executed? ==> r.receipts == done && state.s == worlds[|txs|]
    ensures r.Executed? ==>
              && |r.receipts| == |txs| && r.usedGas == GasOf(r.receipts)
              && gp.gas + r.usedGas == (if forks.fork8 then headerLimit else 0xFFFF_FFFF_FFFF_FFFF)
              && GasFieldsRight(forks, r.receipts)
              && forall i :: 0 <= i < |txs| ==>
                   && MessageOf(env, forks, txs[i]).Some?
                   && r.receipts[i].gasUsed <= MessageOf(env, forks, txs[i]).value.gas
    ensures r.Executed? && AllFair(env, forks, txs) && old(Total(state.s.balances)) < TWO_TO_THE_256 ==>
              && state.wrapped == old(state.wrapped)
              && Total(state.s.balances) == old(Total(state.s.balances)) - Fee(r.usedGas, BlockBurn(env))
  {
    hide Fee, Fair, MessageOf, BlockBurn, Accepts, Executes, Played;
    gp := new Pool();
    gp.AddGas(BlockGasLimit(forks, headerLimit));
    var usedGas: uint64 := 0;
    var receipts := [];
    worlds, done := [state.s], [];
    NothingPlayed(env, forks, BlockGasLimit(forks, headerLimit), txs, state.s);
    FeeOfNothing(BlockBurn(env));
    for i := 0 to |txs|
      invariant fresh(gp) && |receipts| == i && usedGas == GasOf(receipts) && done == receipts && |worlds| == i + 1
      invariant Played(env, forks, BlockGasLimit(forks, headerLimit), txs, worlds, done)
      invariant worlds[0] == old(state.s) && worlds[i] == state.s
      invariant gp.gas + usedGas == BlockGasLimit(forks, headerLimit) && gp.blobGas == 0
      invariant GasFieldsRight(forks, receipts)
      invariant forall k :: 0 <= k < i ==>
                  MessageOf(env, forks, txs[k]).Some? && receipts[k].gasUsed <= MessageOf(env, forks, txs[k]).value.gas
      invariant AllFair(env, forks, txs) && old(Total(state.s.balances)) < TWO_TO_THE_256 ==>
                  && state.wrapped == old(state.wrapped)
                  && Total(state.s.balances) == old(Total(state.s.balances)) - Fee(usedGas, BlockBurn(env))
    {
      var receipt := ApplyTransaction(gp, state, env, forks, txs[i], usedGas);
      if receipt.None? {
        return Rejected, gp, worlds, done;
      }
      PlayedOn(env, forks, BlockGasLimit(forks, headerLimit), txs, worlds, receipts,
               ProcessReceipt(forks, receipt.value), state.s);
      FeeSplits(usedGas, receipt.value.gasUsed, BlockBurn(env));
      usedGas := usedGas + receipt.value.gasUsed;
      FieldsStayRight(forks, receipts, receipt.value);
      receipts := receipts + [ProcessReceipt(forks, receipt.value)];
      worlds, done := worlds + [state.s], receipts;
    }
    return Executed(receipts, usedGas), gp, worlds, done;
  }

  lemma NothingPlayed(env: Env, forks: Forks, limit: uint64, txs: seq<Tx>, s: Snapshot)
    ensures Played(env, forks, limit, txs, [s], [])
  {
  }

  lemma FeeOfNothing(price: nat)
    ensures Fee(0, price) == 0
  {
  }

  lemma FieldsStayRight(forks: Forks, receipts: seq<Receipt>, receipt: Receipt)
    requires GasFieldsRight(forks, receipts) && receipt.cumulativeGasUsed == GasOf(receipts) + receipt.gasUsed
    ensures var after := receipts + [ProcessReceipt(forks, receipt)];
            GasFieldsRight(forks, after) && GasOf(after) == GasOf(receipts) + receipt.gasUsed
  {
    var after := receipts + [ProcessReceipt(forks, receipt)];
    assert after[..|after|-1] == receipts;
    forall i | 0 <= i < |after|
      ensures after[i].cumulativeGasUsed == if forks.fork8 then GasOf(after[..i+1]) else after[i].gasUsed
    {
      if i < |receipts| {
        assert after[..i+1] == receipts[..i+1];
      } else {
        assert after[..i+1] == after;
      }
    }
  }

  /** A block before London neither makes nor destroys money, whatever is in it. */
  lemma BeforeLondonAllFair(env: Env, forks: Forks, txs: seq<Tx>)
    requires !env.london
    ensures AllFair(env, forks, txs) && BlockBurn(env) == 0
  {
  }

  /**
    A dynamic fee that scaling leaves fair: the scaled cap still covers the scaled price, and the cap was
    binding, nothing was scaled, or price and cap scale to the same number.
   */
  predicate FairTerms(env: Env, feeCap: uint256, tip: uint256, ep: uint8) {
    var full := env.baseFee + tip;
    var capProduct, fullProduct := Fee(feeCap, ep + 1), Fee(full, ep + 1);
    && !(fullProduct < TWO_TO_THE_256 <= capProduct && (capProduct % TWO_TO_THE_256) / 256 < fullProduct / 256)
    && (|| feeCap <= full
        || (full <= CalculateEffectiveGas(feeCap, ep) && (ep == 255 || full == 0))
        || (full < TWO_TO_THE_256 && CalculateEffectiveGas(full, ep) == CalculateEffectiveGas(feeCap, ep)))
  }

  /** Since fork 5, a payable dynamic-fee transaction pays a fair price within its cap exactly on fair terms. */
  lemma ScaledFairIff(env: Env, forks: Forks, tx: Tx)
    requires env.london && !env.noBaseFee && forks.fork5 && tx.pricing.Dynamic? && !tx.body.isFree
    requires Payable(env, MessageOf(env, forks, tx).value)
    ensures Fair(env, forks, tx) <==> FairTerms(env, tx.pricing.feeCap, tx.pricing.tip, tx.ep)
  {
    hide Fee, Wrap, CalculateEffectiveGas, FairPrice;
    var Dynamic(feeCap, tip) := tx.pricing;
    AcceptedPrices(env, tx.body, feeCap, tip, tx.ep);
    ScaledDynamicIsCoveredIff(env, tx.body, feeCap, tip, tx.ep);
    ScaledDynamicIsFairIff(env, tx.body, feeCap, tip, tx.ep);
  }

  /** What keeps the price of a London transaction fair: its fork, its kind and its terms. */
  predicate KeepsPrice(env: Env, forks: Forks, tx: Tx) {
    if forks.fork5 then tx.pricing.Legacy? || FairTerms(env, tx.pricing.feeCap, tx.pricing.tip, tx.ep)
    else tx.body.intrinsicGas.Some? ==> tx.body.intrinsicGas.value >= 2
  }

  /** The full percentage does so for every cap below 2^248. */
  lemma UnscaledKeepsPrice(env: Env, forks: Forks, tx: Tx)
    requires forks.fork5 && tx.ep == 255 && CapOf(tx.pricing) < SCALABLE
    ensures KeepsPrice(env, forks, tx)
  {
    hide Fee, CalculateEffectiveGas;
    var cap := CapOf(tx.pricing);
    FeeIs(cap, 256);
    ScaledIs(cap, 255);
  }

  /**
    A London block of such transactions destroys exactly the base fee of the gas used. Before fork 5 they
    only have to need two units of gas, and real ones need 21000.
   */
  lemma LondonAllFair(env: Env, forks: Forks, txs: seq<Tx>)
    requires env.london && !env.noBaseFee
    requires forall i :: 0 <= i < |txs| ==> KeepsPrice(env, forks, txs[i]) && !txs[i].body.isFree
    ensures AllFair(env, forks, txs)
  {
    hide Fair, KeepsPrice;
    forall i | 0 <= i < |txs|
      ensures Fair(env, forks, txs[i])
    {
      LondonFair(env, forks, txs[i]);
    }
  }

  lemma LondonFair(env: Env, forks: Forks, tx: Tx)
    requires env.london && !env.noBaseFee && KeepsPrice(env, forks, tx) && !tx.body.isFree
    ensures Fair(env, forks, tx)
  {
    hide Fee, Wrap, CalculateEffectiveGas, FairPrice, FairTerms;
    if Payable(env, MessageOf(env, forks, tx).value) {
      if !forks.fork5 {
        UnscaledIsFairIff(env, tx.body, tx.pricing);
        PayableIsFair(env, tx.body, tx.pricing);
      } else if tx.pricing.Legacy? {
        ScaledLegacy(env, tx.body, tx.pricing.price, tx.ep);
      } else {
        ScaledFairIff(env, forks, tx);
      }
    }
  }
}
