/** The field derivation of `getArbTx`: given the decoded deposit
    transaction, the arbitrage transaction that must follow it in the
    same bundle. The ledger reads, the rETH conversion and the swap
    quote are inputs (`Market`); signing is left to the caller. */
module ArbAssembly {
  import opened Common
  import opened Amounts

  /** Transaction type 2: the EIP-1559 fee-market transaction, as an
      EIP-2718 typed envelope. */
  const FeeMarketTxType: nat := 2

  /** The command-line settings `getArbTx` reads. */
  datatype Config = Config(
    arbContract: Address,  // --arb-contract
    gasRefund: nat,        // --gas-refund, in gas units
    gasLimit: nat,         // --gas-limit for the arb transaction
    useDp: bool)           // cleared by --no-use-dp

  /** The outside world as `getArbTx` sees it: the deposit-pool state,
      the on-chain rETH conversion and the swap quoting service, which
      either answers with call data for swapping a given rETH amount or
      rejects the request. */
  datatype Market = Market(
    snapshot: Snapshot,
    rethValue: nat -> nat,
    quote: nat -> Option<Blob>)

  /** rocketarb.js:147-148: the profit floor refunds `gasRefund` gas units at the
      deposit's maximum fee per gas. */
  function MinProfit(gasRefund: nat, maxFeePerGas: nat): (p: nat)
    ensures p == gasRefund * maxFeePerGas
    ensures p == 0 <==> gasRefund == 0 || maxFeePerGas == 0
  {
    gasRefund * maxFeePerGas
  }

  /** The profit floor grows with both the refunded gas and the fee rate. */
  lemma MinProfitMonotone(g1: nat, g2: nat, f1: nat, f2: nat)
    requires g1 <= g2 && f1 <= f2
    ensures MinProfit(g1, f1) <= MinProfit(g2, f2)
  {
    MulMonotone(g1, f1, f2);
    MulMonotone(f2, g1, g2);
  }

  /** What the arb transaction must share with the deposit it follows:
      the next nonce, the same chain, the same fee caps, and type 2. */
  ghost predicate FollowsDeposit(deposit: Tx, arb: Tx)
  {
    && arb.nonce == deposit.nonce + 1
    && arb.chainId == deposit.chainId
    && arb.txType == FeeMarketTxType
    && arb.maxFeePerGas == deposit.maxFeePerGas
    && arb.maxPriorityFeePerGas == deposit.maxPriorityFeePerGas
  }

  /** rocketarb.js:144-155. The amounts are computed from the deposit's value;
      the quote is asked for the rETH amount; the profit floor multiplies
      the deposit's `maxFeePerGas`, which only a type-2 deposit carries
      (for any other type the multiplication throws); the call
      `arb(ethAmount, minProfit, swapData)` is addressed to the arbitrage
      contract, carries no ether, and takes its nonce, chain and fees from
      the deposit and its gas limit from the configuration. Both numeric
      arguments are uint256, so a negative effective amount is rejected. */
  function AssembleArb(deposit: Tx, cfg: Config, m: Market): (r: Result<Tx>)
    ensures r.Ok? ==> FollowsDeposit(deposit, r.value)
    ensures r.Ok? ==> r.value.to == cfg.arbContract && r.value.value == 0
    ensures r.Ok? ==> r.value.gasLimit == cfg.gasLimit
    ensures r.Ok? ==>
      var a := NetAmounts(deposit.value, m.snapshot, cfg.useDp);
      && a.depositAmount >= 0 && a.ethAmount >= 0
      && m.quote(m.rethValue(a.depositAmount)).Some?
      && r.value.data == ArbCall(a.ethAmount, MinProfit(cfg.gasRefund, deposit.maxFeePerGas),
                                 m.quote(m.rethValue(a.depositAmount)).value)
    ensures r.Ok? ==> deposit.txType == FeeMarketTxType
    ensures r.Err? <==>
      var a := NetAmounts(deposit.value, m.snapshot, cfg.useDp);
      || a.depositAmount < 0 || m.quote(m.rethValue(a.depositAmount)).None?
      || deposit.txType != FeeMarketTxType || a.ethAmount < 0
    ensures r.Err? ==> r.error in {AmountOutOfRange, QuoteRejected, MissingFeeCaps}
    ensures r == Err(MissingFeeCaps) <==>
      var a := NetAmounts(deposit.value, m.snapshot, cfg.useDp);
      && a.depositAmount >= 0 && m.quote(m.rethValue(a.depositAmount)).Some?
      && deposit.txType != FeeMarketTxType
  {
    match GetAmounts(deposit.value, m.snapshot, cfg.useDp, m.rethValue)
    case Err(e) => Err(e)
    case Ok(amounts) =>
      match m.quote(amounts.rethAmount)
      case None => Err(QuoteRejected)
      case Some(swapData) =>
        if deposit.txType != FeeMarketTxType then
          Err(MissingFeeCaps)
        else if amounts.ethAmount < 0 then
          Err(AmountOutOfRange)
        else
          Ok(Tx(
            to := cfg.arbContract,
            data := ArbCall(amounts.ethAmount, MinProfit(cfg.gasRefund, deposit.maxFeePerGas), swapData),
            value := 0,
            nonce := deposit.nonce + 1,
            chainId := deposit.chainId,
            maxFeePerGas := deposit.maxFeePerGas,
            maxPriorityFeePerGas := deposit.maxPriorityFeePerGas,
            gasLimit := cfg.gasLimit,
            txType := FeeMarketTxType))
  }

  /** For a type-2 deposit with no deposit-pool top-up, a fee rate of at
      most 100% and a quote for the resulting rETH, the arb transaction
      always assembles
      and borrows exactly the deposit's value. */
  lemma PlainDepositAssembles(deposit: Tx, cfg: Config, m: Market)
    requires deposit.txType == FeeMarketTxType
    requires !cfg.useDp && m.snapshot.feeRate <= OneEther
    requires m.quote(m.rethValue(NetAmounts(deposit.value, m.snapshot, false).depositAmount)).Some?
    ensures AssembleArb(deposit, cfg, m).Ok?
    ensures AssembleArb(deposit, cfg, m).value.data.wethAmount == deposit.value
  {
  }
}
