/** Shared vocabulary of the RocketArb model: transactions as decoded
    records, opaque encodings, and the ways a run can fail. */
module Common {

  /** A 20-byte account address, kept abstract as a number. */
  type Address = nat

  /** A signed-transaction encoding or other opaque hex text
      (the `0x…` strings the daemon and the quoting service hand back). */
  type Blob = seq<char>

  datatype Option<+T> = None | Some(value: T)

  /** Everything that ends a run before or while the bundle is built. */
  datatype Failure =
    | ConflictingResumeModes   // both --resume and --resume-deposit given
    | BundleFileUnreadable     // the bundle file is missing or is not JSON
    | MalformedBundle          // the stored array lacks element 0 or element 1
    | UndecodableTransaction   // parseTransaction rejects a stored encoding
    | AmountOutOfRange         // a negative value passed where the ABI wants a uint256
    | QuoteRejected            // the swap quote failed: a non-200 status, a body that is not JSON
                               // or a router address that is not an address
    | MissingFeeCaps           // the deposit is not type 2, so it has no maxFeePerGas to multiply

  datatype Result<+T> = Ok(value: T) | Err(error: Failure)

  /** Call data of a transaction: either bytes we never look into (the
      deposit built by the node daemon) or a call of the arbitrage
      contract's `arb(wethAmount, minProfit, swapData)`. */
  datatype CallData =
    | Raw(bytes: Blob)
    | ArbCall(wethAmount: nat, minProfit: nat, swapData: Blob)

  /** A decoded EIP-1559 transaction, the fields the program reads or sets. */
  datatype Tx = Tx(
    to: Address,
    data: CallData,
    value: nat,
    nonce: nat,
    chainId: nat,
    maxFeePerGas: nat,
    maxPriorityFeePerGas: nat,
    gasLimit: nat,
    txType: nat)
}
