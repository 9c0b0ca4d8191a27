# RocketArb deposit: a Dafny model of the bundle core

RocketArb creates a Rocket Pool minipool deposit through the smartnode
daemon. It pairs the deposit with an arbitrage transaction. The arb
transaction flash-borrows the deposit-pool room, mints rETH and swaps it
back through 1inch. The two transactions go to a Flashbots relay as one
atomic bundle, targeted at each of the next `maxTries` blocks.

This project models the deterministic part of `rocketarb.js`:

- **Amounts** (`getAmounts`). The effective deposit is the requested
  amount, plus the pool room when `useDp` is set. The mint fee is
  `ethAmount * dpFee / 1 ether`, where `dpFee` is the fee rate, using the big-number library's
  truncating division. The net amount goes to `getRethValue`.
- **ArbAssembly** (`getArbTx`). This derives the arb transaction's fields
  from the decoded deposit. The profit floor is `gasRefund * maxFeePerGas`.
  The nonce is the deposit's plus one. The chain and both fee caps are the
  deposit's. The type is 2. Only a type-2 deposit carries a
  `maxFeePerGas`, so any other deposit fails (`MissingFeeCaps`). The gas limit comes from configuration.
- **BundleStore** (`makeBundle`, `retrieveBundle`, `retrieveDeposit`, the
  resume-flag check and the bundle-source choice). A bundle is the ordered
  array `[deposit, arb]`.
- **SubmissionDriver**. This computes the target blocks
  `current+1 .. current+maxTries` and folds over the relay's answers in
  block order.
- **RocketArb.Run**. This composes the modules above.

The collaborators are inputs:

- the ledger reads are a `Snapshot`;
- `getRethValue` and the 1inch quote are functions in `Market`;
- transaction decoding and daemon signing are functions in `Signer`;
- the deposit the daemon creates is a `Blob` parameter;
- the parsed bundle file is an `Option<Bundle>`;
- the relay's answer for a bundle and a target block is a function.

Three behaviours of the code deserve a note:

- The pool room `maxPoolSize - poolBalance` is not clamped at zero
  (rocketarb.js:97). An over-full pool therefore shrinks the deposit. If
  the pool is over its cap by more than the request, the amount goes
  negative, and the uint256 ABI encoding of the next call rejects it
  (`AmountOutOfRange`).
- An arb transaction is built only for a type-2 deposit, and is then
  type 2 itself (rocketarb.js:148, 150). Any other deposit type has no
  `maxFeePerGas`, and the profit-floor multiplication throws.
- Any resolution other than `BlockPassedWithoutInclusion` ends the run as
  a success (rocketarb.js:259-269). That includes `AccountNonceTooHigh`.

## Model

| member | source | states |
|---|---|---|
| Amounts.TruncDiv | rocketarb.js:99 | the quotient rounds toward zero: for a non-negative dividend q·b ≤ a < q·b + b, for a negative one q·b − b < a ≤ q·b ≤ 0 |
| Amounts.MintFee | rocketarb.js:99 | the fee is ethAmount·rate / 1 ether rounded toward zero: for a non-negative product f·10^18 ≤ ethAmount·rate < f·10^18 + 10^18, for a negative one f·10^18 − 10^18 < ethAmount·rate ≤ f·10^18 |
| Amounts.MintFeeWithinAmount | rocketarb.js:99-100 | a fee rate of at most one ether gives a fee with the amount's sign that never exceeds the amount in size, in both directions |
| Amounts.MintFeeMonotoneInRate | rocketarb.js:99 | for a non-negative amount, a higher deposit-fee rate never gives a lower fee |
| Amounts.NetAmounts | rocketarb.js:95-100 | ethAmount = amount + (maxPoolSize − poolBalance) with useDp, else amount; ethAmount ≥ amount iff !useDp or balance ≤ cap (no clamp); the fee is MintFee(ethAmount, rate); fee + net = ethAmount; with rate ≤ 1 ether and ethAmount ≥ 0, 0 ≤ net ≤ ethAmount, and a negative ethAmount gives ethAmount ≤ net ≤ 0 |
| Amounts.GetAmounts | rocketarb.js:95-104 | fails with AmountOutOfRange exactly when the net deposit is negative; otherwise returns the effective amount and the rETH value of the net deposit |
| Amounts.OverfullPoolFails | rocketarb.js:97-101 | a pool over its cap by more than the request gives a negative effective amount, and the conversion then fails unless the fee takes the whole amount |
| ArbAssembly.MinProfit | rocketarb.js:147-148 | the floor is gasRefund gas units at the deposit's max fee, gasRefund · maxFeePerGas; it is zero iff one factor is zero |
| ArbAssembly.MinProfitMonotone | rocketarb.js:147-148 | the profit floor is monotone in both the gas refund and the fee rate |
| ArbAssembly.AssembleArb | rocketarb.js:144-155 | on success: nonce = deposit nonce + 1, same chainId, type 2, same fee caps, configured gas limit, addressed to the arb contract with no value, calling arb(ethAmount, minProfit, quote of the rETH amount), and only for a type-2 deposit; fails iff the net amount is negative, the quote fails, the deposit is not type 2, or ethAmount is negative, with MissingFeeCaps exactly when the first two pass and the type is wrong |
| ArbAssembly.PlainDepositAssembles | rocketarb.js:145-155 | for a type-2 deposit without pool top-up, with a fee rate ≤ 1 ether and an answered quote, assembly succeeds and borrows exactly the deposit's value |
| BundleStore.GetArbTx | rocketarb.js:138-167 | on success the leg holds the decoded deposit, exactly the arb transaction AssembleArb builds from it (so it follows the deposit), and that transaction's signature; fails iff decoding or assembly fails |
| BundleStore.MakeBundle | rocketarb.js:169-196 | a fresh bundle is exactly [deposit, signed arb], in that order, and is sequenced; it fails iff the arb leg fails |
| BundleStore.RetrieveBundle | rocketarb.js:198-201 | a full resume returns the saved bundle unchanged, or BundleFileUnreadable |
| BundleStore.RetrieveDeposit | rocketarb.js:203-208 | succeeds iff the file holds at least two entries and the arb leg succeeds; keeps element 0 and every element after 1 unchanged, replaces element 1 with the new signed arb, and the result is sequenced |
| BundleStore.PartialResumeRebuildsArb | rocketarb.js:203-208 | a partial resume of a saved fresh bundle, in any market, equals a fresh bundle built around the same deposit in that market |
| BundleStore.PartialResumeIsIdempotent | rocketarb.js:203-208 | a partial resume in the market the bundle was built in reproduces the bundle |
| BundleStore.BundleSource | rocketarb.js:212-213 | --resume-deposit takes precedence over --resume, which takes precedence over a fresh bundle (each case an iff) |
| BundleStore.ObtainBundle | rocketarb.js:42-45 | both resume flags give ConflictingResumeModes, and only they do; otherwise the bundle comes from the source the flags select |
| BundleStore.AssembledBundlesAreSequenced | rocketarb.js:150-155 | every bundle built fresh or by partial resume has an arb leg one nonce after its deposit, on the same chain with the same fees |
| SubmissionDriver.TargetBlocks | rocketarb.js:241-244 | max(maxTries, 0) targets, the i-th being current + 1 + i |
| SubmissionDriver.CollectTargets | rocketarb.js:238-244 | the for-loop's pushes give exactly the target blocks current+1 .. current+maxTries |
| SubmissionDriver.Examine | rocketarb.js:248-272 | steps follow the targets in order; an error step is exactly a relay error (no wait); exhausted iff no answer lands, after examining every target; landed only at the first landing answer, on its block |
| SubmissionDriver.AwaitInOrder | rocketarb.js:248-272 | the loop with early exit computes the same report as the fold |
| SubmissionDriver.FirstLandingDecides | rocketarb.js:248-269 | the first landing answer at index i gives the verdict Landed(targets[i]) after exactly i + 1 steps |
| SubmissionDriver.LaterAnswersIgnored | rocketarb.js:265-269 | answers after the landing block are never examined: answer sequences that agree up to it give the same report |
| SubmissionDriver.NonceTooHighCountsAsLanded | rocketarb.js:259-269 | an AccountNonceTooHigh resolution after a passed block ends the run as landed |
| SubmissionDriver.ThreeMissedBlocks | rocketarb.js:248-266 | three passed blocks end exhausted after awaiting exactly three resolutions; a relay error in the middle is reported without a wait |
| SubmissionDriver.Answers | rocketarb.js:241-245 | one relay answer per target, the i-th for the i-th target |
| SubmissionDriver.Drive | rocketarb.js:238-272 | at most max(maxTries, 0) steps; the k-th is for block current + 1 + k and is an error step exactly when the relay answered that block with an error; a landing is on one of the next maxTries blocks, and that block's answer lands |
| SubmissionDriver.LandsOnFirstLandingBlock | rocketarb.js:238-272 | the driver lands on block n iff n is one of the next maxTries blocks, its answer lands and no earlier block's answer does |
| SubmissionDriver.LandedIsFirstLanding | rocketarb.js:248-269 | a landed verdict names the first target block whose answer lands |
| SubmissionDriver.FirstLandingIsLanded | rocketarb.js:248-269 | the first target block whose answer lands is the verdict |
| SubmissionDriver.ExhaustedWhenNothingLands | rocketarb.js:238-272 | exhausted iff no block among the next maxTries has a landing answer; then max(maxTries, 0) steps were taken |
| RocketArb.Run | rocketarb.js:210-273 | both resume flags stop the run with ConflictingResumeModes; it stops iff obtaining the bundle fails; a dry run targets current + 1 only; a live run submits the obtained bundle and reports the driver's fold over the relay's answers |

## Left out

- Creating the deposit through the smartnode daemon (rocketarb.js:56-76) is an external process. The signed deposit is an input `Blob`.
- Signing the arb transaction (rocketarb.js:157-162) is an external process. It is modelled by the opaque `Signer.sign`. The throwaway random-key signature is part of that opaque step.
- The daemon's `status` flag is only checked with `console.assert` (rocketarb.js:161). That logs and does not stop the process. The model treats signing as always producing an encoding.
- The 1inch HTTPS request and JSON parsing (rocketarb.js:107-136) are network I/O. They are `Market.quote`, where `None` stands for any failed quote: a non-200 answer, a body `JSON.parse` rejects (rocketarb.js:128), or a router address `getAddress` rejects (rocketarb.js:133). Only a well-formed but unexpected router address is warn-and-continue (rocketarb.js:133-134), and that has no effect on the model.
- The RocketStorage lookups, the contract reads and `getRethValue` (rocketarb.js:79-97, 101) are on-chain reads. They are the `Snapshot` and `Market.rethValue`.
- The Flashbots provider, `Promise.all` dispatch and a rejected send (rocketarb.js:218-245) are relay I/O and concurrency. The relay's answers are a function of bundle and block, computed for every target before any is examined.
- The dry run's simulation and pricing output (rocketarb.js:224-235) are relay I/O. Only its single target block `current + 1` is modelled.
- The base-fee reads and all console logging (rocketarb.js:250-252 and elsewhere) are display only. A failed `getBlock` read ends the run; that failure is not modelled.
- Writing and reading the bundle file, and `JSON.stringify`/`JSON.parse` (rocketarb.js:194, 200, 205), are file I/O and library serialisation. The stored file arrives already parsed, and the save/load round trip is not modelled.
- The confirmation prompt, commander parsing, the random wallet, the random salt and `formatUnits` (rocketarb.js:11-40, 51, 61) are UI, randomness and display.
- A `--max-tries` value that `parseInt` turns into NaN gives no targets in the source. The model takes `maxTries` as an integer.
- Negative or non-numeric `--gas-limit` and `--gas-refund` values are not modelled, because the model's configuration fields are natural numbers. In the source, `BigNumber.from` rejects a non-numeric `--gas-refund` (rocketarb.js:147). A negative one gives a negative `minProfit`, which the uint256 encoding of `arb` rejects (rocketarb.js:149). A negative `--gas-limit` is rejected when the transaction is signed (rocketarb.js:158). A non-numeric `--gas-limit` becomes `NaN` through `parseInt` (rocketarb.js:155), and the transaction encoder then writes a gas limit of 0. The model covers that case with `gasLimit = 0`.
- Process exit codes are not modelled. Success calls `process.exit(0)`, and exhaustion simply lets the script finish.
- AssembleArb: rejects negative uint256 arguments but not values of 2^256 or more. Such amounts cannot arise from real pool balances.
- GetAmounts: fails exactly when the net deposit is negative; the uint256 argument of `getRethValue` would also reject a net deposit of 2^256 or more, which real pool balances cannot produce.
