/** The amount calculation of `getAmounts`: how much ether the deposit
    pulls in, the mint fee taken from it, and the rETH quantity the
    arbitrage will have to swap. The three ledger reads (fee rate, pool
    cap, pool balance) arrive as a `Snapshot`; `getRethValue` is an
    opaque conversion passed in by the caller. */
module Amounts {
  import opened Common

  /** 10^18 wei: the unit in which the fee rate is expressed. */
  const OneEther: nat := 1_000_000_000_000_000_000

  /** The three uint256 values read from the deposit settings and the
      deposit pool. */
  datatype Snapshot = Snapshot(feeRate: nat, maxPoolSize: nat, poolBalance: nat)

  /** The split of the effective deposit into mint fee and net amount. */
  datatype Split = Split(ethAmount: int, depositFee: int, depositAmount: int)

  /** What `getAmounts` hands on: the effective deposit and the rETH it mints. */
  datatype Conversion = Conversion(ethAmount: int, depositAmount: nat, rethAmount: nat)

  /** Division of a big number by a positive one, truncating toward zero
      as the big-number library's `div` does (Dafny's own `/` floors). */
  function TruncDiv(a: int, b: int): (q: int)
    requires b > 0
    ensures 0 <= a ==> 0 <= q * b <= a < q * b + b
    ensures a < 0 ==> q * b - b < a <= q * b <= 0
  {
    if a >= 0 then
      FloorDivBounds(a, b);
      a / b
    else
      FloorDivBounds(-a, b);
      -((-a) / b)
  }

  /** Fee charged on minting: `ethAmount * rate / 1 ether`, rounded
      toward zero. */
  function MintFee(ethAmount: int, rate: nat): (f: int)
    ensures 0 <= ethAmount * rate ==> f * OneEther <= ethAmount * rate < f * OneEther + OneEther
    ensures ethAmount * rate < 0 ==> f * OneEther - OneEther < ethAmount * rate <= f * OneEther
  {
    TruncDiv(ethAmount * rate, OneEther)
  }

  /** A fee rate of at most one ether per ether takes a fee of the same
      sign as the amount and never more than the amount itself, whichever
      way the amount points. */
  lemma MintFeeWithinAmount(ethAmount: int, rate: nat)
    requires rate <= OneEther
    ensures 0 <= ethAmount ==> 0 <= MintFee(ethAmount, rate) <= ethAmount
    ensures ethAmount < 0 ==> ethAmount <= MintFee(ethAmount, rate) <= 0
  {
    var q := MintFee(ethAmount, rate);
    if 0 <= ethAmount {
      assert ethAmount * rate <= ethAmount * OneEther by {
        MulMonotone(ethAmount, rate, OneEther);
      }
      assert q * OneEther <= ethAmount * OneEther;
      MulCancel(q, ethAmount, OneEther);
    } else {
      assert (-ethAmount) * rate <= (-ethAmount) * OneEther by {
        MulMonotone(-ethAmount, rate, OneEther);
      }
      assert ethAmount * OneEther <= q * OneEther;
      MulCancel(ethAmount, q, OneEther);
    }
  }

  /** With a non-negative amount, a higher fee rate never lowers the fee. */
  lemma MintFeeMonotoneInRate(ethAmount: nat, rate1: nat, rate2: nat)
    requires rate1 <= rate2
    ensures MintFee(ethAmount, rate1) <= MintFee(ethAmount, rate2)
  {
    MulMonotone(ethAmount, rate1, rate2);
    var p1, p2 := ethAmount * rate1, ethAmount * rate2;
    assert p1 / OneEther <= p2 / OneEther by {
      DivMonotone(p1, p2, OneEther);
    }
  }

  lemma MulMonotone(a: nat, x: int, y: int)
    requires x <= y
    ensures a * x <= a * y
  {
  }

  lemma MulCancel(x: int, y: int, k: nat)
    requires k > 0
    requires x * k <= y * k
    ensures x <= y
  {
    if x > y {
      MulMonotone(k, y + 1, x);
    }
  }

  lemma FloorDivBounds(a: nat, b: nat)
    requires b > 0
    ensures 0 <= (a / b) * b <= a < (a / b) * b + b
  {
  }

  lemma DivMonotone(p: nat, q: nat, d: nat)
    requires d > 0
    requires p <= q
    ensures p / d <= q / d
  {
    FloorDivBounds(p, d);
    FloorDivBounds(q, d);
    if p / d > q / d {
      MulMonotone(d, q / d + 1, p / d);
    }
  }

  /** rocketarb.js:95-100: the effective deposit is the requested amount, plus
      the deposit pool's remaining room when `useDp` is set. The room
      `maxPoolSize - poolBalance` is NOT clamped at zero, so an over-full
      pool shrinks the deposit below the request. The mint fee is taken
      out of the effective amount and the rest is the net deposit. */
  function NetAmounts(amount: nat, s: Snapshot, useDp: bool): (r: Split)
    ensures useDp ==> r.ethAmount == amount + (s.maxPoolSize - s.poolBalance)
    ensures !useDp ==> r.ethAmount == amount
    ensures r.ethAmount >= amount <==> !useDp || s.poolBalance <= s.maxPoolSize
    ensures r.depositFee == MintFee(r.ethAmount, s.feeRate)
    ensures r.depositAmount + r.depositFee == r.ethAmount
    ensures s.feeRate <= OneEther && 0 <= r.ethAmount ==>
              0 <= r.depositFee <= r.ethAmount && 0 <= r.depositAmount <= r.ethAmount
    ensures s.feeRate <= OneEther && r.ethAmount < 0 ==>
              r.ethAmount <= r.depositAmount <= 0
  {
    var ethAmount := if useDp then amount + (s.maxPoolSize - s.poolBalance) else amount;
    var fee := MintFee(ethAmount, s.feeRate);
    if s.feeRate <= OneEther then
      MintFeeWithinAmount(ethAmount, s.feeRate);
      Split(ethAmount, fee, ethAmount - fee)
    else
      Split(ethAmount, fee, ethAmount - fee)
  }

  /** rocketarb.js:101 and the return at rocketarb.js:104: the net deposit is converted
      to rETH by the on-chain `getRethValue`. Its argument is ABI-encoded
      as a uint256, so a negative net deposit makes the call throw. */
  function GetAmounts(amount: nat, s: Snapshot, useDp: bool, rethValue: nat -> nat): (r: Result<Conversion>)
    ensures r.Err? <==> NetAmounts(amount, s, useDp).depositAmount < 0
    ensures r.Err? ==> r.error == AmountOutOfRange
    ensures r.Ok? ==> r.value.ethAmount == NetAmounts(amount, s, useDp).ethAmount
    ensures r.Ok? ==> r.value.depositAmount + NetAmounts(amount, s, useDp).depositFee == r.value.ethAmount
    ensures r.Ok? ==> r.value.rethAmount == rethValue(r.value.depositAmount)
  {
    var split := NetAmounts(amount, s, useDp);
    if split.depositAmount < 0 then
      Err(AmountOutOfRange)
    else
      Ok(Conversion(split.ethAmount, split.depositAmount, rethValue(split.depositAmount)))
  }

  /** Without a clamp, a pool over its cap by more than the requested
      amount drives the effective deposit below zero, and the conversion
      call then fails unless the fee swallowed the whole negative amount. */
  lemma OverfullPoolFails(amount: nat, s: Snapshot, rethValue: nat -> nat)
    requires s.feeRate <= OneEther
    requires s.poolBalance > s.maxPoolSize + amount
    ensures NetAmounts(amount, s, true).ethAmount < 0
    ensures GetAmounts(amount, s, true, rethValue).Err? <==> NetAmounts(amount, s, true).depositAmount != 0
  {
  }
}
