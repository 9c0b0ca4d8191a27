/** The live-submission branch: the bundle is sent for each of the next
    `maxTries` blocks, then the relay's answers are examined in block
    order. A relay error is reported and skipped; a resolution of
    `BlockPassedWithoutInclusion` moves on to the next block; any other
    resolution is announced as inclusion and ends the run. */
module SubmissionDriver {

  /** The relay library's resolution codes. */
  datatype Resolution = BundleIncluded | BlockPassedWithoutInclusion | AccountNonceTooHigh

  /** The relay's answer to one `sendBundle`: an error object, or a
      submission whose `wait()` yields a resolution. */
  datatype Submission = RelayResponseError(message: string) | Sent(resolution: Resolution)

  /** What the driver did for one examined target block. */
  datatype Step = ErrorReported(block: int) | Resolved(block: int, resolution: Resolution)

  datatype Verdict = Landed(block: int) | Exhausted

  /** The verdict and the blocks examined, in order. */
  datatype Report = Report(verdict: Verdict, steps: seq<Step>)

  /** rocketarb.js:238-244, as a definition: the blocks `current+1 .. current+maxTries`. */
  function TargetBlocks(current: int, maxTries: int): (t: seq<int>)
    decreases maxTries
    ensures |t| == if maxTries >= 0 then maxTries else 0
    ensures forall i :: 0 <= i < |t| ==> t[i] == current + 1 + i
  {
    if maxTries <= 0 then [] else TargetBlocks(current, maxTries - 1) + [current + maxTries]
  }

  /** The `for` loop of rocketarb.js:241-244, pushing one target per iteration. */
  method CollectTargets(current: int, maxTries: int) returns (t: seq<int>)
    ensures t == TargetBlocks(current, maxTries)
  {
    t := [];
    var target := current + 1;
    while target <= current + maxTries
      invariant current + 1 <= target
      invariant target <= current + 1 + (if maxTries >= 0 then maxTries else 0)
      invariant t == TargetBlocks(current, target - current - 1)
      decreases current + maxTries - target
    {
      t := t + [target];
      target := target + 1;
    }
  }

  /** A submission that ends the run as a success: one that was accepted
      by the relay and resolved to anything but a passed block. */
  predicate IsLanding(s: Submission)
  {
    s.Sent? && s.resolution != BlockPassedWithoutInclusion
  }

  ghost predicate NoLandingBefore(subs: seq<Submission>, k: int)
    requires k <= |subs|
  {
    forall j :: 0 <= j < k ==> !IsLanding(subs[j])
  }

  /** rocketarb.js:248-272: examine the answers in target order. The steps
      follow the targets one by one; an error is reported without
      waiting; the first landing stops the walk and is the verdict;
      if there is none, every target was examined and the run is exhausted. */
  function Examine(targets: seq<int>, subs: seq<Submission>): (r: Report)
    requires |subs| == |targets|
    ensures |r.steps| <= |targets|
    ensures forall k :: 0 <= k < |r.steps| ==>
      && r.steps[k].block == targets[k]
      && (r.steps[k].ErrorReported? <==> subs[k].RelayResponseError?)
      && (r.steps[k].Resolved? ==> r.steps[k].resolution == subs[k].resolution)
    ensures r.verdict.Exhausted? <==> NoLandingBefore(subs, |subs|)
    ensures r.verdict.Exhausted? ==> |r.steps| == |targets|
    ensures r.verdict.Landed? ==>
      && 1 <= |r.steps|
      && IsLanding(subs[|r.steps| - 1])
      && NoLandingBefore(subs, |r.steps| - 1)
      && r.verdict.block == targets[|r.steps| - 1]
  {
    if |targets| == 0 then
      Report(Exhausted, [])
    else if IsLanding(subs[0]) then
      Report(Landed(targets[0]), [StepFor(targets[0], subs[0])])
    else
      var rest := Examine(targets[1..], subs[1..]);
      assert forall k :: 0 <= k < |rest.steps| ==> targets[1..][k] == targets[k + 1] && subs[1..][k] == subs[k + 1];
      var n := |rest.steps|;
      assert NoLandingBefore(subs, |subs|) <==> NoLandingBefore(subs[1..], |subs| - 1) by {
        NoLandingShift(subs, |subs| - 1);
      }
      assert rest.verdict.Landed? ==>
               NoLandingBefore(subs, n) && subs[n] == subs[1..][n - 1] && targets[n] == targets[1..][n - 1] by {
        if rest.verdict.Landed? {
          NoLandingShift(subs, n - 1);
        }
      }
      Prefixed([StepFor(targets[0], subs[0])], rest)
  }

  /** No landing among the first `m + 1` answers is no landing at the head
      and none among the first `m` of the rest. */
  lemma NoLandingShift(subs: seq<Submission>, m: int)
    requires 0 <= m < |subs|
    ensures NoLandingBefore(subs, m + 1) <==> !IsLanding(subs[0]) && NoLandingBefore(subs[1..], m)
  {
    assert forall j :: 0 <= j < m ==> subs[1..][j] == subs[j + 1];
  }

  /** The step taken for one target: report a relay error without
      waiting, otherwise await and record the resolution. */
  function StepFor(block: int, s: Submission): Step
  {
    match s
    case RelayResponseError(_) => ErrorReported(block)
    case Sent(res) => Resolved(block, res)
  }

  /** The report `r` with `steps` examined before it. */
  function Prefixed(steps: seq<Step>, r: Report): Report
  {
    Report(r.verdict, steps + r.steps)
  }

  lemma PrefixedTwice(s1: seq<Step>, s2: seq<Step>, r: Report)
    ensures Prefixed(s1, Prefixed(s2, r)) == Prefixed(s1 + s2, r)
  {
  }

  /** One iteration of the loop below that does not land: the invariant
      moves one target on. */
  lemma AwaitStep(targets: seq<int>, subs: seq<Submission>, steps: seq<Step>, i: int)
    requires |subs| == |targets| && 0 <= i < |targets| && !IsLanding(subs[i])
    requires Examine(targets, subs) == Prefixed(steps, Examine(targets[i..], subs[i..]))
    ensures Examine(targets, subs) ==
      Prefixed(steps + [StepFor(targets[i], subs[i])], Examine(targets[i + 1..], subs[i + 1..]))
  {
    assert targets[i..][1..] == targets[i + 1..];
    assert subs[i..][1..] == subs[i + 1..];
    PrefixedTwice(steps, [StepFor(targets[i], subs[i])], Examine(targets[i + 1..], subs[i + 1..]));
  }

  /** The iteration that lands ends the walk with its own step last. */
  lemma AwaitLands(targets: seq<int>, subs: seq<Submission>, steps: seq<Step>, i: int)
    requires |subs| == |targets| && 0 <= i < |targets| && IsLanding(subs[i])
    requires Examine(targets, subs) == Prefixed(steps, Examine(targets[i..], subs[i..]))
    ensures Examine(targets, subs) == Report(Landed(targets[i]), steps + [StepFor(targets[i], subs[i])])
  {
    assert targets[i..][0] == targets[i] && subs[i..][0] == subs[i];
  }

  /** Before the loop nothing has been examined. */
  lemma AwaitStarts(targets: seq<int>, subs: seq<Submission>)
    requires |subs| == |targets|
    ensures Examine(targets, subs) == Prefixed([], Examine(targets[0..], subs[0..]))
  {
    assert targets[0..] == targets && subs[0..] == subs;
    assert [] + Examine(targets, subs).steps == Examine(targets, subs).steps;
  }

  lemma ExamineNothing(targets: seq<int>, subs: seq<Submission>)
    requires |targets| == 0 && |subs| == 0
    ensures Examine(targets, subs) == Report(Exhausted, [])
  {
  }

  lemma PrefixedNothing(steps: seq<Step>, v: Verdict)
    ensures Prefixed(steps, Report(v, [])) == Report(v, steps)
  {
    assert steps + [] == steps;
  }

  /** The loop of rocketarb.js:248-272 with its early exit. */
  method AwaitInOrder(targets: seq<int>, subs: seq<Submission>) returns (r: Report)
    requires |subs| == |targets|
    ensures r == Examine(targets, subs)
  {
    var steps: seq<Step> := [];
    var i := 0;
    AwaitStarts(targets, subs);
    while i < |targets|
      invariant 0 <= i <= |targets|
      invariant Examine(targets, subs) == Prefixed(steps, Examine(targets[i..], subs[i..]))
    {
      var step := StepFor(targets[i], subs[i]);
      if IsLanding(subs[i]) {
        AwaitLands(targets, subs, steps, i);
        return Report(Landed(targets[i]), steps + [step]);
      }
      AwaitStep(targets, subs, steps, i);
      steps := steps + [step];
      i := i + 1;
    }
    ExamineNothing(targets[i..], subs[i..]);
    PrefixedNothing(steps, Exhausted);
    return Report(Exhausted, steps);
  }

  /** Answers for blocks after the one that landed are never looked at:
      two answer sequences that agree up to the landing give the same report. */
  lemma LaterAnswersIgnored(targets: seq<int>, subs1: seq<Submission>, subs2: seq<Submission>)
    requires |subs1| == |targets| == |subs2|
    requires Examine(targets, subs1).verdict.Landed?
    requires subs1[..|Examine(targets, subs1).steps|] == subs2[..|Examine(targets, subs1).steps|]
    ensures Examine(targets, subs2) == Examine(targets, subs1)
  {
    AgreeUpToLanding(targets, subs1, subs2, |Examine(targets, subs1).steps|);
  }

  /** The induction behind `LaterAnswersIgnored`, over the position `n`
      of the first landing answer. */
  lemma {:induction false} AgreeUpToLanding(targets: seq<int>, subs1: seq<Submission>, subs2: seq<Submission>, n: int)
    requires |subs1| == |targets| == |subs2| && 0 < n <= |targets|
    requires IsLanding(subs1[n - 1]) && NoLandingBefore(subs1, n - 1)
    requires subs1[..n] == subs2[..n]
    ensures Examine(targets, subs2) == Examine(targets, subs1)
  {
    assert subs1[0] == subs1[..n][0] == subs2[..n][0] == subs2[0];
    if n > 1 {
      assert !IsLanding(subs1[0]);
      assert subs1[1..][..n - 1] == subs1[..n][1..];
      assert subs2[1..][..n - 1] == subs2[..n][1..];
      assert subs1[1..][n - 2] == subs1[n - 1];
      AgreeUpToLanding(targets[1..], subs1[1..], subs2[1..], n - 1);
    }
  }

  /** A resolution other than a passed block counts as success even when
      it is not an inclusion: `AccountNonceTooHigh` ends the run as landed. */
  lemma NonceTooHighCountsAsLanded(b1: int, b2: int)
    ensures Examine([b1, b2], [Sent(BlockPassedWithoutInclusion), Sent(AccountNonceTooHigh)])
            == Report(Landed(b2), [Resolved(b1, BlockPassedWithoutInclusion), Resolved(b2, AccountNonceTooHigh)])
  {
    var t, s := [b1, b2], [Sent(BlockPassedWithoutInclusion), Sent(AccountNonceTooHigh)];
    assert t[1..] == [b2] && s[1..] == [Sent(AccountNonceTooHigh)];
  }

  /** With three tries that all pass without inclusion, the run ends
      exhausted after awaiting exactly three resolutions; a relay error in
      the middle is reported without awaiting anything. */
  lemma ThreeMissedBlocks(current: int, msg: string)
    ensures var t := TargetBlocks(current, 3);
            var p := Sent(BlockPassedWithoutInclusion);
            && Examine(t, [p, p, p]) == Report(Exhausted, [Resolved(current + 1, BlockPassedWithoutInclusion),
                                                           Resolved(current + 2, BlockPassedWithoutInclusion),
                                                           Resolved(current + 3, BlockPassedWithoutInclusion)])
            && Examine(t, [p, RelayResponseError(msg), p]) == Report(Exhausted, [Resolved(current + 1, BlockPassedWithoutInclusion),
                                                                                ErrorReported(current + 2),
                                                                                Resolved(current + 3, BlockPassedWithoutInclusion)])
  {
    var t := TargetBlocks(current, 3);
    assert t == [current + 1, current + 2, current + 3];
    var p := Sent(BlockPassedWithoutInclusion);
    assert t[1..] == [current + 2, current + 3] && t[1..][1..] == [current + 3] && t[1..][1..][1..] == [];
    var a, b := [p, p, p], [p, RelayResponseError(msg), p];
    assert a[1..] == [p, p] && a[1..][1..] == [p] && a[1..][1..][1..] == [];
    assert b[1..] == [RelayResponseError(msg), p] && b[1..][1..] == [p] && b[1..][1..][1..] == [];
  }

  /** The relay's answers, one per target block. They are all obtained
      before any is examined (`Promise.all`, rocketarb.js:245). */
  function Answers(targets: seq<int>, relay: int -> Submission): (subs: seq<Submission>)
    ensures |subs| == |targets|
    ensures forall i :: 0 <= i < |targets| ==> subs[i] == relay(targets[i])
  {
    seq(|targets|, i requires 0 <= i < |targets| => relay(targets[i]))
  }

  /** rocketarb.js:238-272: send for every target, then examine the
      answers in order. The k-th step is for block `current + 1 + k`, an
      error step exactly when the relay answered that block with an
      error; a landing is on one of the next `maxTries` blocks, whose
      answer lands. */
  function Drive(current: int, maxTries: int, relay: int -> Submission): (r: Report)
    ensures |r.steps| <= if maxTries >= 0 then maxTries else 0
    ensures forall k :: 0 <= k < |r.steps| ==>
      && r.steps[k].block == current + 1 + k
      && (r.steps[k].ErrorReported? <==> relay(current + 1 + k).RelayResponseError?)
    ensures r.verdict.Landed? ==>
      current < r.verdict.block <= current + maxTries && IsLanding(relay(r.verdict.block))
  {
    var targets := TargetBlocks(current, maxTries);
    Examine(targets, Answers(targets, relay))
  }

  /** The first landing answer decides the verdict and how many targets
      were examined. */
  lemma FirstLandingDecides(targets: seq<int>, subs: seq<Submission>, i: int)
    requires |subs| == |targets| && 0 <= i < |subs|
    requires IsLanding(subs[i]) && NoLandingBefore(subs, i)
    ensures Examine(targets, subs).verdict == Landed(targets[i])
    ensures |Examine(targets, subs).steps| == i + 1
  {
    assert !NoLandingBefore(subs, |subs|) by {
      assert IsLanding(subs[i]);
    }
    var j := |Examine(targets, subs).steps| - 1;
    assert IsLanding(subs[j]) && NoLandingBefore(subs, j);
    assert j == i;
  }

  /** The driver lands on block `n` exactly when `n` is one of the next
      `maxTries` blocks, the relay's answer for `n` is a landing and no
      earlier target's answer is. */
  lemma LandsOnFirstLandingBlock(current: int, maxTries: int, relay: int -> Submission, n: int)
    ensures Drive(current, maxTries, relay).verdict == Landed(n) <==> FirstLandingBlock(current, maxTries, relay, n)
  {
    if Drive(current, maxTries, relay).verdict == Landed(n) {
      LandedIsFirstLanding(current, maxTries, relay, n);
    }
    if FirstLandingBlock(current, maxTries, relay, n) {
      FirstLandingIsLanded(current, maxTries, relay, n);
    }
  }

  /** `n` is among the next `maxTries` blocks, its answer is a landing,
      and no earlier block's answer is. */
  ghost predicate FirstLandingBlock(current: int, maxTries: int, relay: int -> Submission, n: int)
  {
    && current < n <= current + maxTries
    && IsLanding(relay(n))
    && forall k :: current < k < n ==> !IsLanding(relay(k))
  }

  /** `subs` holds the relay's answers for the blocks after `current`, in order. */
  ghost predicate AnswersFrom(current: int, relay: int -> Submission, subs: seq<Submission>)
  {
    forall j :: 0 <= j < |subs| ==> subs[j] == relay(current + 1 + j)
  }

  lemma AnswersAreFrom(current: int, maxTries: int, relay: int -> Submission)
    ensures AnswersFrom(current, relay, Answers(TargetBlocks(current, maxTries), relay))
  {
    var t := TargetBlocks(current, maxTries);
    var subs := Answers(t, relay);
    forall j | 0 <= j < |subs|
      ensures subs[j] == relay(current + 1 + j)
    {
      assert t[j] == current + 1 + j;
    }
  }

  /** No landing among the first `i` answers is no landing among the
      blocks `current + 1 .. current + i`. */
  lemma NoLandingAmong(current: int, relay: int -> Submission, subs: seq<Submission>, i: int)
    requires AnswersFrom(current, relay, subs) && 0 <= i <= |subs|
    ensures NoLandingBefore(subs, i) <==> forall k :: current < k <= current + i ==> !IsLanding(relay(k))
  {
    if NoLandingBefore(subs, i) {
      forall k | current < k <= current + i
        ensures !IsLanding(relay(k))
      {
        assert subs[k - current - 1] == relay(k);
      }
    } else {
      var j :| 0 <= j < i && IsLanding(subs[j]);
      assert subs[j] == relay(current + 1 + j);
    }
  }

  lemma LandedIsFirstLanding(current: int, maxTries: int, relay: int -> Submission, n: int)
    requires Drive(current, maxTries, relay).verdict == Landed(n)
    ensures FirstLandingBlock(current, maxTries, relay, n)
  {
    var t := TargetBlocks(current, maxTries);
    var subs := Answers(t, relay);
    var r := Examine(t, subs);
    assert r == Drive(current, maxTries, relay);
    var i := |r.steps| - 1;
    assert n == t[i] == current + 1 + i;
    AnswersAreFrom(current, maxTries, relay);
    NoLandingAmong(current, relay, subs, i);
  }

  lemma FirstLandingIsLanded(current: int, maxTries: int, relay: int -> Submission, n: int)
    requires FirstLandingBlock(current, maxTries, relay, n)
    ensures Drive(current, maxTries, relay).verdict == Landed(n)
  {
    var t := TargetBlocks(current, maxTries);
    var subs := Answers(t, relay);
    var i := n - current - 1;
    assert subs[i] == relay(n);
    assert NoLandingBefore(subs, i) by {
      forall j | 0 <= j < i
        ensures !IsLanding(subs[j])
      {
        assert subs[j] == relay(current + 1 + j);
      }
    }
    FirstLandingDecides(t, subs, i);
  }

  /** The driver ends exhausted exactly when none of the next `maxTries`
      blocks has a landing answer, and it has then examined every target. */
  lemma ExhaustedWhenNothingLands(current: int, maxTries: int, relay: int -> Submission)
    ensures Drive(current, maxTries, relay).verdict == Exhausted <==>
              forall k :: current < k <= current + maxTries ==> !IsLanding(relay(k))
    ensures Drive(current, maxTries, relay).verdict == Exhausted ==>
              |Drive(current, maxTries, relay).steps| == if maxTries >= 0 then maxTries else 0
  {
    var t := TargetBlocks(current, maxTries);
    var subs := Answers(t, relay);
    assert Examine(t, subs) == Drive(current, maxTries, relay);
    AnswersAreFrom(current, maxTries, relay);
    NoLandingAmong(current, relay, subs, |subs|);
  }
}
