/** The whole run of the deposit script once its collaborators are
    fixed: the resume-flag check, obtaining the bundle, and then either
    the dry run or the live multi-block submission. */
module RocketArb {
  import opened Common
  import opened ArbAssembly
  import opened BundleStore
  import opened SubmissionDriver

  /** The options the core reads. */
  datatype Options = Options(
    resume: bool,         // --resume
    resumeDeposit: bool,  // --resume-deposit
    dryRun: bool,         // --dry-run
    maxTries: int,        // --max-tries
    cfg: Config)

  datatype RunOutcome =
    | Stopped(failure: Failure)
    | Simulated(bundle: Bundle, target: int)
    | Submitted(bundle: Bundle, report: Report)

  /** rocketarb.js:42-45 and rocketarb.js:210-273. `current` is the block number read from
      the provider, `relay` the relay's answer to a bundle sent for a block. */
  function Run(opts: Options, freshDeposit: Blob, stored: Option<Bundle>, m: Market, s: Signer,
               current: int, relay: (Bundle, int) -> Submission): (o: RunOutcome)
    ensures opts.resume && opts.resumeDeposit ==> o == Stopped(ConflictingResumeModes)
    ensures o.Stopped? <==>
      ObtainBundle(opts.resume, opts.resumeDeposit, freshDeposit, stored, opts.cfg, m, s).Err?
    ensures o.Simulated? ==> opts.dryRun && o.target == current + 1
    ensures o.Submitted? ==> !opts.dryRun
    ensures !o.Stopped? ==>
      o.bundle == ObtainBundle(opts.resume, opts.resumeDeposit, freshDeposit, stored, opts.cfg, m, s).value
    ensures o.Submitted? ==> o.report == Drive(current, opts.maxTries, blk => relay(o.bundle, blk))
  {
    match ObtainBundle(opts.resume, opts.resumeDeposit, freshDeposit, stored, opts.cfg, m, s)
    case Err(f) => Stopped(f)
    case Ok(b) =>
      if opts.dryRun then
        Simulated(b, current + 1)
      else
        Submitted(b, Drive(current, opts.maxTries, blk => relay(b, blk)))
  }
}
