/** Bundle construction and the two resume modes: `makeBundle`,
    `retrieveBundle`, `retrieveDeposit`, the flag check before any work
    and the choice of where the bundle comes from. The bundle file's
    contents arrive already parsed (`None` when the file cannot be read
    or parsed); the daemon's signature and the transaction decoder are
    opaque functions. */
module BundleStore {
  import opened Common
  import opened Amounts
  import opened ArbAssembly

  /** One element of the bundle array: `{signedTransaction: …}`. */
  datatype Entry = Entry(signedTransaction: Blob)

  /** The bundle as handed to the relay and written to the bundle file,
      element 0 the deposit and element 1 the arbitrage. */
  type Bundle = seq<Entry>

  /** The decoder of signed encodings (`parseTransaction`, which rejects
      malformed text) and the signing step (a throwaway signature followed
      by the node daemon's real one). */
  datatype Signer = Signer(decode: Blob -> Option<Tx>, sign: Tx -> Blob)

  /** The outcome of `getArbTx`: the decoded deposit, the unsigned arb
      transaction assembled from it and the encoding the daemon signed. */
  datatype ArbLeg = ArbLeg(deposit: Tx, unsigned: Tx, signed: Blob)

  /** rocketarb.js:138-167: decode the deposit, assemble the arb transaction
      that follows it, and sign it. */
  function GetArbTx(depositBlob: Blob, cfg: Config, m: Market, s: Signer): (r: Result<ArbLeg>)
    ensures r.Ok? ==> s.decode(depositBlob) == Some(r.value.deposit)
    ensures r.Ok? ==> AssembleArb(r.value.deposit, cfg, m) == Ok(r.value.unsigned)
    ensures r.Ok? ==> FollowsDeposit(r.value.deposit, r.value.unsigned)
    ensures r.Ok? ==> r.value.unsigned.gasLimit == cfg.gasLimit && r.value.unsigned.to == cfg.arbContract
    ensures r.Ok? ==> r.value.signed == s.sign(r.value.unsigned)
    ensures r.Err? <==>
      s.decode(depositBlob).None? || AssembleArb(s.decode(depositBlob).value, cfg, m).Err?
    ensures s.decode(depositBlob).None? ==> r == Err(UndecodableTransaction)
    ensures r.Err? ==> r.error != ConflictingResumeModes && r.error != BundleFileUnreadable
  {
    match s.decode(depositBlob)
    case None => Err(UndecodableTransaction)
    case Some(deposit) =>
      match AssembleArb(deposit, cfg, m)
      case Err(e) => Err(e)
      case Ok(arb) => Ok(ArbLeg(deposit, arb, s.sign(arb)))
  }

  /** A bundle whose first element decodes to a deposit and whose second
      element is the signature of a transaction that follows that deposit. */
  ghost predicate Sequenced(b: Bundle, s: Signer)
  {
    && |b| >= 2
    && s.decode(b[0].signedTransaction).Some?
    && exists arb :: FollowsDeposit(s.decode(b[0].signedTransaction).value, arb)
                     && b[1].signedTransaction == s.sign(arb)
  }

  /** rocketarb.js:169-196, with the deposit the daemon created passed in: the
      fresh bundle is exactly the deposit followed by the arb transaction. */
  function MakeBundle(depositBlob: Blob, cfg: Config, m: Market, s: Signer): (r: Result<Bundle>)
    ensures r.Ok? <==> GetArbTx(depositBlob, cfg, m, s).Ok?
    ensures r.Err? ==> r.error == GetArbTx(depositBlob, cfg, m, s).error
    ensures r.Ok? ==> |r.value| == 2 && r.value[0] == Entry(depositBlob)
    ensures r.Ok? ==> r.value[1] == Entry(GetArbTx(depositBlob, cfg, m, s).value.signed)
    ensures r.Ok? ==> Sequenced(r.value, s)
  {
    match GetArbTx(depositBlob, cfg, m, s)
    case Err(e) => Err(e)
    case Ok(leg) =>
      var b := [Entry(depositBlob), Entry(leg.signed)];
      assert FollowsDeposit(s.decode(b[0].signedTransaction).value, leg.unsigned);
      Ok(b)
  }

  /** rocketarb.js:198-201: a full resume submits the saved bundle as it was read. */
  function RetrieveBundle(stored: Option<Bundle>): (r: Result<Bundle>)
    ensures r.Ok? <==> stored.Some?
    ensures r.Ok? ==> r.value == stored.value
    ensures r.Err? ==> r.error == BundleFileUnreadable
  {
    match stored
    case None => Err(BundleFileUnreadable)
    case Some(b) => Ok(b)
  }

  /** rocketarb.js:203-208: a partial resume keeps the saved deposit, recomputes
      the arb transaction against the current market, and replaces
      element 1 only. Reading element 0 of an empty array, or assigning
      into a missing element 1, throws. */
  function RetrieveDeposit(stored: Option<Bundle>, cfg: Config, m: Market, s: Signer): (r: Result<Bundle>)
    ensures r.Ok? <==>
      stored.Some? && |stored.value| >= 2
      && GetArbTx(stored.value[0].signedTransaction, cfg, m, s).Ok?
    ensures r.Ok? ==>
      && |r.value| == |stored.value|
      && r.value[0] == stored.value[0]
      && r.value[1] == Entry(GetArbTx(stored.value[0].signedTransaction, cfg, m, s).value.signed)
      && r.value[2..] == stored.value[2..]
    ensures r.Ok? ==> Sequenced(r.value, s)
    ensures r.Err? ==> r.error != ConflictingResumeModes
  {
    match stored
    case None => Err(BundleFileUnreadable)
    case Some(b) =>
      if |b| == 0 then
        Err(MalformedBundle)
      else
        match GetArbTx(b[0].signedTransaction, cfg, m, s)
        case Err(e) => Err(e)
        case Ok(leg) =>
          if |b| < 2 then
            Err(MalformedBundle)
          else
            var b' := b[1 := Entry(leg.signed)];
            assert FollowsDeposit(s.decode(b'[0].signedTransaction).value, leg.unsigned);
            Ok(b')
  }

  /** Resuming a saved fresh bundle with --resume-deposit yields what a
      fresh run would build around the same deposit in the current market:
      the deposit is reused and only the arbitrage leg is redone. */
  lemma PartialResumeRebuildsArb(depositBlob: Blob, cfg: Config, saved: Market, now: Market, s: Signer)
    requires MakeBundle(depositBlob, cfg, saved, s).Ok?
    ensures RetrieveDeposit(Some(MakeBundle(depositBlob, cfg, saved, s).value), cfg, now, s)
            == MakeBundle(depositBlob, cfg, now, s)
  {
    var b := MakeBundle(depositBlob, cfg, saved, s).value;
    assert b[0].signedTransaction == depositBlob;
    var leg := GetArbTx(depositBlob, cfg, now, s);
    match leg
    case Err(e) =>
      assert RetrieveDeposit(Some(b), cfg, now, s) == Err(e);
    case Ok(l) =>
      assert RetrieveDeposit(Some(b), cfg, now, s) == Ok(b[1 := Entry(l.signed)]);
      assert b[1 := Entry(l.signed)] == [Entry(depositBlob), Entry(l.signed)];
  }

  /** Resuming in the market the bundle was built in changes nothing: the
      special case `now == saved` of `PartialResumeRebuildsArb`. It rests on
      `Signer.sign` being a function, that is, on the daemon signing the
      same transaction to the same encoding. */
  lemma PartialResumeIsIdempotent(depositBlob: Blob, cfg: Config, m: Market, s: Signer)
    requires MakeBundle(depositBlob, cfg, m, s).Ok?
    ensures RetrieveDeposit(Some(MakeBundle(depositBlob, cfg, m, s).value), cfg, m, s)
            == MakeBundle(depositBlob, cfg, m, s)
  {
    PartialResumeRebuildsArb(depositBlob, cfg, m, m, s);
  }

  /** Where the bundle comes from. */
  datatype Source = FreshBundle | SavedBundle | SavedDeposit

  /** rocketarb.js:212-213: --resume-deposit is consulted first, then --resume,
      and a fresh bundle is built only when neither is given. */
  function BundleSource(resume: bool, resumeDeposit: bool): (src: Source)
    ensures src == SavedDeposit <==> resumeDeposit
    ensures src == SavedBundle <==> resume && !resumeDeposit
    ensures src == FreshBundle <==> !resume && !resumeDeposit
  {
    if resumeDeposit then SavedDeposit
    else if resume then SavedBundle
    else FreshBundle
  }

  /** rocketarb.js:42-45 followed by rocketarb.js:212-213: asking for both resume modes
      stops the run before any bundle is built; otherwise the bundle comes
      from the source the flags select. `freshDeposit` is the deposit the
      daemon would create and `stored` the parsed bundle file. */
  function ObtainBundle(resume: bool, resumeDeposit: bool, freshDeposit: Blob,
                        stored: Option<Bundle>, cfg: Config, m: Market, s: Signer): (r: Result<Bundle>)
    ensures r == Err(ConflictingResumeModes) <==> resume && resumeDeposit
    ensures resumeDeposit && !resume ==> r == RetrieveDeposit(stored, cfg, m, s)
    ensures resume && !resumeDeposit ==> r == RetrieveBundle(stored)
    ensures !resume && !resumeDeposit ==> r == MakeBundle(freshDeposit, cfg, m, s)
  {
    if resume && resumeDeposit then
      Err(ConflictingResumeModes)
    else
      match BundleSource(resume, resumeDeposit)
      case SavedDeposit => RetrieveDeposit(stored, cfg, m, s)
      case SavedBundle => RetrieveBundle(stored)
      case FreshBundle => MakeBundle(freshDeposit, cfg, m, s)
  }

  /** Every bundle assembled by this program, fresh or partially resumed,
      has its arb transaction one nonce after the deposit, on the same
      chain and with the same fees. */
  lemma AssembledBundlesAreSequenced(resumeDeposit: bool, freshDeposit: Blob,
                                     stored: Option<Bundle>, cfg: Config, m: Market, s: Signer)
    requires ObtainBundle(false, resumeDeposit, freshDeposit, stored, cfg, m, s).Ok?
    ensures Sequenced(ObtainBundle(false, resumeDeposit, freshDeposit, stored, cfg, m, s).value, s)
  {
  }
}
