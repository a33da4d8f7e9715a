/** The staged signing ceremony: the proposal file, collecting signers, and the aggregation of the
    authorization signature (section 5.3 of RFC 9591, with the even-y keys of BIP 340). */
module Ceremony {
  import opened CurveGroup
  import opened Lagrange
  import opened Outcomes
  import opened Scalars

  type Hash = seq<int>

  datatype PaymentKind = Transfer | Lightning
  datatype Payment = Payment(kind: PaymentKind, amountSats: int, maxFeeSats: Option<int>, lightningInvoice: Option<string>)

  /** The fields of a proposal that the proposal hash covers. */
  datatype Payload = Payload(
    network: string, groupFile: string, threshold: int, participants: int, dkgThresholdPublicKey: PointBytes,
    leafKeyDerivationScheme: string, coordinatorKeyFile: string, frostSparkAddress: string,
    frostDepositAddress: string, receiverSparkAddress: Option<string>, payment: Payment)

  datatype Header = Header(payload: Payload, receiverMnemonic: Option<string>, proposalHash: Hash)

  datatype SigningParticipant = SigningParticipant(
    index: int, shareFile: string, nonceCommitment: PointBytes, nonceSecret: int, signatureShare: Option<int>)

  datatype Status = Collecting | Aggregated
  datatype AggregateSignature = AggregateSignature(nonce: PointBytes, z: int)
  datatype Signing = Signing(
    status: Status, signers: seq<SigningParticipant>,
    aggregateNonce: Option<PointBytes>, aggregateSignature: Option<AggregateSignature>)
  datatype Execution = Execution(faucetTxid: Option<string>, claim: Option<string>, result: Option<string>)

  /** A proposal as persisted. */
  datatype ProposalFile = ProposalFile(header: Header, signing: Signing, execution: Option<Execution>)

  datatype GroupFile = GroupFile(paramsId: string, threshold: int, participants: int, thresholdPubkey: PointBytes)
  datatype KeyshareFile = KeyshareFile(paramsId: string, index: int, secshare: int)

  datatype CeremonyError =
    | FileMissing(path: string)
    | OtherSession(index: int)
    | AlreadySigned(index: int)
    | AlreadyCollected
    | NoSigners
    | DidNotVerify
    | Point(point: PointError)
    | Scalar(scalar: ScalarError)

  /** The files of the key generation, which the ceremony only reads, and the two uses of SHA-256. */
  datatype Env = Env(
    curve: Curve,
    challenge: (PointBytes, PointBytes, Hash) -> int,
    hash: Payload -> Hash,
    groups: map<string, GroupFile>,
    keyshares: map<string, KeyshareFile>)
  {
    ghost predicate Valid() {
      && curve.Valid()
      && forall r, p, h :: 0 <= challenge(r, p, h) < curve.q
    }
  }

  // ----- aggregation

  function Indexes(signers: seq<SigningParticipant>): (r: seq<int>)
    ensures |r| == |signers| && forall i :: 0 <= i < |r| ==> r[i] == signers[i].index
  {
    seq(|signers|, i requires 0 <= i < |signers| => signers[i].index)
  }

  /** The sum of the first k nonce commitments. */
  function NonceSum(c: Curve, signers: seq<SigningParticipant>, k: nat): Result<int, CeremonyError>
    requires c.q > 0 && k <= |signers|
  {
    if k == 0 then Ok(0) else
    var sum :- NonceSum(c, signers, k - 1);
    match c.Decode(signers[k - 1].nonceCommitment)
    case Err(e) => Err(Point(e))
    case Ok(p) => Ok(c.Add(sum, p))
  }

  function ShareScalar(nonce: int, challenge: int, weight: int, value: int, q: int): int
    requires q > 0
  {
    (nonce + challenge * weight * value) % q
  }

  function SignatureShare(env: Env, signer: SigningParticipant, indexes: seq<int>, negate: bool, challenge: int): Result<int, CeremonyError>
    requires env.curve.q > 1
  {
    if signer.shareFile !in env.keyshares then Err(FileMissing(signer.shareFile)) else
    var raw := env.keyshares[signer.shareFile].secshare;
    var value := if negate then (-raw) % env.curve.q else raw;
    match LagrangeCoefficientAtZero(signer.index, indexes, env.curve.q)
    case Err(e) => Err(Scalar(e))
    case Ok(weight) => Ok(ShareScalar(signer.nonceSecret, challenge, weight, value, env.curve.q))
  }

  datatype Partial = Partial(signers: seq<SigningParticipant>, z: int)

  /** The first k signers with their signature shares filled in, and the running sum of the shares. */
  function SignShares(env: Env, signers: seq<SigningParticipant>, negate: bool, challenge: int, k: nat): (r: Result<Partial, CeremonyError>)
    requires env.curve.q > 1 && k <= |signers|
    ensures r.Ok? ==> |r.value.signers| == k
  {
    if k == 0 then Ok(Partial([], 0)) else
    var p :- SignShares(env, signers, negate, challenge, k - 1);
    var share :- SignatureShare(env, signers[k - 1], Indexes(signers), negate, challenge);
    Ok(Partial(p.signers + [signers[k - 1].(signatureShare := Some(share))], (p.z + share) % env.curve.q))
  }

  /** The check that the aggregate satisfies z*G = R + c*P, with the two sides compared as encodings. */
  function CheckAggregate(c: Curve, z: int, nonceSum: int, publicKey: PointBytes, challenge: int): Result<bool, CeremonyError>
    requires c.q > 0
  {
    match c.MultiplyBase(z) case Err(e) => Err(Point(e)) case Ok(left) =>
    match c.Decode(publicKey) case Err(e) => Err(Point(e)) case Ok(p) =>
    match c.Multiply(p, challenge) case Err(e) => Err(Point(e)) case Ok(cp) =>
    match c.Encode(left) case Err(e) => Err(Point(e)) case Ok(l) =>
    match c.Encode(c.Add(nonceSum, cp)) case Err(e) => Err(Point(e)) case Ok(r) =>
    Ok(l == r)
  }

  /** `aggregateAuthorizationSignature` as a function of the proposal: the completed proposal, or
      the exception that leaves it unused. */
  function Aggregate(env: Env, file: ProposalFile): Result<ProposalFile, CeremonyError>
    requires env.curve.q > 1
  {
    var c, signers := env.curve, file.signing.signers;
    if file.header.payload.groupFile !in env.groups then Err(FileMissing(file.header.payload.groupFile)) else
    var rawKey := env.groups[file.header.payload.groupFile].thresholdPubkey;
    var publicKey := NormalizeSparkPublicKey(rawKey);
    if signers == [] then Err(NoSigners) else
    var nonceSum :- NonceSum(c, signers, |signers|);
    match c.Encode(nonceSum)
    case Err(e) => Err(Point(e))
    case Ok(nonceBytes) =>
      var challenge := env.challenge(nonceBytes, publicKey, file.header.proposalHash);
      var partial :- SignShares(env, signers, rawKey.prefix == 3, challenge, |signers|);
      var ok :- CheckAggregate(c, partial.z, nonceSum, publicKey, challenge);
      if !ok then Err(DidNotVerify)
      else Ok(file.(signing := Signing(Aggregated, partial.signers, Some(nonceBytes),
                                       Some(AggregateSignature(nonceBytes, partial.z)))))
  }

  /** `runSign` on the proposal it read: the proposal to write back, or the exception. An already
      aggregated proposal comes back as it is. */
  function Sign(env: Env, file: ProposalFile, sharePath: string, nonce: int): Result<ProposalFile, CeremonyError>
    requires env.curve.q > 1
  {
    var s, p := file.signing, file.header.payload;
    if s.status == Aggregated then Ok(file)
    else if sharePath !in env.keyshares then Err(FileMissing(sharePath))
    else if p.groupFile !in env.groups then Err(FileMissing(p.groupFile))
    else
      var share := env.keyshares[sharePath];
      if share.paramsId != env.groups[p.groupFile].paramsId then Err(OtherSession(share.index))
      else if exists i :: 0 <= i < |s.signers| && s.signers[i].index == share.index then Err(AlreadySigned(share.index))
      else if |s.signers| >= p.threshold then Err(AlreadyCollected)
      else
        match env.curve.MultiplyBase(nonce) case Err(e) => Err(Point(e)) case Ok(point) =>
        match env.curve.Encode(point) case Err(e) => Err(Point(e)) case Ok(commitment) =>
        var joined := file.(signing := s.(signers := s.signers + [SigningParticipant(share.index, sharePath, commitment, nonce, None)]));
        if |joined.signing.signers| == p.threshold then Aggregate(env, joined) else Ok(joined)
  }

  // ----- the program: a proposal object that the commands update, and the files they persist

  class Proposal {
    const header: Header
    var status: Status
    var signers: seq<SigningParticipant>
    var aggregateNonce: Option<PointBytes>
    var aggregateSignature: Option<AggregateSignature>
    var execution: Option<Execution>

    constructor (file: ProposalFile)
      ensures Snapshot() == file
    {
      header := file.header;
      status := file.signing.status;
      signers := file.signing.signers;
      aggregateNonce := file.signing.aggregateNonce;
      aggregateSignature := file.signing.aggregateSignature;
      execution := file.execution;
    }

    /** What serialising the object writes. */
    function Snapshot(): ProposalFile
      reads this
    {
      ProposalFile(header, Signing(status, signers, aggregateNonce, aggregateSignature), execution)
    }
  }

  lemma {:induction false} SignSharesFailsOnwards(env: Env, signers: seq<SigningParticipant>, negate: bool, challenge: int, k: nat, n: nat)
    requires env.curve.q > 1 && k <= n <= |signers| && SignShares(env, signers, negate, challenge, k).Err?
    ensures SignShares(env, signers, negate, challenge, n) == SignShares(env, signers, negate, challenge, k)
  {
    if k < n {
      SignSharesFailsOnwards(env, signers, negate, challenge, k, n - 1);
    }
  }

  lemma {:induction false} NonceSumFailsOnwards(c: Curve, signers: seq<SigningParticipant>, k: nat, n: nat)
    requires c.q > 0 && k <= n <= |signers| && NonceSum(c, signers, k).Err?
    ensures NonceSum(c, signers, n) == NonceSum(c, signers, k)
  {
    if k < n {
      NonceSumFailsOnwards(c, signers, k, n - 1);
    }
  }

  lemma SignSharesStep(env: Env, signers: seq<SigningParticipant>, negate: bool, challenge: int, i: nat, done: seq<SigningParticipant>, z: int)
    requires env.curve.q > 1 && i < |signers| && SignShares(env, signers, negate, challenge, i) == Ok(Partial(done, z))
    ensures match SignatureShare(env, signers[i], Indexes(signers), negate, challenge)
            case Err(e) => SignShares(env, signers, negate, challenge, |signers|) == Err(e)
            case Ok(share) =>
              SignShares(env, signers, negate, challenge, i + 1)
              == Ok(Partial(done + [signers[i].(signatureShare := Some(share))], (z + share) % env.curve.q))
  {
    if SignatureShare(env, signers[i], Indexes(signers), negate, challenge).Err? {
      SignSharesFailsOnwards(env, signers, negate, challenge, i + 1, |signers|);
    }
  }

  /** The first i signers carry their shares, which sum to z; the others are as they were. */
  ghost predicate PrefixSigned(env: Env, signers: seq<SigningParticipant>, negate: bool, challenge: int, i: nat, now: seq<SigningParticipant>, z: int)
    requires env.curve.q > 1
  {
    && i <= |signers| == |now|
    && SignShares(env, signers, negate, challenge, i) == Ok(Partial(now[..i], z))
    && now[i..] == signers[i..]
  }

  lemma NextSigned(env: Env, signers: seq<SigningParticipant>, negate: bool, challenge: int, i: nat, now: seq<SigningParticipant>, z: int)
    requires env.curve.q > 1 && i < |signers| && PrefixSigned(env, signers, negate, challenge, i, now, z)
    ensures now[i] == signers[i]
    ensures match SignatureShare(env, signers[i], Indexes(signers), negate, challenge)
            case Err(e) => SignShares(env, signers, negate, challenge, |signers|) == Err(e)
            case Ok(share) =>
              PrefixSigned(env, signers, negate, challenge, i + 1, now[i := now[i].(signatureShare := Some(share))], (z + share) % env.curve.q)
  {
    SignSharesStep(env, signers, negate, challenge, i, now[..i], z);
    assert now[i] == now[i..][0] == signers[i];
    var r := SignatureShare(env, signers[i], Indexes(signers), negate, challenge);
    if r.Ok? {
      var next := now[i := now[i].(signatureShare := Some(r.value))];
      assert next[..i + 1] == now[..i] + [next[i]];
      assert next[i + 1..] == now[i..][1..] == signers[i..][1..];
    }
  }

  /** Fills in each signer's share in place and sums them. */
  method FillShares(env: Env, proposal: Proposal, negate: bool, challenge: int) returns (r: Result<int, CeremonyError>)
    requires env.curve.q > 1
    modifies proposal`signers
    ensures match SignShares(env, old(proposal.signers), negate, challenge, |old(proposal.signers)|)
            case Err(e) => r == Err(e)
            case Ok(p) => r == Ok(p.z) && proposal.signers == p.signers
  {
    var signers := proposal.signers;
    var indexes := Indexes(signers);
    var aggregateZ := 0;
    var i := 0;
    assert PrefixSigned(env, signers, negate, challenge, 0, proposal.signers, 0);
    hide SignatureShare, Indexes;
    while i < |signers|
      invariant 0 <= i <= |signers|
      invariant PrefixSigned(env, signers, negate, challenge, i, proposal.signers, aggregateZ)
    {
      NextSigned(env, signers, negate, challenge, i, proposal.signers, aggregateZ);
      var share := SignatureShare(env, proposal.signers[i], indexes, negate, challenge);
      if share.Err? {
        return Err(share.error);
      }
      proposal.signers := proposal.signers[i := proposal.signers[i].(signatureShare := Some(share.value))];
      aggregateZ := (aggregateZ + share.value) % env.curve.q;
      i := i + 1;
    }
    assert proposal.signers[..i] == proposal.signers;
    return Ok(aggregateZ);
  }

  method AggregateAuthorizationSignature(env: Env, proposal: Proposal) returns (r: Result<(), CeremonyError>)
    requires env.curve.q > 1
    modifies proposal
    ensures match Aggregate(env, old(proposal.Snapshot()))
            case Err(e) => r == Err(e)
            case Ok(file) => r == Ok(()) && proposal.Snapshot() == file
  {
    var c, groupFile := env.curve, proposal.header.payload.groupFile;
    if groupFile !in env.groups {
      return Err(FileMissing(groupFile));
    }
    var rawKey := env.groups[groupFile].thresholdPubkey;
    var publicKey := NormalizeSparkPublicKey(rawKey);
    if proposal.signers == [] {
      return Err(NoSigners);
    }
    var nonceSum := NonceSum(c, proposal.signers, |proposal.signers|);
    if nonceSum.Err? {
      return Err(nonceSum.error);
    }
    var nonceBytes := c.Encode(nonceSum.value);
    if nonceBytes.Err? {
      return Err(Point(nonceBytes.error));
    }
    var challenge := env.challenge(nonceBytes.value, publicKey, proposal.header.proposalHash);
    var z := FillShares(env, proposal, rawKey.prefix == 3, challenge);
    if z.Err? {
      return Err(z.error);
    }
    var ok := CheckAggregate(c, z.value, nonceSum.value, publicKey, challenge);
    if ok.Err? {
      return Err(ok.error);
    }
    if !ok.value {
      return Err(DidNotVerify);
    }
    proposal.status := Aggregated;
    proposal.aggregateNonce := Some(nonceBytes.value);
    proposal.aggregateSignature := Some(AggregateSignature(nonceBytes.value, z.value));
    return Ok(());
  }

  /** The proposal files on disk. */
  class Disk {
    var proposals: map<string, ProposalFile>

    /** `runSign`: only a successful step writes. */
    method RunSign(env: Env, path: string, sharePath: string, nonce: int) returns (r: Result<(), CeremonyError>)
      requires env.curve.q > 1
      modifies this
      ensures path !in old(proposals) ==> r == Err(FileMissing(path)) && proposals == old(proposals)
      ensures path in old(proposals) ==>
        match Sign(env, old(proposals)[path], sharePath, nonce)
        case Err(e) => r == Err(e) && proposals == old(proposals)
        case Ok(file) => r == Ok(()) && proposals == old(proposals)[path := file]
    {
      if path !in proposals {
        return Err(FileMissing(path));
      }
      var proposal := new Proposal(proposals[path]);
      if proposal.status == Aggregated {
        assert proposals == proposals[path := proposals[path]];
        return Ok(());
      }
      if sharePath !in env.keyshares {
        return Err(FileMissing(sharePath));
      }
      var share := env.keyshares[sharePath];
      var payload := proposal.header.payload;
      if payload.groupFile !in env.groups {
        return Err(FileMissing(payload.groupFile));
      }
      if share.paramsId != env.groups[payload.groupFile].paramsId {
        return Err(OtherSession(share.index));
      }
      if exists i :: 0 <= i < |proposal.signers| && proposal.signers[i].index == share.index {
        return Err(AlreadySigned(share.index));
      }
      if |proposal.signers| >= payload.threshold {
        return Err(AlreadyCollected);
      }
      var point := env.curve.MultiplyBase(nonce);
      if point.Err? {
        return Err(Point(point.error));
      }
      var commitment := env.curve.Encode(point.value);
      if commitment.Err? {
        return Err(Point(commitment.error));
      }
      proposal.signers := proposal.signers + [SigningParticipant(share.index, sharePath, commitment.value, nonce, None)];
      if |proposal.signers| == payload.threshold {
        var aggregated := AggregateAuthorizationSignature(env, proposal);
        if aggregated.Err? {
          return aggregated;
        }
      }
      proposals := proposals[path := proposal.Snapshot()];
      return Ok(());
    }
  }
}
