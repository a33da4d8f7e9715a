/** Runs of the ceremony: any interleaving of propose, sign and execute processes over the same
    files keeps every persisted proposal well-formed, and honest shares always aggregate. */
module CeremonyRuns {
  import opened Ceremony
  import opened CurveGroup
  import opened Lagrange
  import opened ModArith
  import opened Outcomes
  import opened Polynomials
  import ThresholdSigner

  // ----- proposing

  datatype ProposalRequest = ProposalRequest(
    network: string, groupFile: string, coordinatorKeyFile: string, frostSparkAddress: string,
    frostDepositAddress: string, receiverMnemonic: Option<string>, receiverSparkAddress: Option<string>, payment: Payment)

  /** `runPropose`: the file it writes, given the wallet addresses it obtained. */
  function Propose(env: Env, request: ProposalRequest): Result<ProposalFile, CeremonyError>
  {
    if request.groupFile !in env.groups then Err(FileMissing(request.groupFile)) else
    var group := env.groups[request.groupFile];
    var payload := Payload(
      request.network, request.groupFile, group.threshold, group.participants, NormalizeSparkPublicKey(group.thresholdPubkey),
      "additive-path-tweak-v1", request.coordinatorKeyFile, request.frostSparkAddress,
      request.frostDepositAddress, request.receiverSparkAddress, request.payment);
    Ok(ProposalFile(Header(payload, request.receiverMnemonic, env.hash(payload)), Signing(Collecting, [], None, None), None))
  }

  // ----- the processes

  /** A sign or execute process holds the proposal it read until it writes. */
  datatype Process = SignProcess(path: string, file: ProposalFile) | ExecuteProcess(path: string, file: ProposalFile)

  datatype State = State(disk: map<string, ProposalFile>, processes: map<nat, Process>)

  datatype Action =
    | ProposeTo(path: string, request: ProposalRequest)
    | StartSign(pid: nat, path: string)
    | FinishSign(pid: nat, sharePath: string, nonce: int)
    | StartExecute(pid: nat, path: string)
    | RecordClaim(pid: nat, txid: string, claim: string)
    | RecordResult(pid: nat, outcome: string)
    | EndProcess(pid: nat)

  function ExecutionOf(file: ProposalFile): Execution
  {
    match file.execution case None => Execution(None, None, None) case Some(e) => e
  }

  /** One atomic step; an action that is not possible in the state changes nothing. */
  function Next(env: Env, s: State, a: Action): State
    requires env.curve.q > 1
  {
    match a
    case ProposeTo(path, request) => (
      match Propose(env, request)
      case Err(_) => s
      case Ok(file) => s.(disk := s.disk[path := file]))
    case StartSign(pid, path) =>
      if path in s.disk && pid !in s.processes
      then s.(processes := s.processes[pid := SignProcess(path, s.disk[path])]) else s
    case FinishSign(pid, sharePath, nonce) =>
      if pid in s.processes && s.processes[pid].SignProcess? then
        var p := s.processes[pid];
        var ended := s.(processes := s.processes - {pid});
        (match Sign(env, p.file, sharePath, nonce)
         case Err(_) => ended
         case Ok(file) => if p.file.signing.status == Aggregated then ended else ended.(disk := s.disk[p.path := file]))
      else s
    case StartExecute(pid, path) =>
      if path in s.disk && pid !in s.processes && s.disk[path].signing.status == Aggregated
      then s.(processes := s.processes[pid := ExecuteProcess(path, s.disk[path])]) else s
    case RecordClaim(pid, txid, claim) =>
      if pid in s.processes && s.processes[pid].ExecuteProcess? && ExecutionOf(s.processes[pid].file).claim.None? then
        var p := s.processes[pid];
        var file := p.file.(execution := Some(ExecutionOf(p.file).(faucetTxid := Some(txid), claim := Some(claim))));
        State(s.disk[p.path := file], s.processes[pid := p.(file := file)])
      else s
    case RecordResult(pid, outcome) =>
      if pid in s.processes && s.processes[pid].ExecuteProcess? && ExecutionOf(s.processes[pid].file).result.None? then
        var p := s.processes[pid];
        var file := p.file.(execution := Some(ExecutionOf(p.file).(result := Some(outcome))));
        State(s.disk[p.path := file], s.processes[pid := p.(file := file)])
      else s
    case EndProcess(pid) => s.(processes := s.processes - {pid})
  }

  function Run(env: Env, actions: seq<Action>): State
    requires env.curve.q > 1
    decreases |actions|
  {
    if actions == [] then State(map[], map[])
    else Next(env, Run(env, actions[..|actions| - 1]), actions[|actions| - 1])
  }

  // ----- what every persisted proposal satisfies

  /** The stored signature is a Schnorr signature of the proposal hash under the normalised group key:
      z*G = R + challenge*P. */
  ghost predicate Verifies(env: Env, file: ProposalFile)
    requires env.curve.q > 1
  {
    var c, s, groupFile := env.curve, file.signing, file.header.payload.groupFile;
    && s.aggregateSignature.Some? && groupFile in env.groups
    && var AggregateSignature(nonce, z) := s.aggregateSignature.value;
      var publicKey := NormalizeSparkPublicKey(env.groups[groupFile].thresholdPubkey);
      && s.aggregateNonce == Some(nonce)
      && c.Decode(nonce).Ok? && c.Decode(publicKey).Ok? && 0 < z < c.q
      && Cong(z, c.Decode(nonce).value + c.Decode(publicKey).value * env.challenge(nonce, publicKey, file.header.proposalHash), c.q)
  }

  /** The entry was made by `runSign` from a share file of this key generation. */
  ghost predicate FromShareFile(env: Env, groupFile: string, signer: SigningParticipant)
    requires env.curve.q > 1
  {
    && groupFile in env.groups && signer.shareFile in env.keyshares
    && env.keyshares[signer.shareFile].paramsId == env.groups[groupFile].paramsId
    && env.keyshares[signer.shareFile].index == signer.index
    && 0 < signer.nonceSecret < env.curve.q
    && env.curve.Encode(signer.nonceSecret) == Ok(signer.nonceCommitment)
  }

  ghost predicate Collected(env: Env, file: ProposalFile)
    requires env.curve.q > 1
  {
    var p, signers := file.header.payload, file.signing.signers;
    && p.groupFile in env.groups && p.threshold == env.groups[p.groupFile].threshold
    && file.header.proposalHash == env.hash(p)
    && Distinct(Indexes(signers)) && |signers| <= p.threshold
    && forall i :: 0 <= i < |signers| ==> FromShareFile(env, p.groupFile, signers[i])
  }

  ghost predicate Good(env: Env, file: ProposalFile)
    requires env.curve.q > 1
  {
    && Collected(env, file)
    && (file.signing.status == Aggregated <==> |file.signing.signers| == file.header.payload.threshold)
    && (file.signing.status == Aggregated ==> Verifies(env, file))
  }

  ghost predicate AllGood(env: Env, s: State)
    requires env.curve.q > 1
  {
    && (forall path :: path in s.disk ==> Good(env, s.disk[path]))
    && (forall pid :: pid in s.processes ==> Good(env, s.processes[pid].file))
  }

  ghost predicate PositiveThresholds(env: Env)
  {
    forall g :: g in env.groups ==> env.groups[g].threshold >= 1
  }

  lemma {:induction false} NonceSumReduced(c: Curve, signers: seq<SigningParticipant>, k: nat)
    requires c.q > 0 && k <= |signers| && NonceSum(c, signers, k).Ok?
    ensures 0 <= NonceSum(c, signers, k).value < c.q
  {
    if k > 0 {
      NonceSumReduced(c, signers, k - 1);
    }
  }

  /** Equal encodings are equal points, so a passed check is the verification equation. */
  lemma PassedCheckVerifies(c: Curve, z: int, nonceSum: int, publicKey: PointBytes, challenge: int)
    requires c.Valid() && CheckAggregate(c, z, nonceSum, publicKey, challenge) == Ok(true)
    ensures c.Decode(publicKey).Ok? && 0 < z < c.q
    ensures Cong(z, nonceSum + c.Decode(publicKey).value * challenge, c.q)
  {
    var p := c.Decode(publicKey).value;
    var right := (nonceSum + (p * challenge) % c.q) % c.q;
    c.DecodeEncode(z);
    c.DecodeEncode(right);
    CongReduce(p * challenge, c.q);
    CongAdd(nonceSum, nonceSum, (p * challenge) % c.q, p * challenge, c.q);
    CongReduce(nonceSum + (p * challenge) % c.q, c.q);
  }

  lemma {:induction false} SharesKeepSigners(env: Env, signers: seq<SigningParticipant>, negate: bool, challenge: int, k: nat)
    requires env.curve.q > 1 && k <= |signers| && SignShares(env, signers, negate, challenge, k).Ok?
    ensures var done := SignShares(env, signers, negate, challenge, k).value.signers;
      forall i :: 0 <= i < k ==> done[i] == signers[i].(signatureShare := done[i].signatureShare)
  {
    hide SignatureShare, Indexes;
    if k > 0 {
      SharesKeepSigners(env, signers, negate, challenge, k - 1);
    }
  }

  lemma AggregateGood(env: Env, file: ProposalFile)
    requires env.Valid() && Collected(env, file) && |file.signing.signers| == file.header.payload.threshold
    requires Aggregate(env, file).Ok?
    ensures Good(env, Aggregate(env, file).value)
  {
    hide Cong, Distinct, NonceSum, SignShares, CheckAggregate, NormalizeSparkPublicKey;
    var c, signers, out := env.curve, file.signing.signers, Aggregate(env, file).value;
    var rawKey := env.groups[file.header.payload.groupFile].thresholdPubkey;
    var publicKey, nonceSum := NormalizeSparkPublicKey(rawKey), NonceSum(c, signers, |signers|).value;
    var nonceBytes := c.Encode(nonceSum).value;
    var challenge := env.challenge(nonceBytes, publicKey, file.header.proposalHash);
    NonceSumReduced(c, signers, |signers|);
    c.DecodeEncode(nonceSum);
    SharesKeepSigners(env, signers, rawKey.prefix == 3, challenge, |signers|);
    PassedCheckVerifies(c, SignShares(env, signers, rawKey.prefix == 3, challenge, |signers|).value.z, nonceSum, publicKey, challenge);
    assert Indexes(out.signing.signers) == Indexes(signers);
  }

  /** The proposal with a new signer appended, as `runSign` builds it before aggregating. */
  function Joined(file: ProposalFile, signer: SigningParticipant): ProposalFile
  {
    file.(signing := file.signing.(signers := file.signing.signers + [signer]))
  }

  lemma SignGood(env: Env, file: ProposalFile, sharePath: string, nonce: int)
    requires env.Valid() && Good(env, file) && Sign(env, file, sharePath, nonce).Ok?
    ensures Good(env, Sign(env, file, sharePath, nonce).value)
  {
    if file.signing.status == Collecting {
      var share := env.keyshares[sharePath];
      var signer := SigningParticipant(share.index, sharePath, env.curve.Encode(nonce).value, nonce, None);
      var joined, before := Joined(file, signer), Indexes(file.signing.signers);
      assert Indexes(joined.signing.signers) == before + [share.index];
      if |joined.signing.signers| == file.header.payload.threshold {
        AggregateGood(env, joined);
      }
    }
  }

  lemma FinishSignKeepsGood(env: Env, s: State, a: Action)
    requires env.Valid() && AllGood(env, s) && a.FinishSign?
    ensures AllGood(env, Next(env, s, a))
  {
    hide Good, Sign, Propose;
    if a.pid in s.processes && Sign(env, s.processes[a.pid].file, a.sharePath, a.nonce).Ok? {
      SignGood(env, s.processes[a.pid].file, a.sharePath, a.nonce);
    }
  }

  /** What a process records about the execution touches nothing that makes a proposal good. */
  lemma ExecutionKeepsGood(env: Env, file: ProposalFile, execution: Execution)
    requires env.curve.q > 1 && Good(env, file)
    ensures Good(env, file.(execution := Some(execution)))
  {
    hide Cong, Distinct, Indexes, FromShareFile;
  }

  lemma RecordKeepsGood(env: Env, s: State, a: Action)
    requires env.curve.q > 1 && AllGood(env, s) && (a.RecordClaim? || a.RecordResult?)
    ensures AllGood(env, Next(env, s, a))
  {
    hide Good, Sign, Propose;
    if a.pid in s.processes {
      var file := s.processes[a.pid].file;
      if a.RecordClaim? {
        ExecutionKeepsGood(env, file, ExecutionOf(file).(faucetTxid := Some(a.txid), claim := Some(a.claim)));
      } else {
        ExecutionKeepsGood(env, file, ExecutionOf(file).(result := Some(a.outcome)));
      }
    }
  }

  lemma ProposalIsGood(env: Env, request: ProposalRequest)
    requires env.curve.q > 1 && PositiveThresholds(env) && Propose(env, request).Ok?
    ensures Good(env, Propose(env, request).value)
  {
  }

  lemma NextKeepsGood(env: Env, s: State, a: Action)
    requires env.Valid() && PositiveThresholds(env) && AllGood(env, s)
    ensures AllGood(env, Next(env, s, a))
  {
    hide Good, Sign, Propose;
    if a.FinishSign? {
      FinishSignKeepsGood(env, s, a);
    } else if a.RecordClaim? || a.RecordResult? {
      RecordKeepsGood(env, s, a);
    } else if a.ProposeTo? && Propose(env, a.request).Ok? {
      ProposalIsGood(env, a.request);
    }
  }

  /** Every run, under every interleaving, keeps every proposal on disk and in memory well-formed. */
  lemma {:induction false} EveryRunIsGood(env: Env, actions: seq<Action>)
    requires env.Valid() && PositiveThresholds(env)
    ensures AllGood(env, Run(env, actions))
    decreases |actions|
  {
    if actions != [] {
      EveryRunIsGood(env, actions[..|actions| - 1]);
      NextKeepsGood(env, Run(env, actions[..|actions| - 1]), actions[|actions| - 1]);
    }
  }

  // ----- honest shares always aggregate

  /** The key generation behind a group file: t-threshold shares of f, and f(0)*G as the group key. */
  ghost predicate HonestGroup(env: Env, groupFile: string, f: Poly)
    requires env.curve.q > 1
  {
    && groupFile in env.groups
    && |f| == env.groups[groupFile].threshold
    && Eval(f, 0) % env.curve.q != 0
    && env.curve.Encode(Eval(f, 0) % env.curve.q) == Ok(env.groups[groupFile].thresholdPubkey)
    && forall path :: path in env.keyshares && env.keyshares[path].paramsId == env.groups[groupFile].paramsId ==>
      && 1 <= env.keyshares[path].index < env.curve.q
      && env.keyshares[path].secshare == Eval(f, env.keyshares[path].index) % env.curve.q
  }

  /** The sum of the first k secret nonces. */
  function SecretNonces(signers: seq<SigningParticipant>, k: nat): int
    requires k <= |signers|
  {
    if k == 0 then 0 else SecretNonces(signers, k - 1) + signers[k - 1].nonceSecret
  }

  lemma {:induction false} NonceSumMeaning(env: Env, groupFile: string, signers: seq<SigningParticipant>, k: nat)
    requires env.Valid() && k <= |signers| && forall i :: 0 <= i < |signers| ==> FromShareFile(env, groupFile, signers[i])
    ensures NonceSum(env.curve, signers, k) == Ok(SecretNonces(signers, k) % env.curve.q)
  {
    if k > 0 {
      NonceSumMeaning(env, groupFile, signers, k - 1);
      var c, n, sum := env.curve, signers[k - 1].nonceSecret, SecretNonces(signers, k - 1);
      c.DecodeEncode(n);
      CongReduce(sum, c.q);
      CongAdd(sum % c.q, sum, n, n, c.q);
    } else {
      SmallMod(0, env.curve.q);
    }
  }

  /** The signers' share values as the aggregation uses them. */
  function UsedShares(env: Env, signers: seq<SigningParticipant>, negate: bool): (r: seq<ThresholdSigner.DkgShare>)
    requires env.curve.q > 1 && forall i :: 0 <= i < |signers| ==> signers[i].shareFile in env.keyshares
    ensures |r| == |signers|
  {
    seq(|signers|, i requires 0 <= i < |signers| =>
      var raw := env.keyshares[signers[i].shareFile].secshare;
      ThresholdSigner.DkgShare(signers[i].index, if negate then (-raw) % env.curve.q else raw))
  }

  lemma HonestSharesUsed(env: Env, groupFile: string, signers: seq<SigningParticipant>, f: Poly, negate: bool)
    requires env.Valid() && HonestGroup(env, groupFile, f)
    requires forall i :: 0 <= i < |signers| ==> FromShareFile(env, groupFile, signers[i])
    requires forall i :: 0 <= i < |signers| ==> signers[i].shareFile in env.keyshares
    ensures ThresholdSigner.SharesOf(UsedShares(env, signers, negate), Indexes(signers), f, negate, env.curve.q)
  {
    forall i | 0 <= i < |signers|
      ensures Cong(UsedShares(env, signers, negate)[i].value,
                   if negate then -Eval(f, signers[i].index) else Eval(f, signers[i].index), env.curve.q)
    {
      assert FromShareFile(env, groupFile, signers[i]);
      var v, q := Eval(f, signers[i].index), env.curve.q;
      CongReduce(v, q);
      CongNeg(v % q, v, q);
      CongReduce(-(v % q), q);
    }
  }

  lemma OneSignatureShare(env: Env, signers: seq<SigningParticipant>, negate: bool, challenge: int, i: nat)
    requires env.Valid() && i < |signers| && Separated(Indexes(signers), env.curve.q)
    requires forall i :: 0 <= i < |signers| ==> signers[i].shareFile in env.keyshares
    ensures SignatureShare(env, signers[i], Indexes(signers), negate, challenge)
         == Ok(ShareScalar(signers[i].nonceSecret, challenge, Lambda(signers[i].index, Indexes(signers), env.curve.q),
                           UsedShares(env, signers, negate)[i].value, env.curve.q))
  {
    assert Indexes(signers)[i] == signers[i].index;
    LambdaSucceeds(signers[i].index, Indexes(signers), env.curve.q);
  }

  function Blend(nonces: int, challenge: int, w: int): int { nonces + challenge * w }

  /** The expression that the running z is congruent to. */
  ghost function ExpectedZ(env: Env, signers: seq<SigningParticipant>, negate: bool, challenge: int, k: nat): int
    requires env.curve.q > 1 && k <= |signers|
    requires forall i :: 0 <= i < |signers| ==> signers[i].shareFile in env.keyshares
  {
    Blend(SecretNonces(signers, k), challenge,
          WeightedSum(Indexes(signers), ThresholdSigner.ShareValues(UsedShares(env, signers, negate)), env.curve.q, k))
  }

  lemma WeightedNext(xs: seq<int>, ys: seq<int>, q: int, k: nat)
    requires q > 1 && k < |xs| == |ys|
    ensures WeightedSum(xs, ys, q, k + 1) == WeightedSum(xs, ys, q, k) + Lambda(xs[k], xs, q) * ys[k]
  {
  }

  lemma ExpectedZStep(env: Env, signers: seq<SigningParticipant>, negate: bool, challenge: int, k: nat, z: int, share: int)
    requires env.Valid() && k < |signers|
    requires forall i :: 0 <= i < |signers| ==> signers[i].shareFile in env.keyshares
    requires Cong(z, ExpectedZ(env, signers, negate, challenge, k), env.curve.q)
    requires share == ShareScalar(signers[k].nonceSecret, challenge, Lambda(signers[k].index, Indexes(signers), env.curve.q),
                                  UsedShares(env, signers, negate)[k].value, env.curve.q)
    ensures Cong((z + share) % env.curve.q, ExpectedZ(env, signers, negate, challenge, k + 1), env.curve.q)
  {
    hide Cong, Lambda, UsedShares, WeightedSum, ShareScalar, Blend;
    var xs, ys, q := Indexes(signers), ThresholdSigner.ShareValues(UsedShares(env, signers, negate)), env.curve.q;
    WeightedNext(xs, ys, q, k);
    AddSignatureShare(z, SecretNonces(signers, k), challenge, WeightedSum(xs, ys, q, k), signers[k].nonceSecret,
                      Lambda(signers[k].index, xs, q), ys[k], q);
  }

  /** z is the sum of the nonces plus the challenge times the recombined secret. */
  lemma {:induction false} SignSharesMeaning(env: Env, signers: seq<SigningParticipant>, negate: bool, challenge: int, k: nat)
    requires env.Valid() && k <= |signers| && Separated(Indexes(signers), env.curve.q)
    requires forall i :: 0 <= i < |signers| ==> signers[i].shareFile in env.keyshares
    ensures SignShares(env, signers, negate, challenge, k).Ok?
    ensures Cong(SignShares(env, signers, negate, challenge, k).value.z, ExpectedZ(env, signers, negate, challenge, k), env.curve.q)
    ensures 0 <= SignShares(env, signers, negate, challenge, k).value.z < env.curve.q
  {
    if k > 0 {
      SignSharesMeaning(env, signers, negate, challenge, k - 1);
      var p := SignShares(env, signers, negate, challenge, k - 1).value;
      OneSignatureShare(env, signers, negate, challenge, k - 1);
      SignSharesStep(env, signers, negate, challenge, k - 1, p.signers, p.z);
      var share := SignatureShare(env, signers[k - 1], Indexes(signers), negate, challenge).value;
      ExpectedZStep(env, signers, negate, challenge, k - 1, p.z, share);
      hide *;
    }
  }

  lemma AddSignatureShare(z: int, nonces: int, challenge: int, w: int, nonce: int, weight: int, y: int, q: int)
    requires q > 0 && Cong(z, Blend(nonces, challenge, w), q)
    ensures Cong((z + ShareScalar(nonce, challenge, weight, y, q)) % q, Blend(nonces + nonce, challenge, w + weight * y), q)
  {
    var s := nonce + challenge * weight * y;
    assert challenge * weight * y == challenge * (weight * y);
    CongReduce(s, q);
    CongAdd(z, nonces + challenge * w, s % q, s, q);
    CongReduce(z + s % q, q);
    assert challenge * w + challenge * (weight * y) == challenge * (w + weight * y);
  }

  /** With the verification equation true, the check passes unless one of its scalars is zero. */
  lemma CheckPasses(c: Curve, z: int, nonceSum: int, publicKey: PointBytes, p: int, challenge: int)
    requires c.Valid() && 0 <= z < c.q && 0 <= nonceSum < c.q && 0 <= challenge < c.q
    requires c.Decode(publicKey) == Ok(p) && Cong(z, nonceSum + challenge * p, c.q)
    ensures CheckAggregate(c, z, nonceSum, publicKey, challenge)
         == if z == 0 || challenge == 0 then Err(Point(ScalarOutOfRange)) else Ok(true)
  {
    var cp := (p * challenge) % c.q;
    var right := (nonceSum + cp) % c.q;
    CongReduce(p * challenge, c.q);
    CongAdd(nonceSum, nonceSum, cp, p * challenge, c.q);
    SmallMod(z, c.q);
    assert right == z;
  }

  /** With honest shares, distinct signers and any nonces, for either parity of the raw group key,
      the aggregation completes unless a scalar or the nonce sum is zero; it never fails to verify. */
  lemma HonestSharesAggregate(env: Env, file: ProposalFile, f: Poly)
    requires env.Valid() && Collected(env, file) && HonestGroup(env, file.header.payload.groupFile, f)
    requires |file.signing.signers| == file.header.payload.threshold >= 1
    ensures var c, signers := env.curve, file.signing.signers;
      var nonceSum, secret := SecretNonces(signers, |signers|) % c.q, ThresholdSigner.EvenSecret(c, f);
      var publicKey := NormalizeSparkPublicKey(env.groups[file.header.payload.groupFile].thresholdPubkey);
      && (nonceSum == 0 ==> Aggregate(env, file) == Err(Point(PointAtInfinity)))
      && (nonceSum != 0 ==>
            var challenge := env.challenge(c.Encode(nonceSum).value, publicKey, file.header.proposalHash);
            var z := (nonceSum + challenge * secret) % c.q;
            && (z == 0 || challenge == 0 ==> Aggregate(env, file) == Err(Point(ScalarOutOfRange)))
            && (z != 0 && challenge != 0 ==>
                  && Aggregate(env, file).Ok?
                  && Aggregate(env, file).value.signing.aggregateSignature == Some(AggregateSignature(c.Encode(nonceSum).value, z))))
  {
    hide Cong, FromShareFile, SecretNonces, Distinct;
    var c, signers, groupFile := env.curve, file.signing.signers, file.header.payload.groupFile;
    var rawKey := env.groups[groupFile].thresholdPubkey;
    var negate, publicKey, nonceSum := rawKey.prefix == 3, NormalizeSparkPublicKey(rawKey), SecretNonces(signers, |signers|) % c.q;
    NonceSumMeaning(env, groupFile, signers, |signers|);
    if nonceSum != 0 {
      var challenge := env.challenge(c.Encode(nonceSum).value, publicKey, file.header.proposalHash);
      HonestZ(env, file, f, challenge);
      var z := SignShares(env, signers, negate, challenge, |signers|).value.z;
      NormalizedIsEvenY(c, Eval(f, 0) % c.q);
      CheckPasses(c, z, nonceSum, publicKey, ThresholdSigner.EvenSecret(c, f), challenge);
    }
  }

  /** The shares the aggregation uses recombine to the even-y secret. */
  lemma UsedSharesRecombine(env: Env, file: ProposalFile, f: Poly)
    requires env.Valid() && Collected(env, file) && HonestGroup(env, file.header.payload.groupFile, f)
    requires |file.signing.signers| == file.header.payload.threshold
    ensures var c, signers := env.curve, file.signing.signers;
      var negate := env.groups[file.header.payload.groupFile].thresholdPubkey.prefix == 3;
      var ys := ThresholdSigner.ShareValues(UsedShares(env, signers, negate));
      && Separated(Indexes(signers), c.q)
      && Cong(WeightedSum(Indexes(signers), ys, c.q, |signers|), ThresholdSigner.EvenSecret(c, f), c.q)
  {
    var c, signers, groupFile := env.curve, file.signing.signers, file.header.payload.groupFile;
    var negate := env.groups[groupFile].thresholdPubkey.prefix == 3;
    var shares := UsedShares(env, signers, negate);
    HonestSharesUsed(env, groupFile, signers, f, negate);
    assert ThresholdSigner.Indexes(shares) == Indexes(signers);
    hide Cong, WeightedSum, Lambda, Separated, Eval, UsedShares, FromShareFile, ThresholdSigner.SharesOf, ThresholdSigner.EvenSecret;
    ThresholdSigner.SharesRecombine(shares, Indexes(signers), f, negate, c.q);
    ThresholdSigner.EvenSecretMeaning(c, f);
    CongJoin(WeightedSum(Indexes(signers), ThresholdSigner.ShareValues(shares), c.q, |signers|),
             if negate then -Eval(f, 0) else Eval(f, 0), ThresholdSigner.EvenSecret(c, f), c.q);
  }

  /** The aggregated z, for an arbitrary challenge. */
  lemma HonestZ(env: Env, file: ProposalFile, f: Poly, challenge: int)
    requires env.Valid() && Collected(env, file) && HonestGroup(env, file.header.payload.groupFile, f)
    requires |file.signing.signers| == file.header.payload.threshold
    ensures var c, signers := env.curve, file.signing.signers;
      var negate := env.groups[file.header.payload.groupFile].thresholdPubkey.prefix == 3;
      && SignShares(env, signers, negate, challenge, |signers|).Ok?
      && var z := SignShares(env, signers, negate, challenge, |signers|).value.z;
        var r := SecretNonces(signers, |signers|) % c.q + challenge * ThresholdSigner.EvenSecret(c, f);
        Cong(z, r, c.q) && z == r % c.q
  {
    var c, signers, n := env.curve, file.signing.signers, |file.signing.signers|;
    var negate := env.groups[file.header.payload.groupFile].thresholdPubkey.prefix == 3;
    UsedSharesRecombine(env, file, f);
    SignSharesMeaning(env, signers, negate, challenge, n);
    var w := WeightedSum(Indexes(signers), ThresholdSigner.ShareValues(UsedShares(env, signers, negate)), c.q, n);
    assert ExpectedZ(env, signers, negate, challenge, n) == Blend(SecretNonces(signers, n), challenge, w);
    var z := SignShares(env, signers, negate, challenge, n).value.z;
    hide *;
    ReplaceSecret(z, SecretNonces(signers, n), challenge, w, ThresholdSigner.EvenSecret(c, f), c.q);
  }

  lemma ReplaceSecret(z: int, nonces: int, challenge: int, w: int, secret: int, q: int)
    requires q > 0 && 0 <= z < q && Cong(z, Blend(nonces, challenge, w), q) && Cong(w, secret, q)
    ensures Cong(z, nonces % q + challenge * secret, q) && z == (nonces % q + challenge * secret) % q
  {
    CongMul(challenge, challenge, w, secret, q);
    CongReduce(nonces, q);
    CongAdd(nonces % q, nonces, challenge * secret, challenge * w, q);
    SmallMod(z, q);
  }

  /** The signer that reaches the threshold on any proposal of a run is handed to the aggregation
      with everything HonestSharesAggregate needs: `runSign` itself establishes its preconditions. */
  lemma LastSignerAggregates(env: Env, file: ProposalFile, sharePath: string, nonce: int)
    requires env.Valid() && Good(env, file) && |file.signing.signers| + 1 == file.header.payload.threshold
    requires sharePath in env.keyshares && 0 < nonce < env.curve.q
    requires env.keyshares[sharePath].paramsId == env.groups[file.header.payload.groupFile].paramsId
    requires env.keyshares[sharePath].index !in Indexes(file.signing.signers)
    ensures env.curve.Encode(nonce).Ok?
    ensures var signer := SigningParticipant(env.keyshares[sharePath].index, sharePath, env.curve.Encode(nonce).value, nonce, None);
      && Sign(env, file, sharePath, nonce) == Aggregate(env, Joined(file, signer))
      && Collected(env, Joined(file, signer))
      && |Joined(file, signer).signing.signers| == file.header.payload.threshold
  {
    var share := env.keyshares[sharePath];
    var signer := SigningParticipant(share.index, sharePath, env.curve.Encode(nonce).value, nonce, None);
    var before := Indexes(file.signing.signers);
    assert Indexes(Joined(file, signer).signing.signers) == before + [share.index];
    forall i | 0 <= i < |file.signing.signers| ensures file.signing.signers[i].index != share.index {
      assert before[i] == file.signing.signers[i].index;
    }
  }
}
