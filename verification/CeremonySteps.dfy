/** What each command of the ceremony records, and whole ceremonies from the proposal to the signature. */
module CeremonySteps {
  import opened Ceremony
  import opened CeremonyRuns
  import opened CurveGroup
  import Fermat
  import opened Lagrange
  import ModArith
  import opened Outcomes
  import opened Polynomials
  import Scalars
  import ThresholdSigner

  // ----- proposing

  /** A proposal names the group's threshold, size and even-y key and the caller's network, addresses, key
      file and payment, is hashed as a whole, and starts without signers. */
  lemma ProposalRecords(env: Env, request: ProposalRequest)
    ensures Propose(env, request).Ok? <==> request.groupFile in env.groups
    ensures Propose(env, request).Ok? ==>
      var file, group := Propose(env, request).value, env.groups[request.groupFile];
      var p := file.header.payload;
      && p.network == request.network && p.groupFile == request.groupFile
      && p.threshold == group.threshold && p.participants == group.participants
      && p.dkgThresholdPublicKey.x == group.thresholdPubkey.x
      && p.dkgThresholdPublicKey.prefix == (if group.thresholdPubkey.prefix == 3 then 2 else group.thresholdPubkey.prefix)
      && p.leafKeyDerivationScheme == "additive-path-tweak-v1" && p.coordinatorKeyFile == request.coordinatorKeyFile
      && p.frostSparkAddress == request.frostSparkAddress && p.frostDepositAddress == request.frostDepositAddress
      && p.receiverSparkAddress == request.receiverSparkAddress && p.payment == request.payment
      && file.header.receiverMnemonic == request.receiverMnemonic && file.header.proposalHash == env.hash(p)
      && file.signing.status == Collecting && file.signing.signers == []
      && file.signing.aggregateNonce.None? && file.signing.aggregateSignature.None? && file.execution.None?
  {
  }

  // ----- one signature

  /** The share file is of the proposal's key generation, its participant has not signed, and the proposal
      still collects. */
  ghost predicate Accepts(env: Env, file: ProposalFile, sharePath: string, nonce: int)
    requires env.curve.q > 1
  {
    && file.signing.status == Collecting
    && sharePath in env.keyshares && file.header.payload.groupFile in env.groups
    && env.keyshares[sharePath].paramsId == env.groups[file.header.payload.groupFile].paramsId
    && (forall i :: 0 <= i < |file.signing.signers| ==> file.signing.signers[i].index != env.keyshares[sharePath].index)
    && |file.signing.signers| < file.header.payload.threshold
    && 0 < nonce < env.curve.q
  }

  /** The entry says which participant signed from which file, keeps its secret nonce and the point it
      commits to, and has no share yet. */
  ghost predicate MadeFrom(env: Env, signer: SigningParticipant, sharePath: string, nonce: int)
    requires env.curve.q > 1
  {
    && sharePath in env.keyshares && signer.index == env.keyshares[sharePath].index && signer.shareFile == sharePath
    && signer.nonceSecret == nonce && env.curve.Encode(nonce) == Ok(signer.nonceCommitment)
    && signer.signatureShare.None?
  }

  /** Nothing but the list of signers differs, and that by one entry at its end. */
  ghost predicate OneMoreSigner(env: Env, file: ProposalFile, out: ProposalFile, sharePath: string, nonce: int)
    requires env.curve.q > 1
  {
    var n := |file.signing.signers|;
    && out.header == file.header && out.execution == file.execution
    && out.signing.status == file.signing.status
    && out.signing.aggregateNonce == file.signing.aggregateNonce
    && out.signing.aggregateSignature == file.signing.aggregateSignature
    && |out.signing.signers| == n + 1 && out.signing.signers[..n] == file.signing.signers
    && MadeFrom(env, out.signing.signers[n], sharePath, nonce)
  }

  /** A signature that is accepted and does not complete the threshold is recorded. */
  lemma SignRecords(env: Env, file: ProposalFile, sharePath: string, nonce: int)
    requires env.Valid() && Accepts(env, file, sharePath, nonce)
    requires |file.signing.signers| + 1 < file.header.payload.threshold
    ensures Sign(env, file, sharePath, nonce).Ok?
    ensures OneMoreSigner(env, file, Sign(env, file, sharePath, nonce).value, sharePath, nonce)
  {
    assert file.signing.signers + [Sign(env, file, sharePath, nonce).value.signing.signers[|file.signing.signers|]]
      == Sign(env, file, sharePath, nonce).value.signing.signers;
  }

  /** One that completes it goes through the aggregation of exactly that proposal. */
  lemma SignCompletes(env: Env, file: ProposalFile, sharePath: string, nonce: int) returns (joined: ProposalFile)
    requires env.Valid() && Accepts(env, file, sharePath, nonce)
    requires |file.signing.signers| + 1 == file.header.payload.threshold
    ensures OneMoreSigner(env, file, joined, sharePath, nonce) && Sign(env, file, sharePath, nonce) == Aggregate(env, joined)
  {
    hide Aggregate;
    var share := env.keyshares[sharePath];
    joined := Joined(file, SigningParticipant(share.index, sharePath, env.curve.Encode(nonce).value, nonce, None));
  }

  /** Everything else is refused, each for its own reason, and a complete proposal comes back as it is. */
  lemma SignRefusesExactly(env: Env, file: ProposalFile, sharePath: string, nonce: int)
    requires env.Valid()
    ensures var r, s, p := Sign(env, file, sharePath, nonce), file.signing, file.header.payload;
      && (s.status == Aggregated ==> r == Ok(file))
      && (s.status == Collecting ==>
          && (sharePath !in env.keyshares ==> r == Err(FileMissing(sharePath)))
          && (sharePath in env.keyshares ==>
              var share := env.keyshares[sharePath];
              && (p.groupFile !in env.groups ==> r == Err(FileMissing(p.groupFile)))
              && (p.groupFile in env.groups && share.paramsId != env.groups[p.groupFile].paramsId ==> r == Err(OtherSession(share.index)))
              && (p.groupFile in env.groups && share.paramsId == env.groups[p.groupFile].paramsId ==>
                  var repeated := share.index in Indexes(s.signers);
                  && (repeated ==> r == Err(AlreadySigned(share.index)))
                  && (!repeated && |s.signers| >= p.threshold ==> r == Err(AlreadyCollected))
                  && (!repeated && |s.signers| < p.threshold && !(0 < nonce < env.curve.q) ==> r == Err(Point(ScalarOutOfRange)))
                  && (!repeated && |s.signers| < p.threshold && 0 < nonce < env.curve.q ==> Accepts(env, file, sharePath, nonce)))))
  {
    hide Aggregate;
    if sharePath in env.keyshares {
      var index := env.keyshares[sharePath].index;
      assert index in Indexes(file.signing.signers) <==> exists i :: 0 <= i < |file.signing.signers| && file.signing.signers[i].index == index;
    }
  }

  // ----- what an aggregation writes

  /** The sum of the recorded shares. */
  function ShareTotal(signers: seq<SigningParticipant>): int
  {
    if signers == [] then 0
    else
      var last := signers[|signers| - 1].signatureShare;
      ShareTotal(signers[..|signers| - 1]) + if last.Some? then last.value else 0
  }

  lemma {:induction false} SharesAreFilled(env: Env, signers: seq<SigningParticipant>, negate: bool, challenge: int, k: nat)
    requires env.curve.q > 1 && k <= |signers| && SignShares(env, signers, negate, challenge, k).Ok?
    ensures var filled := SignShares(env, signers, negate, challenge, k).value.signers;
      forall i :: 0 <= i < k ==> filled[i].signatureShare.Some? && filled[i] == signers[i].(signatureShare := filled[i].signatureShare)
  {
    hide SignatureShare, Indexes;
    if k > 0 {
      SharesAreFilled(env, signers, negate, challenge, k - 1);
    }
  }

  lemma {:induction false} SharesAddUp(env: Env, signers: seq<SigningParticipant>, negate: bool, challenge: int, k: nat)
    requires env.curve.q > 1 && k <= |signers| && SignShares(env, signers, negate, challenge, k).Ok?
    ensures SignShares(env, signers, negate, challenge, k).value.z
         == ShareTotal(SignShares(env, signers, negate, challenge, k).value.signers) % env.curve.q
  {
    hide SignatureShare, Indexes;
    if k > 0 {
      hide *;
      SharesStep(env, signers, negate, challenge, k);
      SharesAddUp(env, signers, negate, challenge, k - 1);
      var before, p := SignShares(env, signers, negate, challenge, k - 1).value, SignShares(env, signers, negate, challenge, k).value;
      AddShare(ShareTotal(before.signers), ShareTotal(p.signers) - ShareTotal(before.signers), env.curve.q);
    }
  }

  lemma SharesStep(env: Env, signers: seq<SigningParticipant>, negate: bool, challenge: int, k: nat)
    requires env.curve.q > 1 && 0 < k <= |signers| && SignShares(env, signers, negate, challenge, k).Ok?
    ensures SignShares(env, signers, negate, challenge, k - 1).Ok?
    ensures var before, p := SignShares(env, signers, negate, challenge, k - 1).value, SignShares(env, signers, negate, challenge, k).value;
      p.z == (before.z + (ShareTotal(p.signers) - ShareTotal(before.signers))) % env.curve.q
  {
    hide SignatureShare, Indexes;
    var before, p := SignShares(env, signers, negate, challenge, k - 1).value, SignShares(env, signers, negate, challenge, k).value;
    assert p.signers[..k - 1] == before.signers;
  }

  lemma AddShare(total: int, share: int, q: int)
    requires q > 0
    ensures (total % q + share) % q == (total + share) % q
  {
    ModArith.CongReduce(total, q);
    ModArith.CongAdd(total % q, total, share, share, q);
  }

  /** A completed aggregation fills in every signer's share, stores their sum as z beside the nonce point,
      and changes nothing else of the proposal. */
  lemma AggregateRecords(env: Env, file: ProposalFile)
    requires env.Valid() && Aggregate(env, file).Ok?
    ensures var out, before := Aggregate(env, file).value, file.signing.signers;
      && out.header == file.header && out.execution == file.execution && out.signing.status == Aggregated
      && |out.signing.signers| == |before|
      && (forall i :: 0 <= i < |before| ==>
            && out.signing.signers[i].signatureShare.Some?
            && out.signing.signers[i] == before[i].(signatureShare := out.signing.signers[i].signatureShare))
      && out.signing.aggregateSignature.Some?
      && out.signing.aggregateNonce == Some(out.signing.aggregateSignature.value.nonce)
      && out.signing.aggregateSignature.value.z == ShareTotal(out.signing.signers) % env.curve.q
  {
    hide SignShares, NonceSum, CheckAggregate, ShareTotal;
    var signers := file.signing.signers;
    var rawKey := env.groups[file.header.payload.groupFile].thresholdPubkey;
    var nonceBytes := env.curve.Encode(NonceSum(env.curve, signers, |signers|).value).value;
    var challenge := env.challenge(nonceBytes, NormalizeSparkPublicKey(rawKey), file.header.proposalHash);
    SharesAreFilled(env, signers, rawKey.prefix == 3, challenge, |signers|);
    SharesAddUp(env, signers, rawKey.prefix == 3, challenge, |signers|);
  }

  // ----- when an aggregation is refused

  /** The sum of the points the nonce commitments stand for. */
  function PointTotal(c: Curve, signers: seq<SigningParticipant>): int
    requires c.q > 0
  {
    if signers == [] then 0
    else
      var last := c.Decode(signers[|signers| - 1].nonceCommitment);
      PointTotal(c, signers[..|signers| - 1]) + if last.Ok? then last.value else 0
  }

  predicate Opens(c: Curve, signer: SigningParticipant)
    requires c.q > 0
  {
    c.Decode(signer.nonceCommitment).Ok?
  }

  lemma {:induction false} NonceSumExactly(c: Curve, signers: seq<SigningParticipant>, k: nat)
    requires c.q > 0 && k <= |signers|
    ensures NonceSum(c, signers, k) ==
      if exists i :: 0 <= i < k && !Opens(c, signers[i]) then Err(Point(BadEncoding)) else Ok(PointTotal(c, signers[..k]) % c.q)
  {
    if k > 0 {
      NonceSumExactly(c, signers, k - 1);
      assert signers[..k][..k - 1] == signers[..k - 1];
      if Opens(c, signers[k - 1]) {
        AddShare(PointTotal(c, signers[..k - 1]), c.Decode(signers[k - 1].nonceCommitment).value, c.q);
      }
    }
  }

  /** The signer's share file is gone, or its index is another signer's index modulo the group order. */
  ghost predicate CannotShare(env: Env, signers: seq<SigningParticipant>, k: nat)
    requires env.curve.q > 1 && k < |signers|
  {
    signers[k].shareFile !in env.keyshares || Collides(Indexes(signers), signers[k].index, env.curve.q)
  }

  ghost predicate Collides(indexes: seq<int>, x: int, q: int)
    requires q > 0
  {
    exists o :: o in indexes && o != x && ModArith.Cong(x, o, q)
  }

  /** What one participant contributes: its nonce, and the challenge times its weighted share. */
  function ExactShare(env: Env, signers: seq<SigningParticipant>, negate: bool, challenge: int, i: nat): int
    requires env.curve.q > 1 && i < |signers| && signers[i].shareFile in env.keyshares
  {
    var raw, q := env.keyshares[signers[i].shareFile].secshare, env.curve.q;
    Blended(signers[i].nonceSecret, challenge, Lambda(signers[i].index, Indexes(signers), q), if negate then (-raw) % q else raw, q)
  }

  function Blended(nonce: int, challenge: int, weight: int, value: int, q: int): int
    requires q > 0
  {
    (nonce + challenge * weight * value) % q
  }

  lemma ShareIsBlended(nonce: int, challenge: int, weight: int, value: int, q: int)
    requires q > 0
    ensures ShareScalar(nonce, challenge, weight, value, q) == Blended(nonce, challenge, weight, value, q)
  {
  }

  lemma ShareIsExact(env: Env, signers: seq<SigningParticipant>, negate: bool, challenge: int, k: nat)
    requires env.Valid() && k < |signers|
    ensures var r := SignatureShare(env, signers[k], Indexes(signers), negate, challenge);
      if signers[k].shareFile !in env.keyshares then r == Err(FileMissing(signers[k].shareFile))
      else if CannotShare(env, signers, k) then r == Err(Scalar(Scalars.CannotInvertZero))
      else r == Ok(ExactShare(env, signers, negate, challenge, k))
  {
    LambdaExactly(signers[k].index, Indexes(signers), env.curve.q);
    hide Collides, LagrangeCoefficientAtZero, Lambda, ShareScalar, Blended;
    if signers[k].shareFile in env.keyshares {
      var raw, q := env.keyshares[signers[k].shareFile].secshare, env.curve.q;
      ShareIsBlended(signers[k].nonceSecret, challenge, Lambda(signers[k].index, Indexes(signers), q), if negate then (-raw) % q else raw, q);
    }
  }

  lemma LambdaExactly(x: int, xs: seq<int>, q: int)
    requires Fermat.Prime(q)
    ensures LagrangeCoefficientAtZero(x, xs, q)
      == if Collides(xs, x, q) then Err(Scalars.CannotInvertZero) else Ok(Lambda(x, xs, q))
  {
    LambdaFoldMeaning(1, x, Others(x, xs), q);
    LambdaFoldFails(1, x, Others(x, xs), q);
    hide LambdaFold;
  }

  lemma {:induction false} LambdaFoldFails(acc: int, x: int, others: seq<int>, q: int)
    requires q > 1
    ensures LambdaFold(acc, x, others, q).Err? ==> LambdaFold(acc, x, others, q) == Err(Scalars.CannotInvertZero)
    decreases others
  {
    if others != [] && (x - others[0]) % q != 0 {
      LambdaFoldFails((acc * ((-others[0]) % q) * Scalars.Inverse((x - others[0]) % q, q)) % q, x, others[1..], q);
    }
  }

  /** The first signer that cannot share decides the error. */
  lemma {:induction false} SharesFailAt(env: Env, signers: seq<SigningParticipant>, negate: bool, challenge: int, k: nat, n: nat)
    requires env.Valid() && k < n <= |signers| && CannotShare(env, signers, k)
    requires forall i :: 0 <= i < k ==> !CannotShare(env, signers, i)
    ensures SignShares(env, signers, negate, challenge, n)
      == Err(if signers[k].shareFile in env.keyshares then Scalar(Scalars.CannotInvertZero) else FileMissing(signers[k].shareFile))
    decreases n
  {
    hide SignatureShare, CannotShare, ExactShare;
    if k < n - 1 {
      SharesFailAt(env, signers, negate, challenge, k, n - 1);
    } else {
      SharesSucceed(env, signers, negate, challenge, k);
      ShareIsExact(env, signers, negate, challenge, k);
    }
  }

  function ExactTotal(env: Env, signers: seq<SigningParticipant>, negate: bool, challenge: int, k: nat): int
    requires env.curve.q > 1 && k <= |signers| && forall i :: 0 <= i < k ==> signers[i].shareFile in env.keyshares
  {
    if k == 0 then 0 else ExactTotal(env, signers, negate, challenge, k - 1) + ExactShare(env, signers, negate, challenge, k - 1)
  }

  /** Otherwise every signer's entry gets its exact share, and the running total is their sum. */
  lemma {:induction false} SharesSucceed(env: Env, signers: seq<SigningParticipant>, negate: bool, challenge: int, k: nat)
    requires env.Valid() && k <= |signers| && forall i :: 0 <= i < k ==> !CannotShare(env, signers, i)
    ensures forall i :: 0 <= i < k ==> signers[i].shareFile in env.keyshares
    ensures var r := SignShares(env, signers, negate, challenge, k);
      && r.Ok? && r.value.z == ExactTotal(env, signers, negate, challenge, k) % env.curve.q
      && forall i :: 0 <= i < k ==>
           r.value.signers[i] == signers[i].(signatureShare := Some(ExactShare(env, signers, negate, challenge, i)))
  {
    hide SignatureShare, ExactShare, CannotShare;
    if k > 0 {
      var share := TotalGrows(env, signers, negate, challenge, k);
      hide *;
      SharesSucceed(env, signers, negate, challenge, k - 1);
      SignersAfter(env, signers, negate, challenge, k);
      AddShare(ExactTotal(env, signers, negate, challenge, k - 1), share, env.curve.q);
    }
  }

  lemma TotalGrows(env: Env, signers: seq<SigningParticipant>, negate: bool, challenge: int, k: nat) returns (share: int)
    requires env.Valid() && 0 < k <= |signers| && forall i :: 0 <= i < k ==> !CannotShare(env, signers, i)
    ensures env.curve.q > 1 && forall i :: 0 <= i < k ==> signers[i].shareFile in env.keyshares
    ensures share == ExactShare(env, signers, negate, challenge, k - 1)
    ensures ExactTotal(env, signers, negate, challenge, k) == ExactTotal(env, signers, negate, challenge, k - 1) + share
  {
    hide ExactShare, Collides;
    forall i | 0 <= i < k ensures signers[i].shareFile in env.keyshares {
      assert !CannotShare(env, signers, i);
    }
    share := ExactShare(env, signers, negate, challenge, k - 1);
  }

  lemma SignersAfter(env: Env, signers: seq<SigningParticipant>, negate: bool, challenge: int, k: nat)
    requires env.Valid() && 0 < k <= |signers| && !CannotShare(env, signers, k - 1)
    requires SignShares(env, signers, negate, challenge, k - 1).Ok?
    ensures signers[k - 1].shareFile in env.keyshares
    ensures var before, share := SignShares(env, signers, negate, challenge, k - 1).value, ExactShare(env, signers, negate, challenge, k - 1);
      SignShares(env, signers, negate, challenge, k)
        == Ok(Partial(before.signers + [signers[k - 1].(signatureShare := Some(share))], (before.z + share) % env.curve.q))
  {
    hide SignatureShare, ExactShare, Collides, LagrangeCoefficientAtZero;
    ShareIsExact(env, signers, negate, challenge, k - 1);
  }

  /** The checks of the aggregate in the order they fail, and what is compared when none does. */
  lemma CheckReports(c: Curve, z: int, nonceSum: int, publicKey: PointBytes, challenge: int)
    requires c.Valid() && 0 <= z < c.q && 0 < nonceSum < c.q && 0 <= challenge < c.q
    ensures var r := CheckAggregate(c, z, nonceSum, publicKey, challenge);
      if z == 0 then r == Err(Point(ScalarOutOfRange))
      else if c.Decode(publicKey).Err? then r == Err(Point(BadEncoding))
      else if challenge == 0 then r == Err(Point(ScalarOutOfRange))
      else
        var right := (nonceSum + challenge * c.Decode(publicKey).value) % c.q;
        if right == 0 then r == Err(Point(PointAtInfinity)) else r == Ok(z == right)
  {
    if z != 0 && c.Decode(publicKey).Ok? && challenge != 0 {
      var p := c.Decode(publicKey).value;
      AddShare(p * challenge, nonceSum, c.q);
      var right := (nonceSum + challenge * p) % c.q;
      assert c.Add(nonceSum, c.Multiply(p, challenge).value) == right by {
        assert challenge * p == p * challenge;
      }
      c.DecodeEncode(z);
      if right != 0 {
        c.DecodeEncode(right);
      }
    }
  }

  /** Before anything is signed: no group, nobody to sign, a nonce commitment that is no point, or nonces
      that cancel out. Then the first signer that cannot share. */
  lemma AggregateRefuses(env: Env, file: ProposalFile, k: nat)
    requires env.Valid()
    ensures var c, signers, groupFile, r := env.curve, file.signing.signers, file.header.payload.groupFile, Aggregate(env, file);
      if groupFile !in env.groups then r == Err(FileMissing(groupFile))
      else if signers == [] then r == Err(NoSigners)
      else if exists i :: 0 <= i < |signers| && !Opens(c, signers[i]) then r == Err(Point(BadEncoding))
      else if PointTotal(c, signers) % c.q == 0 then r == Err(Point(PointAtInfinity))
      else k < |signers| && CannotShare(env, signers, k) && (forall i :: 0 <= i < k ==> !CannotShare(env, signers, i)) ==>
        r == Err(if signers[k].shareFile in env.keyshares then Scalar(Scalars.CannotInvertZero) else FileMissing(signers[k].shareFile))
  {
    var c, signers, groupFile := env.curve, file.signing.signers, file.header.payload.groupFile;
    hide NonceSum, SignShares, CheckAggregate, CannotShare, PointTotal, Opens;
    NonceSumExactly(c, signers, |signers|);
    assert signers[..|signers|] == signers;
    if groupFile in env.groups && k < |signers| && CannotShare(env, signers, k) && forall i :: 0 <= i < k ==> !CannotShare(env, signers, i) {
      var rawKey := env.groups[groupFile].thresholdPubkey;
      var nonceBytes := c.Encode(PointTotal(c, signers) % c.q);
      if nonceBytes.Ok? {
        SharesFailAt(env, signers, rawKey.prefix == 3,
          env.challenge(nonceBytes.value, NormalizeSparkPublicKey(rawKey), file.header.proposalHash), k, |signers|);
      }
    }
  }

  /** Nothing stands in the way of everybody's share. */
  ghost predicate AllCanShare(env: Env, file: ProposalFile)
    requires env.Valid()
  {
    var c, signers := env.curve, file.signing.signers;
    && file.header.payload.groupFile in env.groups && signers != []
    && (forall i :: 0 <= i < |signers| ==> Opens(c, signers[i]) && !CannotShare(env, signers, i))
    && PointTotal(c, signers) % c.q != 0
  }

  /** Once everybody can share, the aggregation ends as the Schnorr equation says: z is the sum of the exact
      shares, and it is compared with the nonce point plus the challenge times the even-y group key. */
  lemma AggregateDecides(env: Env, file: ProposalFile)
    requires env.Valid() && AllCanShare(env, file)
    ensures forall i :: 0 <= i < |file.signing.signers| ==> file.signing.signers[i].shareFile in env.keyshares
    ensures var c, signers, r := env.curve, file.signing.signers, Aggregate(env, file);
      var groupKey := env.groups[file.header.payload.groupFile].thresholdPubkey;
      var evenKey := groupKey.(prefix := if groupKey.prefix == 3 then 2 else groupKey.prefix);
      var nonceSum := PointTotal(c, signers) % c.q;
      var nonceBytes := c.Encode(nonceSum).value;
      var challenge := env.challenge(nonceBytes, evenKey, file.header.proposalHash);
      var z := ExactTotal(env, signers, groupKey.prefix == 3, challenge, |signers|) % c.q;
      if z == 0 then r == Err(Point(ScalarOutOfRange))
      else if c.Decode(evenKey).Err? then r == Err(Point(BadEncoding))
      else if challenge == 0 then r == Err(Point(ScalarOutOfRange))
      else
        var right := (nonceSum + challenge * c.Decode(evenKey).value) % c.q;
        if right == 0 then r == Err(Point(PointAtInfinity))
        else if z != right then r == Err(DidNotVerify)
        else r.Ok? && r.value.signing.aggregateSignature == Some(AggregateSignature(nonceBytes, z))
  {
    var c, signers := env.curve, file.signing.signers;
    hide NonceSum, SignShares, CheckAggregate, CannotShare, PointTotal, Opens, ExactTotal;
    NonceSumExactly(c, signers, |signers|);
    assert signers[..|signers|] == signers;
    var groupKey := env.groups[file.header.payload.groupFile].thresholdPubkey;
    var nonceSum := PointTotal(c, signers) % c.q;
    var challenge := env.challenge(c.Encode(nonceSum).value, NormalizeSparkPublicKey(groupKey), file.header.proposalHash);
    SharesSucceed(env, signers, groupKey.prefix == 3, challenge, |signers|);
    CheckReports(c, ExactTotal(env, signers, groupKey.prefix == 3, challenge, |signers|) % c.q, nonceSum, NormalizeSparkPublicKey(groupKey), challenge);
  }

  // ----- a whole ceremony

  /** Propose, then one sign process after the other with these share files and nonces. */
  function SigningRun(path: string, request: ProposalRequest, shares: seq<string>, nonces: seq<int>, k: nat): seq<Action>
    requires k <= |shares| == |nonces|
  {
    if k == 0 then [ProposeTo(path, request)]
    else SigningRun(path, request, shares, nonces, k - 1) + [StartSign(k - 1, path), FinishSign(k - 1, shares[k - 1], nonces[k - 1])]
  }

  /** As many share files of the group's key generation as its threshold, of different participants, and a
      nonce in range for each. */
  ghost predicate Eligible(env: Env, groupFile: string, shares: seq<string>, nonces: seq<int>)
    requires env.curve.q > 1
  {
    && groupFile in env.groups && |shares| == |nonces| == env.groups[groupFile].threshold >= 1
    && (forall i :: 0 <= i < |shares| ==>
          && shares[i] in env.keyshares && env.keyshares[shares[i]].paramsId == env.groups[groupFile].paramsId
          && 0 < nonces[i] < env.curve.q)
    && (forall i, j :: 0 <= i < j < |shares| && shares[i] in env.keyshares && shares[j] in env.keyshares ==>
          env.keyshares[shares[i]].index != env.keyshares[shares[j]].index)
  }

  /** The proposal with the first k signers, in order, and nothing else. */
  ghost predicate HoldsFirst(env: Env, request: ProposalRequest, shares: seq<string>, nonces: seq<int>, k: nat, file: ProposalFile)
    requires env.curve.q > 1 && k <= |shares| == |nonces|
  {
    && Propose(env, request).Ok? && file.header == Propose(env, request).value.header && file.execution.None?
    && file.signing == Signing(Collecting, file.signing.signers, None, None)
    && |file.signing.signers| == k
    && forall i :: 0 <= i < k ==> MadeFrom(env, file.signing.signers[i], shares[i], nonces[i])
  }

  lemma RunTwo(env: Env, actions: seq<Action>, a: Action, b: Action)
    requires env.curve.q > 1
    ensures Run(env, actions + [a, b]) == Next(env, Next(env, Run(env, actions), a), b)
  {
    var all := actions + [a, b];
    assert all[..|all| - 1] == actions + [a] && (actions + [a])[..|actions|] == actions;
    hide Next;
  }

  lemma OneSignProcess(env: Env, path: string, file: ProposalFile, pid: nat, sharePath: string, nonce: int)
    requires env.curve.q > 1 && file.signing.status == Collecting
    ensures var s' := Next(env, Next(env, State(map[path := file], map[]), StartSign(pid, path)), FinishSign(pid, sharePath, nonce));
      s' == State(map[path := if Sign(env, file, sharePath, nonce).Ok? then Sign(env, file, sharePath, nonce).value else file], map[])
  {
    hide Sign;
    var s := State(map[path := file], map[]);
    var started := Next(env, s, StartSign(pid, path));
    assert started.processes - {pid} == map[];
  }

  lemma HoldsAccepts(env: Env, request: ProposalRequest, shares: seq<string>, nonces: seq<int>, k: nat, file: ProposalFile)
    requires env.Valid() && Eligible(env, request.groupFile, shares, nonces) && k < |shares|
    requires HoldsFirst(env, request, shares, nonces, k, file)
    ensures Accepts(env, file, shares[k], nonces[k]) && file.header.payload.threshold == |shares|
    ensures file.header.payload.groupFile == request.groupFile
  {
  }

  lemma HoldsOneMore(env: Env, request: ProposalRequest, shares: seq<string>, nonces: seq<int>, k: nat, file: ProposalFile, out: ProposalFile)
    requires env.curve.q > 1 && k < |shares| == |nonces| && HoldsFirst(env, request, shares, nonces, k, file)
    requires OneMoreSigner(env, file, out, shares[k], nonces[k])
    ensures HoldsFirst(env, request, shares, nonces, k + 1, out)
  {
    hide MadeFrom, Propose;
    forall i | 0 <= i < k ensures out.signing.signers[i] == file.signing.signers[i] {
      assert out.signing.signers[..k][i] == file.signing.signers[i];
    }
  }

  /** Short of the threshold, the proposal on disk holds exactly the participants that have signed. */
  lemma {:induction false} RunCollects(env: Env, path: string, request: ProposalRequest, shares: seq<string>, nonces: seq<int>, k: nat)
      returns (file: ProposalFile)
    requires env.Valid() && Eligible(env, request.groupFile, shares, nonces) && k < |shares|
    ensures Run(env, SigningRun(path, request, shares, nonces, k)) == State(map[path := file], map[])
    ensures HoldsFirst(env, request, shares, nonces, k, file)
  {
    if k == 0 {
      file := Propose(env, request).value;
      assert [ProposeTo(path, request)][..0] == [];
      assert Run(env, []) == State(map[], map[]);
    } else {
      var before := RunCollects(env, path, request, shares, nonces, k - 1);
      RunTwo(env, SigningRun(path, request, shares, nonces, k - 1), StartSign(k - 1, path), FinishSign(k - 1, shares[k - 1], nonces[k - 1]));
      OneSignProcess(env, path, before, k - 1, shares[k - 1], nonces[k - 1]);
      HoldsAccepts(env, request, shares, nonces, k - 1, before);
      SignRecords(env, before, shares[k - 1], nonces[k - 1]);
      file := Sign(env, before, shares[k - 1], nonces[k - 1]).value;
      HoldsOneMore(env, request, shares, nonces, k - 1, before, file);
      hide *;
    }
  }

  function Total(values: seq<int>): int
  {
    if values == [] then 0 else Total(values[..|values| - 1]) + values[|values| - 1]
  }

  lemma {:induction false} NoncesAreTotal(env: Env, signers: seq<SigningParticipant>, nonces: seq<int>, k: nat)
    requires k <= |signers| == |nonces| && forall i :: 0 <= i < |signers| ==> signers[i].nonceSecret == nonces[i]
    ensures SecretNonces(signers, k) == Total(nonces[..k])
  {
    if k > 0 {
      NoncesAreTotal(env, signers, nonces, k - 1);
      assert nonces[..k][..k - 1] == nonces[..k - 1];
    }
  }

  lemma HoldsAllIsCollected(env: Env, request: ProposalRequest, shares: seq<string>, nonces: seq<int>, joined: ProposalFile)
    requires env.Valid() && Eligible(env, request.groupFile, shares, nonces)
    requires HoldsFirst(env, request, shares, nonces, |shares|, joined)
    ensures Collected(env, joined) && |joined.signing.signers| == joined.header.payload.threshold
    ensures SecretNonces(joined.signing.signers, |joined.signing.signers|) == Total(nonces)
    ensures |Indexes(joined.signing.signers)| == |shares|
    ensures forall i :: 0 <= i < |shares| ==> Indexes(joined.signing.signers)[i] == env.keyshares[shares[i]].index
  {
    var signers := joined.signing.signers;
    forall i | 0 <= i < |shares|
      ensures signers[i].nonceSecret == nonces[i] && signers[i].index == env.keyshares[shares[i]].index
      ensures FromShareFile(env, request.groupFile, signers[i])
    {
      assert MadeFrom(env, signers[i], shares[i], nonces[i]);
    }
    hide FromShareFile, MadeFrom, SecretNonces, Total;
    NoncesAreTotal(env, signers, nonces, |nonces|);
    assert nonces[..|nonces|] == nonces;
  }

  /** The last sign process aggregates the whole list, or leaves the proposal as the one before left it. */
  lemma RunEnds(env: Env, path: string, request: ProposalRequest, shares: seq<string>, nonces: seq<int>)
      returns (before: ProposalFile, joined: ProposalFile)
    requires env.Valid() && Eligible(env, request.groupFile, shares, nonces)
    ensures HoldsFirst(env, request, shares, nonces, |shares| - 1, before) && HoldsFirst(env, request, shares, nonces, |shares|, joined)
    ensures Run(env, SigningRun(path, request, shares, nonces, |shares|))
         == State(map[path := if Aggregate(env, joined).Ok? then Aggregate(env, joined).value else before], map[])
  {
    var k := |shares| - 1;
    hide Run, Next, Aggregate, Sign, MadeFrom, Propose, Accepts, OneMoreSigner;
    before := RunCollects(env, path, request, shares, nonces, k);
    HoldsAccepts(env, request, shares, nonces, k, before);
    joined := SignCompletes(env, before, shares[k], nonces[k]);
    HoldsOneMore(env, request, shares, nonces, k, before, joined);
    RunTwo(env, SigningRun(path, request, shares, nonces, k), StartSign(k, path), FinishSign(k, shares[k], nonces[k]));
    OneSignProcess(env, path, before, k, shares[k], nonces[k]);
    assert SigningRun(path, request, shares, nonces, |shares|)
      == SigningRun(path, request, shares, nonces, k) + [StartSign(k, path), FinishSign(k, shares[k], nonces[k])];
    hide *;
  }

  /** The signature these participants would produce together. */
  ghost function ExpectedSignature(env: Env, request: ProposalRequest, f: Poly, nonces: seq<int>): (r: (int, int, int))
    requires env.Valid() && Propose(env, request).Ok?
  {
    var c, header := env.curve, Propose(env, request).value.header;
    var nonceSum := Total(nonces) % c.q;
    if nonceSum == 0 then (0, 0, 0) else
    var challenge := env.challenge(c.Encode(nonceSum).value, header.payload.dkgThresholdPublicKey, header.proposalHash);
    (nonceSum, challenge, (nonceSum + challenge * ThresholdSigner.EvenSecret(c, f)) % c.q)
  }

  /** After a proposal and a threshold of sign processes with honest shares of different participants the
      proposal on disk is aggregated, holds those participants in order and carries the signature that the
      nonces and the group's secret determine, exactly when the nonce sum, the challenge and z are all
      non-zero; otherwise the last process fails and the proposal still holds the others. */
  lemma CeremonyCompletesExactly(
      env: Env, path: string, request: ProposalRequest, shares: seq<string>, nonces: seq<int>, f: Poly)
    requires env.Valid() && Eligible(env, request.groupFile, shares, nonces) && HonestGroup(env, request.groupFile, f)
    ensures var s := Run(env, SigningRun(path, request, shares, nonces, |shares|));
      var (nonceSum, challenge, z) := ExpectedSignature(env, request, f, nonces);
      && path in s.disk && s.processes == map[]
      && var file := s.disk[path];
      if nonceSum != 0 && challenge != 0 && z != 0 then
        && file.signing.status == Aggregated
        && |file.signing.signers| == |shares|
        && (forall i :: 0 <= i < |shares| ==> file.signing.signers[i].index == env.keyshares[shares[i]].index)
        && file.signing.aggregateSignature == Some(AggregateSignature(env.curve.Encode(nonceSum).value, z))
      else HoldsFirst(env, request, shares, nonces, |shares| - 1, file)
  {
    var before, joined := RunEnds(env, path, request, shares, nonces);
    LastAggregates(env, request, shares, nonces, f, joined);
    hide *;
  }

  lemma LastAggregates(env: Env, request: ProposalRequest, shares: seq<string>, nonces: seq<int>, f: Poly, joined: ProposalFile)
    requires env.Valid() && Eligible(env, request.groupFile, shares, nonces) && HonestGroup(env, request.groupFile, f)
    requires HoldsFirst(env, request, shares, nonces, |shares|, joined)
    ensures var (nonceSum, challenge, z) := ExpectedSignature(env, request, f, nonces);
      var r := Aggregate(env, joined);
      && (r.Ok? <==> nonceSum != 0 && challenge != 0 && z != 0)
      && (r.Ok? ==>
          && r.value.signing.status == Aggregated && |r.value.signing.signers| == |shares|
          && (forall i :: 0 <= i < |shares| ==> r.value.signing.signers[i].index == env.keyshares[shares[i]].index)
          && r.value.signing.aggregateSignature == Some(AggregateSignature(env.curve.Encode(nonceSum).value, z)))
  {
    assert env.curve.q > 1;
    hide *;
    SignsAsExpected(env, request, shares, nonces, f, joined);
    if Aggregate(env, joined).Ok? {
      RecordsTheSigners(env, request, shares, nonces, joined);
    }
  }

  lemma SignsAsExpected(env: Env, request: ProposalRequest, shares: seq<string>, nonces: seq<int>, f: Poly, joined: ProposalFile)
    requires env.Valid() && Eligible(env, request.groupFile, shares, nonces) && HonestGroup(env, request.groupFile, f)
    requires HoldsFirst(env, request, shares, nonces, |shares|, joined)
    ensures var (nonceSum, challenge, z) := ExpectedSignature(env, request, f, nonces);
      var r := Aggregate(env, joined);
      && (r.Ok? <==> nonceSum != 0 && challenge != 0 && z != 0)
      && (r.Ok? ==> r.value.signing.aggregateSignature == Some(AggregateSignature(env.curve.Encode(nonceSum).value, z)))
  {
    HoldsAllIsCollected(env, request, shares, nonces, joined);
    assert joined.header.payload.groupFile == request.groupFile;
    hide Aggregate, Collected, SecretNonces, Total, HonestGroup, Eligible, ThresholdSigner.EvenSecret;
    HonestSharesAggregate(env, joined, f);
  }

  lemma RecordsTheSigners(env: Env, request: ProposalRequest, shares: seq<string>, nonces: seq<int>, joined: ProposalFile)
    requires env.Valid() && Eligible(env, request.groupFile, shares, nonces) && Aggregate(env, joined).Ok?
    requires HoldsFirst(env, request, shares, nonces, |shares|, joined)
    ensures var out := Aggregate(env, joined).value.signing;
      && out.status == Aggregated && |out.signers| == |shares|
      && forall i :: 0 <= i < |shares| ==> out.signers[i].index == env.keyshares[shares[i]].index
  {
    HoldsAllIsCollected(env, request, shares, nonces, joined);
    hide Aggregate, Collected, SecretNonces, Total, ShareTotal, Eligible;
    AggregateRecords(env, joined);
    var signers := joined.signing.signers;
    forall i | 0 <= i < |shares|
      ensures Aggregate(env, joined).value.signing.signers[i].index == env.keyshares[shares[i]].index
    {
      assert Indexes(signers)[i] == signers[i].index;
    }
  }

  // ----- what the processes may do

  /** A proposal replaces whatever its file held, and touches nothing else. */
  lemma ProposalIsWritten(env: Env, s: State, path: string, request: ProposalRequest)
    requires env.curve.q > 1
    ensures var s' := Next(env, s, ProposeTo(path, request));
      && s'.processes == s.processes
      && if request.groupFile in env.groups
         then Propose(env, request).Ok? && s'.disk == s.disk[path := Propose(env, request).value] else s'.disk == s.disk
  {
  }

  /** A process that stops leaves every file, and every other process, as it was. */
  lemma ProcessEnds(env: Env, s: State, pid: nat, other: nat)
    requires env.curve.q > 1 && other != pid
    ensures var s' := Next(env, s, EndProcess(pid));
      && s'.disk == s.disk && pid !in s'.processes
      && (other in s'.processes <==> other in s.processes) && (other in s.processes ==> s'.processes[other] == s.processes[other])
  {
  }

  /** A sign process that ends writes its result where it read, if there is a new one, and nothing otherwise. */
  lemma FinishSignWrites(env: Env, s: State, pid: nat, sharePath: string, nonce: int)
    requires env.curve.q > 1 && pid in s.processes && s.processes[pid].SignProcess?
    ensures var p, s' := s.processes[pid], Next(env, s, FinishSign(pid, sharePath, nonce));
      var r := Sign(env, p.file, sharePath, nonce);
      && s'.processes == s.processes - {pid}
      && (r.Err? || p.file.signing.status == Aggregated ==> s'.disk == s.disk)
      && (r.Ok? && p.file.signing.status == Collecting ==> s'.disk == s.disk[p.path := r.value])
  {
    hide Sign;
  }

  /** Only the execution of the file differs. */
  ghost predicate SameProposal(file: ProposalFile, out: ProposalFile)
  {
    out.header == file.header && out.signing == file.signing
  }

  /** A claim is recorded once, with its transaction, and the file is written; a second one is not. */
  lemma ClaimIsRecordedOnce(env: Env, s: State, pid: nat, txid: string, claim: string)
    requires env.curve.q > 1 && pid in s.processes && s.processes[pid].ExecuteProcess?
    ensures var p, s' := s.processes[pid], Next(env, s, RecordClaim(pid, txid, claim));
      if p.file.execution.Some? && p.file.execution.value.claim.Some? then s' == s
      else
        && s'.processes.Keys == s.processes.Keys && (forall other :: other in s.processes && other != pid ==> s'.processes[other] == s.processes[other])
        && var file := s'.processes[pid].file;
        && s'.processes[pid] == ExecuteProcess(p.path, file) && s'.disk == s.disk[p.path := file]
        && SameProposal(p.file, file) && file.execution.Some?
        && file.execution.value.claim == Some(claim) && file.execution.value.faucetTxid == Some(txid)
        && file.execution.value.result == if p.file.execution.Some? then p.file.execution.value.result else None
  {
  }

  /** The same for the payment. */
  lemma ResultIsRecordedOnce(env: Env, s: State, pid: nat, outcome: string)
    requires env.curve.q > 1 && pid in s.processes && s.processes[pid].ExecuteProcess?
    ensures var p, s' := s.processes[pid], Next(env, s, RecordResult(pid, outcome));
      if p.file.execution.Some? && p.file.execution.value.result.Some? then s' == s
      else
        && s'.processes.Keys == s.processes.Keys && (forall other :: other in s.processes && other != pid ==> s'.processes[other] == s.processes[other])
        && var file := s'.processes[pid].file;
        && s'.processes[pid] == ExecuteProcess(p.path, file) && s'.disk == s.disk[p.path := file]
        && SameProposal(p.file, file) && file.execution.Some?
        && file.execution.value.result == Some(outcome)
        && (p.file.execution.Some? ==>
              && file.execution.value.claim == p.file.execution.value.claim
              && file.execution.value.faucetTxid == p.file.execution.value.faucetTxid)
  {
  }

  /** Who executes has read a proposal that was aggregated. */
  ghost predicate ExecutesAggregated(s: State)
  {
    forall pid :: pid in s.processes && s.processes[pid].ExecuteProcess? ==> s.processes[pid].file.signing.status == Aggregated
  }

  lemma NextExecutesAggregated(env: Env, s: State, a: Action)
    requires env.curve.q > 1 && ExecutesAggregated(s)
    ensures ExecutesAggregated(Next(env, s, a))
  {
    hide Sign, Propose;
  }

  /** Over every interleaving: an executing process holds a proposal with a verifying signature of a
      threshold of different participants. */
  lemma OnlyAggregatedExecutes(env: Env, actions: seq<Action>, pid: nat)
    requires env.Valid() && PositiveThresholds(env)
    requires pid in Run(env, actions).processes && Run(env, actions).processes[pid].ExecuteProcess?
    ensures var file := Run(env, actions).processes[pid].file;
      file.signing.status == Aggregated && Verifies(env, file) && Distinct(Indexes(file.signing.signers))
      && |file.signing.signers| == file.header.payload.threshold
  {
    RunExecutesAggregated(env, actions);
    EveryRunIsGood(env, actions);
    hide Run, Verifies, Distinct;
  }

  lemma {:induction false} RunExecutesAggregated(env: Env, actions: seq<Action>)
    requires env.curve.q > 1
    ensures ExecutesAggregated(Run(env, actions))
    decreases |actions|
  {
    hide Next;
    if actions != [] {
      RunExecutesAggregated(env, actions[..|actions| - 1]);
      NextExecutesAggregated(env, Run(env, actions[..|actions| - 1]), actions[|actions| - 1]);
    }
  }

  /** A process starts with the file on disk under a number of its own: to sign any proposal, to execute
      only an aggregated one. */
  lemma StartsExactly(env: Env, s: State, pid: nat, path: string)
    requires env.curve.q > 1
    ensures var s' := Next(env, s, StartSign(pid, path));
      if path in s.disk && pid !in s.processes then s' == State(s.disk, s.processes[pid := SignProcess(path, s.disk[path])]) else s' == s
    ensures var s' := Next(env, s, StartExecute(pid, path));
      if path in s.disk && pid !in s.processes && s.disk[path].signing.status == Aggregated
      then s' == State(s.disk, s.processes[pid := ExecuteProcess(path, s.disk[path])]) else s' == s
  {
  }
}
