/** Threshold signing of Spark leaf messages with Shamir shares of the user's key. */
module ThresholdSigner {
  import opened CurveGroup
  import opened Fermat
  import opened Lagrange
  import opened ModArith
  import opened Outcomes
  import opened Polynomials
  import opened Scalars

  type Bytes = seq<int>

  datatype SignerError =
    | WrongIndexBase
    | WrongSignerCount
    | MissingShare(index: int)
    | ShareFailedPublicCheck(index: int)
    | MissingNonce
    | Point(point: PointError)
    | Scalar(scalar: ScalarError)

  datatype DkgShare = DkgShare(index: int, value: int)

  datatype ParticipantOutput = ParticipantOutput(index: int, secshare: Option<int>, pubshares: seq<PointBytes>)

  datatype Artifact = Artifact(
    threshold: int, participantIndexBase: int, thresholdPubkey: PointBytes, outputs: seq<ParticipantOutput>)

  // ----- loading the shares

  function FindOutput(outputs: seq<ParticipantOutput>, index: int): Option<ParticipantOutput>
  {
    if outputs == [] then None
    else if outputs[0].index == index then Some(outputs[0])
    else FindOutput(outputs[1..], index)
  }

  function SelectShare(c: Curve, artifact: Artifact, index: int, negate: bool): Result<DkgShare, SignerError>
    requires c.q > 0
  {
    match FindOutput(artifact.outputs, index)
    case None => Err(MissingShare(index))
    case Some(output) =>
      if output.secshare.None? then Err(MissingShare(index)) else
      var raw := output.secshare.value;
      match c.MultiplyBase(raw)
      case Err(e) => Err(Point(e))
      case Ok(p) =>
        match c.Encode(p)
        case Err(e) => Err(Point(e))
        case Ok(actual) =>
          if 0 <= index - 1 < |output.pubshares| && output.pubshares[index - 1] != actual
          then Err(ShareFailedPublicCheck(index))
          else Ok(DkgShare(index, if negate then (-raw) % c.q else raw))
  }

  function SelectedShares(c: Curve, artifact: Artifact, selected: seq<int>, negate: bool): Result<seq<DkgShare>, SignerError>
    requires c.q > 0
  {
    if selected == [] then Ok([]) else
    var head :- SelectShare(c, artifact, selected[0], negate);
    var tail :- SelectedShares(c, artifact, selected[1..], negate);
    Ok([head] + tail)
  }

  datatype SignerParts = SignerParts(publicKey: PointBytes, shares: seq<DkgShare>)

  /** `createChillDkgSparkSigner`: note that repeated indexes are not rejected here. */
  function CreateSignerParts(c: Curve, artifact: Artifact, selected: seq<int>): Result<SignerParts, SignerError>
    requires c.q > 0
  {
    if artifact.participantIndexBase != 1 then Err(WrongIndexBase)
    else if |selected| != artifact.threshold then Err(WrongSignerCount)
    else
      var negate := artifact.thresholdPubkey.prefix == 3;
      var shares :- SelectedShares(c, artifact, selected, negate);
      Ok(SignerParts(if negate then artifact.thresholdPubkey.(prefix := 2) else artifact.thresholdPubkey, shares))
  }

  // ----- signing

  /** Everything `sparkFrost.signFrost` is given besides the secret key. */
  datatype FrostRequest = FrostRequest(
    message: Bytes, nonce: Nonce, selfCommitment: Commitment, statechain: Bytes,
    adaptorPubKey: Option<Bytes>, publicKey: PointBytes, verifyingKey: Bytes)

  datatype Nonce = Nonce(hiding: int, binding: int)
  datatype Commitment = Commitment(hiding: Bytes, binding: Bytes)

  datatype SignParams = SignParams(
    path: string, message: Bytes, selfCommitment: Commitment, statechain: Bytes,
    adaptorPubKey: Option<Bytes>, verifyingKey: Bytes)

  /** The foreign signing and commitment functions, and SHA-256 of a leaf path reduced to a scalar. */
  datatype Crypto = Crypto(frost: (FrostRequest, int) -> int, commit: Nonce -> Commitment, leafTweak: string -> int)

  ghost predicate AffineWith(frost: (FrostRequest, int) -> int, req: FrostRequest, a: int, b: int, q: int)
    requires q > 0
  {
    forall s :: frost(req, s) == (a + b * s) % q
  }

  ghost predicate AffineFor(frost: (FrostRequest, int) -> int, req: FrostRequest, q: int)
    requires q > 0
  {
    exists a, b :: AffineWith(frost, req, a, b, q)
  }

  /** With everything but the secret fixed, the signature share is an affine function of the secret. */
  ghost predicate Affine(frost: (FrostRequest, int) -> int, q: int)
    requires q > 0
  {
    forall req :: AffineFor(frost, req, q)
  }

  ghost predicate ValidCrypto(crypto: Crypto, q: int)
    requires q > 0
  {
    Affine(crypto.frost, q) && forall p :: 0 <= crypto.leafTweak(p) < q
  }

  /** `deriveDkgLeafPublicKey` */
  function DeriveLeafPublicKey(c: Curve, base: PointBytes, tweak: int): Result<PointBytes, PointError>
    requires c.q > 0
  {
    if tweak == 0 then Ok(base) else
    var p :- c.Decode(base);
    var t :- c.MultiplyBase(tweak);
    c.Encode(c.Add(p, t))
  }

  function Indexes(shares: seq<DkgShare>): (r: seq<int>)
    ensures |r| == |shares| && forall i :: 0 <= i < |r| ==> r[i] == shares[i].index
  {
    seq(|shares|, i requires 0 <= i < |shares| => shares[i].index)
  }

  function ShareValues(shares: seq<DkgShare>): (r: seq<int>)
    ensures |r| == |shares| && forall i :: 0 <= i < |r| ==> r[i] == shares[i].value
  {
    seq(|shares|, i requires 0 <= i < |shares| => shares[i].value)
  }

  /** The participants' contribution: a running sum of reduced partials over the first k shares. */
  function Contribution(shares: seq<DkgShare>, challenge: int, q: int, k: nat): Result<int, SignerError>
    requires q > 1 && k <= |shares|
  {
    if k == 0 then Ok(0) else
    var sum :- Contribution(shares, challenge, q, k - 1);
    match LagrangeCoefficientAtZero(shares[k - 1].index, Indexes(shares), q)
    case Err(e) => Err(Scalar(e))
    case Ok(weight) => Ok((sum + (challenge * weight * shares[k - 1].value) % q) % q)
  }

  function MakeRequest(params: SignParams, nonce: Nonce, leafPublicKey: PointBytes): FrostRequest
  {
    FrostRequest(params.message, nonce, params.selfCommitment, params.statechain,
                 params.adaptorPubKey, leafPublicKey, params.verifyingKey)
  }

  /** The last line of the combination: what the nonces contribute, the participants and the tweak. */
  function Assembled(nonceOnly: int, sum: int, challenge: int, tweak: int, q: int): int
    requires q > 0
  {
    (nonceOnly + sum + (challenge * tweak) % q) % q
  }

  /** The share that the two probes with secrets 1 and 2, the participants and the tweak add up to. */
  function CombineShare(c: Curve, crypto: Crypto, req: FrostRequest, shares: seq<DkgShare>, tweak: int): Result<int, SignerError>
    requires c.q > 1
  {
    var z1, z2 := crypto.frost(req, 1), crypto.frost(req, 2);
    var challenge := (z2 - z1) % c.q;
    var nonceOnly := (z1 - challenge) % c.q;
    var sum :- Contribution(shares, challenge, c.q, |shares|);
    Ok(Assembled(nonceOnly, sum, challenge, tweak, c.q))
  }

  /** What `signFrost` returns for a leaf, as a function of the signer's parts and its nonce table. */
  function SignLeaf(c: Curve, crypto: Crypto, parts: SignerParts, nonces: map<Commitment, Nonce>, params: SignParams): Result<int, SignerError>
    requires c.q > 1
  {
    var tweak := crypto.leafTweak(params.path);
    match DeriveLeafPublicKey(c, parts.publicKey, tweak)
    case Err(e) => Err(Point(e))
    case Ok(leafKey) =>
      if params.selfCommitment !in nonces then Err(MissingNonce) else
      CombineShare(c, crypto, MakeRequest(params, nonces[params.selfCommitment], leafKey), parts.shares, tweak)
  }

  /** The signer's key and shares are those of this secret. */
  ghost predicate HoldsSecret(c: Curve, parts: SignerParts, secret: int)
    requires c.q > 1
  {
    && 0 < secret < c.q && c.Encode(secret) == Ok(parts.publicKey)
    && Separated(Indexes(parts.shares), c.q)
    && Cong(WeightedSum(Indexes(parts.shares), ShareValues(parts.shares), c.q, |parts.shares|), secret, c.q)
  }

  /** What whoever held the leaf's single secret would return: the identity has no key, an unknown
      commitment no nonce, and otherwise the foreign signer is called once, with that secret, for the
      caller's message, commitment, statechain commitments and adaptor key, the remembered nonce, and the
      leaf's own public key. */
  ghost predicate SignsDirectly(
      c: Curve, crypto: Crypto, secret: int, nonces: map<Commitment, Nonce>, params: SignParams, r: Result<int, SignerError>)
    requires c.q > 1
  {
    var leafSecret := (secret + crypto.leafTweak(params.path)) % c.q;
    if leafSecret == 0 then r == Err(Point(PointAtInfinity))
    else if params.selfCommitment !in nonces then r == Err(MissingNonce)
    else
      r == Ok(crypto.frost(
        FrostRequest(
          message := params.message, nonce := nonces[params.selfCommitment], selfCommitment := params.selfCommitment,
          statechain := params.statechain, adaptorPubKey := params.adaptorPubKey,
          publicKey := c.Encode(leafSecret).value, verifyingKey := params.verifyingKey),
        leafSecret))
  }

  class ChillDkgSparkSigner {
    const curve: Curve
    const crypto: Crypto
    const publicKey: PointBytes
    const shares: seq<DkgShare>
    var thresholdNonceStates: map<Commitment, Nonce>

    /** Every remembered nonce commits to the commitment it is remembered under. */
    ghost predicate Valid()
      reads this
    {
      && curve.Valid() && ValidCrypto(crypto, curve.q)
      && forall commitment :: commitment in thresholdNonceStates ==> crypto.commit(thresholdNonceStates[commitment]) == commitment
    }

    constructor (curve: Curve, crypto: Crypto, parts: SignerParts)
      requires curve.Valid() && ValidCrypto(crypto, curve.q)
      ensures Valid() && this.curve == curve && this.crypto == crypto
      ensures publicKey == parts.publicKey && shares == parts.shares && thresholdNonceStates == map[]
    {
      this.curve := curve;
      this.crypto := crypto;
      publicKey := parts.publicKey;
      shares := parts.shares;
      thresholdNonceStates := map[];
    }

    /** The random nonce is an input; its commitment is handed out and the nonce remembered for it. */
    method GetRandomSigningCommitment(nonce: Nonce) returns (commitment: Commitment)
      requires Valid()
      modifies this
      ensures Valid() && commitment == crypto.commit(nonce)
      ensures thresholdNonceStates == old(thresholdNonceStates)[commitment := nonce]
    {
      commitment := crypto.commit(nonce);
      thresholdNonceStates := thresholdNonceStates[commitment := nonce];
    }

    /** Looks a commitment up here, and otherwise gives the inherited answer. */
    method GetNonceForSelfCommitment(selfCommitment: Commitment, inherited: Option<Nonce>) returns (r: Option<Nonce>)
      requires Valid()
      ensures selfCommitment in thresholdNonceStates ==> r.Some? && crypto.commit(r.value) == selfCommitment
      ensures selfCommitment !in thresholdNonceStates ==> r == inherited
    {
      if selfCommitment in thresholdNonceStates {
        return Some(thresholdNonceStates[selfCommitment]);
      }
      return inherited;
    }

    method SignFrost(params: SignParams) returns (r: Result<int, SignerError>)
      requires Valid()
      ensures r == SignLeaf(curve, crypto, SignerParts(publicKey, shares), thresholdNonceStates, params)
      ensures forall secret :: HoldsSecret(curve, SignerParts(publicKey, shares), secret) ==>
        SignsDirectly(curve, crypto, secret, thresholdNonceStates, params, r)
    {
      hide HoldsSecret, SignsDirectly, ValidCrypto;
      forall secret | HoldsSecret(curve, SignerParts(publicKey, shares), secret)
        ensures SignsDirectly(curve, crypto, secret, thresholdNonceStates, params,
                              SignLeaf(curve, crypto, SignerParts(publicKey, shares), thresholdNonceStates, params))
      {
        HeldSecretSignsDirectly(curve, crypto, SignerParts(publicKey, shares), secret, thresholdNonceStates, params);
      }
      var tweak := crypto.leafTweak(params.path);
      var leafKey := DeriveLeafPublicKey(curve, publicKey, tweak);
      if leafKey.Err? {
        return Err(Point(leafKey.error));
      }
      if params.selfCommitment !in thresholdNonceStates {
        return Err(MissingNonce);
      }
      var request := MakeRequest(params, thresholdNonceStates[params.selfCommitment], leafKey.value);
      r := CombineShare(curve, crypto, request, shares, tweak);
    }
  }

  // ----- what honest key generation provides

  /** Key generation with threshold t gave every participant its value of one polynomial f with
      t coefficients, published the matching points, and f(0)*G is the group key. */
  ghost predicate HonestDkg(c: Curve, artifact: Artifact, f: Poly)
    requires c.q > 0
  {
    && artifact.participantIndexBase == 1
    && |f| == artifact.threshold
    && Eval(f, 0) % c.q != 0
    && c.Encode(Eval(f, 0) % c.q) == Ok(artifact.thresholdPubkey)
    && forall i :: 0 <= i < |artifact.outputs| ==> HonestOutput(c, artifact.outputs[i], f)
  }

  ghost predicate HonestOutput(c: Curve, output: ParticipantOutput, f: Poly)
    requires c.q > 0
  {
    && 1 <= output.index < c.q
    && Eval(f, output.index) % c.q != 0
    && output.secshare == Some(Eval(f, output.index) % c.q)
    && output.index <= |output.pubshares|
    && c.Encode(Eval(f, output.index) % c.q) == Ok(output.pubshares[output.index - 1])
  }

  ghost predicate Participates(artifact: Artifact, index: int)
  {
    exists i :: 0 <= i < |artifact.outputs| && artifact.outputs[i].index == index
  }

  /** The secret behind the normalised key: f(0), or its negation when f(0)*G has an odd y. */
  ghost function EvenSecret(c: Curve, f: Poly): int
    requires c.q > 0
  {
    c.EvenY(Eval(f, 0) % c.q)
  }

  // ----- proofs

  lemma {:induction false} FindOutputFinds(outputs: seq<ParticipantOutput>, index: int)
    requires exists i :: 0 <= i < |outputs| && outputs[i].index == index
    ensures FindOutput(outputs, index).Some? && FindOutput(outputs, index).value.index == index
    ensures FindOutput(outputs, index).value in outputs
  {
    if outputs[0].index != index {
      FindOutputFinds(outputs[1..], index);
    }
  }

  lemma HonestShareSelected(c: Curve, artifact: Artifact, f: Poly, index: int, negate: bool)
    requires c.Valid() && HonestDkg(c, artifact, f) && Participates(artifact, index)
    ensures 1 <= index < c.q
    ensures SelectShare(c, artifact, index, negate).Ok?
    ensures var s := SelectShare(c, artifact, index, negate).value;
      s.index == index && Cong(s.value, if negate then -Eval(f, index) else Eval(f, index), c.q)
  {
    FindOutputFinds(artifact.outputs, index);
    var v := Eval(f, index) % c.q;
    CongReduce(Eval(f, index), c.q);
    CongNeg(v, Eval(f, index), c.q);
    CongReduce(-v, c.q);
  }

  ghost predicate SharesOf(shares: seq<DkgShare>, selected: seq<int>, f: Poly, negate: bool, q: int)
    requires q > 0
  {
    && |shares| == |selected|
    && forall i :: 0 <= i < |shares| ==>
      && shares[i].index == selected[i]
      && 1 <= selected[i] < q
      && Cong(shares[i].value, if negate then -Eval(f, selected[i]) else Eval(f, selected[i]), q)
  }

  lemma {:induction false} HonestSharesSelected(c: Curve, artifact: Artifact, f: Poly, selected: seq<int>, negate: bool)
    requires c.Valid() && HonestDkg(c, artifact, f)
    requires forall i :: 0 <= i < |selected| ==> Participates(artifact, selected[i])
    ensures SelectedShares(c, artifact, selected, negate).Ok?
    ensures SharesOf(SelectedShares(c, artifact, selected, negate).value, selected, f, negate, c.q)
  {
    hide SelectShare, HonestDkg, Eval, Cong, Participates, Prime;
    if selected != [] {
      HonestShareSelected(c, artifact, f, selected[0], negate);
      HonestSharesSelected(c, artifact, f, selected[1..], negate);
    }
  }

  lemma SelectedIndexesIncongruent(selected: seq<int>, q: int)
    requires q > 0 && Distinct(selected) && forall i :: 0 <= i < |selected| ==> 1 <= selected[i] < q
    ensures Incongruent(selected, q)
  {
    forall i, j | 0 <= i < j < |selected| ensures !Cong(selected[i], selected[j], q) {
      SmallMod(selected[i], q);
      SmallMod(selected[j], q);
    }
  }

  ghost function Signed(f: Poly, negate: bool): (r: Poly)
    ensures |r| == |f|
  {
    if negate then AddScaled(Padded([], |f|), -1, f) else f
  }

  lemma EvalSigned(f: Poly, negate: bool, x: int)
    ensures Eval(Signed(f, negate), x) == if negate then -Eval(f, x) else Eval(f, x)
  {
    if negate {
      EvalAddScaled(Padded([], |f|), -1, f, x);
      EvalPadded([], |f|, x);
    }
  }

  /** Any t distinct honest shares recombine to the (possibly negated) secret. */
  lemma SharesRecombine(shares: seq<DkgShare>, selected: seq<int>, f: Poly, negate: bool, q: int)
    requires Prime(q) && SharesOf(shares, selected, f, negate, q) && Distinct(selected) && |f| <= |selected|
    ensures Separated(Indexes(shares), q)
    ensures Cong(WeightedSum(Indexes(shares), ShareValues(shares), q, |shares|), if negate then -Eval(f, 0) else Eval(f, 0), q)
  {
    SharesLieOn(shares, selected, f, negate, q);
    hide *;
    IncongruentIsDistinct(selected, q);
    ValuesRecombine(selected, ShareValues(shares), f, negate, q);
  }

  lemma ValuesRecombine(xs: seq<int>, ys: seq<int>, f: Poly, negate: bool, q: int)
    requires Prime(q) && |f| <= |xs| == |ys| && Incongruent(xs, q)
    requires forall i :: 0 <= i < |xs| ==> Cong(ys[i], Eval(Signed(f, negate), xs[i]), q)
    ensures Cong(WeightedSum(xs, ys, q, |xs|), if negate then -Eval(f, 0) else Eval(f, 0), q)
  {
    hide *;
    EvalSigned(f, negate, 0);
    InterpolationAtZero(Signed(f, negate), xs, ys, q);
  }

  /** The selected shares are values of the (possibly negated) polynomial at pairwise different scalars. */
  lemma SharesLieOn(shares: seq<DkgShare>, selected: seq<int>, f: Poly, negate: bool, q: int)
    requires Prime(q) && SharesOf(shares, selected, f, negate, q) && Distinct(selected)
    ensures Indexes(shares) == selected && |selected| == |shares| && Incongruent(selected, q)
    ensures forall i :: 0 <= i < |selected| ==> Cong(ShareValues(shares)[i], Eval(Signed(f, negate), selected[i]), q)
  {
    hide Eval, Signed, Cong;
    assert Indexes(shares) == selected;
    SelectedIndexesIncongruent(selected, q);
    forall i | 0 <= i < |selected| ensures Cong(ShareValues(shares)[i], Eval(Signed(f, negate), selected[i]), q) {
      EvalSigned(f, negate, selected[i]);
    }
  }

  lemma {:induction false} ContributionMeaning(shares: seq<DkgShare>, challenge: int, q: int, k: nat)
    requires Prime(q) && k <= |shares| && Separated(Indexes(shares), q)
    ensures Contribution(shares, challenge, q, k).Ok?
    ensures Cong(Contribution(shares, challenge, q, k).value, challenge * WeightedSum(Indexes(shares), ShareValues(shares), q, k), q)
  {
    if k > 0 {
      ContributionMeaning(shares, challenge, q, k - 1);
      var xs, ys := Indexes(shares), ShareValues(shares);
      var x, y := shares[k - 1].index, shares[k - 1].value;
      assert xs[k - 1] == x;
      LambdaSucceeds(x, xs, q);
      var sum, weight := Contribution(shares, challenge, q, k - 1).value, Lambda(x, xs, q);
      AddPartial(sum, challenge, WeightedSum(xs, ys, q, k - 1), weight, y, q);
    }
  }

  lemma AddPartial(sum: int, challenge: int, w: int, weight: int, y: int, q: int)
    requires q > 0 && Cong(sum, challenge * w, q)
    ensures Cong((sum + (challenge * weight * y) % q) % q, challenge * (w + weight * y), q)
  {
    var p := challenge * weight * y;
    assert p == challenge * (weight * y);
    CongReduce(p, q);
    CongAdd(sum, challenge * w, p % q, p, q);
    CongReduce(sum + p % q, q);
    assert challenge * w + p == challenge * (w + weight * y);
  }

  /** The two probes recover the slope and the intercept of the signing function. */
  lemma ProbesRecoverAffine(a: int, b: int, z1: int, z2: int, q: int)
    requires q > 0 && z1 == (a + b * 1) % q && z2 == (a + b * 2) % q
    ensures Cong((z2 - z1) % q, b, q) && Cong((z1 - (z2 - z1) % q) % q, a, q)
  {
    CongReduce(a + b, q);
    CongReduce(a + b * 2, q);
    CongNeg(z1, a + b, q);
    CongAdd(z2, a + b * 2, -z1, -(a + b), q);
    CongReduce(z2 - z1, q);
    var c := (z2 - z1) % q;
    CongNeg(c, b, q);
    CongAdd(z1, a + b, -c, -b, q);
    CongReduce(z1 - c, q);
  }

  /** nonceOnly + challenge*S + challenge*tweak is the signing function at S + tweak. */
  lemma AssembleShare(a: int, b: int, challenge: int, nonceOnly: int, sum: int, w: int, secret: int, tweak: int, q: int)
    requires q > 0 && Cong(challenge, b, q) && Cong(nonceOnly, a, q)
    requires Cong(sum, challenge * w, q) && Cong(w, secret, q)
    ensures Assembled(nonceOnly, sum, challenge, tweak, q) == (a + b * ((secret + tweak) % q)) % q
  {
    var s := (secret + tweak) % q;
    CongMul(challenge, b, w, secret, q);
    CongReduce(challenge * tweak, q);
    CongMul(challenge, b, tweak, tweak, q);
    CongAdd(nonceOnly, a, sum, b * secret, q);
    CongAdd(nonceOnly + sum, a + b * secret, (challenge * tweak) % q, b * tweak, q);
    assert a + b * secret + b * tweak == a + b * (secret + tweak);
    CongReduce(secret + tweak, q);
    CongMul(b, b, s, secret + tweak, q);
    CongAdd(a, a, b * s, b * (secret + tweak), q);
  }

  /** The two probes recover the slope and the constant of the signing function. */
  lemma ProbesSucceed(frost: (FrostRequest, int) -> int, req: FrostRequest, a: int, b: int, q: int)
    requires q > 0 && AffineWith(frost, req, a, b, q)
    ensures var z1, z2 := frost(req, 1), frost(req, 2);
      Cong((z2 - z1) % q, b, q) && Cong((z1 - (z2 - z1) % q) % q, a, q)
  {
    hide Cong;
    ProbesRecoverAffine(a, b, frost(req, 1), frost(req, 2), q);
  }

  lemma AssembledIsDirect(frost: (FrostRequest, int) -> int, req: FrostRequest, a: int, b: int, challenge: int,
      nonceOnly: int, sum: int, w: int, secret: int, tweak: int, q: int)
    requires q > 0 && AffineWith(frost, req, a, b, q) && Cong(challenge, b, q) && Cong(nonceOnly, a, q)
    requires Cong(sum, challenge * w, q) && Cong(w, secret, q)
    ensures Assembled(nonceOnly, sum, challenge, tweak, q) == frost(req, (secret + tweak) % q)
  {
    hide Cong, Assembled;
    AssembleShare(a, b, challenge, nonceOnly, sum, w, secret, tweak, q);
  }

  lemma CombineAffine(c: Curve, crypto: Crypto, req: FrostRequest, shares: seq<DkgShare>, a: int, b: int, secret: int, tweak: int)
    requires c.Valid() && AffineWith(crypto.frost, req, a, b, c.q) && Separated(Indexes(shares), c.q)
    requires Cong(WeightedSum(Indexes(shares), ShareValues(shares), c.q, |shares|), secret, c.q)
    ensures CombineShare(c, crypto, req, shares, tweak) == Ok(crypto.frost(req, (secret + tweak) % c.q))
  {
    hide Cong, WeightedSum, Contribution, Separated, AffineWith, Assembled;
    var q, z1, z2 := c.q, crypto.frost(req, 1), crypto.frost(req, 2);
    var challenge := (z2 - z1) % q;
    ProbesSucceed(crypto.frost, req, a, b, q);
    ContributionMeaning(shares, challenge, q, |shares|);
    AssembledIsDirect(crypto.frost, req, a, b, challenge, (z1 - challenge) % q, Contribution(shares, challenge, q, |shares|).value,
                      WeightedSum(Indexes(shares), ShareValues(shares), q, |shares|), secret, tweak, q);
  }

  /** Combining shares that recombine to `secret` is signing directly with secret + tweak. */
  lemma CombineIsDirect(c: Curve, crypto: Crypto, req: FrostRequest, shares: seq<DkgShare>, secret: int, tweak: int)
    requires c.Valid() && Affine(crypto.frost, c.q) && Separated(Indexes(shares), c.q)
    requires Cong(WeightedSum(Indexes(shares), ShareValues(shares), c.q, |shares|), secret, c.q)
    ensures CombineShare(c, crypto, req, shares, tweak) == Ok(crypto.frost(req, (secret + tweak) % c.q))
  {
    assert AffineFor(crypto.frost, req, c.q);
    var a, b :| AffineWith(crypto.frost, req, a, b, c.q);
    CombineAffine(c, crypto, req, shares, a, b, secret, tweak);
  }

  /** The derived leaf key is the public key of EvenSecret + tweak; it fails only at the identity. */
  lemma LeafKeyMatchesSecret(c: Curve, secret: int, base: PointBytes, tweak: int)
    requires c.Valid() && 0 < secret < c.q && c.Encode(secret) == Ok(base) && 0 <= tweak < c.q
    ensures DeriveLeafPublicKey(c, base, tweak) == c.Encode((secret + tweak) % c.q)
  {
    c.DecodeEncode(secret);
    if tweak == 0 {
      SmallMod(secret, c.q);
    }
  }

  /** A signer created from an honest key generation and t distinct participants holds the
      normalised key and shares that recombine to its secret. */
  lemma CreatedSigner(c: Curve, artifact: Artifact, f: Poly, selected: seq<int>)
    requires c.Valid() && HonestDkg(c, artifact, f)
    requires |selected| == artifact.threshold && Distinct(selected)
    requires forall i :: 0 <= i < |selected| ==> Participates(artifact, selected[i])
    ensures CreateSignerParts(c, artifact, selected).Ok?
    ensures var parts := CreateSignerParts(c, artifact, selected).value;
      && 0 < EvenSecret(c, f) < c.q
      && parts.publicKey == NormalizeSparkPublicKey(artifact.thresholdPubkey)
      && c.Encode(EvenSecret(c, f)) == Ok(parts.publicKey)
      && Separated(Indexes(parts.shares), c.q)
      && Cong(WeightedSum(Indexes(parts.shares), ShareValues(parts.shares), c.q, |parts.shares|), EvenSecret(c, f), c.q)
  {
    hide Cong, WeightedSum, Separated, SelectedShares;
    var e := Eval(f, 0) % c.q;
    var negate := c.odd(e);
    NormalizedIsEvenY(c, e);
    HonestSharesSelected(c, artifact, f, selected, negate);
    var shares := SelectedShares(c, artifact, selected, negate).value;
    SharesRecombine(shares, selected, f, negate, c.q);
    EvenSecretMeaning(c, f);
    CongJoin(WeightedSum(Indexes(shares), ShareValues(shares), c.q, |shares|),
             if negate then -Eval(f, 0) else Eval(f, 0), EvenSecret(c, f), c.q);
  }

  lemma EvenSecretMeaning(c: Curve, f: Poly)
    requires c.Valid()
    ensures Cong(EvenSecret(c, f), if c.odd(Eval(f, 0) % c.q) then -Eval(f, 0) else Eval(f, 0), c.q)
  {
    var e := Eval(f, 0) % c.q;
    CongReduce(Eval(f, 0), c.q);
    CongNeg(e, Eval(f, 0), c.q);
    CongReduce(-e, c.q);
  }

  /** A signer that holds a secret signs like whoever knows it. */
  lemma HeldSecretSignsDirectly(
      c: Curve, crypto: Crypto, parts: SignerParts, secret: int, nonces: map<Commitment, Nonce>, params: SignParams)
    requires c.Valid() && ValidCrypto(crypto, c.q) && HoldsSecret(c, parts, secret)
    ensures DeriveLeafPublicKey(c, parts.publicKey, crypto.leafTweak(params.path))
         == c.Encode((secret + crypto.leafTweak(params.path)) % c.q)
    ensures SignsDirectly(c, crypto, secret, nonces, params, SignLeaf(c, crypto, parts, nonces, params))
  {
    hide Cong, WeightedSum, Separated, CombineShare, DeriveLeafPublicKey, Affine;
    var tweak := crypto.leafTweak(params.path);
    LeafKeyMatchesSecret(c, secret, parts.publicKey, tweak);
    var leafSecret := (secret + tweak) % c.q;
    if leafSecret != 0 && params.selfCommitment in nonces {
      var req := MakeRequest(params, nonces[params.selfCommitment], c.Encode(leafSecret).value);
      CombineIsDirect(c, crypto, req, parts.shares, secret, tweak);
    }
  }

  /** The main theorem: a t-subset signs a leaf message exactly as the holder of the leaf's single
      secret key would, and that secret is the one behind the derived leaf public key. */
  lemma ThresholdSigningIsDirectSigning(
      c: Curve, crypto: Crypto, artifact: Artifact, f: Poly, selected: seq<int>,
      nonces: map<Commitment, Nonce>, params: SignParams)
    requires c.Valid() && ValidCrypto(crypto, c.q) && HonestDkg(c, artifact, f)
    requires |selected| == artifact.threshold && Distinct(selected)
    requires forall i :: 0 <= i < |selected| ==> Participates(artifact, selected[i])
    ensures CreateSignerParts(c, artifact, selected).Ok?
    ensures var parts := CreateSignerParts(c, artifact, selected).value;
      && HoldsSecret(c, parts, EvenSecret(c, f))
      && DeriveLeafPublicKey(c, parts.publicKey, crypto.leafTweak(params.path))
         == c.Encode((EvenSecret(c, f) + crypto.leafTweak(params.path)) % c.q)
      && SignsDirectly(c, crypto, EvenSecret(c, f), nonces, params, SignLeaf(c, crypto, parts, nonces, params))
  {
    hide SignsDirectly, SignLeaf, EvenSecret, CreateSignerParts, HonestDkg, Distinct, DeriveLeafPublicKey;
    CreatedSigner(c, artifact, f, selected);
    var parts := CreateSignerParts(c, artifact, selected).value;
    assert HoldsSecret(c, parts, EvenSecret(c, f));
    hide HoldsSecret;
    HeldSecretSignsDirectly(c, crypto, parts, EvenSecret(c, f), nonces, params);
  }

  /** Every t-subset of the participants produces the same signature share. */
  lemma AllSubsetsAgree(
      c: Curve, crypto: Crypto, artifact: Artifact, f: Poly, selected: seq<int>, selected': seq<int>,
      nonces: map<Commitment, Nonce>, params: SignParams)
    requires c.Valid() && ValidCrypto(crypto, c.q) && HonestDkg(c, artifact, f)
    requires |selected| == |selected'| == artifact.threshold && Distinct(selected) && Distinct(selected')
    requires forall i :: 0 <= i < |selected| ==> Participates(artifact, selected[i])
    requires forall i :: 0 <= i < |selected'| ==> Participates(artifact, selected'[i])
    ensures CreateSignerParts(c, artifact, selected).Ok? && CreateSignerParts(c, artifact, selected').Ok?
    ensures SignLeaf(c, crypto, CreateSignerParts(c, artifact, selected).value, nonces, params)
         == SignLeaf(c, crypto, CreateSignerParts(c, artifact, selected').value, nonces, params)
  {
    hide HoldsSecret, SignLeaf, CreateSignerParts, HonestDkg, Distinct, EvenSecret, DeriveLeafPublicKey, ValidCrypto;
    ThresholdSigningIsDirectSigning(c, crypto, artifact, f, selected, nonces, params);
    ThresholdSigningIsDirectSigning(c, crypto, artifact, f, selected', nonces, params);
  }

  // ----- what the constructor refuses

  /** The first output of this participant, as the constructor finds it. */
  ghost predicate FirstOutput(outputs: seq<ParticipantOutput>, index: int, k: nat)
  {
    k < |outputs| && outputs[k].index == index && forall j :: 0 <= j < k ==> outputs[j].index != index
  }

  /** The participant's first output has a share in range that matches the published point, if there is one. */
  ghost predicate UsableShare(c: Curve, outputs: seq<ParticipantOutput>, index: int, k: nat)
    requires c.q > 0
  {
    && FirstOutput(outputs, index, k) && outputs[k].secshare.Some? && 0 < outputs[k].secshare.value < c.q
    && (1 <= index <= |outputs[k].pubshares| ==> c.Encode(outputs[k].secshare.value) == Ok(outputs[k].pubshares[index - 1]))
  }

  lemma {:induction false} FirstIsFound(outputs: seq<ParticipantOutput>, index: int, k: nat)
    requires FirstOutput(outputs, index, k)
    ensures FindOutput(outputs, index) == Some(outputs[k])
  {
    if k > 0 {
      assert outputs[0].index != index;
      assert forall j :: 0 <= j < k - 1 ==> outputs[1..][j] == outputs[j + 1];
      FirstIsFound(outputs[1..], index, k - 1);
    }
  }

  lemma {:induction false} NoneIsFound(outputs: seq<ParticipantOutput>, index: int)
    requires forall k :: 0 <= k < |outputs| ==> outputs[k].index != index
    ensures FindOutput(outputs, index).None?
  {
    if outputs != [] { NoneIsFound(outputs[1..], index); }
  }

  /** A usable share is loaded, negated when the key is; every other one is refused for its own reason. */
  lemma ShareIsLoadedExactly(c: Curve, artifact: Artifact, index: int, negate: bool, k: nat)
    requires c.Valid() && FirstOutput(artifact.outputs, index, k)
    ensures var output, r := artifact.outputs[k], SelectShare(c, artifact, index, negate);
      if output.secshare.None? then r == Err(MissingShare(index))
      else if !(0 < output.secshare.value < c.q) then r == Err(Point(ScalarOutOfRange))
      else if !UsableShare(c, artifact.outputs, index, k) then r == Err(ShareFailedPublicCheck(index))
      else r == Ok(DkgShare(index := index, value := if negate then (-output.secshare.value) % c.q else output.secshare.value))
  {
    FirstIsFound(artifact.outputs, index, k);
  }

  lemma AbsentShareIsRefused(c: Curve, artifact: Artifact, index: int, negate: bool)
    requires c.q > 0 && forall k :: 0 <= k < |artifact.outputs| ==> artifact.outputs[k].index != index
    ensures SelectShare(c, artifact, index, negate) == Err(MissingShare(index))
  {
    NoneIsFound(artifact.outputs, index);
  }

  ghost predicate Usable(c: Curve, artifact: Artifact, index: int)
    requires c.q > 0
  {
    exists k :: UsableShare(c, artifact.outputs, index, k)
  }

  lemma {:induction false} FirstExists(outputs: seq<ParticipantOutput>, index: int, n: nat) returns (k: nat)
    requires n < |outputs| && outputs[n].index == index
    ensures FirstOutput(outputs, index, k)
  {
    if j :| 0 <= j < n && outputs[j].index == index {
      k := FirstExists(outputs, index, j);
    } else {
      k := n;
    }
  }

  lemma LoadsExactlyUsable(c: Curve, artifact: Artifact, index: int, negate: bool)
    requires c.Valid()
    ensures SelectShare(c, artifact, index, negate).Ok? <==> Usable(c, artifact, index)
    ensures SelectShare(c, artifact, index, negate).Ok? ==> SelectShare(c, artifact, index, negate).value.index == index
  {
    hide SelectShare;
    if n :| 0 <= n < |artifact.outputs| && artifact.outputs[n].index == index {
      var k := FirstExists(artifact.outputs, index, n);
      ShareIsLoadedExactly(c, artifact, index, negate, k);
    } else {
      AbsentShareIsRefused(c, artifact, index, negate);
    }
  }

  lemma {:induction false} LoadsAllExactly(c: Curve, artifact: Artifact, selected: seq<int>, negate: bool)
    requires c.Valid()
    ensures SelectedShares(c, artifact, selected, negate).Ok? <==> forall i :: 0 <= i < |selected| ==> Usable(c, artifact, selected[i])
    ensures SelectedShares(c, artifact, selected, negate).Ok? ==> Indexes(SelectedShares(c, artifact, selected, negate).value) == selected
  {
    hide SelectShare, Usable;
    if selected != [] {
      LoadsExactlyUsable(c, artifact, selected[0], negate);
      LoadsAllExactly(c, artifact, selected[1..], negate);
      assert forall i :: 1 <= i < |selected| ==> selected[i] == selected[1..][i - 1];
    }
  }

  /** For any artifact at all: a signer is created exactly for one-based indexes, as many selected ones as
      the threshold, and a usable share of each; it lists the selected indexes in order, and its key has an
      even y. */
  lemma CreatesExactly(c: Curve, artifact: Artifact, selected: seq<int>)
    requires c.Valid()
    ensures CreateSignerParts(c, artifact, selected).Ok? <==>
      artifact.participantIndexBase == 1 && |selected| == artifact.threshold && forall i :: 0 <= i < |selected| ==> Usable(c, artifact, selected[i])
    ensures artifact.participantIndexBase != 1 ==> CreateSignerParts(c, artifact, selected) == Err(WrongIndexBase)
    ensures artifact.participantIndexBase == 1 && |selected| != artifact.threshold ==> CreateSignerParts(c, artifact, selected) == Err(WrongSignerCount)
    ensures CreateSignerParts(c, artifact, selected).Ok? ==>
      && Indexes(CreateSignerParts(c, artifact, selected).value.shares) == selected
      && CreateSignerParts(c, artifact, selected).value.publicKey.x == artifact.thresholdPubkey.x
      && CreateSignerParts(c, artifact, selected).value.publicKey.prefix != 3
  {
    hide SelectedShares, Usable;
    LoadsAllExactly(c, artifact, selected, artifact.thresholdPubkey.prefix == 3);
  }

  // ----- repeated indexes, which the constructor accepts

  ghost predicate Recombines(c: Curve, artifact: Artifact, f: Poly, selected: seq<int>)
    requires c.q > 1
  {
    && CreateSignerParts(c, artifact, selected).Ok?
    && var shares := CreateSignerParts(c, artifact, selected).value.shares;
      Cong(WeightedSum(Indexes(shares), ShareValues(shares), c.q, |shares|), EvenSecret(c, f), c.q)
  }

  /** These selected indexes serve the artifact: as many as its threshold, and all of participants. */
  ghost predicate Selectable(artifact: Artifact, selected: seq<int>)
  {
    |selected| == artifact.threshold && forall i :: 0 <= i < |selected| ==> Participates(artifact, selected[i])
  }

  /** Whatever honest key is generated, the signer created for these indexes holds shares of its secret. */
  ghost predicate ServesEveryKey(c: Curve, selected: seq<int>)
    requires c.q > 1
  {
    forall artifact, f :: HonestDkg(c, artifact, f) && Selectable(artifact, selected) ==> Recombines(c, artifact, f, selected)
  }

  /** The published point of participant j; a filler where the share is zero. */
  function PubShare(c: Curve, f: Poly, j: int): PointBytes
    requires c.q > 0
  {
    match c.Encode(Eval(f, j) % c.q) case Ok(p) => p case Err(_) => PointBytes(0, 0)
  }

  function OutputOf(c: Curve, f: Poly, index: int): ParticipantOutput
    requires c.q > 0 && index >= 1
  {
    ParticipantOutput(index, Some(Eval(f, index) % c.q), seq(index, j => PubShare(c, f, j + 1)))
  }

  /** What the signer is created from when it is given one share file per selected index. */
  function ArtifactOf(c: Curve, f: Poly, selected: seq<int>): Artifact
    requires c.q > 0 && forall i :: 0 <= i < |selected| ==> selected[i] >= 1
  {
    Artifact(|selected|, 1, PubShare(c, f, 0), seq(|selected|, i requires 0 <= i < |selected| => OutputOf(c, f, selected[i])))
  }

  lemma OutputIsHonest(c: Curve, f: Poly, index: int)
    requires c.Valid() && 1 <= index < c.q && Eval(f, index) == 1
    ensures HonestOutput(c, OutputOf(c, f, index), f)
  {
    SmallMod(1, c.q);
    hide Eval;
    assert OutputOf(c, f, index).pubshares[index - 1] == PubShare(c, f, index);
  }

  lemma ArtifactIsHonest(c: Curve, f: Poly, selected: seq<int>)
    requires c.Valid() && |f| == |selected| && !Cong(Eval(f, 0), 0, c.q)
    requires forall i :: 0 <= i < |selected| ==> 1 <= selected[i] < c.q && Eval(f, selected[i]) == 1
    ensures HonestDkg(c, ArtifactOf(c, f, selected), f) && Selectable(ArtifactOf(c, f, selected), selected)
  {
    hide Eval, HonestOutput, OutputOf, Prime;
    var artifact := ArtifactOf(c, f, selected);
    SmallMod(0, c.q);
    forall i | 0 <= i < |selected| ensures HonestOutput(c, artifact.outputs[i], f) && Participates(artifact, selected[i]) {
      OutputIsHonest(c, f, selected[i]);
      assert artifact.outputs[i] == OutputOf(c, f, selected[i]);
      IndexOfOutput(c, f, selected[i]);
    }
  }

  lemma IndexOfOutput(c: Curve, f: Poly, index: int)
    requires c.q > 0 && index >= 1
    ensures OutputOf(c, f, index).index == index
  {
  }

  /** The created signer holds the honest shares, negated when the group key is odd. */
  lemma CreatedShares(c: Curve, artifact: Artifact, f: Poly, selected: seq<int>)
    requires c.Valid() && HonestDkg(c, artifact, f) && Selectable(artifact, selected)
    ensures CreateSignerParts(c, artifact, selected).Ok?
    ensures SharesOf(CreateSignerParts(c, artifact, selected).value.shares, selected, f, c.odd(Eval(f, 0) % c.q), c.q)
  {
    hide Eval, SelectedShares, SharesOf, HonestOutput, Prime;
    HonestSharesSelected(c, artifact, f, selected, c.odd(Eval(f, 0) % c.q));
  }

  /** Shares that are all equal up to sign recombine to the sum of the coefficients, in the same sign. */
  lemma EqualSharesRecombine(shares: seq<DkgShare>, selected: seq<int>, f: Poly, negate: bool, q: int)
    requires Prime(q) && SharesOf(shares, selected, f, negate, q)
    requires forall i :: 0 <= i < |selected| ==> Eval(f, selected[i]) == 1
    ensures Indexes(shares) == selected
    ensures Cong(WeightedSum(selected, ShareValues(shares), q, |selected|),
                 (if negate then -1 else 1) * WeightedSum(selected, Constant(1, |selected|), q, |selected|), q)
  {
    assert Indexes(shares) == selected;
    var sign, ys := if negate then -1 else 1, ShareValues(shares);
    hide Eval;
    forall i | 0 <= i < |selected| ensures Cong(ys[i], Constant(sign, |selected|)[i], q) {
      assert ys[i] == shares[i].value;
    }
    WeightedSumCong(selected, ys, Constant(sign, |selected|), q, |selected|);
    WeightedSumOfConstant(selected, Constant(sign, |selected|), sign, q, |selected|);
  }

  lemma {:induction false} WeightedSumCong(xs: seq<int>, ys: seq<int>, zs: seq<int>, q: int, k: nat)
    requires q > 1 && k <= |xs| == |ys| == |zs| && forall i :: 0 <= i < |xs| ==> Cong(ys[i], zs[i], q)
    ensures Cong(WeightedSum(xs, ys, q, k), WeightedSum(xs, zs, q, k), q)
  {
    if k > 0 {
      var l := Lambda(xs[k - 1], xs, q);
      WeightedSumCong(xs, ys, zs, q, k - 1);
      CongMul(l, l, ys[k - 1], zs[k - 1], q);
      CongAdd(WeightedSum(xs, ys, q, k - 1), WeightedSum(xs, zs, q, k - 1), l * ys[k - 1], l * zs[k - 1], q);
    }
  }

  lemma SameSign(w: int, s: int, secret: int, v: int, negate: bool, q: int)
    requires q > 0 && Cong(w, (if negate then -1 else 1) * s, q) && Cong(secret, if negate then -v else v, q) && Cong(w, secret, q)
    ensures Cong(s, v, q)
  {
    CongJoin(w, (if negate then -1 else 1) * s, w, q);
    if negate {
      assert (-1) * s == -s;
      CongNeg(-s, -v, q);
    }
  }

  /** With a repeated index a receivable key generation exists, every selected share 1, whose secret
      the created signer does not hold. */
  lemma RepeatedIndexMissesKey(c: Curve, selected: seq<int>) returns (f: Poly)
    requires c.Valid() && !Distinct(selected) && forall i :: 0 <= i < |selected| ==> 1 <= selected[i] < c.q
    ensures HonestDkg(c, ArtifactOf(c, f, selected), f) && Selectable(ArtifactOf(c, f, selected), selected)
    ensures CreateSignerParts(c, ArtifactOf(c, f, selected), selected).Ok?
    ensures !Recombines(c, ArtifactOf(c, f, selected), f, selected)
  {
    forall x | x in selected ensures !Cong(0, x, c.q) {
      SmallMod(0, c.q);
      SmallMod(x, c.q);
    }
    f := RepeatedIndexLosesSecret(selected, c.q);
    assert forall i :: 0 <= i < |selected| ==> selected[i] in selected;
    ArtifactIsHonest(c, f, selected);
    MissesKey(c, ArtifactOf(c, f, selected), f, selected);
  }

  lemma MissesKey(c: Curve, artifact: Artifact, f: Poly, selected: seq<int>)
    requires c.Valid() && HonestDkg(c, artifact, f) && Selectable(artifact, selected)
    requires forall i :: 0 <= i < |selected| ==> Eval(f, selected[i]) == 1
    requires !Cong(WeightedSum(selected, Constant(1, |selected|), c.q, |selected|), Eval(f, 0), c.q)
    ensures CreateSignerParts(c, artifact, selected).Ok? && !Recombines(c, artifact, f, selected)
  {
    CreatedShares(c, artifact, f, selected);
    EvenSecretMeaning(c, f);
    hide Eval, WeightedSum, CreateSignerParts, HonestDkg, Selectable, Cong, EvenSecret;
    var shares := CreateSignerParts(c, artifact, selected).value.shares;
    var negate := c.odd(Eval(f, 0) % c.q);
    EqualSharesRecombine(shares, selected, f, negate, c.q);
    if Recombines(c, artifact, f, selected) {
      SameSign(WeightedSum(selected, ShareValues(shares), c.q, |selected|),
               WeightedSum(selected, Constant(1, |selected|), c.q, |selected|), EvenSecret(c, f), Eval(f, 0), negate, c.q);
    }
  }

  /** The created signer holds the secret of every honest key exactly when no selected index repeats. */
  lemma ServesEveryKeyExactlyWhenDistinct(c: Curve, selected: seq<int>)
    requires c.Valid() && forall i :: 0 <= i < |selected| ==> 1 <= selected[i] < c.q
    ensures ServesEveryKey(c, selected) <==> Distinct(selected)
  {
    if Distinct(selected) {
      forall artifact, f | HonestDkg(c, artifact, f) && Selectable(artifact, selected) ensures Recombines(c, artifact, f, selected) {
        CreatedSigner(c, artifact, f, selected);
      }
    } else {
      var f := RepeatedIndexMissesKey(c, selected);
    }
  }
}
