/** Lagrange interpolation at zero (section 4.2 of RFC 9591) over the scalars modulo a prime. */
module Lagrange {
  import opened ModArith
  import opened Fermat
  import opened Outcomes
  import opened Polynomials
  import opened Scalars

  /** The candidates different from x, in order; every copy of x is dropped. */
  function Others(x: int, xs: seq<int>): (r: seq<int>)
    ensures forall o :: o in r <==> o in xs && o != x
  {
    if xs == [] then []
    else if xs[0] != x then [xs[0]] + Others(x, xs[1..])
    else Others(x, xs[1..])
  }

  function LambdaFold(acc: int, x: int, others: seq<int>, q: int): Result<int, ScalarError>
    requires q > 1
    decreases others
  {
    if others == [] then Ok(acc) else
    var numerator := (-others[0]) % q;
    var denominator := (x - others[0]) % q;
    if denominator == 0 then Err(CannotInvertZero)
    else LambdaFold((acc * numerator * Inverse(denominator, q)) % q, x, others[1..], q)
  }

  function LagrangeCoefficientAtZero(x: int, xs: seq<int>, q: int): Result<int, ScalarError>
    requires q > 1
  {
    LambdaFold(1, x, Others(x, xs), q)
  }

  /** Different entries are different scalars: the condition under which no inversion fails. */
  ghost predicate Separated(xs: seq<int>, q: int)
    requires q > 0
  {
    forall x, o :: x in xs && o in xs && x != o ==> !Cong(x, o, q)
  }

  ghost predicate Distinct<T>(xs: seq<T>)
  {
    forall i, j :: 0 <= i < j < |xs| ==> xs[i] != xs[j]
  }

  /** One factor of the fold: multiplying back by the denominator gives the numerator. */
  lemma LambdaFactor(acc: int, x: int, o: int, q: int)
    requires Prime(q) && !Cong(x, o, q)
    ensures (x - o) % q != 0
    ensures Cong(((acc * ((-o) % q) * Inverse((x - o) % q, q)) % q) * (x - o), acc * (0 - o), q)
  {
    var n, d := (-o) % q, (x - o) % q;
    var i := Inverse(d, q);
    CongZeroDiff(x, o, q);
    SmallMod(0, q);
    CongReduce(x - o, q);
    CongReduce(-o, q);
    InverseIsInverse(d, q);
    CongReduce(acc * n * i, q);
    CongMul((acc * n * i) % q, acc * n * i, x - o, d, q);
    assert (acc * n * i) * d == (acc * n) * (d * i);
    CongMul(acc * n, acc * n, d * i, 1, q);
    CongMul(acc, acc, n, -o, q);
  }

  lemma FoldStep(acc: int, next: int, d: int, n: int, v: int, p: int, z: int, q: int)
    requires q > 0 && Cong(v * p, next * z, q) && Cong(next * d, acc * n, q)
    ensures Cong(v * (d * p), acc * (n * z), q)
  {
    CongMul(d, d, v * p, next * z, q);
    CongMul(next * d, acc * n, z, z, q);
    assert d * (v * p) == v * (d * p);
    assert d * (next * z) == (next * d) * z;
    assert (acc * n) * z == acc * (n * z);
  }

  /** What the fold computes: lambda is the quotient of the two products, and it fails exactly
      on a pair of different indexes that are the same scalar. */
  lemma {:induction false} LambdaFoldMeaning(acc: int, x: int, others: seq<int>, q: int)
    requires Prime(q)
    ensures LambdaFold(acc, x, others, q).Ok? <==> forall o :: o in others ==> !Cong(x, o, q)
    ensures LambdaFold(acc, x, others, q).Ok? ==>
      Cong(LambdaFold(acc, x, others, q).value * RootProduct(x, others), acc * RootProduct(0, others), q)
    decreases others
  {
    if others != [] {
      var o, rest := others[0], others[1..];
      CongZeroDiff(x, o, q);
      SmallMod(0, q);
      if !Cong(x, o, q) {
        LambdaFactor(acc, x, o, q);
        var next := (acc * ((-o) % q) * Inverse((x - o) % q, q)) % q;
        LambdaFoldMeaning(next, x, rest, q);
        if LambdaFold(next, x, rest, q).Ok? {
          FoldStep(acc, next, x - o, -o, LambdaFold(next, x, rest, q).value, RootProduct(x, rest), RootProduct(0, rest), q);
        }
      }
    }
  }

  lemma LambdaSucceeds(x: int, xs: seq<int>, q: int)
    requires Prime(q) && Separated(xs, q) && x in xs
    ensures LagrangeCoefficientAtZero(x, xs, q).Ok?
  {
    LambdaFoldMeaning(1, x, Others(x, xs), q);
  }

  function Lambda(x: int, xs: seq<int>, q: int): int
    requires q > 1
  {
    match LagrangeCoefficientAtZero(x, xs, q)
    case Ok(v) => v
    case Err(_) => 0
  }

  /** The sum of lambda_i * y_i over the first k points. */
  function WeightedSum(xs: seq<int>, ys: seq<int>, q: int, k: nat): int
    requires q > 1 && k <= |xs| == |ys|
  {
    if k == 0 then 0 else WeightedSum(xs, ys, q, k - 1) + Lambda(xs[k - 1], xs, q) * ys[k - 1]
  }

  // ----- the interpolation theorem

  lemma {:induction false} OthersLength(x: int, xs: seq<int>)
    requires Distinct(xs)
    ensures |Others(x, xs)| == |xs| - (if x in xs then 1 else 0)
  {
    if xs != [] {
      OthersLength(x, xs[1..]);
    }
  }

  /** f(x) divided by the product of (x - o), a coefficient of the interpolating polynomial. */
  ghost function Coefficient(f: Poly, x: int, xs: seq<int>, q: int): int
    requires q > 1
  {
    Eval(f, x) * Inverse(RootProduct(x, Others(x, xs)), q)
  }

  /** The basis polynomial of x, weighted by f(x) and evaluated at z. */
  ghost function BasisTerm(f: Poly, x: int, xs: seq<int>, q: int, z: int): int
    requires q > 1
  {
    Coefficient(f, x, xs, q) * RootProduct(z, Others(x, xs))
  }

  /** The sum, over the first k points, of the basis polynomials weighted by f, evaluated at z. */
  ghost function BasisSum(f: Poly, xs: seq<int>, q: int, z: int, k: nat): int
    requires q > 1 && k <= |xs|
  {
    if k == 0 then 0
    else BasisSum(f, xs, q, z, k - 1) + BasisTerm(f, xs[k - 1], xs, q, z)
  }

  /** The interpolating polynomial minus f. */
  ghost function Difference(f: Poly, xs: seq<int>, q: int, k: nat): (r: Poly)
    requires q > 1 && k <= |xs| && |f| <= |xs| && Distinct(xs)
    ensures |r| == |xs|
  {
    if k == 0 then AddScaled(Padded([], |xs|), -1, Padded(f, |xs| - |f|))
    else
      OthersLength(xs[k - 1], xs);
      AddScaled(Difference(f, xs, q, k - 1), Coefficient(f, xs[k - 1], xs, q), FromRoots(Others(xs[k - 1], xs)))
  }

  lemma DifferenceStep(g: Poly, f: Poly, x: int, xs: seq<int>, q: int, z: int)
    requires q > 1 && |g| == |xs| && |Others(x, xs)| + 1 == |xs|
    ensures Eval(AddScaled(g, Coefficient(f, x, xs, q), FromRoots(Others(x, xs))), z) == Eval(g, z) + BasisTerm(f, x, xs, q, z)
  {
    EvalFromRoots(Others(x, xs), z);
    EvalAddScaled(g, Coefficient(f, x, xs, q), FromRoots(Others(x, xs)), z);
  }

  lemma {:induction false} EvalDifference(f: Poly, xs: seq<int>, q: int, z: int, k: nat)
    requires q > 1 && k <= |xs| && |f| <= |xs| && Distinct(xs)
    ensures Eval(Difference(f, xs, q, k), z) == BasisSum(f, xs, q, z, k) - Eval(f, z)
  {
    if k == 0 {
      EvalAddScaled(Padded([], |xs|), -1, Padded(f, |xs| - |f|), z);
      EvalPadded([], |xs|, z);
      EvalPadded(f, |xs| - |f|, z);
    } else {
      var x := xs[k - 1];
      OthersLength(x, xs);
      EvalDifference(f, xs, q, z, k - 1);
      hide Eval, Coefficient, FromRoots, AddScaled, BasisTerm;
      DifferenceStep(Difference(f, xs, q, k - 1), f, x, xs, q, z);
    }
  }

  lemma CoefficientCancels(f: Poly, x: int, xs: seq<int>, q: int)
    requires Prime(q) && Separated(xs, q) && x in xs
    ensures Cong(Coefficient(f, x, xs, q) * RootProduct(x, Others(x, xs)), Eval(f, x), q)
  {
    var d := RootProduct(x, Others(x, xs));
    RootProductNonZero(x, Others(x, xs), q);
    InverseIsInverse(d, q);
    hide RootProduct, Others, Separated, Eval, Cong;
    CongMul(Eval(f, x), Eval(f, x), d * Inverse(d, q), 1, q);
    assert (Eval(f, x) * Inverse(d, q)) * d == Eval(f, x) * (d * Inverse(d, q));
  }

  lemma OtherBasisAtPoint(f: Poly, x: int, z: int, xs: seq<int>, q: int)
    requires q > 1 && z in xs && x != z
    ensures Cong(BasisTerm(f, x, xs, q, z), 0, q)
  {
    RootProductZero(z, Others(x, xs));
    hide Coefficient, RootProduct, Others;
  }

  lemma BasisAtPoint(f: Poly, xs: seq<int>, q: int, m: nat, k: nat)
    requires Prime(q) && k < |xs| && m < |xs| && Distinct(xs) && Separated(xs, q)
    ensures Cong(BasisTerm(f, xs[k], xs, q, xs[m]), if m == k then Eval(f, xs[m]) else 0, q)
  {
    hide Cong, Coefficient, RootProduct, Others, Eval, Separated;
    if m == k {
      CoefficientCancels(f, xs[k], xs, q);
    } else {
      OtherBasisAtPoint(f, xs[k], xs[m], xs, q);
    }
  }

  /** At a data point only that point's basis polynomial survives. */
  lemma {:induction false} BasisSumAtPoint(f: Poly, xs: seq<int>, q: int, m: nat, k: nat)
    requires Prime(q) && k <= |xs| && m < |xs| && Incongruent(xs, q)
    ensures Cong(BasisSum(f, xs, q, xs[m], k), if m < k then Eval(f, xs[m]) else 0, q)
  {
    if k > 0 {
      var x, z := xs[k - 1], xs[m];
      BasisSumAtPoint(f, xs, q, m, k - 1);
      IncongruentIsDistinct(xs, q);
      assert BasisSum(f, xs, q, z, k) == BasisSum(f, xs, q, z, k - 1) + BasisTerm(f, x, xs, q, z);
      assert q > 1;
      hide *;
      BasisAtPoint(f, xs, q, m, k - 1);
      CongAdd(BasisSum(f, xs, q, z, k - 1), if m < k - 1 then Eval(f, z) else 0,
              BasisTerm(f, x, xs, q, z), if m == k - 1 then Eval(f, z) else 0, q);
    }
  }

  lemma CancelDenominator(c: int, d: int, n: int, l: int, y: int, q: int)
    requires Prime(q) && !Cong(d, 0, q) && Cong(c * d, y, q) && Cong(l * d, n, q)
    ensures Cong(c * n, l * y, q)
  {
    CongMul(c * d, y, n, n, q);
    CongMul(l * d, n, y, y, q);
    assert d * (c * n) == (c * d) * n;
    assert d * (l * y) == (l * d) * y;
    Cancel(d, c * n, l * y, q);
  }

  lemma LambdaIsBasisAtZero(f: Poly, x: int, y: int, xs: seq<int>, q: int)
    requires Prime(q) && Separated(xs, q) && x in xs && Cong(y, Eval(f, x), q)
    ensures Cong(BasisTerm(f, x, xs, q, 0), Lambda(x, xs, q) * y, q)
  {
    var others := Others(x, xs);
    var c, d, n, l := Coefficient(f, x, xs, q), RootProduct(x, others), RootProduct(0, others), Lambda(x, xs, q);
    LambdaSucceeds(x, xs, q);
    LambdaFoldMeaning(1, x, others, q);
    CoefficientCancels(f, x, xs, q);
    RootProductNonZero(x, others, q);
    CancelDenominator(c, d, n, l, Eval(f, x), q);
    CongMul(l, l, y, Eval(f, x), q);
  }

  lemma {:induction false} WeightedSumIsBasisSum(f: Poly, xs: seq<int>, ys: seq<int>, q: int, k: nat)
    requires Prime(q) && k <= |xs| == |ys| && Separated(xs, q)
    requires forall i :: 0 <= i < |xs| ==> Cong(ys[i], Eval(f, xs[i]), q)
    ensures Cong(BasisSum(f, xs, q, 0, k), WeightedSum(xs, ys, q, k), q)
  {
    if k > 0 {
      var x, y := xs[k - 1], ys[k - 1];
      WeightedSumIsBasisSum(f, xs, ys, q, k - 1);
      LambdaIsBasisAtZero(f, x, y, xs, q);
      CongAdd(BasisSum(f, xs, q, 0, k - 1), WeightedSum(xs, ys, q, k - 1),
              BasisTerm(f, x, xs, q, 0), Lambda(x, xs, q) * y, q);
    }
  }

  lemma IncongruentIsDistinct(xs: seq<int>, q: int)
    requires q > 0 && Incongruent(xs, q)
    ensures Distinct(xs) && Separated(xs, q)
  {
    forall i, j | 0 <= i < j < |xs| ensures xs[i] != xs[j] {
      assert !Cong(xs[i], xs[j], q);
    }
  }

  lemma DifferenceHasRoot(f: Poly, xs: seq<int>, q: int, m: nat)
    requires Prime(q) && |f| <= |xs| && Incongruent(xs, q) && m < |xs|
    ensures Distinct(xs) && Cong(Eval(Difference(f, xs, q, |xs|), xs[m]), 0, q)
  {
    IncongruentIsDistinct(xs, q);
    assert q > 1;
    hide *;
    EvalDifference(f, xs, q, xs[m], |xs|);
    BasisSumAtPoint(f, xs, q, m, |xs|);
    CongZeroDiff(BasisSum(f, xs, q, xs[m], |xs|), Eval(f, xs[m]), q);
  }

  /** The interpolating polynomial agrees with f at zero because they agree at |xs| points. */
  lemma DifferenceVanishes(f: Poly, xs: seq<int>, q: int)
    requires Prime(q) && |f| <= |xs| && Incongruent(xs, q)
    ensures Cong(BasisSum(f, xs, q, 0, |xs|), Eval(f, 0), q)
  {
    var g := Difference(f, xs, q, |xs|);
    forall m | 0 <= m < |xs| ensures Cong(Eval(g, xs[m]), 0, q) {
      DifferenceHasRoot(f, xs, q, m);
    }
    RootsForceZero(g, xs, 0, q);
    EvalDifference(f, xs, q, 0, |xs|);
    CongZeroDiff(BasisSum(f, xs, q, 0, |xs|), Eval(f, 0), q);
  }

  /** The theorem: shares of a polynomial with at most as many coefficients as there are distinct
      indexes recombine to its value at zero. */
  lemma InterpolationAtZero(f: Poly, xs: seq<int>, ys: seq<int>, q: int)
    requires Prime(q) && |f| <= |xs| == |ys| && Incongruent(xs, q)
    requires forall i :: 0 <= i < |xs| ==> Cong(ys[i], Eval(f, xs[i]), q)
    ensures Cong(WeightedSum(xs, ys, q, |xs|), Eval(f, 0), q)
  {
    var n := |xs|;
    DifferenceVanishes(f, xs, q);
    WeightedSumIsBasisSum(f, xs, ys, q, n);
  }

  // ----- repeated indexes: the theorem needs distinctness, and needs nothing else

  ghost function Values(f: Poly, xs: seq<int>): seq<int>
  {
    seq(|xs|, i requires 0 <= i < |xs| => Eval(f, xs[i]))
  }

  ghost function Dedup(xs: seq<int>): (r: seq<int>)
    ensures forall x :: x in r <==> x in xs
    ensures |r| <= |xs|
    ensures !Distinct(xs) ==> |r| < |xs|
  {
    if xs == [] then []
    else if xs[0] in xs[1..] then Dedup(xs[1..])
    else [xs[0]] + Dedup(xs[1..])
  }

  /** k equal values. */
  function Constant(y: int, k: nat): (r: seq<int>)
    ensures |r| == k && forall i :: 0 <= i < k ==> r[i] == y
  {
    seq(k, i => y)
  }

  /** With the same value everywhere the weighted sum is that value times the sum of the coefficients. */
  lemma {:induction false} WeightedSumOfConstant(xs: seq<int>, ys: seq<int>, y: int, q: int, k: nat)
    requires q > 1 && k <= |xs| == |ys| && forall i :: 0 <= i < |ys| ==> ys[i] == y
    ensures WeightedSum(xs, ys, q, k) == y * WeightedSum(xs, Constant(1, |xs|), q, k)
  {
    if k > 0 {
      WeightedSumOfConstant(xs, ys, y, q, k - 1);
      hide Lambda, Constant;
      PullOut(y, WeightedSum(xs, Constant(1, |xs|), q, k - 1), Lambda(xs[k - 1], xs, q));
    }
  }

  lemma PullOut(y: int, rest: int, l: int)
    ensures y * (rest + l * 1) == y * rest + l * y
  {
    assert l * 1 == l;
  }

  /** The polynomial 1 + r times the product of (X - root) over the indexes used, with n coefficients. */
  ghost function OneOnIndexes(xs: seq<int>, r: int): (f: Poly)
    requires !Distinct(xs)
    ensures |f| == |xs|
  {
    var g := FromRoots(Dedup(xs));
    AddScaled(Padded([1], |xs| - 1), r, Padded(g, |xs| - |g|))
  }

  lemma EvalOneOnIndexes(xs: seq<int>, r: int, x: int)
    requires !Distinct(xs)
    ensures Eval(OneOnIndexes(xs, r), x) == 1 + r * RootProduct(x, Dedup(xs))
  {
    var g := FromRoots(Dedup(xs));
    EvalAddScaled(Padded([1], |xs| - 1), r, Padded(g, |xs| - |g|), x);
    EvalPadded([1], |xs| - 1, x);
    EvalPadded(g, |xs| - |g|, x);
    EvalFromRoots(Dedup(xs), x);
    assert Eval([1], x) == 1 + x * Eval([1][1..], x);
  }

  /** Among 1, 1 + p and 1 + 2p one differs from any given scalar, and also from zero when q > 2. */
  lemma AvoidTwo(p: int, s: int, q: int) returns (r: int)
    requires Prime(q) && !Cong(p, 0, q)
    ensures !Cong(s, 1 + r * p, q) && (q > 2 ==> !Cong(1 + r * p, 0, q))
  {
    SmallMod(0, q);
    SmallMod(1, q);
    if !Cong(s, 1, q) {
      r := 0;
    } else if q > 2 && Cong(1 + p, 0, q) {
      r := 2;
      SmallMod(2, q);
      CongAdd(1 + p, 0, p, p, q);
      if Cong(2 * p, 0, q) { Euclid(2, p, q); }
      CongZeroDiff(1 + 2 * p, 1, q);
    } else {
      r := 1;
      CongZeroDiff(1 + p, 1, q);
    }
  }

  lemma OneOnEach(xs: seq<int>, r: int)
    requires !Distinct(xs)
    ensures forall x :: x in xs ==> Eval(OneOnIndexes(xs, r), x) == 1
  {
    hide OneOnIndexes, Eval;
    forall x | x in xs ensures Eval(OneOnIndexes(xs, r), x) == 1 {
      EvalOneOnIndexes(xs, r, x);
      RootProductZero(x, Dedup(xs));
    }
  }

  /** A repeated index loses a secret: of a polynomial that gives every index used the share 1 and
      whose own secret is not zero. */
  lemma RepeatedIndexLosesSecret(xs: seq<int>, q: int) returns (f: Poly)
    requires Prime(q) && !Distinct(xs) && forall x :: x in xs ==> !Cong(0, x, q)
    ensures |f| == |xs| && (forall x :: x in xs ==> Eval(f, x) == 1) && (q > 2 ==> !Cong(Eval(f, 0), 0, q))
    ensures !Cong(WeightedSum(xs, Constant(1, |xs|), q, |xs|), Eval(f, 0), q)
  {
    RootProductNonZero(0, Dedup(xs), q);
    var r := AvoidTwo(RootProduct(0, Dedup(xs)), WeightedSum(xs, Constant(1, |xs|), q, |xs|), q);
    f := OneOnIndexes(xs, r);
    hide Prime, Cong, WeightedSum, RootProduct, OneOnIndexes, Eval, Constant;
    EvalOneOnIndexes(xs, r, 0);
    OneOnEach(xs, r);
  }

  ghost predicate RecoversEverySecret(xs: seq<int>, q: int)
    requires q > 1
  {
    forall f: Poly :: |f| <= |xs| ==> Cong(WeightedSum(xs, Values(f, xs), q, |xs|), Eval(f, 0), q)
  }

  /** Interpolation recovers f(0) for every admissible polynomial exactly when no index repeats. */
  lemma RecoversExactlyWhenDistinct(xs: seq<int>, q: int)
    requires Prime(q) && Separated(xs, q) && forall x :: x in xs ==> !Cong(0, x, q)
    ensures RecoversEverySecret(xs, q) <==> Distinct(xs)
  {
    if Distinct(xs) {
      forall f: Poly | |f| <= |xs| ensures Cong(WeightedSum(xs, Values(f, xs), q, |xs|), Eval(f, 0), q) {
        InterpolationAtZero(f, xs, Values(f, xs), q);
      }
    } else {
      var f := RepeatedIndexLosesSecret(xs, q);
      assert Values(f, xs) == Constant(1, |xs|);
    }
  }
}
