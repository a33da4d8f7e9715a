/** Integer polynomials, read modulo a prime: enough to show that a polynomial with as many
    roots as coefficients vanishes everywhere. */
module Polynomials {
  import opened ModArith
  import opened Fermat

  /** Coefficients, constant term first. */
  type Poly = seq<int>

  function Eval(f: Poly, x: int): int
  {
    if f == [] then 0 else f[0] + x * Eval(f[1..], x)
  }

  lemma {:induction false} EvalCong(f: Poly, x: int, y: int, q: int)
    requires q > 0 && Cong(x, y, q)
    ensures Cong(Eval(f, x), Eval(f, y), q)
  {
    if f != [] {
      EvalCong(f[1..], x, y, q);
      CongMul(x, y, Eval(f[1..], x), Eval(f[1..], y), q);
      CongAdd(f[0], f[0], x * Eval(f[1..], x), y * Eval(f[1..], y), q);
    }
  }

  /** f + c * g for polynomials of the same length. */
  function AddScaled(f: Poly, c: int, g: Poly): (r: Poly)
    requires |f| == |g|
    ensures |r| == |f|
  {
    if f == [] then [] else [f[0] + c * g[0]] + AddScaled(f[1..], c, g[1..])
  }

  lemma {:induction false} EvalAddScaled(f: Poly, c: int, g: Poly, x: int)
    requires |f| == |g|
    ensures Eval(AddScaled(f, c, g), x) == Eval(f, x) + c * Eval(g, x)
  {
    if f != [] {
      EvalAddScaled(f[1..], c, g[1..], x);
      var a, b := Eval(f[1..], x), Eval(g[1..], x);
      assert AddScaled(f, c, g)[1..] == AddScaled(f[1..], c, g[1..]);
      Distribute(x, a, c, b, g[0]);
    }
  }

  lemma Distribute(x: int, a: int, c: int, b: int, g: int)
    ensures c * g + x * (a + c * b) == x * a + c * (g + x * b)
  {
    assert x * (c * b) == c * (x * b);
  }

  /** f with n zero coefficients appended. */
  function Padded(f: Poly, n: nat): (r: Poly)
    ensures |r| == |f| + n
  {
    f + seq(n, i => 0)
  }

  lemma {:induction false} EvalPadded(f: Poly, n: nat, x: int)
    ensures Eval(Padded(f, n), x) == Eval(f, x)
    decreases |f| + n
  {
    if f != [] {
      EvalPadded(f[1..], n, x);
      assert Padded(f, n)[1..] == Padded(f[1..], n);
    } else if n > 0 {
      EvalPadded([], n - 1, x);
      assert Padded(f, n)[1..] == Padded([], n - 1);
    }
  }

  /** The product of (X - r) over the roots. */
  function FromRoots(roots: seq<int>): (r: Poly)
    ensures |r| == |roots| + 1
  {
    if roots == [] then [1]
    else var g := FromRoots(roots[1..]); AddScaled([0] + g, -roots[0], Padded(g, 1))
  }

  /** The product of (x - r) over the roots. */
  function RootProduct(x: int, roots: seq<int>): int
  {
    if roots == [] then 1 else (x - roots[0]) * RootProduct(x, roots[1..])
  }

  lemma {:induction false} EvalFromRoots(roots: seq<int>, x: int)
    ensures Eval(FromRoots(roots), x) == RootProduct(x, roots)
  {
    if roots != [] {
      var g := FromRoots(roots[1..]);
      EvalFromRoots(roots[1..], x);
      EvalAddScaled([0] + g, -roots[0], Padded(g, 1), x);
      EvalPadded(g, 1, x);
      assert ([0] + g)[1..] == g;
      var e := Eval(g, x);
      assert 0 + x * e + (-roots[0]) * e == (x - roots[0]) * e;
    } else {
      assert Eval([1], x) == 1 + x * Eval([1][1..], x);
    }
  }

  lemma {:induction false} RootProductZero(x: int, roots: seq<int>)
    requires x in roots
    ensures RootProduct(x, roots) == 0
  {
    if x != roots[0] {
      RootProductZero(x, roots[1..]);
    }
  }

  lemma {:induction false} RootProductNonZero(x: int, roots: seq<int>, q: int)
    requires Prime(q) && forall o :: o in roots ==> !Cong(x, o, q)
    ensures !Cong(RootProduct(x, roots), 0, q)
  {
    if roots == [] {
      SmallMod(1, q);
      SmallMod(0, q);
    } else {
      RootProductNonZero(x, roots[1..], q);
      CongZeroDiff(x, roots[0], q);
      if Cong(RootProduct(x, roots), 0, q) {
        Euclid(x - roots[0], RootProduct(x, roots[1..]), q);
      }
    }
  }

  /** Synthetic division by (X - r). */
  function Quotient(f: Poly, r: int): (h: Poly)
    requires f != []
    ensures |h| == |f| - 1
  {
    if |f| == 1 then [] else [Eval(f[1..], r)] + Quotient(f[1..], r)
  }

  lemma HornerStep(c: int, x: int, r: int, h: int, e: int)
    ensures c + x * ((x - r) * h + e) == (x - r) * (e + x * h) + (c + r * e)
  {
    assert x * ((x - r) * h) == (x - r) * (x * h);
    assert x * e == (x - r) * e + r * e;
  }

  lemma {:induction false} EvalQuotient(f: Poly, r: int, x: int)
    requires f != []
    ensures Eval(f, x) == (x - r) * Eval(Quotient(f, r), x) + Eval(f, r)
  {
    if |f| > 1 {
      var g := f[1..];
      EvalQuotient(g, r, x);
      assert Quotient(f, r)[1..] == Quotient(g, r);
      var h, e := Eval(Quotient(g, r), x), Eval(g, r);
      HornerStep(f[0], x, r, h, e);
    }
  }

  /** No two entries are the same scalar. */
  ghost predicate Incongruent(xs: seq<int>, q: int)
    requires q > 0
  {
    forall i, j :: 0 <= i < j < |xs| ==> !Cong(xs[i], xs[j], q)
  }

  /** A polynomial with as many distinct roots as coefficients vanishes everywhere. */
  lemma {:induction false} RootsForceZero(f: Poly, roots: seq<int>, z: int, q: int)
    requires Prime(q) && |roots| >= |f| && Incongruent(roots, q)
    requires forall i :: 0 <= i < |roots| ==> Cong(Eval(f, roots[i]), 0, q)
    ensures Cong(Eval(f, z), 0, q)
    decreases |f|
  {
    if f != [] {
      var r, h, rest := roots[0], Quotient(f, roots[0]), roots[1..];
      forall i | 0 <= i < |rest| ensures Cong(Eval(h, rest[i]), 0, q) {
        RootOfQuotient(f, r, rest[i], q);
      }
      RootsForceZero(h, rest, z, q);
      EvalQuotient(f, r, z);
      CongMul(z - r, z - r, Eval(h, z), 0, q);
      CongAdd((z - r) * Eval(h, z), 0, Eval(f, r), 0, q);
    }
  }

  lemma RootOfQuotient(f: Poly, r: int, s: int, q: int)
    requires Prime(q) && f != [] && !Cong(r, s, q)
    requires Cong(Eval(f, r), 0, q) && Cong(Eval(f, s), 0, q)
    ensures Cong(Eval(Quotient(f, r), s), 0, q)
  {
    EvalQuotient(f, r, s);
    CongNeg(Eval(f, r), 0, q);
    CongAdd(Eval(f, s), 0, -Eval(f, r), 0, q);
    CongZeroDiff(s, r, q);
    Euclid(s - r, Eval(Quotient(f, r), s), q);
  }
}
