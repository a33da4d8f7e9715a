/** Euclid's lemma and Fermat's little theorem, from the definition of a prime.
    `invertScalar` raises a scalar to the power q - 2; these are the facts that make that an inverse. */
module Fermat {
  import opened ModArith

  ghost predicate Prime(q: int)
  {
    q > 1 && forall d :: 1 < d < q ==> q % d != 0
  }

  function Pow(b: int, e: nat): int
  {
    if e == 0 then 1 else b * Pow(b, e - 1)
  }

  lemma {:induction false} PowCong(a: int, b: int, e: nat, q: int)
    requires q > 0 && Cong(a, b, q)
    ensures Cong(Pow(a, e), Pow(b, e), q)
  {
    if e > 0 {
      PowCong(a, b, e - 1, q);
      CongMul(a, b, Pow(a, e - 1), Pow(b, e - 1), q);
    }
  }

  // ----- Euclid's lemma

  /** Descent on a: replacing a by q % a keeps the product divisible and a non-zero. */
  lemma {:induction false} EuclidSmall(a: int, b: int, q: int)
    requires Prime(q) && 0 < a < q && Cong(a * b, 0, q)
    ensures Cong(b, 0, q)
    decreases a
  {
    if a > 1 {
      var r, k := q % a, q / a;
      assert r * b == q * b - k * (a * b) by {
        assert q == a * k + r;
        assert (a * k) * b == k * (a * b);
      }
      CongMul(k, k, a * b, 0, q);
      CongNeg(k * (a * b), 0, q);
      CongFromWitness(q * b, 0, b, q);
      CongAdd(q * b, 0, -(k * (a * b)), 0, q);
      EuclidSmall(r, b, q);
    }
  }

  lemma Euclid(a: int, b: int, q: int)
    requires Prime(q) && Cong(a * b, 0, q)
    ensures Cong(a, 0, q) || Cong(b, 0, q)
  {
    if !Cong(a, 0, q) {
      CongReduce(a, q);
      CongMul(a % q, a, b, b, q);
      EuclidSmall(a % q, b, q);
    }
  }

  /** A factor that is not zero modulo q can be cancelled. */
  lemma Cancel(c: int, a: int, b: int, q: int)
    requires Prime(q) && !Cong(c, 0, q) && Cong(c * a, c * b, q)
    ensures Cong(a, b, q)
  {
    CongZeroDiff(c * a, c * b, q);
    assert c * a - c * b == c * (a - b);
    Euclid(c, a - b, q);
    CongZeroDiff(a, b, q);
  }

  // ----- Fermat's little theorem: multiplication by a permutes 1 .. q-1

  function Factorial(n: nat): int
  {
    if n == 0 then 1 else n * Factorial(n - 1)
  }

  /** The product of the members of s that lie in 1 .. n. */
  ghost function Product(s: set<int>, n: nat): int
  {
    if n == 0 then 1 else (if n in s then n else 1) * Product(s, n - 1)
  }

  lemma Swap(f: int, y: int, p: int)
    ensures f * (y * p) == y * (f * p)
  {
  }

  lemma Regroup(a: int, n: int, p: int, f: int)
    ensures (a * n) * (p * f) == (a * p) * (n * f)
  {
  }

  lemma {:induction false} ProductInsert(s: set<int>, y: int, n: nat)
    requires y !in s && y >= 1
    ensures Product(s + {y}, n) == if y <= n then y * Product(s, n) else Product(s, n)
  {
    if n > 0 {
      ProductInsert(s, y, n - 1);
      var f, p := if n in s then n else 1, Product(s, n - 1);
      assert Product(s, n) == f * p;
      if y < n {
        Swap(f, y, p);
      }
    }
  }

  lemma {:induction false} ProductEmpty(n: nat)
    ensures Product({}, n) == 1
  {
    if n > 0 { ProductEmpty(n - 1); }
  }

  /** The numbers 1 .. n. */
  ghost function Range(n: nat): (s: set<int>)
    ensures |s| == n
    ensures forall i :: i in s <==> 1 <= i <= n
  {
    if n == 0 then {} else Range(n - 1) + {n}
  }

  lemma {:induction false} ProductOfRange(m: nat, n: nat)
    requires n <= m
    ensures Product(Range(m), n) == Factorial(n)
  {
    if n > 0 { ProductOfRange(m, n - 1); }
  }

  /** Removing a subset leaves the difference of the sizes. */
  lemma SubsetOfSameSize(s: set<int>, t: set<int>)
    requires s <= t && |s| == |t|
    ensures s == t
  {
    assert t == s + (t - s);
    assert |t - s| == 0;
  }

  /** The residues a*1, ..., a*n. */
  ghost function Multiples(a: int, n: nat, q: int): set<int>
    requires q > 0
  {
    if n == 0 then {} else Multiples(a, n - 1, q) + {(a * n) % q}
  }

  lemma {:induction false} MultiplesMember(a: int, n: nat, q: int, y: int) returns (i: int)
    requires q > 0 && y in Multiples(a, n, q)
    ensures 1 <= i <= n && (a * i) % q == y
  {
    if y == (a * n) % q {
      i := n;
    } else {
      i := MultiplesMember(a, n - 1, q, y);
    }
  }

  /** a*1 .. a*n are distinct and non-zero, and their product is a^n * n!. */
  lemma {:induction false} MultiplesProduct(a: int, n: nat, q: int)
    requires Prime(q) && !Cong(a, 0, q) && n < q
    ensures |Multiples(a, n, q)| == n
    ensures Multiples(a, n, q) <= Range(q - 1)
    ensures Cong(Product(Multiples(a, n, q), q - 1), Pow(a, n) * Factorial(n), q)
  {
    if n == 0 {
      ProductEmpty(q - 1);
    } else {
      var t, y := Multiples(a, n - 1, q), (a * n) % q;
      MultiplesProduct(a, n - 1, q);
      FreshMultiple(a, n, q);
      ProductInsert(t, y, q - 1);
      CongReduce(a * n, q);
      var p, r := Product(t, q - 1), Pow(a, n - 1) * Factorial(n - 1);
      CongMul(y, a * n, p, r, q);
      Regroup(a, n, Pow(a, n - 1), Factorial(n - 1));
    }
  }

  lemma FreshMultiple(a: int, n: nat, q: int)
    requires Prime(q) && !Cong(a, 0, q) && 0 < n < q
    ensures 1 <= (a * n) % q < q
    ensures (a * n) % q !in Multiples(a, n - 1, q)
  {
    var y := (a * n) % q;
    SmallMod(n, q);
    SmallMod(0, q);
    if y == 0 {
      Euclid(a, n, q);
    }
    if y in Multiples(a, n - 1, q) {
      var i := MultiplesMember(a, n - 1, q, y);
      SmallMod(i, q);
      Cancel(a, n, i, q);
    }
  }

  lemma {:induction false} FactorialNonZero(n: nat, q: int)
    requires Prime(q) && n < q
    ensures !Cong(Factorial(n), 0, q)
  {
    assert q > 1;
    hide Prime;
    if n > 0 {
      FactorialNonZero(n - 1, q);
      if Cong(Factorial(n), 0, q) {
        Euclid(n, Factorial(n - 1), q);
        assert false;
      }
    }
  }

  /** Fermat's little theorem. */
  lemma FermatLittle(a: int, q: int)
    requires Prime(q) && !Cong(a, 0, q)
    ensures Cong(Pow(a, q - 1), 1, q)
  {
    var s := Multiples(a, q - 1, q);
    MultiplesProduct(a, q - 1, q);
    SubsetOfSameSize(s, Range(q - 1));
    ProductOfRange(q - 1, q - 1);
    FactorialNonZero(q - 1, q);
    var f := Factorial(q - 1);
    assert Pow(a, q - 1) * f == f * Pow(a, q - 1);
    Cancel(f, Pow(a, q - 1), 1, q);
  }
}
