/** Congruence modulo an arbitrary modulus q > 0, with exactly the laws the scalar code relies on.
    `%` is Euclidean in Dafny, which is what the scalar reduction `mod(a, n)` of the source computes. */
module ModArith {

  /** a and b are the same scalar modulo q. */
  predicate Cong(a: int, b: int, q: int)
    requires q > 0
  {
    a % q == b % q
  }

  lemma MultipleBounds(q: int, d: int)
    requires q > 0
    ensures d >= 1 ==> q * d >= q
    ensures d <= -1 ==> q * d <= -q
  {
    if d >= 1 {
      assert q * (d - 1) >= 0;
    } else if d <= -1 {
      assert q * (-d - 1) >= 0;
    }
  }

  lemma DivModUnique(q: int, k: int, r: int, x: int)
    requires q > 0 && 0 <= r < q && x == q * k + r
    ensures x % q == r && x / q == k
  {
    var d := x / q - k;
    assert q * d == r - x % q by {
      assert x == q * (x / q) + x % q;
      assert q * d == q * (x / q) - q * k;
    }
    MultipleBounds(q, d);
  }

  lemma SmallMod(x: int, q: int)
    requires 0 <= x < q
    ensures x % q == x
  {
    DivModUnique(q, 0, x, x);
  }

  lemma ModAddMultiple(x: int, k: int, q: int)
    requires q > 0
    ensures (x + q * k) % q == x % q
  {
    assert x + q * k == q * (x / q + k) + x % q;
    DivModUnique(q, x / q + k, x % q, x + q * k);
  }

  lemma MultipleIsZero(k: int, q: int)
    requires q > 0
    ensures (q * k) % q == 0
  {
    ModAddMultiple(0, k, q);
  }

  /** Congruent numbers differ by a multiple of the modulus, and conversely. */
  lemma CongWitness(a: int, b: int, q: int) returns (k: int)
    requires q > 0 && Cong(a, b, q)
    ensures a == b + q * k
  {
    k := a / q - b / q;
    assert q * k == q * (a / q) - q * (b / q);
  }

  lemma CongFromWitness(a: int, b: int, k: int, q: int)
    requires q > 0 && a == b + q * k
    ensures Cong(a, b, q)
  {
    ModAddMultiple(b, k, q);
  }

  lemma CongReduce(a: int, q: int)
    requires q > 0
    ensures Cong(a % q, a, q)
  {
    CongFromWitness(a % q, a, -(a / q), q);
  }

  lemma CongJoin(a: int, b: int, c: int, q: int)
    requires q > 0 && Cong(a, b, q) && Cong(c, b, q)
    ensures Cong(a, c, q)
  {
  }

  lemma CongAdd(a: int, b: int, c: int, d: int, q: int)
    requires q > 0 && Cong(a, b, q) && Cong(c, d, q)
    ensures Cong(a + c, b + d, q)
  {
    var k := CongWitness(a, b, q);
    var l := CongWitness(c, d, q);
    assert a + c == b + d + q * (k + l);
    CongFromWitness(a + c, b + d, k + l, q);
  }

  lemma CongNeg(a: int, b: int, q: int)
    requires q > 0 && Cong(a, b, q)
    ensures Cong(-a, -b, q)
  {
    var k := CongWitness(a, b, q);
    CongFromWitness(-a, -b, -k, q);
  }

  lemma CongMul(a: int, b: int, c: int, d: int, q: int)
    requires q > 0 && Cong(a, b, q) && Cong(c, d, q)
    ensures Cong(a * c, b * d, q)
  {
    var k := CongWitness(a, b, q);
    var l := CongWitness(c, d, q);
    var w := b * l + k * d + q * (k * l);
    assert a * c == b * d + q * w by {
      calc {
        a * c;
        (b + q * k) * (d + q * l);
        b * d + b * (q * l) + (q * k) * d + (q * k) * (q * l);
        b * d + q * (b * l) + q * (k * d) + q * (q * (k * l));
        b * d + q * w;
      }
    }
    CongFromWitness(a * c, b * d, w, q);
  }

  /** A sum or difference is zero modulo q exactly when the two sides are congruent. */
  lemma CongZeroDiff(a: int, b: int, q: int)
    requires q > 0
    ensures Cong(a - b, 0, q) <==> Cong(a, b, q)
  {
    if Cong(a - b, 0, q) {
      CongAdd(a - b, 0, b, b, q);
    }
    if Cong(a, b, q) {
      CongAdd(a, b, -b, -b, q);
    }
  }
}
