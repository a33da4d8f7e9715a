/** Scalar exponentiation and inversion as the signer computes them. */
module Scalars {
  import opened ModArith
  import opened Fermat
  import opened Outcomes

  datatype ScalarError = CannotInvertZero

  /** Splitting an exponent at its lowest bit. */
  lemma {:induction false} PowSquare(b: int, e: nat)
    ensures Pow(b, 2 * e) == Pow(b * b, e)
  {
    if e > 0 {
      PowSquare(b, e - 1);
      assert Pow(b, 2 * e) == b * (b * Pow(b, 2 * e - 2));
      assert b * (b * Pow(b, 2 * e - 2)) == (b * b) * Pow(b, 2 * e - 2);
    }
  }

  lemma PowHalve(b: int, e: nat)
    requires e > 0
    ensures Pow(b, e) == (if e % 2 == 1 then b else 1) * Pow(b * b, e / 2)
  {
    PowSquare(b, e / 2);
    if e % 2 == 1 {
      assert e == 2 * (e / 2) + 1;
    } else {
      assert e == 2 * (e / 2);
    }
  }

  /** One round of square-and-multiply keeps result * b^e unchanged modulo the modulus. */
  lemma PowStep(result: int, b: int, e: nat, m: int)
    requires m > 0 && e > 0
    ensures Cong((if e % 2 == 1 then (result * b) % m else result) * Pow((b * b) % m, e / 2), result * Pow(b, e), m)
  {
    var f := if e % 2 == 1 then b else 1;
    var r' := if e % 2 == 1 then (result * b) % m else result;
    PowHalve(b, e);
    CongReduce(b * b, m);
    PowCong((b * b) % m, b * b, e / 2, m);
    CongReduce(result * b, m);
    CongMul(r', result * f, Pow((b * b) % m, e / 2), Pow(b * b, e / 2), m);
    assert (result * f) * Pow(b * b, e / 2) == result * (f * Pow(b * b, e / 2));
  }

  /** Binary exponentiation. The accumulator starts unreduced at 1, so a non-positive exponent
      returns 1 even for modulus 1; every other call returns the reduced power. */
  method ModPow(base: int, exponent: int, modulus: int) returns (result: int)
    requires modulus > 0
    ensures exponent <= 0 ==> result == 1
    ensures exponent > 0 ==> result == Pow(base, exponent) % modulus
  {
    result := 1;
    var b := base % modulus;
    var e := exponent;
    CongReduce(base, modulus);
    if exponent > 0 {
      PowCong(b, base, exponent, modulus);
    }
    while e > 0
      invariant exponent <= 0 ==> e == exponent && result == 1
      invariant exponent > 0 ==> 0 <= e <= exponent && Cong(result * Pow(b, e), Pow(base, exponent), modulus)
      invariant 0 <= result <= modulus
      invariant exponent > 0 && e == 0 ==> 0 <= result < modulus
      decreases e
    {
      PowStep(result, b, e, modulus);
      if e % 2 == 1 {
        result := (result * b) % modulus;
      }
      b := (b * b) % modulus;
      e := e / 2;
    }
    if exponent > 0 {
      assert result * Pow(b, e) == result;
      SmallMod(result, modulus);
    }
  }

  /** The value `invertScalar` returns: Fermat's exponent, computed by ModPow. */
  function Inverse(value: int, q: int): int
    requires q > 1
  {
    Pow(value, q - 2) % q
  }

  /** `invertScalar`: only the literal zero is refused. */
  method InvertScalar(value: int, q: int) returns (r: Result<int, ScalarError>)
    requires Prime(q)
    ensures r.Err? <==> value == 0
    ensures r.Ok? && !Cong(value, 0, q) ==> (value * r.value) % q == 1
    ensures r.Ok? ==> r.value == Inverse(value, q)
  {
    if value == 0 {
      return Err(CannotInvertZero);
    }
    var v := ModPow(value, q - 2, q);
    SmallMod(1, q);
    if !Cong(value, 0, q) {
      InverseIsInverse(value, q);
    }
    return Ok(v);
  }

  lemma InverseIsInverse(value: int, q: int)
    requires Prime(q) && !Cong(value, 0, q)
    ensures Cong(value * Inverse(value, q), 1, q)
    ensures (value * Inverse(value, q)) % q == 1
  {
    FermatLittle(value, q);
    assert Pow(value, q - 1) == value * Pow(value, q - 2);
    CongReduce(Pow(value, q - 2), q);
    CongMul(value, value, Inverse(value, q), Pow(value, q - 2), q);
    SmallMod(1, q);
  }
}
