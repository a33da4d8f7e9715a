/** The prime-order group of the curve, in the exponent: the point e*G is represented by e.
    Only two facts about coordinates are used: a point and its negation share x, and exactly one
    of the two has an odd y. */
module CurveGroup {
  import opened ModArith
  import opened Fermat
  import opened Outcomes

  datatype PointError = ScalarOutOfRange | PointAtInfinity | BadEncoding

  /** A compressed point: the sign byte, and the x coordinate named by its even-y point. */
  datatype PointBytes = PointBytes(prefix: int, x: int)

  /** The group order and the parity of the y coordinate of e*G. */
  datatype Curve = Curve(q: int, odd: int -> bool) {
    ghost predicate Valid() {
      && Prime(q) && q > 2
      && forall e :: 0 < e < q ==> odd(q - e) == !odd(e)
    }

    /** `Point.BASE.multiply(k)`: refuses scalars outside 1 .. q-1. */
    function MultiplyBase(k: int): Result<int, PointError> {
      if 0 < k < q then Ok(k) else Err(ScalarOutOfRange)
    }

    /** `point.multiply(k)`. */
    function Multiply(e: int, k: int): Result<int, PointError>
      requires q > 0
    {
      if 0 < k < q then Ok((e * k) % q) else Err(ScalarOutOfRange)
    }

    function Add(e: int, d: int): int
      requires q > 0
    {
      (e + d) % q
    }

    /** The even-y point with the same x coordinate. */
    function EvenY(e: int): int
      requires q > 0
    {
      if odd(e) then (-e) % q else e
    }

    /** `toBytes(true)`: the identity has no encoding. */
    function Encode(e: int): Result<PointBytes, PointError>
      requires q > 0
    {
      if e == 0 then Err(PointAtInfinity)
      else Ok(PointBytes(if odd(e) then 3 else 2, EvenY(e)))
    }

    /** `Point.fromHex`. */
    function Decode(b: PointBytes): Result<int, PointError>
      requires q > 0
    {
      if !(0 < b.x < q) || odd(b.x) then Err(BadEncoding)
      else if b.prefix == 2 then Ok(b.x)
      else if b.prefix == 3 then Ok((-b.x) % q)
      else Err(BadEncoding)
    }

    lemma NegateExponent(e: int)
      requires Valid() && 0 < e < q
      ensures (-e) % q == q - e && odd(q - e) == !odd(e)
    {
      DivModUnique(q, -1, q - e, -e);
    }

    /** Compressed encoding loses nothing, so equal encodings are equal points. */
    lemma DecodeEncode(e: int)
      requires Valid() && 0 < e < q
      ensures Encode(e).Ok? && Decode(Encode(e).value) == Ok(e)
    {
      NegateExponent(e);
      NegateExponent(q - e);
    }
  }

  /** Exactly the encodings of points can be decoded, and to the point they encode. */
  lemma DecodesExactly(c: Curve, b: PointBytes)
    requires c.Valid()
    ensures c.Decode(b).Ok? <==> (b.prefix == 2 || b.prefix == 3) && 0 < b.x < c.q && !c.odd(b.x)
    ensures c.Decode(b).Ok? ==> 0 < c.Decode(b).value < c.q && c.Encode(c.Decode(b).value) == Ok(b)
  {
    if 0 < b.x < c.q {
      c.NegateExponent(b.x);
      c.NegateExponent(c.q - b.x);
    }
  }

  /** `normalizeSparkPublicKey`: the odd-y prefix becomes the even-y one (the BIP 340 convention). */
  function NormalizeSparkPublicKey(publicKey: PointBytes): PointBytes
  {
    if publicKey.prefix == 3 then publicKey.(prefix := 2) else publicKey
  }

  /** Normalising the encoding of e*G is encoding its even-y twin. */
  lemma NormalizedIsEvenY(c: Curve, e: int)
    requires c.Valid() && 0 < e < c.q
    ensures 0 < c.EvenY(e) < c.q && !c.odd(c.EvenY(e))
    ensures c.Encode(e).Ok? && c.Encode(c.EvenY(e)) == Ok(NormalizeSparkPublicKey(c.Encode(e).value))
    ensures c.Decode(NormalizeSparkPublicKey(c.Encode(e).value)) == Ok(c.EvenY(e))
  {
    c.NegateExponent(e);
    c.NegateExponent(c.q - e);
  }
}
