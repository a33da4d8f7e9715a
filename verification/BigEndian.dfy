/** Numbers as bytes, most significant first. */
module BigEndian {
  type Byte = b: int | 0 <= b < 256

  /** 256 to the power k. */
  function Capacity(k: nat): (r: nat)
    ensures r > 0
  {
    if k == 0 then 1 else 256 * Capacity(k - 1)
  }

  /** The low k bytes of v. */
  function IntBytes(v: nat, k: nat): (r: seq<Byte>)
    ensures |r| == k
  {
    if k == 0 then [] else IntBytes(v / 256, k - 1) + [v % 256]
  }

  function FromBytes(bs: seq<Byte>): nat
  {
    if bs == [] then 0 else 256 * FromBytes(bs[..|bs| - 1]) + bs[|bs| - 1]
  }

  lemma {:induction false} IntRoundTrip(v: nat, k: nat)
    requires v < Capacity(k)
    ensures FromBytes(IntBytes(v, k)) == v
  {
    if k > 0 {
      IntRoundTrip(v / 256, k - 1);
      var bs := IntBytes(v, k);
      assert bs[..|bs| - 1] == IntBytes(v / 256, k - 1);
    }
  }

  lemma {:induction false} BytesRoundTrip(bs: seq<Byte>)
    ensures FromBytes(bs) < Capacity(|bs|) && IntBytes(FromBytes(bs), |bs|) == bs
  {
    if bs != [] {
      var front, last := bs[..|bs| - 1], bs[|bs| - 1];
      BytesRoundTrip(front);
      assert bs == front + [last];
    }
  }
}
