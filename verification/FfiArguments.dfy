/** The bytes of the arguments that cross the boundary as a whole: dictionaries, strings and booleans. */
module FfiArguments {
  import opened BigEndian
  import opened FfiBytes
  import opened FfiDictionaries
  import opened FfiFormat
  import opened FfiRoundTrip

  // ----- dictionaries

  function Pairs(t: Schema, d: Dictionary, keys: seq<seq<Byte>>): (r: seq<seq<Byte>>)
    requires EncodableDictionary(t, d) && forall k :: k in keys ==> k in d
    ensures |r| == |keys| && forall i :: 0 <= i < |r| ==> r[i] == Block(keys[i]) + Encode(t, d[keys[i]])
  {
    seq(|keys|, i requires 0 <= i < |keys| => Block(keys[i]) + Encode(t, d[keys[i]]))
  }

  lemma {:induction false} PairsBytes(t: Schema, d: Dictionary, keys: seq<seq<Byte>>)
    requires EncodableDictionary(t, d) && forall k :: k in keys ==> k in d
    ensures EncodePairs(t, d, keys) == Joined(Pairs(t, d, keys))
    decreases keys
  {
    hide Encode, Encodable, Block;
    if keys != [] {
      assert keys[0] in keys && forall k :: k in keys[1..] ==> k in keys;
      PairsBytes(t, d, keys[1..]);
      BlockBytes(keys[0]);
      assert Pairs(t, d, keys)[1..] == Pairs(t, d, keys[1..]);
      assert Pairs(t, d, keys)[0] == Block(keys[0]) + Encode(t, d[keys[0]]);
    }
  }

  /** A dictionary is its size and then each key, length-prefixed, with its value, in iteration order. */
  lemma DictionaryBytes(t: Schema, d: Dictionary, keys: seq<seq<Byte>>)
    requires EncodableDictionary(t, d) && forall k :: k in keys ==> k in d
    ensures EncodeDictionary(t, d, keys) == Word(|d|) + Joined(Pairs(t, d, keys))
  {
    PairsBytes(t, d, keys);
    WordBytes(|d|, LENGTH_WIDTH);
    hide IntBytes, Word, Joined, EncodePairs, Pairs;
  }

  /** A dictionary without room for its size overflows, one with a negative size crashes. */
  lemma DictionaryReads(t: Schema, buf: seq<Byte>)
    ensures |buf| < 4 ==> DecodeDictionary(t, buf) == Thrown(BufferOverflow)
    ensures |buf| >= 4 && buf[0] >= 128 ==> DecodeDictionary(t, buf) == Crashed
  {
    if |buf| >= 4 {
      WordReads(buf, LENGTH_WIDTH);
      hide FromBytes;
    }
  }

  type Pair = (seq<Byte>, Value)

  predicate EncodablePair(t: Schema, p: Pair) { Small(p.0) && Encodable(t, p.1) }

  function PairBlock(t: Schema, p: Pair): seq<Byte>
    requires EncodablePair(t, p)
  {
    Block(p.0) + Encode(t, p.1)
  }

  function PairBlocks(t: Schema, ps: seq<Pair>): (r: seq<seq<Byte>>)
    requires forall i :: 0 <= i < |ps| ==> EncodablePair(t, ps[i])
    ensures |r| == |ps| && forall i :: 0 <= i < |r| ==> r[i] == PairBlock(t, ps[i])
  {
    seq(|ps|, i requires 0 <= i < |ps| && EncodablePair(t, ps[i]) => PairBlock(t, ps[i]))
  }

  function Stored(d: Dictionary, ps: seq<Pair>): Dictionary
    decreases ps
  {
    if ps == [] then d else Stored(d[ps[0].0 := ps[0].1], ps[1..])
  }

  lemma {:induction false} PairsAreStored(t: Schema, ps: seq<Pair>, d: Dictionary, suffix: seq<Byte>)
    requires forall i :: 0 <= i < |ps| ==> EncodablePair(t, ps[i])
    ensures DecodePairs(t, Joined(PairBlocks(t, ps)) + suffix, |ps|, d) == Done(Stored(d, ps), suffix)
    decreases ps
  {
    hide Decode, Encode, Encodable, Block, ReadBlock;
    if ps == [] {
      assert Joined(PairBlocks(t, ps)) + suffix == suffix;
    } else {
      PairsAreStored(t, ps[1..], d[ps[0].0 := ps[0].1], suffix);
      assert PairBlocks(t, ps)[1..] == PairBlocks(t, ps[1..]);
      assert EncodablePair(t, ps[0]);
      var tail := Joined(PairBlocks(t, ps[1..])) + suffix;
      assert Joined(PairBlocks(t, ps)) + suffix == Block(ps[0].0) + (Encode(t, ps[0].1) + tail);
      BlockBytes(ps[0].0);
      BlockRoundTrip(ps[0].0, Encode(t, ps[0].1) + tail);
      DecodeEncode(t, ps[0].1, tail);
      hide *;
      DecodePairsStep(t, Block(ps[0].0) + (Encode(t, ps[0].1) + tail), |ps|, d);
    }
  }

  lemma {:induction false} StoresOnlyGiven(d: Dictionary, ps: seq<Pair>, key: seq<Byte>)
    requires forall i :: 0 <= i < |ps| ==> ps[i].0 != key
    ensures (key in Stored(d, ps) <==> key in d) && (key in d ==> Stored(d, ps)[key] == d[key])
    decreases ps
  {
    if ps != [] {
      StoresOnlyGiven(d[ps[0].0 := ps[0].1], ps[1..], key);
    }
  }

  lemma {:induction false} StoresLast(d: Dictionary, ps: seq<Pair>, i: nat)
    requires i < |ps| && forall j :: i < j < |ps| ==> ps[j].0 != ps[i].0
    ensures ps[i].0 in Stored(d, ps) && Stored(d, ps)[ps[i].0] == ps[i].1
    decreases ps
  {
    var next := d[ps[0].0 := ps[0].1];
    if i == 0 {
      StoresOnlyGiven(next, ps[1..], ps[0].0);
    } else {
      StoresLast(next, ps[1..], i - 1);
    }
  }

  /** Whatever pairs a dictionary's buffer holds, each key comes back with the last value it was given. */
  lemma DictionaryKeepsLast(t: Schema, ps: seq<Pair>, suffix: seq<Byte>, i: nat)
    requires |ps| < 0x8000_0000 && forall j :: 0 <= j < |ps| ==> EncodablePair(t, ps[j])
    requires i < |ps| && forall j :: i < j < |ps| ==> ps[j].0 != ps[i].0
    ensures var o := DecodeDictionary(t, Word(|ps|) + (Joined(PairBlocks(t, ps)) + suffix));
      && o.Done? && o.rest == suffix
      && ps[i].0 in o.value && o.value[ps[i].0] == ps[i].1
      && forall key :: key in o.value ==> exists j :: 0 <= j < |ps| && ps[j].0 == key
  {
    var after := Joined(PairBlocks(t, ps)) + suffix;
    PairsAreStored(t, ps, map[], suffix);
    WordBytes(|ps|, LENGTH_WIDTH);
    LengthFits(|ps|);
    ReadWritten(|ps|, LENGTH_WIDTH, after);
    hide IntBytes, Word, Joined, PairBlocks, DecodePairs, Stored, Encodable, Capacity, FromBytes;
    StoresLast(map[], ps, i);
    forall key | key in Stored(map[], ps) ensures exists j :: 0 <= j < |ps| && ps[j].0 == key {
      if forall j :: 0 <= j < |ps| ==> ps[j].0 != key {
        StoresOnlyGiven(map[], ps, key);
      }
    }
  }

  // ----- whole arguments

  /** A buffer without data is the empty string, and no value of any other kind. */
  lemma NothingToLift(t: Schema)
    requires LiftsByReading(t)
    ensures LiftString(NoData) == [] && Lift(t, NoData) == Crashed && LiftDictionary(t, NoData) == Crashed
  {
  }

  /** The bytes of a lowered string are the string; a lowered boolean is 0 or 1, and any other number than 0
      is true. */
  lemma PlainArguments(s: seq<Byte>, b: bool, n: Int8)
    ensures LowerString(s) == Holding(s) && LiftString(Holding(s)) == s
    ensures LowerBool(b) == (if b then 1 else 0) && (LiftBool(n) <==> n != 0)
  {
    assert CString(s)[..|s|] == s;
  }
}
