/** Dictionaries cross the bindings in whatever order they iterate; they come back the same. */
module FfiDictionaries {
  import opened BigEndian
  import opened FfiFormat
  import opened FfiRoundTrip

  ghost function Submap(d: Dictionary, keys: seq<seq<Byte>>): Dictionary
    requires forall k :: k in keys ==> k in d
  {
    map k | k in keys :: d[k]
  }

  lemma EncodePairsStep(t: Schema, d: Dictionary, keys: seq<seq<Byte>>)
    requires EncodableDictionary(t, d) && keys != [] && forall k :: k in keys ==> k in d
    ensures keys[0] in d && Encodable(t, d[keys[0]]) && |keys[0]| < LENGTH_LIMIT && forall k :: k in keys[1..] ==> k in d
    ensures EncodePairs(t, d, keys)
      == EncodeBlock(keys[0]) + Encode(t, d[keys[0]]) + EncodePairs(t, d, keys[1..])
  {
    assert keys[0] in keys;
  }

  /** Reading one pair when its key and its value can be read. */
  lemma DecodePairsStep(t: Schema, buf: seq<Byte>, count: nat, seen: Dictionary)
    requires count > 0
    ensures ReadBlock(buf) == Thrown(BufferOverflow) ==> DecodePairs(t, buf, count, seen) == Thrown(BufferOverflow)
    ensures ReadBlock(buf).Done? && Decode(t, ReadBlock(buf).rest) == Thrown(BufferOverflow) ==>
      DecodePairs(t, buf, count, seen) == Thrown(BufferOverflow)
    ensures ReadBlock(buf).Done? && Decode(t, ReadBlock(buf).rest).Done? ==>
      DecodePairs(t, buf, count, seen)
        == DecodePairs(t, Decode(t, ReadBlock(buf).rest).rest, count - 1, seen[ReadBlock(buf).value := Decode(t, ReadBlock(buf).rest).value])
  {
  }

  lemma SubmapStep(d: Dictionary, keys: seq<seq<Byte>>, seen: Dictionary)
    requires keys != [] && forall k :: k in keys ==> k in d
    ensures keys[0] in d && (forall k :: k in keys[1..] ==> k in d)
    ensures seen[keys[0] := d[keys[0]]] + Submap(d, keys[1..]) == seen + Submap(d, keys)
  {
    assert keys[0] in keys;
    assert forall k :: k in keys <==> k == keys[0] || k in keys[1..];
  }

  lemma SubmapEnd(d: Dictionary, seen: Dictionary)
    ensures seen + Submap(d, []) == seen
  {
  }

  lemma {:induction false} PairsRoundTrip(t: Schema, d: Dictionary, keys: seq<seq<Byte>>, seen: Dictionary, suffix: seq<Byte>)
    requires EncodableDictionary(t, d) && forall k :: k in keys ==> k in d
    ensures DecodePairs(t, EncodePairs(t, d, keys) + suffix, |keys|, seen) == Done(seen + Submap(d, keys), suffix)
    decreases keys
  {
    hide Decode, Encode, ReadBlock, Encodable, IntBytes, EncodeBlock, Submap;
    if keys == [] {
      SubmapEnd(d, seen);
      assert EncodePairs(t, d, keys) + suffix == suffix;
    } else {
      var key := keys[0];
      EncodePairsStep(t, d, keys);
      SubmapStep(d, keys, seen);
      PairsRoundTrip(t, d, keys[1..], seen[key := d[key]], suffix);
      hide DecodePairs, EncodePairs;
      var tail := EncodePairs(t, d, keys[1..]) + suffix;
      var buf := EncodePairs(t, d, keys) + suffix;
      assert buf == EncodeBlock(key) + (Encode(t, d[key]) + tail);
      BlockRoundTrip(key, Encode(t, d[key]) + tail);
      DecodeEncode(t, d[key], tail);
      DecodePairsStep(t, buf, |keys|, seen);
    }
  }

  /** Where a cut falls in a block, a value and what follows. */
  lemma {:induction false} PairsPrefixOverflows(t: Schema, d: Dictionary, keys: seq<seq<Byte>>, seen: Dictionary, p: seq<Byte>)
    requires EncodableDictionary(t, d) && (forall k :: k in keys ==> k in d) && ProperPrefix(p, EncodePairs(t, d, keys))
    ensures DecodePairs(t, p, |keys|, seen) == Thrown(BufferOverflow)
    decreases keys
  {
    hide Decode, Encode, ReadBlock, Encodable, IntBytes, EncodeBlock, DecodePairs;
    EncodePairsStep(t, d, keys);
    var key := keys[0];
    var block, value, tail := EncodeBlock(key), Encode(t, d[key]), EncodePairs(t, d, keys[1..]);
    assert EncodePairs(t, d, keys) == block + (value + tail);
    DecodePairsStep(t, p, |keys|, seen);
    SplitPrefix(p, block, value + tail);
    if ProperPrefix(p, block) {
      PrefixOverflowsBlock(p, key);
    } else {
      var q := p[|block|..];
      BlockRoundTrip(key, q);
      SplitPrefix(q, value, tail);
      if ProperPrefix(q, value) {
        PrefixOverflows(t, d[key], q);
      } else {
        var r := q[|value|..];
        DecodeEncode(t, d[key], r);
        PairsPrefixOverflows(t, d, keys[1..], seen[key := d[key]], r);
      }
    }
  }

  lemma DecodeDictionaryStep(t: Schema, buf: seq<Byte>)
    ensures ReadInt(buf, LENGTH_WIDTH) == Thrown(BufferOverflow) ==> DecodeDictionary(t, buf) == Thrown(BufferOverflow)
    ensures ReadInt(buf, LENGTH_WIDTH).Done? && 0 <= Signed32(ReadInt(buf, LENGTH_WIDTH).value) ==>
      DecodeDictionary(t, buf) == DecodePairs(t, ReadInt(buf, LENGTH_WIDTH).rest, Signed32(ReadInt(buf, LENGTH_WIDTH).value), map[])
  {
  }

  /** For every iteration order: lifting returns the dictionary, less overflows, more is incomplete. */
  lemma DictionaryRoundTrip(t: Schema, d: Dictionary, keys: seq<seq<Byte>>, p: seq<Byte>, suffix: seq<Byte>)
    requires EncodableDictionary(t, d) && KeyOrder(d, keys)
    ensures DecodeDictionary(t, EncodeDictionary(t, d, keys) + suffix) == Done(d, suffix)
    ensures LiftDictionary(t, Holding(EncodeDictionary(t, d, keys))) == Done(d, [])
    ensures suffix != [] ==> LiftDictionary(t, Holding(EncodeDictionary(t, d, keys) + suffix)) == Thrown(IncompleteData)
    ensures ProperPrefix(p, EncodeDictionary(t, d, keys)) ==> LiftDictionary(t, Holding(p)) == Thrown(BufferOverflow)
  {
    hide IntBytes, ReadInt, Capacity, Signed32, DecodeDictionary, Encodable;
    WholeDictionary(t, d, keys, suffix);
    WholeDictionary(t, d, keys, []);
    assert EncodeDictionary(t, d, keys) + [] == EncodeDictionary(t, d, keys);
    if ProperPrefix(p, EncodeDictionary(t, d, keys)) {
      CutDictionary(t, d, keys, p);
    }
  }

  lemma WholeDictionary(t: Schema, d: Dictionary, keys: seq<seq<Byte>>, suffix: seq<Byte>)
    requires EncodableDictionary(t, d) && KeyOrder(d, keys)
    ensures DecodeDictionary(t, EncodeDictionary(t, d, keys) + suffix) == Done(d, suffix)
  {
    hide IntBytes, ReadInt, Capacity, Signed32, DecodeDictionary, DecodePairs, EncodePairs, Encodable;
    var pairs := EncodePairs(t, d, keys);
    var buf := EncodeDictionary(t, d, keys) + suffix;
    LengthFits(|d|);
    assert buf == IntBytes(|d|, LENGTH_WIDTH) + (pairs + suffix);
    ReadWritten(|d|, LENGTH_WIDTH, pairs + suffix);
    DecodeDictionaryStep(t, buf);
    PairsRoundTrip(t, d, keys, map[], suffix);
    assert map[] + Submap(d, keys) == d;
  }

  lemma CutDictionary(t: Schema, d: Dictionary, keys: seq<seq<Byte>>, p: seq<Byte>)
    requires EncodableDictionary(t, d) && KeyOrder(d, keys) && ProperPrefix(p, EncodeDictionary(t, d, keys))
    ensures DecodeDictionary(t, p) == Thrown(BufferOverflow)
  {
    var count, pairs := IntBytes(|d|, LENGTH_WIDTH), EncodePairs(t, d, keys);
    hide IntBytes, Capacity, Signed32, DecodeDictionary, DecodePairs, EncodePairs, Encodable;
    LengthFits(|d|);
    DecodeDictionaryStep(t, p);
    SplitPrefix(p, count, pairs);
    if |p| >= LENGTH_WIDTH {
      var q := p[LENGTH_WIDTH..];
      ReadWritten(|d|, LENGTH_WIDTH, q);
      PairsPrefixOverflows(t, d, keys, map[], q);
    }
  }
}
