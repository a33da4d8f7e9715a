/** The bytes of the wire format and of the multisig messages, spelled out, and what the reader makes of
    bytes that no writer produces. */
module WireBytes {
  import opened BigEndian
  import ModArith
  import opened MultisigProto
  import opened ProtoWire

  // ----- varints

  lemma {:induction false} DivideSeptet(v: nat, i: nat)
    ensures Septets(i) > 0 && (v / 128) / Septets(i) == v / Septets(i + 1)
  {
    SeptetsPositive(i);
    var p := Septets(i);
    var a := v / 128;
    assert v == 128 * a + v % 128 && a == p * (a / p) + a % p;
    assert v == (128 * p) * (a / p) + (128 * (a % p) + v % 128) by {
      assert (128 * p) * (a / p) == 128 * (p * (a / p));
    }
    ModArith.DivModUnique(128 * p, a / p, 128 * (a % p) + v % 128, v);
  }

  lemma {:induction false} SeptetsPositive(i: nat)
    ensures Septets(i) > 0
  {
    if i > 0 { SeptetsPositive(i - 1); }
  }

  /** Seven bits a byte, the lowest first, every byte but the last with its high bit set, and no longer
      than needed. */
  lemma {:induction false} VarintBytes(v: nat, i: nat)
    requires i < |EncodeVarint(v)|
    ensures var bytes := EncodeVarint(v);
      && Septets(i) > 0
      && bytes[i] == (v / Septets(i)) % 128 + (if i < |bytes| - 1 then 128 else 0)
      && (|bytes| > 1 ==> bytes[|bytes| - 1] > 0)
  {
    SeptetsPositive(i);
    if v >= 128 {
      assert EncodeVarint(v)[1..] == EncodeVarint(v / 128);
      if i > 0 {
        VarintBytes(v / 128, i - 1);
        DivideSeptet(v, i - 1);
      } else {
        VarintBytes(v / 128, 0);
        assert Septets(0) == 1;
      }
      LastPositive(v / 128);
    } else {
      assert Septets(0) == 1;
    }
  }

  lemma {:induction false} LastPositive(v: nat)
    requires v > 0
    ensures EncodeVarint(v)[|EncodeVarint(v)| - 1] > 0
  {
    if v >= 128 {
      LastPositive(v / 128);
    }
  }

  /** Only the low 32 bits of a varint are kept. */
  lemma KeepsLowBits(v: nat, ten: nat, suffix: seq<Byte>)
    requires ten == 10 && v < Septets(ten)
    ensures ReadUInt32(EncodeVarint(v) + suffix) == Done(v % 0x1_0000_0000, suffix)
  {
    VarintRoundTrip(v, ten, suffix);
  }

  /** A varint that does not end within ten bytes, or within the buffer, is refused; every other is read. */
  lemma {:induction false} VarintFailsExactly(buf: seq<Byte>, left: nat)
    ensures (forall i :: 0 <= i < |buf| && i < left ==> buf[i] >= 128) ==>
      DecodeVarint(buf, left) == Failed(if |buf| < left then PrematureEnd else InvalidVarint)
    ensures (exists i :: 0 <= i < |buf| && i < left && buf[i] < 128) ==> DecodeVarint(buf, left).Done?
  {
    if left > 0 && buf != [] && buf[0] >= 128 {
      assert forall i :: 0 <= i < |buf| - 1 ==> buf[1..][i] == buf[i + 1];
      VarintFailsExactly(buf[1..], left - 1);
      if i :| 0 <= i < |buf| && i < left && buf[i] < 128 {
        assert buf[1..][i - 1] < 128;
      }
      if forall i :: 0 <= i < |buf| && i < left ==> buf[i] >= 128 {
        forall i | 0 <= i < |buf[1..]| && i < left - 1 ensures buf[1..][i] >= 128 {
          assert buf[i + 1] >= 128;
        }
      }
    }
  }

  lemma TenBytesAtMost(buf: seq<Byte>, ten: nat)
    requires ten == 10
    ensures (forall i :: 0 <= i < |buf| && i < ten ==> buf[i] >= 128) ==>
      ReadUInt32(buf) == Failed(if |buf| < ten then PrematureEnd else InvalidVarint)
    ensures (exists i :: 0 <= i < |buf| && i < ten && buf[i] < 128) ==> ReadUInt32(buf).Done?
  {
    VarintFailsExactly(buf, ten);
  }

  /** Bytes are their length and themselves; a length beyond the buffer is refused. */
  lemma BytesReadExactly(n: nat, rest: seq<Byte>)
    requires n < 0x1_0000_0000
    ensures ReadBytes(EncodeVarint(n) + rest) == if |rest| < n then Failed(PrematureEnd) else Done(rest[..n], rest[n..])
  {
    UInt32RoundTrip(n, rest);
    hide EncodeVarint, ReadUInt32;
  }

  // ----- wire types

  /** The wire types by their numbers, and what each one skips. */
  lemma SkipsByNumber(wireType: nat, buf: seq<Byte>)
    ensures wireType == 0 ==> Skip(wireType, buf) == SkipVarint(buf)
    ensures wireType == 1 ==> Skip(wireType, buf) == if |buf| < 8 then Failed(PrematureEnd) else Done((), buf[8..])
    ensures wireType == 2 && ReadBytes(buf).Done? ==> Skip(wireType, buf) == Done((), ReadBytes(buf).rest)
    ensures wireType == 3 ==> Skip(wireType, buf) == SkipGroup(buf)
    ensures wireType == 5 ==> Skip(wireType, buf) == if |buf| < 4 then Failed(PrematureEnd) else Done((), buf[4..])
    ensures wireType == 4 || wireType > 5 ==> Skip(wireType, buf) == Failed(CannotSkip(wireType))
  {
    hide SkipVarint, SkipGroup, ReadBytes;
  }

  /** A group ends at a tag of wire type 4, whatever its number. */
  lemma GroupEnds(tag: nat, rest: seq<Byte>)
    requires tag < 0x1_0000_0000 && tag % 8 == 4
    ensures SkipGroup(EncodeVarint(tag) + rest) == Done((), rest)
  {
    SkipGroupStep(tag, rest);
  }

  predicate EndsEarly(tag: nat) { tag < 0x1_0000_0000 && (tag == 0 || tag % 8 == 4) }

  /** A message ends early at the tag 0 and at an end-group tag that no field of its own has. */
  lemma LoopEndsEarly<M>(step: Step<M>, m: M, tag: nat, rest: seq<Byte>, stop: int)
    requires EndsEarly(tag) && step(m, tag, rest).NotMine? && stop <= |rest|
    ensures Loop(step, m, EncodeVarint(tag) + rest, stop) == Done(m, rest)
  {
    UInt32RoundTrip(tag, rest);
    hide EncodeVarint, ReadUInt32, Skip;
  }

  lemma TagBytes(tag: nat)
    requires tag < 128
    ensures EncodeVarint(tag) == [tag]
  {
  }

  // ----- the messages

  /** The field's tag byte, and its value. */
  function NumberAt(tag: Byte, v: nat): seq<Byte> { if v == 0 then [] else [tag] + EncodeVarint(v) }

  function BytesAt(tag: Byte, bytes: seq<Byte>): seq<Byte> { [tag] + EncodeVarint(|bytes|) + bytes }

  function OptionalBytesAt(tag: Byte, bytes: seq<Byte>): seq<Byte> { if bytes == [] then [] else BytesAt(tag, bytes) }

  function EachAt(tag: Byte, items: seq<seq<Byte>>): seq<Byte>
  {
    if items == [] then [] else EachAt(tag, items[..|items| - 1]) + BytesAt(tag, items[|items| - 1])
  }

  lemma {:induction false} ConcatJoins(a: seq<seq<Byte>>, b: seq<seq<Byte>>)
    ensures Concat(a + b) == Concat(a) + Concat(b)
  {
    if a == [] {
      assert a + b == b;
    } else {
      ConcatJoins(a[1..], b);
      assert (a + b)[1..] == a[1..] + b && (a + b)[0] == a[0];
    }
  }

  lemma ConcatOf(piece: seq<Byte>)
    ensures Concat([piece]) == piece && Concat([]) == []
  {
    assert [piece][1..] == [];
  }

  lemma FieldBytes(tag: nat, bytes: seq<Byte>)
    requires tag < 128
    ensures BytesField(tag, bytes) == BytesAt(tag, bytes)
  {
    TagBytes(tag);
    hide EncodeVarint;
    assert [tag] + (EncodeVarint(|bytes|) + bytes) == [tag] + EncodeVarint(|bytes|) + bytes;
  }

  lemma NumberPiecesBytes(tag: nat, v: nat)
    requires tag < 128
    ensures Concat(NumberPieces(tag, v)) == NumberAt(tag, v)
  {
    TagBytes(tag);
    ConcatOf(NumberField(tag, v));
    hide EncodeVarint;
  }

  lemma BytesPiecesBytes(tag: nat, bytes: seq<Byte>)
    requires tag < 128
    ensures Concat(BytesPieces(tag, bytes)) == OptionalBytesAt(tag, bytes)
  {
    FieldBytes(tag, bytes);
    ConcatOf(BytesField(tag, bytes));
  }

  lemma {:induction false} RepeatedBytes(tag: nat, items: seq<seq<Byte>>)
    requires tag < 128
    ensures Concat(RepeatedPieces(tag, items)) == EachAt(tag, items)
    decreases items
  {
    if items != [] {
      RepeatedBytes(tag, items[..|items| - 1]);
      FieldBytes(tag, items[|items| - 1]);
      ConcatJoins(RepeatedPieces(tag, items[..|items| - 1]), [BytesField(tag, items[|items| - 1])]);
      ConcatOf(BytesField(tag, items[|items| - 1]));
    }
  }

  /** Field 1 is the version and field 2 the threshold, as varints and left out when zero; field 3 holds
      each public key in order. */
  lemma ConfigBytes(m: MultisigConfig)
    ensures EncodeConfig(m) == NumberAt(8, m.version) + NumberAt(16, m.threshold) + EachAt(26, m.publicKeys)
  {
    NumberPiecesBytes(NUMBER_1, m.version);
    NumberPiecesBytes(NUMBER_2, m.threshold);
    RepeatedBytes(DELIMITED_3, m.publicKeys);
    hide Concat, NumberPieces, RepeatedPieces, NumberAt, EachAt;
    var a, b := NumberPieces(NUMBER_1, m.version), NumberPieces(NUMBER_2, m.threshold);
    ConcatJoins(a, b);
    ConcatJoins(a + b, RepeatedPieces(DELIMITED_3, m.publicKeys));
  }

  /** Field 1 is the key, field 2 the signature, each left out when empty. */
  lemma SignatureBytes(m: KeyedSignature)
    ensures EncodeSignature(m) == OptionalBytesAt(10, m.publicKey) + OptionalBytesAt(18, m.signature)
  {
    BytesPiecesBytes(DELIMITED_1, m.publicKey);
    BytesPiecesBytes(DELIMITED_2, m.signature);
    hide Concat, BytesPieces, OptionalBytesAt;
    ConcatJoins(BytesPieces(DELIMITED_1, m.publicKey), BytesPieces(DELIMITED_2, m.signature));
  }

  /** Field 1 is the configuration, present even when it is empty; field 2 holds each signature in order. */
  lemma SetBytes(m: MultisigSignatureSet)
    ensures EncodeSet(m) ==
      (if m.multisigConfig.Some? then BytesAt(10, EncodeConfig(m.multisigConfig.value)) else [])
      + EachAt(18, EncodedSignatures(m.signatures))
  {
    RepeatedBytes(DELIMITED_2, EncodedSignatures(m.signatures));
    if m.multisigConfig.Some? {
      FieldBytes(DELIMITED_1, EncodeConfig(m.multisigConfig.value));
      ConcatOf(BytesField(DELIMITED_1, EncodeConfig(m.multisigConfig.value)));
    } else {
      ConcatOf([]);
    }
    hide Concat, RepeatedPieces, EachAt, BytesField, BytesAt, EncodeConfig, EncodedSignatures;
    ConcatJoins(match m.multisigConfig case None => [] case Some(c) => [BytesField(DELIMITED_1, EncodeConfig(c))],
                RepeatedPieces(DELIMITED_2, EncodedSignatures(m.signatures)));
  }

  /** Field 1 is a public key, field 2 a configuration, each present even when empty. */
  lemma AuthorityBytes(m: SigningAuthority)
    ensures EncodeAuthority(m) ==
      match m.authority
      case None => []
      case Some(OfPublicKey(key)) => BytesAt(10, key)
      case Some(OfMultisig(c)) => BytesAt(18, EncodeConfig(c))
  {
    hide EncodeConfig, BytesAt;
    match m.authority
    case None => ConcatOf([]);
    case Some(OfPublicKey(key)) =>
      FieldBytes(DELIMITED_1, key);
      ConcatOf(BytesField(DELIMITED_1, key));
    case Some(OfMultisig(c)) =>
      FieldBytes(DELIMITED_2, EncodeConfig(c));
      ConcatOf(BytesField(DELIMITED_2, EncodeConfig(c)));
  }
}
