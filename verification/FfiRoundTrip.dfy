/** What the converters promise for every schema: lifting undoes lowering, short and long buffers are
    told apart from good ones, and an accepted buffer is the one that would be lowered. */
module FfiRoundTrip {
  import opened BigEndian
  import opened FfiFormat

  // ----- integers

  lemma ReadWritten(v: nat, k: nat, suffix: seq<Byte>)
    requires v < Capacity(k)
    ensures ReadInt(IntBytes(v, k) + suffix, k) == Done(v, suffix)
  {
    IntRoundTrip(v, k);
    var buf := IntBytes(v, k) + suffix;
    assert buf[..k] == IntBytes(v, k) && buf[k..] == suffix;
  }

  /** What was read is exactly what would be written. */
  lemma ReadIsWritten(buf: seq<Byte>, k: nat)
    requires ReadInt(buf, k).Done?
    ensures var o := ReadInt(buf, k); o.value < Capacity(k) && buf == IntBytes(o.value, k) + o.rest
  {
    BytesRoundTrip(buf[..k]);
    assert buf == buf[..k] + buf[k..];
  }

  lemma Capacities()
    ensures Capacity(TAG_WIDTH) == 256 && Capacity(LENGTH_WIDTH) == 2 * LENGTH_LIMIT
  {
    assert Capacity(0) == 1;
    assert Capacity(1) == 256;
    assert Capacity(2) == 65536;
    assert Capacity(3) == 16777216;
  }

  lemma LengthFits(n: nat)
    requires n < LENGTH_LIMIT
    ensures n < Capacity(LENGTH_WIDTH) && Signed32(n) == n
  {
    Capacities();
  }

  // ----- bytes

  lemma BlockRoundTrip(bytes: seq<Byte>, suffix: seq<Byte>)
    requires |bytes| < LENGTH_LIMIT
    ensures ReadBlock(EncodeBlock(bytes) + suffix) == Done(bytes, suffix)
  {
    hide IntBytes, ReadInt, Capacity, Signed32;
    LengthFits(|bytes|);
    ReadWritten(|bytes|, LENGTH_WIDTH, bytes + suffix);
    assert EncodeBlock(bytes) + suffix == IntBytes(|bytes|, LENGTH_WIDTH) + (bytes + suffix);
    assert (bytes + suffix)[..|bytes|] == bytes && (bytes + suffix)[|bytes|..] == suffix;
  }

  // ----- lifting undoes lowering

  lemma DecodeField(a: Schema, b: Schema, buf: seq<Byte>)
    ensures Decode(Field(a, b), buf) ==
      match Decode(a, buf)
      case Done(head, rest) => WrapMember(head, Decode(b, rest))
      case Thrown(e) => Thrown(e)
      case Crashed => Crashed
  {
  }

  lemma EncodeField(a: Schema, b: Schema, head: Value, tail: Value)
    requires Encodable(a, head) && Encodable(b, tail)
    ensures Encodable(Field(a, b), Member(head, tail))
    ensures Encode(Field(a, b), Member(head, tail)) == Encode(a, head) + Encode(b, tail)
  {
  }

  lemma FieldRoundTrip(a: Schema, b: Schema, head: Value, tail: Value, suffix: seq<Byte>)
    requires Encodable(a, head) && Encodable(b, tail)
    requires Decode(b, Encode(b, tail) + suffix) == Done(tail, suffix)
    requires Decode(a, Encode(a, head) + (Encode(b, tail) + suffix)) == Done(head, Encode(b, tail) + suffix)
    ensures Encodable(Field(a, b), Member(head, tail))
    ensures Decode(Field(a, b), Encode(Field(a, b), Member(head, tail)) + suffix) == Done(Member(head, tail), suffix)
  {
    hide Decode, Encode, Encodable;
    EncodeField(a, b, head, tail);
    var buf := Encode(Field(a, b), Member(head, tail)) + suffix;
    DecodeField(a, b, buf);
    assert buf == Encode(a, head) + (Encode(b, tail) + suffix);
  }

  lemma DecodeOption(t: Schema, buf: seq<Byte>)
    ensures !ReadInt(buf, TAG_WIDTH).Done? ==> !Decode(OptionOf(t), buf).Done?
    ensures ReadInt(buf, TAG_WIDTH).Done? && ReadInt(buf, TAG_WIDTH).value == ABSENT_TAG ==> Decode(OptionOf(t), buf) == Done(Absent, ReadInt(buf, TAG_WIDTH).rest)
    ensures ReadInt(buf, TAG_WIDTH).Done? && ReadInt(buf, TAG_WIDTH).value == PRESENT_TAG ==>
      Decode(OptionOf(t), buf) == WrapPresent(Decode(t, ReadInt(buf, TAG_WIDTH).rest))
    ensures ReadInt(buf, TAG_WIDTH).Done? && ReadInt(buf, TAG_WIDTH).value > PRESENT_TAG ==> Decode(OptionOf(t), buf) == Thrown(UnexpectedOptionalTag)
  {
  }

  lemma EncodeOption(t: Schema, v: Value)
    requires Encodable(t, v)
    ensures Encodable(OptionOf(t), Present(v)) && Encode(OptionOf(t), Present(v)) == IntBytes(PRESENT_TAG, TAG_WIDTH) + Encode(t, v)
    ensures Encodable(OptionOf(t), Absent) && Encode(OptionOf(t), Absent) == IntBytes(ABSENT_TAG, TAG_WIDTH)
  {
  }

  lemma PresentRoundTrip(t: Schema, v: Value, suffix: seq<Byte>)
    requires Encodable(t, v) && Decode(t, Encode(t, v) + suffix) == Done(v, suffix)
    ensures Encodable(OptionOf(t), Present(v))
    ensures Decode(OptionOf(t), Encode(OptionOf(t), Present(v)) + suffix) == Done(Present(v), suffix)
  {
    hide Decode, Encode, Encodable, IntBytes, ReadInt, Capacity;
    Capacities();
    ReadWritten(PRESENT_TAG, TAG_WIDTH, Encode(t, v) + suffix);
    EncodeOption(t, v);
    var buf := Encode(OptionOf(t), Present(v)) + suffix;
    DecodeOption(t, buf);
    assert buf == IntBytes(PRESENT_TAG, TAG_WIDTH) + (Encode(t, v) + suffix);
  }

  lemma AbsentRoundTrip(t: Schema, suffix: seq<Byte>)
    ensures Decode(OptionOf(t), Encode(OptionOf(t), Absent) + suffix) == Done(Absent, suffix)
  {
    Capacities();
    ReadWritten(ABSENT_TAG, TAG_WIDTH, suffix);
  }

  lemma DecodeSequence(t: Schema, buf: seq<Byte>)
    ensures !ReadInt(buf, LENGTH_WIDTH).Done? ==> !Decode(SequenceOf(t), buf).Done?
    ensures ReadInt(buf, LENGTH_WIDTH).Done? ==>
      if Signed32(ReadInt(buf, LENGTH_WIDTH).value) < 0 then Decode(SequenceOf(t), buf) == Crashed
      else Decode(SequenceOf(t), buf) == WrapItems(DecodeItems(t, ReadInt(buf, LENGTH_WIDTH).rest, Signed32(ReadInt(buf, LENGTH_WIDTH).value)))
  {
  }

  lemma EncodeSequence(t: Schema, vs: seq<Value>)
    requires |vs| < LENGTH_LIMIT && forall i :: 0 <= i < |vs| ==> Encodable(t, vs[i])
    ensures Encodable(SequenceOf(t), Items(vs)) && Encode(SequenceOf(t), Items(vs)) == IntBytes(|vs|, LENGTH_WIDTH) + EncodeItems(t, vs)
  {
  }

  lemma SequenceRoundTrip(t: Schema, vs: seq<Value>, suffix: seq<Byte>)
    requires |vs| < LENGTH_LIMIT && forall i :: 0 <= i < |vs| ==> Encodable(t, vs[i])
    requires DecodeItems(t, EncodeItems(t, vs) + suffix, |vs|) == Done(vs, suffix)
    ensures Encodable(SequenceOf(t), Items(vs))
    ensures Decode(SequenceOf(t), Encode(SequenceOf(t), Items(vs)) + suffix) == Done(Items(vs), suffix)
  {
    hide Decode, Encode, Encodable, IntBytes, ReadInt, Capacity, DecodeItems, EncodeItems;
    LengthFits(|vs|);
    ReadWritten(|vs|, LENGTH_WIDTH, EncodeItems(t, vs) + suffix);
    EncodeSequence(t, vs);
    var buf := Encode(SequenceOf(t), Items(vs)) + suffix;
    DecodeSequence(t, buf);
    assert buf == IntBytes(|vs|, LENGTH_WIDTH) + (EncodeItems(t, vs) + suffix);
  }

  lemma PlainRoundTrip(s: Schema, v: Value, suffix: seq<Byte>)
    requires Encodable(s, v) && !s.OptionOf? && !s.SequenceOf? && !s.Field?
    ensures Decode(s, Encode(s, v) + suffix) == Done(v, suffix)
  {
    match s
    case Data => BlockRoundTrip(v.bytes, suffix);
    case Str => BlockRoundTrip(v.bytes, suffix);
    case End => assert Encode(s, v) + suffix == suffix;
    case UInt16 => ReadWritten(v.n, 2, suffix);
    case UInt32 => ReadWritten(v.n, 4, suffix);
    case UInt64 => ReadWritten(v.n, 8, suffix);
  }

  /** Decoding takes exactly the encoded bytes and leaves whatever follows them alone. */
  lemma {:induction false} DecodeEncode(s: Schema, v: Value, suffix: seq<Byte>)
    requires Encodable(s, v)
    ensures Decode(s, Encode(s, v) + suffix) == Done(v, suffix)
    decreases s, 0
  {
    hide Decode, Encode, DecodeItems, EncodeItems;
    match s
    case OptionOf(t) =>
      if v.Present? {
        DecodeEncode(t, v.value, suffix);
        PresentRoundTrip(t, v.value, suffix);
      } else {
        AbsentRoundTrip(t, suffix);
      }
    case SequenceOf(t) =>
      DecodeEncodeItems(t, v.items, suffix);
      SequenceRoundTrip(t, v.items, suffix);
    case Field(a, b) =>
      DecodeEncode(b, v.tail, suffix);
      DecodeEncode(a, v.head, Encode(b, v.tail) + suffix);
      FieldRoundTrip(a, b, v.head, v.tail, suffix);
    case _ => PlainRoundTrip(s, v, suffix);
  }

  lemma {:induction false} DecodeEncodeItems(t: Schema, vs: seq<Value>, suffix: seq<Byte>)
    requires forall i :: 0 <= i < |vs| ==> Encodable(t, vs[i])
    ensures DecodeItems(t, EncodeItems(t, vs) + suffix, |vs|) == Done(vs, suffix)
    decreases t, |vs| + 1
  {
    hide Encode, Decode, Encodable;
    if vs == [] {
      assert EncodeItems(t, vs) + suffix == suffix;
    } else {
      DecodeEncodeItems(t, vs[1..], suffix);
      DecodeEncode(t, vs[0], EncodeItems(t, vs[1..]) + suffix);
      assert EncodeItems(t, vs) + suffix == Encode(t, vs[0]) + (EncodeItems(t, vs[1..]) + suffix);
      assert vs == [vs[0]] + vs[1..];
    }
  }

  // ----- a cut-off buffer always overflows

  ghost predicate ProperPrefix(p: seq<Byte>, whole: seq<Byte>) { |p| < |whole| && p == whole[..|p|] }

  /** A proper prefix of two parts is a proper prefix of the first, or all of it and one of the second. */
  lemma SplitPrefix(p: seq<Byte>, a: seq<Byte>, b: seq<Byte>)
    requires ProperPrefix(p, a + b)
    ensures ProperPrefix(p, a) || (|p| >= |a| && p == a + p[|a|..] && ProperPrefix(p[|a|..], b))
  {
    if |p| < |a| {
      assert (a + b)[..|p|] == a[..|p|];
    } else {
      assert (a + b)[..|p|] == a + b[..|p| - |a|];
    }
  }

  lemma PrefixOverflowsBlock(p: seq<Byte>, bytes: seq<Byte>)
    requires |bytes| < LENGTH_LIMIT && ProperPrefix(p, EncodeBlock(bytes))
    ensures ReadBlock(p) == Thrown(BufferOverflow)
  {
    LengthFits(|bytes|);
    SplitPrefix(p, IntBytes(|bytes|, LENGTH_WIDTH), bytes);
    if |p| >= LENGTH_WIDTH {
      ReadWritten(|bytes|, LENGTH_WIDTH, p[LENGTH_WIDTH..]);
    }
  }

  lemma {:induction false} PrefixOverflows(s: Schema, v: Value, p: seq<Byte>)
    requires Encodable(s, v) && ProperPrefix(p, Encode(s, v))
    ensures Decode(s, p) == Thrown(BufferOverflow)
    decreases s, 0
  {
    match s
    case Data => PrefixOverflowsBlock(p, v.bytes);
    case Str => PrefixOverflowsBlock(p, v.bytes);
    case OptionOf(t) =>
      if v.Present? && |p| >= TAG_WIDTH {
        SplitPrefix(p, IntBytes(PRESENT_TAG, TAG_WIDTH), Encode(t, v.value));
        Capacities();
        ReadWritten(PRESENT_TAG, TAG_WIDTH, p[TAG_WIDTH..]);
        PrefixOverflows(t, v.value, p[TAG_WIDTH..]);
      }
    case SequenceOf(t) =>
      if |p| >= LENGTH_WIDTH {
        LengthFits(|v.items|);
        SplitPrefix(p, IntBytes(|v.items|, LENGTH_WIDTH), EncodeItems(t, v.items));
        ReadWritten(|v.items|, LENGTH_WIDTH, p[LENGTH_WIDTH..]);
        PrefixOverflowsItems(t, v.items, p[LENGTH_WIDTH..]);
      }
    case Field(a, b) =>
      SplitPrefix(p, Encode(a, v.head), Encode(b, v.tail));
      if ProperPrefix(p, Encode(a, v.head)) {
        PrefixOverflows(a, v.head, p);
      } else {
        var q := p[|Encode(a, v.head)|..];
        DecodeEncode(a, v.head, q);
        PrefixOverflows(b, v.tail, q);
      }
    case _ =>
  }

  lemma {:induction false} PrefixOverflowsItems(t: Schema, vs: seq<Value>, p: seq<Byte>)
    requires (forall i :: 0 <= i < |vs| ==> Encodable(t, vs[i])) && ProperPrefix(p, EncodeItems(t, vs))
    ensures DecodeItems(t, p, |vs|) == Thrown(BufferOverflow)
    decreases t, |vs| + 1
  {
    hide Encode, Decode, Encodable;
    SplitPrefix(p, Encode(t, vs[0]), EncodeItems(t, vs[1..]));
    if ProperPrefix(p, Encode(t, vs[0])) {
      PrefixOverflows(t, vs[0], p);
    } else {
      var q := p[|Encode(t, vs[0])|..];
      DecodeEncode(t, vs[0], q);
      PrefixOverflowsItems(t, vs[1..], q);
    }
  }

  /** Lifting a lowered value returns it; lifting less throws an overflow; lifting more is refused as
      incomplete. No other buffer that begins with, or is the beginning of, a lowered value is accepted. */
  lemma LiftLower(s: Schema, v: Value, p: seq<Byte>, suffix: seq<Byte>)
    requires LiftsByReading(s) && Encodable(s, v)
    ensures Lift(s, Lower(s, v)) == Done(v, [])
    ensures ProperPrefix(p, Lower(s, v).bytes) ==> Lift(s, Holding(p)) == Thrown(BufferOverflow)
    ensures suffix != [] ==> Lift(s, Holding(Lower(s, v).bytes + suffix)) == Thrown(IncompleteData)
  {
    DecodeEncode(s, v, []);
    assert Encode(s, v) + [] == Encode(s, v);
    DecodeEncode(s, v, suffix);
    if ProperPrefix(p, Lower(s, v).bytes) {
      PrefixOverflows(s, v, p);
    }
  }

  // ----- an accepted buffer is canonical

  lemma ReadBlockIsWritten(buf: seq<Byte>)
    requires ReadBlock(buf).Done?
    ensures var o := ReadBlock(buf); |o.value| < LENGTH_LIMIT && buf == EncodeBlock(o.value) + o.rest
  {
    ReadIsWritten(buf, LENGTH_WIDTH);
    Capacities();
    var n, rest := ReadInt(buf, LENGTH_WIDTH).value, ReadInt(buf, LENGTH_WIDTH).rest;
    assert rest == rest[..Signed32(n)] + rest[Signed32(n)..];
    assert buf == IntBytes(n, LENGTH_WIDTH) + (rest[..Signed32(n)] + rest[Signed32(n)..]);
  }

  /** If decoding succeeds, the bytes it took are the encoding of its value. */
  predicate Canonical(s: Schema, buf: seq<Byte>)
  {
    var o := Decode(s, buf);
    o.Done? ==> Encodable(s, o.value) && buf == Encode(s, o.value) + o.rest
  }

  predicate CanonicalItems(t: Schema, buf: seq<Byte>, count: nat)
  {
    var o := DecodeItems(t, buf, count);
    o.Done? ==>
      |o.value| == count && (forall i :: 0 <= i < |o.value| ==> Encodable(t, o.value[i])) && buf == EncodeItems(t, o.value) + o.rest
  }

  lemma FieldIsCanonical(a: Schema, b: Schema, buf: seq<Byte>)
    requires Canonical(a, buf) && (Decode(a, buf).Done? ==> Canonical(b, Decode(a, buf).rest))
    ensures Canonical(Field(a, b), buf)
  {
    hide Decode, Encode, Encodable;
    DecodeField(a, b, buf);
    var head := Decode(a, buf);
    if head.Done? && Decode(b, head.rest).Done? {
      var tail := Decode(b, head.rest);
      EncodeField(a, b, head.value, tail.value);
      assert buf == Encode(a, head.value) + (Encode(b, tail.value) + tail.rest);
    }
  }

  lemma OptionIsCanonical(t: Schema, buf: seq<Byte>)
    requires ReadInt(buf, TAG_WIDTH).Done? ==> Canonical(t, ReadInt(buf, TAG_WIDTH).rest)
    ensures Canonical(OptionOf(t), buf)
  {
    hide Decode, Encode, Encodable, IntBytes, ReadInt, Capacity;
    if ReadInt(buf, TAG_WIDTH).Done? { ReadIsWritten(buf, TAG_WIDTH); }
    DecodeOption(t, buf);
    var tag := ReadInt(buf, TAG_WIDTH);
    if tag.Done? && tag.value == PRESENT_TAG && Decode(t, tag.rest).Done? {
      var o := Decode(t, tag.rest);
      EncodeOption(t, o.value);
      assert buf == IntBytes(PRESENT_TAG, TAG_WIDTH) + (Encode(t, o.value) + o.rest);
    } else if tag.Done? && tag.value == ABSENT_TAG {
      AbsentIsEncoded(t);
    }
  }

  lemma AbsentIsEncoded(t: Schema)
    ensures Encodable(OptionOf(t), Absent) && Encode(OptionOf(t), Absent) == IntBytes(ABSENT_TAG, TAG_WIDTH)
  {
  }

  lemma SequenceIsCanonical(t: Schema, buf: seq<Byte>)
    requires ReadInt(buf, LENGTH_WIDTH).Done? && Signed32(ReadInt(buf, LENGTH_WIDTH).value) >= 0 ==>
      CanonicalItems(t, ReadInt(buf, LENGTH_WIDTH).rest, Signed32(ReadInt(buf, LENGTH_WIDTH).value))
    ensures Canonical(SequenceOf(t), buf)
  {
    hide Decode, Encode, Encodable, IntBytes, ReadInt, Capacity, DecodeItems, EncodeItems;
    Capacities();
    if ReadInt(buf, LENGTH_WIDTH).Done? { ReadIsWritten(buf, LENGTH_WIDTH); }
    DecodeSequence(t, buf);
    if Decode(SequenceOf(t), buf).Done? {
      var n, rest := ReadInt(buf, LENGTH_WIDTH).value, ReadInt(buf, LENGTH_WIDTH).rest;
      var o := DecodeItems(t, rest, n);
      EncodeSequence(t, o.value);
      assert buf == IntBytes(n, LENGTH_WIDTH) + (EncodeItems(t, o.value) + o.rest);
    }
  }

  lemma ItemsAreCanonical(t: Schema, buf: seq<Byte>, count: nat)
    requires count > 0 && Canonical(t, buf) && (Decode(t, buf).Done? ==> CanonicalItems(t, Decode(t, buf).rest, count - 1))
    ensures CanonicalItems(t, buf, count)
  {
    hide Decode, Encode, Encodable;
    if DecodeItems(t, buf, count).Done? {
      var first := Decode(t, buf);
      var others := DecodeItems(t, first.rest, count - 1);
      var all := [first.value] + others.value;
      assert all[1..] == others.value;
      assert EncodeItems(t, all) == Encode(t, first.value) + EncodeItems(t, others.value);
      assert buf == Encode(t, first.value) + (EncodeItems(t, others.value) + others.rest);
    }
  }

  lemma PlainIsCanonical(s: Schema, buf: seq<Byte>)
    requires s.UInt16? || s.UInt32? || s.UInt64? || s.Data? || s.Str? || s.End?
    ensures Canonical(s, buf)
  {
    if s.Data? || s.Str? {
      if ReadBlock(buf).Done? { ReadBlockIsWritten(buf); }
    } else if s.End? {
      assert buf == [] + buf;
    } else if ReadInt(buf, Width(s)).Done? {
      ReadIsWritten(buf, Width(s));
    }
  }

  lemma {:induction false} DecodedIsEncoded(s: Schema, buf: seq<Byte>)
    ensures Canonical(s, buf)
    decreases s, 0
  {
    hide Canonical, CanonicalItems, Decode, ReadInt, Signed32;
    match s
    case OptionOf(t) =>
      if ReadInt(buf, TAG_WIDTH).Done? { DecodedIsEncoded(t, ReadInt(buf, TAG_WIDTH).rest); }
      OptionIsCanonical(t, buf);
    case SequenceOf(t) =>
      if ReadInt(buf, LENGTH_WIDTH).Done? && Signed32(ReadInt(buf, LENGTH_WIDTH).value) >= 0 {
        DecodedItemsAreEncoded(t, ReadInt(buf, LENGTH_WIDTH).rest, Signed32(ReadInt(buf, LENGTH_WIDTH).value));
      }
      SequenceIsCanonical(t, buf);
    case Field(a, b) =>
      DecodedIsEncoded(a, buf);
      if Decode(a, buf).Done? { DecodedIsEncoded(b, Decode(a, buf).rest); }
      FieldIsCanonical(a, b, buf);
    case _ => PlainIsCanonical(s, buf);
  }

  lemma {:induction false} DecodedItemsAreEncoded(t: Schema, buf: seq<Byte>, count: nat)
    ensures CanonicalItems(t, buf, count)
    decreases t, count + 1
  {
    if count == 0 {
      assert buf == [] + buf;
    } else {
      DecodedIsEncoded(t, buf);
      if Decode(t, buf).Done? { DecodedItemsAreEncoded(t, Decode(t, buf).rest, count - 1); }
      ItemsAreCanonical(t, buf, count);
    }
  }

  /** Each value has one encoding: the buffer a converter accepts is its lowered result. */
  lemma AcceptedBufferIsLowered(s: Schema, b: RustBuffer)
    requires LiftsByReading(s) && Lift(s, b).Done?
    ensures Encodable(s, Lift(s, b).value) && b == Lower(s, Lift(s, b).value)
  {
    DecodedIsEncoded(s, b.bytes);
    var o := Decode(s, b.bytes);
    assert b.bytes == Encode(s, o.value) + [];
  }

  /** Every record of the bindings is lifted from exactly one buffer per value. */
  lemma RecordBuffersAreCanonical(s: Schema, b: RustBuffer)
    requires s in RECORDS
    ensures LiftsByReading(s)
    ensures Lift(s, b).Done? <==> exists v :: Encodable(s, v) && b == Lower(s, v)
  {
    hide Lift, Lower, Encodable;
    assert LiftsByReading(s);
    if Lift(s, b).Done? {
      AcceptedBufferIsLowered(s, b);
    }
    if v :| Encodable(s, v) && b == Lower(s, v) {
      LiftLower(s, v, [], []);
    }
  }

  // ----- strings and booleans

  /** Strings and buffers correspond one to one, zeros included; so a cut buffer is not refused but
      lifted as the shorter string. */
  lemma StringLiftLower(s: seq<Byte>, bytes: seq<Byte>)
    ensures LiftString(LowerString(s)) == s
    ensures LowerString(LiftString(Holding(bytes))) == Holding(bytes)
    ensures ProperPrefix(bytes, s) ==> |LiftString(Holding(bytes))| < |s| && LiftString(Holding(bytes)) == s[..|bytes|]
  {
    assert CString(s)[..|s|] == s && CString(bytes)[..|bytes|] == bytes;
  }

  /** A boolean comes back; the number it was lifted from does exactly when it is 0 or 1. */
  lemma BoolLiftLower(b: bool, n: Int8)
    ensures LiftBool(LowerBool(b)) == b
    ensures LowerBool(LiftBool(n)) == n <==> n == 0 || n == 1
  {
  }
}
