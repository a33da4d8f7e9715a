/** The Protocol Buffers wire format as the generated codecs use it: varints, length-delimited bytes,
    skipping fields nobody asked for, and the loop every generated `decode` runs. */
module ProtoWire {
  import opened BigEndian

  datatype WireError = PrematureEnd | InvalidVarint | CannotSkip(wireType: nat)

  datatype Outcome<+T> = Done(value: T, rest: seq<Byte>) | Failed(error: WireError)

  const UINT32_LIMIT: nat := 0x1_0000_0000

  const VARINT: nat := 0
  const FIXED64: nat := 1
  const DELIMITED: nat := 2
  const GROUP_START: nat := 3
  const GROUP_END: nat := 4
  const FIXED32: nat := 5

  /** A varint has at most ten bytes. */
  const MAX_VARINT: nat := 10

  // ----- varints

  function EncodeVarint(v: nat): (r: seq<Byte>)
    ensures r != []
  {
    if v < 128 then [v] else [v % 128 + 128] + EncodeVarint(v / 128)
  }

  function DecodeVarint(buf: seq<Byte>, left: nat): (o: Outcome<nat>)
    ensures o.Done? ==> |o.rest| < |buf|
    decreases left
  {
    if left == 0 then Failed(InvalidVarint)
    else if buf == [] then Failed(PrematureEnd)
    else if buf[0] < 128 then Done(buf[0], buf[1..])
    else
      match DecodeVarint(buf[1..], left - 1)
      case Done(v, rest) => Done(buf[0] - 128 + 128 * v, rest)
      case Failed(e) => Failed(e)
  }

  /** `reader.uint32()`: the low 32 bits of a varint. */
  function ReadUInt32(buf: seq<Byte>): (o: Outcome<nat>)
    ensures o.Done? ==> |o.rest| < |buf| && o.value < UINT32_LIMIT
  {
    match DecodeVarint(buf, MAX_VARINT)
    case Done(v, rest) => Done(v % UINT32_LIMIT, rest)
    case Failed(e) => Failed(e)
  }

  function Drop(buf: seq<Byte>, n: nat): (o: Outcome<seq<Byte>>)
    ensures o.Done? ==> |o.rest| <= |buf|
  {
    if |buf| < n then Failed(PrematureEnd) else Done(buf[..n], buf[n..])
  }

  function EncodeBytes(bytes: seq<Byte>): seq<Byte> { EncodeVarint(|bytes|) + bytes }

  /** `reader.bytes()` */
  function ReadBytes(buf: seq<Byte>): (o: Outcome<seq<Byte>>)
    ensures o.Done? ==> |o.rest| < |buf|
  {
    match ReadUInt32(buf)
    case Done(n, rest) => Drop(rest, n)
    case Failed(e) => Failed(e)
  }

  /** 128 to the power k. */
  function Septets(k: nat): nat
  {
    if k == 0 then 1 else 128 * Septets(k - 1)
  }

  lemma {:induction false} VarintRoundTrip(v: nat, left: nat, suffix: seq<Byte>)
    requires left > 0 && v < Septets(left)
    ensures DecodeVarint(EncodeVarint(v) + suffix, left) == Done(v, suffix)
  {
    var buf := EncodeVarint(v) + suffix;
    if v < 128 {
      assert buf[1..] == suffix;
    } else {
      VarintRoundTrip(v / 128, left - 1, suffix);
      assert buf[1..] == EncodeVarint(v / 128) + suffix;
    }
  }

  lemma UInt32Fits()
    ensures Septets(MAX_VARINT) >= UINT32_LIMIT
  {
    var k := 5;
    assert Septets(k - 4) == 128;
    assert Septets(k - 3) == 16384;
    assert Septets(k - 2) == 2097152;
    assert Septets(k - 1) == 268435456;
    assert Septets(k) == 34359738368;
    SeptetsGrow(k, MAX_VARINT);
  }

  lemma {:induction false} SeptetsGrow(a: nat, b: nat)
    requires a <= b
    ensures Septets(a) <= Septets(b)
  {
    if a < b { SeptetsGrow(a, b - 1); }
  }

  lemma UInt32RoundTrip(v: nat, suffix: seq<Byte>)
    requires v < UINT32_LIMIT
    ensures ReadUInt32(EncodeVarint(v) + suffix) == Done(v, suffix)
  {
    hide EncodeVarint, DecodeVarint, Septets;
    UInt32Fits();
    VarintRoundTrip(v, MAX_VARINT, suffix);
  }

  lemma BytesRoundTrip(bytes: seq<Byte>, suffix: seq<Byte>)
    requires |bytes| < UINT32_LIMIT
    ensures ReadBytes(EncodeBytes(bytes) + suffix) == Done(bytes, suffix)
  {
    UInt32RoundTrip(|bytes|, bytes + suffix);
    assert EncodeBytes(bytes) + suffix == EncodeVarint(|bytes|) + (bytes + suffix);
  }

  // ----- skipping

  function SkipVarint(buf: seq<Byte>): (o: Outcome<()>)
    ensures o.Done? ==> |o.rest| < |buf|
    decreases |buf|
  {
    if buf == [] then Failed(PrematureEnd)
    else if buf[0] < 128 then Done((), buf[1..])
    else SkipVarint(buf[1..])
  }

  function Dropped(o: Outcome<seq<Byte>>): Outcome<()>
  {
    match o
    case Done(_, rest) => Done((), rest)
    case Failed(e) => Failed(e)
  }

  /** `reader.skip`: past one value of this wire type; a group ends with its end tag. */
  function Skip(wireType: nat, buf: seq<Byte>): (o: Outcome<()>)
    ensures o.Done? ==> |o.rest| <= |buf|
    decreases |buf|, 1
  {
    if wireType == VARINT then SkipVarint(buf)
    else if wireType == FIXED64 then Dropped(Drop(buf, 8))
    else if wireType == DELIMITED then Dropped(ReadBytes(buf))
    else if wireType == GROUP_START then SkipGroup(buf)
    else if wireType == FIXED32 then Dropped(Drop(buf, 4))
    else Failed(CannotSkip(wireType))
  }

  function SkipGroup(buf: seq<Byte>): (o: Outcome<()>)
    ensures o.Done? ==> |o.rest| <= |buf|
    decreases |buf|, 0
  {
    match ReadUInt32(buf)
    case Failed(e) => Failed(e)
    case Done(tag, rest) =>
      if tag % 8 == GROUP_END then Done((), rest)
      else
        match Skip(tag % 8, rest)
        case Done(_, rest') => SkipGroup(rest')
        case Failed(e) => Failed(e)
  }

  // ----- unknown fields

  datatype UnknownField = UnknownField(number: nat, payload: Payload)

  datatype Payload =
    | OfVarint(v: nat)
    | OfFixed64(eight: seq<Byte>)
    | OfBytes(bytes: seq<Byte>)
    | OfGroup(fields: UnknownFields)
    | OfFixed32(four: seq<Byte>)

  datatype UnknownFields = NoField | Fields(first: UnknownField, others: UnknownFields)

  const MAX_FIELD_NUMBER: nat := 0x1FFF_FFFF

  predicate WellFormed(f: UnknownField)
  {
    1 <= f.number <= MAX_FIELD_NUMBER && WellFormedPayload(f.payload)
  }

  predicate WellFormedPayload(p: Payload)
  {
    match p
    case OfVarint(_) => true
    case OfFixed64(eight) => |eight| == 8
    case OfBytes(bytes) => |bytes| < UINT32_LIMIT
    case OfGroup(fields) => WellFormedFields(fields)
    case OfFixed32(four) => |four| == 4
  }

  predicate WellFormedFields(fs: UnknownFields)
  {
    match fs
    case NoField => true
    case Fields(f, others) => WellFormed(f) && WellFormedFields(others)
  }

  function WireType(p: Payload): nat
  {
    match p
    case OfVarint(_) => VARINT
    case OfFixed64(_) => FIXED64
    case OfBytes(_) => DELIMITED
    case OfGroup(_) => GROUP_START
    case OfFixed32(_) => FIXED32
  }

  function TagOf(f: UnknownField): nat { 8 * f.number + WireType(f.payload) }

  function EncodeUnknown(f: UnknownField): seq<Byte>
  {
    EncodeVarint(TagOf(f)) + EncodePayload(f.payload, f.number)
  }

  function EncodePayload(p: Payload, number: nat): seq<Byte>
  {
    match p
    case OfVarint(v) => EncodeVarint(v)
    case OfFixed64(eight) => eight
    case OfBytes(bytes) => EncodeBytes(bytes)
    case OfGroup(fields) => EncodeUnknowns(fields) + EncodeVarint(8 * number + GROUP_END)
    case OfFixed32(four) => four
  }

  function EncodeUnknowns(fs: UnknownFields): seq<Byte>
  {
    match fs
    case NoField => []
    case Fields(f, others) => EncodeUnknown(f) + EncodeUnknowns(others)
  }

  lemma {:induction false} SkipsVarint(v: nat, suffix: seq<Byte>)
    ensures SkipVarint(EncodeVarint(v) + suffix) == Done((), suffix)
  {
    var buf := EncodeVarint(v) + suffix;
    if v >= 128 {
      SkipsVarint(v / 128, suffix);
      assert buf[1..] == EncodeVarint(v / 128) + suffix;
    } else {
      assert buf[1..] == suffix;
    }
  }

  /** Skipping takes exactly the field's value, whatever its kind and however deep its groups. */
  lemma {:induction false} SkipsPayload(p: Payload, number: nat, suffix: seq<Byte>)
    requires WellFormedPayload(p) && 1 <= number <= MAX_FIELD_NUMBER
    ensures Skip(WireType(p), EncodePayload(p, number) + suffix) == Done((), suffix)
    decreases p, 0
  {
    match p
    case OfVarint(v) => SkipsVarint(v, suffix);
    case OfFixed64(eight) => assert (eight + suffix)[8..] == suffix;
    case OfBytes(bytes) => BytesRoundTrip(bytes, suffix);
    case OfGroup(fields) => SkipsGroup(fields, number, suffix);
    case OfFixed32(four) => assert (four + suffix)[4..] == suffix;
  }

  lemma SkipGroupStep(tag: nat, tail: seq<Byte>)
    requires tag < UINT32_LIMIT
    ensures tag % 8 == GROUP_END ==> SkipGroup(EncodeVarint(tag) + tail) == Done((), tail)
    ensures tag % 8 != GROUP_END && Skip(tag % 8, tail).Done? ==> SkipGroup(EncodeVarint(tag) + tail) == SkipGroup(Skip(tag % 8, tail).rest)
  {
    UInt32RoundTrip(tag, tail);
    hide Skip;
  }

  lemma TagParts(f: UnknownField)
    requires WellFormed(f)
    ensures TagOf(f) % 8 == WireType(f.payload) != GROUP_END && TagOf(f) / 8 == f.number && 0 < TagOf(f) < UINT32_LIMIT
  {
  }

  lemma {:induction false} SkipsGroup(fs: UnknownFields, number: nat, suffix: seq<Byte>)
    requires WellFormedFields(fs) && 1 <= number <= MAX_FIELD_NUMBER
    ensures SkipGroup(EncodeUnknowns(fs) + EncodeVarint(8 * number + GROUP_END) + suffix) == Done((), suffix)
    decreases fs, 0
  {
    hide EncodeVarint, EncodePayload, Skip, SkipGroup, ReadUInt32, WireType, TagOf;
    var end := 8 * number + GROUP_END;
    match fs
    case NoField =>
      assert EncodeUnknowns(fs) + EncodeVarint(end) + suffix == EncodeVarint(end) + suffix;
      SkipGroupStep(end, suffix);
    case Fields(f, others) =>
      var tail := EncodeUnknowns(others) + EncodeVarint(end) + suffix;
      var value := EncodePayload(f.payload, f.number) + tail;
      assert EncodeUnknowns(fs) + EncodeVarint(end) + suffix == EncodeVarint(TagOf(f)) + value;
      TagParts(f);
      SkipsPayload(f.payload, f.number, tail);
      SkipGroupStep(TagOf(f), value);
      SkipsGroup(others, number, suffix);
  }

  // ----- the decode loop

  /** What a generated `switch` does with a tag: read a field of its own, fail, or leave it. */
  datatype Handled<+M> = Took(value: M, rest: seq<Byte>) | Broke(error: WireError) | NotMine

  type Step<!M> = (M, nat, seq<Byte>) -> Handled<M>

  /** The generated `while (reader.pos < end)`; `stop` is how much of the buffer lies beyond the end. */
  function Loop<M>(step: Step<M>, m: M, buf: seq<Byte>, stop: int): (o: Outcome<M>)
    ensures o.Done? ==> |o.rest| <= |buf|
    decreases |buf|
  {
    if |buf| <= stop then Done(m, buf)
    else
      match ReadUInt32(buf)
      case Failed(e) => Failed(e)
      case Done(tag, rest) =>
        match step(m, tag, rest)
        case Took(m', rest') => if |rest'| < |buf| then Loop(step, m', rest', stop) else Failed(PrematureEnd)
        case Broke(e) => Failed(e)
        case NotMine =>
          if tag % 8 == GROUP_END || tag == 0 then Done(m, rest)
          else
            match Skip(tag % 8, rest)
            case Done(_, rest') => Loop(step, m, rest', stop)
            case Failed(e) => Failed(e)
  }

  /** No field handler gives back more than it was given, so the guard in Loop never decides anything. */
  ghost predicate Shrinks<M(!new)>(step: Step<M>)
  {
    forall m, tag, buf :: step(m, tag, buf).Took? ==> |step(m, tag, buf).rest| <= |buf|
  }

  // ----- pieces of an encoding

  /** In front of anything that lies beyond the end, the loop takes this piece and goes on with m'. */
  ghost predicate Consumes<M(!new)>(step: Step<M>, piece: seq<Byte>, m: M, m': M)
  {
    forall suffix, stop :: Resumes(step, piece, m, m', suffix, stop)
  }

  ghost predicate Resumes<M>(step: Step<M>, piece: seq<Byte>, m: M, m': M, suffix: seq<Byte>, stop: int)
  {
    |suffix| >= stop ==> Loop(step, m, piece + suffix, stop) == Loop(step, m', suffix, stop)
  }

  /** One round of the loop on a tag the message reads. */
  lemma LoopTakes<M>(step: Step<M>, m: M, tag: nat, value: seq<Byte>, suffix: seq<Byte>, stop: int, m': M)
    requires tag < UINT32_LIMIT && |suffix| >= stop && step(m, tag, value + suffix) == Took(m', suffix)
    ensures Loop(step, m, EncodeVarint(tag) + value + suffix, stop) == Loop(step, m', suffix, stop)
  {
    var buf := EncodeVarint(tag) + value + suffix;
    assert buf == EncodeVarint(tag) + (value + suffix);
    UInt32RoundTrip(tag, value + suffix);
    hide EncodeVarint, ReadUInt32, Skip;
  }

  /** A message leaves this field number alone. */
  ghost predicate Ignores<M(!new)>(step: Step<M>, number: nat)
  {
    forall m: M, tag: nat, buf: seq<Byte> :: tag / 8 == number ==> step(m, tag, buf).NotMine?
  }

  /** A well-formed field with a number the message does not know changes nothing. */
  lemma UnknownIsConsumed<M(!new)>(step: Step<M>, f: UnknownField, m: M)
    requires WellFormed(f) && Ignores(step, f.number)
    ensures Consumes(step, EncodeUnknown(f), m, m)
  {
    forall suffix, stop ensures Resumes(step, EncodeUnknown(f), m, m, suffix, stop) {
      if |suffix| >= stop {
        UnknownIsSkipped(step, f, m, suffix, stop);
      }
    }
  }

  lemma UnknownIsSkipped<M(!new)>(step: Step<M>, f: UnknownField, m: M, suffix: seq<Byte>, stop: int)
    requires WellFormed(f) && Ignores(step, f.number) && |suffix| >= stop
    ensures Loop(step, m, EncodeUnknown(f) + suffix, stop) == Loop(step, m, suffix, stop)
  {
    var value := EncodePayload(f.payload, f.number);
    TagParts(f);
    UInt32RoundTrip(TagOf(f), value + suffix);
    SkipsPayload(f.payload, f.number, suffix);
    assert step(m, TagOf(f), value + suffix).NotMine?;
    hide EncodeVarint, EncodePayload, ReadUInt32, Skip, WireType;
    assert EncodeUnknown(f) + suffix == EncodeVarint(TagOf(f)) + (value + suffix);
  }

  function Concat(pieces: seq<seq<Byte>>): seq<Byte>
  {
    if pieces == [] then [] else pieces[0] + Concat(pieces[1..])
  }

  /** These pieces, in this order, turn m into m'. */
  ghost predicate Reaches<M(!new)>(step: Step<M>, pieces: seq<seq<Byte>>, m: M, m': M)
    decreases |pieces|
  {
    if pieces == [] then m == m' else exists mid :: Consumes(step, pieces[0], m, mid) && Reaches(step, pieces[1..], mid, m')
  }

  lemma ReachesOne<M(!new)>(step: Step<M>, piece: seq<Byte>, m: M, m': M)
    requires Consumes(step, piece, m, m')
    ensures Reaches(step, [piece], m, m')
  {
    assert [piece][1..] == [];
    assert Reaches(step, [piece][1..], m', m');
  }

  lemma {:induction false} ReachesConcat<M(!new)>(step: Step<M>, a: seq<seq<Byte>>, b: seq<seq<Byte>>, m: M, mid: M, m': M)
    requires Reaches(step, a, m, mid) && Reaches(step, b, mid, m')
    ensures Reaches(step, a + b, m, m')
    decreases |a|
  {
    if a == [] {
      assert a + b == b;
    } else {
      var next :| Consumes(step, a[0], m, next) && Reaches(step, a[1..], next, mid);
      ReachesConcat(step, a[1..], b, next, mid, m');
      assert (a + b)[1..] == a[1..] + b;
    }
  }

  // ----- encodings with unknown fields in between

  /** A stretch of a buffer: a field the message wrote, or one it knows nothing about. */
  datatype Segment = Own(bytes: seq<Byte>) | Extra(field: UnknownField)

  function SegmentBytes(s: Segment): seq<Byte>
  {
    match s
    case Own(bytes) => bytes
    case Extra(f) => EncodeUnknown(f)
  }

  function Buffer(segments: seq<Segment>): seq<Byte>
  {
    if segments == [] then [] else SegmentBytes(segments[0]) + Buffer(segments[1..])
  }

  function OwnPieces(segments: seq<Segment>): seq<seq<Byte>>
  {
    if segments == [] then []
    else (if segments[0].Own? then [segments[0].bytes] else []) + OwnPieces(segments[1..])
  }

  ghost predicate ExtrasIgnored<M(!new)>(step: Step<M>, segments: seq<Segment>)
  {
    forall i :: 0 <= i < |segments| && segments[i].Extra? ==> WellFormed(segments[i].field) && Ignores(step, segments[i].field.number)
  }

  function OwnOnly(pieces: seq<seq<Byte>>): (r: seq<Segment>)
    ensures |r| == |pieces| && forall i :: 0 <= i < |r| ==> r[i] == Own(pieces[i])
  {
    seq(|pieces|, i requires 0 <= i < |pieces| => Own(pieces[i]))
  }

  lemma {:induction false} OwnOnlyIsConcat(pieces: seq<seq<Byte>>)
    ensures Buffer(OwnOnly(pieces)) == Concat(pieces) && OwnPieces(OwnOnly(pieces)) == pieces
  {
    if pieces != [] {
      OwnOnlyIsConcat(pieces[1..]);
      assert OwnOnly(pieces)[1..] == OwnOnly(pieces[1..]);
    }
  }

  /** The loop reads the message's own pieces and passes over everything in between. */
  lemma {:induction false} LoopReads<M(!new)>(step: Step<M>, segments: seq<Segment>, m: M, m': M, suffix: seq<Byte>)
    requires ExtrasIgnored(step, segments) && Reaches(step, OwnPieces(segments), m, m')
    ensures Loop(step, m, Buffer(segments) + suffix, |suffix|) == Done(m', suffix)
    decreases |segments|
  {
    hide Loop;
    if segments == [] {
      assert [] + suffix == suffix;
      LoopEnds(step, m, suffix);
    } else {
      var first, others := segments[0], segments[1..];
      var tail := Buffer(others) + suffix;
      assert Buffer(segments) + suffix == SegmentBytes(first) + tail;
      assert ExtrasIgnored(step, others);
      match first
      case Own(bytes) =>
        assert OwnPieces(segments)[1..] == OwnPieces(others);
        var mid :| Consumes(step, bytes, m, mid) && Reaches(step, OwnPieces(others), mid, m');
        assert Resumes(step, bytes, m, mid, tail, |suffix|);
        LoopReads(step, others, mid, m', suffix);
      case Extra(f) =>
        UnknownIsConsumed(step, f, m);
        assert Resumes(step, EncodeUnknown(f), m, m, tail, |suffix|);
        assert OwnPieces(segments) == OwnPieces(others);
        LoopReads(step, others, m, m', suffix);
    }
  }

  lemma LoopEnds<M>(step: Step<M>, m: M, suffix: seq<Byte>)
    ensures Loop(step, m, suffix, |suffix|) == Done(m, suffix)
  {
  }
}
