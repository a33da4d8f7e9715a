/** The binary format of the Swift bindings: big-endian integers, length-prefixed bytes, options,
    sequences, dictionaries and records, written and read back by the converters. */
module FfiFormat {
  import opened BigEndian

  /** What a converter is for. A record is its fields in order, ended by End. Strings are their UTF-8 bytes. */
  datatype Schema =
    | UInt16 | UInt32 | UInt64 | Data | Str
    | OptionOf(some: Schema)
    | SequenceOf(item: Schema)
    | End
    | Field(first: Schema, rest: Schema)

  datatype Value =
    | Number(n: nat)
    | Bytes(bytes: seq<Byte>)
    | Absent
    | Present(value: Value)
    | Items(items: seq<Value>)
    | NoMore
    | Member(head: Value, tail: Value)

  /** One past the largest length an Int32 can carry. */
  const LENGTH_LIMIT: nat := 0x8000_0000

  /** The widths of an Int32 length and of an Int8 tag. */
  const LENGTH_WIDTH: nat := 4
  const TAG_WIDTH: nat := 1
  const ABSENT_TAG: nat := 0
  const PRESENT_TAG: nat := 1

  /** The bytes an integer converter writes. */
  function Width(s: Schema): nat
  {
    match s
    case UInt16 => 2
    case UInt32 => 4
    case UInt64 => 8
    case _ => 0
  }

  /** v is a value of type s whose lengths fit an Int32. */
  predicate Encodable(s: Schema, v: Value)
    decreases s
  {
    match s
    case UInt16 => v.Number? && v.n < Capacity(2)
    case UInt32 => v.Number? && v.n < Capacity(4)
    case UInt64 => v.Number? && v.n < Capacity(8)
    case Data => v.Bytes? && |v.bytes| < LENGTH_LIMIT
    case Str => v.Bytes? && |v.bytes| < LENGTH_LIMIT
    case OptionOf(t) => v.Absent? || (v.Present? && Encodable(t, v.value))
    case SequenceOf(t) => v.Items? && |v.items| < LENGTH_LIMIT && forall i :: 0 <= i < |v.items| ==> Encodable(t, v.items[i])
    case End => v.NoMore?
    case Field(a, b) => v.Member? && Encodable(a, v.head) && Encodable(b, v.tail)
  }

  // ----- writing

  /** Bytes and strings: the length, then the bytes. */
  function EncodeBlock(bytes: seq<Byte>): seq<Byte>
  {
    IntBytes(|bytes|, LENGTH_WIDTH) + bytes
  }

  function Encode(s: Schema, v: Value): seq<Byte>
    requires Encodable(s, v)
    decreases s, 0
  {
    match s
    case UInt16 => IntBytes(v.n, 2)
    case UInt32 => IntBytes(v.n, 4)
    case UInt64 => IntBytes(v.n, 8)
    case Data => EncodeBlock(v.bytes)
    case Str => EncodeBlock(v.bytes)
    case OptionOf(t) => if v.Absent? then IntBytes(ABSENT_TAG, TAG_WIDTH) else IntBytes(PRESENT_TAG, TAG_WIDTH) + Encode(t, v.value)
    case SequenceOf(t) => IntBytes(|v.items|, LENGTH_WIDTH) + EncodeItems(t, v.items)
    case End => []
    case Field(a, b) => Encode(a, v.head) + Encode(b, v.tail)
  }

  function EncodeItems(t: Schema, vs: seq<Value>): seq<Byte>
    requires forall i :: 0 <= i < |vs| ==> Encodable(t, vs[i])
    decreases t, |vs| + 1
  {
    if vs == [] then [] else Encode(t, vs[0]) + EncodeItems(t, vs[1..])
  }

  // ----- reading

  datatype ReadError = BufferOverflow | IncompleteData | UnexpectedOptionalTag

  /** Reading ends with a value and what is left of the buffer, with a thrown error, or with a crash:
      a negative length reaches a range whose end precedes its start. */
  datatype Outcome<+T> = Done(value: T, rest: seq<Byte>) | Thrown(error: ReadError) | Crashed

  /** `readInt` on k bytes, unsigned. */
  function ReadInt(buf: seq<Byte>, k: nat): Outcome<nat>
  {
    if |buf| < k then Thrown(BufferOverflow) else Done(FromBytes(buf[..k]), buf[k..])
  }

  /** The Int32 with this bit pattern. */
  function Signed32(n: nat): int { if n < LENGTH_LIMIT then n else n - 2 * LENGTH_LIMIT }

  /** `readBytes` */
  function ReadBytes(buf: seq<Byte>, count: int): Outcome<seq<Byte>>
  {
    if count < 0 then Crashed
    else if |buf| < count then Thrown(BufferOverflow)
    else Done(buf[..count], buf[count..])
  }

  function ReadNumber(buf: seq<Byte>, k: nat): Outcome<Value>
  {
    match ReadInt(buf, k)
    case Done(n, rest) => Done(Number(n), rest)
    case Thrown(e) => Thrown(e)
    case Crashed => Crashed
  }

  function ReadBlock(buf: seq<Byte>): Outcome<seq<Byte>>
  {
    match ReadInt(buf, LENGTH_WIDTH)
    case Done(n, rest) => ReadBytes(rest, Signed32(n))
    case Thrown(e) => Thrown(e)
    case Crashed => Crashed
  }

  function Decode(s: Schema, buf: seq<Byte>): Outcome<Value>
    decreases s, 0
  {
    match s
    case UInt16 => ReadNumber(buf, 2)
    case UInt32 => ReadNumber(buf, 4)
    case UInt64 => ReadNumber(buf, 8)
    case Data => DecodeBlock(buf)
    case Str => DecodeBlock(buf)
    case OptionOf(t) => (
      match ReadInt(buf, TAG_WIDTH)
      case Done(tag, rest) =>
        if tag == ABSENT_TAG then Done(Absent, rest)
        else if tag == PRESENT_TAG then WrapPresent(Decode(t, rest))
        else Thrown(UnexpectedOptionalTag)
      case Thrown(e) => Thrown(e)
      case Crashed => Crashed)
    case SequenceOf(t) => (
      match ReadInt(buf, LENGTH_WIDTH)
      case Done(n, rest) => if Signed32(n) < 0 then Crashed else WrapItems(DecodeItems(t, rest, Signed32(n)))
      case Thrown(e) => Thrown(e)
      case Crashed => Crashed)
    case End => Done(NoMore, buf)
    case Field(a, b) => (
      match Decode(a, buf)
      case Done(head, rest) => WrapMember(head, Decode(b, rest))
      case Thrown(e) => Thrown(e)
      case Crashed => Crashed)
  }

  function DecodeBlock(buf: seq<Byte>): Outcome<Value>
  {
    match ReadBlock(buf)
    case Done(bytes, rest) => Done(Bytes(bytes), rest)
    case Thrown(e) => Thrown(e)
    case Crashed => Crashed
  }

  function WrapPresent(o: Outcome<Value>): Outcome<Value>
  {
    match o
    case Done(v, rest) => Done(Present(v), rest)
    case _ => o
  }

  function WrapItems(o: Outcome<seq<Value>>): Outcome<Value>
  {
    match o
    case Done(vs, rest) => Done(Items(vs), rest)
    case Thrown(e) => Thrown(e)
    case Crashed => Crashed
  }

  function WrapMember(head: Value, o: Outcome<Value>): Outcome<Value>
  {
    match o
    case Done(tail, rest) => Done(Member(head, tail), rest)
    case _ => o
  }

  function DecodeItems(t: Schema, buf: seq<Byte>, count: nat): Outcome<seq<Value>>
    decreases t, count + 1
  {
    if count == 0 then Done([], buf)
    else
      match Decode(t, buf)
      case Done(v, rest) => (
        match DecodeItems(t, rest, count - 1)
        case Done(vs, rest') => Done([v] + vs, rest')
        case Thrown(e) => Thrown(e)
        case Crashed => Crashed)
      case Thrown(e) => Thrown(e)
      case Crashed => Crashed
  }

  // ----- whole buffers

  function Whole<T>(o: Outcome<T>): Outcome<T>
  {
    if o.Done? && o.rest != [] then Thrown(IncompleteData) else o
  }

  /** What crosses the boundary: bytes, or a buffer without any data. */
  datatype RustBuffer = NoData | Holding(bytes: seq<Byte>)

  /** The converters that lift from a buffer by reading all of it: bytes, options, sequences and records.
      Integers cross as they are, and strings and booleans have their own lift and lower. */
  predicate LiftsByReading(s: Schema)
  {
    s.Data? || s.OptionOf? || s.SequenceOf? || s.End? || s.Field?
  }

  /** `lift`: a buffer without data crashes. */
  function Lift(s: Schema, b: RustBuffer): Outcome<Value>
    requires LiftsByReading(s)
  {
    match b
    case NoData => Crashed
    case Holding(bytes) => Whole(Decode(s, bytes))
  }

  /** `lower` */
  function Lower(s: Schema, v: Value): RustBuffer
    requires LiftsByReading(s) && Encodable(s, v)
  {
    Holding(Encode(s, v))
  }

  // ----- strings and booleans as whole arguments

  /** A whole string is the buffer's bytes, without a length; no data is the empty string. */
  function LiftString(b: RustBuffer): seq<Byte>
  {
    match b
    case NoData => []
    case Holding(bytes) => bytes
  }

  /** The bytes of a string and the zero that ends them. */
  function CString(s: seq<Byte>): seq<Byte> { s + [0] }

  function LowerString(s: seq<Byte>): RustBuffer { Holding(CString(s)[..|CString(s)| - 1]) }

  type Int8 = n: int | -128 <= n < 128

  function LiftBool(n: Int8): bool { n != 0 }

  function LowerBool(b: bool): Int8 { if b then 1 else 0 }

  // ----- dictionaries, which only occur as whole arguments

  type Dictionary = map<seq<Byte>, Value>

  predicate EncodableDictionary(t: Schema, d: Dictionary)
  {
    |d| < LENGTH_LIMIT && forall k :: k in d ==> |k| < LENGTH_LIMIT && Encodable(t, d[k])
  }

  /** The order in which a dictionary hands out its keys: any, but each once. */
  ghost predicate KeyOrder(d: Dictionary, keys: seq<seq<Byte>>)
  {
    && |keys| == |d|
    && (forall k :: k in keys <==> k in d)
    && (forall i, j :: 0 <= i < j < |keys| ==> keys[i] != keys[j])
  }

  function EncodePairs(t: Schema, d: Dictionary, keys: seq<seq<Byte>>): seq<Byte>
    requires EncodableDictionary(t, d) && forall k :: k in keys ==> k in d
  {
    if keys == [] then []
    else
      assert keys[0] in keys;
      EncodeBlock(keys[0]) + Encode(t, d[keys[0]]) + EncodePairs(t, d, keys[1..])
  }

  function EncodeDictionary(t: Schema, d: Dictionary, keys: seq<seq<Byte>>): seq<Byte>
    requires EncodableDictionary(t, d) && forall k :: k in keys ==> k in d
  {
    IntBytes(|d|, LENGTH_WIDTH) + EncodePairs(t, d, keys)
  }

  /** Pairs are stored as they come; a repeated key keeps its last value. */
  function DecodePairs(t: Schema, buf: seq<Byte>, count: nat, d: Dictionary): Outcome<Dictionary>
    decreases count
  {
    if count == 0 then Done(d, buf)
    else
      match ReadBlock(buf)
      case Done(key, rest) => (
        match Decode(t, rest)
        case Done(v, rest') => DecodePairs(t, rest', count - 1, d[key := v])
        case Thrown(e) => Thrown(e)
        case Crashed => Crashed)
      case Thrown(e) => Thrown(e)
      case Crashed => Crashed
  }

  function DecodeDictionary(t: Schema, buf: seq<Byte>): Outcome<Dictionary>
  {
    match ReadInt(buf, LENGTH_WIDTH)
    case Done(n, rest) => if Signed32(n) < 0 then Crashed else DecodePairs(t, rest, Signed32(n), map[])
    case Thrown(e) => Thrown(e)
    case Crashed => Crashed
  }

  function LiftDictionary(t: Schema, b: RustBuffer): Outcome<Dictionary>
  {
    match b
    case NoData => Crashed
    case Holding(bytes) => Whole(DecodeDictionary(t, bytes))
  }

  // ----- the records of the bindings

  const SIGNING_COMMITMENT: Schema := Field(Data, Field(Data, End))
  const SIGNING_NONCE: Schema := Field(Data, Field(Data, End))
  const NONCE_RESULT: Schema := Field(SIGNING_NONCE, Field(SIGNING_COMMITMENT, End))
  const KEY_PACKAGE: Schema := Field(Data, Field(Data, Field(Data, End)))
  const DUMMY_TX: Schema := Field(Data, Field(Str, End))
  const TX_IN_RESULT: Schema := Field(UInt32, End)
  const TRANSACTION_RESULT: Schema := Field(Data, Field(Data, Field(SequenceOf(TX_IN_RESULT), End)))
  const NODE_TX_PAIR_RESULT: Schema := Field(TRANSACTION_RESULT, Field(TRANSACTION_RESULT, End))
  const REFUND_TX_TRIO_RESULT: Schema := Field(TRANSACTION_RESULT, Field(OptionOf(TRANSACTION_RESULT), Field(TRANSACTION_RESULT, End)))
  const SECRET_SHARE_RESULT: Schema := Field(UInt32, Field(UInt32, Field(Data, End)))
  const VERIFIABLE_SECRET_SHARE_RESULT: Schema := Field(UInt32, Field(UInt32, Field(Data, Field(SequenceOf(Data), End))))
  const ADAPTOR_SIGNATURE_RESULT: Schema := Field(Data, Field(Data, End))
  const HTLC_SPEND_RESULT: Schema := Field(Data, Field(Data, Field(Data, Field(Data, End))))
  const TIMELOCK_RESULT: Schema := Field(UInt32, Field(UInt32, End))

  const RECORDS: set<Schema> := {
    SIGNING_COMMITMENT, SIGNING_NONCE, NONCE_RESULT, KEY_PACKAGE, DUMMY_TX, TX_IN_RESULT, TRANSACTION_RESULT,
    NODE_TX_PAIR_RESULT, REFUND_TX_TRIO_RESULT, SECRET_SHARE_RESULT, VERIFIABLE_SECRET_SHARE_RESULT,
    ADAPTOR_SIGNATURE_RESULT, HTLC_SPEND_RESULT, TIMELOCK_RESULT
  }
}
