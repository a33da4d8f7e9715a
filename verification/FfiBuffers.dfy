/** The converters as they run: a writer appends to its bytes, a reader advances its offset, and
    sequences and dictionaries are loops. Both are proved against the format. */
module FfiBuffers {
  import opened BigEndian
  import opened FfiFormat
  import opened FfiRoundTrip

  class Writer {
    var bytes: seq<Byte>

    /** `createWriter` */
    constructor ()
      ensures bytes == []
    {
      bytes := [];
    }

    method WriteInt(value: nat, width: nat)
      modifies this
      ensures bytes == old(bytes) + IntBytes(value, width)
    {
      bytes := bytes + IntBytes(value, width);
    }

    method WriteBlock(block: seq<Byte>)
      modifies this
      ensures bytes == old(bytes) + EncodeBlock(block)
    {
      WriteInt(|block|, LENGTH_WIDTH);
      bytes := bytes + block;
    }

    method Write(s: Schema, v: Value)
      requires Encodable(s, v)
      modifies this
      ensures bytes == old(bytes) + Encode(s, v)
      decreases s, 1
    {
      match s {
        case UInt16 => WriteInt(v.n, 2);
        case UInt32 => WriteInt(v.n, 4);
        case UInt64 => WriteInt(v.n, 8);
        case Data => WriteBlock(v.bytes);
        case Str => WriteBlock(v.bytes);
        case OptionOf(t) => WriteOption(t, v);
        case SequenceOf(t) => WriteSequence(t, v.items);
        case End =>
        case Field(a, b) => WriteField(a, b, v.head, v.tail);
      }
    }

    method WriteOption(t: Schema, v: Value)
      requires Encodable(OptionOf(t), v)
      modifies this
      ensures bytes == old(bytes) + Encode(OptionOf(t), v)
      decreases t, 2
    {
      if v.Absent? {
        WriteInt(ABSENT_TAG, TAG_WIDTH);
      } else {
        EncodeOption(t, v.value);
        hide Encode, IntBytes, Encodable;
        WriteInt(PRESENT_TAG, TAG_WIDTH);
        Write(t, v.value);
        assert bytes == old(bytes) + (IntBytes(PRESENT_TAG, TAG_WIDTH) + Encode(t, v.value));
      }
    }

    method WriteField(a: Schema, b: Schema, head: Value, tail: Value)
      requires Encodable(a, head) && Encodable(b, tail)
      modifies this
      ensures Encodable(Field(a, b), Member(head, tail)) && bytes == old(bytes) + Encode(Field(a, b), Member(head, tail))
      decreases Field(a, b), 0
    {
      hide Encode, Encodable;
      EncodeField(a, b, head, tail);
      Write(a, head);
      Write(b, tail);
      assert bytes == old(bytes) + (Encode(a, head) + Encode(b, tail));
    }

    method WriteSequence(t: Schema, items: seq<Value>)
      requires |items| < LENGTH_LIMIT && forall i :: 0 <= i < |items| ==> Encodable(t, items[i])
      modifies this
      ensures Encodable(SequenceOf(t), Items(items)) && bytes == old(bytes) + Encode(SequenceOf(t), Items(items))
      decreases t, 3
    {
      hide Encode, Encodable, EncodeItems, IntBytes;
      EncodeSequence(t, items);
      WriteInt(|items|, LENGTH_WIDTH);
      WriteItems(t, items);
      assert bytes == old(bytes) + (IntBytes(|items|, LENGTH_WIDTH) + EncodeItems(t, items));
    }

    method WriteItems(t: Schema, items: seq<Value>)
      requires forall i :: 0 <= i < |items| ==> Encodable(t, items[i])
      modifies this
      ensures bytes == old(bytes) + EncodeItems(t, items)
      decreases t, 2
    {
      hide Encode, EncodeItems, Encodable;
      ghost var start := bytes;
      EncodeItemsEnds(t, items);
      var i := 0;
      while i < |items|
        invariant i <= |items|
        invariant bytes + EncodeItems(t, items[i..]) == start + EncodeItems(t, items)
      {
        EncodeItemsStep(t, items, i);
        Write(t, items[i]);
        i := i + 1;
      }
    }

    /** A dictionary in its iteration order. */
    method WriteDictionary(t: Schema, d: Dictionary, keys: seq<seq<Byte>>)
      requires EncodableDictionary(t, d) && forall k :: k in keys ==> k in d
      modifies this
      ensures bytes == old(bytes) + EncodeDictionary(t, d, keys)
    {
      hide EncodableDictionary, IntBytes, EncodePairs;
      WriteInt(|d|, LENGTH_WIDTH);
      WritePairs(t, d, keys);
      assert bytes == old(bytes) + (IntBytes(|d|, LENGTH_WIDTH) + EncodePairs(t, d, keys));
    }

    method WritePairs(t: Schema, d: Dictionary, keys: seq<seq<Byte>>)
      requires EncodableDictionary(t, d) && forall k :: k in keys ==> k in d
      modifies this
      ensures bytes == old(bytes) + EncodePairs(t, d, keys)
    {
      hide Encode, Encodable, EncodeBlock, EncodePairs;
      ghost var start := bytes;
      EncodePairsEnds(t, d, keys);
      var i := 0;
      while i < |keys|
        invariant i <= |keys|
        invariant bytes + EncodePairs(t, d, keys[i..]) == start + EncodePairs(t, d, keys)
      {
        assert keys[i] in keys;
        EncodePairsAt(t, d, keys, i);
        WriteBlock(keys[i]);
        Write(t, d[keys[i]]);
        i := i + 1;
      }
    }
  }

  lemma EncodeItemsEnds(t: Schema, vs: seq<Value>)
    requires forall k :: 0 <= k < |vs| ==> Encodable(t, vs[k])
    ensures EncodeItems(t, vs[0..]) == EncodeItems(t, vs) && EncodeItems(t, vs[|vs|..]) == []
  {
    assert vs[0..] == vs;
  }

  lemma EncodePairsEnds(t: Schema, d: Dictionary, keys: seq<seq<Byte>>)
    requires EncodableDictionary(t, d) && forall k :: k in keys ==> k in d
    ensures EncodePairs(t, d, keys[0..]) == EncodePairs(t, d, keys) && EncodePairs(t, d, keys[|keys|..]) == []
  {
    assert keys[0..] == keys;
  }

  lemma EncodeItemsStep(t: Schema, vs: seq<Value>, i: nat)
    requires i < |vs| && forall k :: 0 <= k < |vs| ==> Encodable(t, vs[k])
    ensures EncodeItems(t, vs[i..]) == Encode(t, vs[i]) + EncodeItems(t, vs[i + 1..])
  {
    assert vs[i..][1..] == vs[i + 1..];
  }

  lemma EncodePairsAt(t: Schema, d: Dictionary, keys: seq<seq<Byte>>, i: nat)
    requires i < |keys| && EncodableDictionary(t, d) && forall k :: k in keys ==> k in d
    ensures keys[i] in d && Encodable(t, d[keys[i]])
    ensures EncodePairs(t, d, keys[i..])
      == EncodeBlock(keys[i]) + Encode(t, d[keys[i]]) + EncodePairs(t, d, keys[i + 1..])
  {
    assert keys[i] in keys;
    assert keys[i..][0] == keys[i] && keys[i..][1..] == keys[i + 1..];
  }

  /** How a read ended, apart from where the reader then stands. */
  datatype Answer<+T> = Got(value: T) | Threw(error: ReadError) | Trapped

  ghost predicate Answers<T>(o: Outcome<T>, a: Answer<T>, remaining: seq<Byte>)
  {
    match o
    case Done(v, rest) => a == Got(v) && remaining == rest
    case Thrown(e) => a == Threw(e)
    case Crashed => a == Trapped
  }

  class Reader {
    const data: seq<Byte>
    var offset: nat

    ghost predicate Valid()
      reads this
    {
      offset <= |data|
    }

    ghost function Remaining(): seq<Byte>
      requires Valid()
      reads this
    {
      data[offset..]
    }

    /** `createReader` */
    constructor (data: seq<Byte>)
      ensures this.data == data && offset == 0 && Valid()
    {
      this.data, offset := data, 0;
    }

    method ReadInteger(width: nat) returns (a: Answer<nat>)
      requires Valid()
      modifies this
      ensures Valid() && Answers(ReadInt(old(Remaining()), width), a, Remaining())
    {
      if |data| < offset + width {
        return Threw(BufferOverflow);
      }
      a := Got(FromBytes(data[offset..offset + width]));
      assert data[offset..][..width] == data[offset..offset + width];
      offset := offset + width;
    }

    method ReadByteArray(count: int) returns (a: Answer<seq<Byte>>)
      requires Valid()
      modifies this
      ensures Valid() && Answers(ReadBytes(old(Remaining()), count), a, Remaining())
    {
      if count < 0 {
        return Trapped;
      }
      if |data| < offset + count {
        return Threw(BufferOverflow);
      }
      a := Got(data[offset..offset + count]);
      assert data[offset..][..count] == data[offset..offset + count];
      offset := offset + count;
    }

    method ReadData() returns (a: Answer<seq<Byte>>)
      requires Valid()
      modifies this
      ensures Valid() && Answers(ReadBlock(old(Remaining())), a, Remaining())
    {
      hide ReadInt, ReadBytes;
      var n := ReadInteger(LENGTH_WIDTH);
      match n {
        case Got(length) => a := ReadByteArray(Signed32(length));
        case Threw(e) => return Threw(e);
        case Trapped => return Trapped;
      }
    }

    method ReadNumeric(width: nat) returns (a: Answer<Value>)
      requires Valid()
      modifies this
      ensures Valid() && Answers(ReadNumber(old(Remaining()), width), a, Remaining())
    {
      hide ReadInt;
      var n := ReadInteger(width);
      match n {
        case Got(value) => return Got(Number(value));
        case Threw(e) => return Threw(e);
        case Trapped => return Trapped;
      }
    }

    method ReadBlockValue() returns (a: Answer<Value>)
      requires Valid()
      modifies this
      ensures Valid() && Answers(DecodeBlock(old(Remaining())), a, Remaining())
    {
      hide ReadBlock;
      var block := ReadData();
      match block {
        case Got(bytes) => return Got(Bytes(bytes));
        case Threw(e) => return Threw(e);
        case Trapped => return Trapped;
      }
    }

    method Read(s: Schema) returns (a: Answer<Value>)
      requires Valid()
      modifies this
      ensures Valid() && Answers(Decode(s, old(Remaining())), a, Remaining())
      decreases s, 1
    {
      match s {
        case UInt16 => a := ReadNumeric(2);
        case UInt32 => a := ReadNumeric(4);
        case UInt64 => a := ReadNumeric(8);
        case Data => a := ReadBlockValue();
        case Str => a := ReadBlockValue();
        case OptionOf(t) => a := ReadOption(t);
        case SequenceOf(t) => a := ReadSequence(t);
        case End => a := Got(NoMore);
        case Field(x, y) => a := ReadFields(x, y);
      }
    }

    method ReadOption(t: Schema) returns (a: Answer<Value>)
      requires Valid()
      modifies this
      ensures Valid() && Answers(Decode(OptionOf(t), old(Remaining())), a, Remaining())
      decreases t, 2
    {
      hide ReadInt;
      var tag := ReadInteger(TAG_WIDTH);
      match tag {
        case Threw(e) => return Threw(e);
        case Trapped => return Trapped;
        case Got(n) =>
          if n == ABSENT_TAG {
            return Got(Absent);
          }
          if n != PRESENT_TAG {
            return Threw(UnexpectedOptionalTag);
          }
      }
      var v := Read(t);
      match v {
        case Got(value) => return Got(Present(value));
        case Threw(e) => return Threw(e);
        case Trapped => return Trapped;
      }
    }

    method ReadFields(x: Schema, y: Schema) returns (a: Answer<Value>)
      requires Valid()
      modifies this
      ensures Valid() && Answers(Decode(Field(x, y), old(Remaining())), a, Remaining())
      decreases Field(x, y), 0
    {
      hide Decode;
      DecodeField(x, y, Remaining());
      var head := Read(x);
      match head {
        case Threw(e) => return Threw(e);
        case Trapped => return Trapped;
        case Got(_) =>
      }
      var tail := Read(y);
      match tail {
        case Got(value) => return Got(Member(head.value, value));
        case Threw(e) => return Threw(e);
        case Trapped => return Trapped;
      }
    }

    method ReadSequence(t: Schema) returns (a: Answer<Value>)
      requires Valid()
      modifies this
      ensures Valid() && Answers(Decode(SequenceOf(t), old(Remaining())), a, Remaining())
      decreases t, 3
    {
      hide ReadInt;
      var length := ReadInteger(LENGTH_WIDTH);
      match length {
        case Threw(e) => return Threw(e);
        case Trapped => return Trapped;
        case Got(n) =>
          if Signed32(n) < 0 {
            return Trapped;
          }
      }
      a := ReadItems(t, Signed32(length.value));
    }

    method ReadItems(t: Schema, count: nat) returns (a: Answer<Value>)
      requires Valid()
      modifies this
      ensures Valid() && Answers(WrapItems(DecodeItems(t, old(Remaining()), count)), a, Remaining())
      decreases t, 2
    {
      hide Decode, DecodeItems;
      ghost var start := Remaining();
      var items: seq<Value> := [];
      ContinuesFromStart(DecodeItems(t, start, count));
      var i := 0;
      while i < count
        invariant i <= count && Valid()
        invariant Continues(DecodeItems(t, start, count), items, DecodeItems(t, Remaining(), count - i))
      {
        ghost var here := Remaining();
        var item := Read(t);
        ContinuesOn(t, DecodeItems(t, start, count), items, here, count - i);
        match item {
          case Threw(e) => return Threw(e);
          case Trapped => return Trapped;
          case Got(v) => items := items + [v];
        }
        i := i + 1;
      }
      NoItemsLeft(t, DecodeItems(t, start, count), items, Remaining());
      a := Got(Items(items));
    }

    method ReadDictionary(t: Schema) returns (a: Answer<Dictionary>)
      requires Valid()
      modifies this
      ensures Valid() && Answers(DecodeDictionary(t, old(Remaining())), a, Remaining())
    {
      hide ReadInt, DecodePairs;
      var length := ReadInteger(LENGTH_WIDTH);
      match length {
        case Threw(e) => return Threw(e);
        case Trapped => return Trapped;
        case Got(n) =>
          if Signed32(n) < 0 {
            return Trapped;
          }
          a := ReadPairs(t, Signed32(n));
      }
    }

    method ReadPairs(t: Schema, count: nat) returns (a: Answer<Dictionary>)
      requires Valid()
      modifies this
      ensures Valid() && Answers(DecodePairs(t, old(Remaining()), count, map[]), a, Remaining())
    {
      hide Decode, ReadBlock;
      ghost var start := Remaining();
      var dict: Dictionary := map[];
      var i := 0;
      while i < count
        invariant i <= count && Valid()
        invariant DecodePairs(t, Remaining(), count - i, dict) == DecodePairs(t, start, count, map[])
      {
        var key := ReadData();
        match key {
          case Threw(e) => return Threw(e);
          case Trapped => return Trapped;
          case Got(_) =>
        }
        var v := Read(t);
        match v {
          case Threw(e) => return Threw(e);
          case Trapped => return Trapped;
          case Got(value) => dict := dict[key.value := value];
        }
        i := i + 1;
      }
      a := Got(dict);
    }
  }

  /** Reading all the items is reading these and then the remaining ones. */
  ghost predicate Continues(all: Outcome<seq<Value>>, items: seq<Value>, rest: Outcome<seq<Value>>)
  {
    match rest
    case Done(more, tail) => all == Done(items + more, tail)
    case _ => all == rest
  }

  lemma ContinuesFromStart(all: Outcome<seq<Value>>)
    ensures Continues(all, [], all)
  {
    if all.Done? { assert [] + all.value == all.value; }
  }

  lemma ContinuesOn(t: Schema, all: Outcome<seq<Value>>, items: seq<Value>, here: seq<Byte>, left: nat)
    requires left > 0 && Continues(all, items, DecodeItems(t, here, left))
    ensures match Decode(t, here)
      case Done(v, rest) => Continues(all, items + [v], DecodeItems(t, rest, left - 1))
      case Thrown(e) => all == Thrown(e)
      case Crashed => all == Crashed
  {
    hide Decode;
    var o := Decode(t, here);
    if o.Done? && DecodeItems(t, o.rest, left - 1).Done? {
      var more := DecodeItems(t, o.rest, left - 1).value;
      assert items + ([o.value] + more) == items + [o.value] + more;
    }
  }

  lemma NoItemsLeft(t: Schema, all: Outcome<seq<Value>>, items: seq<Value>, here: seq<Byte>)
    requires Continues(all, items, DecodeItems(t, here, 0))
    ensures all == Done(items, here)
  {
    assert items + [] == items;
  }

  /** `lift`: the whole buffer must be used. */
  method LiftBuffer(s: Schema, b: RustBuffer) returns (a: Answer<Value>)
    requires LiftsByReading(s)
    ensures Answers(Lift(s, b), a, [])
  {
    hide Decode;
    if b.NoData? {
      return Trapped;
    }
    var reader := new Reader(b.bytes);
    assert b.bytes[0..] == b.bytes;
    a := reader.Read(s);
    if a.Got? && reader.offset < |reader.data| {
      return Threw(IncompleteData);
    }
  }

  /** `lower` */
  method LowerValue(s: Schema, v: Value) returns (b: RustBuffer)
    requires LiftsByReading(s) && Encodable(s, v)
    ensures b == Lower(s, v)
  {
    hide Encode, Encodable;
    var writer := new Writer();
    writer.Write(s, v);
    b := Holding(writer.bytes);
  }
}
