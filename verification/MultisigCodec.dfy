/** The generated codecs as they run: a writer with forks for submessages, and a reader that each
    `decode` loop drives while it fills a message. */
module MultisigCodec {
  import opened BigEndian
  import opened MultisigProto
  import opened Outcomes
  import opened ProtoWire

  class BinaryWriter {
    var buf: seq<Byte>
    var stack: seq<seq<Byte>>

    constructor ()
      ensures buf == [] && stack == []
    {
      buf, stack := [], [];
    }

    method UInt32(v: nat)
      modifies this
      ensures buf == old(buf) + EncodeVarint(v) && stack == old(stack)
    {
      buf := buf + EncodeVarint(v);
    }

    method Bytes(bytes: seq<Byte>)
      modifies this
      ensures buf == old(buf) + EncodeBytes(bytes) && stack == old(stack)
    {
      buf := buf + EncodeBytes(bytes);
    }

    /** What follows, up to the matching join, is a submessage. */
    method Fork()
      modifies this
      ensures buf == [] && stack == old(stack) + [old(buf)]
    {
      buf, stack := [], stack + [buf];
    }

    method Join()
      requires stack != []
      modifies this
      ensures buf == old(stack)[|old(stack)| - 1] + EncodeBytes(old(buf)) && stack == old(stack)[..|old(stack)| - 1]
    {
      buf, stack := stack[|stack| - 1] + EncodeBytes(buf), stack[..|stack| - 1];
    }
  }

  lemma {:induction false} ConcatSplit(a: seq<seq<Byte>>, b: seq<seq<Byte>>)
    ensures Concat(a + b) == Concat(a) + Concat(b)
  {
    if a == [] {
      assert a + b == b;
      assert Concat(a) + Concat(b) == Concat(b);
    } else {
      ConcatSplit(a[1..], b);
      assert (a + b)[1..] == a[1..] + b && (a + b)[0] == a[0];
      assert a[0] + (Concat(a[1..]) + Concat(b)) == (a[0] + Concat(a[1..])) + Concat(b);
    }
  }

  lemma ConcatOne(piece: seq<Byte>)
    ensures Concat([piece]) == piece
  {
    assert [piece][1..] == [];
  }

  method WriteNumber(w: BinaryWriter, tag: nat, v: nat)
    modifies w
    ensures w.buf == old(w.buf) + Concat(NumberPieces(tag, v)) && w.stack == old(w.stack)
  {
    if v != 0 {
      ConcatOne(NumberField(tag, v));
      w.UInt32(tag);
      w.UInt32(v);
    }
  }

  method WriteNonEmpty(w: BinaryWriter, tag: nat, bytes: seq<Byte>)
    modifies w
    ensures w.buf == old(w.buf) + Concat(BytesPieces(tag, bytes)) && w.stack == old(w.stack)
  {
    if |bytes| != 0 {
      ConcatOne(BytesField(tag, bytes));
      w.UInt32(tag);
      w.Bytes(bytes);
    }
  }

  lemma OneMore(tag: nat, items: seq<seq<Byte>>, i: nat)
    requires i < |items|
    ensures Concat(RepeatedPieces(tag, items[..i + 1])) == Concat(RepeatedPieces(tag, items[..i])) + BytesField(tag, items[i])
  {
    assert items[..i + 1][..i] == items[..i];
    ConcatSplit(RepeatedPieces(tag, items[..i]), [BytesField(tag, items[i])]);
    ConcatOne(BytesField(tag, items[i]));
  }

  method EncodeConfigTo(m: MultisigConfig, w: BinaryWriter)
    requires EncodableConfig(m)
    modifies w
    ensures w.buf == old(w.buf) + EncodeConfig(m) && w.stack == old(w.stack)
  {
    hide Concat, RepeatedPieces, NumberPieces, EncodeVarint;
    WriteNumber(w, NUMBER_1, m.version);
    WriteNumber(w, NUMBER_2, m.threshold);
    ghost var start := w.buf;
    NoRepeats(DELIMITED_3);
    var i := 0;
    while i < |m.publicKeys|
      invariant i <= |m.publicKeys| && w.stack == old(w.stack)
      invariant w.buf == start + Concat(RepeatedPieces(DELIMITED_3, m.publicKeys[..i]))
    {
      OneMore(DELIMITED_3, m.publicKeys, i);
      w.UInt32(DELIMITED_3);
      w.Bytes(m.publicKeys[i]);
      i := i + 1;
    }
    assert m.publicKeys[..i] == m.publicKeys;
    ThreeParts(NumberPieces(NUMBER_1, m.version), NumberPieces(NUMBER_2, m.threshold), RepeatedPieces(DELIMITED_3, m.publicKeys));
  }

  lemma NoRepeats(tag: nat)
    ensures Concat(RepeatedPieces(tag, [])) == []
  {
  }

  lemma ThreeParts(a: seq<seq<Byte>>, b: seq<seq<Byte>>, c: seq<seq<Byte>>)
    ensures Concat(a + b + c) == Concat(a) + Concat(b) + Concat(c)
  {
    ConcatSplit(a + b, c);
    ConcatSplit(a, b);
  }

  method EncodeSignatureTo(m: KeyedSignature, w: BinaryWriter)
    requires EncodableSignature(m)
    modifies w
    ensures w.buf == old(w.buf) + EncodeSignature(m) && w.stack == old(w.stack)
  {
    hide Concat, BytesPieces;
    ConcatSplit(BytesPieces(DELIMITED_1, m.publicKey), BytesPieces(DELIMITED_2, m.signature));
    WriteNonEmpty(w, DELIMITED_1, m.publicKey);
    WriteNonEmpty(w, DELIMITED_2, m.signature);
  }

  method EncodeSetTo(m: MultisigSignatureSet, w: BinaryWriter)
    requires EncodableSet(m)
    modifies w
    ensures w.buf == old(w.buf) + EncodeSet(m) && w.stack == old(w.stack)
  {
    hide Concat, RepeatedPieces, EncodeVarint, EncodeConfig, EncodeSignature;
    ghost var config := match m.multisigConfig case None => [] case Some(c) => [BytesField(DELIMITED_1, EncodeConfig(c))];
    if m.multisigConfig.Some? {
      w.UInt32(DELIMITED_1);
      w.Fork();
      EncodeConfigTo(m.multisigConfig.value, w);
      w.Join();
      ConcatOne(BytesField(DELIMITED_1, EncodeConfig(m.multisigConfig.value)));
    } else {
      NothingToConcat();
    }
    ghost var start, encoded := w.buf, EncodedSignatures(m.signatures);
    assert start == old(w.buf) + Concat(config);
    NoRepeats(DELIMITED_2);
    var i := 0;
    while i < |m.signatures|
      invariant i <= |m.signatures| && w.stack == old(w.stack)
      invariant w.buf == start + Concat(RepeatedPieces(DELIMITED_2, encoded[..i]))
    {
      OneMore(DELIMITED_2, encoded, i);
      w.UInt32(DELIMITED_2);
      w.Fork();
      EncodeSignatureTo(m.signatures[i], w);
      w.Join();
      i := i + 1;
    }
    assert encoded[..i] == encoded;
    ConcatSplit(config, RepeatedPieces(DELIMITED_2, encoded));
  }

  lemma NothingToConcat()
    ensures Concat([]) == []
  {
  }

  method EncodeAuthorityTo(m: SigningAuthority, w: BinaryWriter)
    requires EncodableAuthority(m)
    modifies w
    ensures w.buf == old(w.buf) + EncodeAuthority(m) && w.stack == old(w.stack)
  {
    hide Concat, EncodeVarint, EncodeConfig;
    match m.authority {
      case None => NothingToConcat();
      case Some(OfPublicKey(key)) =>
        ConcatOne(BytesField(DELIMITED_1, key));
        w.UInt32(DELIMITED_1);
        w.Bytes(key);
      case Some(OfMultisig(c)) =>
        ConcatOne(BytesField(DELIMITED_2, EncodeConfig(c)));
        w.UInt32(DELIMITED_2);
        w.Fork();
        EncodeConfigTo(c, w);
        w.Join();
    }
  }

  // ----- decoding

  /** A reader, by what is left of its buffer. */
  class BinaryReader {
    var rest: seq<Byte>

    constructor (buf: seq<Byte>)
      ensures rest == buf
    {
      rest := buf;
    }

    method UInt32() returns (r: Result<nat, WireError>)
      modifies this
      ensures match ReadUInt32(old(rest)) case Done(v, rest') => r == Ok(v) && rest == rest' case Failed(e) => r == Err(e)
    {
      match ReadUInt32(rest) {
        case Done(v, rest') =>
          rest := rest';
          return Ok(v);
        case Failed(e) => return Err(e);
      }
    }

    method Bytes() returns (r: Result<seq<Byte>, WireError>)
      modifies this
      ensures match ReadBytes(old(rest)) case Done(v, rest') => r == Ok(v) && rest == rest' case Failed(e) => r == Err(e)
    {
      match ReadBytes(rest) {
        case Done(v, rest') =>
          rest := rest';
          return Ok(v);
        case Failed(e) => return Err(e);
      }
    }

    method SkipField(wireType: nat) returns (r: Result<(), WireError>)
      modifies this
      ensures match Skip(wireType, old(rest)) case Done(_, rest') => r == Ok(()) && rest == rest' case Failed(e) => r == Err(e)
    {
      match Skip(wireType, rest) {
        case Done(_, rest') =>
          rest := rest';
          return Ok(());
        case Failed(e) => return Err(e);
      }
    }
  }

  ghost predicate Answers<M>(o: Outcome<M>, r: Result<M, WireError>, rest: seq<Byte>)
  {
    match o
    case Done(m, rest') => r == Ok(m) && rest == rest'
    case Failed(e) => r == Err(e)
  }

  method DecodeConfigFrom(reader: BinaryReader, stop: int) returns (r: Result<MultisigConfig, WireError>)
    modifies reader
    ensures Answers(Loop(ConfigStep, BASE_CONFIG, old(reader.rest), stop), r, reader.rest)
  {
    hide ReadUInt32, ReadBytes, Skip;
    var message := BASE_CONFIG;
    while |reader.rest| > stop
      invariant Loop(ConfigStep, message, reader.rest, stop) == Loop(ConfigStep, BASE_CONFIG, old(reader.rest), stop)
      decreases |reader.rest|
    {
      var tag :- reader.UInt32();
      if tag == NUMBER_1 {
        var v :- reader.UInt32();
        message := message.(version := v);
        continue;
      }
      if tag == NUMBER_2 {
        var v :- reader.UInt32();
        message := message.(threshold := v);
        continue;
      }
      if tag == DELIMITED_3 {
        var key :- reader.Bytes();
        message := message.(publicKeys := message.publicKeys + [key]);
        continue;
      }
      if tag % 8 == GROUP_END || tag == 0 {
        return Ok(message);
      }
      var _ :- reader.SkipField(tag % 8);
    }
    r := Ok(message);
  }

  method DecodeSignatureFrom(reader: BinaryReader, stop: int) returns (r: Result<KeyedSignature, WireError>)
    modifies reader
    ensures Answers(Loop(SignatureStep, BASE_SIGNATURE, old(reader.rest), stop), r, reader.rest)
  {
    hide ReadUInt32, ReadBytes, Skip;
    var message := BASE_SIGNATURE;
    while |reader.rest| > stop
      invariant Loop(SignatureStep, message, reader.rest, stop) == Loop(SignatureStep, BASE_SIGNATURE, old(reader.rest), stop)
      decreases |reader.rest|
    {
      var tag :- reader.UInt32();
      if tag == DELIMITED_1 {
        var key :- reader.Bytes();
        message := message.(publicKey := key);
        continue;
      }
      if tag == DELIMITED_2 {
        var signature :- reader.Bytes();
        message := message.(signature := signature);
        continue;
      }
      if tag % 8 == GROUP_END || tag == 0 {
        return Ok(message);
      }
      var _ :- reader.SkipField(tag % 8);
    }
    r := Ok(message);
  }

  method DecodeNestedConfig(reader: BinaryReader) returns (r: Result<MultisigConfig, WireError>)
    modifies reader
    ensures Answers(Nested(ConfigStep, BASE_CONFIG, old(reader.rest)), r, reader.rest)
  {
    hide ReadUInt32, Loop;
    var length :- reader.UInt32();
    r := DecodeConfigFrom(reader, |reader.rest| - length);
  }

  method DecodeNestedSignature(reader: BinaryReader) returns (r: Result<KeyedSignature, WireError>)
    modifies reader
    ensures Answers(Nested(SignatureStep, BASE_SIGNATURE, old(reader.rest)), r, reader.rest)
  {
    hide ReadUInt32, Loop;
    var length :- reader.UInt32();
    r := DecodeSignatureFrom(reader, |reader.rest| - length);
  }

  method DecodeSetFrom(reader: BinaryReader, stop: int) returns (r: Result<MultisigSignatureSet, WireError>)
    modifies reader
    ensures Answers(Loop(SetStep, BASE_SET, old(reader.rest), stop), r, reader.rest)
  {
    hide ReadUInt32, ReadBytes, Skip, Nested;
    StepsShrink();
    var message := BASE_SET;
    while |reader.rest| > stop
      invariant Loop(SetStep, message, reader.rest, stop) == Loop(SetStep, BASE_SET, old(reader.rest), stop)
      decreases |reader.rest|
    {
      var tag :- reader.UInt32();
      ghost var here := reader.rest;
      assert SetStep(message, tag, here).Took? ==> |SetStep(message, tag, here).rest| <= |here|;
      if tag == DELIMITED_1 {
        var c :- DecodeNestedConfig(reader);
        message := message.(multisigConfig := Some(c));
        continue;
      }
      if tag == DELIMITED_2 {
        var s :- DecodeNestedSignature(reader);
        message := message.(signatures := message.signatures + [s]);
        continue;
      }
      if tag % 8 == GROUP_END || tag == 0 {
        return Ok(message);
      }
      var _ :- reader.SkipField(tag % 8);
    }
    r := Ok(message);
  }

  method DecodeAuthorityFrom(reader: BinaryReader, stop: int) returns (r: Result<SigningAuthority, WireError>)
    modifies reader
    ensures Answers(Loop(AuthorityStep, BASE_AUTHORITY, old(reader.rest), stop), r, reader.rest)
  {
    hide ReadUInt32, ReadBytes, Skip, Nested;
    StepsShrink();
    var message := BASE_AUTHORITY;
    while |reader.rest| > stop
      invariant Loop(AuthorityStep, message, reader.rest, stop) == Loop(AuthorityStep, BASE_AUTHORITY, old(reader.rest), stop)
      decreases |reader.rest|
    {
      var tag :- reader.UInt32();
      ghost var here := reader.rest;
      assert AuthorityStep(message, tag, here).Took? ==> |AuthorityStep(message, tag, here).rest| <= |here|;
      if tag == DELIMITED_1 {
        var key :- reader.Bytes();
        message := SigningAuthority(Some(OfPublicKey(key)));
        continue;
      }
      if tag == DELIMITED_2 {
        var c :- DecodeNestedConfig(reader);
        message := SigningAuthority(Some(OfMultisig(c)));
        continue;
      }
      if tag % 8 == GROUP_END || tag == 0 {
        return Ok(message);
      }
      var _ :- reader.SkipField(tag % 8);
    }
    r := Ok(message);
  }
}
