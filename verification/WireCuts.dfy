/** What the generated decoders make of a message that was cut short: inside a field, at any depth, they
    fail; between two fields they cannot tell. */
module WireCuts {
  import opened BigEndian
  import opened MultisigProto
  import opened Outcomes
  import opened ProtoWire
  import opened WireBytes

  predicate Cuts(q: seq<Byte>, piece: seq<Byte>) { q <= piece && q != piece }

  // ----- cut primitives

  lemma {:induction false} VarintLength(v: nat, k: nat)
    requires 0 < k && v < Septets(k)
    ensures |EncodeVarint(v)| <= k
  {
    if v >= 128 {
      assert Septets(1) == 128;
      assert k > 1 && v / 128 < Septets(k - 1);
      VarintLength(v / 128, k - 1);
    }
  }

  lemma CutVarint(v: nat, q: seq<Byte>, ten: nat)
    requires ten == 10 && v < Septets(ten) && Cuts(q, EncodeVarint(v))
    ensures ReadUInt32(q) == Failed(PrematureEnd)
  {
    VarintLength(v, ten);
    forall i | 0 <= i < |q| ensures q[i] >= 128 {
      VarintBytes(v, i);
      assert q[i] == EncodeVarint(v)[i];
    }
    hide EncodeVarint, ReadUInt32, Septets;
    TenBytesAtMost(q, ten);
  }

  lemma SmallEnough(v: nat, ten: nat)
    requires v < UINT32_LIMIT && ten == 10
    ensures v < Septets(ten)
  {
    MaxVarintHolds(ten);
  }

  lemma MaxVarintHolds(ten: nat)
    requires ten == 10
    ensures Septets(ten) >= UINT32_LIMIT
  {
    assert Septets(5) == 0x8_0000_0000;
    assert Septets(ten) == 128 * Septets(9) && Septets(9) == 128 * Septets(8) && Septets(8) == 128 * Septets(7);
    assert Septets(7) == 128 * Septets(6) && Septets(6) == 128 * Septets(5);
  }

  /** Where a cut falls in two parts. */
  lemma SplitCut(q: seq<Byte>, a: seq<Byte>, b: seq<Byte>)
    requires Cuts(q, a + b)
    ensures Cuts(q, a) || (|q| >= |a| && q == a + q[|a|..] && Cuts(q[|a|..], b))
  {
    if |q| < |a| {
      assert q == (a + b)[..|q|] == a[..|q|];
    } else {
      assert q[..|a|] == (a + b)[..|q|][..|a|] == a;
      assert q[|a|..] == (a + b)[..|q|][|a|..] == b[..|q| - |a|];
    }
  }

  lemma CutBytes(bytes: seq<Byte>, q: seq<Byte>)
    requires Short(bytes) && Cuts(q, EncodeBytes(bytes))
    ensures ReadBytes(q) == Failed(PrematureEnd)
  {
    SplitCut(q, EncodeVarint(|bytes|), bytes);
    if Cuts(q, EncodeVarint(|bytes|)) {
      SmallEnough(|bytes|, MAX_VARINT);
      CutVarint(|bytes|, q, MAX_VARINT);
    } else {
      BytesReadExactly(|bytes|, q[|EncodeVarint(|bytes|)|..]);
    }
    hide EncodeVarint, ReadUInt32;
  }

  // ----- cut fields

  ghost predicate Breaks<M>(step: Step<M>, piece: seq<Byte>, m: M, q: seq<Byte>, stop: int)
  {
    q != [] && Cuts(q, piece) && stop <= 0 ==> Loop(step, m, q, stop) == Failed(PrematureEnd)
  }

  ghost predicate TakesAll<M(!new)>(step: Step<M>, piece: seq<Byte>, m: M) { exists m' :: Consumes(step, piece, m, m') }

  /** Whatever was read before, the whole piece is taken and a part of it is not. */
  ghost predicate NeedsAll<M(!new)>(step: Step<M>, piece: seq<Byte>)
  {
    && (forall m :: TakesAll(step, piece, m))
    && forall m, q, stop :: Breaks(step, piece, m, q, stop)
  }

  ghost predicate AllNeeded<M(!new)>(step: Step<M>, pieces: seq<seq<Byte>>)
  {
    forall i :: 0 <= i < |pieces| ==> NeedsAll(step, pieces[i])
  }

  lemma LoopBreaks<M>(step: Step<M>, m: M, tag: nat, buf: seq<Byte>, stop: int, e: WireError)
    requires tag < UINT32_LIMIT && stop <= |buf| && step(m, tag, buf) == Broke(e)
    ensures Loop(step, m, EncodeVarint(tag) + buf, stop) == Failed(e)
  {
    UInt32RoundTrip(tag, buf);
    hide EncodeVarint, ReadUInt32, Skip;
  }

  /** A field whose handler refuses a cut value needs all of its piece. */
  lemma CutField<M(!new)>(step: Step<M>, tag: nat, value: seq<Byte>, m: M, q: seq<Byte>, stop: int)
    requires tag < 128 && forall r :: Cuts(r, value) ==> step(m, tag, r) == Broke(PrematureEnd)
    ensures Breaks(step, EncodeVarint(tag) + value, m, q, stop)
  {
    if q != [] && Cuts(q, EncodeVarint(tag) + value) && stop <= 0 {
      TagBytes(tag);
      SplitCut(q, EncodeVarint(tag), value);
      assert Cuts(q, [tag]) ==> q == [];
      var r := q[1..];
      LoopBreaks(step, m, tag, r, stop, PrematureEnd);
      hide EncodeVarint, Loop;
      assert q == [tag] + r;
    }
  }

  lemma NestedLoops<N>(step: Step<N>, base: N, length: nat, buf: seq<Byte>)
    requires length < UINT32_LIMIT
    ensures Nested(step, base, EncodeVarint(length) + buf) == Loop(step, base, buf, |buf| - length)
  {
    hide EncodeVarint, ReadUInt32, Loop;
    var whole := EncodeVarint(length) + buf;
    assert ReadUInt32(whole) == Done(length, buf) by {
      UInt32RoundTrip(length, buf);
    }
    NestedLoopsOn(step, base, whole, length, buf);
  }

  lemma NestedLoopsOn<N>(step: Step<N>, base: N, whole: seq<Byte>, length: nat, buf: seq<Byte>)
    requires ReadUInt32(whole) == Done(length, buf)
    ensures Nested(step, base, whole) == Loop(step, base, buf, |buf| - length)
  {
    hide ReadUInt32, Loop;
  }

  /** A submessage's length is not checked against the buffer: one that reaches beyond it is still read up to
      an early end. */
  lemma NestedEndsEarly<N>(step: Step<N>, base: N, length: nat, tag: nat, rest: seq<Byte>)
    requires length < UINT32_LIMIT && EndsEarly(tag) && length >= |EncodeVarint(tag)| && step(base, tag, rest).NotMine?
    ensures Nested(step, base, EncodeVarint(length) + (EncodeVarint(tag) + rest)) == Done(base, rest)
  {
    hide *;
    var buf := EncodeVarint(tag) + rest;
    NestedLoops(step, base, length, buf);
    LoopEndsEarly(step, base, tag, rest, |buf| - length);
  }

  // ----- cut messages

  /** A message that should go on, or that stops inside a field, cannot be read. */
  lemma {:induction false} CutMessage<M(!new)>(step: Step<M>, pieces: seq<seq<Byte>>, m: M, p: seq<Byte>, stop: int)
    requires AllNeeded(step, pieces) && p <= Concat(pieces) && stop <= 0
    requires stop < 0 || forall k :: 0 <= k <= |pieces| ==> p != Concat(pieces[..k])
    ensures Loop(step, m, p, stop) == Failed(PrematureEnd)
    decreases |pieces|
  {
    hide Consumes, TakesAll;
    if p == [] {
      assert stop < 0 by {
        assert Concat(pieces[..0]) == [];
      }
    } else {
      var first, rest := pieces[0], pieces[1..];
      assert Breaks(step, first, m, p, stop);
      if |p| >= |first| {
        var p' := p[|first|..];
        assert p == first + p' && p' <= Concat(rest);
        assert TakesAll(step, first, m);
        var m' := AfterPiece(step, first, m, p', stop);
        assert AllNeeded(step, rest);
        if stop == 0 {
          forall k | 0 <= k <= |rest| ensures p' != Concat(rest[..k]) {
            assert pieces[..k + 1][1..] == rest[..k] && pieces[..k + 1][0] == first;
            assert p != Concat(pieces[..k + 1]);
          }
        }
        CutMessage(step, rest, m', p', stop);
      } else {
        assert Cuts(p, first);
      }
    }
  }

  lemma AfterPiece<M(!new)>(step: Step<M>, piece: seq<Byte>, m: M, suffix: seq<Byte>, stop: int) returns (m': M)
    requires TakesAll(step, piece, m) && stop <= 0
    ensures Loop(step, m, piece + suffix, stop) == Loop(step, m', suffix, stop)
  {
    m' :| Consumes(step, piece, m, m');
    assert Resumes(step, piece, m, m', suffix, stop);
  }

  /** Between two fields a message reads as if it had ended there. */
  lemma {:induction false} BoundaryReads<M(!new)>(step: Step<M>, pieces: seq<seq<Byte>>, m: M)
    requires AllNeeded(step, pieces)
    ensures Loop(step, m, Concat(pieces), 0).Done?
    decreases |pieces|
  {
    hide Consumes, TakesAll;
    if pieces != [] {
      assert NeedsAll(step, pieces[0]) && TakesAll(step, pieces[0], m);
      var m' := AfterPiece(step, pieces[0], m, Concat(pieces[1..]), 0);
      BoundaryReads(step, pieces[1..], m');
    }
  }

  lemma CutsExactly<M(!new)>(step: Step<M>, pieces: seq<seq<Byte>>, m: M, p: seq<Byte>)
    requires AllNeeded(step, pieces) && p <= Concat(pieces)
    ensures var o := Loop(step, m, p, 0);
      if exists k :: 0 <= k <= |pieces| && p == Concat(pieces[..k]) then o.Done? else o == Failed(PrematureEnd)
  {
    hide Loop, Concat, NeedsAll;
    if k :| 0 <= k <= |pieces| && p == Concat(pieces[..k]) {
      assert AllNeeded(step, pieces[..k]);
      BoundaryReads(step, pieces[..k], m);
    } else {
      CutMessage(step, pieces, m, p, 0);
    }
  }

  // ----- the fields of the messages, read after anything

  lemma NumberNeeded<M(!new)>(step: Step<M>, tag: nat, v: nat)
    requires tag < 128 && v < UINT32_LIMIT
    requires forall m: M :: TakesAll(step, NumberField(tag, v), m)
    requires forall m: M, r: seq<Byte> :: ReadUInt32(r) == Failed(PrematureEnd) ==> step(m, tag, r) == Broke(PrematureEnd)
    ensures NeedsAll(step, NumberField(tag, v))
  {
    hide TakesAll, EncodeVarint, ReadUInt32;
    forall m, q, stop ensures Breaks(step, NumberField(tag, v), m, q, stop) {
      forall r | Cuts(r, EncodeVarint(v)) ensures step(m, tag, r) == Broke(PrematureEnd) {
        SmallEnough(v, MAX_VARINT);
        CutVarint(v, r, MAX_VARINT);
      }
      CutField(step, tag, EncodeVarint(v), m, q, stop);
    }
  }

  lemma BytesNeeded<M(!new)>(step: Step<M>, tag: nat, bytes: seq<Byte>)
    requires tag < 128 && Short(bytes)
    requires forall m: M :: TakesAll(step, BytesField(tag, bytes), m)
    requires forall m: M, r: seq<Byte> :: ReadBytes(r) == Failed(PrematureEnd) ==> step(m, tag, r) == Broke(PrematureEnd)
    ensures NeedsAll(step, BytesField(tag, bytes))
  {
    hide TakesAll, EncodeVarint, ReadBytes;
    forall m, q, stop ensures Breaks(step, BytesField(tag, bytes), m, q, stop) {
      forall r | Cuts(r, EncodeBytes(bytes)) ensures step(m, tag, r) == Broke(PrematureEnd) {
        CutBytes(bytes, r);
      }
      CutField(step, tag, EncodeBytes(bytes), m, q, stop);
    }
  }

  lemma CutNested<N(!new)>(inner: Step<N>, base: N, pieces: seq<seq<Byte>>, q: seq<Byte>)
    requires AllNeeded(inner, pieces) && Short(Concat(pieces)) && Cuts(q, EncodeBytes(Concat(pieces)))
    ensures Nested(inner, base, q) == Failed(PrematureEnd)
  {
    hide AllNeeded, EncodeVarint, ReadUInt32, Concat;
    var bytes := Concat(pieces);
    SplitCut(q, EncodeVarint(|bytes|), bytes);
    if Cuts(q, EncodeVarint(|bytes|)) {
      SmallEnough(|bytes|, MAX_VARINT);
      CutVarint(|bytes|, q, MAX_VARINT);
    } else {
      var r := q[|EncodeVarint(|bytes|)|..];
      UInt32RoundTrip(|bytes|, r);
      CutMessage(inner, pieces, base, r, |r| - |bytes|);
    }
  }

  lemma NestedNeeded<M(!new), N(!new)>(step: Step<M>, tag: nat, inner: Step<N>, base: N, pieces: seq<seq<Byte>>)
    requires tag < 128 && Short(Concat(pieces)) && AllNeeded(inner, pieces)
    requires forall m: M :: TakesAll(step, BytesField(tag, Concat(pieces)), m)
    requires forall m: M, r: seq<Byte> :: Nested(inner, base, r) == Failed(PrematureEnd) ==> step(m, tag, r) == Broke(PrematureEnd)
    ensures NeedsAll(step, BytesField(tag, Concat(pieces)))
  {
    hide TakesAll, EncodeVarint, Nested, AllNeeded, Concat;
    forall m, q, stop ensures Breaks(step, BytesField(tag, Concat(pieces)), m, q, stop) {
      forall r | Cuts(r, EncodeBytes(Concat(pieces))) ensures step(m, tag, r) == Broke(PrematureEnd) {
        CutNested(inner, base, pieces, r);
      }
      CutField(step, tag, EncodeBytes(Concat(pieces)), m, q, stop);
    }
  }

  lemma {:induction false} RepeatedNeeded<M(!new)>(step: Step<M>, tag: nat, items: seq<seq<Byte>>)
    requires forall i :: 0 <= i < |items| ==> NeedsAll(step, BytesField(tag, items[i]))
    ensures AllNeeded(step, RepeatedPieces(tag, items))
    decreases items
  {
    hide NeedsAll, BytesField;
    if items != [] {
      RepeatedNeeded(step, tag, items[..|items| - 1]);
    }
  }

  /** Whatever a configuration holds, a number replaces the one before and a key is appended. */
  lemma ConfigFieldsReplace(m: MultisigConfig, v: nat, key: seq<Byte>)
    requires v < UINT32_LIMIT && Short(key)
    ensures Consumes(ConfigStep, [8] + EncodeVarint(v), m, m.(version := v))
    ensures Consumes(ConfigStep, [16] + EncodeVarint(v), m, m.(threshold := v))
    ensures Consumes(ConfigStep, BytesAt(26, key), m, m.(publicKeys := m.publicKeys + [key]))
  {
    VersionIsRead(m, v);
    ThresholdIsRead(m, v);
    KeyIsRead(m, key);
    TagBytes(NUMBER_1);
    TagBytes(NUMBER_2);
    FieldBytes(DELIMITED_3, key);
    hide Consumes, EncodeVarint;
  }

  lemma SignatureFieldsReplace(m: KeyedSignature, bytes: seq<Byte>)
    requires Short(bytes)
    ensures Consumes(SignatureStep, BytesAt(10, bytes), m, m.(publicKey := bytes))
    ensures Consumes(SignatureStep, BytesAt(18, bytes), m, m.(signature := bytes))
  {
    forall suffix
      ensures SignatureStep(m, DELIMITED_1, EncodeBytes(bytes) + suffix) == Took(m.(publicKey := bytes), suffix)
      ensures SignatureStep(m, DELIMITED_2, EncodeBytes(bytes) + suffix) == Took(m.(signature := bytes), suffix)
    {
      ProtoWire.BytesRoundTrip(bytes, suffix);
    }
    TakesPiece(SignatureStep, DELIMITED_1, EncodeBytes(bytes), m, m.(publicKey := bytes));
    TakesPiece(SignatureStep, DELIMITED_2, EncodeBytes(bytes), m, m.(signature := bytes));
    FieldBytes(DELIMITED_1, bytes);
    FieldBytes(DELIMITED_2, bytes);
    hide Consumes, EncodeVarint;
  }

  /** Whatever a set holds, a configuration replaces the one before as a whole and a signature is appended. */
  lemma SetFieldsReplace(m: MultisigSignatureSet, c: MultisigConfig, s: KeyedSignature)
    requires NestedConfig(c) && EncodableSignature(s) && Short(EncodeSignature(s))
    ensures Consumes(SetStep, BytesAt(10, EncodeConfig(c)), m, m.(multisigConfig := Some(c)))
    ensures Consumes(SetStep, BytesAt(18, EncodeSignature(s)), m, m.(signatures := m.signatures + [s]))
  {
    hide Consumes, EncodableConfig, EncodableSignature, SpellsConfig, SpellsSignature, EncodeConfig, EncodeSignature, Nested, EncodeBytes, BytesAt;
    PlainConfig(c);
    PlainSignature(s);
    var m1, m2 := m.(multisigConfig := Some(c)), m.(signatures := m.signatures + [s]);
    forall suffix
      ensures SetStep(m, DELIMITED_1, EncodeBytes(EncodeConfig(c)) + suffix) == Took(m1, suffix)
      ensures SetStep(m, DELIMITED_2, EncodeBytes(EncodeSignature(s)) + suffix) == Took(m2, suffix)
    {
      NestedConfigIsRead(c, OwnOnly(ConfigPieces(c)), suffix);
      NestedSignatureIsRead(s, OwnOnly(SignaturePieces(s)), suffix);
    }
    TakesPiece(SetStep, DELIMITED_1, EncodeBytes(EncodeConfig(c)), m, m1);
    TakesPiece(SetStep, DELIMITED_2, EncodeBytes(EncodeSignature(s)), m, m2);
    FieldBytes(DELIMITED_1, EncodeConfig(c));
    FieldBytes(DELIMITED_2, EncodeSignature(s));
  }

  /** The last arm of the choice that is read wins. */
  lemma AuthorityFieldsReplace(m: SigningAuthority, key: seq<Byte>, c: MultisigConfig)
    requires Short(key) && NestedConfig(c)
    ensures Consumes(AuthorityStep, BytesAt(10, key), m, SigningAuthority(Some(OfPublicKey(key))))
    ensures Consumes(AuthorityStep, BytesAt(18, EncodeConfig(c)), m, SigningAuthority(Some(OfMultisig(c))))
  {
    hide Consumes, EncodableConfig, SpellsConfig, EncodeConfig, Nested, EncodeBytes, BytesAt, ReadBytes;
    PlainConfig(c);
    var m1, m2 := SigningAuthority(Some(OfPublicKey(key))), SigningAuthority(Some(OfMultisig(c)));
    forall suffix
      ensures AuthorityStep(m, DELIMITED_1, EncodeBytes(key) + suffix) == Took(m1, suffix)
      ensures AuthorityStep(m, DELIMITED_2, EncodeBytes(EncodeConfig(c)) + suffix) == Took(m2, suffix)
    {
      ProtoWire.BytesRoundTrip(key, suffix);
      NestedConfigIsRead(c, OwnOnly(ConfigPieces(c)), suffix);
    }
    TakesPiece(AuthorityStep, DELIMITED_1, EncodeBytes(key), m, m1);
    TakesPiece(AuthorityStep, DELIMITED_2, EncodeBytes(EncodeConfig(c)), m, m2);
    FieldBytes(DELIMITED_1, key);
    FieldBytes(DELIMITED_2, EncodeConfig(c));
  }

  // ----- the messages cut anywhere

  lemma ConfigNeeded(m: MultisigConfig)
    requires EncodableConfig(m)
    ensures AllNeeded(ConfigStep, ConfigPieces(m))
  {
    hide Consumes, NeedsAll, EncodeVarint, ReadUInt32, ReadBytes;
    NumberNeededBy(m.version);
    NumberNeededBy(m.threshold);
    forall i | 0 <= i < |m.publicKeys| ensures NeedsAll(ConfigStep, BytesField(DELIMITED_3, m.publicKeys[i])) {
      KeyNeeded(m.publicKeys[i]);
    }
    RepeatedNeeded(ConfigStep, DELIMITED_3, m.publicKeys);
  }

  lemma NumberNeededBy(v: nat)
    requires v < UINT32_LIMIT
    ensures NeedsAll(ConfigStep, NumberField(NUMBER_1, v)) && NeedsAll(ConfigStep, NumberField(NUMBER_2, v))
  {
    hide Consumes, NeedsAll, EncodeVarint, ReadUInt32, ReadBytes, NumberField;
    forall m ensures TakesAll(ConfigStep, NumberField(NUMBER_1, v), m) && TakesAll(ConfigStep, NumberField(NUMBER_2, v), m) {
      VersionIsRead(m, v);
      ThresholdIsRead(m, v);
    }
    NumberNeeded(ConfigStep, NUMBER_1, v);
    NumberNeeded(ConfigStep, NUMBER_2, v);
  }

  lemma KeyNeeded(key: seq<Byte>)
    requires Short(key)
    ensures NeedsAll(ConfigStep, BytesField(DELIMITED_3, key))
  {
    hide Consumes, NeedsAll, EncodeVarint, ReadUInt32, ReadBytes, BytesField;
    forall m ensures TakesAll(ConfigStep, BytesField(DELIMITED_3, key), m) {
      KeyIsRead(m, key);
    }
    BytesNeeded(ConfigStep, DELIMITED_3, key);
  }

  lemma SignatureNeeded(m: KeyedSignature)
    requires EncodableSignature(m)
    ensures AllNeeded(SignatureStep, SignaturePieces(m))
  {
    hide NeedsAll, BytesField;
    SignatureBytesNeeded(m.publicKey);
    SignatureBytesNeeded(m.signature);
  }

  lemma SignatureBytesNeeded(bytes: seq<Byte>)
    requires Short(bytes)
    ensures NeedsAll(SignatureStep, BytesField(DELIMITED_1, bytes)) && NeedsAll(SignatureStep, BytesField(DELIMITED_2, bytes))
  {
    hide Consumes, NeedsAll, EncodeVarint, ReadBytes, BytesField, BytesAt;
    FieldBytes(DELIMITED_1, bytes);
    FieldBytes(DELIMITED_2, bytes);
    forall m ensures TakesAll(SignatureStep, BytesField(DELIMITED_1, bytes), m) && TakesAll(SignatureStep, BytesField(DELIMITED_2, bytes), m) {
      SignatureFieldsReplace(m, bytes);
    }
    BytesNeeded(SignatureStep, DELIMITED_1, bytes);
    BytesNeeded(SignatureStep, DELIMITED_2, bytes);
  }

  lemma SetConfigNeeded(c: MultisigConfig)
    requires NestedConfig(c)
    ensures NeedsAll(SetStep, BytesField(DELIMITED_1, EncodeConfig(c)))
  {
    hide Consumes, NeedsAll, AllNeeded, Concat, Nested, BytesField, BytesAt, EncodableConfig, ConfigPieces;
    FieldBytes(DELIMITED_1, EncodeConfig(c));
    forall m: MultisigSignatureSet ensures TakesAll(SetStep, BytesField(DELIMITED_1, EncodeConfig(c)), m) {
      ConfigIsTaken(m, c);
    }
    ConfigNeeded(c);
    NestedNeeded(SetStep, DELIMITED_1, ConfigStep, BASE_CONFIG, ConfigPieces(c));
  }

  lemma ConfigIsTaken(m: MultisigSignatureSet, c: MultisigConfig)
    requires NestedConfig(c)
    ensures TakesAll(SetStep, BytesAt(10, EncodeConfig(c)), m)
  {
    PlainEmpty();
    hide Consumes, EncodableConfig, EncodeConfig, BytesAt, EncodeSignature;
    SetFieldsReplace(m, c, KeyedSignature([], []));
  }

  lemma PlainEmpty()
    ensures EncodableSignature(KeyedSignature([], [])) && Short(EncodeSignature(KeyedSignature([], [])))
    ensures NestedConfig(MultisigConfig(0, 0, []))
  {
  }

  lemma SetSignatureNeeded(s: KeyedSignature)
    requires EncodableSignature(s) && Short(EncodeSignature(s))
    ensures NeedsAll(SetStep, BytesField(DELIMITED_2, EncodeSignature(s)))
  {
    hide Consumes, NeedsAll, AllNeeded, Concat, Nested, BytesField, BytesAt, EncodableSignature, SignaturePieces;
    FieldBytes(DELIMITED_2, EncodeSignature(s));
    forall m: MultisigSignatureSet ensures TakesAll(SetStep, BytesField(DELIMITED_2, EncodeSignature(s)), m) {
      SignatureIsTaken(m, s);
    }
    SignatureNeeded(s);
    NestedNeeded(SetStep, DELIMITED_2, SignatureStep, BASE_SIGNATURE, SignaturePieces(s));
  }

  lemma SignatureIsTaken(m: MultisigSignatureSet, s: KeyedSignature)
    requires EncodableSignature(s) && Short(EncodeSignature(s))
    ensures TakesAll(SetStep, BytesAt(18, EncodeSignature(s)), m)
  {
    PlainEmpty();
    hide Consumes, EncodableSignature, EncodeConfig, BytesAt, EncodeSignature;
    SetFieldsReplace(m, MultisigConfig(0, 0, []), s);
  }

  lemma SetNeeded(m: MultisigSignatureSet)
    requires EncodableSet(m)
    ensures AllNeeded(SetStep, SetPieces(m))
  {
    hide NeedsAll, BytesField, EncodeConfig, EncodeSignature, EncodableConfig, EncodableSignature;
    if m.multisigConfig.Some? {
      SetConfigNeeded(m.multisigConfig.value);
    }
    forall i | 0 <= i < |m.signatures| ensures NeedsAll(SetStep, BytesField(DELIMITED_2, EncodedSignatures(m.signatures)[i])) {
      assert m.signatures[i] in m.signatures;
      SetSignatureNeeded(m.signatures[i]);
    }
    RepeatedNeeded(SetStep, DELIMITED_2, EncodedSignatures(m.signatures));
  }

  lemma AuthorityNeeded(m: SigningAuthority)
    requires EncodableAuthority(m)
    ensures AllNeeded(AuthorityStep, AuthorityPieces(m))
  {
    PlainEmpty();
    hide Consumes, NeedsAll, Concat, Nested, BytesField, BytesAt, EncodableConfig, ConfigPieces, ReadBytes;
    match m.authority
    case None =>
    case Some(OfPublicKey(key)) =>
      FieldBytes(DELIMITED_1, key);
      forall a: SigningAuthority ensures TakesAll(AuthorityStep, BytesField(DELIMITED_1, key), a) {
        AuthorityFieldsReplace(a, key, MultisigConfig(0, 0, []));
      }
      BytesNeeded(AuthorityStep, DELIMITED_1, key);
    case Some(OfMultisig(c)) =>
      FieldBytes(DELIMITED_2, EncodeConfig(c));
      forall a: SigningAuthority ensures TakesAll(AuthorityStep, BytesField(DELIMITED_2, EncodeConfig(c)), a) {
        AuthorityFieldsReplace(a, [], c);
      }
      ConfigNeeded(c);
      NestedNeeded(AuthorityStep, DELIMITED_2, ConfigStep, BASE_CONFIG, ConfigPieces(c));
  }

  /** p ends where a field ends. */
  ghost predicate AtBoundary(p: seq<Byte>, pieces: seq<seq<Byte>>)
  {
    exists k :: 0 <= k <= |pieces| && p == Concat(pieces[..k])
  }

  /** A cut message is refused exactly when the cut is not between two of its fields. */
  lemma CutConfigFails(m: MultisigConfig, p: seq<Byte>)
    requires EncodableConfig(m) && p <= EncodeConfig(m)
    ensures if AtBoundary(p, ConfigPieces(m)) then DecodeConfig(p).Done? else DecodeConfig(p) == Failed(PrematureEnd)
  {
    hide Loop, AllNeeded, Concat, ConfigPieces, ConfigStep;
    ConfigNeeded(m);
    CutsExactly(ConfigStep, ConfigPieces(m), BASE_CONFIG, p);
  }

  lemma CutSignatureFails(m: KeyedSignature, p: seq<Byte>)
    requires EncodableSignature(m) && p <= EncodeSignature(m)
    ensures if AtBoundary(p, SignaturePieces(m)) then DecodeSignature(p).Done? else DecodeSignature(p) == Failed(PrematureEnd)
  {
    hide Loop, AllNeeded, Concat, SignaturePieces, SignatureStep;
    SignatureNeeded(m);
    CutsExactly(SignatureStep, SignaturePieces(m), BASE_SIGNATURE, p);
  }

  /** Also when the cut is inside a submessage, even between two fields of the submessage. */
  lemma CutSetFails(m: MultisigSignatureSet, p: seq<Byte>)
    requires EncodableSet(m) && p <= EncodeSet(m)
    ensures if AtBoundary(p, SetPieces(m)) then DecodeSet(p).Done? else DecodeSet(p) == Failed(PrematureEnd)
  {
    hide Loop, AllNeeded, Concat, SetPieces, SetStep, EncodableSet;
    SetNeeded(m);
    CutsExactly(SetStep, SetPieces(m), BASE_SET, p);
  }

  lemma CutAuthorityFails(m: SigningAuthority, p: seq<Byte>)
    requires EncodableAuthority(m) && p <= EncodeAuthority(m)
    ensures if p == [] || p == EncodeAuthority(m) then DecodeAuthority(p).Done? else DecodeAuthority(p) == Failed(PrematureEnd)
  {
    hide Loop, AllNeeded, AuthorityStep, EncodableAuthority, BytesField, EncodeConfig;
    AuthorityNeeded(m);
    CutsExactly(AuthorityStep, AuthorityPieces(m), BASE_AUTHORITY, p);
    var pieces := AuthorityPieces(m);
    assert pieces[..0] == [] && pieces[..|pieces|] == pieces;
  }
}
