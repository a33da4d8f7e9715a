/** The multisig messages and their generated codecs, as functions on buffers. */
module MultisigProto {
  import opened BigEndian
  import opened Outcomes
  import opened ProtoWire

  datatype MultisigConfig = MultisigConfig(version: nat, threshold: nat, publicKeys: seq<seq<Byte>>)

  datatype KeyedSignature = KeyedSignature(publicKey: seq<Byte>, signature: seq<Byte>)

  datatype MultisigSignatureSet = MultisigSignatureSet(multisigConfig: Option<MultisigConfig>, signatures: seq<KeyedSignature>)

  datatype Authority = OfPublicKey(publicKey: seq<Byte>) | OfMultisig(multisig: MultisigConfig)

  datatype SigningAuthority = SigningAuthority(authority: Option<Authority>)

  const BASE_CONFIG: MultisigConfig := MultisigConfig(0, 0, [])
  const BASE_SIGNATURE: KeyedSignature := KeyedSignature([], [])
  const BASE_SET: MultisigSignatureSet := MultisigSignatureSet(None, [])
  const BASE_AUTHORITY: SigningAuthority := SigningAuthority(None)

  // Tags: the field number times eight, plus the wire type.
  const NUMBER_1: nat := 8
  const NUMBER_2: nat := 16
  const DELIMITED_1: nat := 10
  const DELIMITED_2: nat := 18
  const DELIMITED_3: nat := 26

  // ----- encoding

  function NumberField(tag: nat, v: nat): seq<Byte> { EncodeVarint(tag) + EncodeVarint(v) }

  function BytesField(tag: nat, bytes: seq<Byte>): seq<Byte> { EncodeVarint(tag) + EncodeBytes(bytes) }

  function NumberPieces(tag: nat, v: nat): seq<seq<Byte>> { if v != 0 then [NumberField(tag, v)] else [] }

  function BytesPieces(tag: nat, bytes: seq<Byte>): seq<seq<Byte>> { if |bytes| != 0 then [BytesField(tag, bytes)] else [] }

  function RepeatedPieces(tag: nat, items: seq<seq<Byte>>): seq<seq<Byte>>
  {
    if items == [] then [] else RepeatedPieces(tag, items[..|items| - 1]) + [BytesField(tag, items[|items| - 1])]
  }

  function ConfigPieces(m: MultisigConfig): seq<seq<Byte>>
  {
    NumberPieces(NUMBER_1, m.version) + NumberPieces(NUMBER_2, m.threshold) + RepeatedPieces(DELIMITED_3, m.publicKeys)
  }

  function EncodeConfig(m: MultisigConfig): seq<Byte> { Concat(ConfigPieces(m)) }

  function SignaturePieces(m: KeyedSignature): seq<seq<Byte>>
  {
    BytesPieces(DELIMITED_1, m.publicKey) + BytesPieces(DELIMITED_2, m.signature)
  }

  function EncodeSignature(m: KeyedSignature): seq<Byte> { Concat(SignaturePieces(m)) }

  function EncodedSignatures(ms: seq<KeyedSignature>): (r: seq<seq<Byte>>)
    ensures |r| == |ms| && forall i :: 0 <= i < |r| ==> r[i] == EncodeSignature(ms[i])
  {
    seq(|ms|, i requires 0 <= i < |ms| => EncodeSignature(ms[i]))
  }

  function SetPieces(m: MultisigSignatureSet): seq<seq<Byte>>
  {
    (match m.multisigConfig case None => [] case Some(c) => [BytesField(DELIMITED_1, EncodeConfig(c))])
    + RepeatedPieces(DELIMITED_2, EncodedSignatures(m.signatures))
  }

  function EncodeSet(m: MultisigSignatureSet): seq<Byte> { Concat(SetPieces(m)) }

  function AuthorityPieces(m: SigningAuthority): seq<seq<Byte>>
  {
    match m.authority
    case None => []
    case Some(OfPublicKey(key)) => [BytesField(DELIMITED_1, key)]
    case Some(OfMultisig(c)) => [BytesField(DELIMITED_2, EncodeConfig(c))]
  }

  function EncodeAuthority(m: SigningAuthority): seq<Byte> { Concat(AuthorityPieces(m)) }

  // ----- what the wire can carry

  predicate Short(bytes: seq<Byte>) { |bytes| < UINT32_LIMIT }

  predicate EncodableConfig(m: MultisigConfig)
  {
    m.version < UINT32_LIMIT && m.threshold < UINT32_LIMIT && forall k :: k in m.publicKeys ==> Short(k)
  }

  predicate EncodableSignature(m: KeyedSignature) { Short(m.publicKey) && Short(m.signature) }

  predicate NestedConfig(m: MultisigConfig) { EncodableConfig(m) && Short(EncodeConfig(m)) }

  predicate EncodableSet(m: MultisigSignatureSet)
  {
    && (m.multisigConfig.Some? ==> NestedConfig(m.multisigConfig.value))
    && forall s :: s in m.signatures ==> EncodableSignature(s) && Short(EncodeSignature(s))
  }

  predicate EncodableAuthority(m: SigningAuthority)
  {
    match m.authority
    case None => true
    case Some(OfPublicKey(key)) => Short(key)
    case Some(OfMultisig(c)) => NestedConfig(c)
  }

  // ----- decoding

  function Apply<T, M>(o: Outcome<T>, f: T -> M): Handled<M>
  {
    match o
    case Done(v, rest) => Took(f(v), rest)
    case Failed(e) => Broke(e)
  }

  /** A submessage: its length, then the loop up to there. */
  function Nested<M>(step: Step<M>, base: M, buf: seq<Byte>): Outcome<M>
  {
    match ReadUInt32(buf)
    case Done(length, rest) => Loop(step, base, rest, |rest| - length)
    case Failed(e) => Failed(e)
  }

  function ConfigStep(m: MultisigConfig, tag: nat, buf: seq<Byte>): Handled<MultisigConfig>
  {
    if tag == NUMBER_1 then Apply(ReadUInt32(buf), v => m.(version := v))
    else if tag == NUMBER_2 then Apply(ReadUInt32(buf), v => m.(threshold := v))
    else if tag == DELIMITED_3 then Apply(ReadBytes(buf), key => m.(publicKeys := m.publicKeys + [key]))
    else NotMine
  }

  function SignatureStep(m: KeyedSignature, tag: nat, buf: seq<Byte>): Handled<KeyedSignature>
  {
    if tag == DELIMITED_1 then Apply(ReadBytes(buf), key => m.(publicKey := key))
    else if tag == DELIMITED_2 then Apply(ReadBytes(buf), signature => m.(signature := signature))
    else NotMine
  }

  function SetStep(m: MultisigSignatureSet, tag: nat, buf: seq<Byte>): Handled<MultisigSignatureSet>
  {
    if tag == DELIMITED_1 then Apply(Nested(ConfigStep, BASE_CONFIG, buf), c => m.(multisigConfig := Some(c)))
    else if tag == DELIMITED_2 then Apply(Nested(SignatureStep, BASE_SIGNATURE, buf), s => m.(signatures := m.signatures + [s]))
    else NotMine
  }

  function AuthorityStep(m: SigningAuthority, tag: nat, buf: seq<Byte>): Handled<SigningAuthority>
  {
    if tag == DELIMITED_1 then Apply(ReadBytes(buf), key => SigningAuthority(Some(OfPublicKey(key))))
    else if tag == DELIMITED_2 then Apply(Nested(ConfigStep, BASE_CONFIG, buf), c => SigningAuthority(Some(OfMultisig(c))))
    else NotMine
  }

  function DecodeConfig(buf: seq<Byte>): Outcome<MultisigConfig> { Loop(ConfigStep, BASE_CONFIG, buf, 0) }
  function DecodeSignature(buf: seq<Byte>): Outcome<KeyedSignature> { Loop(SignatureStep, BASE_SIGNATURE, buf, 0) }
  function DecodeSet(buf: seq<Byte>): Outcome<MultisigSignatureSet> { Loop(SetStep, BASE_SET, buf, 0) }
  function DecodeAuthority(buf: seq<Byte>): Outcome<SigningAuthority> { Loop(AuthorityStep, BASE_AUTHORITY, buf, 0) }

  // ----- each field's piece is read back

  lemma TakesPiece<M(!new)>(step: Step<M>, tag: nat, value: seq<Byte>, m: M, m': M)
    requires tag < UINT32_LIMIT && forall suffix :: step(m, tag, value + suffix) == Took(m', suffix)
    ensures Consumes(step, EncodeVarint(tag) + value, m, m')
  {
    forall suffix, stop ensures Resumes(step, EncodeVarint(tag) + value, m, m', suffix, stop) {
      if |suffix| >= stop {
        assert step(m, tag, value + suffix) == Took(m', suffix);
        LoopTakes(step, m, tag, value, suffix, stop, m');
      }
    }
  }

  lemma VersionIsRead(m: MultisigConfig, v: nat)
    requires v < UINT32_LIMIT
    ensures Consumes(ConfigStep, NumberField(NUMBER_1, v), m, m.(version := v))
  {
    forall suffix ensures ConfigStep(m, NUMBER_1, EncodeVarint(v) + suffix) == Took(m.(version := v), suffix) {
      UInt32RoundTrip(v, suffix);
    }
    TakesPiece(ConfigStep, NUMBER_1, EncodeVarint(v), m, m.(version := v));
  }

  lemma ThresholdIsRead(m: MultisigConfig, v: nat)
    requires v < UINT32_LIMIT
    ensures Consumes(ConfigStep, NumberField(NUMBER_2, v), m, m.(threshold := v))
  {
    forall suffix ensures ConfigStep(m, NUMBER_2, EncodeVarint(v) + suffix) == Took(m.(threshold := v), suffix) {
      UInt32RoundTrip(v, suffix);
    }
    TakesPiece(ConfigStep, NUMBER_2, EncodeVarint(v), m, m.(threshold := v));
  }

  lemma KeyIsRead(m: MultisigConfig, key: seq<Byte>)
    requires Short(key)
    ensures Consumes(ConfigStep, BytesField(DELIMITED_3, key), m, m.(publicKeys := m.publicKeys + [key]))
  {
    var m' := m.(publicKeys := m.publicKeys + [key]);
    forall suffix ensures ConfigStep(m, DELIMITED_3, EncodeBytes(key) + suffix) == Took(m', suffix) {
      ProtoWire.BytesRoundTrip(key, suffix);
    }
    TakesPiece(ConfigStep, DELIMITED_3, EncodeBytes(key), m, m');
  }

  lemma {:induction false} KeysAreRead(m: MultisigConfig, keys: seq<seq<Byte>>)
    requires m.publicKeys == [] && forall k :: k in keys ==> Short(k)
    ensures Reaches(ConfigStep, RepeatedPieces(DELIMITED_3, keys), m, m.(publicKeys := keys))
    decreases keys
  {
    if keys != [] {
      var front, last := keys[..|keys| - 1], keys[|keys| - 1];
      KeysAreRead(m, front);
      var mid := m.(publicKeys := front);
      KeyIsRead(mid, last);
      assert keys == front + [last];
      ReachesOne(ConfigStep, BytesField(DELIMITED_3, last), mid, m.(publicKeys := keys));
      ReachesConcat(ConfigStep, RepeatedPieces(DELIMITED_3, front), [BytesField(DELIMITED_3, last)], m, mid, m.(publicKeys := keys));
    }
  }

  lemma ConfigIsReached(m: MultisigConfig)
    requires EncodableConfig(m)
    ensures Reaches(ConfigStep, ConfigPieces(m), BASE_CONFIG, m)
  {
    var first, second := BASE_CONFIG.(version := m.version), MultisigConfig(m.version, m.threshold, []);
    if m.version != 0 {
      VersionIsRead(BASE_CONFIG, m.version);
      ReachesOne(ConfigStep, NumberField(NUMBER_1, m.version), BASE_CONFIG, first);
    }
    if m.threshold != 0 {
      ThresholdIsRead(first, m.threshold);
      ReachesOne(ConfigStep, NumberField(NUMBER_2, m.threshold), first, second);
    }
    KeysAreRead(second, m.publicKeys);
    hide NumberField, RepeatedPieces;
    var a, b := NumberPieces(NUMBER_1, m.version), NumberPieces(NUMBER_2, m.threshold);
    ReachesConcat(ConfigStep, a, b, BASE_CONFIG, first, second);
    ReachesConcat(ConfigStep, a + b, RepeatedPieces(DELIMITED_3, m.publicKeys), BASE_CONFIG, second, m);
  }

  lemma SignatureIsReached(m: KeyedSignature)
    requires EncodableSignature(m)
    ensures Reaches(SignatureStep, SignaturePieces(m), BASE_SIGNATURE, m)
  {
    var first := KeyedSignature(m.publicKey, []);
    if |m.publicKey| != 0 {
      forall suffix ensures SignatureStep(BASE_SIGNATURE, DELIMITED_1, EncodeBytes(m.publicKey) + suffix) == Took(first, suffix) {
        ProtoWire.BytesRoundTrip(m.publicKey, suffix);
      }
      TakesPiece(SignatureStep, DELIMITED_1, EncodeBytes(m.publicKey), BASE_SIGNATURE, first);
      ReachesOne(SignatureStep, BytesField(DELIMITED_1, m.publicKey), BASE_SIGNATURE, first);
    }
    if |m.signature| != 0 {
      forall suffix ensures SignatureStep(first, DELIMITED_2, EncodeBytes(m.signature) + suffix) == Took(m, suffix) {
        ProtoWire.BytesRoundTrip(m.signature, suffix);
      }
      TakesPiece(SignatureStep, DELIMITED_2, EncodeBytes(m.signature), first, m);
      ReachesOne(SignatureStep, BytesField(DELIMITED_2, m.signature), first, m);
    }
    ReachesConcat(SignatureStep, BytesPieces(DELIMITED_1, m.publicKey), BytesPieces(DELIMITED_2, m.signature), BASE_SIGNATURE, first, m);
  }

  /** A submessage, with whatever unknown fields lie between its own, is read within its own length and
      leaves what follows it alone. */
  lemma NestedIsRead<M(!new)>(step: Step<M>, segments: seq<Segment>, base: M, m: M, suffix: seq<Byte>)
    requires ExtrasIgnored(step, segments) && Reaches(step, OwnPieces(segments), base, m) && Short(Buffer(segments))
    ensures Nested(step, base, EncodeBytes(Buffer(segments)) + suffix) == Done(m, suffix)
  {
    hide Loop, Reaches, EncodeVarint, ReadUInt32, Buffer, OwnPieces;
    var bytes := Buffer(segments);
    LoopReads(step, segments, base, m, suffix);
    UInt32RoundTrip(|bytes|, bytes + suffix);
    assert EncodeBytes(bytes) + suffix == EncodeVarint(|bytes|) + (bytes + suffix);
  }

  /** The extra fields all carry numbers above the message's own. */
  ghost predicate ExtrasAbove(segments: seq<Segment>, number: nat)
  {
    forall i :: 0 <= i < |segments| && segments[i].Extra? ==> WellFormed(segments[i].field) && segments[i].field.number > number
  }

  /** These segments are the configuration's own fields in order, with unknown fields anywhere between. */
  ghost predicate SpellsConfig(segments: seq<Segment>, c: MultisigConfig)
  {
    EncodableConfig(c) && OwnPieces(segments) == ConfigPieces(c) && ExtrasAbove(segments, 3)
  }

  ghost predicate SpellsSignature(segments: seq<Segment>, m: KeyedSignature)
  {
    EncodableSignature(m) && OwnPieces(segments) == SignaturePieces(m) && ExtrasAbove(segments, 2)
  }

  lemma UnknownNumbers()
    ensures forall number :: number > 3 ==> Ignores(ConfigStep, number)
    ensures forall number :: number > 2 ==> Ignores(SignatureStep, number) && Ignores(SetStep, number) && Ignores(AuthorityStep, number)
  {
  }

  lemma NestedConfigIsRead(c: MultisigConfig, segments: seq<Segment>, suffix: seq<Byte>)
    requires SpellsConfig(segments, c) && Short(Buffer(segments))
    ensures Nested(ConfigStep, BASE_CONFIG, EncodeBytes(Buffer(segments)) + suffix) == Done(c, suffix)
  {
    hide Nested, ConfigPieces, ConfigStep, Reaches, Buffer, OwnPieces, EncodableConfig;
    ConfigIsReached(c);
    UnknownNumbers();
    NestedIsRead(ConfigStep, segments, BASE_CONFIG, c, suffix);
  }

  lemma NestedSignatureIsRead(m: KeyedSignature, segments: seq<Segment>, suffix: seq<Byte>)
    requires SpellsSignature(segments, m) && Short(Buffer(segments))
    ensures Nested(SignatureStep, BASE_SIGNATURE, EncodeBytes(Buffer(segments)) + suffix) == Done(m, suffix)
  {
    hide Nested, SignaturePieces, SignatureStep, Reaches, Buffer, OwnPieces, EncodableSignature;
    SignatureIsReached(m);
    UnknownNumbers();
    NestedIsRead(SignatureStep, segments, BASE_SIGNATURE, m, suffix);
  }

  // ----- signature sets

  /** How the submessages of a set are spelled, each with its own unknown fields. */
  datatype SetLayout = SetLayout(config: Option<seq<Segment>>, signatures: seq<seq<Segment>>)

  function Buffers(all: seq<seq<Segment>>): (r: seq<seq<Byte>>)
    ensures |r| == |all| && forall i :: 0 <= i < |r| ==> r[i] == Buffer(all[i])
  {
    seq(|all|, i requires 0 <= i < |all| => Buffer(all[i]))
  }

  function ConfigField(config: Option<seq<Segment>>): seq<seq<Byte>>
  {
    match config case None => [] case Some(segments) => [BytesField(DELIMITED_1, Buffer(segments))]
  }

  function LayoutPieces(layout: SetLayout): seq<seq<Byte>>
  {
    ConfigField(layout.config) + RepeatedPieces(DELIMITED_2, Buffers(layout.signatures))
  }

  ghost predicate SpellsSignatures(all: seq<seq<Segment>>, ss: seq<KeyedSignature>)
  {
    |all| == |ss| && forall i :: 0 <= i < |ss| ==> SpellsSignature(all[i], ss[i]) && Short(Buffer(all[i]))
  }

  ghost predicate LaysOut(layout: SetLayout, m: MultisigSignatureSet)
  {
    && layout.config.Some? == m.multisigConfig.Some?
    && (layout.config.Some? ==> SpellsConfig(layout.config.value, m.multisigConfig.value) && Short(Buffer(layout.config.value)))
    && SpellsSignatures(layout.signatures, m.signatures)
  }

  lemma SetConfigIsRead(c: MultisigConfig, segments: seq<Segment>)
    requires SpellsConfig(segments, c) && Short(Buffer(segments))
    ensures Reaches(SetStep, [BytesField(DELIMITED_1, Buffer(segments))], BASE_SET, MultisigSignatureSet(Some(c), []))
  {
    var m, value := MultisigSignatureSet(Some(c), []), EncodeBytes(Buffer(segments));
    forall suffix ensures SetStep(BASE_SET, DELIMITED_1, value + suffix) == Took(m, suffix) {
      NestedConfigIsRead(c, segments, suffix);
    }
    TakesPiece(SetStep, DELIMITED_1, value, BASE_SET, m);
    ReachesOne(SetStep, BytesField(DELIMITED_1, Buffer(segments)), BASE_SET, m);
  }

  lemma SetSignatureIsRead(m: MultisigSignatureSet, s: KeyedSignature, segments: seq<Segment>)
    requires SpellsSignature(segments, s) && Short(Buffer(segments))
    ensures Reaches(SetStep, [BytesField(DELIMITED_2, Buffer(segments))], m, m.(signatures := m.signatures + [s]))
  {
    var m', value := m.(signatures := m.signatures + [s]), EncodeBytes(Buffer(segments));
    forall suffix ensures SetStep(m, DELIMITED_2, value + suffix) == Took(m', suffix) {
      NestedSignatureIsRead(s, segments, suffix);
    }
    TakesPiece(SetStep, DELIMITED_2, value, m, m');
    ReachesOne(SetStep, BytesField(DELIMITED_2, Buffer(segments)), m, m');
  }

  lemma {:induction false} SetSignaturesAreRead(m: MultisigSignatureSet, ss: seq<KeyedSignature>, all: seq<seq<Segment>>)
    requires m.signatures == [] && SpellsSignatures(all, ss)
    ensures Reaches(SetStep, RepeatedPieces(DELIMITED_2, Buffers(all)), m, m.(signatures := ss))
    decreases ss
  {
    hide Reaches, SetStep, SpellsSignature, Buffer, BytesField;
    if ss != [] {
      var n := |ss| - 1;
      var mid, pieces := m.(signatures := ss[..n]), Buffers(all);
      SetSignaturesAreRead(m, ss[..n], all[..n]);
      SetSignatureIsRead(mid, ss[n], all[n]);
      assert ss == ss[..n] + [ss[n]];
      assert pieces[..n] == Buffers(all[..n]);
      ReachesConcat(SetStep, RepeatedPieces(DELIMITED_2, Buffers(all[..n])), [BytesField(DELIMITED_2, Buffer(all[n]))],
        m, mid, m.(signatures := ss));
    } else {
      NothingReaches(SetStep, m);
      assert Buffers(all) == [];
    }
  }

  lemma NothingReaches<M(!new)>(step: Step<M>, m: M)
    ensures Reaches(step, [], m, m)
  {
  }

  lemma SetIsReached(m: MultisigSignatureSet, layout: SetLayout)
    requires LaysOut(layout, m)
    ensures Reaches(SetStep, LayoutPieces(layout), BASE_SET, m)
  {
    hide Reaches, SetStep, SpellsConfig, SpellsSignatures, RepeatedPieces;
    var first := MultisigSignatureSet(m.multisigConfig, []);
    if m.multisigConfig.Some? {
      SetConfigIsRead(m.multisigConfig.value, layout.config.value);
    } else {
      NothingReaches(SetStep, BASE_SET);
    }
    SetSignaturesAreRead(first, m.signatures, layout.signatures);
    ReachesConcat(SetStep, ConfigField(layout.config), RepeatedPieces(DELIMITED_2, Buffers(layout.signatures)), BASE_SET, first, m);
  }

  // ----- signing authorities

  function AuthorityField(m: SigningAuthority, segments: seq<Segment>): seq<seq<Byte>>
  {
    match m.authority
    case None => []
    case Some(OfPublicKey(key)) => [BytesField(DELIMITED_1, key)]
    case Some(OfMultisig(_)) => [BytesField(DELIMITED_2, Buffer(segments))]
  }

  /** Segments, where the authority is a configuration, that spell it. */
  ghost predicate SpellsAuthority(segments: seq<Segment>, m: SigningAuthority)
  {
    match m.authority
    case None => true
    case Some(OfPublicKey(key)) => Short(key)
    case Some(OfMultisig(c)) => SpellsConfig(segments, c) && Short(Buffer(segments))
  }

  lemma AuthorityIsReached(m: SigningAuthority, segments: seq<Segment>)
    requires SpellsAuthority(segments, m)
    ensures Reaches(AuthorityStep, AuthorityField(m, segments), BASE_AUTHORITY, m)
  {
    match m.authority
    case None =>
    case Some(OfPublicKey(key)) =>
      forall suffix ensures AuthorityStep(BASE_AUTHORITY, DELIMITED_1, EncodeBytes(key) + suffix) == Took(m, suffix) {
        ProtoWire.BytesRoundTrip(key, suffix);
      }
      TakesPiece(AuthorityStep, DELIMITED_1, EncodeBytes(key), BASE_AUTHORITY, m);
      ReachesOne(AuthorityStep, BytesField(DELIMITED_1, key), BASE_AUTHORITY, m);
    case Some(OfMultisig(c)) =>
      var value := EncodeBytes(Buffer(segments));
      forall suffix ensures AuthorityStep(BASE_AUTHORITY, DELIMITED_2, value + suffix) == Took(m, suffix) {
        NestedConfigIsRead(c, segments, suffix);
      }
      TakesPiece(AuthorityStep, DELIMITED_2, value, BASE_AUTHORITY, m);
      ReachesOne(AuthorityStep, BytesField(DELIMITED_2, Buffer(segments)), BASE_AUTHORITY, m);
  }

  // ----- what `encode` itself writes, without extras

  lemma PlainConfig(c: MultisigConfig)
    requires EncodableConfig(c)
    ensures SpellsConfig(OwnOnly(ConfigPieces(c)), c) && Buffer(OwnOnly(ConfigPieces(c))) == EncodeConfig(c)
  {
    OwnOnlyIsConcat(ConfigPieces(c));
  }

  lemma PlainSignature(m: KeyedSignature)
    requires EncodableSignature(m)
    ensures SpellsSignature(OwnOnly(SignaturePieces(m)), m) && Buffer(OwnOnly(SignaturePieces(m))) == EncodeSignature(m)
  {
    OwnOnlyIsConcat(SignaturePieces(m));
  }

  function PlainLayout(m: MultisigSignatureSet): SetLayout
  {
    SetLayout(
      match m.multisigConfig case None => None case Some(c) => Some(OwnOnly(ConfigPieces(c))),
      seq(|m.signatures|, i requires 0 <= i < |m.signatures| => OwnOnly(SignaturePieces(m.signatures[i]))))
  }

  lemma PlainSet(m: MultisigSignatureSet)
    requires EncodableSet(m)
    ensures LaysOut(PlainLayout(m), m) && LayoutPieces(PlainLayout(m)) == SetPieces(m)
  {
    hide EncodableConfig, EncodableSignature, ConfigPieces, SignaturePieces, SpellsConfig, SpellsSignature, EncodeConfig, EncodeSignature, Buffer, OwnOnly, Short;
    var layout := PlainLayout(m);
    if m.multisigConfig.Some? {
      PlainConfig(m.multisigConfig.value);
    }
    forall i | 0 <= i < |m.signatures|
      ensures SpellsSignature(layout.signatures[i], m.signatures[i]) && Buffer(layout.signatures[i]) == EncodeSignature(m.signatures[i])
      ensures Short(Buffer(layout.signatures[i]))
    {
      assert m.signatures[i] in m.signatures;
      PlainSignature(m.signatures[i]);
    }
    assert Buffers(layout.signatures) == EncodedSignatures(m.signatures);
  }

  // ----- the promises

  /** Encoding and decoding again returns the message, with any fields of unknown numbers in between. */
  lemma ConfigRoundTrip(m: MultisigConfig, segments: seq<Segment>)
    requires SpellsConfig(segments, m)
    ensures DecodeConfig(Buffer(segments)) == Done(m, []) && DecodeConfig(EncodeConfig(m)) == Done(m, [])
  {
    hide Loop, Reaches, ConfigPieces, ConfigStep;
    ConfigIsReached(m);
    UnknownNumbers();
    ReadsWithAndWithout(ConfigStep, segments, ConfigPieces(m), BASE_CONFIG, m);
  }

  lemma ReadsWithAndWithout<M(!new)>(step: Step<M>, segments: seq<Segment>, pieces: seq<seq<Byte>>, base: M, m: M)
    requires ExtrasIgnored(step, segments) && OwnPieces(segments) == pieces && Reaches(step, pieces, base, m)
    ensures Loop(step, base, Buffer(segments), 0) == Done(m, []) && Loop(step, base, Concat(pieces), 0) == Done(m, [])
  {
    hide Loop, Reaches;
    LoopReads(step, segments, base, m, []);
    OwnOnlyIsConcat(pieces);
    LoopReads(step, OwnOnly(pieces), base, m, []);
    assert Buffer(segments) + [] == Buffer(segments) && Concat(pieces) + [] == Concat(pieces);
  }

  lemma SignatureRoundTrip(m: KeyedSignature, segments: seq<Segment>)
    requires SpellsSignature(segments, m)
    ensures DecodeSignature(Buffer(segments)) == Done(m, []) && DecodeSignature(EncodeSignature(m)) == Done(m, [])
  {
    hide Loop, Reaches, SignaturePieces, SignatureStep;
    SignatureIsReached(m);
    UnknownNumbers();
    ReadsWithAndWithout(SignatureStep, segments, SignaturePieces(m), BASE_SIGNATURE, m);
  }

  /** A set is read back with unknown fields between its own and inside each of its submessages. An absent
      configuration and a default one stay different; so do the signatures' order and number. */
  lemma SetRoundTrip(m: MultisigSignatureSet, layout: SetLayout, segments: seq<Segment>)
    requires LaysOut(layout, m) && OwnPieces(segments) == LayoutPieces(layout) && ExtrasAbove(segments, 2)
    ensures DecodeSet(Buffer(segments)) == Done(m, [])
  {
    hide Loop, Reaches, LayoutPieces, SetStep, LaysOut;
    SetIsReached(m, layout);
    UnknownNumbers();
    ReadsWithAndWithout(SetStep, segments, LayoutPieces(layout), BASE_SET, m);
  }

  lemma EncodedSetRoundTrip(m: MultisigSignatureSet)
    requires EncodableSet(m)
    ensures DecodeSet(EncodeSet(m)) == Done(m, [])
  {
    hide Loop, LaysOut, EncodableSet, DecodeSet, SetPieces, LayoutPieces;
    PlainSet(m);
    OwnOnlyIsConcat(SetPieces(m));
    SetRoundTrip(m, PlainLayout(m), OwnOnly(SetPieces(m)));
  }

  /** Both arms of the choice, and no choice at all, with unknown fields around and inside the chosen one. */
  lemma AuthorityRoundTrip(m: SigningAuthority, inner: seq<Segment>, segments: seq<Segment>)
    requires SpellsAuthority(inner, m) && OwnPieces(segments) == AuthorityField(m, inner) && ExtrasAbove(segments, 2)
    ensures DecodeAuthority(Buffer(segments)) == Done(m, [])
  {
    hide Loop, Reaches, AuthorityField, AuthorityStep, SpellsAuthority;
    AuthorityIsReached(m, inner);
    UnknownNumbers();
    ReadsWithAndWithout(AuthorityStep, segments, AuthorityField(m, inner), BASE_AUTHORITY, m);
  }

  lemma EncodedAuthorityRoundTrip(m: SigningAuthority)
    requires EncodableAuthority(m)
    ensures DecodeAuthority(EncodeAuthority(m)) == Done(m, [])
  {
    hide Loop, DecodeAuthority;
    var inner := match m.authority case Some(OfMultisig(c)) => OwnOnly(ConfigPieces(c)) case _ => [];
    match m.authority {
      case Some(OfMultisig(c)) => PlainConfig(c);
      case _ =>
    }
    OwnOnlyIsConcat(AuthorityPieces(m));
    AuthorityRoundTrip(m, inner, OwnOnly(AuthorityPieces(m)));
  }

  /** No field of these messages gives back more buffer than it was given, so decoding always ends. */
  lemma StepsShrink()
    ensures Shrinks(ConfigStep) && Shrinks(SignatureStep) && Shrinks(SetStep) && Shrinks(AuthorityStep)
  {
    hide Loop, ReadUInt32, ReadBytes;
  }
}
