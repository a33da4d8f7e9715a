/** The bytes that cross the boundary, spelled out: integers, lengths, option tags and the fourteen records
    field by field, and what a reader makes of any bytes at all. */
module FfiBytes {
  import opened BigEndian
  import opened FfiFormat
  import opened FfiRoundTrip
  import ModArith
  import opened Outcomes

  // ----- integers

  /** 256 to the power e. */
  function Power(e: nat): (r: nat)
    ensures r > 0
  {
    if e == 0 then 1 else 256 * Power(e - 1)
  }

  lemma {:induction false} DivideOnce(n: nat, e: nat)
    ensures (n / 256) / Power(e) == n / Power(e + 1)
  {
    var p := Power(e);
    var a := n / 256;
    assert n == 256 * a + n % 256 && a == p * (a / p) + a % p;
    assert n == (256 * p) * (a / p) + (256 * (a % p) + n % 256) by {
      assert (256 * p) * (a / p) == 256 * (p * (a / p));
    }
    assert 256 * (a % p) + n % 256 < 256 * p;
    ModArith.DivModUnique(256 * p, a / p, 256 * (a % p) + n % 256, n);
  }

  /** A k-byte integer is written most significant byte first. */
  lemma {:induction false} IntegerBytes(n: nat, k: nat, i: nat)
    requires i < k
    ensures |IntBytes(n, k)| == k && IntBytes(n, k)[i] == (n / Power(k - 1 - i)) % 256
  {
    if i < k - 1 {
      IntegerBytes(n / 256, k - 1, i);
      DivideOnce(n, k - 2 - i);
    } else {
      assert Power(0) == 1;
    }
  }

  /** The four bytes of an Int32 or UInt32. */
  function Word(n: nat): seq<Byte> { [n / 0x100_0000 % 256, n / 0x1_0000 % 256, n / 0x100 % 256, n % 256] }

  lemma WordBytes(n: nat, k: nat)
    requires k == 4
    ensures IntBytes(n, k) == Word(n)
  {
    assert Power(1) == 256 && Power(2) == 0x1_0000 && Power(3) == 0x100_0000;
    forall i: nat | i < k ensures IntBytes(n, k)[i] == Word(n)[i] {
      IntegerBytes(n, k, i);
    }
  }

  lemma OneByte(n: nat, k: nat)
    requires n < 256 && k == 1
    ensures IntBytes(n, k) == [n]
  {
    assert IntBytes(n / 256, k - 1) == [];
  }

  lemma TwoBytes(n: nat, k: nat)
    requires k == 2
    ensures IntBytes(n, k) == [n / 256 % 256, n % 256]
  {
    assert Power(1) == 256 && Power(0) == 1;
    IntegerBytes(n, k, 0);
    IntegerBytes(n, k, 1);
  }

  // ----- values

  predicate Small(bytes: seq<Byte>) { |bytes| < 0x8000_0000 }

  /** Four bytes of length, then the bytes. */
  function Block(bytes: seq<Byte>): seq<Byte> { Word(|bytes|) + bytes }

  function Joined(pieces: seq<seq<Byte>>): seq<Byte>
  {
    if pieces == [] then [] else pieces[0] + Joined(pieces[1..])
  }

  lemma NumberBytes(n: nat)
    ensures n < 0x1_0000 ==> Encodable(UInt16, Number(n)) && Encode(UInt16, Number(n)) == [n / 256, n % 256]
    ensures n < 0x1_0000_0000 ==> Encodable(UInt32, Number(n)) && Encode(UInt32, Number(n)) == Word(n)
    ensures Encodable(UInt64, Number(n)) ==>
      |Encode(UInt64, Number(n))| == 8 && forall i: nat :: i < 8 ==> Encode(UInt64, Number(n))[i] == (n / Power(7 - i)) % 256
  {
    var two, four, eight := 2, 4, 8;
    assert Capacity(two) == 0x1_0000 by { assert Capacity(two - 1) == 256; }
    assert Capacity(four) == 0x1_0000_0000 by { assert Capacity(four - 1) == 0x100_0000 by { assert Capacity(four - 2) == 0x1_0000; } }
    TwoBytes(n, two);
    WordBytes(n, four);
    forall i: nat | i < eight ensures IntBytes(n, eight)[i] == (n / Power(eight - 1 - i)) % 256 {
      IntegerBytes(n, eight, i);
    }
    hide IntBytes, Capacity, Power;
  }

  lemma BlockBytes(bytes: seq<Byte>)
    requires Small(bytes)
    ensures Encodable(Data, Bytes(bytes)) && Encode(Data, Bytes(bytes)) == Block(bytes)
    ensures Encodable(Str, Bytes(bytes)) && Encode(Str, Bytes(bytes)) == Block(bytes)
    ensures EncodeBlock(bytes) == Block(bytes)
  {
    WordBytes(|bytes|, LENGTH_WIDTH);
    hide IntBytes, Word;
  }

  /** An absent option is the byte 0; a present one is the byte 1 and then its value. */
  lemma OptionBytes(t: Schema, v: Value)
    ensures Encodable(OptionOf(t), Absent) && Encode(OptionOf(t), Absent) == [0]
    ensures Encodable(t, v) ==> Encodable(OptionOf(t), Present(v)) && Encode(OptionOf(t), Present(v)) == [1] + Encode(t, v)
  {
    OneByte(ABSENT_TAG, TAG_WIDTH);
    OneByte(PRESENT_TAG, TAG_WIDTH);
    if Encodable(t, v) {
      EncodeOption(t, v);
      hide IntBytes;
    }
  }

  function Pieces(t: Schema, vs: seq<Value>): (r: seq<seq<Byte>>)
    requires forall i :: 0 <= i < |vs| ==> Encodable(t, vs[i])
    ensures |r| == |vs| && forall i :: 0 <= i < |r| ==> r[i] == Encode(t, vs[i])
  {
    seq(|vs|, i requires 0 <= i < |vs| => Encode(t, vs[i]))
  }

  lemma {:induction false} ItemBytes(t: Schema, vs: seq<Value>)
    requires forall i :: 0 <= i < |vs| ==> Encodable(t, vs[i])
    ensures EncodeItems(t, vs) == Joined(Pieces(t, vs))
    decreases vs
  {
    hide Encode, Encodable;
    if vs != [] {
      ItemBytes(t, vs[1..]);
      assert Pieces(t, vs)[1..] == Pieces(t, vs[1..]);
    }
  }

  /** A sequence is its length and then its items in order. */
  lemma SequenceBytes(t: Schema, vs: seq<Value>)
    requires |vs| < 0x8000_0000 && forall i :: 0 <= i < |vs| ==> Encodable(t, vs[i])
    ensures Encodable(SequenceOf(t), Items(vs)) && Encode(SequenceOf(t), Items(vs)) == Word(|vs|) + Joined(Pieces(t, vs))
  {
    EncodeSequence(t, vs);
    WordBytes(|vs|, LENGTH_WIDTH);
    ItemBytes(t, vs);
    hide IntBytes, Word, Pieces, Joined, EncodeItems;
  }

  // ----- reading any bytes

  function WordOf(a: int, b: int, c: int, d: int): int { 0x100_0000 * a + 0x1_0000 * b + 0x100 * c + d }

  /** What a length-prefixed block comes to, for any buffer: too short for its length or for its bytes, or
      negative in length, or read. */
  lemma BlockReads(buf: seq<Byte>)
    ensures |buf| < 4 ==> Decode(Data, buf) == Thrown(BufferOverflow)
    ensures |buf| >= 4 && buf[0] >= 128 ==> Decode(Data, buf) == Crashed
    ensures |buf| >= 4 && buf[0] < 128 ==>
      var n := WordOf(buf[0], buf[1], buf[2], buf[3]);
      Decode(Data, buf) == if |buf| - 4 < n then Thrown(BufferOverflow) else Done(Bytes(buf[4..][..n]), buf[4..][n..])
    ensures Decode(Str, buf) == Decode(Data, buf)
  {
    if |buf| >= 4 {
      WordReads(buf, LENGTH_WIDTH);
      hide FromBytes;
    }
  }

  lemma WordReads(buf: seq<Byte>, k: nat)
    requires k == 4 && |buf| >= 4
    ensures FromBytes(buf[..k]) == WordOf(buf[0], buf[1], buf[2], buf[3])
  {
    var a, b, c, d := buf[..1], buf[..2], buf[..3], buf[..k];
    assert d[..3] == c && c[..2] == b && b[..1] == a && a[..0] == [];
    assert FromBytes(a) == buf[0];
    assert FromBytes(b) == WordOf(0, 0, buf[0], buf[1]);
    assert FromBytes(c) == WordOf(0, buf[0], buf[1], buf[2]);
  }

  /** What an option comes to, for any buffer. */
  lemma OptionReads(t: Schema, buf: seq<Byte>)
    ensures buf == [] ==> Decode(OptionOf(t), buf) == Thrown(BufferOverflow)
    ensures buf != [] && buf[0] == 0 ==> Decode(OptionOf(t), buf) == Done(Absent, buf[1..])
    ensures buf != [] && buf[0] == 1 && Decode(t, buf[1..]).Done? ==>
      Decode(OptionOf(t), buf) == Done(Present(Decode(t, buf[1..]).value), Decode(t, buf[1..]).rest)
    ensures buf != [] && buf[0] == 1 && !Decode(t, buf[1..]).Done? ==> Decode(OptionOf(t), buf) == Decode(t, buf[1..])
    ensures buf != [] && buf[0] > 1 ==> Decode(OptionOf(t), buf) == Thrown(UnexpectedOptionalTag)
  {
    DecodeOption(t, buf);
    if buf != [] {
      assert buf[..TAG_WIDTH] == [buf[0]] && [buf[0]][..0] == [];
      assert FromBytes([buf[0]]) == buf[0];
    }
  }

  lemma {:induction false} ItemsFail(t: Schema, vs: seq<Value>, n: nat, rest: seq<Byte>)
    requires (forall i :: 0 <= i < |vs| ==> Encodable(t, vs[i])) && |vs| < n && !Decode(t, rest).Done?
    ensures WrapItems(DecodeItems(t, EncodeItems(t, vs) + rest, n)) == Decode(t, rest)
    decreases vs
  {
    hide Decode, Encode, Encodable;
    if vs == [] {
      assert EncodeItems(t, vs) + rest == rest;
    } else {
      var tail := EncodeItems(t, vs[1..]) + rest;
      assert EncodeItems(t, vs) + rest == Encode(t, vs[0]) + tail;
      DecodeEncode(t, vs[0], tail);
      ItemsFail(t, vs[1..], n - 1, rest);
    }
  }

  /** A sequence without room for its length overflows and one with a negative length crashes; one whose
      items end early, or stop being readable, ends as its first unreadable item does. */
  lemma SequenceReads(t: Schema, buf: seq<Byte>, vs: seq<Value>, n: nat, rest: seq<Byte>)
    requires (forall i :: 0 <= i < |vs| ==> Encodable(t, vs[i])) && |vs| < n < 0x8000_0000 && !Decode(t, rest).Done?
    ensures |buf| < 4 ==> Decode(SequenceOf(t), buf) == Thrown(BufferOverflow)
    ensures |buf| >= 4 && buf[0] >= 128 ==> Decode(SequenceOf(t), buf) == Crashed
    ensures Decode(SequenceOf(t), Word(n) + (Joined(Pieces(t, vs)) + rest)) == Decode(t, rest)
  {
    if |buf| >= 4 {
      WordReads(buf, LENGTH_WIDTH);
    }
    DecodeSequence(t, buf);
    ItemBytes(t, vs);
    ItemsFail(t, vs, n, rest);
    WordBytes(n, LENGTH_WIDTH);
    LengthFits(n);
    var after := Joined(Pieces(t, vs)) + rest;
    ReadWritten(n, LENGTH_WIDTH, after);
    DecodeSequence(t, Word(n) + after);
    hide IntBytes, Joined, Pieces, FromBytes, Word, EncodeItems, Encodable, Encode;
  }

  // ----- the records, in the order their converters write them

  /** A record's fields as a value. */
  function Record(fields: seq<Value>): Value
  {
    if fields == [] then NoMore else Member(fields[0], Record(fields[1..]))
  }

  datatype SigningCommitment = SigningCommitment(hiding: seq<Byte>, binding: seq<Byte>)
  datatype SigningNonce = SigningNonce(hiding: seq<Byte>, binding: seq<Byte>)
  datatype NonceResult = NonceResult(nonce: SigningNonce, commitment: SigningCommitment)
  datatype KeyPackage = KeyPackage(secretKey: seq<Byte>, publicKey: seq<Byte>, verifyingKey: seq<Byte>)
  datatype DummyTx = DummyTx(tx: seq<Byte>, txid: seq<Byte>)
  datatype TransactionResult = TransactionResult(tx: seq<Byte>, sighash: seq<Byte>, sequences: seq<nat>)
  datatype NodeTxPairResult = NodeTxPairResult(cpfp: TransactionResult, direct: TransactionResult)
  datatype RefundTxTrioResult = RefundTxTrioResult(
    cpfpRefund: TransactionResult, directRefund: Option<TransactionResult>, directFromCpfpRefund: TransactionResult)
  datatype SecretShareResult = SecretShareResult(threshold: nat, index: nat, share: seq<Byte>)
  datatype VerifiableSecretShareResult = VerifiableSecretShareResult(threshold: nat, index: nat, share: seq<Byte>, proofs: seq<seq<Byte>>)
  datatype AdaptorSignatureResult = AdaptorSignatureResult(signature: seq<Byte>, adaptorPrivateKey: seq<Byte>)
  datatype HtlcSpendResult = HtlcSpendResult(tx: seq<Byte>, sighash: seq<Byte>, script: seq<Byte>, controlBlock: seq<Byte>)
  datatype TimelockResult = TimelockResult(nextSequence: nat, nextDirectSequence: nat)

  lemma TwoFields(a: Schema, b: Schema, x: Value, y: Value)
    requires Encodable(a, x) && Encodable(b, y)
    ensures Encodable(Field(a, Field(b, End)), Record([x, y]))
    ensures Encode(Field(a, Field(b, End)), Record([x, y])) == Encode(a, x) + Encode(b, y)
  {
    OneField(b, y);
    assert [x, y][1..] == [y];
    EncodeField(a, Field(b, End), x, Record([y]));
  }

  lemma OneField(a: Schema, x: Value)
    requires Encodable(a, x)
    ensures Encodable(Field(a, End), Record([x])) && Encode(Field(a, End), Record([x])) == Encode(a, x)
  {
    assert [x][1..] == [];
    EncodeField(a, End, x, NoMore);
    assert Encode(a, x) + [] == Encode(a, x);
  }

  lemma ThreeFields(a: Schema, b: Schema, c: Schema, x: Value, y: Value, z: Value)
    requires Encodable(a, x) && Encodable(b, y) && Encodable(c, z)
    ensures Encodable(Field(a, Field(b, Field(c, End))), Record([x, y, z]))
    ensures Encode(Field(a, Field(b, Field(c, End))), Record([x, y, z])) == Encode(a, x) + Encode(b, y) + Encode(c, z)
  {
    hide Encode, Encodable;
    TwoFields(b, c, y, z);
    assert [x, y, z][1..] == [y, z];
    assert Record([x, y, z]) == Member(x, Record([y, z]));
    hide *;
    EncodeField(a, Field(b, Field(c, End)), x, Record([y, z]));
    assert Encode(a, x) + (Encode(b, y) + Encode(c, z)) == Encode(a, x) + Encode(b, y) + Encode(c, z);
  }

  lemma FourFields(a: Schema, b: Schema, c: Schema, d: Schema, x: Value, y: Value, z: Value, w: Value)
    requires Encodable(a, x) && Encodable(b, y) && Encodable(c, z) && Encodable(d, w)
    ensures Encodable(Field(a, Field(b, Field(c, Field(d, End)))), Record([x, y, z, w]))
    ensures Encode(Field(a, Field(b, Field(c, Field(d, End)))), Record([x, y, z, w]))
      == Encode(a, x) + Encode(b, y) + Encode(c, z) + Encode(d, w)
  {
    hide Encode, Encodable;
    ThreeFields(b, c, d, y, z, w);
    assert [x, y, z, w][1..] == [y, z, w];
    assert Record([x, y, z, w]) == Member(x, Record([y, z, w]));
    hide *;
    EncodeField(a, Field(b, Field(c, Field(d, End))), x, Record([y, z, w]));
    assert Encode(a, x) + (Encode(b, y) + Encode(c, z) + Encode(d, w)) == Encode(a, x) + Encode(b, y) + Encode(c, z) + Encode(d, w);
  }

  // ----- each record's bytes

  predicate IsWord(n: nat) { n < 0x1_0000_0000 }

  function Words(ns: seq<nat>): (r: seq<seq<Byte>>)
    ensures |r| == |ns| && forall i :: 0 <= i < |r| ==> r[i] == Word(ns[i])
  {
    seq(|ns|, i requires 0 <= i < |ns| => Word(ns[i]))
  }

  function Blocks(bs: seq<seq<Byte>>): (r: seq<seq<Byte>>)
    ensures |r| == |bs| && forall i :: 0 <= i < |r| ==> r[i] == Block(bs[i])
  {
    seq(|bs|, i requires 0 <= i < |bs| => Block(bs[i]))
  }

  function Inputs(sequences: seq<nat>): (r: seq<Value>)
    ensures |r| == |sequences| && forall i :: 0 <= i < |r| ==> r[i] == Record([Number(sequences[i])])
  {
    seq(|sequences|, i requires 0 <= i < |sequences| => Record([Number(sequences[i])]))
  }

  function Datas(bs: seq<seq<Byte>>): (r: seq<Value>)
    ensures |r| == |bs| && forall i :: 0 <= i < |r| ==> r[i] == Bytes(bs[i])
  {
    seq(|bs|, i requires 0 <= i < |bs| => Bytes(bs[i]))
  }

  lemma TwoBlockRecords(a: seq<Byte>, b: seq<Byte>)
    requires Small(a) && Small(b)
    ensures Encodable(SIGNING_COMMITMENT, Record([Bytes(a), Bytes(b)])) && Encode(SIGNING_COMMITMENT, Record([Bytes(a), Bytes(b)])) == Block(a) + Block(b)
    ensures Encodable(SIGNING_NONCE, Record([Bytes(a), Bytes(b)])) && Encode(SIGNING_NONCE, Record([Bytes(a), Bytes(b)])) == Block(a) + Block(b)
    ensures Encodable(DUMMY_TX, Record([Bytes(a), Bytes(b)])) && Encode(DUMMY_TX, Record([Bytes(a), Bytes(b)])) == Block(a) + Block(b)
    ensures Encodable(ADAPTOR_SIGNATURE_RESULT, Record([Bytes(a), Bytes(b)]))
    ensures Encode(ADAPTOR_SIGNATURE_RESULT, Record([Bytes(a), Bytes(b)])) == Block(a) + Block(b)
  {
    BlockBytes(a);
    BlockBytes(b);
    TwoFields(Data, Data, Bytes(a), Bytes(b));
    TwoFields(Data, Str, Bytes(a), Bytes(b));
    hide Encode, Encodable, Record, Block;
  }

  lemma CommitmentBytes(x: SigningCommitment)
    requires Small(x.hiding) && Small(x.binding)
    ensures var v := Record([Bytes(x.hiding), Bytes(x.binding)]);
      Encodable(SIGNING_COMMITMENT, v) && Encode(SIGNING_COMMITMENT, v) == Block(x.hiding) + Block(x.binding)
  {
    TwoBlockRecords(x.hiding, x.binding);
  }

  lemma NonceBytes(x: SigningNonce)
    requires Small(x.hiding) && Small(x.binding)
    ensures var v := Record([Bytes(x.hiding), Bytes(x.binding)]);
      Encodable(SIGNING_NONCE, v) && Encode(SIGNING_NONCE, v) == Block(x.hiding) + Block(x.binding)
  {
    TwoBlockRecords(x.hiding, x.binding);
  }

  lemma NonceResultBytes(x: NonceResult)
    requires Small(x.nonce.hiding) && Small(x.nonce.binding) && Small(x.commitment.hiding) && Small(x.commitment.binding)
    ensures var v := Record([Record([Bytes(x.nonce.hiding), Bytes(x.nonce.binding)]),
                             Record([Bytes(x.commitment.hiding), Bytes(x.commitment.binding)])]);
      Encodable(NONCE_RESULT, v) &&
      Encode(NONCE_RESULT, v) == Block(x.nonce.hiding) + Block(x.nonce.binding) + (Block(x.commitment.hiding) + Block(x.commitment.binding))
  {
    NonceBytes(x.nonce);
    CommitmentBytes(x.commitment);
    TwoFields(SIGNING_NONCE, SIGNING_COMMITMENT, Record([Bytes(x.nonce.hiding), Bytes(x.nonce.binding)]),
              Record([Bytes(x.commitment.hiding), Bytes(x.commitment.binding)]));
    hide Encode, Encodable, Record, Block;
  }

  lemma KeyPackageBytes(x: KeyPackage)
    requires Small(x.secretKey) && Small(x.publicKey) && Small(x.verifyingKey)
    ensures var v := Record([Bytes(x.secretKey), Bytes(x.publicKey), Bytes(x.verifyingKey)]);
      Encodable(KEY_PACKAGE, v) && Encode(KEY_PACKAGE, v) == Block(x.secretKey) + Block(x.publicKey) + Block(x.verifyingKey)
  {
    BlockBytes(x.secretKey);
    BlockBytes(x.publicKey);
    BlockBytes(x.verifyingKey);
    ThreeFields(Data, Data, Data, Bytes(x.secretKey), Bytes(x.publicKey), Bytes(x.verifyingKey));
    hide Encode, Encodable, Record, Block;
  }

  lemma DummyTxBytes(x: DummyTx)
    requires Small(x.tx) && Small(x.txid)
    ensures var v := Record([Bytes(x.tx), Bytes(x.txid)]);
      Encodable(DUMMY_TX, v) && Encode(DUMMY_TX, v) == Block(x.tx) + Block(x.txid)
  {
    TwoBlockRecords(x.tx, x.txid);
  }

  lemma AdaptorSignatureBytes(x: AdaptorSignatureResult)
    requires Small(x.signature) && Small(x.adaptorPrivateKey)
    ensures var v := Record([Bytes(x.signature), Bytes(x.adaptorPrivateKey)]);
      Encodable(ADAPTOR_SIGNATURE_RESULT, v) && Encode(ADAPTOR_SIGNATURE_RESULT, v) == Block(x.signature) + Block(x.adaptorPrivateKey)
  {
    TwoBlockRecords(x.signature, x.adaptorPrivateKey);
  }

  lemma HtlcSpendBytes(x: HtlcSpendResult)
    requires Small(x.tx) && Small(x.sighash) && Small(x.script) && Small(x.controlBlock)
    ensures var v := Record([Bytes(x.tx), Bytes(x.sighash), Bytes(x.script), Bytes(x.controlBlock)]);
      Encodable(HTLC_SPEND_RESULT, v) &&
      Encode(HTLC_SPEND_RESULT, v) == Block(x.tx) + Block(x.sighash) + Block(x.script) + Block(x.controlBlock)
  {
    BlockBytes(x.tx);
    BlockBytes(x.sighash);
    BlockBytes(x.script);
    BlockBytes(x.controlBlock);
    FourFields(Data, Data, Data, Data, Bytes(x.tx), Bytes(x.sighash), Bytes(x.script), Bytes(x.controlBlock));
    hide Encode, Encodable, Record, Block;
  }

  lemma TimelockBytes(x: TimelockResult)
    requires IsWord(x.nextSequence) && IsWord(x.nextDirectSequence)
    ensures var v := Record([Number(x.nextSequence), Number(x.nextDirectSequence)]);
      Encodable(TIMELOCK_RESULT, v) && Encode(TIMELOCK_RESULT, v) == Word(x.nextSequence) + Word(x.nextDirectSequence)
  {
    NumberBytes(x.nextSequence);
    NumberBytes(x.nextDirectSequence);
    TwoFields(UInt32, UInt32, Number(x.nextSequence), Number(x.nextDirectSequence));
    hide Encode, Encodable, Record, Word;
  }

  lemma SecretShareBytes(x: SecretShareResult)
    requires IsWord(x.threshold) && IsWord(x.index) && Small(x.share)
    ensures var v := Record([Number(x.threshold), Number(x.index), Bytes(x.share)]);
      Encodable(SECRET_SHARE_RESULT, v) && Encode(SECRET_SHARE_RESULT, v) == Word(x.threshold) + Word(x.index) + Block(x.share)
  {
    NumberBytes(x.threshold);
    NumberBytes(x.index);
    BlockBytes(x.share);
    ThreeFields(UInt32, UInt32, Data, Number(x.threshold), Number(x.index), Bytes(x.share));
    hide Encode, Encodable, Record, Word, Block;
  }

  lemma DatasBytes(bs: seq<seq<Byte>>)
    requires |bs| < 0x8000_0000 && forall i :: 0 <= i < |bs| ==> Small(bs[i])
    ensures Encodable(SequenceOf(Data), Items(Datas(bs)))
    ensures Encode(SequenceOf(Data), Items(Datas(bs))) == Word(|bs|) + Joined(Blocks(bs))
  {
    hide Encode, Encodable, Word, Joined, Block;
    forall i | 0 <= i < |bs| ensures Encodable(Data, Datas(bs)[i]) && Encode(Data, Datas(bs)[i]) == Block(bs[i]) {
      BlockBytes(bs[i]);
    }
    SequenceBytes(Data, Datas(bs));
    assert Pieces(Data, Datas(bs)) == Blocks(bs);
  }

  lemma VerifiableSecretShareBytes(x: VerifiableSecretShareResult)
    requires IsWord(x.threshold) && IsWord(x.index) && Small(x.share)
    requires |x.proofs| < 0x8000_0000 && forall i :: 0 <= i < |x.proofs| ==> Small(x.proofs[i])
    ensures var v := Record([Number(x.threshold), Number(x.index), Bytes(x.share), Items(Datas(x.proofs))]);
      Encodable(VERIFIABLE_SECRET_SHARE_RESULT, v) &&
      Encode(VERIFIABLE_SECRET_SHARE_RESULT, v)
        == Word(x.threshold) + Word(x.index) + Block(x.share) + (Word(|x.proofs|) + Joined(Blocks(x.proofs)))
  {
    NumberBytes(x.threshold);
    NumberBytes(x.index);
    BlockBytes(x.share);
    DatasBytes(x.proofs);
    FourFields(UInt32, UInt32, Data, SequenceOf(Data), Number(x.threshold), Number(x.index), Bytes(x.share), Items(Datas(x.proofs)));
    hide Encode, Encodable, Record, Word, Block, Joined;
  }

  lemma TxInBytes(n: nat)
    requires IsWord(n)
    ensures Encodable(TX_IN_RESULT, Record([Number(n)])) && Encode(TX_IN_RESULT, Record([Number(n)])) == Word(n)
  {
    NumberBytes(n);
    OneField(UInt32, Number(n));
    hide Encode, Encodable, Record, Word;
  }

  predicate GoodTransaction(x: TransactionResult)
  {
    Small(x.tx) && Small(x.sighash) && |x.sequences| < 0x8000_0000 && forall i :: 0 <= i < |x.sequences| ==> IsWord(x.sequences[i])
  }

  function OfTransaction(x: TransactionResult): Value { Record([Bytes(x.tx), Bytes(x.sighash), Items(Inputs(x.sequences))]) }

  function TransactionRecord(x: TransactionResult): seq<Byte>
  {
    Block(x.tx) + Block(x.sighash) + (Word(|x.sequences|) + Joined(Words(x.sequences)))
  }

  lemma TransactionBytes(x: TransactionResult)
    requires GoodTransaction(x)
    ensures Encodable(TRANSACTION_RESULT, OfTransaction(x)) && Encode(TRANSACTION_RESULT, OfTransaction(x)) == TransactionRecord(x)
  {
    BlockBytes(x.tx);
    BlockBytes(x.sighash);
    InputsBytes(x.sequences);
    ThreeFields(Data, Data, SequenceOf(TX_IN_RESULT), Bytes(x.tx), Bytes(x.sighash), Items(Inputs(x.sequences)));
    hide Encode, Encodable, Record, Word, Block, Joined;
  }

  lemma InputsBytes(sequences: seq<nat>)
    requires |sequences| < 0x8000_0000 && forall i :: 0 <= i < |sequences| ==> IsWord(sequences[i])
    ensures Encodable(SequenceOf(TX_IN_RESULT), Items(Inputs(sequences)))
    ensures Encode(SequenceOf(TX_IN_RESULT), Items(Inputs(sequences))) == Word(|sequences|) + Joined(Words(sequences))
  {
    hide Encode, Encodable, Word, Joined, Record;
    forall i | 0 <= i < |sequences|
      ensures Encodable(TX_IN_RESULT, Inputs(sequences)[i]) && Encode(TX_IN_RESULT, Inputs(sequences)[i]) == Word(sequences[i])
    {
      TxInBytes(sequences[i]);
    }
    SequenceBytes(TX_IN_RESULT, Inputs(sequences));
    assert Pieces(TX_IN_RESULT, Inputs(sequences)) == Words(sequences);
  }

  lemma NodeTxPairBytes(x: NodeTxPairResult)
    requires GoodTransaction(x.cpfp) && GoodTransaction(x.direct)
    ensures var v := Record([OfTransaction(x.cpfp), OfTransaction(x.direct)]);
      Encodable(NODE_TX_PAIR_RESULT, v) && Encode(NODE_TX_PAIR_RESULT, v) == TransactionRecord(x.cpfp) + TransactionRecord(x.direct)
  {
    TransactionBytes(x.cpfp);
    TransactionBytes(x.direct);
    TwoFields(TRANSACTION_RESULT, TRANSACTION_RESULT, OfTransaction(x.cpfp), OfTransaction(x.direct));
    hide Encode, Encodable, Record, OfTransaction, TransactionRecord;
  }

  /** The optional transaction stands between the other two: the byte 0, or the byte 1 and its record. */
  lemma RefundTxTrioBytes(x: RefundTxTrioResult)
    requires GoodTransaction(x.cpfpRefund) && GoodTransaction(x.directFromCpfpRefund)
    requires x.directRefund.Some? ==> GoodTransaction(x.directRefund.value)
    ensures var v := Record([OfTransaction(x.cpfpRefund),
                             if x.directRefund.Some? then Present(OfTransaction(x.directRefund.value)) else Absent,
                             OfTransaction(x.directFromCpfpRefund)]);
      Encodable(REFUND_TX_TRIO_RESULT, v) &&
      Encode(REFUND_TX_TRIO_RESULT, v)
        == TransactionRecord(x.cpfpRefund)
           + (if x.directRefund.Some? then [1] + TransactionRecord(x.directRefund.value) else [0])
           + TransactionRecord(x.directFromCpfpRefund)
  {
    TransactionBytes(x.cpfpRefund);
    TransactionBytes(x.directFromCpfpRefund);
    if x.directRefund.Some? {
      TransactionBytes(x.directRefund.value);
      OptionBytes(TRANSACTION_RESULT, OfTransaction(x.directRefund.value));
    } else {
      OptionBytes(TRANSACTION_RESULT, Absent);
    }
    var middle := if x.directRefund.Some? then Present(OfTransaction(x.directRefund.value)) else Absent;
    ThreeFields(TRANSACTION_RESULT, OptionOf(TRANSACTION_RESULT), TRANSACTION_RESULT,
                OfTransaction(x.cpfpRefund), middle, OfTransaction(x.directFromCpfpRefund));
    hide Encode, Encodable, Record, OfTransaction, TransactionRecord;
  }
}
