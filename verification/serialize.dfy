/** The Borsh codecs of the three shielded action records
    (`transaction/serialize.rs`): `SpendDescription`, `ConvertDescription`
    and `OutputDescription`.

    Each record is written field by field, in a fixed order, each field at a
    fixed width and with no length prefix; each is read back field by field
    from an advancing cursor, stopping at the first field that fails. The
    pure functions `EncodeX` / `DecodeX` say what the bytes are; the methods
    `SerializeX` / `DeserializeX` do it step by step on a `Writer` or a
    `Cursor` and are proved to agree with them. */
module Serialize {
  import opened FieldCodec

  /** Values owned by collaborators outside this model. */
  type ExtendedPoint(!new)   // jubjub::ExtendedPoint (value commitment `cv`)
  type Scalar(!new)          // bls12_381::Scalar (`anchor`, `cmu`)
  type PublicKey(!new)       // redjubjub::PublicKey (`rk`)
  type EphemeralKey(!new)    // the output's `ephemeral_key`

  datatype SpendDescription<Proof, AuthSig> = SpendDescription(
    cv: ExtendedPoint,
    anchor: Scalar,
    nullifier: Nullifier,
    rk: PublicKey,
    zkproof: Proof,
    spend_auth_sig: AuthSig)

  datatype ConvertDescription<Proof> = ConvertDescription(
    cv: ExtendedPoint,
    anchor: Scalar,
    zkproof: Proof)

  datatype OutputDescription<Proof> = OutputDescription(
    cv: ExtendedPoint,
    cmu: Scalar,
    ephemeral_key: EphemeralKey,
    enc_ciphertext: EncCiphertext,
    out_ciphertext: OutCiphertext,
    zkproof: Proof)

  /** `to_bytes` with `deserialize_extended_point` and `deserialize_scalar`. */
  datatype CurveCodecs = CurveCodecs(point: Codec<ExtendedPoint>, scalar: Codec<Scalar>)

  datatype SpendCodecs<!Proof, !AuthSig> =
    SpendCodecs(curve: CurveCodecs, rk: Codec<PublicKey>, proof: Codec<Proof>, sig: Codec<AuthSig>)

  datatype ConvertCodecs<!Proof> = ConvertCodecs(curve: CurveCodecs, proof: Codec<Proof>)

  datatype OutputCodecs<!Proof> =
    OutputCodecs(curve: CurveCodecs, epk: Codec<EphemeralKey>, proof: Codec<Proof>)

  /** Compressed points and scalars are 32 bytes, canonical on decode. */
  ghost predicate CurveLawful(cc: CurveCodecs) {
    Lawful(cc.point) && cc.point.width == 32 && Lawful(cc.scalar) && cc.scalar.width == 32
  }

  ghost predicate SpendCodecsLawful<Proof(!new), AuthSig(!new)>(c: SpendCodecs<Proof, AuthSig>) {
    CurveLawful(c.curve) && Lawful(c.rk) && c.rk.width == 32 && Lawful(c.proof) && Lawful(c.sig)
  }

  ghost predicate ConvertCodecsLawful<Proof(!new)>(c: ConvertCodecs<Proof>) {
    CurveLawful(c.curve) && Lawful(c.proof)
  }

  ghost predicate OutputCodecsLawful<Proof(!new)>(c: OutputCodecs<Proof>) {
    CurveLawful(c.curve) && Lawful(c.epk) && c.epk.width == 32 && Lawful(c.proof)
  }

  /** Width of the zkproof of an authorized record (`GrothProofBytes`) and of
      a spend authorization signature. */
  const GROTH_PROOF_SIZE: nat := 192
  const SPEND_AUTH_SIG_SIZE: nat := 64

  function SpendSize<Proof, AuthSig>(c: SpendCodecs<Proof, AuthSig>): nat {
    c.curve.point.width + c.curve.scalar.width + NullifierCodec.width + c.rk.width
      + c.proof.width + c.sig.width
  }

  function ConvertSize<Proof>(c: ConvertCodecs<Proof>): nat {
    c.curve.point.width + c.curve.scalar.width + c.proof.width
  }

  function OutputSize<Proof>(c: OutputCodecs<Proof>): nat {
    c.curve.point.width + c.curve.scalar.width + c.epk.width + EncCiphertextCodec.width
      + OutCiphertextCodec.width + c.proof.width
  }

  // ---------------------------------------------------------------------
  // SpendDescription

  /** cv ‖ anchor ‖ nullifier ‖ rk ‖ zkproof ‖ spend_auth_sig. */
  function EncodeSpend<Proof(!new), AuthSig(!new)>(c: SpendCodecs<Proof, AuthSig>, s: SpendDescription<Proof, AuthSig>): (r: Bytes)
    ensures SpendCodecsLawful(c) ==> |r| == SpendSize(c)
  {
    c.curve.point.encode(s.cv) + c.curve.scalar.encode(s.anchor) + NullifierCodec.encode(s.nullifier)
      + c.rk.encode(s.rk) + c.proof.encode(s.zkproof) + c.sig.encode(s.spend_auth_sig)
  }

  function DecodeSpend<Proof(!new), AuthSig(!new)>(c: SpendCodecs<Proof, AuthSig>, buf: Bytes): (r: Result<Decoded<SpendDescription<Proof, AuthSig>>>)
    ensures r.Ok? ==> |buf| == SpendSize(c) + |r.value.rest|
  {
    var cv :- ReadField(c.curve.point, buf);
    var anchor :- ReadField(c.curve.scalar, cv.rest);
    var nullifier :- ReadField(NullifierCodec, anchor.rest);
    var rk :- ReadField(c.rk, nullifier.rest);
    var zkproof :- ReadField(c.proof, rk.rest);
    var sig :- ReadField(c.sig, zkproof.rest);
    Ok(Decoded(SpendDescription(cv.value, anchor.value, nullifier.value, rk.value, zkproof.value, sig.value),
               sig.rest))
  }

  /** The encoding followed by `tail`, regrouped field by field. */
  lemma SpendEncodingThen<Proof(!new), AuthSig(!new)>(c: SpendCodecs<Proof, AuthSig>, s: SpendDescription<Proof, AuthSig>, tail: Bytes)
    ensures EncodeSpend(c, s) + tail
         == c.curve.point.encode(s.cv) + (c.curve.scalar.encode(s.anchor) + (NullifierCodec.encode(s.nullifier)
              + (c.rk.encode(s.rk) + (c.proof.encode(s.zkproof) + (c.sig.encode(s.spend_auth_sig) + tail)))))
  {
  }

  /** Fields sit back to back at fixed offsets, in protocol order; the
      nullifier occupies bytes 64..96 verbatim. */
  lemma SpendLayout<Proof(!new), AuthSig(!new)>(c: SpendCodecs<Proof, AuthSig>, s: SpendDescription<Proof, AuthSig>)
    requires SpendCodecsLawful(c)
    ensures var e, p := EncodeSpend(c, s), c.proof.width;
            && |e| == 128 + p + c.sig.width
            && e[..32] == c.curve.point.encode(s.cv)
            && e[32..64] == c.curve.scalar.encode(s.anchor)
            && e[64..96] == s.nullifier
            && e[96..128] == c.rk.encode(s.rk)
            && e[128..128 + p] == c.proof.encode(s.zkproof)
            && e[128 + p..] == c.sig.encode(s.spend_auth_sig)
  {
    RawCodecsLawful();
  }

  /** decode(encode(s) ++ rest) gives s back and leaves exactly `rest`. */
  lemma SpendRoundTrip<Proof(!new), AuthSig(!new)>(c: SpendCodecs<Proof, AuthSig>, s: SpendDescription<Proof, AuthSig>, rest: Bytes)
    requires SpendCodecsLawful(c)
    ensures DecodeSpend(c, EncodeSpend(c, s) + rest) == Ok(Decoded(s, rest))
  {
    RawCodecsLawful();
    var t6 := c.sig.encode(s.spend_auth_sig) + rest;
    var t5 := c.proof.encode(s.zkproof) + t6;
    var t4 := c.rk.encode(s.rk) + t5;
    var t3 := NullifierCodec.encode(s.nullifier) + t4;
    var t2 := c.curve.scalar.encode(s.anchor) + t3;
    SpendEncodingThen(c, s, rest);
    ReadFieldOfEncoding(c.curve.point, s.cv, t2);
    ReadFieldOfEncoding(c.curve.scalar, s.anchor, t3);
    ReadFieldOfEncoding(NullifierCodec, s.nullifier, t4);
    ReadFieldOfEncoding(c.rk, s.rk, t5);
    ReadFieldOfEncoding(c.proof, s.zkproof, t6);
    ReadFieldOfEncoding(c.sig, s.spend_auth_sig, rest);
  }

  /** Every strict prefix of an encoding is rejected as truncated: each
      field before the cut decodes, and the field the cut falls in is short. */
  lemma {:induction false} SpendTruncated<Proof(!new), AuthSig(!new)>(c: SpendCodecs<Proof, AuthSig>, s: SpendDescription<Proof, AuthSig>, k: nat)
    requires SpendCodecsLawful(c)
    requires k < |EncodeSpend(c, s)|
    ensures DecodeSpend(c, EncodeSpend(c, s)[..k]) == Err(Truncated)
  {
    RawCodecsLawful();
    var t6 := c.sig.encode(s.spend_auth_sig) + [];
    var t5 := c.proof.encode(s.zkproof) + t6;
    var t4 := c.rk.encode(s.rk) + t5;
    var t3 := NullifierCodec.encode(s.nullifier) + t4;
    var t2 := c.curve.scalar.encode(s.anchor) + t3;
    SpendEncodingThen(c, s, []);
    assert EncodeSpend(c, s) + [] == EncodeSpend(c, s);
    ReadFieldOfPrefix(c.curve.point, s.cv, t2, k);
    if k < 32 { return; }
    ReadFieldOfPrefix(c.curve.scalar, s.anchor, t3, k - 32);
    if k < 64 { return; }
    ReadFieldOfPrefix(NullifierCodec, s.nullifier, t4, k - 64);
    if k < 96 { return; }
    ReadFieldOfPrefix(c.rk, s.rk, t5, k - 96);
    if k < 128 { return; }
    ReadFieldOfPrefix(c.proof, s.zkproof, t6, k - 128);
    if k < 128 + c.proof.width { return; }
    ReadFieldOfPrefix(c.sig, s.spend_auth_sig, [], k - 128 - c.proof.width);
  }

  /** Decoding any prefix of an encoding followed by more bytes: a prefix
      shorter than the encoding fails as truncated; otherwise the record
      comes back and exactly the encoding's bytes are consumed. */
  lemma DecodeSpendPrefix<Proof(!new), AuthSig(!new)>(c: SpendCodecs<Proof, AuthSig>, s: SpendDescription<Proof, AuthSig>, rest: Bytes, k: nat)
    requires SpendCodecsLawful(c)
    requires k <= |EncodeSpend(c, s) + rest|
    ensures DecodeSpend(c, (EncodeSpend(c, s) + rest)[..k])
         == if k < |EncodeSpend(c, s)| then Err(Truncated) else Ok(Decoded(s, rest[..k - |EncodeSpend(c, s)|]))
  {
    var e := EncodeSpend(c, s);
    if k < |e| {
      assert (e + rest)[..k] == e[..k];
      SpendTruncated(c, s, k);
    } else {
      assert (e + rest)[..k] == e + rest[..k - |e|];
      SpendRoundTrip(c, s, rest[..k - |e|]);
    }
  }

  /** Decoding accepts only canonical encodings: whatever it returns, the
      bytes it consumed are exactly the encoding of the returned record. */
  lemma DecodeSpendCanonical<Proof(!new), AuthSig(!new)>(c: SpendCodecs<Proof, AuthSig>, buf: Bytes)
    requires SpendCodecsLawful(c)
    ensures DecodeSpend(c, buf).Ok? ==>
              buf == EncodeSpend(c, DecodeSpend(c, buf).value.value) + DecodeSpend(c, buf).value.rest
  {
    if DecodeSpend(c, buf).Ok? {
      var cv := ReadField(c.curve.point, buf).value;
      var anchor := ReadField(c.curve.scalar, cv.rest).value;
      var nullifier := ReadField(NullifierCodec, anchor.rest).value;
      var rk := ReadField(c.rk, nullifier.rest).value;
      var zkproof := ReadField(c.proof, rk.rest).value;
      var sig := ReadField(c.sig, zkproof.rest).value;
      var s := SpendDescription(cv.value, anchor.value, nullifier.value, rk.value, zkproof.value, sig.value);
      assert DecodeSpend(c, buf) == Ok(Decoded(s, sig.rest));
      SpendEncodingThen(c, s, sig.rest);
    }
  }

  /** Input shorter than a spend encoding never yields a record. */
  lemma SpendShortInputFails<Proof(!new), AuthSig(!new)>(c: SpendCodecs<Proof, AuthSig>, buf: Bytes)
    requires SpendCodecsLawful(c)
    requires |buf| < SpendSize(c)
    ensures DecodeSpend(c, buf).Err?
  {
    DecodeSpendCanonical(c, buf);
  }

  /** The decoded nullifier is the 32 raw bytes at offset 64. */
  lemma SpendNullifierVerbatim<Proof(!new), AuthSig(!new)>(c: SpendCodecs<Proof, AuthSig>, buf: Bytes)
    requires SpendCodecsLawful(c)
    requires DecodeSpend(c, buf).Ok?
    ensures |buf| >= 96 && DecodeSpend(c, buf).value.value.nullifier == buf[64..96]
  {
    var d := DecodeSpend(c, buf).value;
    DecodeSpendCanonical(c, buf);
    SpendLayout(c, d.value);
  }

  /** A non-canonical cv, or a canonical cv followed by a non-canonical
      anchor, is rejected as malformed. */
  lemma SpendRejectsNonCanonical<Proof(!new), AuthSig(!new)>(c: SpendCodecs<Proof, AuthSig>, buf: Bytes)
    requires SpendCodecsLawful(c)
    requires |buf| >= 32
    ensures c.curve.point.decode(buf[..32]).None? ==> DecodeSpend(c, buf) == Err(Malformed)
    ensures (|buf| >= 64 && c.curve.point.decode(buf[..32]).Some? && c.curve.scalar.decode(buf[32..64]).None?)
            ==> DecodeSpend(c, buf) == Err(Malformed)
  {
    if |buf| >= 64 {
      assert buf[32..][..32] == buf[32..64];
    }
  }

  /** An input at least as long as a spend encoding is never reported as
      truncated: a field that fails there is malformed. */
  lemma SpendFullLengthNotTruncated<Proof(!new), AuthSig(!new)>(c: SpendCodecs<Proof, AuthSig>, buf: Bytes)
    requires SpendCodecsLawful(c)
    requires |buf| >= SpendSize(c)
    ensures DecodeSpend(c, buf) != Err(Truncated)
  {
    RawCodecsLawful();
  }

  /** Distinct spends have distinct encodings. */
  lemma SpendEncodingInjective<Proof(!new), AuthSig(!new)>(c: SpendCodecs<Proof, AuthSig>, s1: SpendDescription<Proof, AuthSig>, s2: SpendDescription<Proof, AuthSig>)
    requires SpendCodecsLawful(c)
    requires EncodeSpend(c, s1) == EncodeSpend(c, s2)
    ensures s1 == s2
  {
    SpendRoundTrip(c, s1, []);
    SpendRoundTrip(c, s2, []);
  }

  /** `BorshSerialize::serialize` for a spend. */
  method SerializeSpend<Proof(!new), AuthSig(!new)>(c: SpendCodecs<Proof, AuthSig>, s: SpendDescription<Proof, AuthSig>, w: Writer)
    modifies w
    ensures w.written == old(w.written) + EncodeSpend(c, s)
  {
    ghost var e := c.curve.point.encode(s.cv);
    w.WriteAll(c.curve.point.encode(s.cv));
    AppendAssoc(old(w.written), e, c.curve.scalar.encode(s.anchor));
    e := e + c.curve.scalar.encode(s.anchor);
    w.WriteAll(c.curve.scalar.encode(s.anchor));
    AppendAssoc(old(w.written), e, NullifierCodec.encode(s.nullifier));
    e := e + NullifierCodec.encode(s.nullifier);
    w.WriteAll(NullifierCodec.encode(s.nullifier));
    AppendAssoc(old(w.written), e, c.rk.encode(s.rk));
    e := e + c.rk.encode(s.rk);
    w.WriteAll(c.rk.encode(s.rk));
    AppendAssoc(old(w.written), e, c.proof.encode(s.zkproof));
    e := e + c.proof.encode(s.zkproof);
    w.WriteAll(c.proof.encode(s.zkproof));
    AppendAssoc(old(w.written), e, c.sig.encode(s.spend_auth_sig));
    e := e + c.sig.encode(s.spend_auth_sig);
    w.WriteAll(c.sig.encode(s.spend_auth_sig));
  }

  /** `BorshDeserialize::deserialize` for a spend. */
  method DeserializeSpend<Proof(!new), AuthSig(!new)>(c: SpendCodecs<Proof, AuthSig>, cur: Cursor)
    returns (r: Result<SpendDescription<Proof, AuthSig>>)
    modifies cur
    ensures var d := DecodeSpend(c, old(cur.buf));
            && (d.Ok? ==> r == Ok(d.value.value) && cur.buf == d.value.rest)
            && (d.Err? ==> r == Err(d.error))
  {
    var cv :- cur.Read(c.curve.point);
    var anchor :- cur.Read(c.curve.scalar);
    var nullifier :- cur.Read(NullifierCodec);
    var rk :- cur.Read(c.rk);
    var zkproof :- cur.Read(c.proof);
    var spend_auth_sig :- cur.Read(c.sig);
    r := Ok(SpendDescription(cv, anchor, nullifier, rk, zkproof, spend_auth_sig));
  }

  // ---------------------------------------------------------------------
  // ConvertDescription

  /** cv ‖ anchor ‖ zkproof. */
  function EncodeConvert<Proof(!new)>(c: ConvertCodecs<Proof>, v: ConvertDescription<Proof>): (r: Bytes)
    ensures ConvertCodecsLawful(c) ==> |r| == ConvertSize(c)
  {
    c.curve.point.encode(v.cv) + c.curve.scalar.encode(v.anchor) + c.proof.encode(v.zkproof)
  }

  function DecodeConvert<Proof(!new)>(c: ConvertCodecs<Proof>, buf: Bytes): (r: Result<Decoded<ConvertDescription<Proof>>>)
    ensures r.Ok? ==> |buf| == ConvertSize(c) + |r.value.rest|
  {
    var cv :- ReadField(c.curve.point, buf);
    var anchor :- ReadField(c.curve.scalar, cv.rest);
    var zkproof :- ReadField(c.proof, anchor.rest);
    Ok(Decoded(ConvertDescription(cv.value, anchor.value, zkproof.value), zkproof.rest))
  }

  lemma ConvertEncodingThen<Proof(!new)>(c: ConvertCodecs<Proof>, v: ConvertDescription<Proof>, tail: Bytes)
    ensures EncodeConvert(c, v) + tail
         == c.curve.point.encode(v.cv) + (c.curve.scalar.encode(v.anchor) + (c.proof.encode(v.zkproof) + tail))
  {
  }

  /** Fields sit back to back in protocol order: cv at 0, anchor at 32,
      zkproof from 64 to the end. */
  lemma ConvertLayout<Proof(!new)>(c: ConvertCodecs<Proof>, v: ConvertDescription<Proof>)
    requires ConvertCodecsLawful(c)
    ensures var e := EncodeConvert(c, v);
            && |e| == 64 + c.proof.width
            && e[..32] == c.curve.point.encode(v.cv)
            && e[32..64] == c.curve.scalar.encode(v.anchor)
            && e[64..] == c.proof.encode(v.zkproof)
  {
  }

  /** decode(encode(v) ++ rest) gives v back and leaves exactly `rest`. */
  lemma ConvertRoundTrip<Proof(!new)>(c: ConvertCodecs<Proof>, v: ConvertDescription<Proof>, rest: Bytes)
    requires ConvertCodecsLawful(c)
    ensures DecodeConvert(c, EncodeConvert(c, v) + rest) == Ok(Decoded(v, rest))
  {
    var t3 := c.proof.encode(v.zkproof) + rest;
    var t2 := c.curve.scalar.encode(v.anchor) + t3;
    ConvertEncodingThen(c, v, rest);
    ReadFieldOfEncoding(c.curve.point, v.cv, t2);
    ReadFieldOfEncoding(c.curve.scalar, v.anchor, t3);
    ReadFieldOfEncoding(c.proof, v.zkproof, rest);
  }

  /** Every strict prefix of an encoding is rejected as truncated. */
  lemma {:induction false} ConvertTruncated<Proof(!new)>(c: ConvertCodecs<Proof>, v: ConvertDescription<Proof>, k: nat)
    requires ConvertCodecsLawful(c)
    requires k < |EncodeConvert(c, v)|
    ensures DecodeConvert(c, EncodeConvert(c, v)[..k]) == Err(Truncated)
  {
    var t3 := c.proof.encode(v.zkproof) + [];
    var t2 := c.curve.scalar.encode(v.anchor) + t3;
    ConvertEncodingThen(c, v, []);
    assert EncodeConvert(c, v) + [] == EncodeConvert(c, v);
    ReadFieldOfPrefix(c.curve.point, v.cv, t2, k);
    if k < 32 { return; }
    ReadFieldOfPrefix(c.curve.scalar, v.anchor, t3, k - 32);
    if k < 64 { return; }
    ReadFieldOfPrefix(c.proof, v.zkproof, [], k - 64);
  }

  /** Decoding any prefix of an encoding followed by more bytes. */
  lemma DecodeConvertPrefix<Proof(!new)>(c: ConvertCodecs<Proof>, v: ConvertDescription<Proof>, rest: Bytes, k: nat)
    requires ConvertCodecsLawful(c)
    requires k <= |EncodeConvert(c, v) + rest|
    ensures DecodeConvert(c, (EncodeConvert(c, v) + rest)[..k])
         == if k < |EncodeConvert(c, v)| then Err(Truncated) else Ok(Decoded(v, rest[..k - |EncodeConvert(c, v)|]))
  {
    var e := EncodeConvert(c, v);
    if k < |e| {
      assert (e + rest)[..k] == e[..k];
      ConvertTruncated(c, v, k);
    } else {
      assert (e + rest)[..k] == e + rest[..k - |e|];
      ConvertRoundTrip(c, v, rest[..k - |e|]);
    }
  }

  /** Decoding accepts only canonical encodings. */
  lemma DecodeConvertCanonical<Proof(!new)>(c: ConvertCodecs<Proof>, buf: Bytes)
    requires ConvertCodecsLawful(c)
    ensures DecodeConvert(c, buf).Ok? ==>
              buf == EncodeConvert(c, DecodeConvert(c, buf).value.value) + DecodeConvert(c, buf).value.rest
  {
    if DecodeConvert(c, buf).Ok? {
      var cv := ReadField(c.curve.point, buf).value;
      var anchor := ReadField(c.curve.scalar, cv.rest).value;
      var zkproof := ReadField(c.proof, anchor.rest).value;
      var v := ConvertDescription(cv.value, anchor.value, zkproof.value);
      assert DecodeConvert(c, buf) == Ok(Decoded(v, zkproof.rest));
      ConvertEncodingThen(c, v, zkproof.rest);
    }
  }

  /** Input shorter than a convert encoding never yields a record. */
  lemma ConvertShortInputFails<Proof(!new)>(c: ConvertCodecs<Proof>, buf: Bytes)
    requires ConvertCodecsLawful(c)
    requires |buf| < ConvertSize(c)
    ensures DecodeConvert(c, buf).Err?
  {
    DecodeConvertCanonical(c, buf);
  }

  /** A non-canonical cv, or a canonical cv followed by a non-canonical
      anchor, is rejected as malformed. */
  lemma ConvertRejectsNonCanonical<Proof(!new)>(c: ConvertCodecs<Proof>, buf: Bytes)
    requires ConvertCodecsLawful(c)
    requires |buf| >= 32
    ensures c.curve.point.decode(buf[..32]).None? ==> DecodeConvert(c, buf) == Err(Malformed)
    ensures (|buf| >= 64 && c.curve.point.decode(buf[..32]).Some? && c.curve.scalar.decode(buf[32..64]).None?)
            ==> DecodeConvert(c, buf) == Err(Malformed)
  {
    if |buf| >= 64 {
      assert buf[32..][..32] == buf[32..64];
    }
  }

  /** An input at least as long as a convert encoding is never reported as
      truncated: a field that fails there is malformed. */
  lemma ConvertFullLengthNotTruncated<Proof(!new)>(c: ConvertCodecs<Proof>, buf: Bytes)
    requires ConvertCodecsLawful(c)
    requires |buf| >= ConvertSize(c)
    ensures DecodeConvert(c, buf) != Err(Truncated)
  {
  }

  /** Distinct converts have distinct encodings. */
  lemma ConvertEncodingInjective<Proof(!new)>(c: ConvertCodecs<Proof>, v1: ConvertDescription<Proof>, v2: ConvertDescription<Proof>)
    requires ConvertCodecsLawful(c)
    requires EncodeConvert(c, v1) == EncodeConvert(c, v2)
    ensures v1 == v2
  {
    ConvertRoundTrip(c, v1, []);
    ConvertRoundTrip(c, v2, []);
  }

  /** `BorshSerialize::serialize` for a convert. */
  method SerializeConvert<Proof(!new)>(c: ConvertCodecs<Proof>, v: ConvertDescription<Proof>, w: Writer)
    modifies w
    ensures w.written == old(w.written) + EncodeConvert(c, v)
  {
    ghost var e := c.curve.point.encode(v.cv);
    w.WriteAll(c.curve.point.encode(v.cv));
    AppendAssoc(old(w.written), e, c.curve.scalar.encode(v.anchor));
    e := e + c.curve.scalar.encode(v.anchor);
    w.WriteAll(c.curve.scalar.encode(v.anchor));
    AppendAssoc(old(w.written), e, c.proof.encode(v.zkproof));
    e := e + c.proof.encode(v.zkproof);
    w.WriteAll(c.proof.encode(v.zkproof));
  }

  /** `BorshDeserialize::deserialize` for a convert. */
  method DeserializeConvert<Proof(!new)>(c: ConvertCodecs<Proof>, cur: Cursor)
    returns (r: Result<ConvertDescription<Proof>>)
    modifies cur
    ensures var d := DecodeConvert(c, old(cur.buf));
            && (d.Ok? ==> r == Ok(d.value.value) && cur.buf == d.value.rest)
            && (d.Err? ==> r == Err(d.error))
  {
    var cv :- cur.Read(c.curve.point);
    var anchor :- cur.Read(c.curve.scalar);
    var zkproof :- cur.Read(c.proof);
    r := Ok(ConvertDescription(cv, anchor, zkproof));
  }

  // ---------------------------------------------------------------------
  // OutputDescription

  /** cv ‖ cmu ‖ ephemeral_key ‖ enc_ciphertext ‖ out_ciphertext ‖ zkproof. */
  function EncodeOutput<Proof(!new)>(c: OutputCodecs<Proof>, o: OutputDescription<Proof>): (r: Bytes)
    ensures OutputCodecsLawful(c) ==> |r| == OutputSize(c)
  {
    c.curve.point.encode(o.cv) + c.curve.scalar.encode(o.cmu) + c.epk.encode(o.ephemeral_key)
      + EncCiphertextCodec.encode(o.enc_ciphertext) + OutCiphertextCodec.encode(o.out_ciphertext)
      + c.proof.encode(o.zkproof)
  }

  function DecodeOutput<Proof(!new)>(c: OutputCodecs<Proof>, buf: Bytes): (r: Result<Decoded<OutputDescription<Proof>>>)
    ensures r.Ok? ==> |buf| == OutputSize(c) + |r.value.rest|
  {
    var cv :- ReadField(c.curve.point, buf);
    var cmu :- ReadField(c.curve.scalar, cv.rest);
    var epk :- ReadField(c.epk, cmu.rest);
    var enc :- ReadField(EncCiphertextCodec, epk.rest);
    var out :- ReadField(OutCiphertextCodec, enc.rest);
    var zkproof :- ReadField(c.proof, out.rest);
    Ok(Decoded(OutputDescription(cv.value, cmu.value, epk.value, enc.value, out.value, zkproof.value),
               zkproof.rest))
  }

  lemma OutputEncodingThen<Proof(!new)>(c: OutputCodecs<Proof>, o: OutputDescription<Proof>, tail: Bytes)
    ensures EncodeOutput(c, o) + tail
         == c.curve.point.encode(o.cv) + (c.curve.scalar.encode(o.cmu) + (c.epk.encode(o.ephemeral_key)
              + (EncCiphertextCodec.encode(o.enc_ciphertext) + (OutCiphertextCodec.encode(o.out_ciphertext)
              + (c.proof.encode(o.zkproof) + tail)))))
  {
  }

  /** Fields sit back to back in protocol order; both ciphertexts are
      written raw, without a length prefix, at bytes 96..708 and 708..788. */
  lemma OutputLayout<Proof(!new)>(c: OutputCodecs<Proof>, o: OutputDescription<Proof>)
    requires OutputCodecsLawful(c)
    ensures var e := EncodeOutput(c, o);
            && |e| == 788 + c.proof.width
            && e[..32] == c.curve.point.encode(o.cv)
            && e[32..64] == c.curve.scalar.encode(o.cmu)
            && e[64..96] == c.epk.encode(o.ephemeral_key)
            && e[96..708] == o.enc_ciphertext
            && e[708..788] == o.out_ciphertext
            && e[788..] == c.proof.encode(o.zkproof)
  {
    RawCodecsLawful();
  }

  /** decode(encode(o) ++ rest) gives o back and leaves exactly `rest`. */
  lemma OutputRoundTrip<Proof(!new)>(c: OutputCodecs<Proof>, o: OutputDescription<Proof>, rest: Bytes)
    requires OutputCodecsLawful(c)
    ensures DecodeOutput(c, EncodeOutput(c, o) + rest) == Ok(Decoded(o, rest))
  {
    RawCodecsLawful();
    var t6 := c.proof.encode(o.zkproof) + rest;
    var t5 := OutCiphertextCodec.encode(o.out_ciphertext) + t6;
    var t4 := EncCiphertextCodec.encode(o.enc_ciphertext) + t5;
    var t3 := c.epk.encode(o.ephemeral_key) + t4;
    var t2 := c.curve.scalar.encode(o.cmu) + t3;
    OutputEncodingThen(c, o, rest);
    ReadFieldOfEncoding(c.curve.point, o.cv, t2);
    ReadFieldOfEncoding(c.curve.scalar, o.cmu, t3);
    ReadFieldOfEncoding(c.epk, o.ephemeral_key, t4);
    ReadFieldOfEncoding(EncCiphertextCodec, o.enc_ciphertext, t5);
    ReadFieldOfEncoding(OutCiphertextCodec, o.out_ciphertext, t6);
    ReadFieldOfEncoding(c.proof, o.zkproof, rest);
  }

  /** Every strict prefix of an encoding is rejected as truncated. */
  lemma {:induction false} OutputTruncated<Proof(!new)>(c: OutputCodecs<Proof>, o: OutputDescription<Proof>, k: nat)
    requires OutputCodecsLawful(c)
    requires k < |EncodeOutput(c, o)|
    ensures DecodeOutput(c, EncodeOutput(c, o)[..k]) == Err(Truncated)
  {
    RawCodecsLawful();
    var t6 := c.proof.encode(o.zkproof) + [];
    var t5 := OutCiphertextCodec.encode(o.out_ciphertext) + t6;
    var t4 := EncCiphertextCodec.encode(o.enc_ciphertext) + t5;
    var t3 := c.epk.encode(o.ephemeral_key) + t4;
    var t2 := c.curve.scalar.encode(o.cmu) + t3;
    OutputEncodingThen(c, o, []);
    assert EncodeOutput(c, o) + [] == EncodeOutput(c, o);
    ReadFieldOfPrefix(c.curve.point, o.cv, t2, k);
    if k < 32 { return; }
    ReadFieldOfPrefix(c.curve.scalar, o.cmu, t3, k - 32);
    if k < 64 { return; }
    ReadFieldOfPrefix(c.epk, o.ephemeral_key, t4, k - 64);
    if k < 96 { return; }
    ReadFieldOfPrefix(EncCiphertextCodec, o.enc_ciphertext, t5, k - 96);
    if k < 708 { return; }
    ReadFieldOfPrefix(OutCiphertextCodec, o.out_ciphertext, t6, k - 708);
    if k < 788 { return; }
    ReadFieldOfPrefix(c.proof, o.zkproof, [], k - 788);
  }

  /** Decoding any prefix of an encoding followed by more bytes. */
  lemma DecodeOutputPrefix<Proof(!new)>(c: OutputCodecs<Proof>, o: OutputDescription<Proof>, rest: Bytes, k: nat)
    requires OutputCodecsLawful(c)
    requires k <= |EncodeOutput(c, o) + rest|
    ensures DecodeOutput(c, (EncodeOutput(c, o) + rest)[..k])
         == if k < |EncodeOutput(c, o)| then Err(Truncated) else Ok(Decoded(o, rest[..k - |EncodeOutput(c, o)|]))
  {
    var e := EncodeOutput(c, o);
    if k < |e| {
      assert (e + rest)[..k] == e[..k];
      OutputTruncated(c, o, k);
    } else {
      assert (e + rest)[..k] == e + rest[..k - |e|];
      OutputRoundTrip(c, o, rest[..k - |e|]);
    }
  }

  /** Decoding accepts only canonical encodings. */
  lemma DecodeOutputCanonical<Proof(!new)>(c: OutputCodecs<Proof>, buf: Bytes)
    requires OutputCodecsLawful(c)
    ensures DecodeOutput(c, buf).Ok? ==>
              buf == EncodeOutput(c, DecodeOutput(c, buf).value.value) + DecodeOutput(c, buf).value.rest
  {
    if DecodeOutput(c, buf).Ok? {
      RawCodecsLawful();
      var cv := ReadField(c.curve.point, buf).value;
      var cmu := ReadField(c.curve.scalar, cv.rest).value;
      var epk := ReadField(c.epk, cmu.rest).value;
      var enc := ReadField(EncCiphertextCodec, epk.rest).value;
      var out := ReadField(OutCiphertextCodec, enc.rest).value;
      var zkproof := ReadField(c.proof, out.rest).value;
      var o := OutputDescription(cv.value, cmu.value, epk.value, enc.value, out.value, zkproof.value);
      assert DecodeOutput(c, buf) == Ok(Decoded(o, zkproof.rest));
      OutputEncodingThen(c, o, zkproof.rest);
    }
  }

  /** Input shorter than an output encoding never yields a record. */
  lemma OutputShortInputFails<Proof(!new)>(c: OutputCodecs<Proof>, buf: Bytes)
    requires OutputCodecsLawful(c)
    requires |buf| < OutputSize(c)
    ensures DecodeOutput(c, buf).Err?
  {
    DecodeOutputCanonical(c, buf);
  }

  /** The decoded ciphertexts are the raw bytes at their offsets. */
  lemma OutputCiphertextsVerbatim<Proof(!new)>(c: OutputCodecs<Proof>, buf: Bytes)
    requires OutputCodecsLawful(c)
    requires DecodeOutput(c, buf).Ok?
    ensures |buf| >= 788
    ensures DecodeOutput(c, buf).value.value.enc_ciphertext == buf[96..708]
    ensures DecodeOutput(c, buf).value.value.out_ciphertext == buf[708..788]
  {
    var d := DecodeOutput(c, buf).value;
    DecodeOutputCanonical(c, buf);
    OutputLayout(c, d.value);
  }

  /** A non-canonical cv, or a canonical cv followed by a non-canonical
      cmu, is rejected as malformed. */
  lemma OutputRejectsNonCanonical<Proof(!new)>(c: OutputCodecs<Proof>, buf: Bytes)
    requires OutputCodecsLawful(c)
    requires |buf| >= 32
    ensures c.curve.point.decode(buf[..32]).None? ==> DecodeOutput(c, buf) == Err(Malformed)
    ensures (|buf| >= 64 && c.curve.point.decode(buf[..32]).Some? && c.curve.scalar.decode(buf[32..64]).None?)
            ==> DecodeOutput(c, buf) == Err(Malformed)
  {
    if |buf| >= 64 {
      assert buf[32..][..32] == buf[32..64];
    }
  }

  /** An input at least as long as a output encoding is never reported as
      truncated: a field that fails there is malformed. */
  lemma OutputFullLengthNotTruncated<Proof(!new)>(c: OutputCodecs<Proof>, buf: Bytes)
    requires OutputCodecsLawful(c)
    requires |buf| >= OutputSize(c)
    ensures DecodeOutput(c, buf) != Err(Truncated)
  {
    RawCodecsLawful();
  }

  /** Distinct outputs have distinct encodings. */
  lemma OutputEncodingInjective<Proof(!new)>(c: OutputCodecs<Proof>, o1: OutputDescription<Proof>, o2: OutputDescription<Proof>)
    requires OutputCodecsLawful(c)
    requires EncodeOutput(c, o1) == EncodeOutput(c, o2)
    ensures o1 == o2
  {
    OutputRoundTrip(c, o1, []);
    OutputRoundTrip(c, o2, []);
  }

  /** `BorshSerialize::serialize` for an output: the ciphertexts go out
      through `write_all`, the other fields through their own encoders. */
  method SerializeOutput<Proof(!new)>(c: OutputCodecs<Proof>, o: OutputDescription<Proof>, w: Writer)
    modifies w
    ensures w.written == old(w.written) + EncodeOutput(c, o)
  {
    ghost var e := c.curve.point.encode(o.cv);
    w.WriteAll(c.curve.point.encode(o.cv));
    AppendAssoc(old(w.written), e, c.curve.scalar.encode(o.cmu));
    e := e + c.curve.scalar.encode(o.cmu);
    w.WriteAll(c.curve.scalar.encode(o.cmu));
    AppendAssoc(old(w.written), e, c.epk.encode(o.ephemeral_key));
    e := e + c.epk.encode(o.ephemeral_key);
    w.WriteAll(c.epk.encode(o.ephemeral_key));
    AppendAssoc(old(w.written), e, o.enc_ciphertext);
    e := e + o.enc_ciphertext;
    w.WriteAll(o.enc_ciphertext);
    AppendAssoc(old(w.written), e, o.out_ciphertext);
    e := e + o.out_ciphertext;
    w.WriteAll(o.out_ciphertext);
    AppendAssoc(old(w.written), e, c.proof.encode(o.zkproof));
    e := e + c.proof.encode(o.zkproof);
    w.WriteAll(c.proof.encode(o.zkproof));
  }

  /** `BorshDeserialize::deserialize` for an output. */
  method DeserializeOutput<Proof(!new)>(c: OutputCodecs<Proof>, cur: Cursor)
    returns (r: Result<OutputDescription<Proof>>)
    modifies cur
    ensures var d := DecodeOutput(c, old(cur.buf));
            && (d.Ok? ==> r == Ok(d.value.value) && cur.buf == d.value.rest)
            && (d.Err? ==> r == Err(d.error))
  {
    var cv :- cur.Read(c.curve.point);
    var cmu :- cur.Read(c.curve.scalar);
    var ephemeral_key :- cur.Read(c.epk);
    var enc_ciphertext :- cur.Read(EncCiphertextCodec);
    var out_ciphertext :- cur.Read(OutCiphertextCodec);
    var zkproof :- cur.Read(c.proof);
    r := Ok(OutputDescription(cv, cmu, ephemeral_key, enc_ciphertext, out_ciphertext, zkproof));
  }

  // ---------------------------------------------------------------------

  /** With the codecs of authorized records (a 192-byte Groth proof and a
      64-byte spend authorization signature) the three encodings are 384,
      256 and 980 bytes long, whatever the field values. */
  lemma AuthorizedEncodingSizes<Proof(!new), AuthSig(!new)>(
    sc: SpendCodecs<Proof, AuthSig>, cc: ConvertCodecs<Proof>, oc: OutputCodecs<Proof>,
    s: SpendDescription<Proof, AuthSig>, v: ConvertDescription<Proof>, o: OutputDescription<Proof>)
    requires SpendCodecsLawful(sc) && ConvertCodecsLawful(cc) && OutputCodecsLawful(oc)
    requires sc.proof.width == GROTH_PROOF_SIZE && sc.sig.width == SPEND_AUTH_SIG_SIZE
    requires cc.proof.width == GROTH_PROOF_SIZE && oc.proof.width == GROTH_PROOF_SIZE
    ensures |EncodeSpend(sc, s)| == 384
    ensures |EncodeConvert(cc, v)| == 256
    ensures |EncodeOutput(oc, o)| == 980
  {
  }
}
