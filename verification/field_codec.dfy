/** Fixed-width field codecs and the byte sink / byte cursor that the
    Borsh record codecs of `transaction/serialize.rs` are written against.

    A field codec is the boundary with a collaborator this model does not
    contain (the curve-point and scalar encodings of `group::GroupEncoding`,
    `deserialize_extended_point`, `deserialize_scalar`, and the Borsh codecs
    of `rk`, `zkproof`, `spend_auth_sig` and `ephemeral_key`). Each is given
    as a value: a fixed width, a total encoder and a partial decoder. What
    those collaborators promise is the predicate `Lawful`. */
module FieldCodec {

  type byte = bv8
  type Bytes = seq<byte>

  /** The two ways a record decode can fail. */
  datatype Error =
    | Truncated   // fewer bytes remain than the next field needs
    | Malformed   // the field has its full width but is not a canonical value

  datatype Result<T> = Ok(value: T) | Err(error: Error) {
    predicate IsFailure() { Err? }
    function PropagateFailure<U>(): Result<U>
      requires Err?
    {
      Err(error)
    }
    function Extract(): T
      requires Ok?
    {
      value
    }
  }

  datatype Option<T> = None | Some(value: T)

  /** A decoded value together with the bytes left after it. */
  datatype Decoded<T> = Decoded(value: T, rest: Bytes)

  /** A fixed-width codec for values of type T. */
  datatype Codec<!T> = Codec(width: nat, encode: T -> Bytes, decode: Bytes -> Option<T>)

  /** What a field codec promises: every value encodes to exactly `width`
      bytes, decoding an encoding gives the value back, and decoding accepts
      only canonical encodings (a byte string it accepts is the encoding of
      the value it returns). */
  ghost predicate Lawful<T(!new)>(c: Codec<T>) {
    && (forall x :: |c.encode(x)| == c.width)
    && (forall x :: c.decode(c.encode(x)) == Some(x))
    && (forall b :: c.decode(b).Some? ==> c.encode(c.decode(b).value) == b)
  }

  /** Reads one field from the front of `buf`: `width` bytes are taken off,
      or the read fails as truncated; a taken block the codec rejects fails
      as malformed. */
  function ReadField<T(!new)>(c: Codec<T>, buf: Bytes): (r: Result<Decoded<T>>)
    ensures |buf| < c.width <==> r == Err(Truncated)
    ensures r.Ok? ==> |buf| == c.width + |r.value.rest|
    ensures Lawful(c) && r.Ok? ==> buf == c.encode(r.value.value) + r.value.rest
  {
    if |buf| < c.width then Err(Truncated)
    else match c.decode(buf[..c.width])
      case None => Err(Malformed)
      case Some(v) => Ok(Decoded(v, buf[c.width..]))
  }

  /** Reading a whole encoding followed by more bytes yields the value and
      leaves exactly those bytes. */
  lemma ReadFieldOfEncoding<T(!new)>(c: Codec<T>, x: T, tail: Bytes)
    requires Lawful(c)
    ensures ReadField(c, c.encode(x) + tail) == Ok(Decoded(x, tail))
  {
    assert (c.encode(x) + tail)[..c.width] == c.encode(x);
    assert (c.encode(x) + tail)[c.width..] == tail;
  }

  /** Reading any prefix of an encoding followed by more bytes: a prefix
      shorter than the field is truncated, a longer one yields the value and
      the corresponding prefix of what followed. */
  lemma ReadFieldOfPrefix<T(!new)>(c: Codec<T>, x: T, tail: Bytes, k: nat)
    requires Lawful(c)
    requires k <= |c.encode(x) + tail|
    ensures ReadField(c, (c.encode(x) + tail)[..k])
         == if k < c.width then Err(Truncated) else Ok(Decoded(x, tail[..k - c.width]))
  {
    var buf := (c.encode(x) + tail)[..k];
    if k >= c.width {
      assert buf[..c.width] == c.encode(x);
      assert buf[c.width..] == tail[..k - c.width];
    }
  }

  /** Regrouping a concatenation. */
  lemma AppendAssoc(a: Bytes, b: Bytes, c: Bytes)
    ensures a + (b + c) == (a + b) + c
  {
  }

  /** Fixed-size raw byte arrays, copied verbatim. */
  type Nullifier = b: Bytes | |b| == 32 witness seq(32, _ => 0)
  const ENC_CIPHERTEXT_SIZE: nat := 612
  const OUT_CIPHERTEXT_SIZE: nat := 80
  type EncCiphertext = b: Bytes | |b| == ENC_CIPHERTEXT_SIZE witness seq(612, _ => 0)
  type OutCiphertext = b: Bytes | |b| == OUT_CIPHERTEXT_SIZE witness seq(80, _ => 0)

  /** Borsh `[u8; 32]`: 32 raw bytes, no length prefix, no validation. */
  const NullifierCodec: Codec<Nullifier> :=
    Codec(32, (n: Nullifier) => n, (b: Bytes) => if |b| == 32 then var v: Nullifier := b; Some(v) else None)

  /** `write_all` of the note ciphertext / `deserialize_array`. */
  const EncCiphertextCodec: Codec<EncCiphertext> :=
    Codec(ENC_CIPHERTEXT_SIZE, (e: EncCiphertext) => e,
          (b: Bytes) => if |b| == ENC_CIPHERTEXT_SIZE then var v: EncCiphertext := b; Some(v) else None)

  /** `write_all` of the outgoing ciphertext / `deserialize_array`. */
  const OutCiphertextCodec: Codec<OutCiphertext> :=
    Codec(OUT_CIPHERTEXT_SIZE, (o: OutCiphertext) => o,
          (b: Bytes) => if |b| == OUT_CIPHERTEXT_SIZE then var v: OutCiphertext := b; Some(v) else None)

  /** The raw array codecs keep their promise, and the decoder never rejects
      a full-width block: a raw field can only fail by truncation. */
  lemma RawCodecsLawful()
    ensures Lawful(NullifierCodec) && Lawful(EncCiphertextCodec) && Lawful(OutCiphertextCodec)
    ensures forall b: Bytes :: |b| == 32 ==> NullifierCodec.decode(b).Some? && NullifierCodec.decode(b).value == b
    ensures forall b: Bytes :: |b| == ENC_CIPHERTEXT_SIZE ==> EncCiphertextCodec.decode(b).Some? && EncCiphertextCodec.decode(b).value == b
    ensures forall b: Bytes :: |b| == OUT_CIPHERTEXT_SIZE ==> OutCiphertextCodec.decode(b).Some? && OutCiphertextCodec.decode(b).value == b
  {
  }

  /** The `writer` sink a record is serialized into. Writing to an in-memory
      buffer cannot fail, so the sink is infallible. */
  class Writer {
    var written: Bytes

    constructor ()
      ensures written == []
    {
      written := [];
    }

    /** `write_all`, and the Borsh encoding of a field: appends its bytes. */
    method WriteAll(data: Bytes)
      modifies this
      ensures written == old(written) + data
    {
      written := written + data;
    }
  }

  /** The `buf: &mut &[u8]` cursor a record is deserialized from. */
  class Cursor {
    var buf: Bytes

    constructor (input: Bytes)
      ensures buf == input
    {
      buf := input;
    }

    /** One field read: on success the cursor moves past the field's bytes. */
    method Read<T(!new)>(c: Codec<T>) returns (r: Result<T>)
      modifies this
      ensures var d := ReadField(c, old(buf));
              && (d.Ok? ==> r == Ok(d.value.value) && buf == d.value.rest)
              && (d.Err? ==> r == Err(d.error))
    {
      var d := ReadField(c, buf);
      match d
      case Ok(Decoded(v, rest)) =>
        buf := rest;
        r := Ok(v);
      case Err(e) =>
        r := Err(e);
    }
  }
}
