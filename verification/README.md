# MASP shielded record codec and signature-hash dispatcher

A Dafny model of two pieces of `masp_primitives`:

- **The canonical Borsh codec of the three shielded action records**
  (`transaction/serialize.rs`): `SpendDescription` (cv ‖ anchor ‖ nullifier ‖
  rk ‖ zkproof ‖ spend_auth_sig), `ConvertDescription` (cv ‖ anchor ‖ zkproof)
  and `OutputDescription` (cv ‖ cmu ‖ ephemeral_key ‖ enc_ciphertext ‖
  out_ciphertext ‖ zkproof). Every field has a fixed width and no length prefix.
  The encoders append field by field to a writer. The decoders read field by
  field from an advancing `&mut &[u8]` cursor and stop at the first failing
  field, so no partial record is ever built.
- **The signable-input descriptor and the signature-hash dispatcher**
  (`transaction/sighash.rs`): the `SIGHASH_*` flags, `SignableInput::hash_type`,
  `SignatureHash::as_ref` and `signature_hash`. The dispatcher is an
  exhaustive match on the transaction version, with no fallback arm.

Files:

- `field_codec.dfy` (module `FieldCodec`) defines the bytes, the error kinds
  (`Truncated`, `Malformed`) and `Result`. It also defines a fixed-width field
  codec `Codec<T>` (width, encoder, partial decoder) with its contract
  `Lawful`: fixed width, round trip, and canonicality, meaning the decoder
  accepts only the encoding of the value it returns. `ReadField` is one field
  read. The concrete raw-array codecs cover the 32-byte nullifier and the
  612-byte and 80-byte note ciphertexts. The `Writer` sink and the `Cursor`
  are small classes.
- `serialize.dfy` (module `Serialize`) defines the three records. For each
  one, `EncodeX`/`DecodeX` are pure functions stating what the bytes are.
  The methods `SerializeX`/`DeserializeX` run on a `Writer`/`Cursor` one field
  at a time and are proved to agree with those functions. The lemmas cover
  layout, round trip, exact consumption, truncation, canonicality, rejection
  of non-canonical points and scalars, and injectivity.
- `sighash.dfy` (module `Sighash`) holds the flags, `HashType`, `AsRef` and
  the dispatcher `SignatureHashOf`.

Collaborators outside this model are passed in as values. These are the
curve-point and scalar encodings of `group::GroupEncoding` together with
`deserialize_extended_point` and `deserialize_scalar`, the Borsh codecs of
`rk`, `zkproof`, `spend_auth_sig` and `ephemeral_key`, and `v5_signature_hash`.
What the codecs are assumed to promise is the precondition `Lawful` (through
`SpendCodecsLawful`, `ConvertCodecsLawful` and `OutputCodecsLawful`). Points
and scalars are 32 bytes wide. The proof and signature widths are left
generic, as the Rust types are generic over the authorization stage.
`AuthorizedEncodingSizes` fixes them at 192 (`GrothProofBytes`) and 64.

## Model

| member | source | states |
|---|---|---|
| `FieldCodec.ReadField` | masp_primitives/src/transaction/serialize.rs:34-40 | A field read fails as truncated exactly when fewer than `width` bytes remain. A successful read consumes exactly `width` bytes. With a lawful codec, a successful read consumed exactly the canonical encoding of the value it returned. |
| `FieldCodec.ReadFieldOfPrefix` | masp_primitives/src/transaction/serialize.rs:34-40 | Reading a k-byte prefix of encoding ‖ tail is `Truncated` when k < width. Otherwise it returns the value and the matching prefix of tail. |
| `FieldCodec.ReadFieldOfEncoding` | masp_primitives/src/transaction/serialize.rs:34-40 | Reading a whole field encoding followed by more bytes returns the encoded value and leaves exactly those bytes. |
| `FieldCodec.RawCodecsLawful` | masp_primitives/src/transaction/serialize.rs:36-37 | The raw `[u8; N]` codecs (nullifier, both ciphertexts) satisfy the codec contract. They accept every full-width block unchanged, so a raw field can only fail by truncation. |
| `FieldCodec.Writer.WriteAll` | masp_primitives/src/transaction/serialize.rs:97-98 | `write_all` appends exactly the given bytes to the sink. |
| `FieldCodec.Cursor.Read` | masp_primitives/src/transaction/serialize.rs:34-40 | One cursor read returns what `ReadField` returns. On success the cursor is left just past the field. |
| `Serialize.EncodeSpend` | masp_primitives/src/transaction/serialize.rs:18-25 | A spend encoding has length `SpendSize`, the sum of the field widths, whatever the field values. |
| `Serialize.DecodeSpend` | masp_primitives/src/transaction/serialize.rs:33-49 | Reads cv, anchor, nullifier, rk, zkproof, spend_auth_sig in that order, stopping at the first failing field with that field's error and no partial record. Its contract: a successful decode consumed exactly `SpendSize` bytes and returns the bytes after them. Its results on valid, truncated, short, full-length and non-canonical input are stated by `DecodeSpendPrefix`, `SpendRoundTrip`, `DecodeSpendCanonical`, `SpendTruncated`, `SpendShortInputFails`, `SpendFullLengthNotTruncated` and `SpendRejectsNonCanonical`. |
| `Serialize.SpendLayout` | masp_primitives/src/transaction/serialize.rs:18-25 | Spend fields sit back to back in the order cv, anchor, nullifier, rk, zkproof, spend_auth_sig, at offsets 0, 32, 64, 96, 128 and 128 + the proof width. The nullifier is bytes 64..96 verbatim. |
| `Serialize.DecodeSpendPrefix` | masp_primitives/src/transaction/serialize.rs:33-49 | Decoding any k-byte prefix of encode(s) ‖ rest is `Truncated` when k < len(encode(s)). Otherwise it gives s and leaves exactly the corresponding prefix of rest. |
| `Serialize.SpendRoundTrip` | masp_primitives/src/transaction/serialize.rs:121-127 | decode(encode(s) ‖ rest) = (s, rest): the round trip holds and the decoder consumes exactly the encoded prefix. |
| `Serialize.SpendTruncated` | masp_primitives/src/transaction/serialize.rs:33-40 | Every strict prefix of a spend encoding, including the encoding with its last byte dropped, fails as `Truncated`. |
| `Serialize.DecodeSpendCanonical` | masp_primitives/src/transaction/serialize.rs:33-49 | Whenever spend decoding succeeds, the consumed bytes are exactly the encoding of the returned record, so only canonical input is accepted. |
| `Serialize.SpendShortInputFails` | masp_primitives/src/transaction/serialize.rs:33-40 | Input shorter than `SpendSize` never yields a spend. |
| `Serialize.SpendNullifierVerbatim` | masp_primitives/src/transaction/serialize.rs:36-37 | A decoded nullifier is exactly the 32 raw input bytes at offset 64, with no validation or transformation. |
| `Serialize.SpendRejectsNonCanonical` | masp_primitives/src/transaction/serialize.rs:34-35 | On any input of 32 bytes or more, a non-canonical cv makes spend decoding fail as `Malformed`. On 64 bytes or more, so does a canonical cv followed by a non-canonical anchor. |
| `Serialize.SpendFullLengthNotTruncated` | masp_primitives/src/transaction/serialize.rs:33-40 | With lawful codecs, input of at least `SpendSize` bytes never fails as `Truncated`: it either decodes or is `Malformed`. |
| `Serialize.SpendEncodingInjective` | masp_primitives/src/transaction/serialize.rs:18-25 | Two spends with the same encoding are equal. |
| `Serialize.SerializeSpend` | masp_primitives/src/transaction/serialize.rs:18-25 | Serializing a spend appends exactly `EncodeSpend` to the writer. |
| `Serialize.DeserializeSpend` | masp_primitives/src/transaction/serialize.rs:33-49 | Deserializing from a cursor returns `DecodeSpend`'s record or error. On success the cursor is left at the rest. |
| `Serialize.EncodeConvert` | masp_primitives/src/transaction/serialize.rs:53-57 | A convert encoding has length `ConvertSize` whatever the field values. |
| `Serialize.DecodeConvert` | masp_primitives/src/transaction/serialize.rs:61-70 | Reads cv, anchor, zkproof in that order, stopping at the first failing field with that field's error and no partial record. Its contract: a successful decode consumed exactly `ConvertSize` bytes and returns the bytes after them. Its results on valid, truncated, short, full-length and non-canonical input are stated by `DecodeConvertPrefix`, `ConvertRoundTrip`, `DecodeConvertCanonical`, `ConvertTruncated`, `ConvertShortInputFails`, `ConvertFullLengthNotTruncated` and `ConvertRejectsNonCanonical`. |
| `Serialize.ConvertLayout` | masp_primitives/src/transaction/serialize.rs:53-57 | Convert fields sit in the order cv, anchor, zkproof, at offsets 0, 32 and 64, with nothing between them. |
| `Serialize.DecodeConvertPrefix` | masp_primitives/src/transaction/serialize.rs:61-70 | Decoding a k-byte prefix of encode(v) ‖ rest is `Truncated` when k < len(encode(v)). Otherwise it gives v and the matching prefix of rest. |
| `Serialize.ConvertRoundTrip` | masp_primitives/src/transaction/serialize.rs:144-150 | decode(encode(v) ‖ rest) = (v, rest). |
| `Serialize.ConvertTruncated` | masp_primitives/src/transaction/serialize.rs:61-64 | Every strict prefix of a convert encoding fails as `Truncated`. |
| `Serialize.DecodeConvertCanonical` | masp_primitives/src/transaction/serialize.rs:61-70 | A successful convert decode consumed exactly the encoding of the returned record. |
| `Serialize.ConvertShortInputFails` | masp_primitives/src/transaction/serialize.rs:61-64 | Input shorter than `ConvertSize` never yields a convert. |
| `Serialize.ConvertRejectsNonCanonical` | masp_primitives/src/transaction/serialize.rs:62-63 | On any input of 32 bytes or more, a non-canonical cv makes convert decoding fail as `Malformed`. On 64 bytes or more, so does a canonical cv followed by a non-canonical anchor. |
| `Serialize.ConvertFullLengthNotTruncated` | masp_primitives/src/transaction/serialize.rs:61-64 | With lawful codecs, input of at least `ConvertSize` bytes never fails as `Truncated`. |
| `Serialize.ConvertEncodingInjective` | masp_primitives/src/transaction/serialize.rs:53-57 | Two converts with the same encoding are equal. |
| `Serialize.SerializeConvert` | masp_primitives/src/transaction/serialize.rs:53-57 | Serializing a convert appends exactly `EncodeConvert` to the writer. |
| `Serialize.DeserializeConvert` | masp_primitives/src/transaction/serialize.rs:61-70 | Deserializing a convert returns `DecodeConvert`'s record or error. On success the cursor is left at the rest. |
| `Serialize.EncodeOutput` | masp_primitives/src/transaction/serialize.rs:93-101 | An output encoding has length `OutputSize` whatever the field values. |
| `Serialize.DecodeOutput` | masp_primitives/src/transaction/serialize.rs:74-89 | Reads cv, cmu, ephemeral_key, enc_ciphertext, out_ciphertext, zkproof in that order, stopping at the first failing field with that field's error and no partial record. Its contract: a successful decode consumed exactly `OutputSize` bytes and returns the bytes after them. Its results on valid, truncated, short, full-length and non-canonical input are stated by `DecodeOutputPrefix`, `OutputRoundTrip`, `DecodeOutputCanonical`, `OutputTruncated`, `OutputShortInputFails`, `OutputFullLengthNotTruncated` and `OutputRejectsNonCanonical`. |
| `Serialize.OutputLayout` | masp_primitives/src/transaction/serialize.rs:93-101 | Output fields sit in the order cv, cmu, ephemeral_key, enc_ciphertext, out_ciphertext, zkproof. Both ciphertexts are raw, with no length prefix, at bytes 96..708 and 708..788. |
| `Serialize.DecodeOutputPrefix` | masp_primitives/src/transaction/serialize.rs:74-89 | Decoding a k-byte prefix of encode(o) ‖ rest is `Truncated` when k < len(encode(o)). Otherwise it gives o and the matching prefix of rest. |
| `Serialize.OutputRoundTrip` | masp_primitives/src/transaction/serialize.rs:133-139 | decode(encode(o) ‖ rest) = (o, rest). |
| `Serialize.OutputTruncated` | masp_primitives/src/transaction/serialize.rs:74-80 | Every strict prefix of an output encoding fails as `Truncated`. |
| `Serialize.DecodeOutputCanonical` | masp_primitives/src/transaction/serialize.rs:74-89 | A successful output decode consumed exactly the encoding of the returned record. |
| `Serialize.OutputShortInputFails` | masp_primitives/src/transaction/serialize.rs:74-80 | Input shorter than `OutputSize` never yields an output. |
| `Serialize.OutputCiphertextsVerbatim` | masp_primitives/src/transaction/serialize.rs:78-79 | Decoded ciphertexts are exactly the raw input bytes at 96..708 and 708..788. |
| `Serialize.OutputRejectsNonCanonical` | masp_primitives/src/transaction/serialize.rs:75-76 | On any input of 32 bytes or more, a non-canonical cv makes output decoding fail as `Malformed`. On 64 bytes or more, so does a canonical cv followed by a non-canonical cmu. |
| `Serialize.OutputFullLengthNotTruncated` | masp_primitives/src/transaction/serialize.rs:74-80 | With lawful codecs, input of at least `OutputSize` bytes never fails as `Truncated`. |
| `Serialize.OutputEncodingInjective` | masp_primitives/src/transaction/serialize.rs:93-101 | Two outputs with the same encoding are equal. |
| `Serialize.SerializeOutput` | masp_primitives/src/transaction/serialize.rs:93-101 | Serializing an output appends exactly `EncodeOutput` to the writer. |
| `Serialize.DeserializeOutput` | masp_primitives/src/transaction/serialize.rs:74-89 | Deserializing an output returns `DecodeOutput`'s record or error. On success the cursor is left at the rest. |
| `Serialize.AuthorizedEncodingSizes` | masp_primitives/src/transaction/serialize.rs:19-24 | With a 192-byte proof and a 64-byte signature, the spend, convert and output encodings are 384, 256 and 980 bytes. |
| `Sighash.HashType` | masp_primitives/src/transaction/sighash.rs:33-38 | `hash_type` is `SIGHASH_ALL` for a shielded input. For a transparent input it is the stored flag byte, unchanged. |
| `Sighash.FlagConstants` | masp_primitives/src/transaction/sighash.rs:17-21 | ALL, NONE and SINGLE are distinct and unchanged by `SIGHASH_MASK`. `SIGHASH_ANYONECANPAY & SIGHASH_MASK == 0`. |
| `Sighash.AnyoneCanPayKeepsBaseType` | masp_primitives/src/transaction/sighash.rs:20-21 | OR-ing ANYONECANPAY into any flag byte sets that bit and leaves the masked base type unchanged. |
| `Sighash.ShieldedSignsAll` | masp_primitives/src/transaction/sighash.rs:35 | A shielded input's hash type is 0x01, with base type ALL and no ANYONECANPAY. |
| `Sighash.TransparentHashTypePassThrough` | masp_primitives/src/transaction/sighash.rs:36 | A transparent flag byte 0x83 comes back as 0x83, which is SINGLE with ANYONECANPAY. |
| `Sighash.HashTypeIgnoresIndexAndValue` | masp_primitives/src/transaction/sighash.rs:23-38 | A transparent input's hash type is its flag byte, whatever its index and value. |
| `Sighash.AsRef` | masp_primitives/src/transaction/sighash.rs:43-47 | `as_ref` exposes the digest itself as exactly 32 bytes. |
| `Sighash.SignatureHashOf` | masp_primitives/src/transaction/sighash.rs:57-69 | `signature_hash` always yields a 32-byte digest. For a `MASPv5` transaction (the only version) that digest is `v5_signature_hash(tx, input, parts)`. |
| `Sighash.SignedBytesAreV5Digest` | masp_primitives/src/transaction/sighash.rs:41-69 | The 32 bytes that `as_ref` exposes from `signature_hash` are exactly the v5 digest of the same transaction, input and digest parts. |
| `Sighash.SignatureHashOnlyThroughAlgorithm` | masp_primitives/src/transaction/sighash.rs:66-68 | The dispatcher depends on the version algorithm only through its value on these inputs, so it is deterministic and has no other path. |

## Left out

- Curve and scalar arithmetic, and the canonical-form checks of `to_bytes`, `deserialize_extended_point` and `deserialize_scalar`: these are foreign. They are codec values whose contract (`Lawful`) is a hypothesis of every lemma, not something proved. `transaction/util.rs` is not part of this model.
- `deserialize_array` (the two note ciphertexts) is modelled as a raw N-byte copy with no validation (`EncCiphertextCodec`, `OutCiphertextCodec`), and `RawCodecsLawful` proves those codecs lawful. It mirrors the `write_all` of the encode side (serialize.rs:97-98), and the output round trip (serialize.rs:133-138) needs it to accept any ciphertext. Its own definition is in `transaction/util.rs`, which is not part of this model.
- The Borsh sub-codecs of `rk`, `zkproof`, `spend_auth_sig` and `ephemeral_key`: they are opaque fixed-width codecs under the same hypothesis. The rk and ephemeral key are taken to be 32 bytes wide. Proof and signature widths are parameters.
- The ciphertext sizes 612 (`ENC_CIPHERTEXT_SIZE`) and 80 (`OUT_CIPHERTEXT_SIZE`) are MASP note-encryption constants. The crate that defines them is not part of this model.
- `FieldCodec.Cursor.Read`: leaves the cursor position after a failed read unspecified, and so does every `DeserializeX`. How far the foreign field decoders advance before failing is not visible here. A caller rejects the input either way.
- `FieldCodec.Writer.WriteAll`: the I/O errors a Borsh `Write` sink may return are not modelled. The sink is an in-memory buffer that cannot fail.
- The `Authorization` trait and its stages (unproven / authorized) are reduced to the two type parameters `Proof` and `AuthSig` and their codecs.
- `TransparentAuthorizingContext`: a marker trait with no fields or methods. It only restricts which authorization types may be passed, so it has nothing to model.
- `v5_signature_hash`, BLAKE2b and the ZIP 244 digest tree are external hashing. They are a function parameter returning 32 bytes. The test-vector regression and the independence of one input's sighash from another input's signature are properties of that algorithm, and neither is modelled.
- The transaction's fields other than its version, the `TxDigests` parts and the `Amount` of a transparent input are opaque types.
- `Sighash.AsRef`: the panic of `try_into().unwrap()` on a digest that is not 32 bytes long is a precondition, not a modelled failure. `SignatureHashOf` always yields 32 bytes, so the precondition holds on every hash the dispatcher produces.
- The `zfuture` feature gate in `sighash.rs`.
- Bundle-level serialization: its round-trip test is commented out in `serialize.rs`, and the bundle layout is not assumed.
- The proptest cases and the arbitrary-value generators. Their round-trip assertions are stated as the `SpendRoundTrip`, `ConvertRoundTrip` and `OutputRoundTrip` lemmas.
- `lib.rs`: only module declarations and crate attributes.
