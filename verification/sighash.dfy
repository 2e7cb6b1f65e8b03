/** The signable-input descriptor and the signature-hash dispatcher
    (`transaction/sighash.rs`).

    The version-specific digest algorithm (`v5_signature_hash`: BLAKE2b over
    the ZIP 244 digest tree) is a collaborator outside this model; the
    dispatcher receives it as a function value that yields 32 bytes. */
module Sighash {
  import opened FieldCodec

  /** Signature hash-type flags. The low five bits select the base type;
      ANYONECANPAY is an independent modifier bit. */
  const SIGHASH_ALL: bv8 := 0x01
  const SIGHASH_NONE: bv8 := 0x02
  const SIGHASH_SINGLE: bv8 := 0x03
  const SIGHASH_MASK: bv8 := 0x1f
  const SIGHASH_ANYONECANPAY: bv8 := 0x80

  type usize = x: int | 0 <= x < 0x1_0000_0000_0000_0000

  /** The value of a transparent input; its representation is not part of
      this model. */
  type Amount(!new)

  /** What a signature authorizes: a shielded action, or one transparent
      input together with its hash-type flags and value. */
  datatype SignableInput =
    | Shielded
    | Transparent(hash_type: bv8, index: usize, value: Amount)

  /** `SignableInput::hash_type`: a shielded signature commits to
      everything; a transparent one uses its own flags. */
  function HashType(input: SignableInput): (r: bv8)
    ensures input.Shielded? ==> r == SIGHASH_ALL
    ensures input.Transparent? ==> r == input.hash_type
  {
    match input
    case Shielded => SIGHASH_ALL
    case Transparent(hash_type, _, _) => hash_type
  }

  /** The base types are distinct and lie within the mask, and the
      ANYONECANPAY bit lies outside it. */
  lemma FlagConstants()
    ensures SIGHASH_ALL != SIGHASH_NONE && SIGHASH_NONE != SIGHASH_SINGLE && SIGHASH_ALL != SIGHASH_SINGLE
    ensures SIGHASH_ALL & SIGHASH_MASK == SIGHASH_ALL
    ensures SIGHASH_NONE & SIGHASH_MASK == SIGHASH_NONE
    ensures SIGHASH_SINGLE & SIGHASH_MASK == SIGHASH_SINGLE
    ensures SIGHASH_ANYONECANPAY & SIGHASH_MASK == 0
  {
  }

  /** Adding ANYONECANPAY to any flag byte leaves its masked base type as
      it was. */
  lemma AnyoneCanPayKeepsBaseType(h: bv8)
    ensures (h | SIGHASH_ANYONECANPAY) & SIGHASH_MASK == h & SIGHASH_MASK
    ensures (h | SIGHASH_ANYONECANPAY) & SIGHASH_ANYONECANPAY == SIGHASH_ANYONECANPAY
  {
  }

  /** A shielded signing context is SIGHASH_ALL (0x01): base type ALL and no
      ANYONECANPAY, so it commits to every input and output. */
  lemma ShieldedSignsAll()
    ensures HashType(Shielded) == 0x01
    ensures HashType(Shielded) & SIGHASH_MASK == SIGHASH_ALL
    ensures HashType(Shielded) & SIGHASH_ANYONECANPAY == 0
  {
  }

  /** A transparent input's flags pass through unchanged and uninterpreted:
      0x83 stays 0x83, that is SINGLE with ANYONECANPAY. */
  lemma TransparentHashTypePassThrough(index: usize, value: Amount)
    ensures HashType(Transparent(0x83, index, value)) == 0x83
    ensures HashType(Transparent(0x83, index, value)) == SIGHASH_SINGLE | SIGHASH_ANYONECANPAY
    ensures HashType(Transparent(0x83, index, value)) & SIGHASH_MASK == SIGHASH_SINGLE
  {
  }

  /** The hash type of a transparent input depends on its flags alone, not
      on which input it is or what it is worth. */
  lemma HashTypeIgnoresIndexAndValue(h: bv8, i1: usize, v1: Amount, i2: usize, v2: Amount)
    ensures HashType(Transparent(h, i1, v1)) == HashType(Transparent(h, i2, v2)) == h
  {
  }

  /** A BLAKE2b digest has between 1 and 64 bytes. */
  type Blake2bHash = s: Bytes | 1 <= |s| <= 64 witness [0]
  type Hash32 = s: Bytes | |s| == 32 witness seq(32, _ => 0)

  datatype SignatureHash = SignatureHash(digest: Blake2bHash)

  /** `AsRef<[u8; 32]> for SignatureHash`: the conversion to a 32-byte array
      panics on any other digest length. */
  function AsRef(h: SignatureHash): (r: Hash32)
    requires |h.digest| == 32
    ensures r == h.digest
  {
    h.digest
  }

  /** The closed set of transaction versions: one today. */
  datatype TxVersion = MASPv5

  /** Transaction fields other than the version, and the precomputed digest
      parts of the transaction id; neither is interpreted here. */
  type TxBody(!new)
  type TxDigests(!new)

  datatype TransactionData = TransactionData(version: TxVersion, body: TxBody)

  /** The version 5 digest algorithm, as a collaborator. */
  type V5SignatureHash = (TransactionData, SignableInput, TxDigests) -> Hash32

  /** `signature_hash`: an exhaustive match on the version, one algorithm
      per version and no fallback. */
  function SignatureHashOf(tx: TransactionData, input: SignableInput, parts: TxDigests, v5: V5SignatureHash): (r: SignatureHash)
    ensures |r.digest| == 32
    ensures tx.version == MASPv5 ==> r.digest == v5(tx, input, parts)
  {
    SignatureHash(
      match tx.version
      case MASPv5 => v5(tx, input, parts))
  }

  /** The 32 bytes that get signed are exactly the v5 digest of the same
      transaction, input and digest parts. */
  lemma SignedBytesAreV5Digest(tx: TransactionData, input: SignableInput, parts: TxDigests, v5: V5SignatureHash)
    ensures |SignatureHashOf(tx, input, parts, v5).digest| == 32
    ensures AsRef(SignatureHashOf(tx, input, parts, v5)) == v5(tx, input, parts)
  {
  }

  /** The result depends on the digest algorithm only through its value on
      these inputs: two algorithms that agree there give the same hash. */
  lemma SignatureHashOnlyThroughAlgorithm(tx: TransactionData, input: SignableInput, parts: TxDigests,
                                          f: V5SignatureHash, g: V5SignatureHash)
    requires f(tx, input, parts) == g(tx, input, parts)
    ensures SignatureHashOf(tx, input, parts, f) == SignatureHashOf(tx, input, parts, g)
  {
  }
}
