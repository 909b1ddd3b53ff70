/** ethers' `utils.base58`, which this model does not implement: the caller
    hands in the encoder and decoder, and the lemmas state which laws of the
    library they rely on. */
module Base58 {
  import opened Wrappers

  /** `encode` turns bytes into base58 text; `decode` returns `None` where the
      library throws (a character outside the base58 alphabet). */
  datatype Codec = Codec(encode: seq<bv8> -> string, decode: string -> Option<seq<bv8>>)

  /** Decoding encoded bytes gives the same bytes back. */
  ghost predicate Inverse(c: Codec)
  {
    forall b :: c.decode(c.encode(b)) == Some(b)
  }

  /** Text that decodes is the encoding of its bytes: base58 without a checksum
      spells each byte sequence in exactly one way. */
  ghost predicate Canonical(c: Codec)
  {
    forall s :: c.decode(s).Some? ==> c.encode(c.decode(s).value) == s
  }
}
