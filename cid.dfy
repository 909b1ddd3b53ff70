/** The content-identifier codec: conversion between the on-chain multihash
    record (digest, hashFunction, size) and base58 multihash text whose bytes
    are laid out as [hashFunction:1][size:1][digest:N]. */
module Cid {
  import opened Wrappers
  import opened Hex
  import Base58

  /** The record both directions exchange. `hashFunction` and `size` are
      BigNumbers (arbitrary precision, signed); `digest` is "0x"-prefixed hex. */
  datatype Multihash = Multihash(digest: string, hashFunction: int, size: int)

  /** What the two directions throw. */
  datatype CidError =
    | InvalidBase58  // base58 decoding meets a character outside the alphabet
    | MissingHeader  // a header byte is missing, so `BigNumber.from(undefined)` throws
    | SizeOverflow   // `size.toNumber()` is asked for a value beyond the safe-integer range

  /** JavaScript's `Number.MAX_SAFE_INTEGER`, 2^53 - 1. */
  const MaxSafeInteger: int := 0x1F_FFFF_FFFF_FFFF

  /** The values `BigNumber.toNumber()` returns instead of throwing. */
  predicate IsSafeInteger(x: int)
  {
    -MaxSafeInteger <= x <= MaxSafeInteger
  }

  /** The byte a typed-array element holds once the integer `v` is stored in it. */
  function ToUint8(v: int): (r: bv8)
    ensures r as int == v % 256
    ensures 0 <= v < 256 ==> r as int == v
  {
    var n := v % 256;
    assert (n as bv8) as int == n;
    n as bv8
  }

  /** JavaScript's `s.slice(2)`: the text after its first two characters. */
  function DropPrefix(s: string): (r: string)
    ensures |s| >= 2 ==> s == s[..2] + r
    ensures |s| <= 2 ==> r == ""
  {
    if |s| < 2 then "" else s[2..]
  }

  /** The bytes the encoder hands to base58: the two header bytes, then the digest. */
  function Pack(hashFunction: int, size: int, hashBytes: seq<bv8>): seq<bv8>
  {
    [ToUint8(hashFunction), ToUint8(size)] + hashBytes
  }

  /** The record the decoder builds from base58-decoded bytes `d`: byte 0 is
      the hash function, byte 1 the size, the rest the digest as hex. */
  function Unpack(d: seq<bv8>): (r: Result<Multihash, CidError>)
    ensures r.Success? <==> |d| >= 2
    ensures r.Failure? ==> r.error == MissingHeader
    ensures r.Success? ==> r.value.hashFunction == d[0] as int && r.value.size == d[1] as int
    ensures r.Success? ==> 0 <= r.value.hashFunction < 256 && 0 <= r.value.size < 256
    ensures r.Success? ==> IsHexDigest(r.value.digest) && |r.value.digest| == 2 + 2 * (|d| - 2)
    ensures r.Success? ==> FromHex(DropPrefix(r.value.digest)) == d[2..]
  {
    if |d| < 2 then Failure(MissingHeader)
    else
      FromHexToHex(d[2..]);
      Success(Multihash(Hexlify(d[2..]), d[0] as int, d[1] as int))
  }

  /** `getBytes32FromMultiash`: base58 text to the on-chain record. */
  function GetBytes32FromMultiash(codec: Base58.Codec, multihash: string): (r: Result<Multihash, CidError>)
    ensures r == Failure(InvalidBase58) <==> codec.decode(multihash).None?
    ensures codec.decode(multihash).Some? ==> r == Unpack(codec.decode(multihash).value)
  {
    match codec.decode(multihash)
    case None => Failure(InvalidBase58)
    case Some(decoded) => Unpack(decoded)
  }

  /** What `getMultihashFromBytes32` returns: `null` (here `None`) exactly for
      size 0, otherwise the base58 text of the packed bytes. */
  function EncodedMultihash(codec: Base58.Codec, multihash: Multihash): (r: Result<Option<string>, CidError>)
    ensures r == Failure(SizeOverflow) <==> !IsSafeInteger(multihash.size)
    ensures r == Success(None) <==> multihash.size == 0
  {
    if !IsSafeInteger(multihash.size) then Failure(SizeOverflow)
    else if multihash.size == 0 then Success(None)
    else
      var hashBytes := FromHex(DropPrefix(multihash.digest));
      Success(Some(codec.encode(Pack(multihash.hashFunction, multihash.size, hashBytes))))
  }

  /** Allocates the buffer of `2 + |hashBytes|` bytes and fills it in place:
      the two header bytes, then the digest copied in at offset 2. */
  method PackBuffer(hashFunction: int, size: int, hashBytes: seq<bv8>) returns (buf: array<bv8>)
    ensures buf.Length == 2 + |hashBytes|
    ensures buf[0] == ToUint8(hashFunction) && buf[1] == ToUint8(size)
    ensures buf[2..] == hashBytes
    ensures buf[..] == Pack(hashFunction, size, hashBytes)
  {
    buf := new bv8[2 + |hashBytes|];
    buf[0] := ToUint8(hashFunction);
    buf[1] := ToUint8(size);
    var i := 0;
    while i < |hashBytes|
      invariant 0 <= i <= |hashBytes|
      invariant buf[0] == ToUint8(hashFunction) && buf[1] == ToUint8(size)
      invariant forall k :: 0 <= k < i ==> buf[2 + k] == hashBytes[k]
    {
      buf[2 + i] := hashBytes[i];
      i := i + 1;
    }
    assert buf[2..] == hashBytes;
    assert buf[..] == buf[..2] + buf[2..];
  }

  /** `getMultihashFromBytes32`: the on-chain record to base58 text, or `None`. */
  method GetMultihashFromBytes32(codec: Base58.Codec, multihash: Multihash)
    returns (r: Result<Option<string>, CidError>)
    ensures r == EncodedMultihash(codec, multihash)
  {
    var Multihash(digest, hashFunction, size) := multihash;
    if !IsSafeInteger(size) {
      return Failure(SizeOverflow);
    }
    if size == 0 {
      return Success(None);
    }
    var hashBytes := FromHex(DropPrefix(digest));
    var multihashBytes := PackBuffer(hashFunction, size, hashBytes);
    return Success(Some(codec.encode(multihashBytes[..])));
  }

  /** Splitting packed bytes gives back the header modulo 256 and the digest. */
  lemma UnpackPack(hashFunction: int, size: int, hashBytes: seq<bv8>)
    ensures Unpack(Pack(hashFunction, size, hashBytes))
            == Success(Multihash(Hexlify(hashBytes), hashFunction % 256, size % 256))
  {
    var d := Pack(hashFunction, size, hashBytes);
    assert d[2..] == hashBytes;
  }

  /** Every byte sequence with a header is the packing of the record it decodes to. */
  lemma PackUnpack(d: seq<bv8>)
    requires |d| >= 2
    ensures Unpack(d).Success?
    ensures var m := Unpack(d).value;
            Pack(m.hashFunction, m.size, FromHex(DropPrefix(m.digest))) == d
  {
    assert d == d[..2] + d[2..];
  }

  /** The encoded text decodes to exactly two header bytes followed by the digest bytes. */
  lemma EncodedLayout(codec: Base58.Codec, multihash: Multihash)
    requires Base58.Inverse(codec)
    requires IsSafeInteger(multihash.size) && multihash.size != 0
    ensures var r := EncodedMultihash(codec, multihash);
            var hashBytes := FromHex(DropPrefix(multihash.digest));
            && r.Success? && r.value.Some?
            && codec.decode(r.value.value).Some?
            && var d := codec.decode(r.value.value).value;
            && |d| == 2 + |hashBytes|
            && d[0] == ToUint8(multihash.hashFunction) && d[1] == ToUint8(multihash.size)
            && d[2..] == hashBytes
  {
    var hashBytes := FromHex(DropPrefix(multihash.digest));
    var packed := Pack(multihash.hashFunction, multihash.size, hashBytes);
    assert codec.decode(codec.encode(packed)) == Some(packed);
    assert packed[2..] == hashBytes;
  }

  /** Decoding what was encoded gives the header fields modulo 256 and the
      digest bytes, for any record with a nonzero safe size. */
  lemma RoundTripModulo(codec: Base58.Codec, multihash: Multihash)
    requires Base58.Inverse(codec)
    requires IsSafeInteger(multihash.size) && multihash.size != 0
    ensures var r := EncodedMultihash(codec, multihash);
            && r.Success? && r.value.Some?
            && var back := GetBytes32FromMultiash(codec, r.value.value);
            && back.Success?
            && back.value.hashFunction == multihash.hashFunction % 256
            && back.value.size == multihash.size % 256
            && FromHex(DropPrefix(back.value.digest)) == FromHex(DropPrefix(multihash.digest))
  {
    EncodedLayout(codec, multihash);
  }

  /** The round trip reproduces the record exactly when its header fields fit
      in a byte and its digest is "0x" followed by lower-case digit pairs. */
  lemma RoundTrip(codec: Base58.Codec, multihash: Multihash)
    requires Base58.Inverse(codec)
    requires IsSafeInteger(multihash.size) && multihash.size != 0
    ensures var r := EncodedMultihash(codec, multihash);
            && r.Success? && r.value.Some?
            && (GetBytes32FromMultiash(codec, r.value.value) == Success(multihash)
                <==> 0 <= multihash.hashFunction < 256 && 0 < multihash.size < 256
                     && IsHexDigest(multihash.digest))
  {
    RoundTripModulo(codec, multihash);
    var s := EncodedMultihash(codec, multihash).value.value;
    var back := GetBytes32FromMultiash(codec, s).value;
    if 0 <= multihash.hashFunction < 256 && 0 < multihash.size < 256 && IsHexDigest(multihash.digest) {
      var digits := DropPrefix(multihash.digest);
      ToHexFromHex(digits);
      assert back.digest == Hexlify(FromHex(DropPrefix(back.digest)));
      assert back.digest == multihash.digest;
    }
  }

  /** From text: decoding and re-encoding gives the same text back, or `None`
      when the size byte is 0. */
  lemma TextRoundTrip(codec: Base58.Codec, multihash: string)
    requires Base58.Canonical(codec)
    requires codec.decode(multihash).Some? && |codec.decode(multihash).value| >= 2
    ensures GetBytes32FromMultiash(codec, multihash).Success?
    ensures var d := codec.decode(multihash).value;
            EncodedMultihash(codec, GetBytes32FromMultiash(codec, multihash).value)
            == if d[1] == 0 then Success(None) else Success(Some(multihash))
  {
    var d := codec.decode(multihash).value;
    PackUnpack(d);
    assert codec.encode(d) == multihash;
  }

  /** The example identifier: sha2-256 (code 0x12), 32 bytes of 0xAB, whose
      digest is "0x" followed by "ab" 32 times. */
  lemma ExampleVector(codec: Base58.Codec)
    requires Base58.Inverse(codec)
    ensures var digest := "0x" + seq(64, i => if i % 2 == 0 then 'a' else 'b');
            var m := Multihash(digest, 18, 32);
            var bytes := [0x12, 0x20] + seq(32, _ => 0xAB);
            && EncodedMultihash(codec, m) == Success(Some(codec.encode(bytes)))
            && GetBytes32FromMultiash(codec, codec.encode(bytes)) == Success(m)
  {
    var digits := seq(64, i => if i % 2 == 0 then 'a' else 'b');
    var digest: string := "0x" + digits;
    var ab: seq<bv8> := seq(32, _ => 0xAB);
    forall i | 0 <= i < 64 ensures ToHex(ab)[i] == digits[i] {
      ToHexAt(ab, i / 2);
    }
    assert ToHex(ab) == digits;
    assert Hexlify(ab) == digest;
    FromHexToHex(ab);
    var m := Multihash(digest, 18, 32);
    RoundTrip(codec, m);
    assert Pack(18, 32, ab) == [0x12, 0x20] + ab;
  }

  /** Base58 text of fewer than two bytes has no record. */
  lemma ShortTextRejected(codec: Base58.Codec, bytes: seq<bv8>)
    requires Base58.Inverse(codec)
    requires |bytes| < 2
    ensures GetBytes32FromMultiash(codec, codec.encode(bytes)) == Failure(MissingHeader)
  {
    assert codec.decode(codec.encode(bytes)) == Some(bytes);
  }
}
