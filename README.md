# Content-identifier codec

A Dafny model of the multihash codec of `src/utils/cid.ts`. The codec converts
between two forms of a content identifier:

- the **on-chain record** `(digest, hashFunction, size)`, where `digest` is a
  "0x"-prefixed hex string and the two header fields are big numbers;
- the **text form**, a base58 string whose bytes are laid out as
  `[hashFunction:1][size:1][digest:N]`.

`getBytes32FromMultiash` decodes text into a record and
`getMultihashFromBytes32` encodes a record into text, or into `null` when the
size is 0. The model keeps the source's names, including the spelling
"Multiash".

Files:

- `wrappers.dfy`: `Option` and `Result`. A thrown exception becomes a `Failure`.
- `hex.dfy`: ethers' `hexlify`, which gives "0x" plus lower-case digit pairs,
  and Node's `Buffer.from(text, 'hex')` decoding, modelled as `Hex.FromHex`.
  It has round-trip lemmas in both directions.
- `base58.dfy`: base58 is not implemented. A `Base58.Codec` value holding an
  encoder and a decoder is passed in by the caller. The laws that the lemmas
  rely on are stated as predicates. `Inverse` says decode undoes encode.
  `Canonical` says each decodable string is the encoding of its bytes.
- `cid.dfy`: the two operations and the lemmas relating them.
  - `GetBytes32FromMultiash` is a function, because the source is an expression.
  - `GetMultihashFromBytes32` is a method. It allocates an `array<bv8>` of
    length `2 + N`, writes the two header bytes and copies the digest in at
    offset 2 (`PackBuffer`). It is proved equal to the pure specification
    `EncodedMultihash`.

Where the code and its design description differ, the model follows the code:

- The encoder does not reject a `hashFunction` or `size` outside 0..255.
  Storing such a value in a byte array keeps it modulo 256 (`ToUint8`).
- The encoder does not reject a `size` that differs from the digest's length.
- The only encoder error is `size.toNumber()` throwing for a size outside the
  safe-integer range (`SizeOverflow`).
- The decoder throws for fewer than two decoded bytes, because
  `BigNumber.from(undefined)` throws (`MissingHeader`). It also throws for
  text outside the base58 alphabet (`InvalidBase58`).

## Model

| member | source | states |
|---|---|---|
| `Cid.GetBytes32FromMultiash` | src/utils/cid.ts:18-26 | fails with InvalidBase58 exactly when base58 decoding fails; otherwise the result is the split of the decoded bytes |
| `Cid.Unpack` | src/utils/cid.ts:21-25 | fails with MissingHeader exactly when fewer than 2 bytes were decoded; otherwise hashFunction is byte 0 and size is byte 1, both in 0..255; the digest is well-formed "0x" hex of length 2 + 2(N-2) that decodes to bytes 2.. |
| `Cid.EncodedMultihash` | src/utils/cid.ts:34-49 | null exactly when size is 0; SizeOverflow exactly when size is outside the safe-integer range that toNumber accepts |
| `Cid.GetMultihashFromBytes32` | src/utils/cid.ts:34-49 | the in-place encoder returns the same result as its specification EncodedMultihash |
| `Cid.PackBuffer` | src/utils/cid.ts:43-46 | the buffer has length 2 + N, byte 0 is hashFunction mod 256, byte 1 is size mod 256, and bytes 2.. are the digest bytes in order; the buffer is exactly the packing, so nothing else is written |
| `Cid.ToUint8` | src/utils/cid.ts:44-45 | a header value is stored as itself modulo 256, and a value in 0..255 is stored unchanged |
| `Cid.DropPrefix` | src/utils/cid.ts:38-39 | slice(2) drops exactly the first two characters, and gives "" for shorter text |
| `Hex.FromHex` | src/utils/cid.ts:39 | hex decoding yields at most half as many bytes as characters, and exactly N bytes for 2N well-formed digits |
| `Hex.ToHex` | src/utils/cid.ts:22 | the digits of N bytes are 2N lower-case hex digits |
| `Hex.Hexlify` | src/utils/cid.ts:22 | hexlify gives "0x" followed by the 2N lower-case digits of the bytes |
| `Hex.ToHexAt` | src/utils/cid.ts:22 | byte k is spelled by characters 2k (high nibble) and 2k+1 (low nibble) |
| `Hex.FromHexToHex` | src/utils/cid.ts:39 | decoding the hex digits of any byte sequence gives the bytes back |
| `Hex.ToHexFromHex` | src/utils/cid.ts:39 | well-formed lower-case hex is exactly the digits of what it decodes to |
| `Cid.UnpackPack` | src/utils/cid.ts:43-46 | splitting packed bytes gives the header fields modulo 256 and the hexlified digest |
| `Cid.PackUnpack` | src/utils/cid.ts:21-25 | every byte sequence of length 2 or more is the packing of the record it decodes to |
| `Cid.EncodedLayout` | src/utils/cid.ts:41-48 | for a nonzero safe size, the encoded text decodes to 2 + N bytes: the header bytes modulo 256, then the digest bytes |
| `Cid.RoundTripModulo` | src/utils/cid.ts:28-49 | for any record with a nonzero safe size, decoding the encoding gives hashFunction mod 256, size mod 256 and the same digest bytes |
| `Cid.RoundTrip` | src/utils/cid.ts:12-49 | for a nonzero safe size, decoding the encoding reproduces the record exactly if and only if hashFunction is in 0..255, size is in 1..255 and the digest is "0x" plus lower-case digit pairs |
| `Cid.TextRoundTrip` | src/utils/cid.ts:18-49 | for canonical base58, text of 2 or more bytes that is decoded and then re-encoded comes back unchanged, or as null when its size byte is 0 |
| `Cid.ExampleVector` | src/utils/cid.ts:34-48 | the record (0x ab×32, 18, 32) encodes to the base58 of [0x12, 0x20, 0xAB×32], and that text decodes back to the same record |
| `Cid.ShortTextRejected` | src/utils/cid.ts:19-24 | text that decodes to fewer than 2 bytes gives MissingHeader |

## Left out

- `src/lib/web3/tools.ts` is not part of this model. It holds wallet and provider detection, contract instantiation, store updates, event listeners and a balance lookup with floating-point rounding. All of that is I/O and orchestration.
- Base58 itself (ethers' `utils.base58`) is a caller-supplied `Base58.Codec`. The lemmas assume only `Base58.Inverse` or `Base58.Canonical` of it.
- `Cid.ToUint8`: the source converts a big number to a double before storing it in a byte. The model stores the exact integer modulo 256, so the rounding of a `hashFunction` of magnitude above 2^53 is not modelled.
- `Hex.FromHex`: the truncation on malformed input follows Node's documented `Buffer.from(text, 'hex')` behaviour. Decoding stops at the first pair that is not two hex digits, and a lone last digit is dropped. The library's code is not part of this model.
- `Cid.EncodedMultihash`: `size.toNumber()` is modelled as throwing outside ±(2^53 - 1). BigNumber internals are otherwise not modelled.
- The element type of the allocated buffer (`hashBytes.constructor`) is modelled as a zero-initialised byte array.
