/** Hexadecimal text: the "0x"-prefixed lower-case form that ethers' `hexlify`
    produces, and the digit-pair decoding of Node's `Buffer.from(text, 'hex')`. */
module Hex {
  import opened Wrappers

  predicate IsLowerDigit(c: char)
  {
    '0' <= c <= '9' || 'a' <= c <= 'f'
  }

  /** An even number of lower-case hex digits, two per byte. */
  predicate IsLowerHex(s: string)
  {
    |s| % 2 == 0 && forall i :: 0 <= i < |s| ==> IsLowerDigit(s[i])
  }

  /** "0x" followed by lower-case digit pairs: the shape `hexlify` returns. */
  predicate IsHexDigest(s: string)
  {
    |s| >= 2 && s[..2] == "0x" && IsLowerHex(s[2..])
  }

  /** The lower-case digit that stands for a nibble. */
  function NibbleChar(n: nat): (c: char)
    requires n < 16
    ensures IsLowerDigit(c)
  {
    if n < 10 then ('0' as int + n) as char else ('a' as int + n - 10) as char
  }

  /** The value of one hex digit; both cases are digits, anything else is not. */
  function DigitValue(c: char): (r: Option<nat>)
    ensures r.Some? <==> (IsLowerDigit(c) || 'A' <= c <= 'F')
    ensures r.Some? ==> r.value < 16
    ensures IsLowerDigit(c) ==> r.Some? && NibbleChar(r.value) == c
  {
    if '0' <= c <= '9' then Some(c as int - '0' as int)
    else if 'a' <= c <= 'f' then Some(c as int - 'a' as int + 10)
    else if 'A' <= c <= 'F' then Some(c as int - 'A' as int + 10)
    else None
  }

  function HighNibble(x: bv8): (n: nat)
    ensures n < 16
  {
    x as int / 16
  }

  function LowNibble(x: bv8): (n: nat)
    ensures n < 16
  {
    x as int % 16
  }

  /** The byte whose nibbles are `hi` and `lo`. */
  function ByteOf(hi: nat, lo: nat): (x: bv8)
    requires hi < 16 && lo < 16
    ensures x as int == 16 * hi + lo
  {
    var n := 16 * hi + lo;
    assert (n as bv8) as int == n;
    n as bv8
  }

  lemma NibblesOfByte(hi: nat, lo: nat)
    requires hi < 16 && lo < 16
    ensures HighNibble(ByteOf(hi, lo)) == hi && LowNibble(ByteOf(hi, lo)) == lo
  {
  }

  lemma ByteOfNibbles(x: bv8)
    ensures ByteOf(HighNibble(x), LowNibble(x)) == x
  {
    var n := x as int;
    assert 16 * (n / 16) + n % 16 == n;
  }

  /** The digit pairs of a byte sequence, high nibble first, without a prefix. */
  function ToHex(b: seq<bv8>): (s: string)
    ensures |s| == 2 * |b|
    ensures IsLowerHex(s)
  {
    if b == [] then ""
    else
      var rest := ToHex(b[1..]);
      var s := [NibbleChar(HighNibble(b[0])), NibbleChar(LowNibble(b[0]))] + rest;
      assert forall i :: 2 <= i < |s| ==> s[i] == rest[i - 2];
      s
  }

  /** Byte k of the input is spelled by characters 2k and 2k + 1 of its digits. */
  lemma {:induction false} ToHexAt(b: seq<bv8>, k: nat)
    requires k < |b|
    ensures ToHex(b)[2 * k] == NibbleChar(HighNibble(b[k]))
    ensures ToHex(b)[2 * k + 1] == NibbleChar(LowNibble(b[k]))
  {
    if k > 0 {
      ToHexAt(b[1..], k - 1);
      assert ToHex(b)[2..] == ToHex(b[1..]);
    }
  }

  /** ethers' `hexlify` of a byte array. */
  function Hexlify(b: seq<bv8>): (s: string)
    ensures |s| == 2 + 2 * |b|
    ensures IsHexDigest(s)
    ensures s[2..] == ToHex(b)
  {
    "0x" + ToHex(b)
  }

  /** `Buffer.from(s, 'hex')`: decodes digit pairs from the front and stops at
      the first pair that is not two hex digits; a lone last digit is dropped. */
  function FromHex(s: string): (b: seq<bv8>)
    ensures |b| <= |s| / 2
    ensures IsLowerHex(s) ==> |b| == |s| / 2
    decreases |s|
  {
    if |s| < 2 then []
    else
      match (DigitValue(s[0]), DigitValue(s[1]))
      case (Some(hi), Some(lo)) =>
        assert IsLowerHex(s) ==> IsLowerHex(s[2..]) by {
          if IsLowerHex(s) {
            forall i | 0 <= i < |s| - 2 ensures IsLowerDigit(s[2..][i]) {
              assert s[2..][i] == s[i + 2];
            }
          }
        }
        [ByteOf(hi, lo)] + FromHex(s[2..])
      case _ => []
  }

  /** Decoding the digits of a byte sequence gives the bytes back. */
  lemma {:induction false} FromHexToHex(b: seq<bv8>)
    ensures FromHex(ToHex(b)) == b
  {
    if b != [] {
      var s := ToHex(b);
      var hi, lo := HighNibble(b[0]), LowNibble(b[0]);
      assert s[0] == NibbleChar(hi) && s[1] == NibbleChar(lo);
      assert DigitValue(s[0]) == Some(hi) && DigitValue(s[1]) == Some(lo);
      assert s[2..] == ToHex(b[1..]);
      FromHexToHex(b[1..]);
      ByteOfNibbles(b[0]);
      assert b == [b[0]] + b[1..];
    }
  }

  /** Well-formed lower-case hex is exactly the digits of what it decodes to. */
  lemma {:induction false} ToHexFromHex(s: string)
    requires IsLowerHex(s)
    ensures ToHex(FromHex(s)) == s
    decreases |s|
  {
    if |s| >= 2 {
      var hi, lo := DigitValue(s[0]).value, DigitValue(s[1]).value;
      var x := ByteOf(hi, lo);
      NibblesOfByte(hi, lo);
      forall i | 0 <= i < |s| - 2 ensures IsLowerDigit(s[2..][i]) {
        assert s[2..][i] == s[i + 2];
      }
      ToHexFromHex(s[2..]);
      var b := FromHex(s);
      assert b == [x] + FromHex(s[2..]);
      assert b[1..] == FromHex(s[2..]);
      assert s == [s[0], s[1]] + s[2..];
    }
  }
}
