/**
 * Hexadecimal salt decoding as encoding/hex does it (the base 16 alphabet of
 * RFC 4648, section 8, accepting both letter cases). DecodeString is the
 * partial function the archiver applies to the salt; EncodeToString is the
 * encoder that produces salts (the random salt generator is not part of this
 * model) and serves as the decoder's partner.
 */
module Hex {
  import opened Bytes
  import opened Errors

  /** The value of one hex digit, or -1 for a byte that is not one. */
  function DigitValue(c: byte): (v: int)
    ensures -1 <= v < 16
  {
    if '0' as byte <= c <= '9' as byte then c - '0' as byte
    else if 'a' as byte <= c <= 'f' as byte then c - 'a' as byte + 10
    else if 'A' as byte <= c <= 'F' as byte then c - 'A' as byte + 10
    else -1
  }

  predicate IsHexDigit(c: byte)
  {
    DigitValue(c) >= 0
  }

  /** A string DecodeString accepts: even length and hex digits only. */
  predicate WellFormed(s: seq<byte>)
  {
    |s| % 2 == 0 && forall i | 0 <= i < |s| :: IsHexDigit(s[i])
  }

  /**
   * hex.DecodeString: pairs are decoded left to right and the first byte
   * that is not a digit is reported; an odd length is reported only after
   * the last byte has been checked.
   */
  function DecodeString(s: seq<byte>): (r: Result<seq<byte>>)
    ensures r.Success? ==> 2 * |r.value| == |s|
    decreases |s|
  {
    if |s| == 0 then Success([])
    else if |s| == 1 then
      if !IsHexDigit(s[0]) then Failure(InvalidHexByte(s[0])) else Failure(OddHexLength)
    else if !IsHexDigit(s[0]) then Failure(InvalidHexByte(s[0]))
    else if !IsHexDigit(s[1]) then Failure(InvalidHexByte(s[1]))
    else
      var rest :- DecodeString(s[2..]);
      Success([DigitValue(s[0]) * 16 + DigitValue(s[1])] + rest)
  }

  /** The lower-case digit of a value 0..15. */
  function Digit(v: int): (c: byte)
    requires 0 <= v < 16
    ensures DigitValue(c) == v
  {
    if v < 10 then '0' as byte + v else 'a' as byte + v - 10
  }

  /** hex.EncodeToString: two lower-case digits per byte, high nibble first. */
  function EncodeToString(b: seq<byte>): (s: seq<byte>)
    ensures |s| == 2 * |b|
    ensures forall i | 0 <= i < |b| :: s[2 * i] == Digit(b[i] / 16) && s[2 * i + 1] == Digit(b[i] % 16)
  {
    if b == [] then [] else [Digit(b[0] / 16), Digit(b[0] % 16)] + EncodeToString(b[1..])
  }

  /** DecodeString succeeds exactly on well-formed strings, and decodes to half their length. */
  lemma {:induction false} DecodeStringSucceedsIff(s: seq<byte>)
    ensures DecodeString(s).Success? <==> WellFormed(s)
    decreases |s|
  {
    if |s| >= 2 {
      DecodeStringSucceedsIff(s[2..]);
      if IsHexDigit(s[0]) && IsHexDigit(s[1]) && WellFormed(s[2..]) {
        forall i | 0 <= i < |s| ensures IsHexDigit(s[i]) {
          if i >= 2 { assert s[i] == s[2..][i - 2]; }
        }
      }
      if WellFormed(s) {
        forall i | 0 <= i < |s| - 2 ensures IsHexDigit(s[2..][i]) {
          assert s[2..][i] == s[i + 2];
        }
      }
    } else if |s| == 1 {
      assert !WellFormed(s);
    }
  }

  /** Byte i of a decoded string is the value of the digit pair at 2 * i and 2 * i + 1, high nibble first. */
  lemma {:induction false} DecodedPairs(s: seq<byte>)
    requires DecodeString(s).Success?
    ensures forall i | 0 <= i < |DecodeString(s).value| ::
              DecodeString(s).value[i] == DigitValue(s[2 * i]) * 16 + DigitValue(s[2 * i + 1])
    decreases |s|
  {
    if |s| >= 2 {
      var r, rest := DecodeString(s).value, DecodeString(s[2..]).value;
      DecodedPairs(s[2..]);
      forall i | 1 <= i < |r|
        ensures r[i] == DigitValue(s[2 * i]) * 16 + DigitValue(s[2 * i + 1])
      {
        assert r[i] == rest[i - 1];
        assert s[2..][2 * (i - 1)] == s[2 * i] && s[2..][2 * (i - 1) + 1] == s[2 * i + 1];
      }
    }
  }

  /** Decoding undoes encoding. */
  lemma {:induction false} DecodeEncode(b: seq<byte>)
    ensures DecodeString(EncodeToString(b)) == Success(b)
  {
    if b != [] {
      var s := EncodeToString(b);
      assert s[2..] == EncodeToString(b[1..]);
      DecodeEncode(b[1..]);
      assert DigitValue(s[0]) * 16 + DigitValue(s[1]) == b[0];
      assert [b[0]] + b[1..] == b;
    }
  }
}
