/**
 * Hexadecimal text as Node's `Buffer` writes and reads it:
 * `buf.toString("hex")` and `Buffer.from(text, "hex")`.
 */
module Hex {

  import opened Wrappers

  newtype byte = x: int | 0 <= x < 256

  const Digits: string := "0123456789abcdef"

  function DigitChar(n: int): char
    requires 0 <= n < 16
  {
    Digits[n]
  }

  /** The value of one hexadecimal digit, either case; None for any other character. */
  function DigitValue(c: char): (v: Option<int>)
    ensures v.Some? ==> 0 <= v.value < 16
  {
    if '0' <= c <= '9' then Some(c as int - '0' as int)
    else if 'a' <= c <= 'f' then Some(c as int - 'a' as int + 10)
    else if 'A' <= c <= 'F' then Some(c as int - 'A' as int + 10)
    else None
  }

  lemma DigitRoundTrip(n: int)
    requires 0 <= n < 16
    ensures DigitValue(DigitChar(n)) == Some(n)
  {
  }

  predicate IsLowerHex(c: char)
  {
    '0' <= c <= '9' || 'a' <= c <= 'f'
  }

  /** `buf.toString("hex")`: two lower-case digits per byte, high nibble first. */
  function Encode(b: seq<byte>): (s: string)
    ensures |s| == 2 * |b|
    ensures forall k :: 0 <= k < |s| ==> IsLowerHex(s[k])
  {
    if b == [] then ""
    else [DigitChar(b[0] as int / 16), DigitChar(b[0] as int % 16)] + Encode(b[1..])
  }

  /**
   * `Buffer.from(s, "hex")`: reads digit pairs from the front and stops at the
   * first pair that is not two hexadecimal digits; an odd last digit is dropped.
   */
  function Decode(s: string): (b: seq<byte>)
    ensures 2 * |b| <= |s|
  {
    if |s| < 2 then []
    else
      var hi, lo := DigitValue(s[0]), DigitValue(s[1]);
      if hi.Some? && lo.Some? then [(hi.value * 16 + lo.value) as byte] + Decode(s[2..])
      else []
  }

  /** Decoding what `Encode` wrote gives back the bytes. */
  lemma {:induction false} DecodeEncode(b: seq<byte>)
    ensures Decode(Encode(b)) == b
  {
    if b != [] {
      var s := Encode(b);
      DigitRoundTrip(b[0] as int / 16);
      DigitRoundTrip(b[0] as int % 16);
      assert s[2..] == Encode(b[1..]);
      DecodeEncode(b[1..]);
      assert b == [b[0]] + b[1..];
    }
  }

  /**
   * Decoding stops at the first pair that is not two digits, whichever of its
   * characters is the junk: that pair and everything after it are ignored. A
   * lone junk character at the end is dropped like any odd last character.
   */
  lemma {:induction false} DecodeStopsAtJunk(s: string, pair: string, rest: string)
    requires |s| % 2 == 0
    requires 1 <= |pair| <= 2
    requires DigitValue(pair[0]).None? || DigitValue(pair[|pair| - 1]).None?
    ensures Decode(s + pair + rest) == Decode(s)
  {
    if |s| >= 2 {
      assert (s + pair + rest)[2..] == s[2..] + pair + rest;
      DecodeStopsAtJunk(s[2..], pair, rest);
    } else {
      assert s == [];
      assert s + pair + rest == pair + rest;
    }
  }
}
