/** Hexadecimal digits: the lowercase digest encoding of `digest('hex')` and
    the digit values used by percent-decoding. */
module Hex {
  import opened Base

  predicate IsHexDigit(c: byte) {
    (0x30 <= c <= 0x39) || (0x41 <= c <= 0x46) || (0x61 <= c <= 0x66)
  }

  predicate IsLowerHexDigit(c: byte) {
    (0x30 <= c <= 0x39) || (0x61 <= c <= 0x66)
  }

  function LowerDigit(n: int): (c: byte)
    requires 0 <= n < 16
    ensures IsLowerHexDigit(c)
  {
    if n < 10 then 0x30 + n else 0x61 + (n - 10)
  }

  function UpperDigit(n: int): (c: byte)
    requires 0 <= n < 16
    ensures IsHexDigit(c)
  {
    if n < 10 then 0x30 + n else 0x41 + (n - 10)
  }

  /** The value of a hex digit of either case. */
  function DigitValue(c: byte): (n: int)
    requires IsHexDigit(c)
    ensures 0 <= n < 16
  {
    if c <= 0x39 then c - 0x30 else if c <= 0x46 then c - 0x41 + 10 else c - 0x61 + 10
  }

  lemma DigitRoundTrip(n: int)
    requires 0 <= n < 16
    ensures DigitValue(LowerDigit(n)) == n
    ensures DigitValue(UpperDigit(n)) == n
  {
  }

  /** Lowercase hexadecimal encoding, two digits per byte, high nibble first. */
  function Lower(d: seq<byte>): (h: Text)
    ensures |h| == 2 * |d|
    ensures forall i :: 0 <= i < |h| ==> IsLowerHexDigit(h[i])
  {
    if d == [] then [] else [LowerDigit(d[0] / 16), LowerDigit(d[0] % 16)] + Lower(d[1..])
  }

  /** Reads a string of hex digit pairs back into bytes; `None` when the
      length is odd or a character is not a hex digit. */
  function Decode(h: Text): (r: Option<seq<byte>>)
    ensures r.Some? ==> 2 * |r.value| == |h|
  {
    if h == [] then Some([])
    else if |h| < 2 || !IsHexDigit(h[0]) || !IsHexDigit(h[1]) then None
    else match Decode(h[2..])
      case None => None
      case Some(rest) => Some([16 * DigitValue(h[0]) + DigitValue(h[1])] + rest)
  }

  /** Decoding inverts the lowercase encoding. */
  lemma {:induction false} DecodeLower(d: seq<byte>)
    ensures Decode(Lower(d)) == Some(d)
  {
    if d != [] {
      var h := Lower(d);
      DigitRoundTrip(d[0] / 16);
      DigitRoundTrip(d[0] % 16);
      assert h[2..] == Lower(d[1..]);
      DecodeLower(d[1..]);
      assert d == [d[0]] + d[1..];
    }
  }

  /** Hence distinct digests never share a hex string. */
  lemma LowerInjective(d1: seq<byte>, d2: seq<byte>)
    requires Lower(d1) == Lower(d2)
    ensures d1 == d2
  {
    DecodeLower(d1);
    DecodeLower(d2);
  }
}
