/** Lower-case hexadecimal text, as produced by `hex::encode`,
    `data_encoding::HEXLOWER` and BLAKE3's `to_hex`: two ASCII characters per
    byte, high nibble first. */
module Hex {
  import opened Bytes
  import opened Results

  predicate IsLowerHexDigit(c: byte) {
    (0x30 <= c <= 0x39) || (0x61 <= c <= 0x66)
  }

  function HexDigit(n: nat): (c: byte)
    requires n < 16
    ensures IsLowerHexDigit(c)
  {
    if n < 10 then 0x30 + n else 0x61 + (n - 10)
  }

  /** The two characters that encode one byte. */
  function HexPair(b: byte): bytes {
    [HexDigit(b / 16), HexDigit(b % 16)]
  }

  function HexLower(b: bytes): (h: bytes)
    ensures |h| == 2 * |b|
    ensures forall i :: 0 <= i < |h| ==> IsLowerHexDigit(h[i])
    ensures |b| > 0 ==> h[..2] == HexPair(b[0])
  {
    if |b| == 0 then [] else HexPair(b[0]) + HexLower(b[1..])
  }

  /** Inverse of `HexDigit`; `None` for anything but a lower-case hex digit. */
  function DigitValue(c: byte): (r: Option<nat>)
    ensures r.Some? <==> IsLowerHexDigit(c)
    ensures r.Some? ==> r.value < 16 && HexDigit(r.value) == c
  {
    if 0x30 <= c <= 0x39 then Some(c - 0x30)
    else if 0x61 <= c <= 0x66 then Some(c - 0x61 + 10)
    else None
  }

  function HexDecode(h: bytes): Option<bytes>
  {
    if |h| == 0 then Some([])
    else if |h| == 1 then None
    else
      match (DigitValue(h[0]), DigitValue(h[1]), HexDecode(h[2..]))
      case (Some(hi), Some(lo), Some(rest)) => Some([hi * 16 + lo] + rest)
      case _ => None
  }

  lemma {:induction false} HexRoundTrip(b: bytes)
    ensures HexDecode(HexLower(b)) == Some(b)
  {
    if |b| > 0 {
      var h := HexLower(b);
      assert h[2..] == HexLower(b[1..]);
      HexRoundTrip(b[1..]);
      assert DigitValue(h[0]) == Some(b[0] / 16);
      assert DigitValue(h[1]) == Some(b[0] % 16);
      assert [b[0]] + b[1..] == b;
    }
  }

  /** Distinct digests give distinct hex names. */
  lemma HexInjective(a: bytes, b: bytes)
    requires a != b
    ensures HexLower(a) != HexLower(b)
  {
    HexRoundTrip(a);
    HexRoundTrip(b);
  }
}
