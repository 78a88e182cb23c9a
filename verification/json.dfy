/** The pieces of compact JSON text that `serde_json::to_string` writes for
    the attribute map: unsigned decimal numbers and escaped strings, each with
    a reader that inverts it. */
module Json {
  import opened Bytes
  import opened Results
  import Hex

  const QUOTE: byte := 0x22
  const BACKSLASH: byte := 0x5C

  /** ASCII text as bytes (every literal used here is ASCII). */
  function Ascii(s: string): (r: bytes)
    ensures |r| == |s|
  {
    seq(|s|, i requires 0 <= i < |s| => (s[i] as int) % 0x100)
  }

  predicate IsDigit(c: byte) {
    0x30 <= c <= 0x39
  }

  /** Decimal digits of `n` without leading zeros, as `itoa` writes them. */
  function Decimal(n: nat): (r: bytes)
    ensures |r| >= 1 && (forall i :: 0 <= i < |r| ==> IsDigit(r[i]))
  {
    if n < 10 then [0x30 + n] else Decimal(n / 10) + [0x30 + n % 10]
  }

  function DigitsValue(s: bytes): nat
    requires forall i :: 0 <= i < |s| ==> IsDigit(s[i])
  {
    if |s| == 0 then 0
    else
      assert IsDigit(s[|s| - 1]);
      DigitsValue(s[..|s| - 1]) * 10 + (s[|s| - 1] as int - 0x30)
  }

  lemma {:induction false} DecimalValue(n: nat)
    ensures DigitsValue(Decimal(n)) == n
  {
    if n >= 10 {
      var d := Decimal(n);
      assert d[..|d| - 1] == Decimal(n / 10);
      DecimalValue(n / 10);
    }
  }

  /** How many digits `s` starts with. */
  function LeadingDigits(s: bytes): (k: nat)
    ensures k <= |s|
    ensures forall i :: 0 <= i < k ==> IsDigit(s[i])
  {
    if |s| == 0 || !IsDigit(s[0]) then 0 else 1 + LeadingDigits(s[1..])
  }

  lemma {:induction false} LeadingDigitsOfNumber(d: bytes, rest: bytes)
    requires forall i :: 0 <= i < |d| ==> IsDigit(d[i])
    requires |rest| == 0 || !IsDigit(rest[0])
    ensures LeadingDigits(d + rest) == |d|
  {
    if |d| > 0 {
      assert (d + rest)[1..] == d[1..] + rest;
      LeadingDigitsOfNumber(d[1..], rest);
    }
  }

  /** Reads an unsigned decimal number off the front of `s`. */
  function ParseNat(s: bytes): (r: Option<(nat, bytes)>)
    ensures r.Some? ==> |r.value.1| < |s|
  {
    var k := LeadingDigits(s);
    if k == 0 then None else Some((DigitsValue(s[..k]), s[k..]))
  }

  lemma ParseNatOfDecimal(n: nat, rest: bytes)
    requires |rest| == 0 || !IsDigit(rest[0])
    ensures ParseNat(Decimal(n) + rest) == Some((n, rest))
  {
    var d := Decimal(n);
    LeadingDigitsOfNumber(d, rest);
    assert (d + rest)[..|d|] == d;
    assert (d + rest)[|d|..] == rest;
    DecimalValue(n);
  }

  /** serde_json's escaping of one byte of a string: quote and backslash,
      the five short control escapes, `\u00xx` for other control bytes; every
      other byte (including the bytes of multi-byte UTF-8) is copied. */
  function EscapeByte(b: byte): (r: bytes)
    ensures |r| >= 1
  {
    if b == QUOTE then [BACKSLASH, QUOTE]
    else if b == BACKSLASH then [BACKSLASH, BACKSLASH]
    else if b == 0x08 then [BACKSLASH, 0x62]
    else if b == 0x0C then [BACKSLASH, 0x66]
    else if b == 0x0A then [BACKSLASH, 0x6E]
    else if b == 0x0D then [BACKSLASH, 0x72]
    else if b == 0x09 then [BACKSLASH, 0x74]
    else if b < 0x20 then [BACKSLASH, 0x75, 0x30, 0x30, Hex.HexDigit(b / 16), Hex.HexDigit(b % 16)]
    else [b]
  }

  function Escape(s: bytes): bytes {
    if |s| == 0 then [] else EscapeByte(s[0]) + Escape(s[1..])
  }

  /** `b` in front of a decoded string body. */
  function Prepend(b: byte, r: Option<(bytes, bytes)>): Option<(bytes, bytes)> {
    match r
    case None => None
    case Some((body, rest)) => Some(([b] + body, rest))
  }

  /** The byte a two-character escape `\c` stands for. */
  function ShortEscape(c: byte): Option<byte> {
    if c == QUOTE || c == BACKSLASH || c == 0x2F then Some(c)
    else if c == 0x62 then Some(0x08)
    else if c == 0x66 then Some(0x0C)
    else if c == 0x6E then Some(0x0A)
    else if c == 0x72 then Some(0x0D)
    else if c == 0x74 then Some(0x09)
    else None
  }

  /** Reads a string body up to and including its closing quote; `\u00xx`
      is accepted for ASCII code points only. */
  function ParseStringBody(s: bytes): (r: Option<(bytes, bytes)>)
    ensures r.Some? ==> |r.value.1| < |s|
    decreases |s|
  {
    if |s| == 0 then None
    else if s[0] == QUOTE then Some(([], s[1..]))
    else if s[0] == BACKSLASH then
      if |s| < 2 then None
      else if s[1] == 0x75 then
        if |s| < 6 || s[2] != 0x30 || s[3] != 0x30 then None
        else
          match (Hex.DigitValue(s[4]), Hex.DigitValue(s[5]))
          case (Some(hi), Some(lo)) =>
            if hi * 16 + lo < 0x80 then Prepend(hi * 16 + lo, ParseStringBody(s[6..])) else None
          case _ => None
      else
        match ShortEscape(s[1])
        case None => None
        case Some(b) => Prepend(b, ParseStringBody(s[2..]))
    else if s[0] < 0x20 then None
    else Prepend(s[0], ParseStringBody(s[1..]))
  }

  lemma ParseEscapedByte(b: byte, t: bytes)
    ensures ParseStringBody(EscapeByte(b) + t) == Prepend(b, ParseStringBody(t))
  {
    var s := EscapeByte(b) + t;
    if b < 0x20 && b !in {0x08, 0x0C, 0x0A, 0x0D, 0x09} {
      assert s[6..] == t;
      assert Hex.DigitValue(s[4]) == Some(b / 16);
      assert Hex.DigitValue(s[5]) == Some(b % 16);
    } else if |EscapeByte(b)| == 2 {
      assert s[2..] == t;
    } else {
      assert s[1..] == t;
    }
  }

  lemma {:induction false} ParseEscaped(body: bytes, rest: bytes)
    ensures ParseStringBody(Escape(body) + [QUOTE] + rest) == Some((body, rest))
  {
    if |body| == 0 {
      assert Escape(body) + [QUOTE] + rest == [QUOTE] + rest;
      assert ([QUOTE] + rest)[1..] == rest;
    } else {
      var tail := Escape(body[1..]) + [QUOTE] + rest;
      assert Escape(body) + [QUOTE] + rest == EscapeByte(body[0]) + tail;
      ParseEscapedByte(body[0], tail);
      ParseEscaped(body[1..], rest);
      assert [body[0]] + body[1..] == body;
    }
  }

  /** Strips the literal `lit` off the front of `s`. */
  function Expect(lit: bytes, s: bytes): (r: Option<bytes>)
    ensures r.Some? ==> |r.value| == |s| - |lit|
  {
    if |lit| <= |s| && s[..|lit|] == lit then Some(s[|lit|..]) else None
  }

  lemma ExpectLiteral(lit: bytes, rest: bytes)
    ensures Expect(lit, lit + rest) == Some(rest)
  {
    assert (lit + rest)[..|lit|] == lit;
    assert (lit + rest)[|lit|..] == rest;
  }
}
