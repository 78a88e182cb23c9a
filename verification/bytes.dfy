/** Byte sequences, fixed-width unsigned integers and the little-endian
    layout shared by every wire format and key derivation in the model. */
module Bytes {

  type byte = x: int | 0 <= x < 0x100
  type u16 = x: int | 0 <= x < 0x1_0000
  type u32 = x: int | 0 <= x < 0x1_0000_0000
  type u64 = x: int | 0 <= x < 0x1_0000_0000_0000_0000
  type bytes = seq<byte>

  /** The bytes of a C string without its terminator: never a NUL byte. */
  type CStrBytes = s: bytes | 0 !in s

  const COLON: byte := 0x3A

  function Pow(base: nat, e: nat): (r: nat)
    ensures base > 0 ==> r > 0
  {
    if e == 0 then 1 else base * Pow(base, e - 1)
  }

  /** The byte-width powers the little-endian layouts use. */
  lemma PowersOf256()
    ensures Pow(0x100, 2) == 0x1_0000
    ensures Pow(0x100, 4) == 0x1_0000_0000
    ensures Pow(0x100, 8) == 0x1_0000_0000_0000_0000
  {
    assert Pow(0x100, 1) == 0x100;
    assert Pow(0x100, 2) == 0x1_0000;
    assert Pow(0x100, 3) == 0x100_0000;
    assert Pow(0x100, 4) == 0x1_0000_0000;
    assert Pow(0x100, 5) == 0x100_0000_0000;
    assert Pow(0x100, 6) == 0x1_0000_0000_0000;
    assert Pow(0x100, 7) == 0x100_0000_0000_0000;
  }

  /** Concatenation of a sequence of byte strings, in order. */
  function Flatten(parts: seq<bytes>): bytes
  {
    if |parts| == 0 then [] else parts[0] + Flatten(parts[1..])
  }

  lemma {:induction false} FlattenAppend(a: seq<bytes>, b: seq<bytes>)
    ensures Flatten(a + b) == Flatten(a) + Flatten(b)
  {
    if |a| == 0 {
      assert a + b == b;
    } else {
      assert (a + b)[1..] == a[1..] + b;
      FlattenAppend(a[1..], b);
    }
  }

  /** `width` little-endian bytes of `v`, truncating like Rust's `as` cast
      followed by `to_le_bytes`. */
  function LittleEndian(v: nat, width: nat): (r: bytes)
    ensures |r| == width
  {
    if width == 0 then [] else [v % 0x100] + LittleEndian(v / 0x100, width - 1)
  }

  /** `from_le_bytes`: the unsigned value of a little-endian byte string. */
  function FromLittleEndian(b: bytes): (v: nat)
    ensures v < Pow(0x100, |b|)
  {
    if |b| == 0 then 0
    else
      var rest := FromLittleEndian(b[1..]);
      assert rest + 1 <= Pow(0x100, |b| - 1);
      assert b[0] + 0x100 * rest < 0x100 * (rest + 1) <= 0x100 * Pow(0x100, |b| - 1);
      b[0] + 0x100 * rest
  }

  lemma {:induction false} LittleEndianRoundTrip(v: nat, width: nat)
    requires v < Pow(0x100, width)
    ensures FromLittleEndian(LittleEndian(v, width)) == v
  {
    if width > 0 {
      var r := LittleEndian(v, width);
      assert r[1..] == LittleEndian(v / 0x100, width - 1);
      assert v / 0x100 < Pow(0x100, width - 1);
      LittleEndianRoundTrip(v / 0x100, width - 1);
    }
  }

  /** Two's-complement reading of a 64-bit pattern, as `isize::from_le_bytes`
      on a 64-bit target. */
  function ToSigned64(u: u64): (s: int)
    ensures -0x8000_0000_0000_0000 <= s < 0x8000_0000_0000_0000
    ensures s % 0x1_0000_0000_0000_0000 == u
  {
    if u < 0x8000_0000_0000_0000 then u else u - 0x1_0000_0000_0000_0000
  }
}
