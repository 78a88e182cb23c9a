/** The 7-bit variable-length integer of `comm_manager::util` (the .NET
    `BinaryWriter` length prefix): seven value bits per byte, least
    significant group first, the top bit set on every byte but the last. */
module SevenBit {
  import opened Bytes
  import opened Results

  /** The value a group sequence stands for: the low seven bits of byte `i`
      weigh `128^i`. */
  function Weight(b: bytes): nat {
    if |b| == 0 then 0 else b[0] % 0x80 + 0x80 * Weight(b[1..])
  }

  /** `encode_7bit`, one loop iteration per recursive call. */
  function Encode7Bit(n: nat): (r: bytes)
    ensures 1 <= |r|
    ensures n < 0x80 ==> r == [n]
    decreases n
  {
    if n < 0x80 then [n] else [n % 0x80 + 0x80] + Encode7Bit(n / 0x80)
  }

  /** Every byte but the last carries the continuation bit; the last does
      not. */
  lemma {:induction false} Encode7BitContinuation(n: nat)
    ensures var r := Encode7Bit(n);
      r[|r| - 1] < 0x80 && forall i :: 0 <= i < |r| - 1 ==> r[i] >= 0x80
    decreases n
  {
    if n >= 0x80 {
      Encode7BitContinuation(n / 0x80);
      var r := Encode7Bit(n);
      assert r[1..] == Encode7Bit(n / 0x80);
    }
  }

  /** The groups add up to the encoded value. */
  lemma {:induction false} Encode7BitWeight(n: nat)
    ensures Weight(Encode7Bit(n)) == n
    decreases n
  {
    if n >= 0x80 {
      Encode7BitWeight(n / 0x80);
      assert Encode7Bit(n)[1..] == Encode7Bit(n / 0x80);
    }
  }

  /** No redundant trailing group: `k` bytes are used only for values of at
      least `128^(k-1)`, and a value below `128^k` needs at most `k`. */
  lemma {:induction false} Encode7BitLengthBounds(n: nat, k: nat)
    ensures |Encode7Bit(n)| == 1 || Pow(0x80, |Encode7Bit(n)| - 1) <= n
    ensures 1 <= k && n < Pow(0x80, k) ==> |Encode7Bit(n)| <= k
    decreases n
  {
    if n >= 0x80 {
      var tail := Encode7Bit(n / 0x80);
      assert |Encode7Bit(n)| == |tail| + 1;
      Encode7BitLengthBounds(n / 0x80, if k > 0 then k - 1 else 0);
      assert Pow(0x80, |tail|) == 0x80 * Pow(0x80, |tail| - 1);
      if 1 <= k && n < Pow(0x80, k) {
        assert k > 1;
        assert Pow(0x80, k) == 0x80 * Pow(0x80, k - 1);
      }
    }
  }

  /** The loop of `encode_7bit` as written, on a 32-bit input. */
  method Encode7BitLoop(num: u32) returns (result: bytes)
    ensures result == Encode7Bit(num)
  {
    var n: nat := num;
    result := [];
    while n >= 0x80
      invariant result + Encode7Bit(n) == Encode7Bit(num)
      decreases n
    {
      var group: bytes := [n % 0x80 + 0x80];
      assert Encode7Bit(n) == group + Encode7Bit(n / 0x80);
      assert result + group + Encode7Bit(n / 0x80) == result + (group + Encode7Bit(n / 0x80));
      result := result + group;
      n := n / 0x80;
    }
    assert Encode7Bit(n) == [n];
    result := result + [n];
  }

  /** A 32-bit value takes one to five bytes. */
  lemma Encode7BitLength(n: u32)
    ensures 1 <= |Encode7Bit(n)| <= 5
  {
    assert Pow(0x80, 5) == 0x8_0000_0000;
    Encode7BitLengthBounds(n, 5);
  }

  /** Reads one group sequence off the front of `s`. */
  function ReadVarint(s: bytes): (r: Option<(nat, bytes)>)
    ensures r.Some? ==> |r.value.1| < |s|
  {
    if |s| == 0 then None
    else if s[0] < 0x80 then Some((s[0], s[1..]))
    else
      match ReadVarint(s[1..])
      case None => None
      case Some((v, rest)) => Some((s[0] - 0x80 + 0x80 * v, rest))
  }

  lemma {:induction false} ReadEncoded(n: nat, rest: bytes)
    ensures ReadVarint(Encode7Bit(n) + rest) == Some((n, rest))
    decreases n
  {
    var e := Encode7Bit(n);
    if n < 0x80 {
      assert (e + rest)[1..] == rest;
    } else {
      assert (e + rest)[1..] == Encode7Bit(n / 0x80) + rest;
      ReadEncoded(n / 0x80, rest);
    }
  }

  /** Different values never share an encoding. */
  lemma Encode7BitInjective(a: nat, b: nat)
    requires Encode7Bit(a) == Encode7Bit(b)
    ensures a == b
  {
    ReadEncoded(a, []);
    ReadEncoded(b, []);
    assert Encode7Bit(a) + [] == Encode7Bit(b) + [];
  }

  /** `encode_7bit_string`: the byte length, cut to 32 bits by `as u32`, then
      the bytes; no string encodes as a zero length. */
  function Encode7BitString(s: Option<bytes>): (r: bytes)
    ensures s.None? ==> r == [0]
    ensures s.Some? ==> |r| > |s.value| && r[|r| - |s.value|..] == s.value
    ensures s.Some? ==> Weight(r[..|r| - |s.value|]) == |s.value| % 0x1_0000_0000
  {
    match s
    case None => Encode7Bit(0)
    case Some(text) =>
      var prefix := Encode7Bit(|text| % 0x1_0000_0000);
      Encode7BitWeight(|text| % 0x1_0000_0000);
      assert (prefix + text)[..|prefix|] == prefix;
      assert (prefix + text)[|prefix|..] == text;
      prefix + text
  }

  /** The empty string and the absent string are the same bytes on the
      wire. */
  lemma EmptyStringIsAbsent()
    ensures Encode7BitString(Some([])) == Encode7BitString(None) == [0]
  {
    assert Encode7Bit(0) + [] == [0];
  }

  /** From 4 GiB on the length prefix wraps: it announces the length modulo
      `2^32`, so a reader takes too few bytes. */
  lemma LongStringLengthWraps(s: bytes)
    requires |s| >= 0x1_0000_0000
    ensures var r := Encode7BitString(Some(s));
      Weight(r[..|r| - |s|]) == |s| - 0x1_0000_0000 * (|s| / 0x1_0000_0000) < |s|
  {
  }

  /** Reads a length-prefixed string off the front of `s`. */
  function ReadString(s: bytes): (r: Option<(bytes, bytes)>)
    ensures r.Some? ==> |r.value.1| < |s|
  {
    match ReadVarint(s)
    case None => None
    case Some((n, rest)) => if n <= |rest| then Some((rest[..n], rest[n..])) else None
  }

  /** Strings shorter than 4 GiB read back; an absent string reads back as
      the empty one. */
  lemma ReadEncodedString(s: Option<bytes>, rest: bytes)
    requires s.Some? ==> |s.value| < 0x1_0000_0000
    ensures ReadString(Encode7BitString(s) + rest)
         == Some((if s.Some? then s.value else [], rest))
  {
    match s
    case None =>
      ReadEncoded(0, rest);
      assert Encode7BitString(s) == Encode7Bit(0);
      assert (rest)[..0] == [] && rest[0..] == rest;
    case Some(text) =>
      var p := Encode7Bit(|text|);
      assert Encode7BitString(s) == p + text;
      assert Encode7BitString(s) + rest == p + (text + rest);
      ReadEncoded(|text|, text + rest);
      assert (text + rest)[..|text|] == text;
      assert (text + rest)[|text|..] == rest;
  }
}
