/** The progress-bar protocol's frames, as the manager's worker writes them
    to the pipe: a little-endian 2-byte opcode, the 8-byte bar id, then the
    command's fields. An `f64` travels as its 8 raw bytes, so the model
    carries its bit pattern as a `u64`. */
module ProgressFrames {
  import opened Bytes
  import opened Results
  import opened SevenBit

  /** The raw bits of an `f64`; no float arithmetic is modelled. */
  type F64Bits = u64

  /** `0.0_f64`, all bits clear. */
  const ZERO_F64: F64Bits := 0

  /** `ProgressCommand`. */
  datatype ProgressCommand =
    | SetProgress(id: u64, isIndeterminate: bool, max: F64Bits, name: Option<bytes>)
    | RemoveProgress(id: u64)
    | SetLeftText(id: u64, text: Option<bytes>)
    | SetRightText(id: u64, text: Option<bytes>)
    | SetProgressValue(id: u64, value: F64Bits)

  function Opcode(c: ProgressCommand): u16 {
    match c
    case SetProgress(_, _, _, _) => 1
    case RemoveProgress(_) => 2
    case SetLeftText(_, _) => 3
    case SetRightText(_, _) => 4
    case SetProgressValue(_, _) => 5
  }

  /** The 10-byte header every frame starts with. */
  function Header(opcode: u16, id: u64): (r: bytes)
    ensures |r| == 10
    ensures FromLittleEndian(r[..2]) == opcode && FromLittleEndian(r[2..10]) == id
  {
    PowersOf256();
    LittleEndianRoundTrip(opcode, 2);
    LittleEndianRoundTrip(id, 8);
    var r := LittleEndian(opcode, 2) + LittleEndian(id, 8);
    assert r[..2] == LittleEndian(opcode, 2) && r[2..10] == LittleEndian(id, 8);
    r
  }

  /** What follows the header: for SetProgress the flag byte, the max and
      the name, for the text commands the text, for SetProgressValue the
      value. */
  function Payload(c: ProgressCommand): bytes {
    match c
    case SetProgress(_, isIndeterminate, max, name) =>
      [if isIndeterminate then 1 else 0] + LittleEndian(max, 8) + Encode7BitString(name)
    case RemoveProgress(_) => []
    case SetLeftText(_, text) => Encode7BitString(text)
    case SetRightText(_, text) => Encode7BitString(text)
    case SetProgressValue(_, value) => LittleEndian(value, 8)
  }

  lemma Slices(a: bytes, b: bytes)
    ensures (a + b)[..|a|] == a && (a + b)[|a|..] == b
  {
  }

  /** One command's frame: its header, then its payload. */
  function EncodeFrame(c: ProgressCommand): (r: bytes)
    ensures |r| == 10 + |Payload(c)|
    ensures FromLittleEndian(r[..2]) == Opcode(c) && FromLittleEndian(r[2..10]) == c.id
    ensures r[10..] == Payload(c)
  {
    var header := Header(Opcode(c), c.id);
    var r := header + Payload(c);
    Slices(header, Payload(c));
    assert r[..2] == header[..2] && r[2..10] == header[2..10];
    r
  }

  /** The layout of each kind of frame. */
  lemma FrameLayout(c: ProgressCommand)
    ensures var r := EncodeFrame(c);
      && (c.SetProgress? ==>
            && |r| == 19 + |Encode7BitString(c.name)|
            && r[10] == (if c.isIndeterminate then 1 else 0)
            && FromLittleEndian(r[11..19]) == c.max
            && r[19..] == Encode7BitString(c.name))
      && (c.RemoveProgress? ==> |r| == 10)
      && (c.SetLeftText? || c.SetRightText? ==> r[10..] == Encode7BitString(c.text))
      && (c.SetProgressValue? ==> |r| == 18 && FromLittleEndian(r[10..18]) == c.value)
  {
    var r := EncodeFrame(c);
    PowersOf256();
    match c
    case SetProgress(_, isIndeterminate, max, name) =>
      var flag: bytes := [if isIndeterminate then 1 else 0];
      LittleEndianRoundTrip(max, 8);
      assert r[10..] == flag + LittleEndian(max, 8) + Encode7BitString(name);
      assert r[11..19] == r[10..][1..9] == LittleEndian(max, 8);
      assert r[19..] == r[10..][9..] == Encode7BitString(name);
    case RemoveProgress(_) =>
    case SetLeftText(_, _) =>
    case SetRightText(_, _) =>
    case SetProgressValue(_, value) =>
      LittleEndianRoundTrip(value, 8);
      assert r[10..18] == r[10..];
  }

  /** Reads the fields of a frame whose header is already read. */
  function DecodePayload(opcode: nat, id: u64, body: bytes): (r: Option<(ProgressCommand, bytes)>)
    ensures r.Some? ==> |r.value.1| <= |body|
  {
    if opcode == 1 then
      if |body| < 9 || body[0] > 1 then None
      else
        PowersOf256();
        var max: u64 := FromLittleEndian(body[1..9]);
        match ReadString(body[9..])
        case None => None
        case Some((name, rest)) => Some((SetProgress(id, body[0] == 1, max, Some(name)), rest))
    else if opcode == 2 then Some((RemoveProgress(id), body))
    else if opcode == 3 || opcode == 4 then
      match ReadString(body)
      case None => None
      case Some((text, rest)) =>
        Some((if opcode == 3 then SetLeftText(id, Some(text)) else SetRightText(id, Some(text)), rest))
    else if opcode == 5 then
      if |body| < 8 then None
      else
        PowersOf256();
        Some((SetProgressValue(id, FromLittleEndian(body[..8])), body[8..]))
    else None
  }

  /** Reads one frame off the front of `s`. The flag byte must be 0 or 1. */
  function DecodeFrame(s: bytes): (r: Option<(ProgressCommand, bytes)>)
    ensures r.Some? ==> |r.value.1| < |s|
  {
    if |s| < 10 then None
    else
      PowersOf256();
      DecodePayload(FromLittleEndian(s[..2]), FromLittleEndian(s[2..10]), s[10..])
  }

  /** Texts short enough for their 32-bit length prefix. */
  predicate TextsFit(c: ProgressCommand) {
    match c
    case SetProgress(_, _, _, name) => name.Some? ==> |name.value| < 0x1_0000_0000
    case SetLeftText(_, text) => text.Some? ==> |text.value| < 0x1_0000_0000
    case SetRightText(_, text) => text.Some? ==> |text.value| < 0x1_0000_0000
    case _ => true
  }

  /** The wire does not tell an absent text from an empty one; a decoded
      command always carries `Some`. */
  function Normalize(c: ProgressCommand): (r: ProgressCommand)
    ensures r.id == c.id && Opcode(r) == Opcode(c)
  {
    match c
    case SetProgress(id, ind, max, name) => SetProgress(id, ind, max, Some(if name.Some? then name.value else []))
    case SetLeftText(id, text) => SetLeftText(id, Some(if text.Some? then text.value else []))
    case SetRightText(id, text) => SetRightText(id, Some(if text.Some? then text.value else []))
    case _ => c
  }

  lemma EncodeNormalized(c: ProgressCommand)
    ensures EncodeFrame(Normalize(c)) == EncodeFrame(c)
  {
    EmptyStringIsAbsent();
  }

  lemma DecodeSetProgressFields(id: u64, body: bytes, max: F64Bits, name: bytes, rest: bytes)
    requires |body| >= 9 && body[0] <= 1 && FromLittleEndian(body[1..9]) == max
    requires ReadString(body[9..]) == Some((name, rest))
    ensures DecodePayload(1, id, body) == Some((SetProgress(id, body[0] == 1, max, Some(name)), rest))
  {
  }

  lemma FourParts(a: bytes, b: bytes, c: bytes, d: bytes)
    requires |a| == 1
    ensures var s := a + b + c + d;
      s[0] == a[0] && s[1..1 + |b|] == b && s[1 + |b|..] == c + d
  {
    var s := a + b + c + d;
    assert s == a + (b + (c + d));
  }

  lemma DecodeSetProgressPayload(id: u64, ind: bool, max: F64Bits, name: Option<bytes>, rest: bytes)
    requires name.Some? ==> |name.value| < 0x1_0000_0000
    ensures DecodePayload(1, id, Payload(SetProgress(id, ind, max, name)) + rest)
         == Some((SetProgress(id, ind, max, Some(if name.Some? then name.value else [])), rest))
  {
    var body := Payload(SetProgress(id, ind, max, name)) + rest;
    FourParts([if ind then 1 else 0], LittleEndian(max, 8), Encode7BitString(name), rest);
    PowersOf256();
    LittleEndianRoundTrip(max, 8);
    ReadEncodedString(name, rest);
    DecodeSetProgressFields(id, body, max, if name.Some? then name.value else [], rest);
  }

  lemma DecodeValuePayload(id: u64, value: F64Bits, rest: bytes)
    ensures DecodePayload(5, id, Payload(SetProgressValue(id, value)) + rest)
         == Some((SetProgressValue(id, value), rest))
  {
    Slices(LittleEndian(value, 8), rest);
    PowersOf256();
    LittleEndianRoundTrip(value, 8);
  }

  /** The fields after a header read back as the command's own. */
  lemma DecodePayloadOf(c: ProgressCommand, rest: bytes)
    requires TextsFit(c)
    ensures DecodePayload(Opcode(c), c.id, Payload(c) + rest) == Some((Normalize(c), rest))
  {
    match c
    case SetProgress(id, ind, max, name) =>
      DecodeSetProgressPayload(id, ind, max, name, rest);
    case RemoveProgress(id) =>
      assert Payload(c) + rest == rest;
    case SetLeftText(id, text) =>
      ReadEncodedString(text, rest);
    case SetRightText(id, text) =>
      ReadEncodedString(text, rest);
    case SetProgressValue(id, value) =>
      DecodeValuePayload(id, value, rest);
  }

  /** A frame reads back as the command it was written for, up to the
      absent/empty text identification, leaving what follows untouched. */
  lemma DecodeEncoded(c: ProgressCommand, rest: bytes)
    requires TextsFit(c)
    ensures DecodeFrame(EncodeFrame(c) + rest) == Some((Normalize(c), rest))
  {
    var e := EncodeFrame(c);
    var s := e + rest;
    Slices(e, rest);
    assert s[..2] == e[..2] && s[2..10] == e[2..10];
    assert s[10..] == Payload(c) + rest;
    DecodePayloadOf(c, rest);
  }

  /** The bytes of a command sequence, frame after frame. */
  function EncodeStream(cs: seq<ProgressCommand>): bytes {
    if |cs| == 0 then [] else EncodeFrame(cs[0]) + EncodeStream(cs[1..])
  }

  function DecodeStream(s: bytes): Option<seq<ProgressCommand>>
    decreases |s|
  {
    if |s| == 0 then Some([])
    else
      match DecodeFrame(s)
      case None => None
      case Some((c, rest)) =>
        match DecodeStream(rest)
        case None => None
        case Some(cs) => Some([c] + cs)
  }

  function NormalizeAll(cs: seq<ProgressCommand>): (r: seq<ProgressCommand>)
    ensures |r| == |cs| && forall i :: 0 <= i < |cs| ==> r[i] == Normalize(cs[i])
  {
    if |cs| == 0 then [] else [Normalize(cs[0])] + NormalizeAll(cs[1..])
  }

  /** Frames are self-delimiting: the pipe's byte stream determines the
      command sequence. */
  lemma {:induction false} DecodeEncodedStream(cs: seq<ProgressCommand>)
    requires forall i :: 0 <= i < |cs| ==> TextsFit(cs[i])
    ensures DecodeStream(EncodeStream(cs)) == Some(NormalizeAll(cs))
  {
    if |cs| > 0 {
      DecodeEncoded(cs[0], EncodeStream(cs[1..]));
      DecodeEncodedStream(cs[1..]);
      assert NormalizeAll(cs) == [Normalize(cs[0])] + NormalizeAll(cs[1..]);
    }
  }
}
