/** `CommManagerSwitch::acquire`, the handshake on the switch pipe: write
    a 16-byte instance identifier, read a little-endian `u32` status, and on
    status 0 read the two `isize` handles of the instance's own pipe. The
    pipe is modelled by the bytes written to it and the bytes it answers
    with; a response that ends early is an end-of-file error of
    `read_exact`. */
module Switch {
  import opened Bytes
  import opened Results
  import ProgressBars

  /** `CommManagerInstance`, by its raw read and write handles. */
  datatype Instance = Instance(readHandle: int, writeHandle: int)

  /** A failed `write_all`: how many bytes went out before `error`. */
  datatype WriteFault = WriteFault(accepted: nat, error: IoError)

  /** The bytes written to the switch pipe and the call's result. */
  datatype Acquired = Acquired(written: bytes, result: Result<Instance, IoError>)

  const UUID_LENGTH: nat := 16
  const STATUS_LENGTH: nat := 4
  const HANDLE_LENGTH: nat := 8

  predicate IsIsize(v: int) {
    -0x8000_0000_0000_0000 <= v < 0x8000_0000_0000_0000
  }

  /** The `u32` status at the head of a response. */
  function Status(response: bytes): (s: u32)
    requires |response| >= STATUS_LENGTH
  {
    PowersOf256();
    FromLittleEndian(response[..STATUS_LENGTH])
  }

  /** The `isize` stored little-endian at `response[at..at + 8]`. */
  function HandleAt(response: bytes, at: nat): (h: int)
    requires at + HANDLE_LENGTH <= |response|
    ensures IsIsize(h)
  {
    PowersOf256();
    ToSigned64(FromLittleEndian(response[at..at + HANDLE_LENGTH]))
  }

  function Acquire(uuid: bytes, response: bytes, fault: Option<WriteFault>): (r: Acquired)
    ensures |uuid| != UUID_LENGTH ==> r == Acquired([], Err(IoError(InvalidInput)))
    ensures |uuid| == UUID_LENGTH && fault.None? ==> r.written == uuid
    ensures |uuid| == UUID_LENGTH && fault.Some? ==>
      |r.written| < UUID_LENGTH && r.written == uuid[..|r.written|] && r.result == Err(fault.value.error)
    ensures r.result.Ok? <==>
      |uuid| == UUID_LENGTH && fault.None? && |response| >= 20 && Status(response) == 0
    ensures r.result.Ok? ==>
      r.result.value == Instance(HandleAt(response, 4), HandleAt(response, 12))
    ensures |uuid| == UUID_LENGTH && fault.None? && |response| >= STATUS_LENGTH && Status(response) != 0 ==>
      r.result == Err(IoError(Other))
    ensures |uuid| == UUID_LENGTH && fault.None? && r.result.Err? && r.result.error.kind != Other ==>
      r.result.error.kind == UnexpectedEof
        && (|response| < STATUS_LENGTH || (Status(response) == 0 && |response| < 20))
    ensures |uuid| == UUID_LENGTH && fault.None?
              && (|response| < STATUS_LENGTH || (Status(response) == 0 && |response| < 20)) ==>
      r.result == Err(IoError(UnexpectedEof))
  {
    if |uuid| != UUID_LENGTH then Acquired([], Err(IoError(InvalidInput)))
    else if fault.Some? then
      var sent := if fault.value.accepted < UUID_LENGTH then fault.value.accepted else UUID_LENGTH - 1;
      Acquired(uuid[..sent], Err(fault.value.error))
    else if |response| < STATUS_LENGTH then Acquired(uuid, Err(IoError(UnexpectedEof)))
    else if Status(response) != 0 then Acquired(uuid, Err(IoError(Other)))
    else if |response| < STATUS_LENGTH + HANDLE_LENGTH then Acquired(uuid, Err(IoError(UnexpectedEof)))
    else
      var readHandle := HandleAt(response, STATUS_LENGTH);
      if |response| < STATUS_LENGTH + 2 * HANDLE_LENGTH then Acquired(uuid, Err(IoError(UnexpectedEof)))
      else Acquired(uuid, Ok(Instance(readHandle, HandleAt(response, STATUS_LENGTH + HANDLE_LENGTH))))
  }

  /** The answer a switch sends: status, then on success the read and write
      handles in two's complement. */
  function EncodeResponse(status: u32, readHandle: int, writeHandle: int): (r: bytes)
    requires IsIsize(readHandle) && IsIsize(writeHandle)
    ensures |r| == 20
  {
    LittleEndian(status, STATUS_LENGTH)
      + LittleEndian(readHandle % 0x1_0000_0000_0000_0000, HANDLE_LENGTH)
      + LittleEndian(writeHandle % 0x1_0000_0000_0000_0000, HANDLE_LENGTH)
  }

  lemma SignedRoundTrip(v: int)
    requires IsIsize(v)
    ensures ToSigned64(v % 0x1_0000_0000_0000_0000) == v
  {
  }

  /** A well-formed answer is read back exactly; bytes after the 20th are
      never read, and a non-zero status fails whatever the handles. */
  lemma AcquireOfEncoded(uuid: bytes, status: u32, readHandle: int, writeHandle: int, extra: bytes)
    requires |uuid| == UUID_LENGTH
    requires IsIsize(readHandle) && IsIsize(writeHandle)
    ensures Acquire(uuid, EncodeResponse(status, readHandle, writeHandle) + extra, None)
         == Acquired(uuid, if status == 0 then Ok(Instance(readHandle, writeHandle)) else Err(IoError(Other)))
  {
    var s := EncodeResponse(status, readHandle, writeHandle) + extra;
    var rh := readHandle % 0x1_0000_0000_0000_0000;
    var wh := writeHandle % 0x1_0000_0000_0000_0000;
    PowersOf256();
    assert s[..4] == LittleEndian(status, 4);
    assert s[4..12] == LittleEndian(rh, 8);
    assert s[12..20] == LittleEndian(wh, 8);
    LittleEndianRoundTrip(status, 4);
    LittleEndianRoundTrip(rh, 8);
    LittleEndianRoundTrip(wh, 8);
    SignedRoundTrip(readHandle);
    SignedRoundTrip(writeHandle);
  }

  /** The identifier `ProgressBarManager::from_switch` presents. */
  const PROGRESS_BAR_UUID: bytes :=
    [0xFF, 0x70, 0xC1, 0x2B, 0x1F, 0x44, 0x20, 0x46, 0xBA, 0xAB, 0x44, 0xA4, 0x70, 0xE3, 0xCA, 0xB6]

  /** The bytes written and the new manager, with nothing sent yet. */
  datatype Switched = Switched(written: bytes, result: Result<ProgressBars.Manager, IoError>)

  /** `from_switch`: the progress-bar identifier is always accepted, so the
      handshake fails only on the pipe. */
  function FromSwitch(response: bytes, fault: Option<WriteFault>): (r: Switched)
    ensures fault.None? ==> r.written == PROGRESS_BAR_UUID
    ensures r.result.Err? ==> r.result.error.kind != InvalidInput || fault.Some?
    ensures r.result.Ok? <==> fault.None? && |response| >= 20 && Status(response) == 0
    ensures r.result.Ok? ==> r.result.value.sent == []
  {
    var acquired := Acquire(PROGRESS_BAR_UUID, response, fault);
    match acquired.result
    case Ok(_) => Switched(acquired.written, Ok(ProgressBars.Manager([])))
    case Err(e) => Switched(acquired.written, Err(e))
  }
}
