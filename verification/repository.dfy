/** The generic on-disk kernel repository (`hip_common::cache::KernelRepository`):
    five identifying fields are joined with ':' and hashed with SHA-256, and
    the blob lives at `<cache path>/<first two hex chars>/<64 hex chars>`. */
module Repository {
  import opened Bytes
  import opened Results
  import opened Hex
  import opened Digests
  import opened FileSystem

  /** The identifying fields of one cache entry, in digest order. `device` is
      a C string and enters the digest without its NUL terminator. */
  datatype Key = Key(
    hash: bytes,
    compilerVersion: bytes,
    gitHash: bytes,
    device: CStrBytes,
    additionalParameters: bytes)

  datatype KernelRepository = KernelRepository(cachePath: Path)

  /** Outcome of a save: the filesystem afterwards (directories created before
      a failure stay created) and the `io::Result<()>`. */
  datatype Saved = Saved(fs: Fs, result: Result<(), IoError>)

  function New(cachePath: Path): (r: KernelRepository)
    ensures r.cachePath == cachePath
  {
    KernelRepository(cachePath)
  }

  /** The bytes fed to SHA-256, update by update. */
  function DigestInput(k: Key): (r: bytes)
    ensures r == k.hash + [COLON] + k.compilerVersion + [COLON] + k.gitHash
                 + [COLON] + k.device + [COLON] + k.additionalParameters
    ensures |r| == |k.hash| + |k.compilerVersion| + |k.gitHash| + |k.device|
                   + |k.additionalParameters| + 4
  {
    NewHasher
      .Update(k.hash).Update([COLON])
      .Update(k.compilerVersion).Update([COLON])
      .Update(k.gitHash).Update([COLON])
      .Update(k.device).Update([COLON])
      .Update(k.additionalParameters)
      .fed
  }

  /** The file an entry is stored in: the lower-hex SHA-256 name inside a
      directory named by its first two characters. */
  function EntryPath(h: HashSuite, repo: KernelRepository, k: Key): (p: Path)
    ensures |p| == |repo.cachePath| + 2 && p[..|repo.cachePath|] == repo.cachePath
    ensures p[|p| - 1] == HexLower(h.sha256(DigestInput(k)))
    ensures |p[|p| - 1]| == 64
    ensures p[|p| - 2] == p[|p| - 1][..2]
  {
    var name := HexLower(h.sha256(DigestInput(k)));
    repo.cachePath + [name[..2], name]
  }

  /** Every directory on the way to `p` can be created or already exists,
      and `p` itself is neither denied nor a directory. */
  predicate Writable(fs: Fs, p: Path)
  {
    && (forall k :: 1 <= k < |p| ==> DirCreatable(fs, p[..k]))
    && p !in fs.denied
    && p !in fs.dirs
  }

  /** What `create_dir_all` on the parent of `path` leaves behind. */
  lemma ParentCreated(fs: Fs, path: Path)
    requires |path| >= 2
    ensures var c := CreateDirAll(fs, Parent(path));
      && (c.error.None? <==> forall k :: 1 <= k < |path| ==> DirCreatable(fs, path[..k]))
      && (c.error.None? ==> Parent(path) in c.fs.dirs && (path in c.fs.dirs <==> path in fs.dirs))
      && (forall q :: q in c.fs.dirs && q !in fs.dirs ==> 1 <= |q| < |path| && q == path[..|q|])
      && c.fs.files == fs.files && c.fs.denied == fs.denied
  {
    assert forall k :: 1 <= k < |path| ==> Parent(path)[..k] == path[..k];
    assert Parent(path)[..|path| - 1] == Parent(path);
  }

  /** `save_program`: create the shard directory, then write the blob,
      propagating the first I/O error. */
  function SaveProgram(h: HashSuite, repo: KernelRepository, fs: Fs, k: Key, binary: bytes): (r: Saved)
    ensures r.result.Ok? <==> Writable(fs, EntryPath(h, repo, k))
    ensures r.result.Ok? ==> r.fs.files == fs.files[EntryPath(h, repo, k) := binary]
    ensures r.result.Err? ==> r.fs.files == fs.files
    ensures r.fs.denied == fs.denied
    ensures forall q :: q in r.fs.dirs && q !in fs.dirs ==> 1 <= |q| < |EntryPath(h, repo, k)| && q == EntryPath(h, repo, k)[..|q|]
  {
    var path := EntryPath(h, repo, k);
    var created := CreateDirAll(fs, Parent(path));
    ParentCreated(fs, path);
    if created.error.Some? then
      Saved(created.fs, Err(created.error.value))
    else
      var written := Write(created.fs, path, binary);
      if written.error.Some? then Saved(written.fs, Err(written.error.value))
      else Saved(written.fs, Ok(()))
  }

  /** `try_load_program`: a hit is `Ok(Some(blob))`, a missing file is
      `Ok(None)`, any other read error is returned unchanged. */
  function TryLoadProgram(h: HashSuite, repo: KernelRepository, fs: Fs, k: Key): (r: Result<Option<bytes>, IoError>)
    ensures var p := EntryPath(h, repo, k);
      && (r == Ok(None) <==> p !in fs.denied && p !in fs.dirs && p !in fs.files)
      && (r.Ok? && r.value.Some? <==> p !in fs.denied && p !in fs.dirs && p in fs.files)
      && (r.Ok? && r.value.Some? ==> r.value.value == fs.files[p])
      && (r.Err? ==> r.error.kind != NotFound && Read(fs, p) == Err(r.error))
  {
    match Read(fs, EntryPath(h, repo, k))
    case Ok(binary) => Ok(Some(binary))
    case Err(err) => if err.kind == NotFound then Ok(None) else Err(err)
  }

  /** A successful save is read back byte for byte, whatever the path held
      before (so a second save overwrites the first). */
  lemma SaveThenLoad(h: HashSuite, repo: KernelRepository, fs: Fs, k: Key, binary: bytes)
    requires SaveProgram(h, repo, fs, k, binary).result.Ok?
    ensures TryLoadProgram(h, repo, SaveProgram(h, repo, fs, k, binary).fs, k) == Ok(Some(binary))
  {
  }

  /** A load sees only the entry's own path. */
  lemma LoadSeesOnlyItsPath(h: HashSuite, repo: KernelRepository, fs1: Fs, fs2: Fs, k: Key)
    requires var p := EntryPath(h, repo, k);
      && (p in fs1.denied <==> p in fs2.denied)
      && (p in fs1.dirs <==> p in fs2.dirs)
      && (p in fs1.files <==> p in fs2.files)
      && (p in fs1.files ==> fs1.files[p] == fs2.files[p])
    ensures TryLoadProgram(h, repo, fs1, k) == TryLoadProgram(h, repo, fs2, k)
  {
  }

  /** Saving under one key does not change what a load under a key with a
      different path observes. */
  lemma SaveLeavesOtherEntries(h: HashSuite, repo: KernelRepository, fs: Fs, k: Key, binary: bytes, other: Key)
    requires EntryPath(h, repo, other) != EntryPath(h, repo, k)
    ensures TryLoadProgram(h, repo, SaveProgram(h, repo, fs, k, binary).fs, other) == TryLoadProgram(h, repo, fs, other)
  {
    var saved := SaveProgram(h, repo, fs, k, binary);
    var p := EntryPath(h, repo, other);
    assert |p| == |EntryPath(h, repo, k)|;
    assert p in saved.fs.dirs <==> p in fs.dirs;
    LoadSeesOnlyItsPath(h, repo, saved.fs, fs, other);
  }

  /** Split at the first occurrence of `sep`; `None` when there is none. */
  function SplitAtFirst(sep: byte, s: bytes): (r: Option<(bytes, bytes)>)
    ensures r.None? <==> sep !in s
    ensures r.Some? ==> s == r.value.0 + [sep] + r.value.1 && sep !in r.value.0
  {
    if |s| == 0 then None
    else if s[0] == sep then Some(([], s[1..]))
    else
      match SplitAtFirst(sep, s[1..])
      case None => None
      case Some((a, b)) => Some(([s[0]] + a, b))
  }

  lemma {:induction false} SplitAtFirstOfJoined(sep: byte, a: bytes, b: bytes)
    requires sep !in a
    ensures SplitAtFirst(sep, a + [sep] + b) == Some((a, b))
  {
    if |a| > 0 {
      assert (a + [sep] + b)[1..] == a[1..] + [sep] + b;
      SplitAtFirstOfJoined(sep, a[1..], b);
      assert [a[0]] + a[1..] == a;
    }
  }

  /** Reads `n` colon-separated fields back, the last one taking the rest. */
  function SplitFields(s: bytes, n: nat): Option<seq<bytes>>
    requires n >= 1
    decreases n
  {
    if n == 1 then Some([s])
    else
      match SplitAtFirst(COLON, s)
      case None => None
      case Some((field, rest)) =>
        match SplitFields(rest, n - 1)
        case None => None
        case Some(fields) => Some([field] + fields)
  }

  function Fields(k: Key): seq<bytes> {
    [k.hash, k.compilerVersion, k.gitHash, k.device, k.additionalParameters]
  }

  lemma SplitFieldsStep(field: bytes, rest: bytes, n: nat, fields: seq<bytes>)
    requires n >= 2 && COLON !in field
    requires SplitFields(rest, n - 1) == Some(fields)
    ensures SplitFields(field + [COLON] + rest, n) == Some([field] + fields)
  {
    SplitAtFirstOfJoined(COLON, field, rest);
  }

  lemma FieldTails(k: Key)
    ensures [k.device] + [k.additionalParameters] == Fields(k)[3..]
    ensures [k.gitHash] + Fields(k)[3..] == Fields(k)[2..]
    ensures [k.compilerVersion] + Fields(k)[2..] == Fields(k)[1..]
    ensures [k.hash] + Fields(k)[1..] == Fields(k)
  {
  }

  /** When the first four fields hold no ':', the digest input determines
      the key: splitting it at the first four colons gives the fields back. */
  lemma DigestInputRecovery(k: Key)
    requires COLON !in k.hash && COLON !in k.compilerVersion
    requires COLON !in k.gitHash && COLON !in k.device
    ensures SplitFields(DigestInput(k), 5) == Some(Fields(k))
  {
    var d := k.device + [COLON] + k.additionalParameters;
    var g := k.gitHash + [COLON] + d;
    var c := k.compilerVersion + [COLON] + g;
    FieldTails(k);
    SplitFieldsStep(k.device, k.additionalParameters, 2, [k.additionalParameters]);
    SplitFieldsStep(k.gitHash, d, 3, Fields(k)[3..]);
    SplitFieldsStep(k.compilerVersion, g, 4, Fields(k)[2..]);
    SplitFieldsStep(k.hash, c, 5, Fields(k)[1..]);
    DigestInputNested(k);
  }

  /** Five fields joined by separators, regrouped from the right. */
  lemma JoinedNested(a: bytes, b: bytes, c: bytes, d: bytes, e: bytes, sep: bytes)
    ensures a + sep + b + sep + c + sep + d + sep + e == a + sep + (b + sep + (c + sep + (d + sep + e)))
  {
  }

  lemma DigestInputNested(k: Key)
    ensures DigestInput(k) == k.hash + [COLON] + (k.compilerVersion + [COLON] + (k.gitHash + [COLON]
                              + (k.device + [COLON] + k.additionalParameters)))
  {
    JoinedNested(k.hash, k.compilerVersion, k.gitHash, k.device, k.additionalParameters, [COLON]);
  }

  lemma DigestInputInjective(k1: Key, k2: Key)
    requires COLON !in k1.hash && COLON !in k1.compilerVersion && COLON !in k1.gitHash && COLON !in k1.device
    requires COLON !in k2.hash && COLON !in k2.compilerVersion && COLON !in k2.gitHash && COLON !in k2.device
    requires DigestInput(k1) == DigestInput(k2)
    ensures k1 == k2
  {
    DigestInputRecovery(k1);
    DigestInputRecovery(k2);
    assert Fields(k1) == Fields(k2);
  }

  lemma ShiftedSeparator(head: bytes, rest: bytes)
    ensures head + ([0x61, COLON, 0x62] + [COLON] + ([0x63] + [COLON] + rest))
         == head + ([0x61] + [COLON] + ([0x62, COLON, 0x63] + [COLON] + rest))
  {
    assert [0x61, COLON, 0x62] + [COLON] + ([0x63] + [COLON] + rest) == [0x61, COLON, 0x62, COLON, 0x63, COLON] + rest;
    assert [0x61] + [COLON] + ([0x62, COLON, 0x63] + [COLON] + rest) == [0x61, COLON, 0x62, COLON, 0x63, COLON] + rest;
  }

  /** Fields are not length-framed: compiler version "a:b" with git hash "c"
      and compiler version "a" with git hash "b:c" are different keys that
      share one entry path, so a load under one finds the other's blob. */
  lemma FieldShiftAliases(h: HashSuite, repo: KernelRepository, hash: bytes, device: CStrBytes, extra: bytes)
    ensures var k1 := Key(hash, [0x61, COLON, 0x62], [0x63], device, extra);
            var k2 := Key(hash, [0x61], [0x62, COLON, 0x63], device, extra);
            k1 != k2 && EntryPath(h, repo, k1) == EntryPath(h, repo, k2)
  {
    var k1 := Key(hash, [0x61, COLON, 0x62], [0x63], device, extra);
    var k2 := Key(hash, [0x61], [0x62, COLON, 0x63], device, extra);
    assert k1.compilerVersion != k2.compilerVersion;
    DigestInputNested(k1);
    DigestInputNested(k2);
    ShiftedSeparator(hash + [COLON], device + [COLON] + extra);
  }
}
