/** The ray-tracing program cache (`zluda_rt`'s `KernelRepository` wrapper
    and `KernelCache`): the content hash is SHA-512 over the PTX text, and
    the auxiliary key bytes are `<program name>:<attribute JSON>:<HIPRT
    version>`. */
module RayTracingCache {
  import opened Bytes
  import opened Results
  import opened Hex
  import opened Digests
  import opened FileSystem
  import Repository
  import opened Attributes

  /** `zluda_rt::cache::KernelRepository`, a thin wrapper. */
  datatype RtRepository = RtRepository(inner: Repository.KernelRepository)

  datatype KernelCache = KernelCache(repo: RtRepository)

  /** `KernelRepository::new` always returns `Ok`. */
  function NewRepository(cacheFile: Path): (r: Result<RtRepository, ()>)
    ensures r.Ok? && r.value.inner.cachePath == cacheFile
  {
    Ok(RtRepository(Repository.New(cacheFile)))
  }

  /** `KernelCache::new`: `Some` because the repository never fails. */
  function New(cacheDir: Path): (r: Option<KernelCache>)
    ensures r.Some? && r.value.repo.inner.cachePath == cacheDir
  {
    match NewRepository(cacheDir)
    case Ok(repo) => Some(KernelCache(repo))
    case Err(_) => None
  }

  /** The auxiliary bytes both repository operations build: the three
      fields in order, separated by single colons. */
  function AuxData(programName: CStrBytes, inputAttributes: bytes, hiprtVersion: bytes): (r: bytes)
    ensures |r| == |programName| + |inputAttributes| + |hiprtVersion| + 2
    ensures r[..|programName|] == programName && r[|programName|] == COLON
    ensures r[|programName| + 1..|programName| + 1 + |inputAttributes|] == inputAttributes
    ensures r[|programName| + 1 + |inputAttributes|] == COLON
    ensures r[|programName| + 2 + |inputAttributes|..] == hiprtVersion
  {
    programName + [COLON] + inputAttributes + [COLON] + hiprtVersion
  }

  /** The repository key of the wrapper's `save_program`/`try_load_program`. */
  function RepositoryKey(programName: CStrBytes, hash: bytes, compilerVersion: bytes, gitHash: bytes,
                         device: CStrBytes, inputAttributes: bytes, hiprtVersion: bytes): Repository.Key
  {
    Repository.Key(hash, compilerVersion, gitHash, device, AuxData(programName, inputAttributes, hiprtVersion))
  }

  /** The wrapper's `save_program` forwards to the generic repository. */
  function SaveToRepository(h: HashSuite, repo: RtRepository, fs: Fs, programName: CStrBytes, hash: bytes,
                            compilerVersion: bytes, gitHash: bytes, device: CStrBytes, binary: bytes,
                            inputAttributes: bytes, hiprtVersion: bytes): (r: Repository.Saved)
    ensures var k := RepositoryKey(programName, hash, compilerVersion, gitHash, device, inputAttributes, hiprtVersion);
      && (r.result.Ok? <==> Repository.Writable(fs, Repository.EntryPath(h, repo.inner, k)))
      && (r.result.Ok? ==> r.fs.files == fs.files[Repository.EntryPath(h, repo.inner, k) := binary])
      && (r.result.Err? ==> r.fs.files == fs.files)
  {
    Repository.SaveProgram(h, repo.inner, fs,
      RepositoryKey(programName, hash, compilerVersion, gitHash, device, inputAttributes, hiprtVersion), binary)
  }

  /** The wrapper's `try_load_program` forwards to the generic repository. */
  function LoadFromRepository(h: HashSuite, repo: RtRepository, fs: Fs, programName: CStrBytes, hash: bytes,
                              compilerVersion: bytes, gitHash: bytes, device: CStrBytes,
                              inputAttributes: bytes, hiprtVersion: bytes): (r: Result<Option<bytes>, IoError>)
    ensures var p := Repository.EntryPath(h, repo.inner,
              RepositoryKey(programName, hash, compilerVersion, gitHash, device, inputAttributes, hiprtVersion));
      && (r == Ok(None) <==> p !in fs.denied && p !in fs.dirs && p !in fs.files)
      && (r.Ok? && r.value.Some? <==> p !in fs.denied && p !in fs.dirs && p in fs.files)
      && (r.Ok? && r.value.Some? ==> r.value.value == fs.files[p])
  {
    Repository.TryLoadProgram(h, repo.inner, fs,
      RepositoryKey(programName, hash, compilerVersion, gitHash, device, inputAttributes, hiprtVersion))
  }

  /** Where two colon-joined texts agree and their heads hold no colon, the
      heads and the tails agree. */
  lemma {:induction false} JoinedHeadUnique(a1: bytes, b1: bytes, a2: bytes, b2: bytes)
    requires COLON !in a1 && COLON !in a2
    requires a1 + [COLON] + b1 == a2 + [COLON] + b2
    ensures a1 == a2 && b1 == b2
  {
    var s := a1 + [COLON] + b1;
    assert forall i | 0 <= i < |a1| :: s[i] != COLON;
    assert forall i | 0 <= i < |a2| :: s[i] != COLON;
    assert s[|a1|] == COLON && s[|a2|] == COLON;
    assert |a1| == |a2|;
    assert a1 == s[..|a1|] == a2;
    assert b1 == s[|a1| + 1..] == b2;
  }

  /** The mirror image: tails without a colon are split off the last colon. */
  lemma {:induction false} JoinedTailUnique(a1: bytes, b1: bytes, a2: bytes, b2: bytes)
    requires COLON !in b1 && COLON !in b2
    requires a1 + [COLON] + b1 == a2 + [COLON] + b2
    ensures a1 == a2 && b1 == b2
  {
    var s := a1 + [COLON] + b1;
    assert forall i | |a1| < i < |s| :: s[i] != COLON;
    assert forall i | |a2| < i < |s| :: s[i] != COLON;
    assert s[|a1|] == COLON && s[|a2|] == COLON;
    assert |b1| == |b2|;
    assert a1 == s[..|a1|] == a2;
    assert b1 == s[|a1| + 1..] == b2;
  }

  /** With a colon-free program name and HIPRT version, the auxiliary bytes
      determine all three fields, whatever colons the attribute text holds. */
  lemma AuxDataNested(n: CStrBytes, a: bytes, v: bytes)
    ensures AuxData(n, a, v) == n + [COLON] + (a + [COLON] + v)
  {
  }

  lemma AuxDataInjective(n1: CStrBytes, a1: bytes, v1: bytes, n2: CStrBytes, a2: bytes, v2: bytes)
    requires COLON !in n1 && COLON !in n2 && COLON !in v1 && COLON !in v2
    requires AuxData(n1, a1, v1) == AuxData(n2, a2, v2)
    ensures n1 == n2 && a1 == a2 && v1 == v2
  {
    AuxDataNested(n1, a1, v1);
    AuxDataNested(n2, a2, v2);
    JoinedHeadUnique(n1, a1 + [COLON] + v1, n2, a2 + [COLON] + v2);
    JoinedTailUnique(a1, v1, a2, v2);
  }

  /** A colon in a HIPRT version makes the layout ambiguous: moving the
      attribute text's last colon-separated piece into the version gives the
      same auxiliary bytes. */
  lemma VersionColonAliases(name: CStrBytes, attrs: bytes, piece: bytes, version: bytes)
    ensures AuxData(name, attrs + [COLON] + piece, version) == AuxData(name, attrs, piece + [COLON] + version)
  {
    assert name + [COLON] + (attrs + [COLON] + piece) + [COLON] + version
        == name + [COLON] + attrs + [COLON] + (piece + [COLON] + version);
  }

  /** The content hash: lower-hex SHA-512 of the PTX text. */
  function ContentHash(h: HashSuite, ptx: bytes): (r: bytes)
    ensures |r| == 128 && COLON !in r
    ensures r == HexLower(h.sha512(ptx))
  {
    var r := HexLower(h.sha512(ptx));
    assert forall i :: 0 <= i < |r| ==> r[i] != COLON;
    r
  }

  /** The key `save_program` and `try_load_program` hand to the repository;
      `gitSha` is the build identity `VERGEN_GIT_SHA`. */
  function KeyFor(h: HashSuite, gitSha: bytes, compilerVersion: bytes, hiprtVersion: bytes, isa: CStrBytes,
                  programName: CStrBytes, ptx: bytes, attrs: seq<Attribute>): Repository.Key
    requires UniqueNames(attrs) && NamesAreUtf8(attrs)
  {
    RepositoryKey(programName, ContentHash(h, ptx), compilerVersion, gitSha, isa,
                  SerializeInputAttributes(attrs), hiprtVersion)
  }

  function PathFor(h: HashSuite, gitSha: bytes, cache: KernelCache, compilerVersion: bytes, hiprtVersion: bytes,
                   isa: CStrBytes, programName: CStrBytes, ptx: bytes, attrs: seq<Attribute>): Path
    requires UniqueNames(attrs) && NamesAreUtf8(attrs)
  {
    Repository.EntryPath(h, cache.repo.inner, KeyFor(h, gitSha, compilerVersion, hiprtVersion, isa, programName, ptx, attrs))
  }

  /** `KernelCache::save_program`: the repository's result is dropped; the
      filesystem holds the program binary at the key's path or keeps its
      files. */
  function SaveProgram(h: HashSuite, gitSha: bytes, cache: KernelCache, fs: Fs, compilerVersion: bytes,
                       hiprtVersion: bytes, isa: CStrBytes, programName: CStrBytes, ptx: bytes,
                       binary: bytes, attrs: seq<Attribute>): (r: Fs)
    requires UniqueNames(attrs) && NamesAreUtf8(attrs)
    ensures var p := PathFor(h, gitSha, cache, compilerVersion, hiprtVersion, isa, programName, ptx, attrs);
      && (Repository.Writable(fs, p) ==> r.files == fs.files[p := binary])
      && (!Repository.Writable(fs, p) ==> r.files == fs.files)
      && r.denied == fs.denied
  {
    SaveToRepository(h, cache.repo, fs, programName, ContentHash(h, ptx), compilerVersion, gitSha, isa,
                     binary, SerializeInputAttributes(attrs), hiprtVersion).fs
  }

  /** `KernelCache::try_load_program`: a readable entry is decoded with
      `fromBinary` (the program loader); a miss, an I/O error and a decoding
      failure all give `None`. */
  function TryLoadProgram<T>(h: HashSuite, gitSha: bytes, cache: KernelCache, fs: Fs, compilerVersion: bytes,
                             hiprtVersion: bytes, isa: CStrBytes, programName: CStrBytes, ptx: bytes,
                             attrs: seq<Attribute>, fromBinary: bytes -> Option<T>): (r: Option<T>)
    requires UniqueNames(attrs) && NamesAreUtf8(attrs)
    ensures var p := PathFor(h, gitSha, cache, compilerVersion, hiprtVersion, isa, programName, ptx, attrs);
      && (p in fs.files && p !in fs.dirs && p !in fs.denied ==> r == fromBinary(fs.files[p]))
      && (!(p in fs.files && p !in fs.dirs && p !in fs.denied) ==> r.None?)
  {
    match LoadFromRepository(h, cache.repo, fs, programName, ContentHash(h, ptx), compilerVersion, gitSha, isa,
                             SerializeInputAttributes(attrs), hiprtVersion)
    case Ok(Some(binary)) => fromBinary(binary)
    case Ok(None) => None
    case Err(_) => None
  }

  /** A program saved to a writable entry loads back through `fromBinary`. */
  lemma SaveThenLoad<T>(h: HashSuite, gitSha: bytes, cache: KernelCache, fs: Fs, compilerVersion: bytes,
                        hiprtVersion: bytes, isa: CStrBytes, programName: CStrBytes, ptx: bytes,
                        binary: bytes, attrs: seq<Attribute>, fromBinary: bytes -> Option<T>)
    requires UniqueNames(attrs) && NamesAreUtf8(attrs)
    requires Repository.Writable(fs, PathFor(h, gitSha, cache, compilerVersion, hiprtVersion, isa, programName, ptx, attrs))
    ensures var after := SaveProgram(h, gitSha, cache, fs, compilerVersion, hiprtVersion, isa, programName, ptx, binary, attrs);
      TryLoadProgram(h, gitSha, cache, after, compilerVersion, hiprtVersion, isa, programName, ptx, attrs, fromBinary)
        == fromBinary(binary)
  {
    var p := PathFor(h, gitSha, cache, compilerVersion, hiprtVersion, isa, programName, ptx, attrs);
    var after := Repository.SaveProgram(h, cache.repo.inner, fs,
      KeyFor(h, gitSha, compilerVersion, hiprtVersion, isa, programName, ptx, attrs), binary).fs;
    assert p in after.files && after.files[p] == binary;
    assert p !in after.denied;
    assert p !in after.dirs;
  }

  lemma KeyIgnoresOrder(h: HashSuite, gitSha: bytes, compilerVersion: bytes, hiprtVersion: bytes, isa: CStrBytes,
                        programName: CStrBytes, ptx: bytes, a: seq<Attribute>, b: seq<Attribute>)
    requires UniqueNames(a) && NamesAreUtf8(a) && UniqueNames(b) && NamesAreUtf8(b)
    requires forall x :: x in a <==> x in b
    ensures KeyFor(h, gitSha, compilerVersion, hiprtVersion, isa, programName, ptx, a)
         == KeyFor(h, gitSha, compilerVersion, hiprtVersion, isa, programName, ptx, b)
  {
    SerializationIsCanonical(a, b);
  }

  /** The attribute map's iteration order does not reach the key: a program
      saved with one ordering of the same entries is found with another. */
  lemma AttributeOrderIrrelevant<T>(h: HashSuite, gitSha: bytes, cache: KernelCache, fs: Fs, compilerVersion: bytes,
                                    hiprtVersion: bytes, isa: CStrBytes, programName: CStrBytes, ptx: bytes,
                                    binary: bytes, saved: seq<Attribute>, asked: seq<Attribute>,
                                    fromBinary: bytes -> Option<T>)
    requires UniqueNames(saved) && NamesAreUtf8(saved)
    requires UniqueNames(asked) && NamesAreUtf8(asked)
    requires forall x :: x in saved <==> x in asked
    requires Repository.Writable(fs, PathFor(h, gitSha, cache, compilerVersion, hiprtVersion, isa, programName, ptx, saved))
    ensures var after := SaveProgram(h, gitSha, cache, fs, compilerVersion, hiprtVersion, isa, programName, ptx, binary, saved);
      TryLoadProgram(h, gitSha, cache, after, compilerVersion, hiprtVersion, isa, programName, ptx, asked, fromBinary)
        == fromBinary(binary)
  {
    KeyIgnoresOrder(h, gitSha, compilerVersion, hiprtVersion, isa, programName, ptx, saved, asked);
    SaveThenLoad(h, gitSha, cache, fs, compilerVersion, hiprtVersion, isa, programName, ptx, binary, saved, fromBinary);
  }

  /** Different attribute entries give different SHA-256 inputs, provided
      the fields the layout does not frame hold no colon. */
  lemma DifferentAttributesDifferentInput(h: HashSuite, gitSha: bytes, compilerVersion: bytes, hiprtVersion: bytes,
                                          isa: CStrBytes, programName: CStrBytes, ptx: bytes,
                                          a: seq<Attribute>, b: seq<Attribute>)
    requires UniqueNames(a) && NamesAreUtf8(a) && UniqueNames(b) && NamesAreUtf8(b)
    requires COLON !in gitSha && COLON !in compilerVersion && COLON !in isa
    requires COLON !in programName && COLON !in hiprtVersion
    requires exists x :: (x in a) != (x in b)
    ensures Repository.DigestInput(KeyFor(h, gitSha, compilerVersion, hiprtVersion, isa, programName, ptx, a))
         != Repository.DigestInput(KeyFor(h, gitSha, compilerVersion, hiprtVersion, isa, programName, ptx, b))
  {
    var ka := KeyFor(h, gitSha, compilerVersion, hiprtVersion, isa, programName, ptx, a);
    var kb := KeyFor(h, gitSha, compilerVersion, hiprtVersion, isa, programName, ptx, b);
    SerializationIsCanonical(a, b);
    if Repository.DigestInput(ka) == Repository.DigestInput(kb) {
      Repository.DigestInputInjective(ka, kb);
      AuxDataInjective(programName, SerializeInputAttributes(a), hiprtVersion,
                       programName, SerializeInputAttributes(b), hiprtVersion);
      assert false;
    }
  }
}
