/** The compute-kernel cache (`zluda`'s `KernelCache`): the content hash is
    BLAKE3 over the PTX modules streamed in order, the compilation mode is the
    single auxiliary byte, and every repository error is swallowed. */
module ComputeCache {
  import opened Bytes
  import opened Results
  import opened Hex
  import opened Digests
  import opened FileSystem
  import Repository

  datatype KernelCache = KernelCache(repo: Repository.KernelRepository)

  /** `KernelCache::new` cannot fail. */
  function New(cacheDir: Path): (r: Option<KernelCache>)
    ensures r.Some? && r.value.repo.cachePath == cacheDir
  {
    Some(KernelCache(Repository.New(cacheDir)))
  }

  /** The content hash: lower-hex BLAKE3 of the modules' bytes in order. */
  function ContentHash(h: HashSuite, modules: seq<bytes>): bytes
  {
    HexLower(h.blake3(Flatten(modules)))
  }

  /** The hashing loop of `save_program`/`try_load_program`: one hasher,
      updated with each module in turn, equals hashing the concatenation. */
  method HashModules(h: HashSuite, modules: seq<bytes>) returns (hex: bytes)
    ensures hex == ContentHash(h, modules)
    ensures |hex| == 64
  {
    var hasher := NewHasher;
    var i := 0;
    while i < |modules|
      invariant 0 <= i <= |modules|
      invariant hasher.fed == Flatten(modules[..i])
    {
      FlattenAppend(modules[..i], [modules[i]]);
      assert modules[..i + 1] == modules[..i] + [modules[i]];
      hasher := hasher.Update(modules[i]);
      i := i + 1;
    }
    assert modules[..i] == modules;
    hex := HexLower(h.blake3(hasher.fed));
  }

  /** The repository key both operations build: build identity `gitSha`,
      and the mode's `as u8` value as the only auxiliary byte. */
  function KeyFor(h: HashSuite, gitSha: bytes, compilerVersion: bytes, device: CStrBytes,
                  modules: seq<bytes>, mode: byte): Repository.Key
  {
    Repository.Key(ContentHash(h, modules), compilerVersion, gitSha, device, [mode])
  }

  function PathFor(h: HashSuite, gitSha: bytes, cache: KernelCache, compilerVersion: bytes,
                   device: CStrBytes, modules: seq<bytes>, mode: byte): Path
  {
    Repository.EntryPath(h, cache.repo, KeyFor(h, gitSha, compilerVersion, device, modules, mode))
  }

  /** `save_program`: the repository's result is discarded, so the caller
      only ever sees the filesystem, which either holds the binary at the
      key's path or has the same files as before. */
  function SaveProgram(h: HashSuite, gitSha: bytes, cache: KernelCache, fs: Fs, compilerVersion: bytes,
                       device: CStrBytes, modules: seq<bytes>, mode: byte, binary: bytes): (r: Fs)
    ensures var p := PathFor(h, gitSha, cache, compilerVersion, device, modules, mode);
      && (Repository.Writable(fs, p) ==> r.files == fs.files[p := binary])
      && (!Repository.Writable(fs, p) ==> r.files == fs.files)
      && r.denied == fs.denied
  {
    Repository.SaveProgram(h, cache.repo, fs, KeyFor(h, gitSha, compilerVersion, device, modules, mode), binary).fs
  }

  /** `try_load_program`: `Some` exactly on a repository hit; a miss and an
      I/O error both become `None`. */
  function TryLoadProgram(h: HashSuite, gitSha: bytes, cache: KernelCache, fs: Fs, compilerVersion: bytes,
                          device: CStrBytes, modules: seq<bytes>, mode: byte): (r: Option<bytes>)
    ensures var loaded := Repository.TryLoadProgram(h, cache.repo, fs, KeyFor(h, gitSha, compilerVersion, device, modules, mode));
      && (r.Some? <==> loaded.Ok? && loaded.value.Some?)
      && (r.Some? ==> loaded == Ok(r))
    ensures var p := PathFor(h, gitSha, cache, compilerVersion, device, modules, mode);
      r.Some? <==> p in fs.files && p !in fs.dirs && p !in fs.denied
  {
    match Repository.TryLoadProgram(h, cache.repo, fs, KeyFor(h, gitSha, compilerVersion, device, modules, mode))
    case Ok(Some(binary)) => Some(binary)
    case Ok(None) => None
    case Err(_) => None
  }

  /** Save then load with the same arguments returns the saved binary when
      the entry's path is writable. */
  lemma SaveThenLoad(h: HashSuite, gitSha: bytes, cache: KernelCache, fs: Fs, compilerVersion: bytes,
                     device: CStrBytes, modules: seq<bytes>, mode: byte, binary: bytes)
    requires Repository.Writable(fs, PathFor(h, gitSha, cache, compilerVersion, device, modules, mode))
    ensures var saved := SaveProgram(h, gitSha, cache, fs, compilerVersion, device, modules, mode, binary);
      TryLoadProgram(h, gitSha, cache, saved, compilerVersion, device, modules, mode) == Some(binary)
  {
    Repository.SaveThenLoad(h, cache.repo, fs, KeyFor(h, gitSha, compilerVersion, device, modules, mode), binary);
  }

  /** Only the concatenation of the modules counts: splitting one module in
      two at any point yields the same key. */
  lemma {:induction false} ModuleBoundariesIgnored(h: HashSuite, before: seq<bytes>, x: bytes, y: bytes, after: seq<bytes>)
    ensures ContentHash(h, before + [x + y] + after) == ContentHash(h, before + [x, y] + after)
  {
    FlattenAppend(before + [x + y], after);
    FlattenAppend(before, [x + y]);
    FlattenAppend(before + [x, y], after);
    FlattenAppend(before, [x, y]);
    assert Flatten([x, y]) == x + y by {
      assert [x, y][1..] == [y];
      assert Flatten([y]) == y + Flatten([]);
    }
    assert Flatten([x + y]) == x + y by {
      assert Flatten([x + y]) == x + y + Flatten([]);
    }
  }

  /** Module order is part of the key: when BLAKE3 tells "ab" from "ba",
      swapping two modules changes the content hash. */
  lemma {:induction false} ModuleOrderMatters(h: HashSuite, a: bytes, b: bytes)
    requires h.blake3(a + b) != h.blake3(b + a)
    ensures ContentHash(h, [a, b]) != ContentHash(h, [b, a])
  {
    assert [a, b][1..] == [b] && [b, a][1..] == [a];
    assert Flatten([a, b]) == a + b by {
      assert Flatten([b]) == b + Flatten([]);
    }
    assert Flatten([b, a]) == b + a by {
      assert Flatten([a]) == a + Flatten([]);
    }
    HexInjective(h.blake3(a + b), h.blake3(b + a));
  }

  /** Two modes give two digest inputs; when SHA-256 keeps them apart, a
      binary saved under one mode is not found under the other. */
  lemma OtherModeMisses(h: HashSuite, gitSha: bytes, cache: KernelCache, fs: Fs, compilerVersion: bytes,
                        device: CStrBytes, modules: seq<bytes>, saved: byte, asked: byte, binary: bytes)
    requires saved != asked
    requires var d1 := Repository.DigestInput(KeyFor(h, gitSha, compilerVersion, device, modules, saved));
             var d2 := Repository.DigestInput(KeyFor(h, gitSha, compilerVersion, device, modules, asked));
             h.sha256(d1) != h.sha256(d2)
    requires PathFor(h, gitSha, cache, compilerVersion, device, modules, asked) !in fs.files
    ensures var after := SaveProgram(h, gitSha, cache, fs, compilerVersion, device, modules, saved, binary);
      TryLoadProgram(h, gitSha, cache, after, compilerVersion, device, modules, asked) == None
  {
    var k1 := KeyFor(h, gitSha, compilerVersion, device, modules, saved);
    var k2 := KeyFor(h, gitSha, compilerVersion, device, modules, asked);
    HexInjective(h.sha256(Repository.DigestInput(k1)), h.sha256(Repository.DigestInput(k2)));
    Repository.SaveLeavesOtherEntries(h, cache.repo, fs, k1, binary, k2);
  }
}
