/** An abstract filesystem: regular files (path to contents), directories,
    and a set of paths whose access fails with a permission error (the
    oracle for every fault other than a missing file). The model covers
    `fs::create_dir_all`, `fs::write` and `fs::read` as the repository uses
    them; partial writes and concurrent writers are not modelled. */
module FileSystem {
  import opened Bytes
  import opened Results

  /** A path as its sequence of components; `[]` is the filesystem root,
      which always exists. */
  type Path = seq<bytes>

  datatype Fs = Fs(files: map<Path, bytes>, dirs: set<Path>, denied: set<Path>)

  /** The state after an operation, with the error that stopped it, if any. */
  datatype Step = Step(fs: Fs, error: Option<IoError>)

  function Parent(p: Path): Path
    requires |p| > 0
  {
    p[..|p| - 1]
  }

  /** `create_dir` on `q` succeeds, or fails only because `q` already is a
      directory (which `create_dir_all` accepts). */
  predicate DirCreatable(fs: Fs, q: Path) {
    q in fs.dirs || (q !in fs.denied && q !in fs.files)
  }

  function MakeDir(fs: Fs, q: Path): (r: Step)
    ensures r.error.None? <==> DirCreatable(fs, q)
    ensures r.error.None? ==> r.fs == fs.(dirs := fs.dirs + {q})
    ensures r.error.Some? ==> r.fs == fs && r.error.value.kind != NotFound
  {
    if q in fs.dirs then Step(fs, None)
    else if q in fs.denied then Step(fs, Some(IoError(PermissionDenied)))
    else if q in fs.files then Step(fs, Some(IoError(AlreadyExists)))
    else Step(fs.(dirs := fs.dirs + {q}), None)
  }

  /** `fs::create_dir_all`: creates every non-empty prefix of `p`, outermost
      first, stopping at the first failure. */
  function CreateDirAll(fs: Fs, p: Path): (r: Step)
    ensures r.error.None? <==> forall k :: 1 <= k <= |p| ==> DirCreatable(fs, p[..k])
    ensures r.fs.files == fs.files && r.fs.denied == fs.denied
    ensures forall q :: q in r.fs.dirs <==> q in fs.dirs || (q in r.fs.dirs && 1 <= |q| <= |p| && q == p[..|q|])
    ensures r.error.None? ==> forall q :: q in r.fs.dirs <==> q in fs.dirs || (1 <= |q| <= |p| && q == p[..|q|])
    ensures r.error.Some? ==> r.error.value.kind != NotFound
    decreases |p|
  {
    if |p| == 0 then Step(fs, None)
    else
      var outer := CreateDirAll(fs, Parent(p));
      assert forall k :: 1 <= k <= |p| - 1 ==> Parent(p)[..k] == p[..k];
      assert p[..|p|] == p;
      if outer.error.Some? then outer
      else
        var r := MakeDir(outer.fs, p);
        assert p in outer.fs.dirs <==> p in fs.dirs;
        assert DirCreatable(outer.fs, p) <==> DirCreatable(fs, p);
        assert r.error.None? ==> forall q :: q in r.fs.dirs <==> q in outer.fs.dirs || q == p;
        r
  }

  /** `fs::write`: creates or truncates the file at `p`. */
  function Write(fs: Fs, p: Path, data: bytes): (r: Step)
    requires |p| > 0
    ensures r.error.None? <==> p !in fs.denied && p !in fs.dirs && (|p| == 1 || Parent(p) in fs.dirs)
    ensures r.error.None? ==> r.fs == fs.(files := fs.files[p := data])
    ensures r.error.Some? ==> r.fs == fs
  {
    if p in fs.denied then Step(fs, Some(IoError(PermissionDenied)))
    else if p in fs.dirs then Step(fs, Some(IoError(IsADirectory)))
    else if |p| > 1 && Parent(p) !in fs.dirs then Step(fs, Some(IoError(NotFound)))
    else Step(fs.(files := fs.files[p := data]), None)
  }

  /** `fs::read`: a missing path is `NotFound`; a directory or a denied path
      is a different error. */
  function Read(fs: Fs, p: Path): (r: Result<bytes, IoError>)
    ensures r.Ok? <==> p !in fs.denied && p !in fs.dirs && p in fs.files
    ensures r.Ok? ==> r.value == fs.files[p]
    ensures r.Err? ==> (r.error.kind == NotFound <==> p !in fs.denied && p !in fs.dirs && p !in fs.files)
  {
    if p in fs.denied then Err(IoError(PermissionDenied))
    else if p in fs.dirs then Err(IoError(IsADirectory))
    else if p in fs.files then Ok(fs.files[p])
    else Err(IoError(NotFound))
  }
}
