/** An abstract filesystem, local or remote, and the primitives the library
    calls on it. Every primitive takes a `fault`: when it is present, the
    primitive fails with it for a reason outside the model; when it is
    absent, the primitive behaves as the operating system (or the SFTP
    server) does on the map. */
module FileSystem {
  import opened Basics
  import opened Errors
  import opened Paths

  /** A directory with its permission bits, or a regular file with its content. */
  datatype Entry = Dir(mode: nat) | File(data: Bytes)

  /** A filesystem: the entry at each existing path. */
  type Fs = map<Path, Entry>

  /** What a primitive returns: a value, or the failure it reports. */
  datatype Result<+T> = Ok(value: T) | Fail(error: IoError)

  /** Some proper ancestor of `p` is a regular file, so resolving `p` stops
      with "not a directory". */
  predicate FileAncestor(fs: Fs, p: Path) {
    exists k :: 0 <= k < |p.parts| && Prefix(p, k) in fs && fs[Prefix(p, k)].File?
  }

  /** The directory that would hold `p` exists and is a directory. */
  predicate ParentIsDir(fs: Fs, p: Path) {
    |p.parts| > 0 && Parent(p) in fs && fs[Parent(p)].Dir?
  }

  /** Why a path that is not in the map cannot be resolved. */
  function Missing(fs: Fs, p: Path): (e: IoError)
    ensures e == NotExist || e == NotDir
    ensures e == NotDir <==> FileAncestor(fs, p)
  {
    if FileAncestor(fs, p) then NotDir else NotExist
  }

  /** Resolves a path: its entry, or the reason it does not resolve. */
  function Lookup(fs: Fs, p: Path): (r: Result<Entry>)
    ensures r.Ok? <==> p in fs
    ensures r.Ok? ==> r.value == fs[p]
    ensures r.Fail? ==> (r.error == NotExist || r.error == NotDir)
    ensures r.Fail? ==> (r.error == NotDir <==> FileAncestor(fs, p))
  {
    if p in fs then Ok(fs[p]) else Fail(Missing(fs, p))
  }

  /** `os.Stat`: the entry at `p`, or why there is none. An injected
      failure wins; otherwise a missing path is "not a directory" exactly
      when a regular file lies above it, and "does not exist" if not. */
  function Stat(fs: Fs, p: Path, fault: Option<IoError>): (r: Result<Entry>)
    ensures fault.Some? ==> r == Fail(fault.value)
    ensures fault.None? ==> (r.Ok? <==> p in fs)
    ensures fault.None? && r.Ok? ==> r.value == fs[p]
    ensures fault.None? && p !in fs ==> r == Fail(if FileAncestor(fs, p) then NotDir else NotExist)
  {
    if fault.Some? then Fail(fault.value) else Lookup(fs, p)
  }

  /** `os.Mkdir`: creates one directory with the given mode. It is not
      recursive: the parent must already be a directory. */
  function Mkdir(fs: Fs, p: Path, mode: nat, fault: Option<IoError>): (r: Result<Fs>)
    ensures r.Ok? <==> fault.None? && p !in fs && ParentIsDir(fs, p)
    ensures r.Ok? ==> r.value == fs[p := Dir(mode)]
    ensures fault.None? && p in fs ==> r == Fail(Exist)
  {
    if fault.Some? then Fail(fault.value)
    else if p in fs then Fail(Exist)
    else if !ParentIsDir(fs, p) then Fail(Missing(fs, p))
    else Ok(fs[p := Dir(mode)])
  }

  /** A create-and-truncate at `p` succeeds when nothing else goes wrong:
      `p` is an existing regular file, or it is absent and its parent is a
      directory. */
  predicate Creatable(fs: Fs, p: Path) {
    if p in fs then fs[p].File? else ParentIsDir(fs, p)
  }

  /** `os.Create` locally, `Client.Create` remotely: creates `p` or truncates
      the regular file already there. */
  function Create(fs: Fs, p: Path, fault: Option<IoError>): (r: Result<Fs>)
    ensures r.Ok? <==> fault.None? && Creatable(fs, p)
    ensures r.Ok? ==> r.value == fs[p := File([])]
    ensures fault.None? && p in fs && fs[p].Dir? ==> r == Fail(IsDir)
  {
    if fault.Some? then Fail(fault.value)
    else if p in fs then
      if fs[p].Dir? then Fail(IsDir) else Ok(fs[p := File([])])
    else if !ParentIsDir(fs, p) then Fail(Missing(fs, p))
    else Ok(fs[p := File([])])
  }

  /** `os.Open` locally, `Client.Open` remotely: opens `p` for reading. A
      directory opens; reading from it fails later. */
  function Open(fs: Fs, p: Path, fault: Option<IoError>): (r: Result<Entry>)
    ensures r.Ok? <==> fault.None? && p in fs
    ensures r.Ok? ==> r.value == fs[p]
  {
    if fault.Some? then Fail(fault.value) else Lookup(fs, p)
  }

  /** A copy that breaks down after `written` bytes have reached the destination. */
  datatype CopyFault = CopyFault(error: IoError, written: nat)

  /** The outcome of `io.Copy`: the whole content, or the error together with
      what reached the destination before it. */
  datatype Copied = Copied(data: Bytes) | CopyFailed(error: IoError, partial: Bytes)

  /** `io.Copy` from an opened source: all of a regular file's bytes, or a failure. */
  function Copy(src: Entry, fault: Option<CopyFault>): (r: Copied)
    ensures r.Copied? <==> src.File? && fault.None?
    ensures r.Copied? ==> r.data == src.data
    ensures r.CopyFailed? ==> r.partial <= (if src.File? then src.data else [])
    ensures src.Dir? ==> r == CopyFailed(IsDir, [])
  {
    if src.Dir? then CopyFailed(IsDir, [])
    else if fault.Some? then
      var n := if fault.value.written <= |src.data| then fault.value.written else |src.data|;
      CopyFailed(fault.value.error, src.data[..n])
    else Copied(src.data)
  }

  /** `b` differs from `a` at most at `p`. */
  ghost predicate Frame(a: Fs, b: Fs, p: Path) {
    forall q :: q != p ==> (q in a <==> q in b) && (q in a ==> a[q] == b[q])
  }

  /** `b` only adds to `a`: no entry disappears, no directory changes and no
      regular file turns into a directory. */
  ghost predicate Grows(a: Fs, b: Fs) {
    forall q :: q in a ==> q in b && (a[q].Dir? ==> b[q] == a[q]) && (a[q].File? ==> b[q].File?)
  }

  /** `b` grows from `a` and every directory of `b` was already in `a`. */
  ghost predicate GrowsByFiles(a: Fs, b: Fs) {
    Grows(a, b) && forall q :: q in b && b[q].Dir? ==> q in a
  }

  lemma GrowsTransitive(a: Fs, b: Fs, c: Fs)
    requires Grows(a, b) && Grows(b, c)
    ensures Grows(a, c)
  {
  }

  lemma GrowsByFilesTransitive(a: Fs, b: Fs, c: Fs)
    requires GrowsByFiles(a, b) && GrowsByFiles(b, c)
    ensures GrowsByFiles(a, c)
  {
  }

  /** Whatever `Create` or `Mkdir` did, the filesystem only grew and changed at one path. */
  lemma CreateGrows(fs: Fs, p: Path, fault: Option<IoError>)
    requires Create(fs, p, fault).Ok?
    ensures Grows(fs, Create(fs, p, fault).value) && Frame(fs, Create(fs, p, fault).value, p)
  {
  }

  lemma MkdirGrows(fs: Fs, p: Path, mode: nat, fault: Option<IoError>)
    requires Mkdir(fs, p, mode, fault).Ok?
    ensures Grows(fs, Mkdir(fs, p, mode, fault).value) && Frame(fs, Mkdir(fs, p, mode, fault).value, p)
  {
  }

  /** Creatability survives growth by regular files: a regular file stays
      one, a parent directory stays one, and no directory appears at `p`. */
  lemma CreatableGrows(a: Fs, b: Fs, p: Path)
    requires Creatable(a, p) && GrowsByFiles(a, b)
    ensures Creatable(b, p)
  {
  }
}
