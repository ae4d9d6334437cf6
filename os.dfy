/**
 * The file system the archiver reads and writes, as a map from path to node.
 * Only the outcomes the core depends on are modelled: a missing path, a
 * directory where a file is expected, and the contents of regular files.
 */
module Os {
  import opened Bytes
  import opened Errors

  datatype Node = File(content: seq<byte>) | Directory

  type FileSystem = map<seq<byte>, Node>

  /** os.Stat */
  function Stat(fs: FileSystem, path: seq<byte>): (r: Result<Node>)
    ensures r.Success? <==> path in fs
    ensures r.Success? ==> r.value == fs[path]
    ensures r.Failure? ==> r.error == NotExist(path)
  {
    if path in fs then Success(fs[path]) else Failure(NotExist(path))
  }

  /**
   * os.ReadFile; also os.Open followed by reading the whole file (opening a
   * directory succeeds in Go and its first read fails; here both are one
   * failure).
   */
  function ReadFile(fs: FileSystem, path: seq<byte>): (r: Result<seq<byte>>)
    ensures r.Success? <==> path in fs && fs[path].File?
    ensures r.Success? ==> fs[path] == File(r.value)
  {
    if path !in fs then Failure(NotExist(path))
    else if fs[path].Directory? then Failure(IsDirectory(path))
    else Success(fs[path].content)
  }

  /**
   * os.WriteFile (and os.Create with no data): creates or truncates a
   * regular file; an empty path or a directory cannot be written.
   */
  function WriteFile(fs: FileSystem, path: seq<byte>, data: seq<byte>): (r: Result<FileSystem>)
    ensures r.Success? <==> path != [] && (path !in fs || fs[path].File?)
    ensures r.Success? ==> r.value == fs[path := File(data)]
  {
    if path == [] then Failure(NotExist(path))
    else if path in fs && fs[path].Directory? then Failure(IsDirectory(path))
    else Success(fs[path := File(data)])
  }

  /** Stat and ReadFile agree: a path reads exactly when Stat finds a regular file there, with that content. */
  lemma ReadFileIsStatOfFile(fs: FileSystem, path: seq<byte>)
    ensures ReadFile(fs, path).Success? <==> Stat(fs, path).Success? && Stat(fs, path).value.File?
    ensures ReadFile(fs, path).Success? ==> Stat(fs, path).value == File(ReadFile(fs, path).value)
    ensures Stat(fs, path).Failure? ==> ReadFile(fs, path) == Failure(Stat(fs, path).error)
  {
  }

  /**
   * A write is seen by the next read of the same path and by no other: a
   * path written with `data` reads back as `data` and stats as a file, and
   * every other path reads and stats as before.
   */
  lemma ReadAfterWrite(fs: FileSystem, path: seq<byte>, data: seq<byte>, other: seq<byte>)
    requires WriteFile(fs, path, data).Success?
    ensures ReadFile(WriteFile(fs, path, data).value, path) == Success(data)
    ensures Stat(WriteFile(fs, path, data).value, path) == Success(File(data))
    ensures other != path ==> ReadFile(WriteFile(fs, path, data).value, other) == ReadFile(fs, other)
    ensures other != path ==> Stat(WriteFile(fs, path, data).value, other) == Stat(fs, other)
  {
  }

  /** A second write to a path replaces the first: only the last one is seen. */
  lemma WriteOverWrite(fs: FileSystem, path: seq<byte>, first: seq<byte>, second: seq<byte>)
    requires WriteFile(fs, path, first).Success?
    ensures WriteFile(WriteFile(fs, path, first).value, path, second) == WriteFile(fs, path, second)
  {
    assert fs[path := File(first)][path := File(second)] == fs[path := File(second)];
  }

  /** Writing back what a file already holds leaves the file system as it was. */
  lemma WriteWhatIsRead(fs: FileSystem, path: seq<byte>)
    requires path != [] && ReadFile(fs, path).Success?
    ensures WriteFile(fs, path, ReadFile(fs, path).value) == Success(fs)
  {
    assert fs[path := File(fs[path].content)] == fs;
  }
}
