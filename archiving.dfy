/**
 * archiver/archiving.go: collecting the input files and writing the archive.
 *
 * CreateArchive decodes the salt, derives the key, creates (truncates) the
 * output file, writes the header and then, file by file, reads the file,
 * compresses it, encrypts the compressed bytes and appends one entry named
 * by the file's base name. Writes to the output file reach the file system
 * as they happen, so a file read later sees the archive's bytes so far, and
 * an error leaves the partial archive behind. The random source is the
 * stream read by `rng`. The progress bar calls are no-ops here.
 */
module Archiving {
  import opened Bytes
  import opened Errors
  import opened Streams
  import opened Libraries
  import opened FileFormat
  import opened Compression
  import opened Encryption
  import opened Hex
  import opened FilePath
  import opened Os

  /** What CollectFiles records about an input file. */
  datatype FileInfo = FileInfo(path: seq<byte>, size: nat)

  /** A path CollectFiles accepts: it exists and is not a directory. */
  predicate IsRegular(fs: FileSystem, path: seq<byte>)
  {
    path in fs && fs[path].File?
  }

  /** The error CollectFiles reports for a path it does not accept. */
  function CollectError(fs: FileSystem, path: seq<byte>): Error
  {
    if path !in fs then NotExist(path) else DirectoriesNotSupported
  }

  /**
   * CollectFiles: one FileInfo per path, in order, with the file's size; the
   * first path that is missing or is a directory stops the scan with its
   * error.
   */
  method CollectFiles(fs: FileSystem, paths: seq<seq<byte>>) returns (r: Result<seq<FileInfo>>)
    ensures r.Success? <==> forall i | 0 <= i < |paths| :: IsRegular(fs, paths[i])
    ensures r.Success? ==>
              |r.value| == |paths| &&
              forall i | 0 <= i < |paths| :: r.value[i] == FileInfo(paths[i], |fs[paths[i]].content|)
    ensures r.Failure? ==>
              exists k | 0 <= k < |paths| ::
                !IsRegular(fs, paths[k]) && r.error == CollectError(fs, paths[k]) &&
                forall j | 0 <= j < k :: IsRegular(fs, paths[j])
  {
    var files: seq<FileInfo> := [];
    var i := 0;
    while i < |paths|
      invariant i <= |paths| && |files| == i
      invariant forall j | 0 <= j < i :: IsRegular(fs, paths[j])
      invariant forall j | 0 <= j < i :: files[j] == FileInfo(paths[j], |fs[paths[j]].content|)
    {
      var info := Stat(fs, paths[i]);
      if info.Failure? {
        return Failure(info.error);
      }
      if info.value.Directory? {
        return Failure(DirectoriesNotSupported);
      }
      files := files + [FileInfo(paths[i], |info.value.content|)];
      i := i + 1;
    }
    r := Success(files);
  }

  /** The bytes of a run of entries, one after the other. */
  function Serialize(es: seq<Entry>): (r: seq<byte>)
  {
    if es == [] then [] else EntryBytes(es[0]) + Serialize(es[1..])
  }

  lemma ConcatAssoc(a: seq<byte>, b: seq<byte>, c: seq<byte>)
    ensures a + b + c == a + (b + c)
  {
  }

  /** One turn of CreateArchive's loop: the entry it appended and where the random stream continues. */
  datatype Packed = Packed(entry: Entry, entropyNext: nat)

  /**
   * One turn of CreateArchive's loop: read the file (from the file system as
   * it is with the archive so far in `out`), compress, encrypt, and encode
   * an entry under the file's base name.
   */
  function PackOne(libs: Libs, key: seq<byte>, level: int, file: FileInfo, out: seq<byte>, fs: FileSystem,
                   archive: seq<byte>, entropy: seq<byte>, epos: nat): (r: Result<Packed>)
    requires epos <= |entropy|
    ensures r.Success? ==>
              epos + NonceSize == r.value.entropyNext <= |entropy| &&
              r.value.entry.name == Base(file.path) &&
              r.value.entry.methodId == CompressionDeflate &&
              Fits(r.value.entry)
  {
    var data :- ReadFile(fs[out := File(archive)], file.path);
    var compressedData :- Compressed(libs.flate, data, level);
    var encryptedData :- Encrypted(libs.gcm, compressedData, key, entropy, epos);
    var entry := Entry(Base(file.path), CompressionDeflate, encryptedData.value);
    var _ :- EncodeEntry(entry);
    Success(Packed(entry, encryptedData.next))
  }

  /** The archive file's contents, the entries in it and the random stream's cursor after a run of the loop. */
  datatype Appended = Appended(outcome: Outcome, archive: seq<byte>, entries: seq<Entry>, entropyNext: nat)

  /** CreateArchive's loop over `files`, appending to `archive`; the first failure stops it. */
  function AppendEntries(libs: Libs, key: seq<byte>, level: int, files: seq<FileInfo>, out: seq<byte>,
                         fs: FileSystem, archive: seq<byte>, entropy: seq<byte>, epos: nat): (a: Appended)
    requires epos <= |entropy|
    decreases |files|
  {
    if files == [] then Appended(Pass, archive, [], epos)
    else
      match PackOne(libs, key, level, files[0], out, fs, archive, entropy, epos)
      case Failure(e) => Appended(Fail(e), archive, [], epos)
      case Success(p) =>
        var rest := AppendEntries(libs, key, level, files[1..], out, fs, archive + EntryBytes(p.entry),
                                  entropy, p.entropyNext);
        Appended(rest.outcome, rest.archive, [p.entry] + rest.entries, rest.entropyNext)
  }

  /**
   * The loop packs every file exactly when it passes, stops at the first
   * failure otherwise, and on a pass has drawn one nonce per entry from the
   * random stream.
   */
  lemma {:induction false} AppendEntriesCount(
      libs: Libs, key: seq<byte>, level: int, files: seq<FileInfo>,
      out: seq<byte>, fs: FileSystem, archive: seq<byte>, entropy: seq<byte>, epos: nat)
    requires epos <= |entropy|
    ensures var a := AppendEntries(libs, key, level, files, out, fs, archive, entropy, epos);
            |a.entries| <= |files| &&
            (a.outcome.Pass? <==> |a.entries| == |files|) &&
            (a.outcome.Pass? ==> a.entropyNext == epos + NonceSize * |files| <= |entropy|)
    decreases |files|
  {
    if files != [] {
      var pk := PackOne(libs, key, level, files[0], out, fs, archive, entropy, epos);
      if pk.Success? {
        var p := pk.value;
        AppendEntriesCount(libs, key, level, files[1..], out, fs, archive + EntryBytes(p.entry), entropy, p.entropyNext);
      }
    }
  }

  /** The archive grows by exactly the bytes of the entries appended, in order. */
  lemma {:induction false} AppendEntriesArchive(
      libs: Libs, key: seq<byte>, level: int, files: seq<FileInfo>,
      out: seq<byte>, fs: FileSystem, archive: seq<byte>, entropy: seq<byte>, epos: nat)
    requires epos <= |entropy|
    ensures var a := AppendEntries(libs, key, level, files, out, fs, archive, entropy, epos);
            a.archive == archive + Serialize(a.entries)
    decreases |files|
  {
    if files != [] {
      var pk := PackOne(libs, key, level, files[0], out, fs, archive, entropy, epos);
      if pk.Success? {
        var p := pk.value;
        var rest := AppendEntries(libs, key, level, files[1..], out, fs, archive + EntryBytes(p.entry), entropy, p.entropyNext);
        AppendEntriesArchive(libs, key, level, files[1..], out, fs, archive + EntryBytes(p.entry), entropy, p.entropyNext);
        var es := [p.entry] + rest.entries;
        assert AppendEntries(libs, key, level, files, out, fs, archive, entropy, epos).entries == es;
        assert es[0] == p.entry && es[1..] == rest.entries;
        assert Serialize(es) == EntryBytes(p.entry) + Serialize(rest.entries);
        ConcatAssoc(archive, EntryBytes(p.entry), Serialize(rest.entries));
      }
    }
  }

  /** Entry i is named by file i's base name, uses DEFLATE and fits its length fields. */
  lemma {:induction false} AppendEntriesNames(
      libs: Libs, key: seq<byte>, level: int, files: seq<FileInfo>,
      out: seq<byte>, fs: FileSystem, archive: seq<byte>, entropy: seq<byte>, epos: nat)
    requires epos <= |entropy|
    ensures var a := AppendEntries(libs, key, level, files, out, fs, archive, entropy, epos);
            |a.entries| <= |files| &&
            forall i | 0 <= i < |a.entries| ::
              a.entries[i].name == Base(files[i].path) &&
              a.entries[i].methodId == CompressionDeflate &&
              Fits(a.entries[i])
    decreases |files|
  {
    AppendEntriesCount(libs, key, level, files, out, fs, archive, entropy, epos);
    if files != [] {
      var pk := PackOne(libs, key, level, files[0], out, fs, archive, entropy, epos);
      if pk.Success? {
        var p := pk.value;
        var rest := AppendEntries(libs, key, level, files[1..], out, fs, archive + EntryBytes(p.entry), entropy, p.entropyNext);
        AppendEntriesNames(libs, key, level, files[1..], out, fs, archive + EntryBytes(p.entry), entropy, p.entropyNext);
        var es := [p.entry] + rest.entries;
        forall i | 0 <= i < |es|
          ensures es[i].name == Base(files[i].path) && es[i].methodId == CompressionDeflate && Fits(es[i])
        {
          if i > 0 {
            assert es[i] == rest.entries[i - 1] && files[i] == files[1..][i - 1];
          }
        }
      }
    }
  }

  /** The outcome of CreateArchive, the file system after it, the entries written, and the random stream's cursor. */
  datatype Creation = Creation(outcome: Outcome, fs: FileSystem, entries: seq<Entry>, entropyNext: nat)

  /**
   * CreateArchive's result: salt, key, os.Create of the output, the file
   * count check, the header, then the loop. The count check is the
   * correction of `uint32(len(files))` (see FileCountWraps).
   */
  function CreateSpec(libs: Libs, password: seq<byte>, saltHex: seq<byte>, outputFile: seq<byte>,
                      files: seq<FileInfo>, level: int, fs: FileSystem, entropy: seq<byte>, epos: nat)
    : (c: Creation)
    requires epos <= |entropy|
  {
    match DecodeString(saltHex)
    case Failure(e) => Creation(Fail(e), fs, [], epos)
    case Success(salt) =>
      match GenerateKey(libs.scrypt, password, salt)
      case Failure(e) => Creation(Fail(e), fs, [], epos)
      case Success(key) =>
        match WriteFile(fs, outputFile, [])
        case Failure(e) => Creation(Fail(e), fs, [], epos)
        case Success(created) =>
          if |files| > MaxU32 then Creation(Fail(TooManyFiles), created, [], epos)
          else
            var a := AppendEntries(libs, key, level, files, outputFile, fs, HeaderBytes(|files|), entropy, epos);
            Creation(a.outcome, fs[outputFile := File(a.archive)], a.entries, a.entropyNext)
  }

  /**
   * Once the output file has been created, it holds a header declaring every
   * input file, followed by the entries written before any failure; a pass
   * means one entry per input file. Nothing but the output file changes.
   */
  lemma CreateSpecShape(libs: Libs, password: seq<byte>, saltHex: seq<byte>, outputFile: seq<byte>,
                        files: seq<FileInfo>, level: int, fs: FileSystem, entropy: seq<byte>, epos: nat)
    requires epos <= |entropy|
    requires WellFormed(saltHex) && WriteFile(fs, outputFile, []).Success? && |files| <= MaxU32
    ensures var c := CreateSpec(libs, password, saltHex, outputFile, files, level, fs, entropy, epos);
            c.fs == fs[outputFile := File(HeaderBytes(|files|) + Serialize(c.entries))] &&
            |c.entries| <= |files| &&
            (c.outcome.Pass? <==> |c.entries| == |files|) &&
            forall i | 0 <= i < |c.entries| :: c.entries[i].name == Base(files[i].path)
  {
    DecodeStringSucceedsIff(saltHex);
    var key := GenerateKey(libs.scrypt, password, DecodeString(saltHex).value).value;
    AppendEntriesCount(libs, key, level, files, outputFile, fs, HeaderBytes(|files|), entropy, epos);
    AppendEntriesArchive(libs, key, level, files, outputFile, fs, HeaderBytes(|files|), entropy, epos);
    AppendEntriesNames(libs, key, level, files, outputFile, fs, HeaderBytes(|files|), entropy, epos);
  }

  /**
   * More files than a u32 count can declare are refused once the output
   * file exists, leaving it empty, rather than declared with a wrapped count.
   */
  lemma TooManyFilesRejected(libs: Libs, password: seq<byte>, saltHex: seq<byte>, outputFile: seq<byte>,
                             files: seq<FileInfo>, level: int, fs: FileSystem, entropy: seq<byte>, epos: nat)
    requires epos <= |entropy|
    requires WellFormed(saltHex) && WriteFile(fs, outputFile, []).Success? && |files| > MaxU32
    ensures CreateSpec(libs, password, saltHex, outputFile, files, level, fs, entropy, epos)
         == Creation(Fail(TooManyFiles), fs[outputFile := File([])], [], epos)
  {
    DecodeStringSucceedsIff(saltHex);
  }

  /** A malformed salt is reported before the output file is created. */
  lemma SaltErrorFirst(libs: Libs, password: seq<byte>, saltHex: seq<byte>, outputFile: seq<byte>,
                       files: seq<FileInfo>, level: int, fs: FileSystem, entropy: seq<byte>, epos: nat)
    requires epos <= |entropy| && !WellFormed(saltHex)
    ensures DecodeString(saltHex).Failure?
    ensures CreateSpec(libs, password, saltHex, outputFile, files, level, fs, entropy, epos)
         == Creation(Fail(DecodeString(saltHex).error), fs, [], epos)
  {
    DecodeStringSucceedsIff(saltHex);
  }

  /**
   * The cast as written: `uint32(len(files))` keeps the low 32 bits, so
   * 2^32 files are declared as none and a reader of the archive stops after
   * the header.
   */
  lemma FileCountWraps(n: nat)
    requires n > MaxU32
    ensures U32Cast(n) != n
    ensures n == 0x1_0000_0000 ==> ParseHeader(HeaderBytes(U32Cast(n)), 0) == Success(Read(0, HeaderSize))
  {
    if n == 0x1_0000_0000 {
      assert HeaderBytes(U32Cast(n)) == HeaderBytes(U32Cast(n)) + [];
      ParseHeaderAt(HeaderBytes(U32Cast(n)), 0, 0);
    }
  }

  /** A successful step leaves the rest of the loop to decide the result. */
  lemma AppendEntriesContinues(libs: Libs, key: seq<byte>, level: int, files: seq<FileInfo>, out: seq<byte>,
                               fs: FileSystem, archive: seq<byte>, entropy: seq<byte>, epos: nat,
                               entry: Entry, enext: nat, archive': seq<byte>)
    requires epos <= |entropy| && files != []
    requires PackOne(libs, key, level, files[0], out, fs, archive, entropy, epos) == Success(Packed(entry, enext))
    requires archive' == archive + EntryBytes(entry)
    ensures enext <= |entropy|
    ensures var a := AppendEntries(libs, key, level, files, out, fs, archive, entropy, epos);
            var rest := AppendEntries(libs, key, level, files[1..], out, fs, archive', entropy, enext);
            a.outcome == rest.outcome && a.archive == rest.archive && a.entropyNext == rest.entropyNext
  {
  }

  /** A failed step ends the loop with that step's error and the archive as it was. */
  lemma AppendEntriesStopsAt(libs: Libs, key: seq<byte>, level: int, files: seq<FileInfo>, out: seq<byte>,
                             fs: FileSystem, archive: seq<byte>, entropy: seq<byte>, epos: nat)
    requires epos <= |entropy| && files != []
    requires PackOne(libs, key, level, files[0], out, fs, archive, entropy, epos).Failure?
    ensures AppendEntries(libs, key, level, files, out, fs, archive, entropy, epos)
         == Appended(Fail(PackOne(libs, key, level, files[0], out, fs, archive, entropy, epos).error), archive, [], epos)
  {
  }

  /** The body of CreateArchive's loop, appending to the open output file. */
  method AppendEntry(libs: Libs, key: seq<byte>, level: int, file: FileInfo, out: seq<byte>, fs: FileSystem,
                     outFile: Writer, rng: Reader) returns (r: Outcome)
    requires rng.Valid()
    modifies outFile, rng
    ensures rng.Valid()
    ensures var pk := PackOne(libs, key, level, file, out, fs, old(outFile.bytes), rng.data, old(rng.pos));
            (r.Pass? <==> pk.Success?) &&
            (pk.Success? ==> outFile.bytes == old(outFile.bytes) + EntryBytes(pk.value.entry) &&
                             rng.pos == pk.value.entropyNext) &&
            (pk.Failure? ==> r == Fail(pk.error) && outFile.bytes == old(outFile.bytes))
  {
    var data := ReadFile(fs[out := File(outFile.bytes)], file.path);
    if data.Failure? {
      return Fail(data.error);
    }
    var compressedData := Compress(libs.flate, data.value, level);
    if compressedData.Failure? {
      return Fail(compressedData.error);
    }
    var encryptedData := Encrypt(libs.gcm, compressedData.value, key, rng);
    if encryptedData.Failure? {
      return Fail(encryptedData.error);
    }
    r := WriteFileEntry(outFile, Base(file.path), CompressionDeflate, encryptedData.value);
  }

  /** The file loop of CreateArchive over an output file that already holds the header. */
  method AppendEntriesTo(libs: Libs, key: seq<byte>, level: int, files: seq<FileInfo>, out: seq<byte>,
                         fs: FileSystem, outFile: Writer, rng: Reader) returns (err: Outcome)
    requires rng.Valid()
    modifies outFile, rng
    ensures rng.Valid()
    ensures var a := AppendEntries(libs, key, level, files, out, fs, old(outFile.bytes), rng.data, old(rng.pos));
            err == a.outcome && outFile.bytes == a.archive && (err.Pass? ==> rng.pos == a.entropyNext)
  {
    ghost var whole := AppendEntries(libs, key, level, files, out, fs, outFile.bytes, rng.data, rng.pos);
    var i := 0;
    while i < |files|
      invariant rng.Valid() && i <= |files|
      invariant var rest := AppendEntries(libs, key, level, files[i..], out, fs, outFile.bytes, rng.data, rng.pos);
                rest.outcome == whole.outcome && rest.archive == whole.archive &&
                (rest.outcome.Pass? ==> rest.entropyNext == whole.entropyNext)
    {
      ghost var archive, epos := outFile.bytes, rng.pos;
      ghost var pk := PackOne(libs, key, level, files[i], out, fs, archive, rng.data, epos);
      assert files[i..][0] == files[i] && files[i..][1..] == files[i + 1..];
      var r := AppendEntry(libs, key, level, files[i], out, fs, outFile, rng);
      if r.Fail? {
        AppendEntriesStopsAt(libs, key, level, files[i..], out, fs, archive, rng.data, epos);
        return r;
      }
      AppendEntriesContinues(libs, key, level, files[i..], out, fs, archive, rng.data, epos,
                             pk.value.entry, rng.pos, outFile.bytes);
      i := i + 1;
    }
    assert files[i..] == [];
    err := Pass;
  }

  /** CreateArchive, returning the file system it leaves behind. */
  method CreateArchive(libs: Libs, password: seq<byte>, saltHex: seq<byte>, outputFile: seq<byte>,
                       files: seq<FileInfo>, level: int, fs: FileSystem, rng: Reader)
    returns (err: Outcome, fs': FileSystem)
    requires rng.Valid()
    modifies rng
    ensures rng.Valid()
    ensures var c := CreateSpec(libs, password, saltHex, outputFile, files, level, fs, rng.data, old(rng.pos));
            err == c.outcome && fs' == c.fs && (err.Pass? ==> rng.pos == c.entropyNext)
  {
    var salt := DecodeString(saltHex);
    if salt.Failure? {
      return Fail(salt.error), fs;
    }
    // GenerateKey's error branch is never taken: the cost parameters are fixed and valid
    var key := GenerateKey(libs.scrypt, password, salt.value);
    var created := WriteFile(fs, outputFile, []);
    if created.Failure? {
      return Fail(created.error), fs;
    }
    var outFile := new Writer();
    if |files| > MaxU32 {
      return Fail(TooManyFiles), created.value;
    }
    WriteHeader(outFile, |files|);
    assert outFile.bytes == HeaderBytes(|files|);
    err := AppendEntriesTo(libs, key.value, level, files, outputFile, fs, outFile, rng);
    fs' := fs[outputFile := File(outFile.bytes)];
  }
}
