/**
 * The property the archiver exists for: an archive that CreateArchive
 * finished writing, handed to ExtractArchive with the same password and
 * salt, gives back every input file, in input order, under its base name
 * and with its exact contents. It holds for every set of libraries that
 * meets the Libraries predicates.
 */
module RoundTrip {
  import opened Bytes
  import opened Errors
  import opened Streams
  import opened Libraries
  import opened FileFormat
  import opened Compression
  import opened Encryption
  import opened Hex
  import opened FilePath
  import opened Os
  import opened Extractor
  import opened Archiving

  /** The writes an extraction of `es` makes when entry i unpacks to contents[i]. */
  function WritesOf(es: seq<Entry>, contents: seq<seq<byte>>): (ws: seq<Written>)
    requires |contents| == |es|
    ensures |ws| == |es|
    ensures forall i | 0 <= i < |es| :: ws[i] == Written(es[i].name, contents[i])
  {
    seq(|es|, i requires 0 <= i < |es| => Written(es[i].name, contents[i]))
  }

  /** A name an extraction can write: not empty, and not a directory. */
  predicate Writable(fs: FileSystem, name: seq<byte>)
  {
    name != [] && (name !in fs || fs[name].File?)
  }

  /** One packed file unpacks to the contents read from the file system. */
  lemma PackedUnpacks(libs: Libs, key: seq<byte>, level: int, file: FileInfo, out: seq<byte>, fs: FileSystem,
                      archive: seq<byte>, entropy: seq<byte>, epos: nat)
    requires Sound(libs) && epos <= |entropy| && file.path != out
    requires PackOne(libs, key, level, file, out, fs, archive, entropy, epos).Success?
    ensures IsRegular(fs, file.path)
    ensures Unpack(libs, key, PackOne(libs, key, level, file, out, fs, archive, entropy, epos).value.entry)
         == Success(fs[file.path].content)
  {
    var data := fs[file.path].content;
    assert ReadFile(fs[out := File(archive)], file.path) == Success(data);
    var compressedData := Compressed(libs.flate, data, level).value;
    DecompressCompress(libs.flate, data, level);
    DecryptEncrypt(libs.gcm, compressedData, key, entropy, epos);
  }

  /** Every entry the loop appended unpacks to the contents of its input file. */
  lemma {:induction false} AppendedUnpack(libs: Libs, key: seq<byte>, level: int, files: seq<FileInfo>,
                                          out: seq<byte>, fs: FileSystem, archive: seq<byte>,
                                          entropy: seq<byte>, epos: nat)
    requires Sound(libs) && epos <= |entropy|
    requires forall i | 0 <= i < |files| :: files[i].path != out
    ensures var a := AppendEntries(libs, key, level, files, out, fs, archive, entropy, epos);
            |a.entries| <= |files| &&
            forall i | 0 <= i < |a.entries| ::
              IsRegular(fs, files[i].path) &&
              Unpack(libs, key, a.entries[i]) == Success(fs[files[i].path].content)
    decreases |files|
  {
    AppendEntriesCount(libs, key, level, files, out, fs, archive, entropy, epos);
    if files != [] {
      var pk := PackOne(libs, key, level, files[0], out, fs, archive, entropy, epos);
      if pk.Success? {
        var p := pk.value;
        PackedUnpacks(libs, key, level, files[0], out, fs, archive, entropy, epos);
        var rest := AppendEntries(libs, key, level, files[1..], out, fs, archive + EntryBytes(p.entry),
                                  entropy, p.entropyNext);
        AppendedUnpack(libs, key, level, files[1..], out, fs, archive + EntryBytes(p.entry), entropy, p.entropyNext);
        var es := [p.entry] + rest.entries;
        assert AppendEntries(libs, key, level, files, out, fs, archive, entropy, epos).entries == es;
        forall i | 0 <= i < |es|
          ensures IsRegular(fs, files[i].path) && Unpack(libs, key, es[i]) == Success(fs[files[i].path].content)
        {
          if i > 0 {
            assert es[i] == rest.entries[i - 1] && files[i] == files[1..][i - 1];
          }
        }
      }
    }
  }

  /** One extracted entry: it parses, unpacks and is written. */
  lemma ExtractOneOf(libs: Libs, key: seq<byte>, data: seq<byte>, pos: nat, e: Entry, content: seq<byte>,
                     fs: FileSystem)
    requires Fits(e) && Unpack(libs, key, e) == Success(content) && Writable(fs, e.name)
    requires pos + |EntryBytes(e)| <= |data| && data[pos..pos + |EntryBytes(e)|] == EntryBytes(e)
    ensures ExtractOne(libs, key, data, pos, fs)
         == Success(Step(Written(e.name, content), pos + |EntryBytes(e)|, fs[e.name := File(content)]))
  {
    ParseEntryAt(data, pos, e);
  }

  /**
   * A run of loop turns: turn i starts at cursor ps[i] in file system fss[i],
   * writes ws[i], and leaves the cursor at ps[i + 1] and the file system at
   * fss[i + 1].
   */
  ghost predicate Chained(libs: Libs, key: seq<byte>, data: seq<byte>, ps: seq<nat>, fss: seq<FileSystem>,
                          ws: seq<Written>)
  {
    |ps| == |ws| + 1 && |fss| == |ws| + 1 &&
    forall i | 0 <= i < |ws| ::
      ps[i] <= |data| && ExtractOne(libs, key, data, ps[i], fss[i]) == Success(Step(ws[i], ps[i + 1], fss[i + 1]))
  }

  /** The entry loop over a run of turns that each succeed passes and writes what the turns wrote. */
  lemma {:induction false} ExtractChain(libs: Libs, key: seq<byte>, data: seq<byte>, ps: seq<nat>,
                                        fss: seq<FileSystem>, ws: seq<Written>)
    requires Chained(libs, key, data, ps, fss, ws) && ps[0] <= |data|
    ensures var x := ExtractEntries(libs, key, data, ps[0], |ws|, fss[0]);
            x.outcome == Pass && x.written == ws
    decreases |ws|
  {
    if ws != [] {
      assert ps[1..][0] == ps[1] && fss[1..][0] == fss[1];
      ExtractEntriesContinues(libs, key, data, ps[0], |ws|, fss[0], ws[0], ps[1..][0], fss[1..][0], |ws[1..]|);
      assert Chained(libs, key, data, ps[1..], fss[1..], ws[1..]) by {
        forall i | 0 <= i < |ws[1..]|
          ensures ps[1..][i] <= |data|
          ensures ExtractOne(libs, key, data, ps[1..][i], fss[1..][i])
               == Success(Step(ws[1..][i], ps[1..][i + 1], fss[1..][i + 1]))
        {
          assert ps[1..][i] == ps[i + 1] && ps[1..][i + 1] == ps[i + 2];
          assert fss[1..][i] == fss[i + 1] && fss[1..][i + 1] == fss[i + 2] && ws[1..][i] == ws[i + 1];
        }
      }
      ExtractChain(libs, key, data, ps[1..], fss[1..], ws[1..]);
      assert ws == [ws[0]] + ws[1..];
    }
  }

  /** Where each entry of `es` starts, laid out back to back from `pos`; the last is where the run ends. */
  function Offsets(pos: nat, es: seq<Entry>): (ps: seq<nat>)
    ensures |ps| == |es| + 1 && ps[0] == pos
    decreases |es|
  {
    if es == [] then [pos] else [pos] + Offsets(pos + |EntryBytes(es[0])|, es[1..])
  }

  /** Entry i starts after the bytes of the entries before it, and entry i + 1 right after entry i. */
  lemma {:induction false} OffsetsAt(pos: nat, es: seq<Entry>, i: nat)
    requires i < |es|
    ensures Offsets(pos, es)[i] == pos + |Serialize(es[..i])|
    ensures Offsets(pos, es)[i + 1] == Offsets(pos, es)[i] + |EntryBytes(es[i])|
    decreases i
  {
    if i > 0 {
      var n := |EntryBytes(es[0])|;
      OffsetsAt(pos + n, es[1..], i - 1);
      assert es[..i][1..] == es[1..][..i - 1];
      assert Serialize(es[..i]) == EntryBytes(es[0]) + Serialize(es[1..][..i - 1]);
    }
  }

  /** The bytes of a run are those of the entries before i, entry i's, then those after it. */
  lemma {:induction false} SerializeSplit(es: seq<Entry>, i: nat)
    requires i < |es|
    ensures Serialize(es) == Serialize(es[..i]) + EntryBytes(es[i]) + Serialize(es[i + 1..])
    decreases i
  {
    if i == 0 {
      assert es[..0] == [];
    } else {
      SerializeSplit(es[1..], i - 1);
      assert es[1..][i - 1] == es[i] && es[1..][i..] == es[i + 1..];
      assert es[..i][1..] == es[1..][..i - 1];
      var a, b, c, d := EntryBytes(es[0]), Serialize(es[1..][..i - 1]), EntryBytes(es[i]), Serialize(es[i + 1..]);
      assert Serialize(es[..i]) == a + b;
      ConcatAssoc(a, b, c);
      ConcatAssoc(a, b + c, d);
    }
  }

  /** The file system before each write of WritesOf(es, contents), and after the last. */
  function Trace(fs: FileSystem, es: seq<Entry>, contents: seq<seq<byte>>): (fss: seq<FileSystem>)
    requires |contents| == |es|
    ensures |fss| == |es| + 1 && fss[0] == fs
    decreases |es|
  {
    if es == [] then [fs] else [fs] + Trace(fs[es[0].name := File(contents[0])], es[1..], contents[1..])
  }

  /** Each step of the trace writes entry i's contents under its name, and leaves a writable name writable. */
  lemma {:induction false} TraceAt(fs: FileSystem, es: seq<Entry>, contents: seq<seq<byte>>, i: nat,
                                   name: seq<byte>)
    requires |contents| == |es| && i < |es| && Writable(fs, name)
    ensures Trace(fs, es, contents)[i + 1] == Trace(fs, es, contents)[i][es[i].name := File(contents[i])]
    ensures Writable(Trace(fs, es, contents)[i], name)
    decreases i
  {
    if i > 0 {
      var fs' := fs[es[0].name := File(contents[0])];
      TraceAt(fs', es[1..], contents[1..], i - 1, name);
    }
  }

  /** Entry i fits its length fields, unpacks to contents[i], and its name can be written in `fs`. */
  ghost predicate Extractable(libs: Libs, key: seq<byte>, es: seq<Entry>, contents: seq<seq<byte>>, fs: FileSystem)
    requires |contents| == |es|
  {
    forall i | 0 <= i < |es| ::
      Fits(es[i]) && Unpack(libs, key, es[i]) == Success(contents[i]) && Writable(fs, es[i].name)
  }

  /** Entry i of a window holding Serialize(es) lies at Offsets(pos, es)[i], and entry i + 1 starts where it ends. */
  lemma EntryWindowAt(data: seq<byte>, pos: nat, es: seq<Entry>, i: nat)
    requires i < |es|
    requires pos + |Serialize(es)| <= |data| && data[pos..pos + |Serialize(es)|] == Serialize(es)
    ensures var p, e := Offsets(pos, es)[i], EntryBytes(es[i]);
            Offsets(pos, es)[i + 1] == p + |e| <= |data| && data[p..p + |e|] == e
  {
    var b, p, e := Serialize(es), |Serialize(es[..i])|, EntryBytes(es[i]);
    OffsetsAt(pos, es, i);
    SerializeSplit(es, i);
    MiddleOf(Serialize(es[..i]), e, Serialize(es[i + 1..]));
    SliceOfWindow(data, pos, b, p, p + |e|);
  }

  /** The middle part of a concatenation of three sits right after the first. */
  lemma MiddleOf(a: seq<byte>, b: seq<byte>, c: seq<byte>)
    ensures (a + b + c)[|a|..|a| + |b|] == b
  {
  }

  /** Turn i extracts entry i when its bytes lie at Offsets(pos, es)[i]. */
  lemma StepAt(libs: Libs, key: seq<byte>, data: seq<byte>, pos: nat, es: seq<Entry>,
               contents: seq<seq<byte>>, fs: FileSystem, i: nat)
    requires |contents| == |es| && i < |es| && Extractable(libs, key, es, contents, fs)
    requires var p, e := Offsets(pos, es)[i], EntryBytes(es[i]);
             Offsets(pos, es)[i + 1] == p + |e| <= |data| && data[p..p + |e|] == e
    ensures var ps, fss := Offsets(pos, es), Trace(fs, es, contents);
            ps[i] <= |data| &&
            ExtractOne(libs, key, data, ps[i], fss[i]) == Success(Step(WritesOf(es, contents)[i], ps[i + 1], fss[i + 1]))
  {
    var ps, fss := Offsets(pos, es), Trace(fs, es, contents);
    TraceAt(fs, es, contents, i, es[i].name);
    ExtractOneOf(libs, key, data, ps[i], es[i], contents[i], fss[i]);
    assert WritesOf(es, contents)[i] == Written(es[i].name, contents[i]);
  }

  /** A window holding Serialize(es) is a run of turns, one per entry, each writing that entry's contents. */
  lemma SerializedChain(libs: Libs, key: seq<byte>, data: seq<byte>, pos: nat,
                        es: seq<Entry>, contents: seq<seq<byte>>, fs: FileSystem)
    requires |contents| == |es|
    requires pos + |Serialize(es)| <= |data| && data[pos..pos + |Serialize(es)|] == Serialize(es)
    requires Extractable(libs, key, es, contents, fs)
    ensures Chained(libs, key, data, Offsets(pos, es), Trace(fs, es, contents), WritesOf(es, contents))
  {
    var ps, fss, ws := Offsets(pos, es), Trace(fs, es, contents), WritesOf(es, contents);
    forall i | 0 <= i < |ws|
      ensures ps[i] <= |data| && ExtractOne(libs, key, data, ps[i], fss[i]) == Success(Step(ws[i], ps[i + 1], fss[i + 1]))
    {
      EntryWindowAt(data, pos, es, i);
      StepAt(libs, key, data, pos, es, contents, fs, i);
    }
  }

  /**
   * Extraction of a window holding Serialize(es) passes and writes entry i's
   * unpacked contents under its name, in order.
   */
  lemma ExtractSerialized(libs: Libs, key: seq<byte>, data: seq<byte>, pos: nat,
                          es: seq<Entry>, contents: seq<seq<byte>>, fs: FileSystem)
    requires |contents| == |es|
    requires pos + |Serialize(es)| <= |data| && data[pos..pos + |Serialize(es)|] == Serialize(es)
    requires Extractable(libs, key, es, contents, fs)
    ensures var x := ExtractEntries(libs, key, data, pos, |es|, fs);
            x.outcome == Pass && x.written == WritesOf(es, contents)
  {
    SerializedChain(libs, key, data, pos, es, contents, fs);
    ExtractChain(libs, key, data, Offsets(pos, es), Trace(fs, es, contents), WritesOf(es, contents));
  }

  /**
   * What a CreateArchive that passed leaves behind: the output file holds the
   * header declaring every input, then one entry per input, in order, named
   * by its base name and unpacking (under the key from the password and
   * salt) to the input's contents.
   */
  lemma CreatedArchive(libs: Libs, password: seq<byte>, saltHex: seq<byte>, outputFile: seq<byte>,
                       files: seq<FileInfo>, level: int, fs: FileSystem, entropy: seq<byte>, epos: nat)
    requires Sound(libs) && epos <= |entropy|
    requires CreateSpec(libs, password, saltHex, outputFile, files, level, fs, entropy, epos).outcome.Pass?
    requires forall i | 0 <= i < |files| :: files[i].path != outputFile
    ensures DecodeString(saltHex).Success? && |files| <= MaxU32
    ensures var key := GenerateKey(libs.scrypt, password, DecodeString(saltHex).value).value;
            var c := CreateSpec(libs, password, saltHex, outputFile, files, level, fs, entropy, epos);
            outputFile in c.fs && c.fs[outputFile] == File(HeaderBytes(|files|) + Serialize(c.entries)) &&
            |c.entries| == |files| &&
            forall i | 0 <= i < |files| ::
              IsRegular(fs, files[i].path) && c.entries[i].name == Base(files[i].path) && Fits(c.entries[i]) &&
              Unpack(libs, key, c.entries[i]) == Success(fs[files[i].path].content)
  {
    DecodeStringSucceedsIff(saltHex);
    var key := GenerateKey(libs.scrypt, password, DecodeString(saltHex).value).value;
    assert WriteFile(fs, outputFile, []).Success? && |files| <= MaxU32;
    CreateSpecShape(libs, password, saltHex, outputFile, files, level, fs, entropy, epos);
    AppendEntriesNames(libs, key, level, files, outputFile, fs, HeaderBytes(|files|), entropy, epos);
    AppendedUnpack(libs, key, level, files, outputFile, fs, HeaderBytes(|files|), entropy, epos);
  }

  /**
   * ExtractArchive over an archive file holding a header declaring |es|
   * entries followed by the bytes of `es` passes and writes entry i's
   * unpacked contents under its name, in order. No entry but the last may be
   * named like the archive file: Go would overwrite the archive it is still
   * reading, and later reads would see the new contents.
   */
  lemma ExtractedArchive(libs: Libs, password: seq<byte>, saltHex: seq<byte>, archiveFile: seq<byte>,
                         fsx: FileSystem, es: seq<Entry>, contents: seq<seq<byte>>)
    requires DecodeString(saltHex).Success? && |contents| == |es| && |es| <= MaxU32
    requires Extractable(libs, GenerateKey(libs.scrypt, password, DecodeString(saltHex).value).value, es, contents, fsx)
    requires archiveFile in fsx && fsx[archiveFile] == File(HeaderBytes(|es|) + Serialize(es))
    requires forall i | 0 <= i < |es| - 1 :: es[i].name != archiveFile
    ensures var x := ExtractSpec(libs, password, saltHex, archiveFile, fsx);
            x.outcome == Pass && x.written == WritesOf(es, contents)
  {
    var key := GenerateKey(libs.scrypt, password, DecodeString(saltHex).value).value;
    var data := HeaderBytes(|es|) + Serialize(es);
    assert data[0..HeaderSize] == HeaderBytes(|es|);
    ParseHeaderAt(data, 0, |es|);
    assert data[HeaderSize..HeaderSize + |Serialize(es)|] == Serialize(es);
    ExtractSerialized(libs, key, data, HeaderSize, es, contents, fsx);
  }

  /**
   * Create, then extract: when CreateArchive passed, no input is the output
   * file itself, the extracting side holds the same archive bytes, no base
   * name of an input is a directory there, and no input but the last has the
   * output file's name as its base name, ExtractArchive with the same
   * password and salt passes and writes file i's contents under its base
   * name, for every i in input order.
   */
  lemma CreateThenExtract(libs: Libs, password: seq<byte>, saltHex: seq<byte>, outputFile: seq<byte>,
                          files: seq<FileInfo>, level: int, fs: FileSystem, entropy: seq<byte>, epos: nat,
                          fsx: FileSystem)
    requires Sound(libs) && epos <= |entropy|
    requires CreateSpec(libs, password, saltHex, outputFile, files, level, fs, entropy, epos).outcome.Pass?
    requires forall i | 0 <= i < |files| :: files[i].path != outputFile
    requires outputFile in fsx
    requires fsx[outputFile] == CreateSpec(libs, password, saltHex, outputFile, files, level, fs, entropy, epos).fs[outputFile]
    requires forall i | 0 <= i < |files| :: Base(files[i].path) !in fsx || fsx[Base(files[i].path)].File?
    requires forall i | 0 <= i < |files| - 1 :: Base(files[i].path) != outputFile
    ensures var x := ExtractSpec(libs, password, saltHex, outputFile, fsx);
            x.outcome.Pass? && |x.written| == |files| &&
            forall i | 0 <= i < |files| ::
              IsRegular(fs, files[i].path) &&
              x.written[i] == Written(Base(files[i].path), fs[files[i].path].content)
  {
    CreatedArchive(libs, password, saltHex, outputFile, files, level, fs, entropy, epos);
    var es := CreateSpec(libs, password, saltHex, outputFile, files, level, fs, entropy, epos).entries;
    var key := GenerateKey(libs.scrypt, password, DecodeString(saltHex).value).value;
    var contents := seq(|files|, i requires 0 <= i < |files| => fs[files[i].path].content);
    forall i | 0 <= i < |es|
      ensures Fits(es[i]) && Unpack(libs, key, es[i]) == Success(contents[i]) && Writable(fsx, es[i].name)
    {
      assert Base(files[i].path) != [];
    }
    ExtractedArchive(libs, password, saltHex, outputFile, fsx, es, contents);
  }

  /**
   * When the inputs' base names are distinct, each one ends up holding its
   * file's contents on the extracting side.
   */
  lemma CreateThenExtractDistinct(libs: Libs, password: seq<byte>, saltHex: seq<byte>, outputFile: seq<byte>,
                                  files: seq<FileInfo>, level: int, fs: FileSystem, entropy: seq<byte>, epos: nat,
                                  fsx: FileSystem)
    requires Sound(libs) && epos <= |entropy|
    requires CreateSpec(libs, password, saltHex, outputFile, files, level, fs, entropy, epos).outcome.Pass?
    requires forall i | 0 <= i < |files| :: files[i].path != outputFile
    requires outputFile in fsx
    requires fsx[outputFile] == CreateSpec(libs, password, saltHex, outputFile, files, level, fs, entropy, epos).fs[outputFile]
    requires forall i | 0 <= i < |files| :: Base(files[i].path) !in fsx || fsx[Base(files[i].path)].File?
    requires forall i | 0 <= i < |files| - 1 :: Base(files[i].path) != outputFile
    requires forall i, j | 0 <= i < j < |files| :: Base(files[i].path) != Base(files[j].path)
    ensures var x := ExtractSpec(libs, password, saltHex, outputFile, fsx);
            forall i | 0 <= i < |files| ::
              IsRegular(fs, files[i].path) &&
              Base(files[i].path) in x.fs && x.fs[Base(files[i].path)] == File(fs[files[i].path].content)
  {
    CreateThenExtract(libs, password, saltHex, outputFile, files, level, fs, entropy, epos, fsx);
    var x := ExtractSpec(libs, password, saltHex, outputFile, fsx);
    forall i | 0 <= i < |files|
      ensures Base(files[i].path) in x.fs && x.fs[Base(files[i].path)] == File(fs[files[i].path].content)
    {
      ApplyWritesLastWins(fsx, x.written, i);
    }
  }
}
