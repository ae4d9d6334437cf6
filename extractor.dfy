/**
 * archiver/extractor.go: Decrypt and the extraction pipeline.
 *
 * ExtractArchive decodes the salt, derives the key, opens the archive, reads
 * the header and then, `totalFiles` times, reads one entry, decrypts its
 * payload, dispatches on the method id to decompress it, and writes the
 * result under the stored name. Entries are read with FileFormat's
 * single-payload reader (see the note at the top of fileformat.dfy).
 * The progress bar calls are no-ops here.
 */
module Extractor {
  import opened Bytes
  import opened Errors
  import opened Streams
  import opened Libraries
  import opened FileFormat
  import opened Compression
  import opened Encryption
  import opened Hex
  import opened Os

  /**
   * Decrypt: the cipher constructor's key check, then the short-blob check,
   * then Open on blob[NonceSize:] with blob[:NonceSize] as the nonce.
   */
  function Decrypt(g: Gcm, ciphertext: seq<byte>, key: seq<byte>): (r: Result<seq<byte>>)
    ensures !AesKeySize(|key|) ==> r == Failure(InvalidKeySize(|key|))
    ensures AesKeySize(|key|) && |ciphertext| < NonceSize ==> r == Failure(IncorrectCiphertext)
    ensures r.Success? ==>
              |ciphertext| >= NonceSize &&
              g.open(key, ciphertext[..NonceSize], ciphertext[NonceSize..]) == Some(r.value)
  {
    if !AesKeySize(|key|) then Failure(InvalidKeySize(|key|))
    else if |ciphertext| < NonceSize then Failure(IncorrectCiphertext)
    else
      match g.open(key, ciphertext[..NonceSize], ciphertext[NonceSize..])
      case None => Failure(AuthenticationFailed)
      case Some(plaintext) => Success(plaintext)
  }

  /** A blob shorter than a nonce fails whatever Open would say: Open is never consulted. */
  lemma ShortBlobRejected(g: Gcm, g': Gcm, ciphertext: seq<byte>, key: seq<byte>)
    requires AesKeySize(|key|) && |ciphertext| < NonceSize
    ensures Decrypt(g, ciphertext, key) == Decrypt(g', ciphertext, key) == Failure(IncorrectCiphertext)
  {
  }

  /** Decrypt(Encrypt(d, k), k) == d. */
  lemma DecryptEncrypt(g: Gcm, data: seq<byte>, key: seq<byte>, entropy: seq<byte>, pos: nat)
    requires Correct(g) && pos <= |entropy|
    requires Encrypted(g, data, key, entropy, pos).Success?
    ensures Decrypt(g, Encrypted(g, data, key, entropy, pos).value.value, key) == Success(data)
  {
    var blob := Encrypted(g, data, key, entropy, pos).value.value;
    var nonce := entropy[pos..pos + NonceSize];
    assert blob == nonce + g.seal(key, nonce, data);
    assert blob[..NonceSize] == nonce && blob[NonceSize..] == g.seal(key, nonce, data);
  }

  /**
   * The tag check is the only integrity gate: whatever Decrypt accepts is
   * exactly a nonce followed by the sealing of the plaintext it returns, so
   * a blob altered anywhere after the nonce opens only if it is itself such
   * a sealing.
   */
  lemma DecryptedWasSealed(g: Gcm, ciphertext: seq<byte>, key: seq<byte>)
    requires Authentic(g) && Decrypt(g, ciphertext, key).Success?
    ensures ciphertext == ciphertext[..NonceSize]
                          + g.seal(key, ciphertext[..NonceSize], Decrypt(g, ciphertext, key).value)
  {
    var nonce := ciphertext[..NonceSize];
    var sealed := ciphertext[NonceSize..];
    assert g.open(key, nonce, sealed).Some?;
    assert ciphertext == nonce + sealed;
  }

  /** One entry's transform: decrypt, and only then dispatch on the method id. */
  function Unpack(libs: Libs, key: seq<byte>, e: Entry): (r: Result<seq<byte>>)
    ensures Decrypt(libs.gcm, e.payload, key).Failure? ==> r == Failure(Decrypt(libs.gcm, e.payload, key).error)
    ensures Decrypt(libs.gcm, e.payload, key).Success? && e.methodId != CompressionDeflate ==>
              r == Failure(UnknownMethod(e.methodId))
  {
    var plaintext :- Decrypt(libs.gcm, e.payload, key);
    if e.methodId != CompressionDeflate then Failure(UnknownMethod(e.methodId))
    else Decompressed(libs.flate, plaintext)
  }

  /** One os.WriteFile performed by the extraction loop. */
  datatype Written = Written(name: seq<byte>, content: seq<byte>)

  /** The outcome of an extraction, the file system after it, and the writes it made in order. */
  datatype Extraction = Extraction(outcome: Outcome, fs: FileSystem, written: seq<Written>)

  /** The file system after the given writes, performed first to last. */
  function ApplyWrites(fs: FileSystem, ws: seq<Written>): FileSystem
    decreases |ws|
  {
    if ws == [] then fs else ApplyWrites(fs[ws[0].name := File(ws[0].content)], ws[1..])
  }

  /** A name's last write decides what it holds afterwards: later entries overwrite earlier ones. */
  lemma {:induction false} ApplyWritesLastWins(fs: FileSystem, ws: seq<Written>, k: nat)
    requires k < |ws| && forall j | k < j < |ws| :: ws[j].name != ws[k].name
    ensures ws[k].name in ApplyWrites(fs, ws) && ApplyWrites(fs, ws)[ws[k].name] == File(ws[k].content)
    decreases |ws|
  {
    if k == 0 {
      ApplyWritesUntouched(fs[ws[0].name := File(ws[0].content)], ws[1..], ws[0].name);
    } else {
      ApplyWritesLastWins(fs[ws[0].name := File(ws[0].content)], ws[1..], k - 1);
    }
  }

  /** A name no write mentions keeps what it had, or stays absent. */
  lemma {:induction false} ApplyWritesUntouched(fs: FileSystem, ws: seq<Written>, name: seq<byte>)
    requires forall j | 0 <= j < |ws| :: ws[j].name != name
    ensures (name in ApplyWrites(fs, ws)) == (name in fs)
    ensures name in fs ==> ApplyWrites(fs, ws)[name] == fs[name]
    decreases |ws|
  {
    if ws != [] {
      ApplyWritesUntouched(fs[ws[0].name := File(ws[0].content)], ws[1..], name);
    }
  }

  /** The result of one turn of the entry loop: the write it made and where the next entry starts. */
  datatype Step = Step(written: Written, next: nat, fs: FileSystem)

  /** One turn of the entry loop: read the entry at `pos`, unpack it, write its file. */
  function ExtractOne(libs: Libs, key: seq<byte>, data: seq<byte>, pos: nat, fs: FileSystem): (r: Result<Step>)
    requires pos <= |data|
    ensures r.Success? ==>
              pos < r.value.next <= |data| &&
              r.value.fs == fs[r.value.written.name := File(r.value.written.content)] &&
              ParseEntry(data, pos).Success? &&
              ParseEntry(data, pos).value.next == r.value.next &&
              r.value.written.name == ParseEntry(data, pos).value.value.name &&
              Unpack(libs, key, ParseEntry(data, pos).value.value) == Success(r.value.written.content)
    ensures ParseEntry(data, pos).Failure? ==> r == Failure(ParseEntry(data, pos).error)
  {
    var rd :- ParseEntry(data, pos);
    var original :- Unpack(libs, key, rd.value);
    var fs' :- WriteFile(fs, rd.value.name, original);
    Success(Step(Written(rd.value.name, original), rd.next, fs'))
  }

  /**
   * The entry loop from cursor `pos` with `remaining` entries to go. The
   * first failure stops it: the files of earlier entries stay written and no
   * later entry is read.
   */
  function ExtractEntries(libs: Libs, key: seq<byte>, data: seq<byte>, pos: nat, remaining: nat, fs: FileSystem)
    : (x: Extraction)
    requires pos <= |data|
    ensures |x.written| <= remaining
    ensures x.outcome.Pass? <==> |x.written| == remaining
    ensures x.fs == ApplyWrites(fs, x.written)
    decreases remaining
  {
    if remaining == 0 then Extraction(Pass, fs, [])
    else
      match ExtractOne(libs, key, data, pos, fs)
      case Failure(e) => Extraction(Fail(e), fs, [])
      case Success(st) =>
        var rest := ExtractEntries(libs, key, data, st.next, remaining - 1, st.fs);
        Extraction(rest.outcome, rest.fs, [st.written] + rest.written)
  }

  /** ExtractArchive's result: salt, key, archive, header, then the entry loop. */
  function ExtractSpec(libs: Libs, password: seq<byte>, saltHex: seq<byte>, archiveFile: seq<byte>, fs: FileSystem)
    : (x: Extraction)
    ensures x.fs == ApplyWrites(fs, x.written)
  {
    match DecodeString(saltHex)
    case Failure(e) => Extraction(Fail(e), fs, [])
    case Success(salt) =>
      match GenerateKey(libs.scrypt, password, salt)
      case Failure(e) => Extraction(Fail(e), fs, [])
      case Success(key) =>
        match ReadFile(fs, archiveFile)
        case Failure(e) => Extraction(Fail(e), fs, [])
        case Success(data) =>
          match ParseHeader(data, 0)
          case Failure(e) => Extraction(Fail(e), fs, [])
          case Success(header) => ExtractEntries(libs, key, data, header.next, header.value, fs)
  }

  /** A malformed salt is reported before any key is derived or any file touched. */
  lemma SaltErrorFirst(libs: Libs, password: seq<byte>, saltHex: seq<byte>, archiveFile: seq<byte>, fs: FileSystem)
    requires !WellFormed(saltHex)
    ensures DecodeString(saltHex).Failure?
    ensures ExtractSpec(libs, password, saltHex, archiveFile, fs)
         == Extraction(Fail(DecodeString(saltHex).error), fs, [])
  {
    DecodeStringSucceedsIff(saltHex);
  }

  /** A bad header is reported before any entry is read. */
  lemma HeaderErrorFirst(libs: Libs, password: seq<byte>, saltHex: seq<byte>, archiveFile: seq<byte>, fs: FileSystem)
    requires WellFormed(saltHex)
    requires archiveFile in fs && fs[archiveFile].File?
    requires ParseHeader(fs[archiveFile].content, 0).Failure?
    ensures ExtractSpec(libs, password, saltHex, archiveFile, fs)
         == Extraction(Fail(ParseHeader(fs[archiveFile].content, 0).error), fs, [])
  {
    DecodeStringSucceedsIff(saltHex);
  }

  /**
   * An entry whose payload decrypts but whose method id is not 6 stops the
   * loop with UnknownMethod before that entry's file is written.
   */
  lemma UnknownMethodRejected(libs: Libs, key: seq<byte>, data: seq<byte>, pos: nat, remaining: nat, fs: FileSystem)
    requires pos <= |data| && remaining > 0
    requires ParseEntry(data, pos).Success?
    requires var e := ParseEntry(data, pos).value.value;
             Decrypt(libs.gcm, e.payload, key).Success? && e.methodId != CompressionDeflate
    ensures ExtractEntries(libs, key, data, pos, remaining, fs)
         == Extraction(Fail(UnknownMethod(ParseEntry(data, pos).value.value.methodId)), fs, [])
  {
  }

  /** A failed step ends the entry loop with that step's error and no further writes. */
  lemma ExtractEntriesStopsAt(libs: Libs, key: seq<byte>, data: seq<byte>, pos: nat, remaining: nat, fs: FileSystem)
    requires pos <= |data| && remaining > 0 && ExtractOne(libs, key, data, pos, fs).Failure?
    ensures ExtractEntries(libs, key, data, pos, remaining, fs)
         == Extraction(Fail(ExtractOne(libs, key, data, pos, fs).error), fs, [])
  {
  }

  /** A successful step leaves the rest of the loop to decide the outcome and the final file system. */
  lemma ExtractEntriesContinues(libs: Libs, key: seq<byte>, data: seq<byte>, pos: nat, remaining: nat, fs: FileSystem,
                                w: Written, next: nat, fs': FileSystem, rest: nat)
    requires pos <= |data| && remaining == rest + 1
    requires ExtractOne(libs, key, data, pos, fs) == Success(Step(w, next, fs'))
    ensures next <= |data|
    ensures ExtractEntries(libs, key, data, pos, remaining, fs).outcome == ExtractEntries(libs, key, data, next, rest, fs').outcome
    ensures ExtractEntries(libs, key, data, pos, remaining, fs).fs == ExtractEntries(libs, key, data, next, rest, fs').fs
    ensures ExtractEntries(libs, key, data, pos, remaining, fs).written
         == [w] + ExtractEntries(libs, key, data, next, rest, fs').written
  {
    var r := ExtractEntries(libs, key, data, next, rest, fs');
    assert ExtractEntries(libs, key, data, pos, remaining, fs) == Extraction(r.outcome, r.fs, [w] + r.written);
  }

  /** The body of ExtractArchive's entry loop. */
  method ExtractEntry(libs: Libs, key: seq<byte>, inFile: Reader, fs: FileSystem) returns (r: Result<FileSystem>)
    requires inFile.Valid()
    modifies inFile
    ensures inFile.Valid()
    ensures r.Success? <==> ExtractOne(libs, key, inFile.data, old(inFile.pos), fs).Success?
    ensures r.Success? ==> var st := ExtractOne(libs, key, inFile.data, old(inFile.pos), fs).value;
                           r.value == st.fs && inFile.pos == st.next
    ensures r.Failure? ==> r.error == ExtractOne(libs, key, inFile.data, old(inFile.pos), fs).error
  {
    var entry := ReadFileEntry(inFile);
    if entry.Failure? {
      return Failure(entry.error);
    }
    var decrypted := Decrypt(libs.gcm, entry.value.payload, key);
    if decrypted.Failure? {
      return Failure(decrypted.error);
    }
    var original: seq<byte>;
    if entry.value.methodId == CompressionDeflate {
      var inflated := Decompress(libs.flate, decrypted.value);
      if inflated.Failure? {
        return Failure(inflated.error);
      }
      original := inflated.value;
    } else {
      return Failure(UnknownMethod(entry.value.methodId));
    }
    r := WriteFile(fs, entry.value.name, original);
  }

  /**
   * The entry loop of ExtractArchive (`for i < totalFiles`) over a reader
   * positioned after the header.
   */
  method ExtractEntriesFrom(libs: Libs, key: seq<byte>, inFile: Reader, totalFiles: nat, fs: FileSystem)
    returns (err: Outcome, fs': FileSystem)
    requires inFile.Valid()
    modifies inFile
    ensures var x := ExtractEntries(libs, key, inFile.data, old(inFile.pos), totalFiles, fs);
            err == x.outcome && fs' == x.fs
  {
    fs' := fs;
    ghost var whole := ExtractEntries(libs, key, inFile.data, inFile.pos, totalFiles, fs);
    ghost var remaining: nat := totalFiles;
    var i: nat := 0;
    while i < totalFiles
      invariant inFile.Valid() && i <= totalFiles && remaining == totalFiles - i
      invariant ExtractEntries(libs, key, inFile.data, inFile.pos, remaining, fs').outcome == whole.outcome
      invariant ExtractEntries(libs, key, inFile.data, inFile.pos, remaining, fs').fs == whole.fs
      decreases totalFiles - i
    {
      ghost var pos, fs0, remaining0 := inFile.pos, fs', remaining;
      var next := ExtractEntry(libs, key, inFile, fs');
      if next.Failure? {
        ExtractEntriesStopsAt(libs, key, inFile.data, pos, remaining, fs');
        return Fail(next.error), fs';
      }
      ghost var w := ExtractOne(libs, key, inFile.data, pos, fs').value.written;
      fs' := next.value;
      i := i + 1;
      remaining := remaining - 1;
      ExtractEntriesContinues(libs, key, inFile.data, pos, remaining0, fs0, w, inFile.pos, fs', remaining);
    }
    err := Pass;
  }

  /** ExtractArchive: salt, key, archive, header, then the entry loop. */
  method ExtractArchive(libs: Libs, password: seq<byte>, saltHex: seq<byte>, archiveFile: seq<byte>, fs: FileSystem)
    returns (err: Outcome, fs': FileSystem)
    ensures var x := ExtractSpec(libs, password, saltHex, archiveFile, fs);
            err == x.outcome && fs' == x.fs
  {
    var salt := DecodeString(saltHex);
    if salt.Failure? {
      return Fail(salt.error), fs;
    }
    // GenerateKey's error branch is never taken: the cost parameters are fixed and valid
    var key := GenerateKey(libs.scrypt, password, salt.value);
    var archive := ReadFile(fs, archiveFile);
    if archive.Failure? {
      return Fail(archive.error), fs;
    }
    var inFile := new Reader(archive.value);
    var totalFiles := ReadHeader(inFile);
    if totalFiles.Failure? {
      return Fail(totalFiles.error), fs;
    }
    err, fs' := ExtractEntriesFrom(libs, key.value, inFile, totalFiles.value, fs);
  }
}
