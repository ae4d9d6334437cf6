/**
 * The container framing of archiver/fileformat.go.
 *
 *   header:  magic:u32 | version:u16 | fileCount:u32              (10 bytes)
 *   entry:   nameLen:u16 | name | method:u8 | payloadLen:u32 | payload
 *
 * All integers are big-endian. The repository holds two incompatible entry
 * layouts: WriteFileEntry (fileformat.go:55-79) writes ONE payload length,
 * while the loop in ExtractArchive (extractor.go:68-90) reads an older layout
 * with a compressed length, compressed bytes, an encrypted length and
 * encrypted bytes. This model takes the single-payload layout of
 * WriteFileEntry as the canonical one and reads entries with ReadFileEntry
 * below, the reader that mirrors it field for field.
 */
module FileFormat {
  import opened Bytes
  import opened Errors
  import opened Streams

  const MagicNumber: u32 := 0x53454146   // "SEAF"
  const Version: u16 := 1
  const CompressionDeflate: byte := 6
  const HeaderSize: nat := 10

  /** One stored file: its name, the compression method id and the sealed payload. */
  datatype Entry = Entry(name: seq<byte>, methodId: byte, payload: seq<byte>)

  /** The bytes WriteHeader emits for a declared file count. */
  function HeaderBytes(totalFiles: u32): (r: seq<byte>)
    ensures |r| == HeaderSize
  {
    BE32(MagicNumber) + BE16(Version) + BE32(totalFiles)
  }

  /**
   * The bytes WriteFileEntry emits, AS WRITTEN: the length fields are Go
   * conversions `uint16(len(filename))` and `uint32(len(encryptedData))`,
   * which keep only the low bits, while the name and payload are written in
   * full.
   */
  function EntryBytes(e: Entry): (r: seq<byte>)
    ensures |r| == 2 + |e.name| + 1 + 4 + |e.payload|
  {
    BE16(U16Cast(|e.name|)) + e.name + [e.methodId] + BE32(U32Cast(|e.payload|)) + e.payload
  }

  /** The entry's lengths fit its length fields. */
  predicate Fits(e: Entry)
  {
    |e.name| <= MaxU16 && |e.payload| <= MaxU32
  }

  /**
   * The entry encoding the rest of the model uses: WriteFileEntry with the
   * length check that the two casts leave out. An entry whose name or
   * payload does not fit its length field is refused instead of written
   * with a wrapped length.
   */
  function EncodeEntry(e: Entry): (r: Result<seq<byte>>)
    ensures r.Success? <==> Fits(e)
    ensures r.Failure? ==> r.error == FieldTooLong
    ensures r.Success? ==> |r.value| == 7 + |e.name| + |e.payload|
  {
    if Fits(e) then Success(EntryBytes(e)) else Failure(FieldTooLong)
  }

  /**
   * ReadHeader at cursor `pos`: the magic number is checked before the
   * version is read, and the version before the file count is read.
   */
  function ParseHeader(data: seq<byte>, pos: nat): (r: Result<Read<u32>>)
    requires pos <= |data|
    ensures r.Success? ==> r.value.next == pos + HeaderSize <= |data|
    ensures r.Success? ==> data[pos..pos + HeaderSize] == HeaderBytes(r.value.value)
  {
    var magic :- ReadU32At(data, pos);
    if magic.value != MagicNumber then Failure(InvalidFormat)
    else
      var version :- ReadU16At(data, magic.next);
      if version.value != Version then Failure(UnsupportedVersion(version.value))
      else
        var count :- ReadU32At(data, version.next);
        FromBE32Injective(data[version.next..version.next + 4]);
        assert data[pos..pos + HeaderSize] == data[pos..pos + 4] + data[pos + 4..pos + 6] + data[pos + 6..pos + 10];
        Success(count)
  }

  /**
   * The entry reader paired with WriteFileEntry: each declared length drives
   * exactly that many bytes of consumption, with no delimiter and no resync.
   * A parsed entry re-encodes to exactly the bytes it was read from.
   */
  function ParseEntry(data: seq<byte>, pos: nat): (r: Result<Read<Entry>>)
    requires pos <= |data|
    ensures r.Success? ==> pos < r.value.next <= |data|
    ensures r.Success? ==> Fits(r.value.value) && data[pos..r.value.next] == EntryBytes(r.value.value)
  {
    var nameLen :- ReadU16At(data, pos);
    var name :- ReadFullAt(data, nameLen.next, nameLen.value);
    var methodId :- ReadU8At(data, name.next);
    var payloadLen :- ReadU32At(data, methodId.next);
    var payload :- ReadFullAt(data, payloadLen.next, payloadLen.value);
    var e := Entry(name.value, methodId.value, payload.value);
    EntryWindow(data, pos, e);
    Success(Read(e, payload.next))
  }

  /** Bytes laid out field by field as an entry are that entry's encoding. */
  lemma EntryWindow(data: seq<byte>, pos: nat, e: Entry)
    requires Fits(e) && pos + 7 + |e.name| + |e.payload| <= |data|
    requires FromBE16(data[pos..pos + 2]) == |e.name|
    requires data[pos + 2..pos + 2 + |e.name|] == e.name
    requires data[pos + 2 + |e.name|] == e.methodId
    requires FromBE32(data[pos + 3 + |e.name|..pos + 7 + |e.name|]) == |e.payload|
    requires data[pos + 7 + |e.name|..pos + 7 + |e.name| + |e.payload|] == e.payload
    ensures data[pos..pos + 7 + |e.name| + |e.payload|] == EntryBytes(e)
  {
    var n, m := |e.name|, |e.payload|;
    FromBE16Injective(data[pos..pos + 2]);
    FromBE32Injective(data[pos + 3 + n..pos + 7 + n]);
    assert data[pos + 2 + n..pos + 3 + n] == [e.methodId];
    SplitAt(data, pos, pos + 2, pos + 2 + n);
    SplitAt(data, pos, pos + 2 + n, pos + 3 + n);
    SplitAt(data, pos, pos + 3 + n, pos + 7 + n);
    SplitAt(data, pos, pos + 7 + n, pos + 7 + n + m);
  }

  /** A slice is its two halves on either side of a cut. */
  lemma SplitAt(data: seq<byte>, i: nat, j: nat, k: nat)
    requires i <= j <= k <= |data|
    ensures data[i..k] == data[i..j] + data[j..k]
  {
  }

  /** The header layout byte by byte: "SEAF", version 1, then the count. */
  lemma HeaderLayout(totalFiles: u32)
    ensures HeaderBytes(totalFiles) == [0x53, 0x45, 0x41, 0x46, 0x00, 0x01] + BE32(totalFiles)
    ensures HeaderBytes(totalFiles)[..4] == [ 'S' as byte, 'E' as byte, 'A' as byte, 'F' as byte ]
  {
  }

  /** ReadHeader reads back what WriteHeader wrote, wherever it sits, and leaves the cursor after it. */
  lemma ParseHeaderAt(data: seq<byte>, pos: nat, totalFiles: u32)
    requires pos + HeaderSize <= |data| && data[pos..pos + HeaderSize] == HeaderBytes(totalFiles)
    ensures ParseHeader(data, pos) == Success(Read(totalFiles, pos + HeaderSize))
  {
    var b := HeaderBytes(totalFiles);
    assert b[0..4] == BE32(MagicNumber) && b[4..6] == BE16(Version) && b[6..10] == BE32(totalFiles);
    SliceOfWindow(data, pos, b, 0, 4);
    SliceOfWindow(data, pos, b, 4, 6);
    SliceOfWindow(data, pos, b, 6, 10);
  }

  /** The same for a header between any prefix and any suffix. */
  lemma ParseHeaderOfHeader(prefix: seq<byte>, totalFiles: u32, rest: seq<byte>)
    ensures ParseHeader(prefix + HeaderBytes(totalFiles) + rest, |prefix|)
         == Success(Read(totalFiles, |prefix| + HeaderSize))
  {
    var data := prefix + HeaderBytes(totalFiles) + rest;
    assert data[|prefix|..|prefix| + HeaderSize] == HeaderBytes(totalFiles);
    ParseHeaderAt(data, |prefix|, totalFiles);
  }

  /** A wrong magic number is rejected before the version bytes are looked at. */
  lemma BadMagicRejected(data: seq<byte>)
    requires |data| >= 4 && data[..4] != BE32(MagicNumber)
    ensures ParseHeader(data, 0) == Failure(InvalidFormat)
  {
    FromBE32Injective(data[..4]);
  }

  /** A version other than 1 is rejected before the file count is looked at. */
  lemma BadVersionRejected(data: seq<byte>)
    requires |data| >= 6 && data[..4] == BE32(MagicNumber) && data[4..6] != BE16(Version)
    ensures ParseHeader(data, 0) == Failure(UnsupportedVersion(FromBE16(data[4..6])))
  {
    FromBE16Injective(data[4..6]);
  }

  /** Input too short for the magic, the version or the count fails at that read. */
  lemma ShortHeaderRejected(data: seq<byte>)
    requires |data| < HeaderSize
    ensures ParseHeader(data, 0).Failure?
    ensures |data| < 4 ==> ParseHeader(data, 0).error == (if data == [] then Eof else UnexpectedEof)
    ensures 4 <= |data| < 6 && data[..4] == BE32(MagicNumber) ==>
              ParseHeader(data, 0).error == (if |data| == 4 then Eof else UnexpectedEof)
    ensures 6 <= |data| && data[..6] == BE32(MagicNumber) + BE16(Version) ==>
              ParseHeader(data, 0).error == (if |data| == 6 then Eof else UnexpectedEof)
  {
    if 6 <= |data| && data[..6] == BE32(MagicNumber) + BE16(Version) {
      assert data[..4] == BE32(MagicNumber) && data[4..6] == BE16(Version);
    }
  }

  /** A window of a stream that holds `b` holds each slice of `b` at the matching offsets. */
  lemma SliceOfWindow(data: seq<byte>, pos: nat, b: seq<byte>, i: nat, j: nat)
    requires pos + |b| <= |data| && data[pos..pos + |b|] == b && i <= j <= |b|
    ensures data[pos + i..pos + j] == b[i..j]
  {
    assert forall k | pos + i <= k < pos + j :: data[k] == b[k - pos];
  }

  /**
   * An entry that fits its length fields reads back whole from wherever its
   * bytes sit in the stream, and the cursor ends at its last byte.
   */
  lemma {:induction false} ParseEntryAt(data: seq<byte>, pos: nat, e: Entry)
    requires Fits(e)
    requires pos + |EntryBytes(e)| <= |data| && data[pos..pos + |EntryBytes(e)|] == EntryBytes(e)
    ensures ParseEntry(data, pos) == Success(Read(e, pos + |EntryBytes(e)|))
  {
    EntryHeadAt(data, pos, e);
    EntryTailAt(data, pos, e);
  }

  /** The name length, the name and the method id of an entry read back from its bytes. */
  lemma EntryHeadAt(data: seq<byte>, pos: nat, e: Entry)
    requires Fits(e)
    requires pos + |EntryBytes(e)| <= |data| && data[pos..pos + |EntryBytes(e)|] == EntryBytes(e)
    ensures ReadU16At(data, pos) == Success(Read(|e.name| as u16, pos + 2))
    ensures ReadFullAt(data, pos + 2, |e.name|) == Success(Read(e.name, pos + 2 + |e.name|))
    ensures ReadU8At(data, pos + 2 + |e.name|) == Success(Read(e.methodId, pos + 3 + |e.name|))
  {
    var b := EntryBytes(e);
    var n := |e.name|;
    EntryFields(e);
    SliceOfWindow(data, pos, b, 0, 2);
    SliceOfWindow(data, pos, b, 2, 2 + n);
    assert data[pos + 2 + n] == data[pos..pos + |b|][2 + n];
  }

  /** The payload length and the payload of an entry read back from its bytes. */
  lemma EntryTailAt(data: seq<byte>, pos: nat, e: Entry)
    requires Fits(e)
    requires pos + |EntryBytes(e)| <= |data| && data[pos..pos + |EntryBytes(e)|] == EntryBytes(e)
    ensures ReadU32At(data, pos + 3 + |e.name|) == Success(Read(|e.payload| as u32, pos + 7 + |e.name|))
    ensures ReadFullAt(data, pos + 7 + |e.name|, |e.payload|)
         == Success(Read(e.payload, pos + 7 + |e.name| + |e.payload|))
  {
    var b := EntryBytes(e);
    var n, m := |e.name|, |e.payload|;
    EntryFields(e);
    SliceOfWindow(data, pos, b, 3 + n, 7 + n);
    SliceOfWindow(data, pos, b, 7 + n, 7 + n + m);
  }

  /** Where each field of a fitting entry sits in its encoding. */
  lemma EntryFields(e: Entry)
    requires Fits(e)
    ensures var b, n, m := EntryBytes(e), |e.name|, |e.payload|;
            b[0..2] == BE16(n) && b[2..2 + n] == e.name && b[2 + n] == e.methodId &&
            b[3 + n..7 + n] == BE32(m) && b[7 + n..7 + n + m] == e.payload
  {
    var n, m := |e.name|, |e.payload|;
    assert EntryBytes(e) == BE16(n) + e.name + [e.methodId] + BE32(m) + e.payload;
  }

  /** An entry that fits its length fields reads back whole and ends at its last byte. */
  lemma ParseEncodedEntry(prefix: seq<byte>, e: Entry, rest: seq<byte>)
    requires Fits(e)
    ensures ParseEntry(prefix + EntryBytes(e) + rest, |prefix|)
         == Success(Read(e, |prefix| + |EntryBytes(e)|))
  {
    var data := prefix + EntryBytes(e) + rest;
    assert data[|prefix|..|prefix| + |EntryBytes(e)|] == EntryBytes(e);
    ParseEntryAt(data, |prefix|, e);
  }

  /**
   * The casts as written break the round trip: a 65536-byte name is stored
   * with length 0, so the reader takes the name as empty, the name's first
   * byte as the method and the next four as the payload length, and runs off
   * the end of the stream.
   */
  lemma TruncatedNameMisreads()
    ensures var e := Entry(seq(0x1_0000, _ => 0x61), CompressionDeflate, []);
            !Fits(e) && ParseEntry(EntryBytes(e), 0) == Failure(UnexpectedEof)
  {
    var e := Entry(seq(0x1_0000, _ => 0x61), CompressionDeflate, []);
    var data := EntryBytes(e);
    assert data[..2] == [0, 0];
    assert data[2..6] == [0x61, 0x61, 0x61, 0x61];
    assert FromBE32(data[2..6]) == 0x6161_6161;
  }

  /** WriteHeader: three binary.Write calls; earlier buffer contents are kept. */
  method WriteHeader(w: Writer, totalFiles: u32)
    modifies w
    ensures w.bytes == old(w.bytes) + HeaderBytes(totalFiles)
  {
    w.WriteU32(MagicNumber);
    w.WriteU16(Version);
    w.WriteU32(totalFiles);
  }

  /**
   * WriteFileEntry, with the length check of EncodeEntry in front of the
   * writes; nothing is written when the check fails.
   */
  method WriteFileEntry(w: Writer, filename: seq<byte>, compressionMethod: byte, encryptedData: seq<byte>)
    returns (r: Outcome)
    modifies w
    ensures var enc := EncodeEntry(Entry(filename, compressionMethod, encryptedData));
            match enc
            case Success(bs) => r == Pass && w.bytes == old(w.bytes) + bs
            case Failure(e) => r == Fail(e) && w.bytes == old(w.bytes)
  {
    if |filename| > MaxU16 || |encryptedData| > MaxU32 {
      return Fail(FieldTooLong);
    }
    w.WriteU16(|filename|);
    w.Write(filename);
    w.WriteU8(compressionMethod);
    w.WriteU32(|encryptedData|);
    w.Write(encryptedData);
    r := Pass;
  }

  /** ReadHeader on an open stream. */
  method ReadHeader(rd: Reader) returns (r: Result<u32>)
    requires rd.Valid()
    modifies rd
    ensures rd.Valid()
    ensures match ParseHeader(rd.data, old(rd.pos))
            case Success(h) => r == Success(h.value) && rd.pos == h.next
            case Failure(e) => r == Failure(e)
  {
    var magic := rd.ReadU32();
    if magic.Failure? {
      return Failure(magic.error);
    }
    if magic.value != MagicNumber {
      return Failure(InvalidFormat);
    }
    var version := rd.ReadU16();
    if version.Failure? {
      return Failure(version.error);
    }
    if version.value != Version {
      return Failure(UnsupportedVersion(version.value));
    }
    r := rd.ReadU32();
  }

  /** The entry reader, one binary.Read or io.ReadFull per field. */
  method ReadFileEntry(rd: Reader) returns (r: Result<Entry>)
    requires rd.Valid()
    modifies rd
    ensures rd.Valid()
    ensures match ParseEntry(rd.data, old(rd.pos))
            case Success(en) => r == Success(en.value) && rd.pos == en.next
            case Failure(e) => r == Failure(e)
  {
    var nameLen := rd.ReadU16();
    if nameLen.Failure? {
      return Failure(nameLen.error);
    }
    var name := rd.ReadFull(nameLen.value);
    if name.Failure? {
      return Failure(name.error);
    }
    var methodId := rd.ReadU8();
    if methodId.Failure? {
      return Failure(methodId.error);
    }
    var payloadLen := rd.ReadU32();
    if payloadLen.Failure? {
      return Failure(payloadLen.error);
    }
    var payload := rd.ReadFull(payloadLen.value);
    if payload.Failure? {
      return Failure(payload.error);
    }
    r := Success(Entry(name.value, methodId.value, payload.value));
  }
}
