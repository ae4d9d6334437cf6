# seaf in Dafny

seaf packs files into one encrypted archive and unpacks them again. This project models the archive codec and proves properties about it. It also models the terminal mini-game and a few helpers of the desktop GUI.

How the archiver works:

1. **Collect and create.** `CollectFiles` stats the input paths. `CreateArchive` then:
   - decodes the hexadecimal salt;
   - derives a 32-byte key with scrypt (N = 32768, r = 8, p = 1);
   - writes a 10-byte header (magic "SEAF", version 1, file count).
2. **One entry per input file.** Each file is read, DEFLATE-compressed at the chosen level and sealed with AES-GCM (a random 96-bit nonce goes in front of the sealed bytes). It is written as `nameLen:u16 | name | method:u8 | payloadLen:u32 | payload` under its base name.
3. **Extract.** `ExtractArchive` reverses the steps entry by entry: read, decrypt, check the method id (6, DEFLATE), inflate, write the file.

The headline result is `RoundTrip.CreateThenExtract`. It holds under these conditions:

- `CreateArchive` passes.
- No input path is the output file itself. `os.Create` truncates the output before the inputs are read (archiver/archiving.go:49, 63), so such an input would be packed with the partial archive, not its original contents.
- The extracting file system holds the created archive under the same name.
- No input's base name is a directory there.
- No input except the last has the archive's own name as its base name. An earlier one would make extraction overwrite the archive while still reading it.

Then extracting the archive with the same password and salt writes every input file's exact contents under its base name, in input order. It holds for every DEFLATE, AES-GCM and scrypt implementation that meets those libraries' contracts.

Modules:

- **Support.** `Bytes` (fixed-width integers, big-endian encoding), `Errors` (error values, `Result`, `Outcome`) and `Streams`, where a reader is a byte sequence with a cursor and a writer is an append-only buffer.
- **The libraries the Go code calls.** `Libraries` (DEFLATE, AES-GCM and scrypt as records of function values with the properties the code relies on), `Hex` (encoding/hex), `FilePath` (filepath.Base) and `Os` (a map from path to file or directory).
- **`FileFormat`, `Compression`, `Encryption`, `Extractor`, `Archiving`.** The five files of `archiver/`. Most operations are defined twice: as a function and as the imperative method that mirrors the Go code, with the method proved equal to its function. There are exceptions. `Encryption.GenerateKey`, `Extractor.Decrypt` and `Extractor.Unpack` model straight-line Go calls and exist only as functions. `Archiving.CollectFiles` is only a method, whose ensures state its result directly.
- **`RoundTrip`.** The create-then-extract theorem.
- **`Game`.** The bubbletea model of `ui/game.go`, as a class.
- **`Gui`.** The compression-level parser, the duplicate-free file list and the unit choice of `formatFileSize`.

Where the Go code contradicts itself, the model takes one consistent reading:

- **Entry layout.** `WriteFileEntry` (archiver/fileformat.go:55-79) writes one payload length. The extraction loop (archiver/extractor.go:68-90) reads an older layout with separate compressed and encrypted blocks. The model uses the single-payload layout throughout and reads entries with `FileFormat.ReadFileEntry`, which mirrors `WriteFileEntry` field for field.
- **Call arguments.** `CreateArchive` calls `Compress(data)` with no level (archiver/archiving.go:69) and `WriteFileEntry` with five arguments (archiver/archiving.go:81). Its last parameter is a progress bar, while its callers pass a compression level. The model gives `CreateArchive` a `level` parameter, passes it to `Compress`, and calls `WriteFileEntry` with its four declared parameters.
- **Randomness.** The random source is a stream of bytes that `Encrypt` reads its nonce from.
- **The game's random start.** The random grid and targets of `initialModel` are constructor parameters.

## Model

| member | source | states |
|---|---|---|
| Bytes.U16Cast | archiver/fileformat.go:56 | Go's `uint16(n)`: a value that fits is kept, and a value above 65535 becomes smaller |
| Bytes.U32Cast | archiver/fileformat.go:69 | Go's `uint32(n)`: a value that fits is kept, and a value above 2^32 - 1 becomes smaller |
| Bytes.BE16 | archiver/fileformat.go:57 | binary.BigEndian writes a uint16 as two bytes that binary.Read decodes back to it |
| Bytes.BE32 | archiver/fileformat.go:70 | binary.BigEndian writes a uint32 as four bytes that binary.Read decodes back to it |
| Bytes.FromBE16Injective | archiver/fileformat.go:39-45 | two bytes are the encoding of the uint16 they decode to, so a decoded value other than the expected one means other bytes |
| Bytes.FromBE32Injective | archiver/fileformat.go:31-37 | the same for four bytes and a uint32 |
| Streams.ReadFullAt | archiver/extractor.go:57 | io.ReadFull succeeds exactly when n bytes are left (or n is 0) and gives those bytes; otherwise EOF at the end of the stream and unexpected EOF before it |
| Streams.ReadU8At | archiver/extractor.go:64 | binary.Read of a uint8 succeeds exactly when a byte is left, and gives it |
| Streams.ReadU16At | archiver/extractor.go:50 | binary.Read of a uint16 succeeds exactly when two bytes are left, and gives their big-endian value |
| Streams.ReadU32At | archiver/extractor.go:70 | binary.Read of a uint32 succeeds exactly when four bytes are left, and gives their big-endian value |
| Streams.ReadU16Of | archiver/fileformat.go:39-45 | a uint16 written big-endian reads back wherever it sits |
| Streams.ReadU32Of | archiver/fileformat.go:47-50 | a uint32 written big-endian reads back wherever it sits |
| Streams.Reader.ReadFull | archiver/extractor.go:57 | the method returns what ReadFullAt says and moves the cursor past the bytes read |
| Streams.Reader.ReadU8 | archiver/extractor.go:64 | the method returns what ReadU8At says and moves the cursor past the byte |
| Streams.Reader.ReadU16 | archiver/extractor.go:50 | the method returns what ReadU16At says and moves the cursor past the two bytes |
| Streams.Reader.ReadU32 | archiver/extractor.go:70 | the method returns what ReadU32At says and moves the cursor past the four bytes |
| Streams.Writer.Write | archiver/fileformat.go:61 | w.Write appends its bytes to what was written before |
| Streams.Writer.WriteU8 | archiver/fileformat.go:65 | binary.Write of a uint8 appends that byte |
| Streams.Writer.WriteU16 | archiver/fileformat.go:57 | binary.Write of a uint16 appends its two big-endian bytes |
| Streams.Writer.WriteU32 | archiver/fileformat.go:70 | binary.Write of a uint32 appends its four big-endian bytes |
| FileFormat.HeaderBytes | archiver/fileformat.go:10-28 | the header is 10 bytes |
| FileFormat.HeaderLayout | archiver/fileformat.go:10-28 | the header is "SEAF" (0x53454146), then 0x0001, then the big-endian file count |
| FileFormat.WriteHeader | archiver/fileformat.go:17-28 | WriteHeader appends exactly the header bytes; what the buffer held before is kept |
| FileFormat.ParseHeader | archiver/fileformat.go:30-53 | a header that is read successfully occupies the 10 bytes at the cursor, is the encoding of the count returned, and leaves the cursor after it |
| FileFormat.ReadHeader | archiver/fileformat.go:30-53 | ReadHeader on an open stream returns what ParseHeader says, leaving the cursor after the header |
| FileFormat.ParseHeaderAt | archiver/fileformat.go:17-53 | reading a written header, wherever it sits, returns its count and moves the cursor 10 bytes |
| FileFormat.ParseHeaderOfHeader | archiver/fileformat.go:17-53 | the same for a header between any prefix and any suffix |
| FileFormat.BadMagicRejected | archiver/fileformat.go:35-37 | a wrong magic number fails with the invalid-format error before the version is read |
| FileFormat.BadVersionRejected | archiver/fileformat.go:39-45 | a version other than 1 fails with unsupported-version carrying that version, before the count is read |
| FileFormat.ShortHeaderRejected | archiver/fileformat.go:31-50 | input shorter than 10 bytes fails at the read that runs out: EOF when no byte of the field is there, unexpected EOF when some are |
| FileFormat.EntryBytes | archiver/fileformat.go:55-79 | an entry takes 2 + name + 1 + 4 + payload bytes |
| FileFormat.EncodeEntry | archiver/fileformat.go:55-79 | encoding succeeds exactly when the name fits a u16 and the payload a u32 length; otherwise it fails with field-too-long |
| FileFormat.WriteFileEntry | archiver/fileformat.go:55-79 | the corrected writer (see Findings): a fitting entry is appended as nameLen, name, method, payloadLen, payload; an entry whose name or payload does not fit its length field changes nothing and fails, where the Go code writes a truncated length |
| FileFormat.ParseEntry | archiver/fileformat.go:55-79 | an entry that is read consumes at least one byte, fits its length fields, and re-encodes to exactly the bytes it was read from |
| FileFormat.ReadFileEntry | archiver/extractor.go:48-66 | the reader method returns what ParseEntry says and leaves the cursor after the entry |
| FileFormat.EntryWindow | archiver/fileformat.go:55-79 | bytes laid out field by field as an entry are that entry's encoding |
| FileFormat.EntryFields | archiver/fileformat.go:55-79 | where each field of a fitting entry sits in its bytes |
| FileFormat.EntryHeadAt | archiver/fileformat.go:56-67 | the name length, name and method of a written entry read back |
| FileFormat.EntryTailAt | archiver/fileformat.go:69-76 | the payload length and payload of a written entry read back |
| FileFormat.ParseEntryAt | archiver/fileformat.go:55-79 | a fitting entry reads back whole from wherever it sits, and the cursor ends at its last byte |
| FileFormat.ParseEncodedEntry | archiver/fileformat.go:55-79 | the same for an entry between any prefix and any suffix |
| FileFormat.TruncatedNameMisreads | archiver/fileformat.go:56 | with the u16 cast as written, a 65536-byte name is stored with length 0 and the entry does not read back |
| Compression.Compressed | archiver/compress.go:10-32 | compression succeeds exactly for levels 0 to 9; any other level fails with invalid-level |
| Compression.LevelGate | archiver/compress.go:11-13 | a level below 0 or above 9 is rejected, whatever the data and the library |
| Compression.Compress | archiver/compress.go:10-32 | the method (a flate writer over a fresh buffer, Write then Close) returns what Compressed says |
| Compression.FlateWriter.Write | archiver/compress.go:21 | the writer holds everything written to it so far |
| Compression.FlateWriter.Close | archiver/compress.go:27 | Close appends the DEFLATE stream of everything written to the destination |
| Compression.Decompressed | archiver/compress.go:34-44 | decompression fails, with corrupt-input, exactly when inflate rejects the stream |
| Compression.Decompress | archiver/compress.go:34-44 | the method returns what Decompressed says |
| Compression.DecompressCompress | archiver/compress.go:10-44 | for every level 0 to 9, decompressing a compressed stream gives back the data |
| Encryption.FixedParametersAccepted | archiver/encrypt.go:14 | scrypt accepts the fixed cost parameters, so GenerateKey's error branch is never taken |
| Encryption.GenerateKey | archiver/encrypt.go:13-19 | key derivation always succeeds and gives 32 bytes |
| Encryption.Encrypted | archiver/encrypt.go:22-40 | sealing succeeds exactly with an AES key size and 12 bytes left in the random stream; the output starts with those 12 nonce bytes and is 12 + data + 16 bytes long |
| Encryption.RandomFailure | archiver/encrypt.go:33-36 | a random source that runs short gives io.ReadFull's error and no ciphertext |
| Encryption.Encrypt | archiver/encrypt.go:22-40 | the method returns what Encrypted says and advances the random stream by the nonce |
| Extractor.Decrypt | archiver/extractor.go:124-147 | a bad key size and a blob shorter than the nonce fail; on success the blob's first 12 bytes were the nonce and Open of the rest gave the result |
| Extractor.ShortBlobRejected | archiver/extractor.go:135-138 | a short blob fails whatever Open would say: Open is never called |
| Extractor.DecryptEncrypt | archiver/extractor.go:124-147 | decrypting what Encrypt produced under the same key gives back the plaintext |
| Extractor.DecryptedWasSealed | archiver/extractor.go:140-141 | whatever Decrypt accepts is a nonce followed by the sealing of the plaintext it returns |
| Extractor.Unpack | archiver/extractor.go:93-108 | payload decryption comes first and its error is reported; a method id other than 6 then fails with unknown-method |
| Extractor.ApplyWrites | archiver/extractor.go:111-113 | the file system after a run of os.WriteFile calls, applied in order; ApplyWritesLastWins and ApplyWritesUntouched state what each path then holds |
| Extractor.ApplyWritesLastWins | archiver/extractor.go:111-113 | a name's last write decides its contents: later entries overwrite earlier ones |
| Extractor.ApplyWritesUntouched | archiver/extractor.go:111-113 | a name no entry writes keeps its old contents, or stays absent |
| Extractor.ExtractOne | archiver/extractor.go:48-113 | one turn of the loop reads the entry at the cursor, unpacks it, writes it under its stored name and moves past it |
| Extractor.ExtractEntries | archiver/extractor.go:47-117 | the loop passes exactly when it makes one write per declared entry; the file system afterwards is the old one with those writes applied in order |
| Extractor.ExtractSpec | archiver/extractor.go:17-121 | the file system after extraction is the old one with the extraction's writes applied; SaltErrorFirst and HeaderErrorFirst state the early failures, and the archive is read as it was when opened (see Left out) |
| Extractor.SaltErrorFirst | archiver/extractor.go:19-22 | a malformed salt fails before the key is derived or any file is touched |
| Extractor.HeaderErrorFirst | archiver/extractor.go:38-41 | a bad header fails before any entry is read or written |
| Extractor.UnknownMethodRejected | archiver/extractor.go:100-108 | an entry that decrypts but has a method id other than 6 stops the loop before its file is written |
| Extractor.ExtractEntriesStopsAt | archiver/extractor.go:47-117 | the first failing entry ends the run with its error and no further writes |
| Extractor.ExtractEntriesContinues | archiver/extractor.go:47-117 | after a successful entry, the rest of the loop decides the outcome |
| Extractor.ExtractEntry | archiver/extractor.go:48-113 | the loop body on the open archive returns what ExtractOne says and leaves the cursor after the entry |
| Extractor.ExtractEntriesFrom | archiver/extractor.go:47-117 | the `for i < totalFiles` loop gives the outcome and file system of ExtractEntries |
| Extractor.ExtractArchive | archiver/extractor.go:17-121 | the method gives the outcome and file system of ExtractSpec |
| Archiving.CollectFiles | archiver/archiving.go:18-32 | the list is returned exactly when every path exists and is not a directory; it then has one FileInfo per path, in order, with that path and the file's size; otherwise the first bad path's error is returned |
| Archiving.PackOne | archiver/archiving.go:61-83 | a packed file consumes one nonce and gives an entry named by the base name, with method 6, that fits its length fields |
| Archiving.AppendEntries | archiver/archiving.go:61-87 | the file loop as a function: pack each file in order and stop at the first failure; its properties are the four AppendEntries rows below |
| Archiving.AppendEntriesCount | archiver/archiving.go:61-87 | the loop passes exactly when it packs every file, never packs more, and on a pass has drawn one nonce per file |
| Archiving.AppendEntriesArchive | archiver/archiving.go:61-87 | the archive grows by exactly the bytes of the packed entries, in order; after a failure it holds only the entries before it |
| Archiving.AppendEntriesNames | archiver/archiving.go:61-87 | entry i is named by file i's base name, uses method 6 and fits its length fields |
| Archiving.AppendEntriesContinues | archiver/archiving.go:61-87 | after a successful file, the rest of the loop decides the result |
| Archiving.AppendEntriesStopsAt | archiver/archiving.go:63-84 | the first failing file ends the loop with its error, leaving the archive as it was before that file |
| Archiving.CreateSpec | archiver/archiving.go:34-90 | CreateArchive as a function: salt, key, output file, header, then the file loop; its properties are CreateSpecShape, SaltErrorFirst and TooManyFilesRejected |
| Archiving.CreateSpecShape | archiver/archiving.go:34-90 | once created, the output holds a header declaring every input followed by the entries written before any failure; a pass means one entry per input; only the output file changes |
| Archiving.TooManyFilesRejected | archiver/archiving.go:55-58 | more files than a u32 count can declare are refused after the output file is created, leaving it empty, instead of being declared with a wrapped count |
| Archiving.SaltErrorFirst | archiver/archiving.go:37-40 | a malformed salt fails before the output file is created |
| Archiving.FileCountWraps | archiver/archiving.go:56 | with the cast as written, 2^32 files are declared as zero and a reader stops after the header |
| Archiving.AppendEntry | archiver/archiving.go:61-83 | the loop body on the open output returns what PackOne says and appends exactly that entry's bytes, or nothing |
| Archiving.AppendEntriesTo | archiver/archiving.go:61-87 | the loop over the open output gives AppendEntries' outcome and archive bytes |
| Archiving.CreateArchive | archiver/archiving.go:34-90 | the method gives the outcome and file system of CreateSpec |
| RoundTrip.PackedUnpacks | archiver/archiving.go:63-83 | a packed file unpacks under the same key to the contents it was read from |
| RoundTrip.AppendedUnpack | archiver/archiving.go:61-87 | every entry the loop appended unpacks to the contents of its input file |
| RoundTrip.ExtractOneOf | archiver/extractor.go:48-113 | one turn of extraction over the bytes of a fitting entry writes its unpacked contents and moves past it |
| RoundTrip.ExtractChain | archiver/extractor.go:47-117 | successful turns chained end to end make the whole loop pass with exactly their writes |
| RoundTrip.Offsets | archiver/fileformat.go:55-79 | where each entry of a run starts, one offset per entry plus the end |
| RoundTrip.OffsetsAt | archiver/fileformat.go:55-79 | each offset is the previous one plus that entry's size |
| RoundTrip.SerializeSplit | archiver/fileformat.go:55-79 | a run's bytes hold entry i's bytes at offset i |
| RoundTrip.TraceAt | archiver/extractor.go:110-113 | each write is applied to the file system left by the previous ones, and every name stays writable |
| RoundTrip.EntryWindowAt | archiver/fileformat.go:55-79 | an archive holding a run of entries holds entry i's bytes at its offset |
| RoundTrip.StepAt | archiver/extractor.go:48-113 | extracting at entry i's offset performs write i |
| RoundTrip.SerializedChain | archiver/extractor.go:47-117 | the turns over a run of entries form a chain |
| RoundTrip.ExtractSerialized | archiver/extractor.go:47-117 | the loop over a run of fitting, unpackable entries passes and writes each one's contents in order |
| RoundTrip.CreatedArchive | archiver/archiving.go:34-90 | a passing CreateArchive leaves a header declaring every input, then one entry per input in order, named by its base name and unpacking to its contents |
| RoundTrip.ExtractedArchive | archiver/extractor.go:17-121 | extraction of such an archive passes and writes each entry's contents in order, provided no entry but the last is named like the archive file it reads |
| RoundTrip.CreateThenExtract | archiver/archiving.go:34-90 | extracting a created archive with the same password and salt passes and writes, for every i in input order, file i's contents under its base name; this needs four things: no input path is the output file (os.Create truncates it before the inputs are read); the extracting side holds the created archive under the output name; no input's base name is a directory there; and no input but the last has the output file's name as its base name, since extraction would otherwise overwrite the archive it is reading |
| RoundTrip.CreateThenExtractDistinct | archiver/extractor.go:111 | when the inputs' base names are distinct (and, as above, no input path is the output file, the archive is in place, no base name is a directory, and none but the last is the output file's name), each one holds its file's contents after extraction |
| Hex.DecodeString | archiver/archiving.go:37 | a successful decoding gives one byte per pair of digits |
| Hex.DecodedPairs | archiver/archiving.go:37 | byte i of the decoded salt is the value of digits 2i and 2i + 1, high nibble first |
| Hex.EncodeToString | archiver/archiving.go:37 | the encoding has two lower-case digits per byte: digit 2i is byte i's high nibble and digit 2i + 1 its low nibble |
| Hex.DecodeStringSucceedsIff | archiver/extractor.go:19 | salt decoding succeeds exactly on even-length strings of hex digits |
| Hex.DecodeEncode | archiver/archiving.go:37 | decoding a hex encoding gives back the bytes |
| FilePath.TrimTrailingSlashes | archiver/archiving.go:81 | the result is the longest prefix of the path that does not end in a slash; everything cut off is slashes |
| FilePath.LastElement | archiver/archiving.go:81 | the result is the longest suffix of the path without a slash; the byte before it, if any, is a slash |
| FilePath.Base | archiver/archiving.go:81 | the base name is never empty, and is "/" or free of slashes |
| FilePath.BaseIsLastElement | archiver/archiving.go:81 | for a path with a byte other than a slash, the base name is the last non-empty element |
| Os.ReadFileIsStatOfFile | archiver/archiving.go:22-29 | os.ReadFile succeeds exactly where os.Stat finds a regular file, with that file's contents, and fails with Stat's error where the path is missing |
| Os.ReadAfterWrite | archiver/extractor.go:111 | after a successful os.WriteFile, the path reads back and stats as the bytes written, and every other path reads and stats as before |
| Os.WriteOverWrite | archiver/extractor.go:111 | a second write to a path replaces the first |
| Os.WriteWhatIsRead | archiver/archiving.go:63 | writing back what a file holds leaves the file system unchanged |
| Game.SkipBack | ui/game.go:87-96 | where the skip loop towards index 0 stops: never past its start; SkipBackNearest states where |
| Game.SkipForward | ui/game.go:98-107 | where the skip loop towards the last index stops: never before its start and never off the line; SkipForwardNearest states where |
| Game.SkipBackNearest | ui/game.go:87-96 | a move towards index 0 stops on the nearest non-blank cell, or at the edge, having passed only blank cells |
| Game.SkipForwardNearest | ui/game.go:98-107 | the same towards the last index |
| Game.RowCount | ui/game.go:133-134 | the number of non-blank cells of a row, at most its length |
| Game.NonBlank | ui/game.go:133-134 | the number of non-blank cells of the grid, summed row by row; NonBlankBlank and NonBlankFull state how it changes and where it starts |
| Game.RowCountBlank | ui/game.go:134 | blanking a non-blank cell takes one off its row's count |
| Game.NonBlankBlank | ui/game.go:133-134 | blanking a non-blank cell takes one off the grid's count |
| Game.NonBlankFull | ui/game.go:47-53 | a grid with no blank cell counts all of its cells |
| Game.Judge | ui/game.go:175-214 | a match wins; otherwise a proper prefix of a target goes on; anything else loses |
| Game.LostStaysLost | ui/game.go:195-213 | once lost, no further pick can lead back to a match or a prefix |
| Game.StillOpenCanWin | ui/game.go:195-206 | a game that goes on can always be won by picking the rest of some target |
| Game.Model.constructor | ui/game.go:46-72 | the initial model has the cursor at the origin, an empty sequence, vertical mode, the first pick pending and no success; it satisfies the invariant |
| Game.Model.CheckSequences | ui/game.go:175-214 | the result is true exactly when the sequence matches a target or is no proper prefix of one; a match sets success and its message, a loss clears success and sets the loss message, and going on changes nothing |
| Game.Model.MoveUp | ui/game.go:87-96 | up is ignored unless this is the first pick or the mode is vertical; otherwise the cursor moves to the nearest non-blank cell above, or to the top row; nothing else changes and the cursor stays on the grid |
| Game.Model.MoveDown | ui/game.go:98-107 | the same for down |
| Game.Model.MoveLeft | ui/game.go:109-118 | left is ignored unless this is the first pick or the mode is horizontal; otherwise the same move within the row |
| Game.Model.MoveRight | ui/game.go:120-129 | the same for right |
| Game.Model.Pick | ui/game.go:131-152 | enter on a blank cell changes nothing; otherwise the value is appended, the cell blanked, the first pick ended and the mode switched; a win quits, a loss clears the screen and quits; the pick count plus the non-blank cells stays 16 |
| Game.Model.Update | ui/game.go:80-157 | ctrl+c quits and other keys are ignored, both without change; arrows only move the cursor along their axis; the invariant is kept |
| Gui.SelectedCompressionLevel | ui/gui.go:386-397 | the level is always 0 to 9: an empty selection or a leading byte other than a digit gives 6 (the byte subtraction wraps), a digit gives its value |
| Gui.LabelsGiveTheirLevel | ui/gui.go:145-152 | every option label reads back as the level it names |
| Gui.InitialSelectionIsDefault | ui/gui.go:155 | the initially selected label gives the same level as an empty selection |
| Gui.Selection.SelectFile | ui/gui.go:260-267 | a path already in the list leaves it unchanged; any other path is appended; the list stays duplicate-free |
| Gui.Selection.ClearFiles | ui/gui.go:273-277 | the list is empty afterwards |
| Gui.AfterSelect | ui/gui.go:260-267 | the selected path is in the list afterwards, and the list holds exactly the old paths plus it |
| Gui.SelectAll | ui/gui.go:260-267 | selecting paths one after another keeps the list duplicate-free and holds exactly the old and the selected paths |
| Gui.DecimalRoundTrip | ui/gui.go:583 | the %d text of a size reads back as that size |
| Gui.FormatFileSize | ui/gui.go:577-590 | 0 gives "0 B" and anything below 1024 its exact decimal followed by " B"; from 1024 on, div = 1024^(exp+1) <= bytes < 1024 * div with exp <= 5, so the unit "KMGTPE"[exp] exists |

## Left out

- Write and Close errors of the writers (archiver/compress.go:21-29, archiver/fileformat.go:57-76). Memory buffers and the output file are modelled as writers that do not fail.
- The error of `flate.NewWriter` (archiver/compress.go:17-19). It only fails for a level outside -2..9, which the gate has already excluded.
- The error of `cipher.NewGCM` (archiver/encrypt.go:28-31, archiver/extractor.go:130-133). It does not fail for an AES block.
- The internals of DEFLATE, AES-GCM and scrypt. They are library code: abstract functions whose properties (`Lossless`, `Correct`, `Authentic`, `Sized`) are the assumptions of the lemmas that need them. `Libraries.Reference` shows that all of them can hold at once.
- Encryption.GenerateKey: scrypt's own limits on memory and on the sizes of its inputs are not modelled. With the fixed parameters it is total, as the code relies on.
- Randomness: the nonce comes from a byte stream passed in, and salt generation is not part of this model. Where the random stream stands after a failed CreateArchive is not stated.
- The progress bar (`ui/ui.go`, archiver/extractor.go:44,116,119, archiver/archiving.go:86). It is terminal output behind a mutex; its calls are no-ops.
- Archiving.CreateArchive: the closing of the output file and the end of the deferred `Close` are not modelled. The file system is updated with the archive's bytes as they are written.
- Archiving.CreateArchive: with the code as written, archive creation does not compile (see the Go calls above). The model passes the level to `Compress` and the four declared arguments to `WriteFileEntry`.
- Extractor.ExtractSpec: the archive is read as it was when it was opened. In Go, `os.WriteFile` of an entry whose name is the archive path truncates and replaces the archive while the loop still reads from it, so later entries come from the new contents. The model reads every entry from the original bytes. Paths alias only when their strings are equal ("./out" and "out" are different files here). The round-trip lemmas therefore demand that no entry but the last is named like the archive file.
- Extractor.ExtractArchive: it reads from the same one-time copy of the archive as ExtractSpec, so the aliasing above is not captured either.
- Extractor.ExtractArchive: it reads entries in the layout that `WriteFileEntry` writes, not the older two-block layout of archiver/extractor.go:68-90. Under the older layout no archive `CreateArchive` writes could be read back.
- The directory structure of the inputs: only regular files are archived, as `CollectFiles` demands. Extraction writes to the name as stored; the relative-path and output-directory handling of callers outside the core is not part of this model.
- `main.go`, the fyne windows, dialogs and goroutines of `ui/gui.go`, and the bubbletea plumbing of `ui/game.go` (`Init`, `View`, `RunGame`, `clearScreenCmd`). They are I/O and event plumbing. The key message becomes the `Key` datatype, and the quit and clear-screen commands become the `Command` datatype.
- `randomSequence` and the random grid of `initialModel` (ui/game.go:35-59). They are randomness; the grid and targets are constructor parameters restricted to what they can produce.
- Game.Model.Update: in Go, `Update` has a value receiver and `grid` is a slice shared with the caller's copy, so the cell write is visible to both. The model has one mutable object and does not capture that aliasing.
- Game.Model.Update: its own contract states only what is common to all keys. The effect of each key is stated by MoveUp, MoveDown, MoveLeft, MoveRight and Pick, which it calls.
- FileFormat.WriteFileEntry: it follows the corrected encoding of the Findings table, failing with field-too-long where the Go code writes a truncated length. EntryBytes and TruncatedNameMisreads model the code as written.
- Archiving.PackOne: it builds entries with the corrected encoding, so an entry too long for its length fields fails the creation instead of being written with a truncated length.
- Archiving.CreateArchive: it refuses more than 2^32 - 1 files with too-many-files, where the Go code declares a wrapped count. FileCountWraps models the code as written.
- Compression.Decompressed: every stream inflate rejects fails with corrupt-input. Go reports the flate reader's own error, for example io.ErrUnexpectedEOF for a truncated stream; the model does not tell these kinds apart.
- Gui.FormatFileSize: the `%.1f` mantissa `float64(bytes)/float64(div)` is floating point and is not modelled. The result carries the divisor and the unit instead of the formatted text.
- Gui.Selection.ClearFiles: the list refresh and `clearResults` calls are GUI updates and are not modelled.
- The statistics, entropy and percentage computations of `ui/gui.go`. They are floating point and outside the core.

## Findings

| source | as written | input that shows it | evidently intended | confidence | as-written member | corrected member |
|---|---|---|---|---|---|---|
| archiver/fileformat.go:56,69 | `uint16(len(filename))` and `uint32(len(encryptedData))` keep the low bits while the name and payload are written in full | a name of 65536 bytes: its length field is 0, so the reader takes the name as empty and misreads the rest | refuse an entry whose name or payload does not fit its length field | not executed | FileFormat.TruncatedNameMisreads | FileFormat.EncodeEntry, FileFormat.ParseEncodedEntry |
| archiver/archiving.go:56 | `uint32(len(files))` keeps the low 32 bits of the file count | 2^32 input files: the header declares 0 files and extraction stops after the header | refuse more files than a u32 count can declare | not executed | Archiving.FileCountWraps | Archiving.TooManyFilesRejected, Archiving.CreateSpecShape |
