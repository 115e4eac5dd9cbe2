# Verified model of the `akdzlib::zipper` archive writer

`akdzlib::zipper` is a thin C++ facade over minizip that writes ZIP archives.
It holds two pieces of state. `zipFile` is the minizip handle, or null when no archive is open.
`entryOpen` says whether an entry of that archive is open for writing.
On top of the library it adds four things, and this project models all four in Dafny:

- **The lifecycle.** `open`, `close`, `addEntry`, `addRawEntry` and `closeEntry` move between "no archive", "archive open" and "entry open".
  `operator<<` and `writeRawData` act within the "entry open" state and change neither field.
  The class `ZipWriter.Zipper` keeps both fields.
  Its object invariant `Valid()` is `entryOpen ==> zipFile != null`.
  The constructor establishes it and every method preserves it.
  `isOpen` and `isOpenEntry` are the predicates `IsOpen()` and `IsOpenEntry()`, and the other contracts are stated through them.
- **Entry-name normalisation.** Leading `/` and `\` are stripped from a name.
  `EntryNames.StripLeadingSeparators` is the reference definition.
  `EntryNames.SkipLeadingSeparators` is the pointer-advancing loop.
- **Compression-level coercion.** Deflate keeps only zlib's named levels 0, 1, 9 and -1 and turns every other level into -1.
  bzip2 clamps the level to 1..9.
  Both are in `CompressionLevels`.
- **The chunked stream copy of `operator<<`.** The input stream is read through a 2048-byte buffer.
  Each non-empty read is handed to the open entry.
  The copy stops at the first write the library refuses or when the stream is exhausted.
  This is `Chunks`, `Streams.InputStream`, `ZipWriter.CopyStream` and `ZipWriter.Zipper.WriteFrom`.

The minizip handle is the class `ZipWriter.ZipHandle`.
It records, in `calls`, every library call the writer makes on it, together with the library's answer where the writer reads that answer.
The answers are chosen nondeterministically (`err := *`), so every contract holds whatever the library does.
This lets the contracts say exactly which name, compression method and level reach the library.
For example, `AddEntry` hands over `StripLeadingSeparators(filename)` and `DeflateLevel(level)` or `Bzip2Level(level)`.

Two behaviours of the code are kept as written:
- `writeRawData` is `const`. It finalises the raw entry in the library but leaves `entryOpen` set.
- `addRawEntry` returns `entryOpen`, which is `false` when no archive is open.

For bzip2 an out-of-range level is clamped into 1..9 (`zipper.cpp:70-71`); it is never replaced by a default.

## Model

| member | source | states |
|---|---|---|
| `EntryNames.StripLeadingSeparators` | AKD_Project/zipper.cpp:51-52 | the result is a suffix of the name, does not start with `/` or `\`, and everything cut off in front of it is a separator |
| `EntryNames.StripIsCleanSuffix` | AKD_Project/zipper.cpp:51-52 | `name[j..]` is the stripped name exactly when `name[..j]` is all separators and `name[j..]` does not start with one; so the result is the longest suffix with no leading separator |
| `EntryNames.StripIdempotent` | AKD_Project/zipper.cpp:101-102 | stripping an already stripped name changes nothing |
| `EntryNames.StripKeepsCleanName` | AKD_Project/zipper.cpp:51-52 | a name that does not start with a separator reaches the library unchanged |
| `EntryNames.SkipLeadingSeparators` | AKD_Project/zipper.cpp:101-102 | the loop that advances the name past its separators yields exactly the stripped name |
| `CompressionLevels.DeflateLevel` | AKD_Project/zipper.cpp:58-63 | the deflate level is always one of 0, 1, 9, -1; a named level is kept; any other level becomes -1 |
| `CompressionLevels.DeflateDropsIntermediateLevels` | AKD_Project/zipper.cpp:60-63 | levels 2..8 are not kept for deflate: they become the default -1 |
| `CompressionLevels.DeflateLevelIdempotent` | AKD_Project/zipper.cpp:60-63 | coercing a coerced deflate level changes nothing |
| `CompressionLevels.Bzip2Level` | AKD_Project/zipper.cpp:70-71 | the bzip2 level always lies in 1..9; a level in 1..9 is kept; above 9 gives 9; below 1 gives 1 |
| `CompressionLevels.Bzip2LevelIsClamp` | AKD_Project/zipper.cpp:70-71 | the two sequential tests equal `max(1, min(9, level))` |
| `CompressionLevels.Bzip2LevelIdempotent` | AKD_Project/zipper.cpp:70-71 | coercing a coerced bzip2 level changes nothing |
| `Chunks.SplitChunks` | AKD_Project/zipper.cpp:126-135 | cutting data through the 2048-byte buffer gives chunks of 1 to 2048 bytes, all full but the last, whose concatenation is the data |
| `Chunks.SplitChunksCount` | AKD_Project/zipper.cpp:126-135 | the number of chunks is the data length divided by 2048, rounded up |
| `Chunks.SplitChunksSnoc` | AKD_Project/zipper.cpp:128-132 | one more read after whole buffers adds exactly one chunk |
| `Chunks.SplitChunksUnique` | AKD_Project/zipper.cpp:126-135 | any chunks that are all full but the last, each 1 to 2048 bytes, are the chunking of their concatenation |
| `Streams.InputStream.Read` | AKD_Project/zipper.cpp:128-129 | `read` then `gcount` extract `min(n, remaining)` bytes into the buffer, or none from a stream that is not good; a short read leaves the stream not good |
| `ZipWriter.ZipOpen64` | AKD_Project/zipper.cpp:25 | opening gives either null or a fresh handle for the path and mode, with no calls made on it |
| `ZipWriter.ZipHandle.OpenNewFileInZip` | AKD_Project/zipper.cpp:65-66 | opening an entry records the name, method, level and raw flag passed, and the library's answer |
| `ZipWriter.ZipHandle.WriteInFileInZip` | AKD_Project/zipper.cpp:132 | a write records the bytes passed and the library's answer |
| `ZipWriter.ZipHandle.CloseFileInZip` | AKD_Project/zipper.cpp:85 | closing an entry is recorded |
| `ZipWriter.ZipHandle.CloseFileInZipRaw` | AKD_Project/zipper.cpp:145 | closing a raw entry records the caller's size and checksum |
| `ZipWriter.ZipHandle.Close` | AKD_Project/zipper.cpp:35 | closing the archive is recorded |
| `ZipWriter.StreamCopiedChunks` | AKD_Project/zipper.cpp:126-135 | every chunk a stream copy writes has 1 to 2048 bytes, all but the last are full, and together they are exactly the bytes consumed |
| `ZipWriter.StreamCopiedSnoc` | AKD_Project/zipper.cpp:126-135 | after whole buffers and successful writes, one more chunk and its write extend the stream copy |
| `ZipWriter.CopyStep` | AKD_Project/zipper.cpp:128-132 | one round of the copy loop keeps the loop's invariant, and the loop goes on exactly when the new write answered `ZIP_OK` |
| `ZipWriter.StreamCopiedDetermined` | AKD_Project/zipper.cpp:126-135 | successful writes of full chunks, with a possibly short last one, are the stream copy of their concatenation |
| `ZipWriter.CopyStream` | AKD_Project/zipper.cpp:121-135 | the writes added are the 2048-byte chunking of exactly the bytes consumed, all but the last answered `ZIP_OK`; a stream that was not good is left untouched and stays not good; otherwise the copy ends with the stream exhausted and not good, or with a refused write; a stream still good has consumed whole buffers only, and one no longer good is exhausted |
| `ZipWriter.Zipper.IsOpen` | AKD_Project/zipper.cpp:40-43 | `isOpen` answers whether an archive is open; with none open, no entry is open either |
| `ZipWriter.Zipper.IsOpenEntry` | AKD_Project/zipper.cpp:90-93 | `isOpenEntry` answers whether an entry is open; an open entry always belongs to an open archive |
| `ZipWriter.Zipper.constructor` | AKD_Project/zipper.cpp:11-15 | a new writer has no archive and no entry open, so the invariant holds |
| `ZipWriter.Zipper.Open` | AKD_Project/zipper.cpp:22-28 | closes any held archive (closing its entry first), then opens a fresh handle for the path in create or append mode; the result equals `IsOpen()`, and no entry is open |
| `ZipWriter.Zipper.Close` | AKD_Project/zipper.cpp:30-38 | afterwards neither an archive nor an entry is open; with no archive it changes nothing, so a second close is a no-op; otherwise the open entry is closed and then the archive |
| `ZipWriter.Zipper.AddEntry` | AKD_Project/zipper.cpp:45-79 | with no archive it returns -1 and changes nothing; otherwise it closes the open entry and opens a compressed entry with the stripped name and the coerced level; the entry is open exactly when the library's answer, which it returns, is `ZIP_OK` |
| `ZipWriter.Zipper.CloseEntry` | AKD_Project/zipper.cpp:81-88 | afterwards no entry is open; with none open it changes nothing |
| `ZipWriter.Zipper.AddRawEntry` | AKD_Project/zipper.cpp:95-117 | with no archive it returns false and changes nothing; otherwise it closes the open entry and opens a raw entry with the stripped name; it returns whether an entry is now open, which is exactly when the library answered `ZIP_OK` |
| `ZipWriter.Zipper.WriteFrom` | AKD_Project/zipper.cpp:119-138 | with no entry open nothing is read or written; otherwise the stream is copied as `CopyStream` states; the writer's own state is unchanged and the result is the writer itself |
| `ZipWriter.Zipper.WriteRawData` | AKD_Project/zipper.cpp:140-146 | hands the buffer to the entry and finalises it with the caller's size and checksum; `entryOpen` and `zipFile` are not changed |

## Left out

- The minizip and zlib library. Compression, the ZIP byte format, CRC computation and file I/O are not modelled. Each call is a record in `ZipHandle.calls` with a nondeterministic answer.
- `getTime` (`zipper.cpp:148-159`). It reads the wall clock, and its output only fills the entry header's timestamp. The `zip_fileinfo` argument is not modelled.
- The fixed arguments of the raw open call are not recorded: window bits, memory level, strategy, password, CRC for encryption, `versionMadeBy`, `flagBase` and the zip64 flag. The extra-field and comment arguments of both open calls are not recorded either. The raw call's `NULL` level is recorded as `RAW_LEVEL` = 0.
- The destructor `~zipper` (`zipper.cpp:17-20`). It calls `close`, and Dafny has no destructors. A caller of the model calls `Close`.
- `ZipWriter.Zipper.WriteFrom`: the `while` loop of `operator<<` is verified as the separate method `ZipWriter.CopyStream`, which `WriteFrom` calls with the handle. The loop, its buffer and its order of reads and writes are unchanged.
- `ZipWriter.Zipper.WriteRawData`: when no archive is open, the source passes a null handle to the library, which rejects it. The model records no call in that case. The length argument is the length of the byte sequence, so negative lengths are not modelled.
- Integer widths. `int`, `long` and `unsigned int` are unbounded here. The only arithmetic is the 2048-byte buffer count, which cannot overflow.
- `Streams.InputStream` models only what the copy loop uses of `std::istream`: its bytes, the read position and `good()`. It does not tell `eofbit`, `failbit` and `badbit` apart, it has no exceptions, and it has no stream that fails in the middle of a read.
- Entry names are the characters before the C string's terminating NUL. A null name pointer is not modelled.
- The reader, `AKD_Project/unzipper.h`. That file holds declarations only, with no method bodies to model.
