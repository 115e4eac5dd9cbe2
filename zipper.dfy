/** The archive writer: a facade over the minizip writing interface that
    keeps one archive handle and one "entry open" flag, normalises entry
    names, coerces compression levels and copies input streams into the
    open entry through a fixed-size buffer.

    The minizip handle is modelled by ZipHandle, which records every call
    the writer makes on it together with the result the library answered;
    each result is chosen nondeterministically, since the library is not
    part of this model. */
module ZipWriter {
  import opened EntryNames
  import opened CompressionLevels
  import opened Chunks
  import opened Streams

  // minizip and zlib constants the writer passes or compares against
  const ZIP_OK: int := 0
  const Z_DEFLATED: int := 8
  const Z_BZIP2ED: int := 12
  const APPEND_STATUS_CREATE: int := 0
  const APPEND_STATUS_ADDINZIP: int := 2
  /** The level argument of the raw open call, written NULL in the writer. */
  const RAW_LEVEL: int := 0

  /** One call into the library on an open archive, with the result the
      library returned where the writer looks at it. */
  datatype LibCall =
    | OpenNewFile(name: string, compression: int, level: int, raw: bool, err: int)
    | WriteInFile(data: seq<byte>, err: int)
    | CloseFile
    | CloseFileRaw(uncompressedSize: int, crc32: int)
    | CloseArchive

  /** A minizip archive handle: the path and mode it was opened with and the
      calls made on it so far. */
  class ZipHandle {
    const path: string
    const mode: int
    var calls: seq<LibCall>

    constructor (path: string, mode: int)
      ensures this.path == path && this.mode == mode && calls == []
    {
      this.path, this.mode, calls := path, mode, [];
    }

    /** zipOpenNewFileInZip / zipOpenNewFileInZip4_64: starts a new entry. */
    method OpenNewFileInZip(name: string, compression: int, level: int, raw: bool) returns (err: int)
      modifies this
      ensures calls == old(calls) + [OpenNewFile(name, compression, level, raw, err)]
    {
      err := *;
      calls := calls + [OpenNewFile(name, compression, level, raw, err)];
    }

    /** zipWriteInFileInZip: hands bytes to the open entry. */
    method WriteInFileInZip(data: seq<byte>) returns (err: int)
      modifies this
      ensures calls == old(calls) + [WriteInFile(data, err)]
    {
      err := *;
      calls := calls + [WriteInFile(data, err)];
    }

    /** zipCloseFileInZip: finalises the open entry. */
    method CloseFileInZip()
      modifies this
      ensures calls == old(calls) + [CloseFile]
    {
      calls := calls + [CloseFile];
    }

    /** zipCloseFileInZipRaw64: finalises a raw entry with caller-supplied
        size and checksum. */
    method CloseFileInZipRaw(uncompressedSize: int, crc32: int)
      modifies this
      ensures calls == old(calls) + [CloseFileRaw(uncompressedSize, crc32)]
    {
      calls := calls + [CloseFileRaw(uncompressedSize, crc32)];
    }

    /** zipClose: writes the central directory and releases the archive. */
    method Close()
      modifies this
      ensures calls == old(calls) + [CloseArchive]
    {
      calls := calls + [CloseArchive];
    }
  }

  /** zipOpen64: either a fresh handle for the path and mode, or null. */
  method ZipOpen64(path: string, mode: int) returns (h: ZipHandle?)
    ensures h != null ==> fresh(h) && h.path == path && h.mode == mode && h.calls == []
  {
    var success: bool := *;
    if success {
      h := new ZipHandle(path, mode);
    } else {
      h := null;
    }
  }

  /** The data of a run of write calls. */
  function Payloads(added: seq<LibCall>): seq<seq<byte>>
    requires forall k :: 0 <= k < |added| ==> added[k].WriteInFile?
  {
    seq(|added|, k requires 0 <= k < |added| => added[k].data)
  }

  /** The calls a stream copy adds: one write per BUFSIZE chunk of the bytes
      consumed, each but the last one answered with ZIP_OK. */
  ghost predicate StreamCopied(added: seq<LibCall>, consumed: seq<byte>) {
    var chunks := SplitChunks(consumed);
    |added| == |chunks| &&
    forall k :: 0 <= k < |added| ==>
      added[k].WriteInFile? && added[k].data == chunks[k] &&
      (k < |added| - 1 ==> added[k].err == ZIP_OK)
  }

  /** The last of the added calls is a write the library refused. */
  predicate LastWriteFailed(added: seq<LibCall>) {
    |added| > 0 && added[|added| - 1].WriteInFile? && added[|added| - 1].err != ZIP_OK
  }

  /** `after` is `before` followed by one call: the opening of an entry with
      the given name, compression method, level and raw flag. `accepted`
      tells whether the library answered ZIP_OK to it. */
  predicate EndsWithOpen(before: seq<LibCall>, after: seq<LibCall>, name: string,
                         compression: int, level: int, raw: bool, accepted: bool) {
    |after| == |before| + 1 && after[..|before|] == before &&
    after[|before|].OpenNewFile? &&
    after[|before|] == OpenNewFile(name, compression, level, raw, after[|before|].err) &&
    (accepted <==> after[|before|].err == ZIP_OK)
  }

  /** What a stream copy wrote, in the terms the writer promises: every
      chunk holds 1 to BUFSIZE bytes, all but the last are full, and
      together they are exactly the bytes consumed from the stream. */
  lemma StreamCopiedChunks(added: seq<LibCall>, consumed: seq<byte>)
    requires StreamCopied(added, consumed)
    ensures forall k :: 0 <= k < |added| ==> 0 < |added[k].data| <= BUFSIZE
    ensures forall k :: 0 <= k < |added| - 1 ==> |added[k].data| == BUFSIZE
    ensures Flatten(Payloads(added)) == consumed
  {
    assert Payloads(added) == SplitChunks(consumed);
  }

  /** One more full-buffer round of the copy loop: a chunk read after whole
      buffers, written after successful writes, extends the stream copy. */
  lemma StreamCopiedSnoc(added: seq<LibCall>, consumed: seq<byte>, chunk: seq<byte>, err: int)
    requires StreamCopied(added, consumed) && !LastWriteFailed(added)
    requires |consumed| % BUFSIZE == 0 && 0 < |chunk| <= BUFSIZE
    ensures StreamCopied(added + [WriteInFile(chunk, err)], consumed + chunk)
  {
    SplitChunksSnoc(consumed, chunk);
  }

  /** One round of the copy loop keeps its invariant: the chunk just read
      is the next slice of the data, and the write that handed it on is
      the newest call. */
  lemma CopyStep(added: seq<LibCall>, data: seq<byte>, pos0: nat, pos1: nat, pos2: nat, chunk: seq<byte>, err: int)
    requires pos0 <= pos1 < pos2 <= |data| && pos2 - pos1 <= BUFSIZE
    requires chunk == data[pos1..pos2]
    requires StreamCopied(added, data[pos0..pos1]) && !LastWriteFailed(added)
    requires (pos1 - pos0) % BUFSIZE == 0
    ensures StreamCopied(added + [WriteInFile(chunk, err)], data[pos0..pos2])
    ensures LastWriteFailed(added + [WriteInFile(chunk, err)]) <==> err != ZIP_OK
    ensures pos2 - pos1 == BUFSIZE ==> (pos2 - pos0) % BUFSIZE == 0
  {
    assert data[pos0..pos2] == data[pos0..pos1] + chunk;
    StreamCopiedSnoc(added, data[pos0..pos1], chunk, err);
  }

  /** The chunks of a stream copy are determined by the bytes consumed:
      cutting them differently would not be a stream copy. */
  lemma StreamCopiedDetermined(added: seq<LibCall>, chunks: seq<seq<byte>>)
    requires forall k :: 0 <= k < |added| ==> added[k].WriteInFile?
    requires Payloads(added) == chunks
    requires forall k :: 0 <= k < |chunks| ==> 0 < |chunks[k]| <= BUFSIZE
    requires forall k :: 0 <= k < |chunks| - 1 ==> |chunks[k]| == BUFSIZE
    requires forall k :: 0 <= k < |added| - 1 ==> added[k].err == ZIP_OK
    ensures StreamCopied(added, Flatten(chunks))
  {
    SplitChunksUnique(chunks);
  }

  /** The copy loop of operator<<: reads the stream BUFSIZE bytes at a time
      and hands each non-empty read to the open entry, until a read comes
      back empty or short, or the library refuses a write. */
  method CopyStream(handle: ZipHandle, input: InputStream)
    requires input.Valid()
    modifies handle, input
    ensures input.Valid() && input.data == old(input.data) && old(input.pos) <= input.pos
    ensures var n0 := |old(handle.calls)|;
      n0 <= |handle.calls| && handle.calls[..n0] == old(handle.calls) &&
      StreamCopied(handle.calls[n0..], input.data[old(input.pos)..input.pos])
    ensures !old(input.good) ==> input.pos == old(input.pos) && handle.calls == old(handle.calls)
    ensures old(input.good) ==>
      (input.pos == |input.data| && !input.good) || LastWriteFailed(handle.calls[|old(handle.calls)|..])
    ensures input.good ==> (input.pos - old(input.pos)) % BUFSIZE == 0
    ensures !input.good && old(input.good) ==> input.pos == |input.data|
    ensures !old(input.good) ==> !input.good
  {
    var err := ZIP_OK;
    var buf := new byte[BUFSIZE];
    ghost var calls0, data, pos0, good0 := handle.calls, input.data, input.pos, input.good;
    ghost var added: seq<LibCall> := [];
    while err == ZIP_OK && input.good
      invariant input.Valid() && input.data == data && pos0 <= input.pos
      invariant handle.calls == calls0 + added
      invariant StreamCopied(added, data[pos0..input.pos])
      invariant input.good ==> (input.pos - pos0) % BUFSIZE == 0
      invariant err != ZIP_OK <==> LastWriteFailed(added)
      invariant !input.good ==> input.pos == |data| || !good0
      invariant !good0 ==> !input.good && input.pos == pos0 && added == []
      decreases |data| - input.pos
    {
      ghost var pos1 := input.pos;
      var nRead := input.Read(buf, BUFSIZE);
      if nRead != 0 {
        var chunk := buf[..nRead];
        err := handle.WriteInFileInZip(chunk);
        CopyStep(added, data, pos0, pos1, input.pos, chunk, err);
        added := added + [WriteInFile(chunk, err)];
      } else {
        break;
      }
    }
    assert handle.calls[|calls0|..] == added by { assert handle.calls == calls0 + added; }
  }

  class Zipper {
    var zipFile: ZipHandle?  // null while no archive is open
    var entryOpen: bool      // an entry of zipFile is open for writing

    /** An entry can be open only inside an open archive. */
    ghost predicate Valid()
      reads this
    {
      entryOpen ==> zipFile != null
    }

    /** isOpen: whether an archive is open. A writer with no archive open
        has no entry open either. */
    function IsOpen(): (b: bool)
      reads this
      ensures Valid() && !b ==> !entryOpen
    {
      zipFile != null
    }

    /** isOpenEntry: whether an entry is open. An open entry always
        belongs to an open archive. */
    function IsOpenEntry(): (b: bool)
      reads this
      ensures Valid() && b ==> zipFile != null
    {
      entryOpen
    }

    constructor ()
      ensures Valid() && !IsOpen() && !IsOpenEntry()
    {
      zipFile := null;
      entryOpen := false;
    }

    /** Closes any archive held, then opens `filename` for creation or for
        appending; answers whether an archive is now open. */
    method Open(filename: string, append: bool) returns (ok: bool)
      requires Valid()
      modifies this, zipFile
      ensures Valid() && !IsOpenEntry()
      ensures ok == IsOpen()
      ensures old(zipFile) != null ==>
        old(zipFile).calls == old(zipFile.calls) + (if old(entryOpen) then [CloseFile] else []) + [CloseArchive]
      ensures IsOpen() ==>
        fresh(zipFile) && zipFile.path == filename && zipFile.calls == [] &&
        zipFile.mode == if append then APPEND_STATUS_ADDINZIP else APPEND_STATUS_CREATE
    {
      Close();
      zipFile := ZipOpen64(filename, if append then APPEND_STATUS_ADDINZIP else APPEND_STATUS_CREATE);
      ok := IsOpen();
    }

    /** Closes the open entry, if any, and the archive, if any. With no
        archive open it does nothing, so a second Close is a no-op. */
    method Close()
      requires Valid()
      modifies this, zipFile
      ensures Valid() && !IsOpen() && !IsOpenEntry()
      ensures old(zipFile) == null ==> unchanged(this)
      ensures old(zipFile) != null ==>
        old(zipFile).calls == old(zipFile.calls) + (if old(entryOpen) then [CloseFile] else []) + [CloseArchive]
    {
      if zipFile != null {
        CloseEntry();
        zipFile.Close();
        zipFile := null;
      }
    }

    /** Starts a compressed entry: closes the open entry, strips the name's
        leading separators, coerces the level for the chosen method and asks
        the library; answers the library's result, or -1 with no archive. */
    method AddEntry(filename: string, bz2Compression: bool, compressionLevel: int) returns (r: int)
      requires Valid()
      modifies this`entryOpen, zipFile
      ensures Valid()
      ensures !IsOpen() ==> r == -1 && unchanged(this)
      ensures IsOpen() ==> (IsOpenEntry() <==> r == ZIP_OK)
      ensures IsOpen() ==>
        zipFile.calls == old(zipFile.calls) + (if old(entryOpen) then [CloseFile] else []) +
          [OpenNewFile(StripLeadingSeparators(filename),
                       if bz2Compression then Z_BZIP2ED else Z_DEFLATED,
                       if bz2Compression then Bzip2Level(compressionLevel) else DeflateLevel(compressionLevel),
                       false, r)]
    {
      if IsOpen() {
        ghost var closed := old(zipFile.calls) + (if entryOpen then [CloseFile] else []);
        CloseEntry();
        assert zipFile.calls == closed;
        var name := SkipLeadingSeparators(filename);
        var err := 0;
        if !bz2Compression {
          err := zipFile.OpenNewFileInZip(name, Z_DEFLATED, DeflateLevel(compressionLevel), false);
        } else {
          err := zipFile.OpenNewFileInZip(name, Z_BZIP2ED, Bzip2Level(compressionLevel), false);
        }
        entryOpen := err == ZIP_OK;
        return err;
      }
      return -1;
    }

    /** Finalises the open entry; with none open it does nothing. */
    method CloseEntry()
      requires Valid()
      modifies this`entryOpen, zipFile
      ensures Valid() && !IsOpenEntry()
      ensures old(entryOpen) ==> zipFile.calls == old(zipFile.calls) + [CloseFile]
      ensures !old(entryOpen) ==> unchanged(this) && (zipFile != null ==> unchanged(zipFile))
    {
      if entryOpen {
        zipFile.CloseFileInZip();
        entryOpen := false;
      }
    }

    /** Starts a raw entry, whose bytes the library stores without
        compressing them: closes the open entry, strips the name's leading
        separators and asks the library. Answers whether an entry is open,
        which with no archive is false. */
    method AddRawEntry(filename: string, bz2Compression: bool) returns (ok: bool)
      requires Valid()
      modifies this`entryOpen, zipFile
      ensures Valid() && ok == IsOpenEntry()
      ensures !IsOpen() ==> !ok && unchanged(this)
      ensures IsOpen() ==>
        EndsWithOpen(old(zipFile.calls) + (if old(entryOpen) then [CloseFile] else []), zipFile.calls,
                     StripLeadingSeparators(filename), if bz2Compression then Z_BZIP2ED else Z_DEFLATED,
                     RAW_LEVEL, true, ok)
    {
      if IsOpen() {
        ghost var closed := old(zipFile.calls) + (if entryOpen then [CloseFile] else []);
        CloseEntry();
        assert zipFile.calls == closed;
        var name := SkipLeadingSeparators(filename);
        var err := ZIP_OK;
        err := zipFile.OpenNewFileInZip(name, if bz2Compression then Z_BZIP2ED else Z_DEFLATED, RAW_LEVEL, true);
        entryOpen := err == ZIP_OK;
      }
      return entryOpen;
    }

    /** operator<<: with an entry open, copies the stream into it (see
        CopyStream); with none open nothing is read or written. Answers the
        writer itself. */
    method WriteFrom(input: InputStream) returns (self: Zipper)
      requires Valid() && input.Valid()
      modifies input, zipFile
      ensures self == this && Valid()
      ensures input.Valid() && input.data == old(input.data) && old(input.pos) <= input.pos
      ensures !IsOpenEntry() ==> input.pos == old(input.pos) && input.good == old(input.good)
      ensures !IsOpenEntry() && IsOpen() ==> zipFile.calls == old(zipFile.calls)
      ensures IsOpenEntry() ==>
        var n0 := |old(zipFile.calls)|;
        n0 <= |zipFile.calls| && zipFile.calls[..n0] == old(zipFile.calls) &&
        StreamCopied(zipFile.calls[n0..], input.data[old(input.pos)..input.pos])
      ensures IsOpenEntry() && !old(input.good) ==>
        input.pos == old(input.pos) && zipFile.calls == old(zipFile.calls)
      ensures IsOpenEntry() && old(input.good) ==>
        (input.pos == |input.data| && !input.good) || LastWriteFailed(zipFile.calls[|old(zipFile.calls)|..])
      ensures IsOpenEntry() && input.good ==> (input.pos - old(input.pos)) % BUFSIZE == 0
      ensures IsOpenEntry() && !input.good && old(input.good) ==> input.pos == |input.data|
      ensures IsOpenEntry() && !old(input.good) ==> !input.good
    {
      if IsOpenEntry() {
        CopyStream(zipFile, input);
      }
      self := this;
    }

    /** Writes one buffer into the open raw entry and finalises it with the
        caller's size and checksum. The writer's own state is left as it
        was: in particular the entry still counts as open. */
    method WriteRawData(data: seq<byte>, uncompressedSize: int, crc32: int)
      requires Valid()
      modifies zipFile
      ensures Valid() && IsOpenEntry() == old(IsOpenEntry()) && zipFile == old(zipFile)
      ensures zipFile != null ==>
        var n0 := |old(zipFile.calls)|;
        |zipFile.calls| == n0 + 2 && zipFile.calls[..n0] == old(zipFile.calls) &&
        zipFile.calls[n0].WriteInFile? && zipFile.calls[n0].data == data &&
        zipFile.calls[n0 + 1] == CloseFileRaw(uncompressedSize, crc32)
    {
      if zipFile != null {
        var err := zipFile.WriteInFileInZip(data);
        zipFile.CloseFileInZipRaw(uncompressedSize, crc32);
      }
    }
  }
}
