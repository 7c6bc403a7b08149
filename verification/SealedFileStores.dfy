/** Replacing files on disk by their sealed form, and closing a log into a sealed file. */
module SealedFileStores {
  import opened Wrappers
  import opened ByteStrings
  import opened ContentContexts
  import opened ContentCiphers
  import opened SealedFileFormat
  import opened SealedFiles
  import opened Disks
  import SealedLogs
  import SealedLogFormat

  const SEAL_IN_PLACE_HEADROOM := 64 * 1024 * 1024
  const COPY_BUFFER := 0x1_0000
  const READ_BUFFER := 8192

  datatype SealInPlace = AlreadySealed | SealedNow(plaintextLen: nat)

  function Concat(records: seq<Bytes>): Bytes {
    if records == [] then [] else Concat(records[..|records| - 1]) + records[|records| - 1]
  }

  /** The sealed form of `plain` under a cipher's current key and the default 64 KiB chunks. */
  function SealedForm(c: Crypto, cipher: Cipher, context: Context, salt: Salt, plain: Bytes): Bytes {
    var header := BuildHeader(16, salt);
    Image(c, FileKey(c, cipher.current.key, header, Aad(cipher, context)), header, Pow2(16), plain)
  }

  /** The file opens, and every chunk of it loads and agrees with `plain`. */
  ghost predicate OpensTo(c: Crypto, cipher: Cipher, context: Context, file: Bytes, plain: Bytes) {
    match OpenedAs(c, file, cipher, context)
    case Err(_) => false
    case Ok(f) => Carries(c, file, f, plain) && forall i :: 0 <= i < f.geometry.chunks ==> LoadedChunk(c, file, f, i).Ok?
  }

  lemma SealedFormOpens(c: Crypto, cipher: Cipher, context: Context, salt: Salt, plain: Bytes)
    requires LawfulAead(c)
    ensures OpensTo(c, cipher, context, SealedForm(c, cipher, context, salt, plain), plain)
  {
    hide OpenedAs, Carries, LoadedChunk, Image;
    OpensWrittenFile(c, cipher, context, 16, salt, plain);
  }

  lemma WithinChunk(at: nat, size: nat)
    requires size > 0
    ensures at % size < size
  {
  }

  // ── What any file that opens carries ───────────────────────────────────────

  /** The first `n` chunks of a file, as far as they open. */
  function Assembled(c: Crypto, file: Bytes, f: OpenedFile, n: nat): Bytes
    requires WellFormed(file, f)
  {
    if n == 0 then []
    else Assembled(c, file, f, n - 1) + (match LoadedChunk(c, file, f, n - 1) case Ok(chunk) => chunk case Err(_) => Zeros(f.size))
  }

  lemma {:induction false} AssembledLength(c: Crypto, file: Bytes, f: OpenedFile, n: nat)
    requires StripsTag(c) && WellFormed(file, f) && n < f.geometry.chunks
    ensures |Assembled(c, file, f, n)| == Times(n, f.size)
  {
    hide LoadedChunk, GeometryOf;
    if n > 0 {
      AssembledLength(c, file, f, n - 1);
      LoadedChunkLength(c, file, f, n - 1);
      GeometrySound(|file|, f.size);
      TimesMonotone(n, f.geometry.chunks - 1, f.size);
    }
  }

  lemma {:induction false} AssembledChunk(c: Crypto, file: Bytes, f: OpenedFile, n: nat, i: nat)
    requires StripsTag(c) && WellFormed(file, f) && i < n <= f.geometry.chunks && LoadedChunk(c, file, f, i).Ok?
    ensures var chunk := LoadedChunk(c, file, f, i).value; var all := Assembled(c, file, f, n);
      Times(i, f.size) + |chunk| <= |all| && all[Times(i, f.size)..Times(i, f.size) + |chunk|] == chunk
  {
    hide LoadedChunk, GeometryOf;
    if i < n - 1 {
      AssembledChunk(c, file, f, n - 1, i);
    } else {
      AssembledLength(c, file, f, i);
    }
  }

  /** Whatever the bytes, some plaintext agrees with every chunk that opens. */
  lemma SomeCarries(c: Crypto, file: Bytes, f: OpenedFile) returns (plain: Bytes)
    requires StripsTag(c) && WellFormed(file, f)
    ensures Carries(c, file, f, plain)
  {
    hide LoadedChunk, GeometryOf, Times;
    var chunks, len := f.geometry.chunks, f.geometry.plaintextLen;
    GeometrySound(|file|, f.size);
    AssembledLength(c, file, f, chunks - 1);
    LoadedChunkLength(c, file, f, chunks - 1);
    var all := Assembled(c, file, f, chunks);
    plain := all[..len];
    forall i | 0 <= i < chunks && LoadedChunk(c, file, f, i).Ok?
      ensures Times(i, f.size) <= |plain| && LoadedChunk(c, file, f, i).value == SealedFileFormat.Chunk(plain, f.size, i)
    {
      AssembledChunk(c, file, f, chunks, i);
      LoadedChunkLength(c, file, f, i);
    }
  }

  /** Read a whole file through its reader (`io::copy`): it succeeds exactly when every chunk opens. */
  method ReadToEnd(reader: SealedFileReader, ghost plain: Bytes) returns (r: Result<Bytes, FileError>)
    requires reader.Valid() && reader.position == 0 && LoadedChunk(reader.c, reader.inner, reader.f, reader.f.geometry.chunks - 1).Ok?
    requires Carries(reader.c, reader.inner, reader.f, plain)
    modifies reader
    ensures r.Ok? <==> forall i :: 0 <= i < reader.f.geometry.chunks ==> LoadedChunk(reader.c, reader.inner, reader.f, i).Ok?
    ensures r.Ok? ==> r.value == plain
  {
    ghost var c, inner, f := reader.c, reader.inner, reader.f;
    var out: Bytes := [];
    assert f.size > 0 && |plain| == f.geometry.plaintextLen;
    hide WellFormed, LoadedChunk, ChunkAtOpens, Carries, Times, ReadSize;
    while true
      invariant reader.Valid() && reader.position <= |plain| && out == plain[..reader.position]
      invariant ReadUpTo(c, inner, f, reader.position)
      decreases |plain| - reader.position
    {
      ghost var at := reader.position;
      var got := reader.Read(READ_BUFFER);
      if got.Err? {
        return Err(got.error);
      }
      ReadBounds(|plain|, f.size, at);
      if got.value == [] {
        EveryChunkRead(c, inner, f);
        return Ok(out);
      }
      NewlyRead(c, inner, f, at, reader.position);
      assert plain[..reader.position] == plain[..at] + plain[at..reader.position];
      out := out + got.value;
    }
  }

  /** Every chunk that starts before this position opens. */
  ghost predicate ReadUpTo(c: Crypto, inner: Bytes, f: OpenedFile, position: nat)
    requires WellFormed(inner, f)
  {
    forall i: nat :: i < f.geometry.chunks && Times(i, f.size) < position ==> LoadedChunk(c, inner, f, i).Ok?
  }

  /** A read before the end returns something, and stays within one chunk. */
  lemma ReadBounds(len: nat, size: nat, at: nat)
    requires size > 0 && at <= len
    ensures var n := ReadSize(len, size, at, READ_BUFFER);
      && at + n <= len && (n == 0 <==> at == len) && at + n <= Times(at / size, size) + size
  {
    WithinChunk(at, size);
    DivBounds(at, size);
  }

  lemma NewlyRead(c: Crypto, inner: Bytes, f: OpenedFile, at: nat, end: nat)
    requires WellFormed(inner, f) && ReadUpTo(c, inner, f, at) && end <= Times(at / f.size, f.size) + f.size
    requires ChunkAtOpens(c, inner, f, at)
    ensures ReadUpTo(c, inner, f, end)
  {
    hide LoadedChunk, Times;
    var index := at / f.size;
    forall i: nat | i < f.geometry.chunks && Times(i, f.size) < end ensures LoadedChunk(c, inner, f, i).Ok? {
      if i > index {
        TimesStep(index, f.size);
        TimesMonotone(index + 1, i, f.size);
      } else if i < index {
        DivBounds(at, f.size);
        TimesStep(i, f.size);
        TimesMonotone(i + 1, index, f.size);
      }
    }
  }

  lemma TimesStep(i: nat, d: nat)
    ensures Times(i + 1, d) == Times(i, d) + d
  {
  }

  lemma EveryChunkRead(c: Crypto, inner: Bytes, f: OpenedFile)
    requires WellFormed(inner, f) && ReadUpTo(c, inner, f, f.geometry.plaintextLen)
    requires LoadedChunk(c, inner, f, f.geometry.chunks - 1).Ok?
    ensures forall i :: 0 <= i < f.geometry.chunks ==> LoadedChunk(c, inner, f, i).Ok?
  {
    hide LoadedChunk, GeometryOf, Times;
    GeometrySound(|inner|, f.size);
    forall i | 0 <= i < f.geometry.chunks - 1 ensures Times(i, f.size) < f.geometry.plaintextLen {
      TimesStep(i, f.size);
      TimesMonotone(i + 1, f.geometry.chunks - 1, f.size);
    }
  }

  // ── Replacing a file by its sealed form ────────────────────────────────────

  /** The file opens in full, to a plaintext with this digest. */
  ghost predicate OpensToDigest(c: Crypto, cipher: Cipher, context: Context, file: Bytes, digest: Bytes) {
    exists plain :: OpensTo(c, cipher, context, file, plain) && c.sha256(plain) == digest
  }

  /** The path holds its original, or a file that opens in full to a plaintext with the original's digest. */
  ghost predicate Unharmed(c: Crypto, cipher: Cipher, context: Context, files: Files, path: string, original: Bytes) {
    path in files && (files[path] == original || OpensToDigest(c, cipher, context, files[path], c.sha256(original)))
  }

  /**
    Replace a plaintext file by its verified sealed form. Any of the steps may
    fail (`io`: removing a stale copy, writing, reading back, renaming), and what
    the disk holds of the copy (`landed`) may be anything. In the directory after
    every operation, whatever the disk does, the original is only ever replaced by
    a file that opens in full to a plaintext with the original's digest; an error
    leaves it in place; and with a disk that works the sealed form replaces it.
   */
  method SealFileInPlace(c: Crypto, disk: Disk, path: string, cipher: Cipher, context: Context, salt: Salt, available: nat, io: nat -> bool, landed: Bytes)
    returns (r: Result<SealInPlace, FileError>)
    requires LawfulAead(c) && StripsTag(c) && |landed| < SLICE_LIMIT && disk.Valid()
    modifies disk
    ensures disk.Valid() && old(disk.history) <= disk.history
    ensures old(path !in disk.files) ==> r == Err(MissingFile) && disk.files == old(disk.files)
    ensures old(path in disk.files) ==>
      var original := old(disk.files[path]);
      && (SEALED_FILE_MAGIC <= original ==> r == Ok(AlreadySealed) && disk.files == old(disk.files))
      && (!(SEALED_FILE_MAGIC <= original) ==>
            && (available < |original| + SEAL_IN_PLACE_HEADROOM ==> r == Err(NotEnoughSpace) && disk.files == old(disk.files))
            && (r.Ok? ==> r == Ok(SealedNow(|original|)) && disk.files == old(disk.files)[path := landed] - {path + ".sealing"}
                          && OpensToDigest(c, cipher, context, landed, c.sha256(original)))
            && (r.Err? ==> SameBut(disk.files, old(disk.files), path + ".sealing"))
            && (landed == SealedForm(c, cipher, context, salt, original) && (forall n :: io(n)) && available >= |original| + SEAL_IN_PLACE_HEADROOM ==>
                  r.Ok? && OpensTo(c, cipher, context, landed, original)))
    ensures old(path in disk.files) ==> forall i :: |old(disk.history)| <= i < |disk.history| ==>
      Unharmed(c, cipher, context, disk.history[i], path, old(disk.files[path]))
  {
    hide OpenedAs, OpensTo, OpensToDigest, SealedForm, Image, LawfulAead, StripsTag;
    if path !in disk.files {
      return Err(MissingFile);
    }
    var original := disk.files[path];
    if SEALED_FILE_MAGIC <= original {
      return Ok(AlreadySealed);
    }
    if available < |original| + SEAL_IN_PLACE_HEADROOM {
      return Err(NotEnoughSpace);
    }
    var copied := ReplaceByCopy(c, disk, path, cipher, context, salt, io, landed);
    r := if copied.Ok? then Ok(SealedNow(copied.value)) else Err(copied.error);
  }

  /** The directory is as it was, but for one file. */
  predicate SameBut(files: Files, start: Files, temp: string) {
    files - {temp} == start - {temp}
  }

  lemma TempMayChange(files: Files, start: Files, temp: string, bytes: Bytes)
    requires SameBut(files, start, temp)
    ensures SameBut(files - {temp}, start, temp) && SameBut(files[temp := bytes], start, temp)
  {
    assert files - {temp} - {temp} == files - {temp};
    assert files[temp := bytes] - {temp} == files - {temp};
  }

  lemma RenameReplaces(files: Files, start: Files, temp: string, path: string, bytes: Bytes)
    requires SameBut(files, start, temp) && path != temp
    ensures files[path := bytes] - {temp} == (start - {temp})[path := bytes] == start[path := bytes] - {temp}
  {
    assert files[path := bytes] - {temp} == (files - {temp})[path := bytes];
    assert start[path := bytes] - {temp} == (start - {temp})[path := bytes];
  }

  lemma StillThere(files: Files, start: Files, temp: string, path: string)
    requires SameBut(files, start, temp) && path != temp && path in start
    ensures path in files && files[path] == start[path]
  {
    assert path in start - {temp} && path in files - {temp};
    assert (files - {temp})[path] == (start - {temp})[path];
  }

  /** The steps of the replacement, once nothing speaks against it. */
  method ReplaceByCopy(c: Crypto, disk: Disk, path: string, cipher: Cipher, context: Context, salt: Salt, io: nat -> bool, landed: Bytes)
    returns (r: Result<nat, FileError>)
    requires LawfulAead(c) && StripsTag(c) && |landed| < SLICE_LIMIT && disk.Valid() && path in disk.files
    modifies disk
    ensures disk.Valid() && old(disk.history) <= disk.history
    ensures r.Ok? ==>
      && r == Ok(|old(disk.files[path])|) && disk.files == old(disk.files)[path := landed] - {path + ".sealing"}
      && OpensToDigest(c, cipher, context, landed, c.sha256(old(disk.files[path])))
    ensures r.Err? ==> SameBut(disk.files, old(disk.files), path + ".sealing")
    ensures landed == SealedForm(c, cipher, context, salt, old(disk.files[path])) && (forall n :: io(n)) ==>
      r.Ok? && OpensTo(c, cipher, context, landed, old(disk.files[path]))
    ensures forall i :: |old(disk.history)| <= i < |disk.history| ==> Unharmed(c, cipher, context, disk.history[i], path, old(disk.files[path]))
  {
    hide OpenedAs, OpensTo, OpensToDigest, SealedForm, Image, LawfulAead, StripsTag, SameBut, FileStep;
    ghost var start := disk.files;
    var original := disk.files[path];
    var temp := path + ".sealing";
    assert temp != path by { assert |temp| > |path|; }
    Unchanged(start, temp);
    if !io(0) {
      return Err(IoFailed);
    }
    TempMayChange(disk.files, start, temp, landed);
    disk.Remove(temp);
    StillThere(disk.files, start, temp, path);
    var finished := SealCopy(c, original, cipher, context, salt);
    TempMayChange(disk.files, start, temp, landed);
    disk.Write(temp, landed);
    StillThere(disk.files, start, temp, path);
    SealedFormOpens(c, cipher, context, salt, original);
    var digest: Result<Bytes, FileError> := Err(IoFailed);
    if io(1) && io(2) {
      digest := VerifyCopy(c, landed, cipher, context, original);
    }
    if digest != Ok(finished.plaintextSha256) {
      if io(3) {
        TempMayChange(disk.files, start, temp, landed);
        disk.Remove(temp);
        StillThere(disk.files, start, temp, path);
      }
      return Err(if digest.Err? then digest.error else CopyDoesNotVerify);
    }
    if !io(3) {
      return Err(IoFailed);
    }
    RenameReplaces(disk.files, start, temp, path, landed);
    disk.Rename(temp, path);
    assert path in disk.files && disk.files[path] == landed;
    r := Ok(finished.plaintextLen);
  }

  lemma Unchanged(files: Files, temp: string)
    ensures SameBut(files, files, temp)
  {
  }

  /** Stream a plaintext through a writer, 64 KiB at a time. */
  method SealCopy(c: Crypto, original: Bytes, cipher: Cipher, context: Context, salt: Salt) returns (r: FinishedFile)
    ensures r == FinishedFile(SealedForm(c, cipher, context, salt, original), |original|, c.sha256(original))
  {
    var created := SealedFileWriter.WithParams(c, cipher, context, 16, salt);
    var writer := created.value;
    var at := 0;
    while at < |original|
      invariant at <= |original| && writer.Valid() && writer.plain == original[..at]
    {
      var n := Min(COPY_BUFFER, |original| - at);
      assert original[..at + n] == original[..at] + original[at..at + n];
      writer.WritePlain(original[at..at + n]);
      at := at + n;
    }
    assert original[..at] == original;
    r := writer.Finish();
  }

  /** Decrypt a whole file and digest it. */
  method VerifyCopy(c: Crypto, sealed: Bytes, cipher: Cipher, context: Context, ghost expected: Bytes) returns (r: Result<Bytes, FileError>)
    requires StripsTag(c) && |sealed| < SLICE_LIMIT
    ensures r.Ok? ==> OpensToDigest(c, cipher, context, sealed, r.value)
    ensures OpensTo(c, cipher, context, sealed, expected) ==> r == Ok(c.sha256(expected))
  {
    hide OpenedAs, Carries, LoadedChunk;
    var reader := SealedFileReader.Open(c, sealed, cipher, context);
    if reader.Err? {
      return Err(reader.error);
    }
    ghost var plain := SomeCarries(c, sealed, reader.value.f);
    if OpensTo(c, cipher, context, sealed, expected) {
      plain := expected;
    }
    var read := ReadToEnd(reader.value, plain);
    if read.Err? {
      return Err(read.error);
    }
    assert OpensTo(c, cipher, context, sealed, plain);
    r := Ok(c.sha256(read.value));
  }

  /** Stream the records through a writer, one by one. */
  method SealRecords(c: Crypto, records: seq<Bytes>, cipher: Cipher, context: Context, salt: Salt) returns (r: FinishedFile)
    ensures r == FinishedFile(SealedForm(c, cipher, context, salt, Concat(records)), |Concat(records)|, c.sha256(Concat(records)))
  {
    var created := SealedFileWriter.WithParams(c, cipher, context, 16, salt);
    var writer := created.value;
    for i := 0 to |records|
      invariant fresh(writer) && writer.Valid() && writer.plain == Concat(records[..i])
    {
      assert records[..i + 1][..i] == records[..i];
      writer.WritePlain(records[i]);
    }
    assert records[..|records|] == records;
    r := writer.Finish();
  }

  /**
    Convert a closed log into a write-once file holding the concatenation of its
    records. Writing and renaming may fail (`io`); a copy that was not written
    whole (`partial`) is never published.
   */
  method CompactToSealedFile(c: Crypto, disk: Disk, logPath: string, dest: string, cipher: Cipher, logContext: Context, fileContext: Context, salt: Salt,
                             io: nat -> bool, partial: Bytes)
    returns (r: Result<nat, FileError>)
    requires disk.Valid()
    modifies disk
    ensures disk.Valid() && old(disk.history) <= disk.history
    ensures old(logPath !in disk.files) ==> r == Err(MissingFile) && disk.files == old(disk.files)
    ensures old(logPath in disk.files) ==>
      match SealedLogs.StrictRead(c, old(disk.files[logPath]), cipher, logContext)
      case Err(_) => r == Err(LogFailed) && disk.files == old(disk.files)
      case Ok(records) =>
        && (r.Ok? ==> r == Ok(|Concat(records)|)
                      && disk.files == (old(disk.files) - {dest + ".sealing"})[dest := SealedForm(c, cipher, fileContext, salt, Concat(records))])
        && (r.Err? ==> r == Err(IoFailed) && SameBut(disk.files, old(disk.files), dest + ".sealing"))
        && ((forall n :: io(n)) ==> r.Ok?)
        && forall i :: |old(disk.history)| <= i < |disk.history| ==>
             || SameBut(disk.history[i], old(disk.files), dest + ".sealing")
             || (dest in disk.history[i] && disk.history[i][dest] == SealedForm(c, cipher, fileContext, salt, Concat(records)))
  {
    if logPath !in disk.files {
      return Err(MissingFile);
    }
    hide SealedForm, SealedLogs.StrictRead, Image, Concat;
    var read := SealedLogs.ReadLogBytes(c, disk.files[logPath], cipher, logContext);
    if read.Err? {
      return Err(LogFailed);
    }
    r := PublishRecords(c, disk, dest, read.value, cipher, fileContext, salt, io, partial);
  }

  /** Write the records to a copy and rename it into place. */
  method PublishRecords(c: Crypto, disk: Disk, dest: string, records: seq<Bytes>, cipher: Cipher, context: Context, salt: Salt, io: nat -> bool, partial: Bytes)
    returns (r: Result<nat, FileError>)
    requires disk.Valid()
    modifies disk
    ensures disk.Valid() && old(disk.history) <= disk.history
    ensures r.Ok? ==>
      r == Ok(|Concat(records)|) && disk.files == (old(disk.files) - {dest + ".sealing"})[dest := SealedForm(c, cipher, context, salt, Concat(records))]
    ensures r.Err? ==> r == Err(IoFailed) && SameBut(disk.files, old(disk.files), dest + ".sealing")
    ensures (forall n :: io(n)) ==> r.Ok?
    ensures forall i :: |old(disk.history)| <= i < |disk.history| ==>
      || SameBut(disk.history[i], old(disk.files), dest + ".sealing")
      || (dest in disk.history[i] && disk.history[i][dest] == SealedForm(c, cipher, context, salt, Concat(records)))
  {
    hide SealedForm, Image, Concat, SameBut, FileStep;
    var temp := dest + ".sealing";
    ghost var start := disk.files;
    assert temp != dest by { assert |temp| > |dest|; }
    Unchanged(start, temp);
    if io(0) {
      TempMayChange(disk.files, start, temp, []);
      disk.Remove(temp);
    }
    var finished := SealRecords(c, records, cipher, context, salt);
    // Creating the copy fails if a stale one is still there.
    if temp in disk.files {
      return Err(IoFailed);
    }
    var landed := if io(1) then finished.sink else partial;
    TempMayChange(disk.files, start, temp, landed);
    disk.Write(temp, landed);
    if !io(1) {
      if io(2) {
        TempMayChange(disk.files, start, temp, []);
        disk.Remove(temp);
      }
      return Err(IoFailed);
    }
    if !io(2) {
      return Err(IoFailed);
    }
    RenameReplaces(disk.files, start, temp, dest, finished.sink);
    disk.Rename(temp, dest);
    assert dest in disk.files && disk.files[dest] == finished.sink;
    r := Ok(finished.plaintextLen);
  }

  /**
    A committed log, compacted, is a sealed file that opens to exactly the
    appended records joined together.
   */
  lemma CompactedLogOpens(c: Crypto, cipher: Cipher, logContext: Context, fileContext: Context, steps: seq<SealedLogs.Step>, header: SealedLogFormat.Header, salt: Salt)
    requires LawfulAead(c) && SealedLogFormat.CheckHeader(header) == None
    requires SealedLogs.Legal(c, SealedLogFormat.LogKey(c, cipher.current.key, header, Aad(cipher, logContext)), header, steps)
    ensures var log := SealedLogs.Run(c, cipher, logContext, header, steps);
            && log.Ok?
            && var records := SealedLogs.StrictRead(c, log.value.bytes, cipher, logContext);
               && records == Ok(SealedLogFormat.Records(SealedLogs.Expected(steps)))
               && OpensTo(c, cipher, fileContext, SealedForm(c, cipher, fileContext, salt, Concat(records.value)), Concat(records.value))
  {
    SealedLogs.HistoryReadsBack(c, cipher, logContext, header, steps);
    SealedFormOpens(c, cipher, fileContext, salt, Concat(SealedLogFormat.Records(SealedLogs.Expected(steps))));
  }
}
