/**
  `RYU-SF01`: the bytes of a write-once chunked file, its geometry, and what
  truncation or alteration leaves readable.
 */
module SealedFileFormat {
  import opened Wrappers
  import opened ByteStrings
  import opened ContentContexts
  import opened ContentCiphers

  const HEADER_LEN := 32
  const SALT_LEN := 20
  const FILE_KDF_INFO := Ascii("ryu-sealed-file-v1")

  type Header = h: Bytes | |h| == HEADER_LEN witness Zeros(32)
  type Salt = s: Bytes | |s| == SALT_LEN witness Zeros(20)

  datatype FileError =
    | BadChunkSize | Truncated | NotASealedFile | UnsupportedHeader | NoChunks | FileDoesNotOpen
    | ChunkOutOfRange | ChunkDoesNotOpen(index: nat) | SeekBeforeStart
    | MissingFile | LogFailed | NotEnoughSpace | CopyDoesNotVerify | IoFailed

  function Pow2(n: nat): (p: nat)
    ensures p > 0
  {
    if n == 0 then 1 else 2 * Pow2(n - 1)
  }

  predicate ValidChunkLog2(n: nat) { 10 <= n <= 20 }

  function BuildHeader(chunkLog2: nat, salt: Salt): Header
    requires ValidChunkLog2(chunkLog2)
  {
    SEALED_FILE_MAGIC + [chunkLog2, 0, 0, 0] + salt
  }

  function FileKey(c: Crypto, key: Key, header: Header, aad: Bytes): Key {
    c.hkdf(key, header[12..], FILE_KDF_INFO + aad)
  }

  /** The chunk's index as an 11-byte big-endian number, then whether it is the last. */
  function ChunkNonce(index: nat, last: bool): Nonce {
    Zeros(3) + BigEndian(index, 8) + [if last then 1 else 0]
  }

  /** No two chunks of a file, and no last and inner chunk, ever share a nonce. */
  lemma ChunkNonceIsInjective(i: nat, lastI: bool, j: nat, lastJ: bool)
    requires i < SLICE_LIMIT && j < SLICE_LIMIT && ChunkNonce(i, lastI) == ChunkNonce(j, lastJ)
    ensures i == j && lastI == lastJ
  {
    Widths();
    assert ChunkNonce(i, lastI)[3..11] == BigEndian(i, 8);
    assert ChunkNonce(j, lastJ)[3..11] == BigEndian(j, 8);
    DecodesBigEndian(i, 8);
    DecodesBigEndian(j, 8);
    assert ChunkNonce(i, lastI)[11] == (if lastI then 1 else 0);
    assert ChunkNonce(j, lastJ)[11] == (if lastJ then 1 else 0);
  }

  // ── The bytes a writer produces ────────────────────────────────────────────

  function Min(a: nat, b: nat): nat { if a <= b then a else b }

  /** How many chunks hold `len` bytes: at least one, even for the empty file. */
  function ChunkCount(len: nat, size: nat): (n: nat)
    requires size > 0
    ensures n > 0
  {
    if len == 0 then 1 else (len - 1) / size + 1
  }

  /** `i * d`, by repeated addition: offsets stay linear for the solver. */
  function Times(i: nat, d: nat): nat {
    if i == 0 then 0 else Times(i - 1, d) + d
  }

  lemma {:induction false} TimesIsProduct(i: nat, d: nat)
    ensures Times(i, d) == i * d
  {
    if i > 0 {
      TimesIsProduct(i - 1, d);
    }
  }

  lemma {:induction false} TimesMonotone(i: nat, j: nat, d: nat)
    requires i <= j
    ensures Times(i, d) <= Times(j, d)
    ensures i < j ==> Times(i, d) + d <= Times(j, d)
  {
    if i < j {
      TimesMonotone(i, j - 1, d);
    }
  }

  lemma {:induction false} TimesSplits(i: nat, a: nat, b: nat)
    ensures Times(i, a + b) == Times(i, a) + Times(i, b)
  {
    if i > 0 {
      TimesSplits(i - 1, a, b);
    }
  }

  lemma TimesAtLeast(i: nat, d: nat)
    requires d > 0
    ensures i <= Times(i, d)
  {
  }

  lemma DivBounds(x: nat, d: nat)
    requires d > 0
    ensures x == Times(x / d, d) + x % d && x % d < d
  {
    TimesIsProduct(x / d, d);
  }

  lemma DivUnique(x: nat, d: nat, q: nat, r: nat)
    requires d > 0 && x == Times(q, d) + r && r < d
    ensures x / d == q && x % d == r
  {
    DivBounds(x, d);
    var p := x / d;
    if p < q {
      TimesMonotone(p, q, d);
    } else if p > q {
      TimesMonotone(q, p, d);
    }
  }

  lemma ChunkCountBounds(len: nat, size: nat)
    requires size > 0
    ensures var inner := ChunkCount(len, size) - 1;
            && Times(inner, size) <= len <= Times(inner, size) + size
            && (len > 0 ==> Times(inner, size) < len)
  {
    if len > 0 {
      DivBounds(len - 1, size);
    }
  }

  lemma ChunkCountUnique(len: nat, size: nat, inner: nat)
    requires size > 0 && Times(inner, size) <= len <= Times(inner, size) + size
    requires inner > 0 ==> Times(inner, size) < len
    ensures ChunkCount(len, size) == inner + 1
  {
    if len > 0 {
      if inner == 0 && len == 0 {
      } else if Times(inner, size) < len {
        DivUnique(len - 1, size, inner, len - 1 - Times(inner, size));
      }
    }
  }

  /** Plaintext chunk `i`. */
  function Chunk(plain: Bytes, size: nat, i: nat): (chunk: Bytes)
    requires Times(i, size) <= |plain|
    ensures |chunk| == Min(size, |plain| - Times(i, size))
  {
    plain[Times(i, size)..Times(i, size) + Min(size, |plain| - Times(i, size))]
  }

  function SealedChunk(c: Crypto, key: Key, header: Header, size: nat, plain: Bytes, i: nat, last: bool): Bytes
    requires Times(i, size) <= |plain|
  {
    c.seal(key, ChunkNonce(i, last), header, Chunk(plain, size, i))
  }

  /** The first `k` chunks, sealed as inner chunks. */
  function InnerChunks(c: Crypto, key: Key, header: Header, size: nat, plain: Bytes, k: nat): Bytes
    requires Times(k, size) <= |plain|
  {
    if k == 0 then []
    else
      TimesMonotone(k - 1, k, size);
      InnerChunks(c, key, header, size, plain, k - 1) + SealedChunk(c, key, header, size, plain, k - 1, false)
  }

  /** The finished file. */
  function Image(c: Crypto, key: Key, header: Header, size: nat, plain: Bytes): (b: Bytes)
    requires size > 0
    ensures header <= b
  {
    ChunkCountBounds(|plain|, size);
    var inner := ChunkCount(|plain|, size) - 1;
    header + InnerChunks(c, key, header, size, plain, inner) + SealedChunk(c, key, header, size, plain, inner, true)
  }

  lemma {:induction false} InnerChunksLength(c: Crypto, key: Key, header: Header, size: nat, plain: Bytes, k: nat)
    requires TagLength(c) && Times(k, size) <= |plain|
    ensures |InnerChunks(c, key, header, size, plain, k)| == Times(k, size + TAG_LEN)
  {
    if k > 0 {
      TimesMonotone(k - 1, k, size);
      InnerChunksLength(c, key, header, size, plain, k - 1);
    }
  }

  /** Sealed inner chunks do not depend on what is written after them. */
  lemma {:induction false} InnerChunksStable(c: Crypto, key: Key, header: Header, size: nat, plain: Bytes, more: Bytes, k: nat)
    requires Times(k, size) <= |plain|
    ensures Times(k, size) <= |plain + more|
    ensures InnerChunks(c, key, header, size, plain + more, k) == InnerChunks(c, key, header, size, plain, k)
  {
    if k > 0 {
      TimesMonotone(k - 1, k, size);
      InnerChunksStable(c, key, header, size, plain, more, k - 1);
      assert Chunk(plain + more, size, k - 1) == Chunk(plain, size, k - 1);
    }
  }

  lemma {:induction false} InnerChunkAt(c: Crypto, key: Key, header: Header, size: nat, plain: Bytes, k: nat, i: nat)
    requires TagLength(c) && Times(k, size) <= |plain| && i < k
    ensures Times(i, size) <= |plain|
    ensures Times(i, size + TAG_LEN) + (size + TAG_LEN) <= |InnerChunks(c, key, header, size, plain, k)|
    ensures InnerChunks(c, key, header, size, plain, k)[Times(i, size + TAG_LEN)..Times(i, size + TAG_LEN) + (size + TAG_LEN)]
         == SealedChunk(c, key, header, size, plain, i, false)
  {
    hide BigEndian, ChunkNonce, Times, Chunk;
    TimesMonotone(i, k, size);
    TimesMonotone(i, k, size + TAG_LEN);
    InnerChunksLength(c, key, header, size, plain, k);
    TimesMonotone(k - 1, k, size);
    TimesMonotone(i, k - 1, size + TAG_LEN);
    InnerChunksLength(c, key, header, size, plain, k - 1);
    if i < k - 1 {
      InnerChunkAt(c, key, header, size, plain, k - 1, i);
    }
  }

  // ── What a reader computes from the bytes ──────────────────────────────────

  datatype Geometry = Geometry(chunks: nat, plaintextLen: nat)

  /** Chunk count and plaintext length, from the file size alone. */
  function GeometryOf(fileSize: nat, size: nat): Result<Geometry, FileError>
    requires fileSize >= HEADER_LEN
  {
    var body := fileSize - HEADER_LEN;
    var full := body / (size + TAG_LEN);
    var rem := body % (size + TAG_LEN);
    if rem == 0 then
      if full == 0 then Err(NoChunks) else Ok(Geometry(full, Times(full, size)))
    else if rem < TAG_LEN then Err(Truncated)
    else Ok(Geometry(full + 1, Times(full, size) + (rem - TAG_LEN)))
  }

  lemma GeometrySound(fileSize: nat, size: nat)
    requires fileSize >= HEADER_LEN && size > 0 && GeometryOf(fileSize, size).Ok?
    ensures var g := GeometryOf(fileSize, size).value;
            && g.chunks > 0 && g.plaintextLen <= fileSize
            && Times(g.chunks - 1, size) <= g.plaintextLen <= Times(g.chunks - 1, size) + size
            && fileSize == HEADER_LEN + Times(g.chunks - 1, size + TAG_LEN) + (g.plaintextLen - Times(g.chunks - 1, size)) + TAG_LEN
  {
    var body := fileSize - HEADER_LEN;
    DivBounds(body, size + TAG_LEN);
    var full := body / (size + TAG_LEN);
    var rem := body % (size + TAG_LEN);
    assert body == Times(full, size + TAG_LEN) + rem;
    TimesSplits(full, size, TAG_LEN);
  }

  lemma GeometryOfImage(len: nat, size: nat, fileSize: nat)
    requires size > 0
    requires var inner := ChunkCount(len, size) - 1;
             fileSize == HEADER_LEN + Times(inner, size + TAG_LEN) + (len - Times(inner, size)) + TAG_LEN
    ensures fileSize >= HEADER_LEN
    ensures GeometryOf(fileSize, size) == Ok(Geometry(ChunkCount(len, size), len))
  {
    ChunkCountBounds(len, size);
    var inner := ChunkCount(len, size) - 1;
    var tail := len - Times(inner, size);
    var body := fileSize - HEADER_LEN;
    if tail == size {
      DivUnique(body, size + TAG_LEN, inner + 1, 0);
    } else {
      DivUnique(body, size + TAG_LEN, inner, tail + TAG_LEN);
    }
  }

  /** What opening a file yields before any position is chosen. */
  datatype OpenedFile = OpenedFile(header: Header, key: Key, size: nat, geometry: Geometry, retired: bool)

  predicate WellFormed(file: Bytes, f: OpenedFile) {
    && f.size > 0 && |file| >= HEADER_LEN
    && GeometryOf(|file|, f.size) == Ok(f.geometry)
  }

  /** The stored bytes of chunk `i`. */
  function Stored(file: Bytes, f: OpenedFile, i: nat): (t: Bytes)
    requires WellFormed(file, f) && i < f.geometry.chunks
    ensures Times(i, f.size) <= f.geometry.plaintextLen
    ensures |t| == Min(f.size, f.geometry.plaintextLen - Times(i, f.size)) + TAG_LEN
  {
    GeometrySound(|file|, f.size);
    TimesMonotone(i, f.geometry.chunks - 1, f.size + TAG_LEN);
    TimesMonotone(i, f.geometry.chunks - 1, f.size);
    var last := i + 1 == f.geometry.chunks;
    var offset := HEADER_LEN + Times(i, f.size + TAG_LEN);
    var len := if last then f.geometry.plaintextLen - Times(i, f.size) + TAG_LEN else f.size + TAG_LEN;
    file[offset..offset + len]
  }

  /** Decrypt chunk `i` of a file. */
  function LoadedChunk(c: Crypto, file: Bytes, f: OpenedFile, i: nat): Result<Bytes, FileError>
    requires WellFormed(file, f)
  {
    if i >= f.geometry.chunks then Err(ChunkOutOfRange)
    else
      match c.open(f.key, ChunkNonce(i, i + 1 == f.geometry.chunks), f.header, Stored(file, f, i))
      case Some(plain) => Ok(plain)
      case None => Err(ChunkDoesNotOpen(i))
  }

  lemma LoadedChunkLength(c: Crypto, file: Bytes, f: OpenedFile, i: nat)
    requires StripsTag(c) && WellFormed(file, f)
    ensures var r := LoadedChunk(c, file, f, i);
            r.Ok? ==> && i < f.geometry.chunks && Times(i, f.size) <= f.geometry.plaintextLen
                      && |r.value| == Min(f.size, f.geometry.plaintextLen - Times(i, f.size))
  {
    hide Stored, Times, GeometryOf, BigEndian;
  }

  /** `plain` agrees with every chunk of the file that opens. */
  ghost predicate Carries(c: Crypto, file: Bytes, f: OpenedFile, plain: Bytes)
    requires WellFormed(file, f)
  {
    && |plain| == f.geometry.plaintextLen
    && forall i :: 0 <= i < f.geometry.chunks && LoadedChunk(c, file, f, i).Ok? ==>
         Times(i, f.size) <= |plain| && LoadedChunk(c, file, f, i).value == Chunk(plain, f.size, i)
  }

  function CheckHeader(header: Header): Option<FileError> {
    if header[..8] != SEALED_FILE_MAGIC then Some(NotASealedFile)
    else if !ValidChunkLog2(header[8]) || header[9] != 0 || header[10..12] != [0, 0] then Some(UnsupportedHeader)
    else None
  }

  function OpenWith(c: Crypto, file: Bytes, header: Header, size: nat, geometry: Geometry, aad: Bytes, keys: seq<(ContentKey, bool)>): (r: Result<OpenedFile, FileError>)
    requires size > 0 && |file| >= HEADER_LEN && GeometryOf(|file|, size) == Ok(geometry)
    ensures r.Ok? ==> WellFormed(file, r.value) && r.value.header == header && r.value.size == size
                      && r.value.geometry == geometry && LoadedChunk(c, file, r.value, geometry.chunks - 1).Ok?
  {
    if keys == [] then Err(FileDoesNotOpen)
    else
      GeometrySound(|file|, size);
      var f := OpenedFile(header, FileKey(c, keys[0].0.key, header, aad), size, geometry, keys[0].1);
      if LoadedChunk(c, file, f, geometry.chunks - 1).Ok? then Ok(f)
      else OpenWith(c, file, header, size, geometry, aad, keys[1..])
  }

  /** Check the header, compute the geometry, and verify the final chunk under the candidate keys. */
  function OpenedAs(c: Crypto, file: Bytes, cipher: Cipher, context: Context): (r: Result<OpenedFile, FileError>)
    ensures r.Ok? ==> WellFormed(file, r.value) && r.value.header == file[..HEADER_LEN]
                      && LoadedChunk(c, file, r.value, r.value.geometry.chunks - 1).Ok?
  {
    if |file| < HEADER_LEN + TAG_LEN then Err(Truncated)
    else
      var header: Header := file[..HEADER_LEN];
      match CheckHeader(header)
      case Some(error) => Err(error)
      case None =>
        var size := Pow2(header[8]);
        match GeometryOf(|file|, size)
        case Err(error) => Err(error)
        case Ok(geometry) => OpenWith(c, file, header, size, geometry, Aad(cipher, context), Candidates(cipher))
  }

  // ── Reading back what was written ──────────────────────────────────────────

  /** `RYU-SF01`, a chunk exponent from 10 to 20, three zeros. */
  predicate StartsAsFile(file: Bytes) {
    |file| >= HEADER_LEN && file[..8] == Ascii("RYU-SF01") && 10 <= file[8] <= 20 && file[9] == 0 && file[10] == 0 && file[11] == 0
  }

  lemma StartsAsFileIff(file: Bytes)
    requires |file| >= HEADER_LEN
    ensures StartsAsFile(file) <==> CheckHeader(file[..HEADER_LEN]) == None
  {
    var header := file[..HEADER_LEN];
    assert header[..8] == file[..8] && header[10..12] == [file[10], file[11]];
  }

  /** The file as it would be opened under this candidate key. */
  function OpenedUnder(c: Crypto, file: Bytes, cipher: Cipher, context: Context, geometry: Geometry, n: nat): OpenedFile
    requires |file| >= HEADER_LEN && n < |Candidates(cipher)|
  {
    var header: Header := file[..HEADER_LEN];
    OpenedFile(header, FileKey(c, Candidates(cipher)[n].0.key, header, Aad(cipher, context)), Pow2(header[8]), geometry, Candidates(cipher)[n].1)
  }

  /** Under candidate key `n` the last chunk opens, and under none before it. */
  ghost predicate FirstOpens(c: Crypto, file: Bytes, cipher: Cipher, context: Context, geometry: Geometry, n: nat)
    requires |file| >= HEADER_LEN && GeometryOf(|file|, Pow2(file[8])) == Ok(geometry) && geometry.chunks > 0
  {
    && n < |Candidates(cipher)| && LoadedChunk(c, file, OpenedUnder(c, file, cipher, context, geometry, n), geometry.chunks - 1).Ok?
    && forall m :: 0 <= m < n ==> LoadedChunk(c, file, OpenedUnder(c, file, cipher, context, geometry, m), geometry.chunks - 1).Err?
  }

  lemma {:induction false} FirstOpensWith(c: Crypto, file: Bytes, cipher: Cipher, context: Context, geometry: Geometry, from: nat) returns (n: nat)
    requires |file| >= HEADER_LEN && GeometryOf(|file|, Pow2(file[8])) == Ok(geometry) && geometry.chunks > 0 && from <= |Candidates(cipher)|
    ensures from <= n <= |Candidates(cipher)|
    ensures forall m :: from <= m < n ==> LoadedChunk(c, file, OpenedUnder(c, file, cipher, context, geometry, m), geometry.chunks - 1).Err?
    ensures n < |Candidates(cipher)| ==> LoadedChunk(c, file, OpenedUnder(c, file, cipher, context, geometry, n), geometry.chunks - 1).Ok?
    ensures var header := file[..HEADER_LEN];
      OpenWith(c, file, header, Pow2(file[8]), geometry, Aad(cipher, context), Candidates(cipher)[from..])
      == if n < |Candidates(cipher)| then Ok(OpenedUnder(c, file, cipher, context, geometry, n)) else Err(FileDoesNotOpen)
    decreases |Candidates(cipher)| - from
  {
    hide LoadedChunk, GeometryOf, Pow2, FileKey;
    var keys := Candidates(cipher);
    if from == |keys| {
      n := from;
    } else {
      assert keys[from..][0] == keys[from] && keys[from..][1..] == keys[from + 1..];
      if LoadedChunk(c, file, OpenedUnder(c, file, cipher, context, geometry, from), geometry.chunks - 1).Ok? {
        n := from;
      } else {
        n := FirstOpensWith(c, file, cipher, context, geometry, from + 1);
      }
    }
  }

  /** For all bytes: a file opens, and as what, exactly if its header and size are a file's and a candidate key opens its last chunk, the first that does. */
  lemma FileOpensIff(c: Crypto, file: Bytes, cipher: Cipher, context: Context, f: OpenedFile)
    ensures OpenedAs(c, file, cipher, context) == Ok(f)
       <==> && StartsAsFile(file) && |file| >= HEADER_LEN + TAG_LEN && GeometryOf(|file|, Pow2(file[8])).Ok?
            && var geometry := GeometryOf(|file|, Pow2(file[8])).value;
               geometry.chunks > 0 && exists n: nat :: FirstOpens(c, file, cipher, context, geometry, n) && f == OpenedUnder(c, file, cipher, context, geometry, n)
  {
    hide LoadedChunk, GeometryOf, Pow2, FileKey, CheckHeader, StartsAsFile, OpenWith;
    if |file| >= HEADER_LEN + TAG_LEN {
      StartsAsFileIff(file);
      var size := Pow2(file[8]);
      if GeometryOf(|file|, size).Ok? {
        GeometrySound(|file|, size);
        var geometry := GeometryOf(|file|, size).value;
        var n := FirstOpensWith(c, file, cipher, context, geometry, 0);
        assert Candidates(cipher)[0..] == Candidates(cipher);
        OnlyFirst(c, file, cipher, context, geometry, n);
      }
    }
  }

  lemma OnlyFirst(c: Crypto, file: Bytes, cipher: Cipher, context: Context, geometry: Geometry, n: nat)
    requires |file| >= HEADER_LEN && GeometryOf(|file|, Pow2(file[8])) == Ok(geometry) && geometry.chunks > 0 && n <= |Candidates(cipher)|
    requires forall m :: 0 <= m < n ==> LoadedChunk(c, file, OpenedUnder(c, file, cipher, context, geometry, m), geometry.chunks - 1).Err?
    requires n < |Candidates(cipher)| ==> LoadedChunk(c, file, OpenedUnder(c, file, cipher, context, geometry, n), geometry.chunks - 1).Ok?
    ensures forall m: nat :: FirstOpens(c, file, cipher, context, geometry, m) ==> m == n
    ensures n < |Candidates(cipher)| ==> FirstOpens(c, file, cipher, context, geometry, n)
  {
    hide LoadedChunk, GeometryOf, Pow2, FileKey;
  }

  lemma ImageLength(c: Crypto, key: Key, header: Header, size: nat, plain: Bytes)
    requires TagLength(c) && size > 0
    ensures var inner := ChunkCount(|plain|, size) - 1;
            && Times(inner, size) <= |plain|
            && |Image(c, key, header, size, plain)| == HEADER_LEN + Times(inner, size + TAG_LEN) + (|plain| - Times(inner, size)) + TAG_LEN
  {
    ChunkCountBounds(|plain|, size);
    InnerChunksLength(c, key, header, size, plain, ChunkCount(|plain|, size) - 1);
  }

  lemma ImageIsWellFormed(c: Crypto, key: Key, header: Header, size: nat, plain: Bytes, retired: bool)
    requires LawfulAead(c) && size > 0
    ensures WellFormed(Image(c, key, header, size, plain),
                       OpenedFile(header, key, size, Geometry(ChunkCount(|plain|, size), |plain|), retired))
  {
    ImageLength(c, key, header, size, plain);
    GeometryOfImage(|plain|, size, |Image(c, key, header, size, plain)|);
  }

  /** Where chunk `i` lies, the file holds chunk `i` as it was sealed. */
  lemma StoredIsSealed(c: Crypto, key: Key, header: Header, size: nat, plain: Bytes, f: OpenedFile, i: nat)
    requires LawfulAead(c) && size > 0 && i < ChunkCount(|plain|, size)
    requires f.size == size && f.geometry == Geometry(ChunkCount(|plain|, size), |plain|)
    ensures var file := Image(c, key, header, size, plain);
            && WellFormed(file, f) && Times(i, size) <= |plain|
            && Stored(file, f, i) == SealedChunk(c, key, header, size, plain, i, i + 1 == f.geometry.chunks)
  {
    hide BigEndian, GeometryOf, ChunkCount, InnerChunks, ChunkNonce, Times, Chunk;
    var inner := ChunkCount(|plain|, size) - 1;
    var file := Image(c, key, header, size, plain);
    ImageIsWellFormed(c, key, header, size, plain, f.retired);
    ChunkCountBounds(|plain|, size);
    var body := InnerChunks(c, key, header, size, plain, inner);
    InnerChunksLength(c, key, header, size, plain, inner);
    TimesMonotone(i, inner, size);
    if i < inner {
      InnerChunkAt(c, key, header, size, plain, inner, i);
      var from := Times(i, size + TAG_LEN);
      var to := from + (size + TAG_LEN);
      assert file[HEADER_LEN + from..HEADER_LEN + to] == body[from..to];
    }
  }

  /** Every chunk of a finished file loads, as the plaintext chunk. */
  lemma LoadsWrittenChunk(c: Crypto, key: Key, header: Header, size: nat, plain: Bytes, retired: bool, i: nat)
    requires LawfulAead(c) && size > 0 && i < ChunkCount(|plain|, size)
    ensures var f := OpenedFile(header, key, size, Geometry(ChunkCount(|plain|, size), |plain|), retired);
            && WellFormed(Image(c, key, header, size, plain), f) && Times(i, size) <= |plain|
            && LoadedChunk(c, Image(c, key, header, size, plain), f, i) == Ok(Chunk(plain, size, i))
  {
    hide Stored, Times, GeometryOf, Image, ChunkCount, Chunk, ChunkNonce;
    var f := OpenedFile(header, key, size, Geometry(ChunkCount(|plain|, size), |plain|), retired);
    StoredIsSealed(c, key, header, size, plain, f, i);
  }

  /**
    A file written under the cipher's current key opens, under that key, with the
    writer's chunk count and plaintext length, and every chunk loads.
   */
  lemma OpensWrittenFile(c: Crypto, cipher: Cipher, context: Context, chunkLog2: nat, salt: Salt, plain: Bytes)
    requires LawfulAead(c) && ValidChunkLog2(chunkLog2)
    ensures var header := BuildHeader(chunkLog2, salt);
            var size := Pow2(chunkLog2);
            var key := FileKey(c, cipher.current.key, header, Aad(cipher, context));
            var file := Image(c, key, header, size, plain);
            var f := OpenedFile(header, key, size, Geometry(ChunkCount(|plain|, size), |plain|), false);
            && OpenedAs(c, file, cipher, context) == Ok(f)
            && Carries(c, file, f, plain)
            && forall i :: 0 <= i < f.geometry.chunks ==> LoadedChunk(c, file, f, i).Ok?
  {
    hide LoadedChunk, Times, GeometryOf, Image, ChunkCount, Pow2;
    var header := BuildHeader(chunkLog2, salt);
    var size := Pow2(chunkLog2);
    var key := FileKey(c, cipher.current.key, header, Aad(cipher, context));
    var file := Image(c, key, header, size, plain);
    var f := OpenedFile(header, key, size, Geometry(ChunkCount(|plain|, size), |plain|), false);
    ImageIsWellFormed(c, key, header, size, plain, false);
    ImageLength(c, key, header, size, plain);
    assert file[..HEADER_LEN] == header;
    assert CheckHeader(header) == None;
    forall i | 0 <= i < f.geometry.chunks
      ensures Times(i, size) <= |plain| && LoadedChunk(c, file, f, i) == Ok(Chunk(plain, size, i))
    {
      LoadsWrittenChunk(c, key, header, size, plain, false, i);
    }
  }

  lemma {:induction false} SkipsWrongKeys(c: Crypto, aad: Bytes, header: Header, size: nat, plain: Bytes, keys: seq<(ContentKey, bool)>, at: nat)
    requires LawfulAead(c) && size > 0 && at < |keys|
    requires var n := ChunkCount(|plain|, size);
             var key := FileKey(c, keys[at].0.key, header, aad);
             && Times(n - 1, size) <= |plain|
             && forall i :: 0 <= i < at ==>
                  c.open(FileKey(c, keys[i].0.key, header, aad), ChunkNonce(n - 1, true), header,
                         SealedChunk(c, key, header, size, plain, n - 1, true)).None?
    ensures var key := FileKey(c, keys[at].0.key, header, aad);
            var file := Image(c, key, header, size, plain);
            var geometry := Geometry(ChunkCount(|plain|, size), |plain|);
            && |file| >= HEADER_LEN && GeometryOf(|file|, size) == Ok(geometry)
            && OpenWith(c, file, header, size, geometry, aad, keys) == Ok(OpenedFile(header, key, size, geometry, keys[at].1))
    decreases at
  {
    hide Stored, Times, GeometryOf, Image, ChunkCount, Chunk, ChunkNonce;
    var key := FileKey(c, keys[at].0.key, header, aad);
    var n := ChunkCount(|plain|, size);
    ImageIsWellFormed(c, key, header, size, plain, keys[at].1);
    if at == 0 {
      LoadsWrittenChunk(c, key, header, size, plain, keys[at].1, n - 1);
    } else {
      StoredIsSealed(c, key, header, size, plain, OpenedFile(header, FileKey(c, keys[0].0.key, header, aad), size, Geometry(n, |plain|), keys[0].1), n - 1);
      assert forall i :: 0 <= i < at - 1 ==> keys[1..][i] == keys[i + 1];
      SkipsWrongKeys(c, aad, header, size, plain, keys[1..], at - 1);
    }
  }

  /** A file written under a retired key opens under it and is flagged, when no earlier candidate opens its last chunk. */
  lemma OpensRetiredFile(c: Crypto, cipher: Cipher, context: Context, at: nat, chunkLog2: nat, salt: Salt, plain: Bytes)
    requires LawfulAead(c) && ValidChunkLog2(chunkLog2) && at < |cipher.retired|
    requires var header := BuildHeader(chunkLog2, salt);
             var size := Pow2(chunkLog2);
             var aad := Aad(cipher, context);
             var n := ChunkCount(|plain|, size);
             && Times(n - 1, size) <= |plain|
             && forall i :: 0 <= i <= at ==>
                  c.open(FileKey(c, Candidates(cipher)[i].0.key, header, aad), ChunkNonce(n - 1, true), header,
                         SealedChunk(c, FileKey(c, cipher.retired[at].key, header, aad), header, size, plain, n - 1, true)).None?
    ensures var header := BuildHeader(chunkLog2, salt);
            var size := Pow2(chunkLog2);
            var key := FileKey(c, cipher.retired[at].key, header, Aad(cipher, context));
            OpenedAs(c, Image(c, key, header, size, plain), cipher, context)
            == Ok(OpenedFile(header, key, size, Geometry(ChunkCount(|plain|, size), |plain|), true))
  {
    hide LoadedChunk, Times, GeometryOf, Image, ChunkCount, Pow2, OpenWith;
    var header := BuildHeader(chunkLog2, salt);
    var size := Pow2(chunkLog2);
    var key := FileKey(c, cipher.retired[at].key, header, Aad(cipher, context));
    var file := Image(c, key, header, size, plain);
    SkipsWrongKeys(c, Aad(cipher, context), header, size, plain, Candidates(cipher), at + 1);
    ImageLength(c, key, header, size, plain);
    assert file[..HEADER_LEN] == header;
    assert CheckHeader(header) == None;
  }

  // ── Truncation and alteration ──────────────────────────────────────────────

  /** `s` is the sealing of chunk `i` of `plain`. */
  ghost predicate SealsChunk(c: Crypto, key: Key, header: Header, size: nat, plain: Bytes, s: Sealing, i: nat)
    requires size > 0
  {
    var last := i + 1 == ChunkCount(|plain|, size);
    && i < ChunkCount(|plain|, size) && Times(i, size) <= |plain| && s.key == key
    && s.nonce == ChunkNonce(i, last) && s.ciphertext == SealedChunk(c, key, header, size, plain, i, last)
  }

  /** With this header as associated data, the AEAD sealed the chunks of `plain` under `key`, and nothing else. */
  ghost predicate SealedOnly(sealings: set<Sealing>, c: Crypto, key: Key, header: Header, size: nat, plain: Bytes)
    requires size > 0
  {
    forall s :: s in sealings && s.aad == header ==> exists i: nat :: SealsChunk(c, key, header, size, plain, s, i)
  }

  /** Each chunk sealed for `plain` opens as that chunk. */
  ghost predicate ChunksOpen(c: Crypto, key: Key, header: Header, size: nat, plain: Bytes)
    requires size > 0
  {
    forall i: nat :: i < ChunkCount(|plain|, size) && Times(i, size) <= |plain| ==>
      SealOpens(c, key, ChunkNonce(i, i + 1 == ChunkCount(|plain|, size)), header, Chunk(plain, size, i))
  }

  /** A chunk that opens at index `i` is the i-th chunk of the plaintext, and is last exactly if that one is. */
  lemma LoadsOnlyWhatWasSealed(c: Crypto, sealings: set<Sealing>, key: Key, size: nat, plain: Bytes, file: Bytes, f: OpenedFile, i: nat)
    requires OnlyOpens(c, sealings) && WellFormed(file, f) && f.size == size
    requires SealedOnly(sealings, c, key, f.header, size, plain) && ChunksOpen(c, key, f.header, size, plain)
    requires f.geometry.chunks < SLICE_LIMIT && ChunkCount(|plain|, size) < SLICE_LIMIT
    requires LoadedChunk(c, file, f, i).Ok?
    ensures i < f.geometry.chunks && f.key == key
    ensures i < ChunkCount(|plain|, size) && Times(i, size) <= |plain|
    ensures i + 1 == f.geometry.chunks <==> i + 1 == ChunkCount(|plain|, size)
    ensures LoadedChunk(c, file, f, i).value == Chunk(plain, size, i)
  {
    hide Stored, Times, GeometryOf, ChunkCount, Chunk, ChunkNonce;
    var n := ChunkCount(|plain|, size);
    var last := i + 1 == f.geometry.chunks;
    var s := Sealing(f.key, ChunkNonce(i, last), f.header, Stored(file, f, i));
    assert s in sealings;
    var j: nat :| SealsChunk(c, key, f.header, size, plain, s, j);
    ChunkNonceIsInjective(i, last, j, j + 1 == n);
  }

  /** A file has fewer chunks than bytes. */
  lemma FewerChunksThanBytes(file: Bytes, f: OpenedFile)
    requires WellFormed(file, f)
    ensures f.geometry.chunks < |file|
  {
    GeometrySound(|file|, f.size);
    TimesAtLeast(f.geometry.chunks - 1, f.size + TAG_LEN);
  }

  /**
    Whatever happened to the bytes after the header, a file that opens has the
    writer's length, and each chunk either fails to load or is the writer's.
   */
  lemma AlteredFileIsHonest(c: Crypto, sealings: set<Sealing>, key: Key, header: Header, plain: Bytes, cipher: Cipher, context: Context, file: Bytes)
    requires TagLength(c) && StripsTag(c) && OnlyOpens(c, sealings) && header <= file && |file| < SLICE_LIMIT
    requires CheckHeader(header) == None
    requires var size := Pow2(header[8]);
             SealedOnly(sealings, c, key, header, size, plain) && ChunksOpen(c, key, header, size, plain) && ChunkCount(|plain|, size) < SLICE_LIMIT
    requires OpenedAs(c, file, cipher, context).Ok?
    ensures var f := OpenedAs(c, file, cipher, context).value;
            && f.geometry == Geometry(ChunkCount(|plain|, Pow2(header[8])), |plain|)
            && Carries(c, file, f, plain)
            && |file| == |Image(c, key, header, Pow2(header[8]), plain)|
  {
    hide OpenedAs, Image, Carries, LoadedChunk, Times, GeometryOf, ChunkCount, CheckHeader, Pow2;
    var f := OpenedAs(c, file, cipher, context).value;
    assert file[..HEADER_LEN] == header;
    OpenedSize(c, file, cipher, context);
    FewerChunksThanBytes(file, f);
    GeometrySound(|file|, f.size);
    OpenedFileIsHonest(c, sealings, key, f.size, plain, file, f);
    ImageLength(c, key, header, f.size, plain);
  }

  lemma OpenedSize(c: Crypto, file: Bytes, cipher: Cipher, context: Context)
    requires OpenedAs(c, file, cipher, context).Ok?
    ensures OpenedAs(c, file, cipher, context).value.size == Pow2(file[..HEADER_LEN][8])
  {
  }

  lemma OpenedFileIsHonest(c: Crypto, sealings: set<Sealing>, key: Key, size: nat, plain: Bytes, file: Bytes, f: OpenedFile)
    requires TagLength(c) && StripsTag(c) && OnlyOpens(c, sealings) && WellFormed(file, f) && f.size == size
    requires SealedOnly(sealings, c, key, f.header, size, plain) && ChunksOpen(c, key, f.header, size, plain)
    requires 0 < f.geometry.chunks < SLICE_LIMIT && ChunkCount(|plain|, size) < SLICE_LIMIT
    requires LoadedChunk(c, file, f, f.geometry.chunks - 1).Ok?
    ensures f.geometry == Geometry(ChunkCount(|plain|, size), |plain|) && Carries(c, file, f, plain)
  {
    hide LoadedChunk, Times, GeometryOf, ChunkCount;
    LoadsOnlyWhatWasSealed(c, sealings, key, size, plain, file, f, f.geometry.chunks - 1);
    LoadedChunkLength(c, file, f, f.geometry.chunks - 1);
    ChunkCountBounds(|plain|, size);
    GeometrySound(|file|, size);
    forall i | 0 <= i < f.geometry.chunks && LoadedChunk(c, file, f, i).Ok?
      ensures Times(i, size) <= |plain| && LoadedChunk(c, file, f, i).value == Chunk(plain, size, i)
    {
      LoadsOnlyWhatWasSealed(c, sealings, key, size, plain, file, f, i);
    }
  }

  /** No strict prefix of a finished file opens, wherever it is cut. */
  lemma TruncatedFileDoesNotOpen(c: Crypto, sealings: set<Sealing>, key: Key, header: Header, plain: Bytes, cipher: Cipher, context: Context, file: Bytes)
    requires TagLength(c) && StripsTag(c) && OnlyOpens(c, sealings) && CheckHeader(header) == None
    requires var size := Pow2(header[8]);
             && SealedOnly(sealings, c, key, header, size, plain) && ChunksOpen(c, key, header, size, plain) && ChunkCount(|plain|, size) < SLICE_LIMIT
             && file < Image(c, key, header, size, plain) && |Image(c, key, header, size, plain)| < SLICE_LIMIT
    ensures OpenedAs(c, file, cipher, context).Err?
  {
    hide OpenedAs, Carries, LoadedChunk, Times, GeometryOf, ChunkCount, CheckHeader, Pow2;
    if OpenedAs(c, file, cipher, context).Ok? {
      var size := Pow2(header[8]);
      assert header <= Image(c, key, header, size, plain);
      assert file[..HEADER_LEN] == header;
      AlteredFileIsHonest(c, sealings, key, header, plain, cipher, context, file);
    }
  }
}
