/** The streaming writer and the random-access reader of `RYU-SF01` files. */
module SealedFiles {
  import opened Wrappers
  import opened ByteStrings
  import opened ContentContexts
  import opened ContentCiphers
  import opened SealedFileFormat

  datatype FinishedFile = FinishedFile(sink: Bytes, plaintextLen: nat, plaintextSha256: Bytes)

  class SealedFileWriter {
    const c: Crypto
    const key: Key
    const header: Header
    const chunkSize: nat
    var sink: Bytes
    var buffer: Bytes
    var nextIndex: nat
    var plaintextLen: nat
    var hashed: Bytes
    /** Everything written so far. */
    ghost var plain: Bytes

    /** The sink holds every chunk that cannot be the last one; the buffer holds the rest. */
    ghost predicate Valid()
      reads this
    {
      && chunkSize > 0
      && nextIndex + 1 == ChunkCount(|plain|, chunkSize)
      && Times(nextIndex, chunkSize) <= |plain|
      && buffer == plain[Times(nextIndex, chunkSize)..]
      && sink == header + InnerChunks(c, key, header, chunkSize, plain, nextIndex)
      && plaintextLen == |plain| && hashed == plain
    }

    constructor (c: Crypto, key: Key, header: Header, chunkSize: nat)
      requires chunkSize > 0
      ensures Valid() && plain == []
      ensures this.c == c && this.key == key && this.header == header && this.chunkSize == chunkSize
    {
      this.c, this.key, this.header, this.chunkSize := c, key, header, chunkSize;
      sink, buffer, nextIndex, plaintextLen, hashed, plain := header, [], 0, 0, [], [];
      new;
      hide ChunkCount, Times, InnerChunks;
      NothingWritten(c, key, header, chunkSize);
    }

    static method WithParams(c: Crypto, cipher: Cipher, context: Context, chunkLog2: nat, salt: Salt) returns (r: Result<SealedFileWriter, FileError>)
      ensures r.Ok? <==> ValidChunkLog2(chunkLog2)
      ensures r.Err? ==> r.error == BadChunkSize
      ensures r.Ok? ==>
        && fresh(r.value) && r.value.Valid() && r.value.plain == [] && r.value.c == c
        && r.value.header == BuildHeader(chunkLog2, salt)
        && r.value.key == FileKey(c, cipher.current.key, BuildHeader(chunkLog2, salt), Aad(cipher, context))
        && r.value.chunkSize == Pow2(chunkLog2)
    {
      if !(10 <= chunkLog2 <= 20) {
        return Err(BadChunkSize);
      }
      var header := BuildHeader(chunkLog2, salt);
      var aad := AssociatedData(cipher.store, context);
      var writer := new SealedFileWriter(c, FileKey(c, cipher.current.key, header, aad), header, Pow2(chunkLog2));
      r := Ok(writer);
    }

    /** Seal the buffered chunk. */
    method SealChunk(last: bool)
      modifies this`sink, this`nextIndex, this`buffer
      ensures sink == old(sink) + c.seal(key, ChunkNonce(old(nextIndex), last), header, old(buffer))
      ensures nextIndex == old(nextIndex) + 1 && buffer == []
    {
      var nonce := ChunkNonce(nextIndex, last);
      var sealed := c.seal(key, nonce, header, buffer);
      sink := sink + sealed;
      nextIndex := nextIndex + 1;
      buffer := [];
    }

    /** Append plaintext. However the plaintext is split into calls, only the concatenation matters. */
    method WritePlain(data: Bytes)
      requires Valid()
      modifies this
      ensures Valid() && plain == old(plain) + data
    {
      hide ChunkCount, Times, InnerChunks, SealedFileFormat.Chunk, ChunkNonce;
      hashed := hashed + data;
      plaintextLen := plaintextLen + |data|;
      var rest := data;
      ghost var all := plain + data;
      BufferFits(|plain|, chunkSize, nextIndex);
      while rest != []
        invariant chunkSize > 0 && nextIndex + 1 == ChunkCount(|plain|, chunkSize)
        invariant Times(nextIndex, chunkSize) <= |plain| && |buffer| <= chunkSize
        invariant plain + rest == all
        invariant buffer == plain[Times(nextIndex, chunkSize)..]
        invariant sink == header + InnerChunks(c, key, header, chunkSize, plain, nextIndex)
        invariant plaintextLen == |all| && hashed == all
        decreases |rest|
      {
        if |buffer| == chunkSize {
          // More data follows, so the buffered chunk is not the last one.
          FullChunk(c, key, header, chunkSize, plain, nextIndex);
          SealChunk(false);
        }
        var room := chunkSize - |buffer|;
        var take := Min(room, |rest|);
        ghost var grown := plain + rest[..take];
        GrowBuffer(c, key, header, chunkSize, plain, rest[..take], nextIndex);
        buffer := buffer + rest[..take];
        assert rest == rest[..take] + rest[take..];
        plain := grown;
        rest := rest[take..];
      }
      assert plain == all;
    }

    /** Seal the final chunk. The sink then is the file image of everything written. */
    method Finish() returns (r: FinishedFile)
      requires Valid()
      modifies this
      ensures r == FinishedFile(Image(c, key, header, chunkSize, old(plain)), |old(plain)|, c.sha256(old(plain)))
    {
      hide ChunkCount, Times, InnerChunks, ChunkNonce;
      BufferFits(|plain|, chunkSize, nextIndex);
      assert buffer == Chunk(plain, chunkSize, nextIndex);
      SealChunk(true);
      r := FinishedFile(sink, plaintextLen, c.sha256(hashed));
    }
  }

  lemma NothingWritten(c: Crypto, key: Key, header: Header, size: nat)
    requires size > 0
    ensures ChunkCount(0, size) == 1 && Times(0, size) == 0 && InnerChunks(c, key, header, size, [], 0) == []
  {
  }

  /** A full buffer is exactly the next inner chunk. */
  lemma FullChunk(c: Crypto, key: Key, header: Header, size: nat, plain: Bytes, k: nat)
    requires Times(k, size) + size == |plain|
    ensures plain[Times(k, size)..] == Chunk(plain, size, k)
    ensures Times(k + 1, size) == |plain|
    ensures InnerChunks(c, key, header, size, plain, k + 1)
         == InnerChunks(c, key, header, size, plain, k) + c.seal(key, ChunkNonce(k, false), header, plain[Times(k, size)..])
  {
  }

  /** Plaintext that still fits the buffer changes no sealed chunk. */
  lemma GrowBuffer(c: Crypto, key: Key, header: Header, size: nat, plain: Bytes, more: Bytes, k: nat)
    requires size > 0 && more != [] && Times(k, size) <= |plain| && |plain| + |more| <= Times(k, size) + size
    ensures var grown := plain + more;
            && k + 1 == ChunkCount(|grown|, size)
            && grown[Times(k, size)..] == plain[Times(k, size)..] + more
            && InnerChunks(c, key, header, size, grown, k) == InnerChunks(c, key, header, size, plain, k)
  {
    ChunkCountUnique(|plain + more|, size, k);
    InnerChunksStable(c, key, header, size, plain, more, k);
  }

  lemma BufferFits(len: nat, size: nat, inner: nat)
    requires size > 0 && inner + 1 == ChunkCount(len, size)
    ensures Times(inner, size) <= len <= Times(inner, size) + size
  {
    ChunkCountBounds(len, size);
  }

  // ── The reader ─────────────────────────────────────────────────────────────

  const U64_SIZE := 0x1_0000_0000_0000_0000

  type U64 = n: int | 0 <= n < U64_SIZE

  const I64_LIMIT := 0x8000_0000_0000_0000

  type I64 = n: int | -I64_LIMIT <= n < I64_LIMIT

  datatype SeekFrom = FromStart(offset: U64) | FromEnd(delta: I64) | FromCurrent(delta: I64)

  function SeekTarget(pos: SeekFrom, len: nat, position: nat): int {
    match pos
    case FromStart(offset) => offset
    case FromEnd(delta) => len + delta
    case FromCurrent(delta) => position + delta
  }

  /** How many bytes one `read` of `want` bytes returns: never across a chunk boundary. */
  function ReadSize(len: nat, size: nat, position: nat, want: nat): nat
    requires size > 0
  {
    if position >= len || want == 0 then 0
    else Min(want, Min(size - position % size, len - position))
  }

  function RangeEnd(len: nat, start: nat, count: nat): nat {
    Min(if start + count < U64_SIZE then start + count else U64_SIZE - 1, len)
  }

  function Cut(plain: Bytes, start: nat, end: nat): Bytes {
    if start < end <= |plain| then plain[start..end] else []
  }

  class SealedFileReader {
    const c: Crypto
    const inner: Bytes
    const f: OpenedFile
    var position: nat
    var cached: Option<(nat, Bytes)>

    ghost predicate Valid()
      reads this
    {
      && StripsTag(c) && WellFormed(inner, f) && f.geometry.plaintextLen < U64_SIZE && position < U64_SIZE
      && (cached.Some? ==> LoadedChunk(c, inner, f, cached.value.0) == Ok(cached.value.1))
    }

    constructor (c: Crypto, inner: Bytes, f: OpenedFile, cached: Option<(nat, Bytes)>)
      ensures this.c == c && this.inner == inner && this.f == f && position == 0 && this.cached == cached
    {
      this.c, this.inner, this.f, this.position, this.cached := c, inner, f, 0, cached;
    }

    /** Verify the final chunk under the current key, then the retired ones. */
    static method Open(c: Crypto, inner: Bytes, cipher: Cipher, context: Context) returns (r: Result<SealedFileReader, FileError>)
      requires StripsTag(c) && |inner| < SLICE_LIMIT
      ensures match OpenedAs(c, inner, cipher, context)
        case Err(error) => r == Err(error)
        case Ok(f) => r.Ok? && fresh(r.value) && r.value.Valid() && r.value.f == f && r.value.position == 0
                      && r.value.c == c && r.value.inner == inner
    {
      hide LoadedChunk, GeometryOf, Times, Pow2;
      if |inner| < HEADER_LEN + TAG_LEN {
        return Err(Truncated);
      }
      var header: Header := inner[..HEADER_LEN];
      var bad := CheckHeader(header);
      if bad.Some? {
        return Err(bad.value);
      }
      var size := Pow2(header[8]);
      var geometry := GeometryOf(|inner|, size);
      if geometry.Err? {
        return Err(geometry.error);
      }
      var aad := AssociatedData(cipher.store, context);
      var keys := Candidates(cipher);
      GeometrySound(|inner|, size);
      for i := 0 to |keys|
        invariant OpenWith(c, inner, header, size, geometry.value, aad, keys[i..])
               == OpenWith(c, inner, header, size, geometry.value, aad, keys)
      {
        assert keys[i..][0] == keys[i] && keys[i..][1..] == keys[i + 1..];
        var f := OpenedFile(header, FileKey(c, keys[i].0.key, header, aad), size, geometry.value, keys[i].1);
        var reader := new SealedFileReader(c, inner, f, None);
        var loaded := reader.LoadChunk(geometry.value.chunks - 1);
        if loaded.Ok? {
          return Ok(reader);
        }
      }
      r := Err(FileDoesNotOpen);
    }

    /** Bring chunk `index` into the one-chunk cache; on failure the cache keeps what it had. */
    method LoadChunk(index: nat) returns (r: Result<Bytes, FileError>)
      requires Valid()
      modifies this`cached
      ensures Valid() && r == LoadedChunk(c, inner, f, index)
      ensures r.Ok? ==> cached == Some((index, r.value))
      ensures r.Err? ==> cached == old(cached)
    {
      if cached.Some? && cached.value.0 == index {
        return Ok(cached.value.1);
      }
      if index >= f.geometry.chunks {
        return Err(ChunkOutOfRange);
      }
      var sealed := Stored(inner, f, index);
      var plain := c.open(f.key, ChunkNonce(index, index + 1 == f.geometry.chunks), f.header, sealed);
      if plain.None? {
        return Err(ChunkDoesNotOpen(index));
      }
      cached := Some((index, plain.value));
      r := Ok(plain.value);
    }

    /** From a position on, up to `most` bytes of the chunk it falls into. */
    method LoadPiece(position: nat, most: nat) returns (r: Result<Bytes, FileError>)
      requires Valid() && position < f.geometry.plaintextLen && most > 0
      modifies this`cached
      ensures Valid() && (r.Ok? <==> ChunkAtOpens(c, inner, f, position))
      ensures r.Ok? ==> |r.value| == ReadSize(f.geometry.plaintextLen, f.size, position, most) && 0 < |r.value| <= most
      ensures r.Ok? ==> position + |r.value| <= f.geometry.plaintextLen
      ensures r.Ok? ==> forall p :: position <= p < position + |r.value| ==> ChunkAtOpens(c, inner, f, p)
      ensures forall plain :: Carries(c, inner, f, plain) && r.Ok? ==> r.value == plain[position..position + |r.value|]
      ensures r.Err? ==> exists i :: 0 <= i < f.geometry.chunks && LoadedChunk(c, inner, f, i).Err?
    {
      hide LoadedChunk, GeometryOf, Times, SealedFileFormat.Chunk, ChunkAtOpens;
      var index := position / f.size;
      ChunkOfPosition(inner, f, position);
      var chunk := LoadChunk(index);
      SameChunk(c, inner, f, position, index);
      if chunk.Err? {
        return Err(chunk.error);
      }
      LoadedChunkLength(c, inner, f, index);
      var within := position - Times(index, f.size);
      var take := Min(most, |chunk.value| - within);
      var piece := chunk.value[within..within + take];
      forall plain | Carries(c, inner, f, plain) ensures piece == plain[position..position + take] {
        ChunkSlice(plain, f.size, index, position, take);
        assert chunk.value == SealedFileFormat.Chunk(plain, f.size, index);
      }
      r := Ok(piece);
    }

    /** Decrypt a plaintext range, clamped to the file, touching only the chunks it covers. */
    method ReadRange(start: U64, count: U64) returns (r: Result<Bytes, FileError>)
      requires Valid()
      modifies this`cached
      ensures Valid()
      ensures forall plain :: Carries(c, inner, f, plain) && r.Ok? ==> r.value == Cut(plain, start, RangeEnd(f.geometry.plaintextLen, start, count))
      ensures var end := RangeEnd(f.geometry.plaintextLen, start, count);
        r.Ok? <==> forall p :: start <= p < end ==> ChunkAtOpens(c, inner, f, p)
      ensures r.Err? ==> exists i :: 0 <= i < f.geometry.chunks && LoadedChunk(c, inner, f, i).Err?
    {
      hide LoadedChunk, GeometryOf, Times, WellFormed, ChunkAtOpens, ReadSize;
      var end := RangeEnd(f.geometry.plaintextLen, start, count);
      if start >= end {
        return Ok([]);
      }
      var out: Bytes := [];
      var position := start;
      while position < end
        invariant start <= position <= end && Valid()
        invariant forall plain :: Carries(c, inner, f, plain) ==> out == plain[start..position]
        invariant forall p :: start <= p < position ==> ChunkAtOpens(c, inner, f, p)
      {
        var piece := LoadPiece(position, end - position);
        if piece.Err? {
          return Err(piece.error);
        }
        forall plain | Carries(c, inner, f, plain) ensures out + piece.value == plain[start..position + |piece.value|] {
          assert plain[start..position + |piece.value|] == plain[start..position] + plain[position..position + |piece.value|];
        }
        out := out + piece.value;
        position := position + |piece.value|;
      }
      r := Ok(out);
    }

    /** `Read::read`: up to `want` bytes from the current position. */
    method Read(want: nat) returns (r: Result<Bytes, FileError>)
      requires Valid()
      modifies this`position, this`cached
      ensures Valid()
      ensures r.Ok? ==> position == old(position) + ReadSize(f.geometry.plaintextLen, f.size, old(position), want)
      ensures forall plain :: Carries(c, inner, f, plain) && r.Ok? ==> r.value == Cut(plain, old(position), position)
      ensures r.Err? ==> position == old(position) && exists i :: 0 <= i < f.geometry.chunks && LoadedChunk(c, inner, f, i).Err?
      ensures r.Ok? <==> (old(position) < f.geometry.plaintextLen && want > 0 ==> ChunkAtOpens(c, inner, f, old(position)))
    {
      hide LoadedChunk, GeometryOf, Times, ChunkAtOpens;
      if position >= f.geometry.plaintextLen || want == 0 {
        return Ok([]);
      }
      r := LoadPiece(position, want);
      if r.Ok? {
        position := position + |r.value|;
      }
    }

    /** `Seek::seek`: the sum is taken exactly, then cast to `u64`. */
    method Seek(pos: SeekFrom) returns (r: Result<nat, FileError>)
      requires Valid()
      modifies this`position
      ensures Valid()
      ensures var target := SeekTarget(pos, f.geometry.plaintextLen, old(position));
              if target < 0 then r == Err(SeekBeforeStart) && position == old(position)
              else r == Ok(position) && position == target % U64_SIZE
      ensures pos.FromStart? ==> r == Ok(pos.offset)
      ensures pos.FromEnd? && 0 <= f.geometry.plaintextLen + pos.delta < U64_SIZE ==> r == Ok(f.geometry.plaintextLen + pos.delta)
      ensures pos.FromCurrent? && 0 <= old(position) + pos.delta < U64_SIZE ==> r == Ok(old(position) + pos.delta)
      ensures r.Err? <==> (pos.FromEnd? && f.geometry.plaintextLen + pos.delta < 0) || (pos.FromCurrent? && old(position) + pos.delta < 0)
    {
      var target := SeekTarget(pos, f.geometry.plaintextLen, position);
      if target < 0 {
        return Err(SeekBeforeStart);
      }
      position := target % U64_SIZE;
      r := Ok(position);
    }
  }

  /** The chunk this position falls into opens. */
  predicate ChunkAtOpens(c: Crypto, file: Bytes, f: OpenedFile, position: nat)
    requires WellFormed(file, f)
  {
    LoadedChunk(c, file, f, position / f.size).Ok?
  }

  /** Every position from `position` to the end of its chunk opens exactly if that chunk does. */
  lemma SameChunk(c: Crypto, file: Bytes, f: OpenedFile, position: nat, index: nat)
    requires WellFormed(file, f) && index == position / f.size && position == Times(index, f.size) + position % f.size
    ensures ChunkAtOpens(c, file, f, position) <==> LoadedChunk(c, file, f, index).Ok?
    ensures forall p :: position <= p < Times(index, f.size) + f.size ==> (ChunkAtOpens(c, file, f, p) <==> LoadedChunk(c, file, f, index).Ok?)
  {
    hide LoadedChunk, GeometryOf, Times;
    forall p | position <= p < Times(index, f.size) + f.size ensures p / f.size == index {
      DivUnique(p, f.size, index, p - Times(index, f.size));
    }
  }

  lemma ChunkOfPosition(file: Bytes, f: OpenedFile, position: nat)
    requires WellFormed(file, f) && position < f.geometry.plaintextLen
    ensures var index := position / f.size;
            && index < f.geometry.chunks
            && position == Times(index, f.size) + position % f.size && position % f.size < f.size
  {
    hide GeometryOf, Times;
    var index := position / f.size;
    DivBounds(position, f.size);
    GeometrySound(|file|, f.size);
    if f.geometry.chunks <= index {
      TimesMonotone(f.geometry.chunks - 1, index, f.size);
    }
  }

  lemma ChunkSlice(plain: Bytes, size: nat, index: nat, position: nat, take: nat)
    requires Times(index, size) <= position <= position + take <= |plain|
    requires position - Times(index, size) + take <= Min(size, |plain| - Times(index, size))
    ensures var within := position - Times(index, size);
            && within + take <= |Chunk(plain, size, index)|
            && Chunk(plain, size, index)[within..within + take] == plain[position..position + take]
  {
    var start := Times(index, size);
    var within := position - start;
    SliceOfSlice(plain, start, start + |Chunk(plain, size, index)|, within, within + take);
  }

  // ── Any interleaving of reads, seeks and ranges ────────────────────────────

  datatype ReaderOp = DoRead(want: nat) | DoSeek(pos: SeekFrom) | DoRange(start: U64, count: U64)

  datatype Reply = Bytes(bytes: ByteStrings.Bytes) | At(position: nat) | Refused

  function SpecPosition(len: nat, size: nat, position: nat, op: ReaderOp): nat
    requires size > 0
  {
    match op
    case DoRead(want) => position + ReadSize(len, size, position, want)
    case DoSeek(pos) => if SeekTarget(pos, len, position) < 0 then position else SeekTarget(pos, len, position) % U64_SIZE
    case DoRange(_, _) => position
  }

  function SpecReply(plain: ByteStrings.Bytes, size: nat, position: nat, op: ReaderOp): Reply
    requires size > 0
  {
    match op
    case DoRead(want) => Reply.Bytes(Cut(plain, position, SpecPosition(|plain|, size, position, op)))
    case DoSeek(pos) => if SeekTarget(pos, |plain|, position) < 0 then Refused else At(SpecPosition(|plain|, size, position, op))
    case DoRange(start, count) => Reply.Bytes(Cut(plain, start, RangeEnd(|plain|, start, count)))
  }

  /** What a session of operations answers over a plain byte array with a position. */
  function SpecSession(plain: ByteStrings.Bytes, size: nat, position: nat, ops: seq<ReaderOp>): seq<Reply>
    requires size > 0
    decreases |ops|
  {
    if ops == [] then []
    else [SpecReply(plain, size, position, ops[0])]
         + SpecSession(plain, size, SpecPosition(|plain|, size, position, ops[0]), ops[1..])
  }

  /** One call on the reader. */
  method RunOp(reader: SealedFileReader, ghost plain: ByteStrings.Bytes, op: ReaderOp) returns (reply: Reply)
    requires reader.Valid() && Carries(reader.c, reader.inner, reader.f, plain) && reader.f.size > 0 && |plain| == reader.f.geometry.plaintextLen
    requires forall i :: 0 <= i < reader.f.geometry.chunks ==> LoadedChunk(reader.c, reader.inner, reader.f, i).Ok?
    modifies reader
    ensures reader.Valid()
    ensures reply == SpecReply(plain, reader.f.size, old(reader.position), op)
    ensures reader.position == SpecPosition(|plain|, reader.f.size, old(reader.position), op)
  {
    hide WellFormed, LoadedChunk, Carries, ReadSize, RangeEnd, Cut;
    match op {
      case DoRead(want) =>
        var out := reader.Read(want);
        reply := Reply.Bytes(out.value);
      case DoSeek(pos) =>
        var moved := reader.Seek(pos);
        reply := if moved.Ok? then At(moved.value) else Refused;
      case DoRange(start, count) =>
        var out := reader.ReadRange(start, count);
        reply := Reply.Bytes(out.value);
    }
  }

  /**
    Through its one-chunk cache, a reader of an intact file answers any
    interleaving of operations exactly as the plaintext itself would.
   */
  method RunSession(reader: SealedFileReader, ghost plain: ByteStrings.Bytes, ops: seq<ReaderOp>) returns (replies: seq<Reply>)
    requires reader.Valid() && Carries(reader.c, reader.inner, reader.f, plain)
    requires forall i :: 0 <= i < reader.f.geometry.chunks ==> LoadedChunk(reader.c, reader.inner, reader.f, i).Ok?
    modifies reader
    ensures replies == SpecSession(plain, reader.f.size, old(reader.position), ops)
  {
    replies := [];
    ghost var size := reader.f.size;
    assert size > 0 && |plain| == reader.f.geometry.plaintextLen;
    hide WellFormed, LoadedChunk, Carries, ReadSize, RangeEnd, Cut, SpecReply, SpecPosition;
    for k := 0 to |ops|
      invariant reader.Valid()
      invariant replies + SpecSession(plain, size, reader.position, ops[k..])
             == SpecSession(plain, size, old(reader.position), ops)
    {
      var op := ops[k];
      ghost var at := reader.position;
      assert ops[k..][0] == op && ops[k..][1..] == ops[k + 1..];
      var reply := RunOp(reader, plain, op);
      ghost var rest := SpecSession(plain, size, reader.position, ops[k + 1..]);
      assert SpecSession(plain, size, at, ops[k..]) == [reply] + rest;
      assert (replies + [reply]) + rest == replies + ([reply] + rest);
      replies := replies + [reply];
    }
  }

  /** `seek` lands where it was asked to exactly when the target is a `u64`; beyond that the cast wraps. */
  lemma SeekIsExactIff(len: nat, size: nat, position: nat, pos: SeekFrom)
    requires size > 0 && SeekTarget(pos, len, position) >= 0
    ensures SpecPosition(len, size, position, DoSeek(pos)) == SeekTarget(pos, len, position)
       <==> SeekTarget(pos, len, position) < U64_SIZE
  {
    var target := SeekTarget(pos, len, position);
    assert 0 <= target % U64_SIZE < U64_SIZE;
    if target < U64_SIZE {
      assert target % U64_SIZE == target;
    }
  }

  /** In any file: having sought to the last `u64`, seeking one byte further lands at the start. */
  lemma SeekWraps(plain: ByteStrings.Bytes, size: nat, position: nat)
    requires size > 0
    ensures var last := U64_SIZE - 1;
      && SpecSession(plain, size, position, [DoSeek(FromStart(last)), DoSeek(FromCurrent(1))]) == [At(last), At(0)]
      && SeekTarget(FromCurrent(1), |plain|, last) == U64_SIZE
  {
    var last := U64_SIZE - 1;
    var ops := [DoSeek(FromStart(last)), DoSeek(FromCurrent(1))];
    assert ops[1..] == [DoSeek(FromCurrent(1))] && ops[1..][1..] == [];
    assert SpecPosition(|plain|, size, position, ops[0]) == last;
    assert SpecPosition(|plain|, size, last, ops[1]) == 0;
    assert SpecSession(plain, size, last, ops[1..]) == [At(0)];
  }
}
