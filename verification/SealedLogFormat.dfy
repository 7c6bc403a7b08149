/**
  `RYU-SL01`: the bytes of an append-only sealed log, how a scan reads them, and
  what any crash or alteration leaves readable.
 */
module SealedLogFormat {
  import opened Wrappers
  import opened ByteStrings
  import opened ContentCiphers

  const HEADER_LEN := 32
  const SALT_LEN := 20
  const MAX_RECORD_BODY := 16 * 1024 * 1024
  const LOG_KDF_INFO := Ascii("ryu-sealed-log-v1")

  type Header = h: Bytes | |h| == HEADER_LEN witness Zeros(32)
  type Salt = s: Bytes | |s| == SALT_LEN witness Zeros(20)

  datatype LogError =
    | ShorterThanHeader | NotALog | UnsupportedHeader
    | InvalidLength(index: nat) | CorruptRecord(index: nat) | LogDoesNotOpen
    | IncompleteTail | WrittenUnderRetiredKey | WriteFailed | RecordTooLarge | FileExists | FileMissing

  function BuildHeader(salt: Salt): Header {
    SEALED_LOG_MAGIC + [1, 0, 0, 0] + salt
  }

  function CheckHeader(header: Header): Option<LogError> {
    if header[..8] != SEALED_LOG_MAGIC then Some(NotALog)
    else if header[8] != 1 || header[9] != 0 || header[10..12] != [0, 0] then Some(UnsupportedHeader)
    else None
  }

  lemma BuiltHeaderPasses(salt: Salt)
    ensures CheckHeader(BuildHeader(salt)) == None
    ensures BuildHeader(salt)[12..] == salt
  {
  }

  function LogKey(c: Crypto, key: Key, header: Header, aad: Bytes): Key {
    c.hkdf(key, header[12..], LOG_KDF_INFO + aad)
  }

  function RecordAad(header: Header, index: nat): Bytes {
    header + BigEndian(index, 8)
  }

  function U32(b: Bytes): nat
    requires |b| == 4
  {
    FromBigEndian(b)
  }

  // ── The bytes a writer produces ────────────────────────────────────────────

  datatype Entry = Entry(nonce: Nonce, record: Bytes)

  predicate Fits(record: Bytes) {
    |record| + NONCE_LEN + TAG_LEN <= MAX_RECORD_BODY
  }

  predicate AllFit(entries: seq<Entry>) {
    forall i :: 0 <= i < |entries| ==> Fits(entries[i].record)
  }

  function Body(c: Crypto, key: Key, header: Header, index: nat, entry: Entry): Bytes {
    entry.nonce + c.seal(key, entry.nonce, RecordAad(header, index), entry.record)
  }

  function Frame(c: Crypto, key: Key, header: Header, index: nat, entry: Entry): Bytes {
    var body := Body(c, key, header, index, entry);
    BigEndian(|body|, 4) + body
  }

  /** The whole file after `entries` were appended. */
  function Image(c: Crypto, key: Key, header: Header, entries: seq<Entry>): (b: Bytes)
    ensures header <= b
  {
    if entries == [] then header
    else
      var n := |entries| - 1;
      Image(c, key, header, entries[..n]) + Frame(c, key, header, n, entries[n])
  }

  function Records(entries: seq<Entry>): (r: seq<Bytes>)
    ensures |r| == |entries|
  {
    seq(|entries|, i requires 0 <= i < |entries| => entries[i].record)
  }

  lemma {:induction false} ImagePrefix(c: Crypto, key: Key, header: Header, entries: seq<Entry>, m: nat)
    requires m <= |entries|
    ensures Image(c, key, header, entries[..m]) <= Image(c, key, header, entries)
    decreases |entries|
  {
    if m < |entries| {
      var n := |entries| - 1;
      assert entries[..n][..m] == entries[..m];
      ImagePrefix(c, key, header, entries[..n], m);
    } else {
      assert entries[..m] == entries;
    }
  }

  lemma ImageSnoc(c: Crypto, key: Key, header: Header, entries: seq<Entry>, i: nat)
    requires i < |entries|
    ensures Image(c, key, header, entries[..i + 1])
         == Image(c, key, header, entries[..i]) + Frame(c, key, header, i, entries[i])
  {
    assert entries[..i + 1][..i] == entries[..i];
  }

  // ── The scan ───────────────────────────────────────────────────────────────

  datatype Tail = Clean | Short | FinalFailed

  datatype Scan = Scan(records: seq<Bytes>, committedEnd: nat, tail: Tail)

  predicate AllZero(b: Bytes) {
    forall i :: 0 <= i < |b| ==> b[i] == 0
  }

  predicate ValidLength(bodyLen: nat) {
    NONCE_LEN + TAG_LEN <= bodyLen <= MAX_RECORD_BODY
  }

  /** The scan from `position` on, with the records before it already read. */
  function ScanFrom(c: Crypto, bytes: Bytes, header: Header, key: Key, keep: bool, position: nat, index: nat, records: seq<Bytes>): Result<Scan, LogError>
    requires position <= |bytes|
    decreases |bytes| - position
  {
    if position == |bytes| then Ok(Scan(records, position, Clean))
    else if |bytes| - position < 4 then Ok(Scan(records, position, Short))
    else
      var bodyLen := U32(bytes[position..position + 4]);
      if !ValidLength(bodyLen) then
        if AllZero(bytes[position..]) then Ok(Scan(records, position, Short)) else Err(InvalidLength(index))
      else if |bytes| - (position + 4) < bodyLen then Ok(Scan(records, position, Short))
      else
        var end := position + 4 + bodyLen;
        var body := bytes[position + 4..end];
        match c.open(key, body[..NONCE_LEN], RecordAad(header, index), body[NONCE_LEN..])
        case Some(plain) =>
          ScanFrom(c, bytes, header, key, keep, end, index + 1, if keep then records + [plain] else records)
        case None =>
          if end == |bytes| then Ok(Scan(records, position, FinalFailed)) else Err(CorruptRecord(index))
  }

  /** A scan ends inside the file, and cleanly exactly at its end. */
  lemma {:induction false} ScanEnds(c: Crypto, bytes: Bytes, header: Header, key: Key, keep: bool, position: nat, index: nat, records: seq<Bytes>)
    requires position <= |bytes|
    ensures var scan := ScanFrom(c, bytes, header, key, keep, position, index, records);
            scan.Ok? ==> position <= scan.value.committedEnd <= |bytes|
                         && (scan.value.tail == Clean <==> scan.value.committedEnd == |bytes|)
    decreases |bytes| - position
  {
    if |bytes| - position >= 4 {
      var bodyLen := U32(bytes[position..position + 4]);
      var end := position + 4 + bodyLen;
      if ValidLength(bodyLen) && end <= |bytes| {
        var body := bytes[position + 4..end];
        var plain := c.open(key, body[..NONCE_LEN], RecordAad(header, index), body[NONCE_LEN..]);
        if plain.Some? {
          ScanEnds(c, bytes, header, key, keep, end, index + 1, if keep then records + [plain.value] else records);
        }
      }
    }
  }

  function ScanAll(c: Crypto, bytes: Bytes, header: Header, key: Key, keep: bool): Result<Scan, LogError>
    requires |bytes| >= HEADER_LEN
  {
    ScanFrom(c, bytes, header, key, keep, HEADER_LEN, 0, [])
  }

  method ScanWith(c: Crypto, bytes: Bytes, header: Header, key: Key, keep: bool) returns (r: Result<Scan, LogError>)
    requires |bytes| >= HEADER_LEN
    ensures r == ScanAll(c, bytes, header, key, keep)
  {
    var position, index := HEADER_LEN, 0;
    var records: seq<Bytes> := [];
    while true
      invariant position <= |bytes|
      invariant ScanFrom(c, bytes, header, key, keep, position, index, records) == ScanAll(c, bytes, header, key, keep)
      decreases |bytes| - position
    {
      if position == |bytes| {
        return Ok(Scan(records, position, Clean));
      }
      if |bytes| - position < 4 {
        return Ok(Scan(records, position, Short));
      }
      var bodyLen := U32(bytes[position..position + 4]);
      var bodyStart := position + 4;
      if !ValidLength(bodyLen) {
        if AllZero(bytes[position..]) {
          return Ok(Scan(records, position, Short));
        }
        return Err(InvalidLength(index));
      }
      if |bytes| - bodyStart < bodyLen {
        return Ok(Scan(records, position, Short));
      }
      var end := bodyStart + bodyLen;
      var body := bytes[bodyStart..end];
      match c.open(key, body[..NONCE_LEN], RecordAad(header, index), body[NONCE_LEN..]) {
        case Some(plain) =>
          if keep {
            records := records + [plain];
          }
          position, index := end, index + 1;
        case None =>
          if end == |bytes| {
            return Ok(Scan(records, position, FinalFailed));
          }
          return Err(CorruptRecord(index));
      }
    }
  }

  // ── Crashes ────────────────────────────────────────────────────────────────

  /**
    What a crash can leave of a log of `entries`: the first `m` records whole,
    then nothing, a strict part of the next record, or zeros (the file was being
    extended).
   */
  ghost predicate Torn(c: Crypto, key: Key, header: Header, entries: seq<Entry>, m: nat, bytes: Bytes) {
    && m <= |entries|
    && var whole := Image(c, key, header, entries[..m]);
       && whole <= bytes
       && (|| (m < |entries| && bytes < Image(c, key, header, entries[..m + 1]))
           || AllZero(bytes[|whole|..]))
  }

  /** Every cut of the file at or past its header is such a crash, for exactly one number of whole records. */
  lemma {:induction false} EveryCutIsTorn(c: Crypto, key: Key, header: Header, entries: seq<Entry>, bytes: Bytes) returns (m: nat)
    requires LawfulAead(c)
    requires header <= bytes <= Image(c, key, header, entries)
    ensures Torn(c, key, header, entries, m, bytes)
    ensures forall k: nat :: k <= |entries| ==> (k <= m <==> |Image(c, key, header, entries[..k])| <= |bytes|)
    decreases |entries|
  {
    hide Frame;
    assert entries[..|entries|] == entries;
    forall j: nat, k: nat | j <= k <= |entries| ensures |Image(c, key, header, entries[..j])| <= |Image(c, key, header, entries[..k])| {
      assert entries[..k][..j] == entries[..j];
      ImagePrefix(c, key, header, entries[..k], j);
    }
    if bytes == Image(c, key, header, entries) {
      m := |entries|;
    } else {
      var n := |entries| - 1;
      var shorter := Image(c, key, header, entries[..n]);
      if |shorter| <= |bytes| {
        m := n;
      } else {
        m := EveryCutIsTorn(c, key, header, entries[..n], bytes);
        forall k: nat | k <= n ensures entries[..n][..k] == entries[..k] {}
        assert Image(c, key, header, entries[..m + 1]) == Image(c, key, header, entries[..n][..m + 1]) || m == n;
      }
    }
  }

  /** Where the i-th frame sits in a file that holds it whole. */
  lemma FrameAt(c: Crypto, key: Key, header: Header, entries: seq<Entry>, i: nat, bytes: Bytes)
    requires LawfulAead(c) && AllFit(entries) && i < |entries|
    requires Image(c, key, header, entries[..i + 1]) <= bytes
    ensures var start := |Image(c, key, header, entries[..i])|;
            var body := Body(c, key, header, i, entries[i]);
            && ValidLength(|body|)
            && start + 4 + |body| == |Image(c, key, header, entries[..i + 1])| <= |bytes|
            && U32(bytes[start..start + 4]) == |body| && bytes[start + 4..start + 4 + |body|] == body
            && body[..NONCE_LEN] == entries[i].nonce
            && body[NONCE_LEN..] == c.seal(key, entries[i].nonce, RecordAad(header, i), entries[i].record)
  {
    hide Image, BigEndian, RecordAad;
    var start := |Image(c, key, header, entries[..i])|;
    var body := Body(c, key, header, i, entries[i]);
    ImageSnoc(c, key, header, entries, i);
    var upTo := Image(c, key, header, entries[..i + 1]);
    var end := start + 4 + |body|;
    assert upTo[start..start + 4] == BigEndian(|body|, 4);
    assert upTo[start + 4..end] == body;
    SliceOfPrefix(upTo, bytes, start, start + 4);
    SliceOfPrefix(upTo, bytes, start + 4, end);
    Widths();
    DecodesBigEndian(|body|, 4);
  }

  lemma ScanStep(c: Crypto, key: Key, header: Header, entries: seq<Entry>, i: nat, bytes: Bytes, keep: bool, records: seq<Bytes>)
    requires LawfulAead(c) && AllFit(entries) && i < |entries|
    requires Image(c, key, header, entries[..i + 1]) <= bytes
    ensures |Image(c, key, header, entries[..i])| <= |bytes|
    ensures ScanFrom(c, bytes, header, key, keep, |Image(c, key, header, entries[..i])|, i, records)
         == ScanFrom(c, bytes, header, key, keep, |Image(c, key, header, entries[..i + 1])|, i + 1,
                     if keep then records + [entries[i].record] else records)
  {
    hide Image, Body, RecordAad, FromBigEndian;
    FrameAt(c, key, header, entries, i, bytes);
  }

  /** Reading a frame cut short, or zeros, stops the scan exactly at the last whole record. */
  lemma ScanStops(c: Crypto, key: Key, header: Header, entries: seq<Entry>, m: nat, bytes: Bytes, keep: bool, records: seq<Bytes>)
    requires LawfulAead(c) && AllFit(entries) && Torn(c, key, header, entries, m, bytes)
    ensures var whole := Image(c, key, header, entries[..m]);
            ScanFrom(c, bytes, header, key, keep, |whole|, m, records)
            == Ok(Scan(records, |whole|, if bytes == whole then Clean else Short))
  {
    hide RecordAad, BigEndian;
    var whole := Image(c, key, header, entries[..m]);
    var start := |whole|;
    if start < |bytes| && |bytes| - start >= 4 {
      var prefix := bytes[start..start + 4];
      if AllZero(bytes[start..]) {
        assert forall k :: 0 <= k < 4 ==> prefix[k] == bytes[start..][k];
        ZeroLength(prefix);
      } else {
        ImageSnoc(c, key, header, entries, m);
        var next := Image(c, key, header, entries[..m + 1]);
        var body := Body(c, key, header, m, entries[m]);
        assert next[start..start + 4] == BigEndian(|body|, 4);
        SliceOfPrefix(bytes, next, start, start + 4);
        Widths();
        DecodesBigEndian(|body|, 4);
        assert |next| == start + 4 + |body|;
      }
    }
  }

  lemma ZeroLength(b: Bytes)
    requires |b| == 4 && AllZero(b)
    ensures U32(b) == 0
  {
    assert b[..3][..2][..1][..0] == [];
    assert FromBigEndian(b[..3][..2][..1]) == 0;
    assert FromBigEndian(b[..3][..2]) == 0;
    assert FromBigEndian(b[..3]) == 0;
  }

  lemma {:induction false} ScanThrough(c: Crypto, key: Key, header: Header, entries: seq<Entry>, m: nat, bytes: Bytes, keep: bool, i: nat)
    requires LawfulAead(c) && AllFit(entries) && Torn(c, key, header, entries, m, bytes) && i <= m
    ensures |Image(c, key, header, entries[..i])| <= |bytes|
    ensures var whole := Image(c, key, header, entries[..m]);
            ScanFrom(c, bytes, header, key, keep, |Image(c, key, header, entries[..i])|, i, if keep then Records(entries[..i]) else [])
            == Ok(Scan(if keep then Records(entries[..m]) else [], |whole|, if bytes == whole then Clean else Short))
    decreases m - i
  {
    hide ScanFrom, Image, Frame;
    if i == m {
      ScanStops(c, key, header, entries, m, bytes, keep, if keep then Records(entries[..m]) else []);
    } else {
      assert entries[..m][..i + 1] == entries[..i + 1];
      ImagePrefix(c, key, header, entries[..m], i + 1);
      ScanStep(c, key, header, entries, i, bytes, keep, if keep then Records(entries[..i]) else []);
      assert Records(entries[..i + 1]) == Records(entries[..i]) + [entries[i].record];
      ScanThrough(c, key, header, entries, m, bytes, keep, i + 1);
    }
  }

  /** A scan under the writing key returns exactly the wholly written records, in order. */
  lemma ScanRecovers(c: Crypto, key: Key, header: Header, entries: seq<Entry>, m: nat, bytes: Bytes, keep: bool)
    requires LawfulAead(c) && AllFit(entries) && Torn(c, key, header, entries, m, bytes)
    ensures |bytes| >= HEADER_LEN
    ensures var whole := Image(c, key, header, entries[..m]);
            ScanAll(c, bytes, header, key, keep)
            == Ok(Scan(if keep then Records(entries[..m]) else [], |whole|, if bytes == whole then Clean else Short))
  {
    assert entries[..0] == [];
    assert Records([]) == [];
    ScanThrough(c, key, header, entries, m, bytes, keep, 0);
  }

  // ── Alterations ────────────────────────────────────────────────────────────

  lemma RecordAadIsInjective(header: Header, i: nat, j: nat)
    requires i <= SLICE_LIMIT && j <= SLICE_LIMIT && RecordAad(header, i) == RecordAad(header, j)
    ensures i == j
  {
    Widths();
    assert RecordAad(header, i)[HEADER_LEN..] == BigEndian(i, 8);
    assert RecordAad(header, j)[HEADER_LEN..] == BigEndian(j, 8);
    DecodesBigEndian(i, 8);
    DecodesBigEndian(j, 8);
  }

  function SealingOf(c: Crypto, key: Key, header: Header, entries: seq<Entry>, i: nat): Sealing
    requires i < |entries|
  {
    var aad := RecordAad(header, i);
    Sealing(key, entries[i].nonce, aad, c.seal(key, entries[i].nonce, aad, entries[i].record))
  }

  /** The log key sealed these entries and nothing else. */
  ghost predicate SealedOnly(c: Crypto, sealings: set<Sealing>, key: Key, header: Header, entries: seq<Entry>) {
    forall s :: s in sealings && s.key == key ==> exists i :: 0 <= i < |entries| && s == SealingOf(c, key, header, entries, i)
  }

  /** Each body the writer sealed opens as its record. */
  ghost predicate EntriesOpen(c: Crypto, key: Key, header: Header, entries: seq<Entry>) {
    forall i :: 0 <= i < |entries| ==> SealOpens(c, key, entries[i].nonce, RecordAad(header, i), entries[i].record)
  }

  /** A body that opens at index `i` is the i-th body the writer sealed. */
  lemma AcceptedBody(c: Crypto, sealings: set<Sealing>, key: Key, header: Header, entries: seq<Entry>, i: nat, nonce: Nonce, ciphertext: Bytes)
    requires OnlyOpens(c, sealings) && SealedOnly(c, sealings, key, header, entries) && EntriesOpen(c, key, header, entries)
    requires i <= |entries| < SLICE_LIMIT
    requires c.open(key, nonce, RecordAad(header, i), ciphertext).Some?
    ensures i < |entries| && nonce + ciphertext == Body(c, key, header, i, entries[i])
    ensures c.open(key, nonce, RecordAad(header, i), ciphertext) == Some(entries[i].record)
  {
    var s := Sealing(key, nonce, RecordAad(header, i), ciphertext);
    assert s in sealings;
    var j :| 0 <= j < |entries| && s == SealingOf(c, key, header, entries, j);
    RecordAadIsInjective(header, i, j);
  }

  lemma AcceptedFrame(c: Crypto, key: Key, header: Header, entries: seq<Entry>, bytes: Bytes, i: nat, end: nat)
    requires i < |entries| && Image(c, key, header, entries[..i]) <= bytes
    requires var position := |Image(c, key, header, entries[..i])|;
             && position + 4 <= end <= |bytes|
             && U32(bytes[position..position + 4]) == end - (position + 4)
             && bytes[position + 4..end] == Body(c, key, header, i, entries[i])
    ensures bytes[..end] == Image(c, key, header, entries[..i + 1])
  {
    hide Image, Body, BigEndian, FromBigEndian;
    var position := |Image(c, key, header, entries[..i])|;
    var size := bytes[position..position + 4];
    var body := bytes[position + 4..end];
    EncodesBigEndian(size);
    ImageSnoc(c, key, header, entries, i);
    assert |body| == end - (position + 4);
    assert bytes[..position] == Image(c, key, header, entries[..i]);
    assert bytes[..end] == bytes[..position] + (size + body);
  }

  /** The record at `position`, if one opens there: where it ends and its plaintext. */
  function NextRecord(c: Crypto, bytes: Bytes, header: Header, key: Key, position: nat, index: nat): (r: Option<(nat, Bytes)>)
    requires position <= |bytes|
    ensures r.Some? ==>
      && position + 4 + NONCE_LEN + TAG_LEN <= r.value.0 <= |bytes|
      && U32(bytes[position..position + 4]) == r.value.0 - (position + 4)
      && var body := bytes[position + 4..r.value.0];
         c.open(key, body[..NONCE_LEN], RecordAad(header, index), body[NONCE_LEN..]) == Some(r.value.1)
    ensures forall records :: var scan := ScanFrom(c, bytes, header, key, true, position, index, records);
      if r.Some? then scan == ScanFrom(c, bytes, header, key, true, r.value.0, index + 1, records + [r.value.1])
      else scan.Ok? ==> scan.value.records == records && scan.value.committedEnd == position
  {
    if |bytes| - position < 4 then None
    else
      var bodyLen := U32(bytes[position..position + 4]);
      var end := position + 4 + bodyLen;
      if !ValidLength(bodyLen) || end > |bytes| then None
      else
        var body := bytes[position + 4..end];
        match c.open(key, body[..NONCE_LEN], RecordAad(header, index), body[NONCE_LEN..])
        case Some(plain) => Some((end, plain))
        case None => None
  }

  /** The scan read a prefix of the appended records, and its committed part is what the writer wrote. */
  ghost predicate ReadsPrefix(c: Crypto, key: Key, header: Header, entries: seq<Entry>, bytes: Bytes, scan: Scan) {
    var k := |scan.records|;
    && k <= |entries| && scan.records == Records(entries[..k])
    && scan.committedEnd <= |bytes| && bytes[..scan.committedEnd] == Image(c, key, header, entries[..k])
  }

  lemma {:induction false} AcceptedFrom(c: Crypto, sealings: set<Sealing>, key: Key, header: Header, entries: seq<Entry>, bytes: Bytes, i: nat, position: nat, records: seq<Bytes>)
    requires OnlyOpens(c, sealings) && SealedOnly(c, sealings, key, header, entries) && EntriesOpen(c, key, header, entries)
    requires i <= |entries| < SLICE_LIMIT && position <= |bytes|
    requires bytes[..position] == Image(c, key, header, entries[..i]) && records == Records(entries[..i])
    requires ScanFrom(c, bytes, header, key, true, position, i, records).Ok?
    ensures ReadsPrefix(c, key, header, entries, bytes, ScanFrom(c, bytes, header, key, true, position, i, records).value)
    decreases |bytes| - position
  {
    hide ScanFrom, Image, FromBigEndian, NextRecord;
    var next := NextRecord(c, bytes, header, key, position, i);
    if next.Some? {
      var (end, plain) := next.value;
      var body := bytes[position + 4..end];
      AcceptedBody(c, sealings, key, header, entries, i, body[..NONCE_LEN], body[NONCE_LEN..]);
      assert body == body[..NONCE_LEN] + body[NONCE_LEN..];
      AcceptedFrame(c, key, header, entries, bytes, i, end);
      assert Records(entries[..i + 1]) == records + [plain];
      AcceptedFrom(c, sealings, key, header, entries, bytes, i + 1, end, records + [plain]);
    }
  }

  /**
    Whatever bytes follow the header (records dropped, reordered, repeated or
    altered), a scan that succeeds returns a prefix of what the writer appended,
    and its committed part is byte for byte what the writer wrote.
   */
  lemma AcceptedRecordsAreAPrefix(c: Crypto, sealings: set<Sealing>, key: Key, header: Header, entries: seq<Entry>, bytes: Bytes)
    requires OnlyOpens(c, sealings) && SealedOnly(c, sealings, key, header, entries) && EntriesOpen(c, key, header, entries)
    requires |entries| < SLICE_LIMIT && header <= bytes
    requires ScanAll(c, bytes, header, key, true).Ok?
    ensures ReadsPrefix(c, key, header, entries, bytes, ScanAll(c, bytes, header, key, true).value)
  {
    assert entries[..0] == [];
    assert Records([]) == [];
    AcceptedFrom(c, sealings, key, header, entries, bytes, 0, HEADER_LEN, []);
  }
}
