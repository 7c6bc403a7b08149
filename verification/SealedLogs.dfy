/** Opening, recovering and appending to `RYU-SL01` logs, and every history of doing so. */
module SealedLogs {
  import opened Wrappers
  import opened ByteStrings
  import opened ContentContexts
  import opened ContentCiphers
  import opened SealedLogFormat
  import opened Disks

  /** One opened log: the header, the log key that opened it, and what the scan found. */
  datatype OpenedLog = OpenedLog(header: Header, key: Key, retired: bool, scan: Scan)

  /** Try the candidate keys in turn; a complete first record that does not open means the wrong key. */
  function OpenWith(c: Crypto, bytes: Bytes, header: Header, aad: Bytes, keep: bool, keys: seq<(ContentKey, bool)>, firstError: Option<LogError>): (r: Result<OpenedLog, LogError>)
    requires |bytes| >= HEADER_LEN
    ensures r.Ok? ==> HEADER_LEN <= r.value.scan.committedEnd <= |bytes|
    ensures r.Ok? ==> (r.value.scan.tail == Clean <==> r.value.scan.committedEnd == |bytes|)
  {
    if keys == [] then Err(if firstError.Some? then firstError.value else LogDoesNotOpen)
    else
      var key := LogKey(c, keys[0].0.key, header, aad);
      ScanEnds(c, bytes, header, key, keep, HEADER_LEN, 0, []);
      match ScanAll(c, bytes, header, key, keep)
      case Ok(scan) =>
        if scan.tail == FinalFailed && scan.committedEnd == HEADER_LEN
        then OpenWith(c, bytes, header, aad, keep, keys[1..], firstError)
        else Ok(OpenedLog(header, key, keys[0].1, scan))
      case Err(error) =>
        OpenWith(c, bytes, header, aad, keep, keys[1..], if firstError.Some? then firstError else Some(error))
  }

  function OpenedAs(c: Crypto, bytes: Bytes, cipher: Cipher, context: Context, keep: bool): (r: Result<OpenedLog, LogError>)
    ensures r.Ok? ==> HEADER_LEN <= r.value.scan.committedEnd <= |bytes|
    ensures r.Ok? ==> (r.value.scan.tail == Clean <==> r.value.scan.committedEnd == |bytes|)
  {
    if |bytes| < HEADER_LEN then Err(ShorterThanHeader)
    else match CheckHeader(bytes[..HEADER_LEN])
      case Some(error) => Err(error)
      case None => OpenWith(c, bytes, bytes[..HEADER_LEN], Aad(cipher, context), keep, Candidates(cipher), None)
  }

  method OpenLog(c: Crypto, bytes: Bytes, cipher: Cipher, context: Context, keep: bool) returns (r: Result<OpenedLog, LogError>)
    ensures r == OpenedAs(c, bytes, cipher, context, keep)
  {
    if |bytes| < HEADER_LEN {
      return Err(ShorterThanHeader);
    }
    var header: Header := bytes[..HEADER_LEN];
    var bad := CheckHeader(header);
    if bad.Some? {
      return Err(bad.value);
    }
    var aad := AssociatedData(cipher.store, context);
    var keys := Candidates(cipher);
    var firstError: Option<LogError> := None;
    for i := 0 to |keys|
      invariant OpenWith(c, bytes, header, aad, keep, keys[i..], firstError)
             == OpenWith(c, bytes, header, aad, keep, keys, None)
    {
      var key := LogKey(c, keys[i].0.key, header, aad);
      var scanned := ScanWith(c, bytes, header, key, keep);
      assert keys[i..][0] == keys[i] && keys[i..][1..] == keys[i + 1..];
      match scanned {
        case Ok(scan) =>
          if !(scan.tail == FinalFailed && scan.committedEnd == HEADER_LEN) {
            return Ok(OpenedLog(header, key, keys[i].1, scan));
          }
        case Err(error) =>
          if firstError.None? {
            firstError := Some(error);
          }
      }
    }
    r := Err(if firstError.Some? then firstError.value else LogDoesNotOpen);
  }

  /** Read every record, strictly: a torn tail is an error. */
  method ReadLogBytes(c: Crypto, bytes: Bytes, cipher: Cipher, context: Context) returns (r: Result<seq<Bytes>, LogError>)
    ensures r == StrictRead(c, bytes, cipher, context)
  {
    var log := OpenLog(c, bytes, cipher, context, true);
    if log.Err? {
      return Err(log.error);
    }
    if log.value.scan.tail != Clean {
      return Err(IncompleteTail);
    }
    r := Ok(log.value.scan.records);
  }

  function StrictRead(c: Crypto, bytes: Bytes, cipher: Cipher, context: Context): Result<seq<Bytes>, LogError> {
    match OpenedAs(c, bytes, cipher, context, true)
    case Err(error) => Err(error)
    case Ok(log) => if log.scan.tail != Clean then Err(IncompleteTail) else Ok(log.scan.records)
  }

  datatype RecoveredLog = RecoveredLog(records: seq<Bytes>, tornTail: bool, needsReseal: bool)

  /** Read every committed record, ignoring a torn tail. */
  method OpenRecovering(c: Crypto, disk: Disk, path: string, cipher: Cipher, context: Context) returns (r: Result<RecoveredLog, LogError>)
    ensures r == if path in disk.files then Recovered(c, disk.files[path], cipher, context) else Err(FileMissing)
  {
    if path !in disk.files {
      return Err(FileMissing);
    }
    var log := OpenLog(c, disk.files[path], cipher, context, true);
    if log.Err? {
      return Err(log.error);
    }
    r := Ok(RecoveredLog(log.value.scan.records, log.value.scan.tail != Clean, log.value.retired));
  }

  function Recovered(c: Crypto, bytes: Bytes, cipher: Cipher, context: Context): Result<RecoveredLog, LogError> {
    match OpenedAs(c, bytes, cipher, context, true)
    case Err(error) => Err(error)
    case Ok(log) => Ok(RecoveredLog(log.scan.records, log.scan.tail != Clean, log.retired))
  }

  // ── Counting records without opening them ──────────────────────────────────

  function CountFrom(bytes: Bytes, position: nat): nat
    decreases |bytes| - position
  {
    if position + 4 > |bytes| then 0
    else 1 + CountFrom(bytes, position + 4 + U32(bytes[position..position + 4]))
  }

  method CountRecords(bytes: Bytes) returns (count: nat)
    ensures count == CountFrom(bytes, HEADER_LEN)
  {
    var position := HEADER_LEN;
    count := 0;
    while position + 4 <= |bytes|
      invariant count + CountFrom(bytes, position) == CountFrom(bytes, HEADER_LEN)
      decreases |bytes| - position
    {
      var len := U32(bytes[position..position + 4]);
      position := position + 4 + len;
      count := count + 1;
    }
  }

  lemma CountStep(c: Crypto, key: Key, header: Header, entries: seq<Entry>, i: nat)
    requires LawfulAead(c) && AllFit(entries) && i < |entries|
    ensures var bytes := Image(c, key, header, entries);
            CountFrom(bytes, |Image(c, key, header, entries[..i])|) == 1 + CountFrom(bytes, |Image(c, key, header, entries[..i + 1])|)
  {
    hide Image, Body, FromBigEndian;
    var bytes := Image(c, key, header, entries);
    ImagePrefix(c, key, header, entries, i + 1);
    FrameAt(c, key, header, entries, i, bytes);
  }

  lemma {:induction false} CountsFrom(c: Crypto, key: Key, header: Header, entries: seq<Entry>, i: nat)
    requires LawfulAead(c) && AllFit(entries) && i <= |entries|
    ensures CountFrom(Image(c, key, header, entries), |Image(c, key, header, entries[..i])|) == |entries| - i
    decreases |entries| - i
  {
    if i == |entries| {
      assert entries[..i] == entries;
    } else {
      CountStep(c, key, header, entries, i);
      CountsFrom(c, key, header, entries, i + 1);
    }
  }

  /** On a committed log, the unverified count is the number of records the verified scan reads. */
  lemma CountAgreesWithScan(c: Crypto, key: Key, header: Header, entries: seq<Entry>)
    requires LawfulAead(c) && AllFit(entries)
    ensures CountFrom(Image(c, key, header, entries), HEADER_LEN) == |entries|
  {
    assert entries[..0] == [];
    CountsFrom(c, key, header, entries, 0);
  }

  // ── The writer ─────────────────────────────────────────────────────────────

  /** What a log file and its writer's counter hold. */
  datatype LogState = LogState(bytes: Bytes, next: nat)

  function Appended(c: Crypto, key: Key, header: Header, s: LogState, entry: Entry): LogState {
    if Fits(entry.record) then LogState(s.bytes + Frame(c, key, header, s.next, entry), s.next + 1) else s
  }

  /** An append of which the disk takes only so many bytes. */
  function AppendedPart(c: Crypto, key: Key, header: Header, s: LogState, entry: Entry, written: nat): LogState {
    var frame := Frame(c, key, header, s.next, entry);
    if Fits(entry.record) && written < |frame| then LogState(s.bytes + frame[..written], s.next) else Appended(c, key, header, s, entry)
  }

  /** Reopening for append: verify, refuse a retired key, cut the torn tail, count what is left. */
  function Reopened(c: Crypto, bytes: Bytes, cipher: Cipher, context: Context): Result<(OpenedLog, LogState), LogError> {
    match OpenedAs(c, bytes, cipher, context, false)
    case Err(error) => Err(error)
    case Ok(log) =>
      if log.retired then Err(WrittenUnderRetiredKey)
      else
        var kept := bytes[..log.scan.committedEnd];
        Ok((log, LogState(kept, CountFrom(kept, HEADER_LEN))))
  }

  class SealedLogWriter {
    const c: Crypto
    const disk: Disk
    const path: string
    const header: Header
    const key: Key
    var nextIndex: nat

    constructor (c: Crypto, disk: Disk, path: string, header: Header, key: Key, nextIndex: nat)
      ensures this.c == c && this.disk == disk && this.path == path
      ensures this.header == header && this.key == key && this.nextIndex == nextIndex
    {
      this.c, this.disk, this.path := c, disk, path;
      this.header, this.key, this.nextIndex := header, key, nextIndex;
    }

    ghost function State(): LogState
      reads this, disk
      requires path in disk.files
    {
      LogState(disk.files[path], nextIndex)
    }

    /** Create a new log; fails, changing nothing, if the file exists. */
    static method Create(c: Crypto, disk: Disk, path: string, cipher: Cipher, context: Context, salt: Salt)
      returns (r: Result<SealedLogWriter, LogError>)
      requires disk.Valid()
      modifies disk
      ensures disk.Valid()
      ensures old(path in disk.files) ==> r == Err(FileExists) && disk.files == old(disk.files)
      ensures old(path !in disk.files) ==>
        && r.Ok? && fresh(r.value) && r.value.disk == disk && r.value.path == path && r.value.c == c
        && disk.files == old(disk.files)[path := BuildHeader(salt)]
        && r.value.header == BuildHeader(salt)
        && r.value.key == LogKey(c, cipher.current.key, BuildHeader(salt), Aad(cipher, context))
        && r.value.nextIndex == 0
    {
      var header := BuildHeader(salt);
      var aad := AssociatedData(cipher.store, context);
      var key := LogKey(c, cipher.current.key, header, aad);
      if path in disk.files {
        return Err(FileExists);
      }
      disk.Write(path, header);
      var writer := new SealedLogWriter(c, disk, path, header, key, 0);
      r := Ok(writer);
    }

    /** Open for append, creating the log when it is missing. */
    static method OpenAppend(c: Crypto, disk: Disk, path: string, cipher: Cipher, context: Context, salt: Salt)
      returns (r: Result<SealedLogWriter, LogError>)
      requires disk.Valid()
      modifies disk
      ensures disk.Valid()
      ensures r.Ok? ==> fresh(r.value) && r.value.disk == disk && r.value.path == path && r.value.c == c
      ensures old(path !in disk.files) ==>
        && r.Ok? && disk.files == old(disk.files)[path := BuildHeader(salt)] && r.value.nextIndex == 0
        && r.value.key == LogKey(c, cipher.current.key, BuildHeader(salt), Aad(cipher, context))
      ensures old(path in disk.files) ==>
        match Reopened(c, old(disk.files[path]), cipher, context)
        case Err(error) => r == Err(error) && disk.files == old(disk.files)
        case Ok(reopened) =>
          && r.Ok? && disk.files == old(disk.files)[path := reopened.1.bytes]
          && r.value.State() == reopened.1
          && r.value.header == reopened.0.header && r.value.key == reopened.0.key
    {
      if path !in disk.files {
        r := Create(c, disk, path, cipher, context, salt);
        return;
      }
      var bytes := disk.files[path];
      var log := OpenLog(c, bytes, cipher, context, false);
      if log.Err? {
        return Err(log.error);
      }
      var scan := log.value.scan;
      if log.value.retired {
        return Err(WrittenUnderRetiredKey);
      }
      if scan.tail != Clean {
        disk.Write(path, bytes[..scan.committedEnd]);
      }
      var nextIndex := CountRecords(bytes[..scan.committedEnd]);
      var writer := new SealedLogWriter(c, disk, path, log.value.header, log.value.key, nextIndex);
      assert scan.tail == Clean ==> bytes[..scan.committedEnd] == bytes;
      r := Ok(writer);
    }

    /**
      Append one record; returns its index. The disk takes `written` bytes of the
      frame: if that is not all of it the append fails, and leaves that part behind.
     */
    method Append(record: Bytes, nonce: Nonce, written: nat) returns (r: Result<nat, LogError>)
      requires disk.Valid() && path in disk.files
      modifies this`nextIndex, disk
      ensures disk.Valid() && path in disk.files && State() == AppendedPart(c, key, header, old(State()), Entry(nonce, record), written)
      ensures disk.files == old(disk.files)[path := disk.files[path]]
      ensures r ==
        if !Fits(record) then Err(RecordTooLarge)
        else if written < |Frame(c, key, header, old(nextIndex), Entry(nonce, record))| then Err(WriteFailed)
        else Ok(old(nextIndex))
    {
      if |record| + NONCE_LEN + TAG_LEN > MAX_RECORD_BODY {
        return Err(RecordTooLarge);
      }
      var index := nextIndex;
      var ciphertext := c.seal(key, nonce, RecordAad(header, index), record);
      var bodyLen := NONCE_LEN + |ciphertext|;
      var frame := BigEndian(bodyLen, 4);
      frame := frame + nonce;
      frame := frame + ciphertext;
      assert frame == Frame(c, key, header, index, Entry(nonce, record));
      if written < |frame| {
        disk.Write(path, disk.files[path] + frame[..written]);
        return Err(WriteFailed);
      }
      disk.Write(path, disk.files[path] + frame);
      nextIndex := nextIndex + 1;
      r := Ok(index);
    }
  }

  // ── Crash and reopen ───────────────────────────────────────────────────────

  /** Under the current key, whatever a crash leaves opens to exactly the wholly written records. */
  lemma CrashOpens(c: Crypto, cipher: Cipher, context: Context, header: Header, entries: seq<Entry>, m: nat, bytes: Bytes, keep: bool)
    requires LawfulAead(c) && AllFit(entries) && CheckHeader(header) == None
    requires Torn(c, LogKey(c, cipher.current.key, header, Aad(cipher, context)), header, entries, m, bytes)
    ensures var key := LogKey(c, cipher.current.key, header, Aad(cipher, context));
            var whole := Image(c, key, header, entries[..m]);
            OpenedAs(c, bytes, cipher, context, keep)
            == Ok(OpenedLog(header, key, false,
                            Scan(if keep then Records(entries[..m]) else [], |whole|, if bytes == whole then Clean else Short)))
  {
    var key := LogKey(c, cipher.current.key, header, Aad(cipher, context));
    ScanRecovers(c, key, header, entries, m, bytes, keep);
    assert header <= Image(c, key, header, entries[..m]) <= bytes;
    assert bytes[..HEADER_LEN] == header;
  }

  /** Recovery reads exactly the wholly written records, and says whether anything was left over. */
  lemma CrashRecovers(c: Crypto, cipher: Cipher, context: Context, header: Header, entries: seq<Entry>, m: nat, bytes: Bytes)
    requires LawfulAead(c) && AllFit(entries) && CheckHeader(header) == None
    requires Torn(c, LogKey(c, cipher.current.key, header, Aad(cipher, context)), header, entries, m, bytes)
    ensures var whole := Image(c, LogKey(c, cipher.current.key, header, Aad(cipher, context)), header, entries[..m]);
            && Recovered(c, bytes, cipher, context) == Ok(RecoveredLog(Records(entries[..m]), bytes != whole, false))
            && StrictRead(c, bytes, cipher, context) == (if bytes == whole then Ok(Records(entries[..m])) else Err(IncompleteTail))
  {
    CrashOpens(c, cipher, context, header, entries, m, bytes, true);
  }

  /** Reopening cuts exactly at the last committed boundary and resumes numbering there. */
  lemma CrashReopens(c: Crypto, cipher: Cipher, context: Context, header: Header, entries: seq<Entry>, m: nat, bytes: Bytes)
    requires LawfulAead(c) && AllFit(entries) && CheckHeader(header) == None
    requires Torn(c, LogKey(c, cipher.current.key, header, Aad(cipher, context)), header, entries, m, bytes)
    ensures var key := LogKey(c, cipher.current.key, header, Aad(cipher, context));
            var reopened := Reopened(c, bytes, cipher, context);
            && reopened.Ok?
            && reopened.value.0.header == header && reopened.value.0.key == key
            && reopened.value.1 == LogState(Image(c, key, header, entries[..m]), m)
  {
    var key := LogKey(c, cipher.current.key, header, Aad(cipher, context));
    CrashOpens(c, cipher, context, header, entries, m, bytes, false);
    CountAgreesWithScan(c, key, header, entries[..m]);
    assert bytes[..|Image(c, key, header, entries[..m])|] == Image(c, key, header, entries[..m]);
  }

  datatype Step = Append(entry: Entry) | CrashAndReopen(survives: Bytes, whole: nat)

  /** The records a history leaves in the log. */
  function Expected(steps: seq<Step>): (entries: seq<Entry>)
    ensures AllFit(entries)
  {
    if steps == [] then []
    else
      var before := Expected(steps[..|steps| - 1]);
      match steps[|steps| - 1]
      case Append(entry) => if Fits(entry.record) then before + [entry] else before
      case CrashAndReopen(_, whole) => if whole <= |before| then before[..whole] else before
  }

  /** Every crash leaves something a crash can leave. */
  ghost predicate Legal(c: Crypto, key: Key, header: Header, steps: seq<Step>) {
    steps != [] ==>
      && Legal(c, key, header, steps[..|steps| - 1])
      && var last := steps[|steps| - 1];
         last.CrashAndReopen? ==> Torn(c, key, header, Expected(steps[..|steps| - 1]), last.whole, last.survives)
  }

  /** Run a history with the code's own append and reopen. */
  function Run(c: Crypto, cipher: Cipher, context: Context, header: Header, steps: seq<Step>): Result<LogState, LogError> {
    if steps == [] then Ok(LogState(header, 0))
    else match Run(c, cipher, context, header, steps[..|steps| - 1])
      case Err(error) => Err(error)
      case Ok(s) =>
        match steps[|steps| - 1]
        case Append(entry) => Ok(Appended(c, LogKey(c, cipher.current.key, header, Aad(cipher, context)), header, s, entry))
        case CrashAndReopen(survives, _) =>
          match Reopened(c, survives, cipher, context)
          case Err(error) => Err(error)
          case Ok(reopened) => Ok(reopened.1)
  }

  lemma {:induction false} HistoryState(c: Crypto, cipher: Cipher, context: Context, header: Header, steps: seq<Step>)
    requires LawfulAead(c) && CheckHeader(header) == None
    requires Legal(c, LogKey(c, cipher.current.key, header, Aad(cipher, context)), header, steps)
    ensures var entries := Expected(steps);
            Run(c, cipher, context, header, steps)
            == Ok(LogState(Image(c, LogKey(c, cipher.current.key, header, Aad(cipher, context)), header, entries), |entries|))
  {
    if steps != [] {
      hide LawfulAead, CheckHeader, Torn, Reopened, Frame, LogKey;
      var init := steps[..|steps| - 1];
      HistoryState(c, cipher, context, header, init);
      var before := Expected(init);
      match steps[|steps| - 1] {
        case Append(entry) =>
          assert (before + [entry])[..|before|] == before;
        case CrashAndReopen(survives, whole) =>
          CrashReopens(c, cipher, context, header, before, whole, survives);
      }
    }
  }

  /**
    Every history of creating, appending, crashing and reopening ends with the
    committed records followed by the later appends: nothing committed is lost,
    nothing torn reappears, and a strict read returns exactly those records.
   */
  lemma HistoryReadsBack(c: Crypto, cipher: Cipher, context: Context, header: Header, steps: seq<Step>)
    requires LawfulAead(c) && CheckHeader(header) == None
    requires Legal(c, LogKey(c, cipher.current.key, header, Aad(cipher, context)), header, steps)
    ensures var end := Run(c, cipher, context, header, steps);
            && end.Ok? && end.value.next == |Expected(steps)|
            && StrictRead(c, end.value.bytes, cipher, context) == Ok(Records(Expected(steps)))
  {
    var key := LogKey(c, cipher.current.key, header, Aad(cipher, context));
    var entries := Expected(steps);
    HistoryState(c, cipher, context, header, steps);
    assert entries[..|entries|] == entries;
    CrashRecovers(c, cipher, context, header, entries, |entries|, Image(c, key, header, entries));
  }

  // ── Appending after an append that failed ──────────────────────────────────

  /** What the frames of these records take. */
  function FramesSize(records: seq<Bytes>): nat {
    if records == [] then 0 else FramesSize(records[..|records| - 1]) + 4 + NONCE_LEN + |records[|records| - 1]| + TAG_LEN
  }

  lemma FramesSizeMore(records: seq<Bytes>, record: Bytes)
    ensures FramesSize(records + [record]) == FramesSize(records) + 4 + NONCE_LEN + |record| + TAG_LEN
  {
    assert (records + [record])[..|records|] == records;
  }

  /** Under any key, the records a scan returns take up exactly what it accepted. */
  lemma {:induction false} ScanTakes(c: Crypto, bytes: Bytes, header: Header, key: Key, position: nat, index: nat, records: seq<Bytes>)
    requires StripsTag(c) && position <= |bytes| && position == HEADER_LEN + FramesSize(records)
    ensures var scan := ScanFrom(c, bytes, header, key, true, position, index, records);
      scan.Ok? ==> scan.value.committedEnd == HEADER_LEN + FramesSize(scan.value.records)
    decreases |bytes| - position
  {
    hide ScanFrom, FramesSize, FromBigEndian;
    var next := NextRecord(c, bytes, header, key, position, index);
    if next.Some? {
      var (end, plain) := next.value;
      FramesSizeMore(records, plain);
      ScanTakes(c, bytes, header, key, end, index + 1, records + [plain]);
    }
  }

  lemma {:induction false} OpenTakes(c: Crypto, bytes: Bytes, header: Header, aad: Bytes, keys: seq<(ContentKey, bool)>, firstError: Option<LogError>)
    requires StripsTag(c) && |bytes| >= HEADER_LEN
    ensures var log := OpenWith(c, bytes, header, aad, true, keys, firstError);
      log.Ok? ==> log.value.scan.committedEnd == HEADER_LEN + FramesSize(log.value.scan.records)
  {
    assert FramesSize([]) == 0;
    hide ScanFrom, FramesSize;
    if keys != [] {
      ScanTakes(c, bytes, header, LogKey(c, keys[0].0.key, header, aad), HEADER_LEN, 0, []);
      OpenTakes(c, bytes, header, aad, keys[1..], firstError);
      var scanned := ScanAll(c, bytes, header, LogKey(c, keys[0].0.key, header, aad), true);
      if scanned.Err? {
        OpenTakes(c, bytes, header, aad, keys[1..], if firstError.Some? then firstError else Some(scanned.error));
      }
    }
  }

  lemma StrictTakes(c: Crypto, bytes: Bytes, cipher: Cipher, context: Context)
    requires StripsTag(c)
    ensures var read := StrictRead(c, bytes, cipher, context); read.Ok? ==> |bytes| == HEADER_LEN + FramesSize(read.value)
  {
    hide OpenWith, FramesSize, CheckHeader;
    if |bytes| >= HEADER_LEN {
      OpenTakes(c, bytes, bytes[..HEADER_LEN], Aad(cipher, context), Candidates(cipher), None);
    }
  }

  lemma {:induction false} ImageSize(c: Crypto, key: Key, header: Header, entries: seq<Entry>)
    requires TagLength(c)
    ensures |Image(c, key, header, entries)| == HEADER_LEN + FramesSize(Records(entries))
  {
    if entries != [] {
      var n := |entries| - 1;
      ImageSize(c, key, header, entries[..n]);
      assert Records(entries) == Records(entries[..n]) + [entries[n].record];
      FramesSizeMore(Records(entries[..n]), entries[n].record);
    }
  }

  /**
    A writer can be used again after an append that failed: what it appends next
    stands behind the part left over. A strict read then returns the committed
    records and the new one if and only if nothing was left over.
   */
  lemma RetriedAppendReadsBackIff(c: Crypto, cipher: Cipher, context: Context, header: Header, entries: seq<Entry>, failed: Entry, written: nat, next: Entry)
    requires LawfulAead(c) && StripsTag(c) && AllFit(entries) && Fits(failed.record) && Fits(next.record) && CheckHeader(header) == None
    requires written < |Frame(c, LogKey(c, cipher.current.key, header, Aad(cipher, context)), header, |entries|, failed)|
    ensures var key := LogKey(c, cipher.current.key, header, Aad(cipher, context));
      var committed := LogState(Image(c, key, header, entries), |entries|);
      var retried := Appended(c, key, header, AppendedPart(c, key, header, committed, failed, written), next);
      StrictRead(c, retried.bytes, cipher, context) == Ok(Records(entries) + [next.record]) <==> written == 0
  {
    assert TagLength(c);
    hide Frame, StrictRead, LawfulAead, CheckHeader, Torn, AllFit, FramesSize, Recovered;
    var key := LogKey(c, cipher.current.key, header, Aad(cipher, context));
    var whole := entries + [next];
    WholeLog(c, key, header, entries, next);
    StrictTakes(c, Image(c, key, header, entries) + Frame(c, key, header, |entries|, failed)[..written] + Frame(c, key, header, |entries|, next), cipher, context);
    ImageSize(c, key, header, whole);
    if written == 0 {
      var bytes := Image(c, key, header, whole);
      assert Image(c, key, header, entries) + Frame(c, key, header, |entries|, failed)[..0] == Image(c, key, header, entries);
      CrashRecovers(c, cipher, context, header, whole, |whole|, bytes);
    }
  }

  lemma WholeLog(c: Crypto, key: Key, header: Header, entries: seq<Entry>, next: Entry)
    requires AllFit(entries) && Fits(next.record)
    ensures var whole := entries + [next];
      && AllFit(whole) && Records(whole) == Records(entries) + [next.record] && whole[..|whole|] == whole
      && Image(c, key, header, whole) == Image(c, key, header, entries) + Frame(c, key, header, |entries|, next)
      && Torn(c, key, header, whole, |whole|, Image(c, key, header, whole))
  {
    hide Frame;
    var whole := entries + [next];
    assert whole[..|entries|] == entries && whole[..|whole|] == whole;
  }

  // ── Logs written under a retired key ───────────────────────────────────────

  lemma WrongKeyScan(c: Crypto, wrong: Key, key: Key, header: Header, entries: seq<Entry>, m: nat, bytes: Bytes, keep: bool)
    requires LawfulAead(c) && AllFit(entries) && Torn(c, key, header, entries, m, bytes) && m > 0
    requires c.open(wrong, entries[0].nonce, RecordAad(header, 0), c.seal(key, entries[0].nonce, RecordAad(header, 0), entries[0].record)).None?
    ensures |bytes| >= HEADER_LEN
    ensures var scan := ScanAll(c, bytes, header, wrong, keep);
            scan.Ok? ==> scan.value.tail == FinalFailed && scan.value.committedEnd == HEADER_LEN
  {
    assert entries[..0] == [];
    assert entries[..m][..1] == entries[..1];
    ImagePrefix(c, key, header, entries[..m], 1);
    FrameAt(c, key, header, entries, 0, bytes);
  }

  lemma {:induction false} SkipsWrongKeys(c: Crypto, aad: Bytes, header: Header, keys: seq<(ContentKey, bool)>, at: nat, entries: seq<Entry>, m: nat, bytes: Bytes, keep: bool, firstError: Option<LogError>)
    requires LawfulAead(c) && AllFit(entries) && at < |keys| && m > 0
    requires var key := LogKey(c, keys[at].0.key, header, aad);
             && Torn(c, key, header, entries, m, bytes)
             && forall i :: 0 <= i < at ==>
                  c.open(LogKey(c, keys[i].0.key, header, aad), entries[0].nonce, RecordAad(header, 0),
                         c.seal(key, entries[0].nonce, RecordAad(header, 0), entries[0].record)).None?
    ensures |bytes| >= HEADER_LEN
    ensures var key := LogKey(c, keys[at].0.key, header, aad);
            var whole := Image(c, key, header, entries[..m]);
            OpenWith(c, bytes, header, aad, keep, keys, firstError)
            == Ok(OpenedLog(header, key, keys[at].1,
                            Scan(if keep then Records(entries[..m]) else [], |whole|, if bytes == whole then Clean else Short)))
    decreases at
  {
    var key := LogKey(c, keys[at].0.key, header, aad);
    ScanRecovers(c, key, header, entries, m, bytes, keep);
    if at > 0 {
      var wrong := LogKey(c, keys[0].0.key, header, aad);
      WrongKeyScan(c, wrong, key, header, entries, m, bytes, keep);
      var scan := ScanAll(c, bytes, header, wrong, keep);
      var error := if scan.Err? && firstError.None? then Some(scan.error) else firstError;
      assert forall i :: 0 <= i < at - 1 ==> keys[1..][i] == keys[i + 1];
      SkipsWrongKeys(c, aad, header, keys[1..], at - 1, entries, m, bytes, keep, error);
    }
  }

  /**
    A log written under a retired key, after any crash: it is recovered in full
    and flagged for resealing if and only if at least one whole record survived.
    With none, no key can be told wrong, so the current key takes the log over:
    reopening for append succeeds exactly then.
   */
  lemma RetiredLogOpens(c: Crypto, cipher: Cipher, context: Context, header: Header, at: nat, entries: seq<Entry>, m: nat, bytes: Bytes)
    requires LawfulAead(c) && AllFit(entries) && CheckHeader(header) == None && at < |cipher.retired|
    requires var aad := Aad(cipher, context);
             var key := LogKey(c, cipher.retired[at].key, header, aad);
             && Torn(c, key, header, entries, m, bytes)
             && (m > 0 ==> forall i :: 0 <= i <= at ==>
                  c.open(LogKey(c, Candidates(cipher)[i].0.key, header, aad), entries[0].nonce, RecordAad(header, 0),
                         c.seal(key, entries[0].nonce, RecordAad(header, 0), entries[0].record)).None?)
    ensures var key := LogKey(c, cipher.retired[at].key, header, Aad(cipher, context));
            Recovered(c, bytes, cipher, context)
            == Ok(RecoveredLog(Records(entries[..m]), bytes != Image(c, key, header, entries[..m]), m > 0))
    ensures Reopened(c, bytes, cipher, context).Ok? <==> m == 0
    ensures m == 0 ==> Reopened(c, bytes, cipher, context).value.1 == LogState(header, 0)
  {
    var aad := Aad(cipher, context);
    var key := LogKey(c, cipher.retired[at].key, header, aad);
    var whole := Image(c, key, header, entries[..m]);
    assert header <= whole <= bytes;
    assert bytes[..HEADER_LEN] == header;
    if m > 0 {
      SkipsWrongKeys(c, aad, header, Candidates(cipher), at + 1, entries, m, bytes, true, None);
      SkipsWrongKeys(c, aad, header, Candidates(cipher), at + 1, entries, m, bytes, false, None);
    } else {
      NoWholeRecord(c, LogKey(c, cipher.current.key, header, aad), key, header, entries, bytes, true);
      NoWholeRecord(c, LogKey(c, cipher.current.key, header, aad), key, header, entries, bytes, false);
      assert entries[..0] == [];
    }
  }

  /** With no whole record in the file, every key reads an empty log. */
  lemma NoWholeRecord(c: Crypto, any: Key, key: Key, header: Header, entries: seq<Entry>, bytes: Bytes, keep: bool)
    requires LawfulAead(c) && AllFit(entries) && Torn(c, key, header, entries, 0, bytes)
    ensures |bytes| >= HEADER_LEN
    ensures ScanAll(c, bytes, header, any, keep) == Ok(Scan([], HEADER_LEN, if bytes == header then Clean else Short))
  {
    assert entries[..0] == [];
    if |bytes| >= HEADER_LEN + 4 {
      var size := bytes[HEADER_LEN..HEADER_LEN + 4];
      if AllZero(bytes[HEADER_LEN..]) {
        assert forall k :: 0 <= k < 4 ==> size[k] == bytes[HEADER_LEN..][k];
        ZeroLength(size);
      } else {
        ImageSnoc(c, key, header, entries, 0);
        var next := Image(c, key, header, entries[..1]);
        var body := Body(c, key, header, 0, entries[0]);
        assert next[HEADER_LEN..HEADER_LEN + 4] == BigEndian(|body|, 4);
        SliceOfPrefix(bytes, next, HEADER_LEN, HEADER_LEN + 4);
        Widths();
        DecodesBigEndian(|body|, 4);
      }
    }
  }
}
