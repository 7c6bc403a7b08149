/**
  What a scan of a sealed log answers, told by the bytes alone: the frames it
  walks over and how the walk ends. A torn tail is told apart from damage.
 */
module SealedLogScans {
  import opened Wrappers
  import opened ByteStrings
  import opened ContentContexts
  import opened ContentCiphers
  import opened SealedLogFormat
  import opened SealedLogs

  // ── The walk ───────────────────────────────────────────────────────────────

  /** The length at `start` is one that a record may have. */
  predicate LengthAt(bytes: Bytes, start: nat, size: nat) {
    start + 4 <= |bytes| && FromBigEndian(bytes[start..start + 4]) == size && 28 <= size <= 0x100_0000
  }

  /** A frame that is there in full. */
  predicate FrameThere(bytes: Bytes, start: nat, end: nat) {
    start + 4 <= end <= |bytes| && LengthAt(bytes, start, end - start - 4)
  }

  /** What the frame's body opens to as the record of this index. */
  function OpenedFrame(c: Crypto, bytes: Bytes, header: Header, key: Key, index: nat, start: nat, end: nat): Option<Bytes>
    requires FrameThere(bytes, start, end)
  {
    c.open(key, bytes[start + 4..start + 16], RecordAad(header, index), bytes[start + 16..end])
  }

  predicate FrameOpens(c: Crypto, bytes: Bytes, header: Header, key: Key, index: nat, start: nat, end: nat, plain: Bytes) {
    FrameThere(bytes, start, end) && OpenedFrame(c, bytes, header, key, index, start, end) == Some(plain)
  }

  /** The frame is there in full and does not open as the record of its place. */
  predicate FrameFails(c: Crypto, bytes: Bytes, header: Header, key: Key, index: nat, start: nat, end: nat) {
    FrameThere(bytes, start, end) && OpenedFrame(c, bytes, header, key, index, start, end) == None
  }

  /** Frame after frame, each opening as the record of its place. */
  ghost predicate Walk(c: Crypto, bytes: Bytes, header: Header, key: Key, ends: seq<nat>, plains: seq<Bytes>) {
    && |ends| == |plains| + 1 && ends[0] == HEADER_LEN && ends[|plains|] <= |bytes|
    && forall i :: 0 <= i < |plains| ==> FrameOpens(c, bytes, header, key, i, ends[i], ends[i + 1], plains[i])
  }

  /** How a walk can end. */
  datatype Ending = AtEnd | LengthCut | ZeroFilled | BodyCut | LastFails | BadLength | Damaged

  ghost predicate EndsAs(c: Crypto, bytes: Bytes, header: Header, key: Key, index: nat, at: nat, e: Ending)
    requires at <= |bytes|
  {
    match e
    case AtEnd => at == |bytes|
    case LengthCut => at < |bytes| < at + 4
    case ZeroFilled => at + 4 <= |bytes| && forall i :: at <= i < |bytes| ==> bytes[i] == 0
    case BodyCut => exists size :: LengthAt(bytes, at, size) && |bytes| < at + 4 + size
    case LastFails => FrameFails(c, bytes, header, key, index, at, |bytes|)
    case BadLength => at + 4 <= |bytes| && (forall size :: !LengthAt(bytes, at, size)) && exists i :: at <= i < |bytes| && bytes[i] != 0
    case Damaged => exists end: nat :: end < |bytes| && FrameFails(c, bytes, header, key, index, at, end)
  }

  /** What a scan answers for a walk that ended so: a torn tail only when nothing whole is left behind but a last record that fails. */
  function Answer(plains: seq<Bytes>, keep: bool, at: nat, e: Ending): Result<Scan, LogError> {
    var records := if keep then plains else [];
    match e
    case AtEnd => Ok(Scan(records, at, Clean))
    case LastFails => Ok(Scan(records, at, FinalFailed))
    case BadLength => Err(InvalidLength(|plains|))
    case Damaged => Err(CorruptRecord(|plains|))
    case _ => Ok(Scan(records, at, Short))
  }

  lemma ZerosFrom(bytes: Bytes, at: nat)
    requires at <= |bytes|
    ensures AllZero(bytes[at..]) <==> forall i :: at <= i < |bytes| ==> bytes[i] == 0
  {
    if AllZero(bytes[at..]) {
      forall i | at <= i < |bytes| ensures bytes[i] == 0 {
        assert bytes[at..][i - at] == bytes[i];
      }
    }
  }

  lemma BodyParts(bytes: Bytes, start: nat, end: nat)
    requires start + 16 <= end <= |bytes|
    ensures bytes[start + 4..end][..NONCE_LEN] == bytes[start + 4..start + 16] && bytes[start + 4..end][NONCE_LEN..] == bytes[start + 16..end]
  {
  }

  lemma ZeroSize(bytes: Bytes, at: nat)
    requires at + 4 <= |bytes| && forall i :: at <= i < |bytes| ==> bytes[i] == 0
    ensures U32(bytes[at..at + 4]) == 0
  {
    ZeroLength(bytes[at..at + 4]);
  }

  /** The scan goes on over a frame that opens. */
  lemma WalksOn(c: Crypto, bytes: Bytes, header: Header, key: Key, keep: bool, start: nat, end: nat, index: nat, records: seq<Bytes>, plain: Bytes)
    requires FrameOpens(c, bytes, header, key, index, start, end, plain)
    ensures ScanFrom(c, bytes, header, key, keep, start, index, records)
         == ScanFrom(c, bytes, header, key, keep, end, index + 1, if keep then records + [plain] else records)
  {
    hide RecordAad, FromBigEndian;
    BodyParts(bytes, start, end);
  }

  lemma StopsHere(c: Crypto, bytes: Bytes, header: Header, key: Key, keep: bool, at: nat, plains: seq<Bytes>, e: Ending)
    requires at <= |bytes| && EndsAs(c, bytes, header, key, |plains|, at, e)
    ensures ScanFrom(c, bytes, header, key, keep, at, |plains|, if keep then plains else []) == Answer(plains, keep, at, e)
  {
    hide RecordAad, FromBigEndian, AllZero;
    ZerosFrom(bytes, at);
    match e {
      case ZeroFilled => ZeroSize(bytes, at);
      case LastFails => BodyParts(bytes, at, |bytes|);
      case Damaged =>
        var end: nat :| end < |bytes| && FrameFails(c, bytes, header, key, |plains|, at, end);
        BodyParts(bytes, at, end);
      case BadLength =>
        assert !LengthAt(bytes, at, U32(bytes[at..at + 4]));
      case _ =>
    }
  }

  lemma {:induction false} ScanFollows(c: Crypto, bytes: Bytes, header: Header, key: Key, keep: bool, ends: seq<nat>, plains: seq<Bytes>, i: nat)
    requires |bytes| >= HEADER_LEN && Walk(c, bytes, header, key, ends, plains) && i <= |plains|
    ensures ends[i] <= |bytes|
    ensures ScanAll(c, bytes, header, key, keep) == ScanFrom(c, bytes, header, key, keep, ends[i], i, if keep then plains[..i] else [])
  {
    hide ScanFrom, OpenedFrame;
    if i > 0 {
      ScanFollows(c, bytes, header, key, keep, ends, plains, i - 1);
      assert FrameOpens(c, bytes, header, key, i - 1, ends[i - 1], ends[i - 1 + 1], plains[i - 1]);
      WalksOn(c, bytes, header, key, keep, ends[i - 1], ends[i], i - 1, if keep then plains[..i - 1] else [], plains[i - 1]);
      assert plains[..i] == plains[..i - 1] + [plains[i - 1]];
    }
  }

  /** For all bytes: if the walk over the frames ends so, the scan answers so. */
  lemma ScanAnswers(c: Crypto, bytes: Bytes, header: Header, key: Key, keep: bool, ends: seq<nat>, plains: seq<Bytes>, e: Ending)
    requires |bytes| >= HEADER_LEN && Walk(c, bytes, header, key, ends, plains)
    requires EndsAs(c, bytes, header, key, |plains|, ends[|plains|], e)
    ensures ScanAll(c, bytes, header, key, keep) == Answer(plains, keep, ends[|plains|], e)
  {
    hide ScanFrom, EndsAs, FrameOpens;
    ScanFollows(c, bytes, header, key, keep, ends, plains, |plains|);
    StopsHere(c, bytes, header, key, keep, ends[|plains|], plains, e);
    assert plains[..|plains|] == plains;
  }

  /** Every file has such a walk. */
  lemma {:induction false} WalkFrom(c: Crypto, bytes: Bytes, header: Header, key: Key, start: seq<nat>, read: seq<Bytes>)
    returns (ends: seq<nat>, plains: seq<Bytes>, e: Ending)
    requires Walk(c, bytes, header, key, start, read)
    ensures Walk(c, bytes, header, key, ends, plains) && EndsAs(c, bytes, header, key, |plains|, ends[|plains|], e)
    decreases |bytes| - start[|read|]
  {
    hide FrameOpens, EndsAs;
    var at, n := start[|read|], |read|;
    var end := FrameEnd(c, bytes, header, key, n, at);
    if end.Some? {
      assert FrameOpens(c, bytes, header, key, n, at, end.value.0, end.value.1);
      var more, plain := start + [end.value.0], read + [end.value.1];
      forall i | 0 <= i < |plain| ensures FrameOpens(c, bytes, header, key, i, more[i], more[i + 1], plain[i]) {
        if i < n {
          assert FrameOpens(c, bytes, header, key, i, start[i], start[i + 1], read[i]);
        }
      }
      ends, plains, e := WalkFrom(c, bytes, header, key, more, plain);
    } else {
      ends, plains := start, read;
      e := SomeEnding(c, bytes, header, key, n, at);
    }
  }

  /** Where the frame at `at` ends and what it opens to, if it does. */
  function FrameEnd(c: Crypto, bytes: Bytes, header: Header, key: Key, index: nat, at: nat): (r: Option<(nat, Bytes)>)
    requires at <= |bytes|
    ensures r.Some? ==> at < r.value.0 <= |bytes| && FrameOpens(c, bytes, header, key, index, at, r.value.0, r.value.1)
    ensures r.None? ==> forall end, plain :: !FrameOpens(c, bytes, header, key, index, at, end, plain)
  {
    if at + 4 > |bytes| then None
    else
      var end := at + 4 + FromBigEndian(bytes[at..at + 4]);
      if !FrameThere(bytes, at, end) then None
      else match OpenedFrame(c, bytes, header, key, index, at, end)
        case Some(plain) => Some((end, plain))
        case None => None
  }

  lemma SomeEnding(c: Crypto, bytes: Bytes, header: Header, key: Key, index: nat, at: nat) returns (e: Ending)
    requires at <= |bytes| && FrameEnd(c, bytes, header, key, index, at).None?
    ensures EndsAs(c, bytes, header, key, index, at, e)
  {
    hide FromBigEndian, RecordAad;
    if at == |bytes| {
      e := AtEnd;
    } else if |bytes| < at + 4 {
      e := LengthCut;
    } else {
      var size := FromBigEndian(bytes[at..at + 4]);
      if !(28 <= size <= 0x100_0000) {
        e := if forall i :: at <= i < |bytes| ==> bytes[i] == 0 then ZeroFilled else BadLength;
      } else if |bytes| < at + 4 + size {
        assert LengthAt(bytes, at, size);
        e := BodyCut;
      } else {
        assert FrameFails(c, bytes, header, key, index, at, at + 4 + size);
        e := if at + 4 + size == |bytes| then LastFails else Damaged;
      }
    }
  }

  // ── When a log is refused ──────────────────────────────────────────────────

  /** Under this key the walk comes to a length no record has, to a whole record that fails with more behind it, or fails at a first and only record. */
  ghost predicate Refused(c: Crypto, bytes: Bytes, header: Header, key: Key) {
    exists ends, plains, e ::
      Walk(c, bytes, header, key, ends, plains) && EndsAs(c, bytes, header, key, |plains|, ends[|plains|], e)
      && (e.BadLength? || e.Damaged? || (e.LastFails? && plains == []))
  }

  lemma RefusedIff(c: Crypto, bytes: Bytes, header: Header, key: Key, keep: bool)
    requires |bytes| >= HEADER_LEN
    ensures var scan := ScanAll(c, bytes, header, key, keep);
      Refused(c, bytes, header, key) <==> scan.Err? || (scan.value.tail == FinalFailed && scan.value.committedEnd == HEADER_LEN)
  {
    hide ScanAll, EndsAs;
    var ends, plains, e := WalkFrom(c, bytes, header, key, [HEADER_LEN], []);
    ScanAnswers(c, bytes, header, key, keep, ends, plains, e);
    Advances(c, bytes, header, key, ends, plains);
    if Refused(c, bytes, header, key) {
      var ends', plains', e' :|
        Walk(c, bytes, header, key, ends', plains') && EndsAs(c, bytes, header, key, |plains'|, ends'[|plains'|], e')
        && (e'.BadLength? || e'.Damaged? || (e'.LastFails? && plains' == []));
      ScanAnswers(c, bytes, header, key, keep, ends', plains', e');
    }
  }

  lemma Advances(c: Crypto, bytes: Bytes, header: Header, key: Key, ends: seq<nat>, plains: seq<Bytes>)
    requires Walk(c, bytes, header, key, ends, plains)
    ensures plains != [] ==> ends[|plains|] > HEADER_LEN
  {
    if plains != [] {
      AdvancesTo(c, bytes, header, key, ends, plains, |plains|);
    }
  }

  lemma {:induction false} AdvancesTo(c: Crypto, bytes: Bytes, header: Header, key: Key, ends: seq<nat>, plains: seq<Bytes>, i: nat)
    requires Walk(c, bytes, header, key, ends, plains) && 0 < i <= |plains|
    ensures ends[i] > HEADER_LEN
  {
    assert FrameOpens(c, bytes, header, key, i - 1, ends[i - 1], ends[i - 1 + 1], plains[i - 1]);
    if i > 1 {
      AdvancesTo(c, bytes, header, key, ends, plains, i - 1);
    }
  }

  lemma {:induction false} OpenWithIff(c: Crypto, bytes: Bytes, header: Header, aad: Bytes, keep: bool, keys: seq<(ContentKey, bool)>, firstError: Option<LogError>)
    requires |bytes| >= HEADER_LEN
    ensures OpenWith(c, bytes, header, aad, keep, keys, firstError).Err?
       <==> forall n :: 0 <= n < |keys| ==> Refused(c, bytes, header, LogKey(c, keys[n].0.key, header, aad))
  {
    hide ScanAll, Refused, LogKey;
    if keys != [] {
      RefusedIff(c, bytes, header, LogKey(c, keys[0].0.key, header, aad), keep);
      var scan := ScanAll(c, bytes, header, LogKey(c, keys[0].0.key, header, aad), keep);
      OpenWithIff(c, bytes, header, aad, keep, keys[1..], firstError);
      OpenWithIff(c, bytes, header, aad, keep, keys[1..], if firstError.Some? || scan.Ok? then firstError else Some(scan.error));
      assert forall n :: 0 < n < |keys| ==> keys[n] == keys[1..][n - 1];
      assert forall n :: 0 <= n < |keys[1..]| ==> keys[1..][n] == keys[n + 1];
    }
  }

  lemma {:induction false} SameKeyOpens(c: Crypto, bytes: Bytes, header: Header, aad: Bytes, keys: seq<(ContentKey, bool)>, e: Option<LogError>, f: Option<LogError>)
    requires |bytes| >= HEADER_LEN
    ensures var kept, counted := OpenWith(c, bytes, header, aad, true, keys, e), OpenWith(c, bytes, header, aad, false, keys, f);
      kept.Ok? && counted.Ok? ==> kept.value.retired == counted.value.retired
  {
    hide ScanAll, LogKey;
    if keys != [] {
      var key := LogKey(c, keys[0].0.key, header, aad);
      RefusedIff(c, bytes, header, key, true);
      RefusedIff(c, bytes, header, key, false);
      var kept, counted := ScanAll(c, bytes, header, key, true), ScanAll(c, bytes, header, key, false);
      SameKeyOpens(c, bytes, header, aad, keys[1..], if e.Some? || kept.Ok? then e else Some(kept.error), if f.Some? || counted.Ok? then f else Some(counted.error));
    }
  }

  /** `RYU-SL01`, version 1, three zeros. */
  predicate StartsAsLog(bytes: Bytes) {
    |bytes| >= HEADER_LEN && bytes[..8] == Ascii("RYU-SL01") && bytes[8] == 1 && bytes[9] == 0 && bytes[10] == 0 && bytes[11] == 0
  }

  lemma StartsAsLogIff(bytes: Bytes)
    requires |bytes| >= HEADER_LEN
    ensures StartsAsLog(bytes) <==> CheckHeader(bytes[..HEADER_LEN]) == None
  {
    var header := bytes[..HEADER_LEN];
    assert header[..8] == bytes[..8] && header[10..12] == [bytes[10], bytes[11]];
  }

  /** The bytes are no sealed log at all, or every candidate key refuses them. */
  ghost predicate LogRefused(c: Crypto, bytes: Bytes, cipher: Cipher, context: Context) {
    StartsAsLog(bytes) ==>
    var header := bytes[..HEADER_LEN];
    forall n :: 0 <= n < |Candidates(cipher)| ==> Refused(c, bytes, header, LogKey(c, Candidates(cipher)[n].0.key, header, Aad(cipher, context)))
  }

  lemma NoShortLog(bytes: Bytes)
    ensures StartsAsLog(bytes) ==> |bytes| >= HEADER_LEN
  {
  }

  /** For all bytes: recovering and reopening a log err exactly then, and a strict read also on a torn tail. */
  lemma LogRefusedIff(c: Crypto, bytes: Bytes, cipher: Cipher, context: Context)
    ensures Recovered(c, bytes, cipher, context).Err? <==> LogRefused(c, bytes, cipher, context)
    ensures LogRefused(c, bytes, cipher, context) ==> StrictRead(c, bytes, cipher, context).Err? && Reopened(c, bytes, cipher, context).Err?
    ensures !LogRefused(c, bytes, cipher, context) ==>
      && (StrictRead(c, bytes, cipher, context).Err? <==> Recovered(c, bytes, cipher, context).value.tornTail)
      && (Reopened(c, bytes, cipher, context).Err? <==> Recovered(c, bytes, cipher, context).value.needsReseal)
  {
    hide OpenWith, CheckHeader, StartsAsLog, Refused, LogKey;
    if |bytes| >= HEADER_LEN {
      StartsAsLogIff(bytes);
    }
    assert StartsAsLog(bytes) ==> |bytes| >= HEADER_LEN by { NoShortLog(bytes); }
    if StartsAsLog(bytes) {
      var header: Header := bytes[..HEADER_LEN];
      OpenWithIff(c, bytes, header, Aad(cipher, context), true, Candidates(cipher), None);
      OpenWithIff(c, bytes, header, Aad(cipher, context), false, Candidates(cipher), None);
      SameKeyOpens(c, bytes, header, Aad(cipher, context), Candidates(cipher), None, None);
    }
  }

  // ── Damage inside a log ────────────────────────────────────────────────────

  /** The bytes have the shape of one frame. */
  predicate FrameShaped(frame: Bytes) {
    |frame| >= 32 && FromBigEndian(frame[..4]) == |frame| - 4 && |frame| - 4 <= MAX_RECORD_BODY
  }

  /** The key does not open this frame as the record of this index. */
  predicate FailsAt(c: Crypto, key: Key, header: Header, index: nat, frame: Bytes)
    requires FrameShaped(frame)
  {
    c.open(key, frame[4..16], RecordAad(header, index), frame[16..]) == None
  }

  /** A log whose record `i` was replaced by `altered`, and what follows it. */
  function Altered(c: Crypto, key: Key, header: Header, entries: seq<Entry>, i: nat, altered: Bytes, rest: Bytes): Bytes
    requires i <= |entries|
  {
    Image(c, key, header, entries[..i]) + altered + rest
  }

  lemma ImageWalks(c: Crypto, key: Key, header: Header, entries: seq<Entry>, bytes: Bytes, i: nat) returns (ends: seq<nat>)
    requires LawfulAead(c) && AllFit(entries) && i <= |entries| && Image(c, key, header, entries[..i]) <= bytes
    ensures Walk(c, bytes, header, key, ends, Records(entries[..i])) && ends[i] == |Image(c, key, header, entries[..i])|
  {
    hide Image, Frame, RecordAad, FromBigEndian, Body, LawfulAead;
    ends := seq(i + 1, j requires 0 <= j <= i => |Image(c, key, header, entries[..j])|);
    assert entries[..0] == [];
    HeaderFirst(c, key, header);
    forall j | 0 <= j < i ensures FrameOpens(c, bytes, header, key, j, ends[j], ends[j + 1], Records(entries[..i])[j]) {
      assert entries[..i][..j + 1] == entries[..j + 1];
      ImagePrefix(c, key, header, entries[..i], j + 1);
      FrameOpensThere(c, key, header, entries, j, bytes);
    }
  }

  lemma HeaderFirst(c: Crypto, key: Key, header: Header)
    ensures |Image(c, key, header, [])| == HEADER_LEN
  {
  }

  lemma FrameOpensThere(c: Crypto, key: Key, header: Header, entries: seq<Entry>, j: nat, bytes: Bytes)
    requires LawfulAead(c) && AllFit(entries) && j < |entries| && Image(c, key, header, entries[..j + 1]) <= bytes
    ensures FrameOpens(c, bytes, header, key, j, |Image(c, key, header, entries[..j])|, |Image(c, key, header, entries[..j + 1])|, entries[j].record)
  {
    hide Image, RecordAad, FromBigEndian;
    FrameAt(c, key, header, entries, j, bytes);
    BodyParts(bytes, |Image(c, key, header, entries[..j])|, |Image(c, key, header, entries[..j + 1])|);
  }

  lemma FailsThere(c: Crypto, key: Key, header: Header, index: nat, before: Bytes, frame: Bytes, rest: Bytes)
    requires FrameShaped(frame) && FailsAt(c, key, header, index, frame)
    ensures FrameFails(c, before + frame + rest, header, key, index, |before|, |before| + |frame|)
  {
    hide RecordAad, FromBigEndian;
    var bytes := before + frame + rest;
    var at := |before|;
    assert bytes[at..at + 4] == frame[..4] && bytes[at + 4..at + 16] == frame[4..16] && bytes[at + 16..at + |frame|] == frame[16..];
  }

  lemma FailingRefuses(c: Crypto, bytes: Bytes, header: Header, key: Key, ends: seq<nat>, plains: seq<Bytes>, end: nat)
    requires Walk(c, bytes, header, key, ends, plains) && end < |bytes| && FrameFails(c, bytes, header, key, |plains|, ends[|plains|], end)
    ensures Refused(c, bytes, header, key)
  {
    hide FrameFails;
    assert EndsAs(c, bytes, header, key, |plains|, ends[|plains|], Damaged);
  }

  /**
    A record that does not open at its place, with anything behind it: whatever
    that is, recovery, a strict read and reopening refuse the log, provided no
    other candidate key opens its first record.
   */
  lemma DamagedRecordIsRefused(c: Crypto, cipher: Cipher, context: Context, header: Header, entries: seq<Entry>, i: nat, altered: Bytes, rest: Bytes)
    requires LawfulAead(c) && AllFit(entries) && CheckHeader(header) == None && i <= |entries| && rest != []
    requires FrameShaped(altered) && FailsAt(c, LogKey(c, cipher.current.key, header, Aad(cipher, context)), header, i, altered)
    requires var key := LogKey(c, cipher.current.key, header, Aad(cipher, context));
      forall n :: 0 < n < |Candidates(cipher)| ==>
        var other := LogKey(c, Candidates(cipher)[n].0.key, header, Aad(cipher, context));
        if i == 0 then FailsAt(c, other, header, 0, altered)
        else var first := Body(c, key, header, 0, entries[0]); c.open(other, first[..NONCE_LEN], RecordAad(header, 0), first[NONCE_LEN..]) == None
    ensures var bytes := Altered(c, LogKey(c, cipher.current.key, header, Aad(cipher, context)), header, entries, i, altered, rest);
      && LogRefused(c, bytes, cipher, context)
      && Recovered(c, bytes, cipher, context).Err? && StrictRead(c, bytes, cipher, context).Err? && Reopened(c, bytes, cipher, context).Err?
  {
    hide Image, Body, RecordAad, LogKey, CheckHeader, FailsAt, FrameFails, Refused, LawfulAead, FrameShaped;
    var key := LogKey(c, cipher.current.key, header, Aad(cipher, context));
    var before := Image(c, key, header, entries[..i]);
    var bytes := Altered(c, key, header, entries, i, altered, rest);
    assert before <= bytes && bytes[..HEADER_LEN] == header;
    FailsThere(c, key, header, i, before, altered, rest);
    var ends := ImageWalks(c, key, header, entries, bytes, i);
    FailingRefuses(c, bytes, header, key, ends, Records(entries[..i]), |before| + |altered|);
    var keys := Candidates(cipher);
    forall n | 0 <= n < |keys| ensures Refused(c, bytes, header, LogKey(c, keys[n].0.key, header, Aad(cipher, context))) {
      var other := LogKey(c, keys[n].0.key, header, Aad(cipher, context));
      if n == 0 {
        assert other == key;
      } else if i == 0 {
        assert entries[..0] == [];
        HeaderFirst(c, key, header);
        FailsThere(c, other, header, 0, before, altered, rest);
        FailingRefuses(c, bytes, header, other, [HEADER_LEN], [], |before| + |altered|);
      } else {
        FirstFailsToo(c, key, other, header, entries, i, bytes);
        FailingRefuses(c, bytes, header, other, [HEADER_LEN], [], |Image(c, key, header, entries[..1])|);
      }
    }
    LogRefusedIff(c, bytes, cipher, context);
  }

  lemma FirstFailsToo(c: Crypto, key: Key, other: Key, header: Header, entries: seq<Entry>, i: nat, bytes: Bytes)
    requires LawfulAead(c) && AllFit(entries) && 0 < i <= |entries| && Image(c, key, header, entries[..i]) <= bytes
    requires var first := Body(c, key, header, 0, entries[0]); c.open(other, first[..NONCE_LEN], RecordAad(header, 0), first[NONCE_LEN..]) == None
    ensures FrameFails(c, bytes, header, other, 0, HEADER_LEN, |Image(c, key, header, entries[..1])|)
    ensures |Image(c, key, header, entries[..1])| <= |Image(c, key, header, entries[..i])|
  {
    hide Image, RecordAad, FromBigEndian, Body;
    assert entries[..0] == [] && entries[..i][..1] == entries[..1];
    HeaderFirst(c, key, header);
    ImagePrefix(c, key, header, entries[..i], 1);
    FrameAt(c, key, header, entries, 0, bytes);
    BodyParts(bytes, HEADER_LEN, |Image(c, key, header, entries[..1])|);
  }

  /** A whole first record that fails refuses the log under this key, alone or not. */
  lemma FirstFrameFails(c: Crypto, bytes: Bytes, header: Header, key: Key, end: nat)
    requires FrameFails(c, bytes, header, key, 0, HEADER_LEN, end)
    ensures Refused(c, bytes, header, key)
  {
    hide OpenedFrame;
    assert Walk(c, bytes, header, key, [HEADER_LEN], []);
    assert EndsAs(c, bytes, header, key, 0, HEADER_LEN, if end == |bytes| then LastFails else Damaged);
  }
}
