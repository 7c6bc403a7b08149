/** Decoding a model's event stream: frames end at a blank line, wherever the transport cuts its chunks. */
module SseStreams {
  import opened Wrappers
  import opened ByteStrings
  import Text

  datatype ModelStreamEvent =
    | TextDelta(requestId: string, delta: string)
    | Completed(requestId: string)
    | Failed(requestId: string, code: string, message: string)

  datatype StreamError = NotUtf8 | NotJson | EndedEarly | Transport(message: string)

  type Item = Result<ModelStreamEvent, StreamError>

  /** What a frame's data is, as JSON: not JSON at all, an event, an error value, or anything else. */
  datatype Payload = Unparsed | Event(event: ModelStreamEvent) | ErrorValue | Other

  /** The foreign code: UTF-8 decoding and reading JSON. */
  datatype Codec = Codec(fromUtf8: Bytes -> Option<string>, json: string -> Payload)

  const LF: byte := 10

  // ── One frame ──────────────────────────────────────────────────────────────

  /** The first position of a blank line. */
  function FrameBoundary(buffer: Bytes): (r: Option<nat>)
    ensures r.Some? ==> r.value + 2 <= |buffer| && buffer[r.value] == LF && buffer[r.value + 1] == LF
    ensures r.Some? ==> forall i :: 0 <= i < r.value ==> !(buffer[i] == LF && buffer[i + 1] == LF)
    ensures r.None? ==> forall i :: 0 <= i < |buffer| - 1 ==> !(buffer[i] == LF && buffer[i + 1] == LF)
  {
    if |buffer| < 2 then None
    else if buffer[0] == LF && buffer[1] == LF then Some(0)
    else
      assert forall i :: 0 < i < |buffer| ==> buffer[i] == buffer[1..][i - 1];
      match FrameBoundary(buffer[1..])
      case Some(p) => Some(p + 1)
      case None => None
  }

  /** The first line, without its line ending, and what follows it. */
  function FirstLine(text: string): (r: (string, string))
    requires text != ""
    ensures |r.1| < |text|
  {
    if text[0] == '\n' then ("", text[1..])
    else if |text| == 1 then (text, "")
    else if text[0] == '\r' && text[1] == '\n' then ("", text[2..])
    else
      var rest := FirstLine(text[1..]);
      ([text[0]] + rest.0, rest.1)
  }

  /** The trimmed value of the first `data:` line. */
  function DataLine(text: string): string
    decreases |text|
  {
    if text == "" then ""
    else
      var (line, rest) := FirstLine(text);
      match Text.StripPrefix(line, "data:")
      case Some(value) => Text.Trim(value)
      case None => DataLine(rest)
  }

  function ParseFrame(c: Codec, frame: Bytes, requestId: string): Result<Option<ModelStreamEvent>, StreamError> {
    match c.fromUtf8(frame)
    case None => Err(NotUtf8)
    case Some(text) =>
      var data := DataLine(text);
      if data == "" then Ok(None)
      else if data == "[DONE]" then Ok(Some(Completed(requestId)))
      else match c.json(data)
        case Unparsed => Err(NotJson)
        case Event(event) => Ok(Some(event))
        case ErrorValue => Ok(Some(Failed(requestId, "providerError", "model stream failed")))
        case Other => Ok(None)
  }

  // ── What a frame says ──────────────────────────────────────────────────────

  /** Text without a line feed. */
  predicate OneLine(line: string) {
    forall i :: 0 <= i < |line| ==> line[i] != '\n'
  }

  /** Lines, each ended by a line feed. */
  function Lines(lines: seq<string>): string {
    if lines == [] then "" else lines[0] + "\n" + Lines(lines[1..])
  }

  /** Lines that are not data. */
  predicate NoData(lines: seq<string>) {
    forall i :: 0 <= i < |lines| ==> OneLine(lines[i]) && !("data:" <= lines[i])
  }

  function WithoutReturn(line: string): string {
    if line != "" && line[|line| - 1] == '\r' then line[..|line| - 1] else line
  }

  lemma {:induction false} FirstLineEnds(line: string, rest: string)
    requires OneLine(line)
    ensures FirstLine(line + "\n" + rest) == (WithoutReturn(line), rest)
    decreases |line|
  {
    var text := line + "\n" + rest;
    if line == "" {
      assert text[1..] == rest;
    } else if line == "\r" {
      assert text[0] == '\r' && text[1] == '\n' && text[2..] == rest;
    } else {
      assert text[1..] == line[1..] + "\n" + rest && text[0] == line[0] != '\n';
      assert text[1] == if |line| > 1 then line[1] else '\n';
      FirstLineEnds(line[1..], rest);
      assert |line| > 1 ==> [line[0]] + WithoutReturn(line[1..]) == WithoutReturn(line);
      assert |line| == 1 ==> line == [line[0]] + "" && WithoutReturn(line) == line && WithoutReturn(line[1..]) == "";
      assert FirstLine(text) == ([text[0]] + FirstLine(text[1..]).0, FirstLine(text[1..]).1);
    }
  }

  lemma {:induction false} LastLineEnds(line: string)
    requires OneLine(line) && line != ""
    ensures FirstLine(line) == (line, "")
    decreases |line|
  {
    if |line| > 1 {
      LastLineEnds(line[1..]);
      assert line[0] != '\n' && line[1] != '\n' && [line[0]] + line[1..] == line;
    }
  }

  lemma TrimDropsReturn(line: string)
    ensures Text.Trim(WithoutReturn(line)) == Text.Trim(line)
  {
    if line != "" && line[|line| - 1] == '\r' {
      Text.TrimSnoc(line[..|line| - 1], '\r');
      assert line == line[..|line| - 1] + ['\r'];
    }
  }

  /** The data is the trimmed value of the first line that starts with `data:`, however that line ends. */
  lemma {:induction false} DataLineIs(before: seq<string>, value: string, rest: string)
    requires NoData(before) && OneLine(value) && (rest == "" || rest[0] == '\n')
    ensures DataLine(Lines(before) + "data:" + value + rest) == Text.Trim(value)
    decreases |before|
  {
    var text := Lines(before) + "data:" + value + rest;
    if before == [] {
      var line := "data:" + value;
      if rest == "" {
        assert text == line;
        LastLineEnds(line);
      } else {
        assert text == line + "\n" + rest[1..];
        FirstLineEnds(line, rest[1..]);
        assert WithoutReturn(line) == "data:" + WithoutReturn(value);
      }
      assert (if rest == "" then line else "data:" + WithoutReturn(value))[5..] == if rest == "" then value else WithoutReturn(value);
      TrimDropsReturn(value);
    } else {
      var more := Lines(before[1..]) + "data:" + value + rest;
      assert text == before[0] + "\n" + more;
      FirstLineEnds(before[0], more);
      assert !("data:" <= WithoutReturn(before[0]));
      DataLineIs(before[1..], value, rest);
    }
  }

  /** With no such line, there is no data. */
  lemma {:induction false} NoDataLine(before: seq<string>, last: string)
    requires NoData(before) && OneLine(last) && !("data:" <= last)
    ensures DataLine(Lines(before) + last) == ""
    decreases |before|
  {
    if before == [] {
      assert Lines(before) + last == last;
      if last != "" {
        LastLineEnds(last);
      }
    } else {
      var more := Lines(before[1..]) + last;
      assert Lines(before) + last == before[0] + "\n" + more;
      FirstLineEnds(before[0], more);
      assert !("data:" <= WithoutReturn(before[0]));
      NoDataLine(before[1..], last);
    }
  }

  /** What a frame says, by the first line that starts with `data:`. */
  lemma FrameSays(c: Codec, frame: Bytes, before: seq<string>, value: string, rest: string, requestId: string)
    requires NoData(before) && OneLine(value) && (rest == "" || rest[0] == '\n')
    requires c.fromUtf8(frame) == Some(Lines(before) + "data:" + value + rest)
    ensures var data := Text.Trim(value); var says := ParseFrame(c, frame, requestId);
      && (data == "" ==> says == Ok(None))
      && (data == "[DONE]" ==> says == Ok(Some(Completed(requestId))))
      && (data != "" && data != "[DONE]" ==>
            && (c.json(data).Unparsed? <==> says == Err(NotJson))
            && (c.json(data).Event? ==> says == Ok(Some(c.json(data).event)))
            && (c.json(data).ErrorValue? ==> says == Ok(Some(Failed(requestId, "providerError", "model stream failed"))))
            && (c.json(data).Other? ==> says == Ok(None)))
  {
    hide DataLine, Text.Trim;
    DataLineIs(before, value, rest);
  }

  lemma FrameSaysNothing(c: Codec, frame: Bytes, before: seq<string>, last: string, requestId: string)
    ensures c.fromUtf8(frame) == None ==> ParseFrame(c, frame, requestId) == Err(NotUtf8)
    ensures NoData(before) && OneLine(last) && !("data:" <= last) && c.fromUtf8(frame) == Some(Lines(before) + last) ==>
      ParseFrame(c, frame, requestId) == Ok(None)
  {
    if NoData(before) && OneLine(last) && !("data:" <= last) {
      NoDataLine(before, last);
    }
  }

  predicate Terminal(item: Item) {
    item.Err? || item.value.Completed? || item.value.Failed?
  }

  // ── What a whole byte string means ─────────────────────────────────────────

  /** The items of the complete frames, up to the first terminal one, and whether there was one. */
  function Frames(c: Codec, bytes: Bytes, requestId: string): (seq<Item>, bool)
    decreases |bytes|
  {
    match FrameBoundary(bytes)
    case None => ([], false)
    case Some(p) =>
      match ParseFrame(c, bytes[..p], requestId)
      case Err(e) => ([Err(e)], true)
      case Ok(None) => Frames(c, bytes[p + 2..], requestId)
      case Ok(Some(event)) =>
        if Terminal(Ok(event)) then ([Ok(event)], true)
        else Before([Ok(event)], Frames(c, bytes[p + 2..], requestId))
  }

  function Before(items: seq<Item>, more: (seq<Item>, bool)): (seq<Item>, bool) {
    (items + more.0, more.1)
  }

  /** The items of a byte string that has ended. */
  function Decoded(c: Codec, bytes: Bytes, requestId: string): seq<Item> {
    var (items, ended) := Frames(c, bytes, requestId);
    if ended then items else items + [Err(EndedEarly)]
  }

  /** Exactly one item is terminal, and it is the last. */
  lemma {:induction false} OneTerminalLast(c: Codec, bytes: Bytes, requestId: string)
    ensures var (items, ended) := Frames(c, bytes, requestId);
      forall i :: 0 <= i < |items| ==> (Terminal(items[i]) <==> ended && i == |items| - 1)
    ensures Frames(c, bytes, requestId).1 ==> Frames(c, bytes, requestId).0 != []
    ensures var items := Decoded(c, bytes, requestId);
      items != [] && forall i :: 0 <= i < |items| ==> (Terminal(items[i]) <==> i == |items| - 1)
    decreases |bytes|
  {
    hide ParseFrame;
    if FrameBoundary(bytes).Some? {
      OneTerminalLast(c, bytes[FrameBoundary(bytes).value + 2..], requestId);
    }
  }

  lemma {:induction false} BoundaryIs(bytes: Bytes, p: nat)
    requires p + 2 <= |bytes| && bytes[p] == LF && bytes[p + 1] == LF
    requires forall i :: 0 <= i < p ==> !(bytes[i] == LF && bytes[i + 1] == LF)
    ensures FrameBoundary(bytes) == Some(p)
  {
    var r := FrameBoundary(bytes);
    assert r.Some?;
  }

  /** Bytes that arrive later do not move the first boundary, nor what the frame before it says. */
  lemma FirstFrameStands(c: Codec, buffer: Bytes, later: Bytes, requestId: string)
    requires FrameBoundary(buffer).Some?
    ensures FrameBoundary(buffer + later) == FrameBoundary(buffer)
    ensures var p := FrameBoundary(buffer).value;
      (buffer + later)[..p] == buffer[..p] && (buffer + later)[p + 2..] == buffer[p + 2..] + later
  {
    BoundaryIs(buffer + later, FrameBoundary(buffer).value);
  }

  // ── The decoder ────────────────────────────────────────────────────────────

  function Concat(chunks: seq<Bytes>): Bytes {
    if chunks == [] then [] else Concat(chunks[..|chunks| - 1]) + chunks[|chunks| - 1]
  }

  /** Whatever comes after, the bytes so far mean the items so far and then the buffer with the rest. */
  ghost predicate Carries(c: Codec, requestId: string, seen: Bytes, items: seq<Item>, buffer: Bytes) {
    forall later :: Frames(c, seen + later, requestId) == Before(items, Frames(c, buffer + later, requestId))
  }

  ghost predicate Ended(c: Codec, requestId: string, seen: Bytes, items: seq<Item>) {
    forall later :: Frames(c, seen + later, requestId) == (items, true)
  }

  lemma CarriesStart(c: Codec, requestId: string)
    ensures Carries(c, requestId, [], [], [])
  {
    hide Frames;
    forall later ensures Frames(c, [] + later, requestId) == Before([], Frames(c, [] + later, requestId)) {
      assert [] + Frames(c, [] + later, requestId).0 == Frames(c, [] + later, requestId).0;
    }
  }

  lemma CarriesMore(c: Codec, requestId: string, seen: Bytes, items: seq<Item>, buffer: Bytes, chunk: Bytes)
    requires Carries(c, requestId, seen, items, buffer)
    ensures Carries(c, requestId, seen + chunk, items, buffer + chunk)
  {
    hide Frames;
    forall later ensures Frames(c, seen + chunk + later, requestId) == Before(items, Frames(c, buffer + chunk + later, requestId)) {
      assert seen + chunk + later == seen + (chunk + later) && buffer + chunk + later == buffer + (chunk + later);
    }
  }

  /** What is left after taking the first frame off, and with which items. */
  ghost predicate CarriesOn(c: Codec, requestId: string, seen: Bytes, items: seq<Item>, parsed: Result<Option<ModelStreamEvent>, StreamError>, rest: Bytes) {
    match parsed
    case Err(e) => Ended(c, requestId, seen, items + [Err(e)])
    case Ok(None) => Carries(c, requestId, seen, items, rest)
    case Ok(Some(event)) => if Terminal(Ok(event)) then Ended(c, requestId, seen, items + [Ok(event)]) else Carries(c, requestId, seen, items + [Ok(event)], rest)
  }

  lemma CarriesFrame(c: Codec, requestId: string, seen: Bytes, items: seq<Item>, buffer: Bytes)
    requires Carries(c, requestId, seen, items, buffer) && FrameBoundary(buffer).Some?
    ensures var p := FrameBoundary(buffer).value; CarriesOn(c, requestId, seen, items, ParseFrame(c, buffer[..p], requestId), buffer[p + 2..])
  {
    hide ParseFrame, Frames;
    var p := FrameBoundary(buffer).value;
    var parsed := ParseFrame(c, buffer[..p], requestId);
    forall later
      ensures Frames(c, seen + later, requestId) == match parsed
        case Err(e) => (items + [Err(e)], true)
        case Ok(None) => Before(items, Frames(c, buffer[p + 2..] + later, requestId))
        case Ok(Some(event)) =>
          if Terminal(Ok(event)) then (items + [Ok(event)], true) else Before(items + [Ok(event)], Frames(c, buffer[p + 2..] + later, requestId))
    {
      FirstFrameStands(c, buffer, later, requestId);
      TakeFrame(c, buffer + later, requestId);
      assert Frames(c, seen + later, requestId) == Before(items, Frames(c, buffer + later, requestId));
      var more := Frames(c, buffer[p + 2..] + later, requestId);
      if parsed.Ok? && parsed.value.Some? {
        assert items + ([Ok(parsed.value.value)] + more.0) == items + [Ok(parsed.value.value)] + more.0;
      }
    }
  }

  lemma TakeFrame(c: Codec, bytes: Bytes, requestId: string)
    requires FrameBoundary(bytes).Some?
    ensures var p := FrameBoundary(bytes).value;
      Frames(c, bytes, requestId)
      == match ParseFrame(c, bytes[..p], requestId)
         case Err(e) => ([Err(e)], true)
         case Ok(None) => Frames(c, bytes[p + 2..], requestId)
         case Ok(Some(event)) =>
           if Terminal(Ok(event)) then ([Ok(event)], true) else Before([Ok(event)], Frames(c, bytes[p + 2..], requestId))
  {
    hide ParseFrame;
  }

  /** The complete frames of the buffer, taken off one by one until a terminal item or no boundary is left. */
  method DrainFrames(c: Codec, requestId: string, start: Bytes, sofar: seq<Item>, ghost seen: Bytes) returns (items: seq<Item>, buffer: Bytes, terminal: bool)
    requires Carries(c, requestId, seen, sofar, start)
    ensures if terminal then Ended(c, requestId, seen, items) else Carries(c, requestId, seen, items, buffer) && FrameBoundary(buffer).None?
  {
    hide ParseFrame, Carries, Ended;
    items, buffer, terminal := sofar, start, false;
    var position := FrameBoundary(buffer);
    while position.Some?
      invariant !terminal && Carries(c, requestId, seen, items, buffer) && position == FrameBoundary(buffer)
      decreases |buffer|
    {
      CarriesFrame(c, requestId, seen, items, buffer);
      var frame := buffer[..position.value];
      buffer := buffer[position.value + 2..];
      match ParseFrame(c, frame, requestId) {
        case Err(e) =>
          items := items + [Err(e)];
          terminal := true;
          return;
        case Ok(None) =>
        case Ok(Some(event)) =>
          items := items + [Ok(event)];
          if Terminal(Ok(event)) {
            terminal := true;
            return;
          }
      }
      position := FrameBoundary(buffer);
    }
  }

  datatype Chunk = Data(bytes: Bytes) | Broken(message: string)

  /** The bytes before the first transport error, and that error. */
  function Received(chunks: seq<Chunk>): (Bytes, Option<string>) {
    if chunks == [] then ([], None)
    else
      var (bytes, broken) := Received(chunks[..|chunks| - 1]);
      match (broken, chunks[|chunks| - 1])
      case (Some(message), _) => (bytes, Some(message))
      case (None, Data(more)) => (bytes + more, None)
      case (None, Broken(message)) => (bytes, Some(message))
  }

  /** What a transport's chunks mean: only the bytes received matter, and an error ends a stream that is not over. */
  function Expected(c: Codec, chunks: seq<Chunk>, requestId: string): seq<Item> {
    var (bytes, broken) := Received(chunks);
    match broken
    case None => Decoded(c, bytes, requestId)
    case Some(message) =>
      var (items, ended) := Frames(c, bytes, requestId);
      if ended then items else items + [Err(Transport(message))]
  }

  /** The items the client yields, whatever chunks the transport delivers. */
  method StreamItems(c: Codec, chunks: seq<Chunk>, requestId: string) returns (items: seq<Item>)
    ensures items == Expected(c, chunks, requestId)
  {
    hide Frames, Carries, Ended, Received;
    var buffer: Bytes := [];
    items := [];
    var terminal := false;
    ghost var seen: Bytes := [];
    CarriesStart(c, requestId);
    ReceivedNone(chunks);
    for n := 0 to |chunks|
      invariant !terminal && Received(chunks[..n]) == (seen, None) && Carries(c, requestId, seen, items, buffer) && FrameBoundary(buffer).None?
    {
      ReceivedMore(chunks, n);
      match chunks[n] {
        case Broken(message) =>
          ReceivedPrefix(chunks, n + 1);
          NothingLeft(c, requestId, seen, items, buffer);
          items := items + [Err(Transport(message))];
          return;
        case Data(bytes) =>
          CarriesMore(c, requestId, seen, items, buffer, bytes);
          seen := seen + bytes;
          buffer := buffer + bytes;
          items, buffer, terminal := DrainFrames(c, requestId, buffer, items, seen);
          if terminal {
            EndedAnyway(c, requestId, chunks, n + 1, seen, items);
            return;
          }
      }
    }
    assert chunks[..|chunks|] == chunks;
    NothingLeft(c, requestId, seen, items, buffer);
    items := items + [Err(EndedEarly)];
  }

  lemma ReceivedNone(chunks: seq<Chunk>)
    ensures Received(chunks[..0]) == ([], None)
  {
  }

  lemma ReceivedMore(chunks: seq<Chunk>, n: nat)
    requires n < |chunks| && Received(chunks[..n]).1.None?
    ensures Received(chunks[..n + 1]) == match chunks[n]
      case Data(more) => (Received(chunks[..n]).0 + more, None)
      case Broken(message) => (Received(chunks[..n]).0, Some(message))
  {
    assert chunks[..n + 1][..n] == chunks[..n];
  }

  /** Later chunks add bytes, or nothing once an error has come. */
  lemma {:induction false} ReceivedPrefix(chunks: seq<Chunk>, n: nat)
    requires n <= |chunks|
    ensures Received(chunks[..n]).0 <= Received(chunks).0
    ensures Received(chunks[..n]).1.Some? ==> Received(chunks) == Received(chunks[..n])
    decreases |chunks|
  {
    if n == |chunks| {
      assert chunks[..n] == chunks;
    } else {
      assert chunks[..|chunks| - 1][..n] == chunks[..n];
      ReceivedPrefix(chunks[..|chunks| - 1], n);
    }
  }

  lemma NoFrames(c: Codec, bytes: Bytes, requestId: string)
    requires FrameBoundary(bytes).None?
    ensures Frames(c, bytes, requestId) == ([], false)
  {
  }

  lemma NothingLeft(c: Codec, requestId: string, seen: Bytes, items: seq<Item>, buffer: Bytes)
    requires Carries(c, requestId, seen, items, buffer) && FrameBoundary(buffer).None?
    ensures Frames(c, seen, requestId) == (items, false)
  {
    hide Frames;
    assert seen + [] == seen && buffer + [] == buffer && items + [] == items;
    NoFrames(c, buffer, requestId);
    assert Frames(c, seen + [], requestId) == Before(items, Frames(c, buffer + [], requestId));
  }

  lemma EndedAnyway(c: Codec, requestId: string, chunks: seq<Chunk>, n: nat, seen: Bytes, items: seq<Item>)
    requires n <= |chunks| && Received(chunks[..n]) == (seen, None) && Ended(c, requestId, seen, items)
    ensures Frames(c, Received(chunks).0, requestId) == (items, true)
  {
    hide Frames;
    ReceivedPrefix(chunks, n);
    var all := Received(chunks).0;
    assert all == seen + all[|seen|..];
  }

  // ── Framing is faithful ────────────────────────────────────────────────────

  /** A frame as a server sends it: no blank line inside, not ending in a line feed. */
  predicate WholeFrame(frame: Bytes) {
    FrameBoundary(frame).None? && (frame != [] ==> frame[|frame| - 1] != LF)
  }

  function Sent(frames: seq<Bytes>): Bytes {
    if frames == [] then [] else frames[0] + [LF, LF] + Sent(frames[1..])
  }

  /** The items frames mean, one by one, up to the first terminal one. */
  function Means(c: Codec, frames: seq<Bytes>, requestId: string): (seq<Item>, bool) {
    if frames == [] then ([], false)
    else match ParseFrame(c, frames[0], requestId)
      case Err(e) => ([Err(e)], true)
      case Ok(None) => Means(c, frames[1..], requestId)
      case Ok(Some(event)) =>
        if Terminal(Ok(event)) then ([Ok(event)], true) else Before([Ok(event)], Means(c, frames[1..], requestId))
  }

  /** Frames sent with blank lines between them are the frames decoded. */
  lemma {:induction false} SentFramesDecode(c: Codec, frames: seq<Bytes>, requestId: string)
    requires forall i :: 0 <= i < |frames| ==> WholeFrame(frames[i])
    ensures Frames(c, Sent(frames), requestId) == Means(c, frames, requestId)
  {
    hide ParseFrame, Frames, FrameBoundary;
    if frames == [] {
      NoFrames(c, [], requestId);
    } else {
      var f := frames[0];
      var bytes := f + [LF, LF] + Sent(frames[1..]);
      assert WholeFrame(f);
      forall i | 0 <= i < |f| ensures !(bytes[i] == LF && bytes[i + 1] == LF) {
        if i + 1 < |f| {
          assert bytes[i] == f[i] && bytes[i + 1] == f[i + 1];
        } else {
          assert bytes[i] == f[|f| - 1];
        }
      }
      BoundaryIs(bytes, |f|);
      assert bytes[..|f|] == f && bytes[|f| + 2..] == Sent(frames[1..]);
      TakeFrame(c, bytes, requestId);
      SentFramesDecode(c, frames[1..], requestId);
    }
  }
}
