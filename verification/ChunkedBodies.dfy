/** Chunked bodies (section 7.1 of RFC 9112), as the handoff client reads them. */
module ChunkedBodies {
  import opened Wrappers
  import opened ByteStrings
  import Text

  const CR: byte := 13
  const LF: byte := 10
  const USIZE_MAX := 0xFFFF_FFFF_FFFF_FFFF

  /** `Panics`: the source does not answer, it panics. */
  datatype ChunkError = Malformed | NotUtf8 | BadSize | Truncated | Panics

  // ── Sizes ──────────────────────────────────────────────────────────────────

  function HexDigit(c: char): Option<nat> {
    if '0' <= c <= '9' then Some(c as int - '0' as int)
    else if 'a' <= c <= 'f' then Some(c as int - 'a' as int + 10)
    else if 'A' <= c <= 'F' then Some(c as int - 'A' as int + 10)
    else None
  }

  function HexDigits(s: string): Option<nat> {
    if s == "" then Some(0)
    else match (HexDigits(s[..|s| - 1]), HexDigit(s[|s| - 1]))
      case (Some(high), Some(low)) => Some(high * 16 + low)
      case _ => None
  }

  /** `usize::from_str_radix(s, 16)`: an optional plus sign, at least one digit, no overflow. */
  function ParseHex(s: string): Option<nat> {
    var digits := if s != "" && s[0] == '+' then s[1..] else s;
    if digits == "" then None
    else match HexDigits(digits)
      case Some(n) => if n <= USIZE_MAX then Some(n) else None
      case None => None
  }

  function HexChar(d: nat): (c: char)
    requires d < 16
    ensures HexDigit(c) == Some(d) && (c as int) < 128
  {
    if d < 10 then ('0' as int + d) as char else ('a' as int + d - 10) as char
  }

  function PrintHex(n: nat): (s: string)
    ensures s != "" && forall i :: 0 <= i < |s| ==> HexDigit(s[i]).Some?
  {
    if n < 16 then [HexChar(n)] else PrintHex(n / 16) + [HexChar(n % 16)]
  }

  lemma {:induction false} HexReads(n: nat)
    ensures HexDigits(PrintHex(n)) == Some(n)
  {
    var s := PrintHex(n);
    if n < 16 {
      assert s[..|s| - 1] == "";
    } else {
      HexReads(n / 16);
      assert s[..|s| - 1] == PrintHex(n / 16);
    }
  }

  // ── Lines ──────────────────────────────────────────────────────────────────

  /** The first position of a CRLF. */
  function LineEnd(input: Bytes): (r: Option<nat>)
    ensures r.Some? ==> r.value + 2 <= |input| && input[r.value] == CR && input[r.value + 1] == LF
    ensures r.Some? ==> forall i :: 0 <= i < r.value ==> !(input[i] == CR && input[i + 1] == LF)
    ensures r.None? ==> forall i :: 0 <= i < |input| - 1 ==> !(input[i] == CR && input[i + 1] == LF)
  {
    if |input| < 2 then None
    else if input[0] == CR && input[1] == LF then Some(0)
    else
      assert forall i :: 0 < i < |input| ==> input[i] == input[1..][i - 1];
      match LineEnd(input[1..])
      case Some(p) => Some(p + 1)
      case None => None
  }

  /** The text before the first semicolon. */
  function BeforeSemicolon(s: string): string {
    if s == "" || s[0] == ';' then "" else [s[0]] + BeforeSemicolon(s[1..])
  }

  function ReadSize(fromUtf8: Bytes -> Option<string>, line: Bytes): Result<nat, ChunkError> {
    match fromUtf8(line)
    case None => Err(NotUtf8)
    case Some(text) =>
      match ParseHex(Text.Trim(BeforeSemicolon(text)))
      case None => Err(BadSize)
      case Some(n) => Ok(n)
  }

  // ── Reading a body ─────────────────────────────────────────────────────────

  function Prepended(out: Bytes, r: Result<Bytes, ChunkError>): Result<Bytes, ChunkError> {
    match r
    case Ok(more) => Ok(out + more)
    case Err(e) => Err(e)
  }

  /** The sum `size + 2` as the machine computes it: past the largest number it panics where overflow is checked, and wraps around where it is not. */
  function WithLineEnding(checks: bool, size: nat): Option<nat> {
    if size + 2 <= USIZE_MAX then Some(size + 2)
    else if checks then None
    else Some(size + 2 - (USIZE_MAX + 1))
  }

  /** What a chunked body holds; `checks` says whether the build checks integer overflow. */
  function Dechunked(checks: bool, fromUtf8: Bytes -> Option<string>, input: Bytes): Result<Bytes, ChunkError>
    decreases |input|
  {
    match LineEnd(input)
    case None => Err(Malformed)
    case Some(end) =>
      match ReadSize(fromUtf8, input[..end])
      case Err(e) => Err(e)
      case Ok(size) =>
        var rest := input[end + 2..];
        if size == 0 then Ok([])
        else match WithLineEnding(checks, size)
          case None => Err(Panics)
          case Some(needed) =>
            if |rest| < needed then Err(Truncated)
            // A wrapped sum lets a size through that no slice has: taking that many bytes panics.
            else if needed != size + 2 then Err(Panics)
            else Prepended(rest[..size], Dechunked(checks, fromUtf8, rest[size + 2..]))
  }

  lemma PrependedNothing(r: Result<Bytes, ChunkError>)
    ensures Prepended([], r) == r
  {
    assert r.Ok? ==> [] + r.value == r.value;
  }

  lemma PrependedTwice(a: Bytes, b: Bytes, r: Result<Bytes, ChunkError>)
    ensures Prepended(a, Prepended(b, r)) == Prepended(a + b, r)
  {
    assert r.Ok? ==> a + (b + r.value) == a + b + r.value;
  }

  method Dechunk(checks: bool, fromUtf8: Bytes -> Option<string>, body: Bytes) returns (r: Result<Bytes, ChunkError>)
    ensures r == Dechunked(checks, fromUtf8, body)
  {
    hide ReadSize, LineEnd, Prepended;
    var input := body;
    var out: Bytes := [];
    PrependedNothing(Dechunked(checks, fromUtf8, body));
    while true
      invariant Dechunked(checks, fromUtf8, body) == Prepended(out, Dechunked(checks, fromUtf8, input))
      decreases |input|
    {
      PrependedError(out, Dechunked(checks, fromUtf8, input));
      var end := LineEnd(input);
      if end.None? {
        return Err(Malformed);
      }
      var size := ReadSize(fromUtf8, input[..end.value]);
      if size.Err? {
        return Err(size.error);
      }
      input := input[end.value + 2..];
      if size.value == 0 {
        return Ok(out);
      }
      var needed := WithLineEnding(checks, size.value);
      if needed.None? {
        return Err(Panics);
      }
      if |input| < needed.value {
        return Err(Truncated);
      }
      if needed.value != size.value + 2 {
        return Err(Panics);
      }
      PrependedTwice(out, input[..size.value], Dechunked(checks, fromUtf8, input[size.value + 2..]));
      out := out + input[..size.value];
      input := input[size.value + 2..];
    }
  }

  lemma PrependedError(out: Bytes, r: Result<Bytes, ChunkError>)
    ensures r.Err? ==> Prepended(out, r) == r
    ensures r == Ok([]) ==> Prepended(out, r) == Ok(out)
  {
    assert out + [] == out;
  }

  // ── Writing one ────────────────────────────────────────────────────────────

  /** A chunk as a server may send it: its size in any hexadecimal spelling, extensions, and its data. */
  datatype Chunk = Chunk(size: string, extension: string, data: Bytes)

  predicate PlainAscii(s: string) {
    forall i :: 0 <= i < |s| ==> (s[i] as int) < 128 && s[i] != '\r'
  }

  /** A size line: hexadecimal digits that say `n`, and extensions after a semicolon. */
  predicate SizeLine(size: string, extension: string, n: nat) {
    && size != "" && (forall i :: 0 <= i < |size| ==> HexDigit(size[i]).Some?) && HexDigits(size) == Some(n)
    && PlainAscii(extension) && (extension == "" || extension[0] == ';')
  }

  /** The usual spelling is one. */
  lemma PrintedSizeLine(n: nat)
    ensures SizeLine(PrintHex(n), "", n)
  {
    HexReads(n);
  }

  predicate WellFormed(c: Chunk) {
    c.data != [] && |c.data| + 2 <= USIZE_MAX && SizeLine(c.size, c.extension, |c.data|)
  }

  function EncodedChunk(c: Chunk): Bytes {
    Ascii(c.size + c.extension) + [CR, LF] + c.data + [CR, LF]
  }

  function EncodedChunks(chunks: seq<Chunk>): Bytes {
    if chunks == [] then [] else EncodedChunk(chunks[0]) + EncodedChunks(chunks[1..])
  }

  function Payload(chunks: seq<Chunk>): Bytes {
    if chunks == [] then [] else chunks[0].data + Payload(chunks[1..])
  }

  /** The last size line: zero, however spelled, and its extensions. */
  function LastLine(size: string, extension: string): Bytes {
    Ascii(size + extension) + [CR, LF]
  }

  /** UTF-8 reads plain ASCII as itself. */
  ghost predicate ReadsAscii(fromUtf8: Bytes -> Option<string>) {
    forall s :: PlainAscii(s) ==> fromUtf8(Ascii(s)) == Some(s)
  }

  lemma {:induction false} SizeBeforeSemicolon(size: string, extension: string)
    requires forall i :: 0 <= i < |size| ==> HexDigit(size[i]).Some?
    requires extension == "" || extension[0] == ';'
    ensures BeforeSemicolon(size + extension) == size
  {
    if size == "" {
      assert size + extension == extension;
    } else {
      assert (size + extension)[1..] == size[1..] + extension;
      SizeBeforeSemicolon(size[1..], extension);
    }
  }

  lemma SizeLineReads(fromUtf8: Bytes -> Option<string>, size: string, extension: string, n: nat)
    requires ReadsAscii(fromUtf8) && SizeLine(size, extension, n) && n <= USIZE_MAX
    ensures ReadSize(fromUtf8, Ascii(size + extension)) == Ok(n)
  {
    var line := size + extension;
    forall i | 0 <= i < |line| ensures (line[i] as int) < 128 && line[i] != '\r' {
      if i < |size| {
        assert HexDigit(size[i]).Some?;
      } else {
        assert line[i] == extension[i - |size|];
      }
    }
    SizeBeforeSemicolon(size, extension);
    forall c | c in size ensures !Text.IsWhitespace(c) {
      assert HexDigit(c).Some?;
    }
    Text.TrimKeeps(size);
    assert HexDigit(size[0]).Some?;
  }

  /** A size line holds no CR, so it ends at its own CRLF, whatever follows. */
  lemma LineEndsHere(size: string, extension: string, n: nat, rest: Bytes)
    requires SizeLine(size, extension, n)
    ensures var line := Ascii(size + extension); LineEnd(line + [CR, LF] + rest) == Some(|line|)
  {
    var line := Ascii(size + extension);
    NoCarriageReturn(size, extension, n);
    var input := line + [CR, LF] + rest;
    assert input[|line|] == CR && input[|line| + 1] == LF;
    assert forall i :: 0 <= i < |line| ==> input[i] == line[i];
  }

  lemma NoCarriageReturn(size: string, extension: string, n: nat)
    requires SizeLine(size, extension, n)
    ensures forall i :: 0 <= i < |Ascii(size + extension)| ==> Ascii(size + extension)[i] != CR
  {
    forall i | 0 <= i < |size + extension| ensures Ascii(size + extension)[i] != CR {
      if i < |size| {
        assert HexDigit(size[i]).Some?;
      } else {
        assert (size + extension)[i] == extension[i - |size|];
      }
    }
  }

  /** One chunk is read off the front: its data, then whatever follows it. */
  lemma OneChunk(checks: bool, fromUtf8: Bytes -> Option<string>, c: Chunk, rest: Bytes)
    requires ReadsAscii(fromUtf8) && WellFormed(c)
    ensures Dechunked(checks, fromUtf8, EncodedChunk(c) + rest) == Prepended(c.data, Dechunked(checks, fromUtf8, rest))
  {
    hide ReadSize, ReadsAscii, SizeLine, LineEnd;
    var line := Ascii(c.size + c.extension);
    var input := EncodedChunk(c) + rest;
    var after := c.data + [CR, LF] + rest;
    assert input == line + [CR, LF] + after;
    LineEndsHere(c.size, c.extension, |c.data|, after);
    SizeLineReads(fromUtf8, c.size, c.extension, |c.data|);
    assert input[..|line|] == line && input[|line| + 2..] == after;
    assert |after| >= |c.data| + 2;
    assert after[..|c.data|] == c.data;
    assert after[|c.data| + 2..] == rest;
  }

  /**
    Reading inverts writing: for every list of non-empty chunks, with any
    spelling of the sizes, any extensions, data holding anything (CRLF
    included), and anything after the last size line.
   */
  lemma {:induction false} DechunkInverts(checks: bool, fromUtf8: Bytes -> Option<string>, chunks: seq<Chunk>, size: string, extension: string, trailer: Bytes)
    requires ReadsAscii(fromUtf8) && SizeLine(size, extension, 0) && forall i :: 0 <= i < |chunks| ==> WellFormed(chunks[i])
    ensures Dechunked(checks, fromUtf8, EncodedChunks(chunks) + LastLine(size, extension) + trailer) == Ok(Payload(chunks))
  {
    hide ReadSize, ReadsAscii, SizeLine, WellFormed, LineEnd;
    if chunks == [] {
      var line := Ascii(size + extension);
      assert EncodedChunks(chunks) + LastLine(size, extension) + trailer == line + [CR, LF] + trailer;
      LineEndsHere(size, extension, 0, trailer);
      SizeLineReads(fromUtf8, size, extension, 0);
      assert (line + [CR, LF] + trailer)[..|line|] == line;
    } else {
      DechunkInverts(checks, fromUtf8, chunks[1..], size, extension, trailer);
      var rest := EncodedChunks(chunks[1..]) + LastLine(size, extension) + trailer;
      assert EncodedChunks(chunks) + LastLine(size, extension) + trailer == EncodedChunk(chunks[0]) + rest;
      OneChunk(checks, fromUtf8, chunks[0], rest);
    }
  }

  /** The chunks a server sends for these parts, their sizes spelled as usual. */
  function UsualChunks(parts: seq<Bytes>): seq<Chunk> {
    seq(|parts|, i requires 0 <= i < |parts| => Chunk(PrintHex(|parts[i]|), "", parts[i]))
  }

  function Joined(parts: seq<Bytes>): Bytes {
    if parts == [] then [] else parts[0] + Joined(parts[1..])
  }

  /** In particular any list of non-empty parts, sent with sizes spelled as usual, reads back joined. */
  lemma UsualChunksReadBack(checks: bool, fromUtf8: Bytes -> Option<string>, parts: seq<Bytes>)
    requires ReadsAscii(fromUtf8) && forall i :: 0 <= i < |parts| ==> parts[i] != [] && |parts[i]| + 2 <= USIZE_MAX
    ensures Dechunked(checks, fromUtf8, EncodedChunks(UsualChunks(parts)) + LastLine(PrintHex(0), "")) == Ok(Joined(parts))
  {
    hide ReadsAscii, SizeLine, Dechunked, PrintHex;
    var chunks := UsualChunks(parts);
    forall i | 0 <= i < |chunks| ensures WellFormed(chunks[i]) {
      PrintedSizeLine(|parts[i]|);
    }
    PrintedSizeLine(0);
    DechunkInverts(checks, fromUtf8, chunks, PrintHex(0), "", []);
    var body := EncodedChunks(chunks) + LastLine(PrintHex(0), "");
    assert body + [] == body;
    UsualPayload(parts);
  }

  lemma {:induction false} UsualPayload(parts: seq<Bytes>)
    ensures Payload(UsualChunks(parts)) == Joined(parts)
  {
    if parts != [] {
      UsualPayload(parts[1..]);
      assert UsualChunks(parts)[1..] == UsualChunks(parts[1..]);
    }
  }

  // ── When the source panics ─────────────────────────────────────────────────

  /** A size line the reader comes to: what it says, and how many bytes follow it. */
  datatype Reached = Reached(size: nat, left: nat)

  /** Every size line the reader comes to: each chunk before it was there in full. */
  function SizeLines(fromUtf8: Bytes -> Option<string>, input: Bytes): seq<Reached>
    decreases |input|
  {
    match LineEnd(input)
    case None => []
    case Some(end) =>
      match ReadSize(fromUtf8, input[..end])
      case Err(_) => []
      case Ok(size) =>
        var rest := input[end + 2..];
        [Reached(size, |rest|)] + (if size == 0 || |rest| < size + 2 then [] else SizeLines(fromUtf8, rest[size + 2..]))
  }

  /** A size within two of the largest; where overflow is not checked, the largest itself only if something follows its line. */
  predicate Overflows(checks: bool, line: Reached) {
    USIZE_MAX - 2 < line.size <= USIZE_MAX && (checks || line.size < USIZE_MAX || line.left > 0)
  }

  ghost predicate SomeOverflows(checks: bool, lines: seq<Reached>) {
    exists i :: 0 <= i < |lines| && Overflows(checks, lines[i])
  }

  /** For all bytes: the source panics if and only if it comes to a size line that overflows. */
  lemma {:induction false} PanicsIff(checks: bool, fromUtf8: Bytes -> Option<string>, input: Bytes)
    ensures Dechunked(checks, fromUtf8, input) == Err(Panics) <==> SomeOverflows(checks, SizeLines(fromUtf8, input))
    decreases |input|
  {
    hide LineEnd, ParseHex;
    var end := LineEnd(input);
    if end.Some? && ReadSize(fromUtf8, input[..end.value]).Ok? {
      var size := ReadSize(fromUtf8, input[..end.value]).value;
      SizeFits(fromUtf8, input[..end.value]);
      var rest := input[end.value + 2..];
      var lines := SizeLines(fromUtf8, input);
      assert lines[0] == Reached(size, |rest|);
      if size > 0 && |rest| >= size + 2 {
        PanicsIff(checks, fromUtf8, rest[size + 2..]);
        OneMoreLine(checks, Reached(size, |rest|), SizeLines(fromUtf8, rest[size + 2..]));
      } else {
        assert lines == [Reached(size, |rest|)];
      }
    }
  }

  lemma OneMoreLine(checks: bool, line: Reached, lines: seq<Reached>)
    ensures SomeOverflows(checks, [line] + lines) <==> Overflows(checks, line) || SomeOverflows(checks, lines)
  {
    var all := [line] + lines;
    assert all[0] == line;
    assert forall i :: 0 <= i < |lines| ==> all[i + 1] == lines[i];
  }

  lemma SizeFits(fromUtf8: Bytes -> Option<string>, line: Bytes)
    ensures ReadSize(fromUtf8, line).Ok? ==> ReadSize(fromUtf8, line).value <= USIZE_MAX
  {
  }

  /** Such a size in the first line, and whatever follows it. The largest size alone is a truncated body where overflow wraps. */
  lemma HugeSizePanics(checks: bool, fromUtf8: Bytes -> Option<string>, n: nat, rest: Bytes)
    requires ReadsAscii(fromUtf8) && USIZE_MAX - 2 < n <= USIZE_MAX
    ensures Dechunked(checks, fromUtf8, LastLine(PrintHex(n), "") + rest)
         == Err(if checks || n < USIZE_MAX || rest != [] then Panics else Truncated)
  {
    hide ReadSize, ReadsAscii, SizeLine, LineEnd, PrintHex;
    PrintedSizeLine(n);
    var line := Ascii(PrintHex(n) + "");
    LineEndsHere(PrintHex(n), "", n, rest);
    SizeLineReads(fromUtf8, PrintHex(n), "", n);
    assert (line + [CR, LF] + rest)[..|line|] == line;
  }

  /** A body cut inside a size line has no line left to read. */
  lemma CutLine(checks: bool, fromUtf8: Bytes -> Option<string>, size: string, extension: string, n: nat, cut: nat)
    requires SizeLine(size, extension, n) && cut < |Ascii(size + extension)| + 2
    ensures Dechunked(checks, fromUtf8, (Ascii(size + extension) + [CR, LF])[..cut]) == Err(Malformed)
  {
    hide SizeLine;
    var line := Ascii(size + extension);
    NoCarriageReturn(size, extension, n);
    var input := (line + [CR, LF])[..cut];
    assert forall i :: 0 <= i < |input| && i < |line| ==> input[i] == line[i];
  }

  /** A body cut inside a chunk is an error. */
  lemma CutChunk(checks: bool, fromUtf8: Bytes -> Option<string>, c: Chunk, cut: nat)
    requires ReadsAscii(fromUtf8) && WellFormed(c) && cut < |EncodedChunk(c)|
    ensures Dechunked(checks, fromUtf8, EncodedChunk(c)[..cut]).Err?
  {
    hide ReadSize, ReadsAscii, SizeLine, LineEnd;
    var line := Ascii(c.size + c.extension);
    var head := line + [CR, LF];
    assert EncodedChunk(c) == head + (c.data + [CR, LF]);
    if cut < |head| {
      assert EncodedChunk(c)[..cut] == head[..cut];
      CutLine(checks, fromUtf8, c.size, c.extension, |c.data|, cut);
    } else {
      var after := (c.data + [CR, LF])[..cut - |head|];
      var input := EncodedChunk(c)[..cut];
      assert input == line + [CR, LF] + after;
      LineEndsHere(c.size, c.extension, |c.data|, after);
      SizeLineReads(fromUtf8, c.size, c.extension, |c.data|);
      assert input[..|line|] == line && input[|line| + 2..] == after;
    }
  }

  /** Every truncation before the end of the last size line is an error, never partial data. */
  lemma {:induction false} TruncationIsAnError(checks: bool, fromUtf8: Bytes -> Option<string>, chunks: seq<Chunk>, size: string, extension: string, cut: nat)
    requires ReadsAscii(fromUtf8) && SizeLine(size, extension, 0) && forall i :: 0 <= i < |chunks| ==> WellFormed(chunks[i])
    requires cut < |EncodedChunks(chunks) + LastLine(size, extension)|
    ensures Dechunked(checks, fromUtf8, (EncodedChunks(chunks) + LastLine(size, extension))[..cut]).Err?
  {
    hide ReadSize, ReadsAscii, SizeLine, WellFormed, LineEnd, Dechunked;
    var whole := EncodedChunks(chunks) + LastLine(size, extension);
    if chunks == [] {
      assert whole == Ascii(size + extension) + [CR, LF];
      CutLine(checks, fromUtf8, size, extension, 0, cut);
    } else {
      var first := EncodedChunk(chunks[0]);
      var rest := EncodedChunks(chunks[1..]) + LastLine(size, extension);
      assert whole == first + rest;
      if cut < |first| {
        assert whole[..cut] == first[..cut];
        CutChunk(checks, fromUtf8, chunks[0], cut);
      } else {
        assert whole[..cut] == first + rest[..cut - |first|];
        TruncationIsAnError(checks, fromUtf8, chunks[1..], size, extension, cut - |first|);
        OneChunk(checks, fromUtf8, chunks[0], rest[..cut - |first|]);
      }
    }
  }
}
