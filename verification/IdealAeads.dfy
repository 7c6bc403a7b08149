/**
  The laws assumed of the foreign cryptography can be met: there are functions
  with every law of ContentCiphers, and any lawful AEAD restricted to a set of
  sealings is one under which nothing else opens.
 */
module IdealAeads {
  import opened Wrappers
  import opened ByteStrings
  import opened ContentContexts
  import opened ContentCiphers
  import F = SealedFileFormat
  import L = SealedLogFormat
  import Logs = SealedLogs
  import Contexts = SealedContexts
  import Text

  /** The AEAD that opens only these sealings, and those as `c` does. */
  function Restricted(c: Crypto, sealings: set<Sealing>): Crypto {
    c.(open := (k: Key, n: Nonce, a: Bytes, t: Bytes) => if Sealing(k, n, a, t) in sealings then c.open(k, n, a, t) else None)
  }

  /** What truncation and alteration theorems assume of an AEAD holds of it. */
  lemma RestrictedIsIdeal(c: Crypto, sealings: set<Sealing>)
    requires LawfulAead(c) && StripsTag(c)
    ensures var r := Restricted(c, sealings);
      && OnlyOpens(r, sealings) && TagLength(r) && StripsTag(r)
      && forall k: Key, n: Nonce, a: Bytes, m: Bytes :: Sealing(k, n, a, c.seal(k, n, a, m)) in sealings ==> SealOpens(r, k, n, a, m)
  {
    var r := Restricted(c, sealings);
    assert r.seal == c.seal;
    assert TagLength(r) by {
      forall k: Key, n: Nonce, a: Bytes, m: Bytes ensures |r.seal(k, n, a, m)| == |m| + TAG_LEN {
      }
    }
  }

  // ── Truncation and alteration under it ─────────────────────────────────────

  /** The sealings that writing one file makes. */
  function FileSealings(c: Crypto, key: Key, header: F.Header, size: nat, plain: Bytes): set<Sealing>
    requires size > 0
  {
    set i: nat | i < F.ChunkCount(|plain|, size) && F.Times(i, size) <= |plain| ::
      Sealing(key, F.ChunkNonce(i, i + 1 == F.ChunkCount(|plain|, size)), header,
              F.SealedChunk(c, key, header, size, plain, i, i + 1 == F.ChunkCount(|plain|, size)))
  }

  lemma FileIsSealedOnly(c: Crypto, key: Key, header: F.Header, size: nat, plain: Bytes)
    requires LawfulAead(c) && StripsTag(c) && size > 0
    ensures var sealings := FileSealings(c, key, header, size, plain);
      var r := Restricted(c, sealings);
      F.SealedOnly(sealings, r, key, header, size, plain) && F.ChunksOpen(r, key, header, size, plain)
  {
    hide F.ChunkCount, F.Times, F.ChunkNonce, F.Chunk, LawfulAead, StripsTag, OnlyOpens, TagLength;
    var sealings := FileSealings(c, key, header, size, plain);
    var r := Restricted(c, sealings);
    RestrictedIsIdeal(c, sealings);
    forall s | s in sealings && s.aad == header ensures exists i: nat :: F.SealsChunk(r, key, header, size, plain, s, i) {
      var i: nat :| i < F.ChunkCount(|plain|, size) && F.Times(i, size) <= |plain|
        && s == Sealing(key, F.ChunkNonce(i, i + 1 == F.ChunkCount(|plain|, size)), header,
                        F.SealedChunk(c, key, header, size, plain, i, i + 1 == F.ChunkCount(|plain|, size)));
      assert F.SealsChunk(r, key, header, size, plain, s, i);
    }
  }

  /** A file sealed with any lawful AEAD, where nothing else was sealed: no strict prefix of it opens, under any cipher. */
  lemma PrefixOfFileDoesNotOpen(c: Crypto, key: Key, header: F.Header, plain: Bytes, cipher: Cipher, context: Context, file: Bytes)
    requires LawfulAead(c) && StripsTag(c) && F.CheckHeader(header) == None
    requires var size := F.Pow2(header[8]);
      var r := Restricted(c, FileSealings(c, key, header, size, plain));
      && F.ChunkCount(|plain|, size) < SLICE_LIMIT && |F.Image(r, key, header, size, plain)| < SLICE_LIMIT
      && file < F.Image(r, key, header, size, plain)
    ensures F.OpenedAs(Restricted(c, FileSealings(c, key, header, F.Pow2(header[8]), plain)), file, cipher, context).Err?
  {
    hide F.Image, F.OpenedAs, F.ChunkCount, F.Times, F.SealedOnly, F.ChunksOpen, F.CheckHeader, F.Pow2, Restricted, LawfulAead, StripsTag, OnlyOpens, TagLength;
    var size := F.Pow2(header[8]);
    var sealings := FileSealings(c, key, header, size, plain);
    RestrictedIsIdeal(c, sealings);
    FileIsSealedOnly(c, key, header, size, plain);
    F.TruncatedFileDoesNotOpen(Restricted(c, sealings), sealings, key, header, plain, cipher, context, file);
  }

  /** The sealings that appending these entries to one log makes. */
  function LogSealings(c: Crypto, key: Key, header: L.Header, entries: seq<L.Entry>): set<Sealing> {
    set i | 0 <= i < |entries| :: L.SealingOf(c, key, header, entries, i)
  }

  /** A log sealed with any lawful AEAD, where nothing else was sealed: whatever follows its header, a scan returns a prefix of its records. */
  lemma ScanReturnsAPrefix(c: Crypto, key: Key, header: L.Header, entries: seq<L.Entry>, bytes: Bytes)
    requires LawfulAead(c) && StripsTag(c) && |entries| < SLICE_LIMIT && header <= bytes
    ensures var r := Restricted(c, LogSealings(c, key, header, entries));
      L.ScanAll(r, bytes, header, key, true).Ok? ==> L.ReadsPrefix(r, key, header, entries, bytes, L.ScanAll(r, bytes, header, key, true).value)
  {
    hide L.ScanAll, L.ReadsPrefix, L.RecordAad, LawfulAead, StripsTag, OnlyOpens, TagLength;
    var sealings := LogSealings(c, key, header, entries);
    var r := Restricted(c, sealings);
    RestrictedIsIdeal(c, sealings);
    forall i | 0 <= i < |entries| ensures SealOpens(r, key, entries[i].nonce, L.RecordAad(header, i), entries[i].record) {
      assert L.SealingOf(c, key, header, entries, i) in sealings;
    }
    forall s | s in sealings && s.key == key ensures exists i :: 0 <= i < |entries| && s == L.SealingOf(r, key, header, entries, i) {
      var i :| 0 <= i < |entries| && s == L.SealingOf(c, key, header, entries, i);
      assert s == L.SealingOf(r, key, header, entries, i);
    }
    if L.ScanAll(r, bytes, header, key, true).Ok? {
      L.AcceptedRecordsAreAPrefix(r, sealings, key, header, entries, bytes);
    }
  }

  // ── A lawful instance ──────────────────────────────────────────────────────

  /** A tag that tells keys apart by their first byte. */
  function ToyTag(k: Key): (t: Bytes)
    ensures |t| == TAG_LEN
  {
    [if k == [] then 0 else k[0]] + Zeros(TAG_LEN - 1)
  }

  function ToyOpen(k: Key, t: Bytes): Option<Bytes> {
    if |t| >= TAG_LEN && t[|t| - TAG_LEN..] == ToyTag(k) then Some(t[..|t| - TAG_LEN]) else None
  }

  function ToyKcv(k: Key): string {
    if k == [] then "" else [k[0] as char]
  }

  function Spread(n: nat): Bytes
    requires n < 0x110000
  {
    [n / 0x10000, n / 0x100 % 0x100, n % 0x100]
  }

  function Joined(high: int, middle: int, low: int): int {
    high * 0x10000 + middle * 0x100 + low
  }

  function ToyUtf8(s: string): Bytes {
    if s == "" then [] else Spread(s[0] as int) + ToyUtf8(s[1..])
  }

  function ToyFromUtf8(b: Bytes): Option<string> {
    if b == [] then Some("")
    else if |b| < 3 then None
    else
      var n: int := Joined(b[0], b[1], b[2]);
      if n >= 0x110000 || 0xD800 <= n < 0xE000 then None
      else match ToyFromUtf8(b[3..])
        case None => None
        case Some(rest) => Some([n as char] + rest)
  }

  lemma SpreadJoins(n: nat)
    requires n < 0x110000
    ensures |Spread(n)| == 3 && Joined(Spread(n)[0], Spread(n)[1], Spread(n)[2]) == n
  {
    var high, rest := n / 0x10000, n % 0x10000;
    assert n / 0x100 % 0x100 == rest / 0x100 && n % 0x100 == rest % 0x100;
  }

  lemma {:induction false} ToyUtf8Reads(s: string)
    ensures ToyFromUtf8(ToyUtf8(s)) == Some(s)
  {
    hide Spread, Joined;
    if s != "" {
      var first := Spread(s[0] as int);
      SpreadJoins(s[0] as int);
      ToyUtf8Reads(s[1..]);
      var b := ToyUtf8(s);
      assert b[3..] == ToyUtf8(s[1..]) && b[0] == first[0] && b[1] == first[1] && b[2] == first[2];
      assert s == [s[0]] + s[1..];
    }
  }

  const TOY_LETTERS := 0x4000

  function ToyBase64(b: Bytes): (s: string)
    ensures |s| == |b| && forall i :: 0 <= i < |b| ==> s[i] as int == TOY_LETTERS + b[i]
  {
    seq(|b|, i requires 0 <= i < |b| => (TOY_LETTERS + b[i]) as char)
  }

  function ToyUnbase64(s: string): Option<Bytes> {
    if forall i :: 0 <= i < |s| ==> TOY_LETTERS <= s[i] as int < TOY_LETTERS + 256
    then Some(seq(|s|, i requires 0 <= i < |s| && TOY_LETTERS <= s[i] as int < TOY_LETTERS + 256 => s[i] as int - TOY_LETTERS))
    else None
  }

  lemma ToyBase64Reads(b: Bytes)
    ensures ToyUnbase64(Text.Trim(ToyBase64(b))) == Some(b)
  {
    var s := ToyBase64(b);
    forall c | c in s ensures !Text.IsWhitespace(c) {
      var i :| 0 <= i < |s| && s[i] == c;
    }
    Text.TrimKeeps(s);
    assert ToyUnbase64(s).Some?;
    assert ToyUnbase64(s).value == b;
  }

  function Toy(): Crypto {
    Crypto((k: Key, n: Nonce, a: Bytes, m: Bytes) => m + ToyTag(k), (k: Key, n: Nonce, a: Bytes, t: Bytes) => ToyOpen(k, t),
           (i: Bytes, s: Bytes, f: Bytes) => i, ToyKcv, (b: Bytes) => b, ToyBase64, ToyUnbase64, ToyUtf8, ToyFromUtf8)
  }

  lemma LawsCanBeMet()
    ensures Lawful(Toy()) && StripsTag(Toy())
  {
    var c := Toy();
    forall k: Key, n: Nonce, a: Bytes, m: Bytes ensures c.open(k, n, a, c.seal(k, n, a, m)) == Some(m) && |c.seal(k, n, a, m)| == |m| + TAG_LEN {
      var t := m + ToyTag(k);
      assert t[|t| - TAG_LEN..] == ToyTag(k) && t[..|t| - TAG_LEN] == m;
    }
    forall b: Bytes ensures c.unbase64(Text.Trim(c.base64(b))) == Some(b) {
      ToyBase64Reads(b);
    }
    forall s: string ensures c.fromUtf8(c.utf8(s)) == Some(s) {
      ToyUtf8Reads(s);
    }
  }

  /** Both byte strings, the first one's length in unary before it. */
  function Both(a: Bytes, b: Bytes): Bytes {
    Zeros(|a|) + [1] + a + b
  }

  lemma BothTellsApart(a: Bytes, b: Bytes, x: Bytes, y: Bytes)
    requires Both(a, b) == Both(x, y)
    ensures a == x && b == y
  {
    var p, q := Both(a, b), Both(x, y);
    assert p[|a|] == 1 && q[|x|] == 1;
    assert forall i :: 0 <= i < |a| ==> p[i] == 0;
    assert forall i :: 0 <= i < |x| ==> q[i] == 0;
    assert |a| == |x|;
    assert p[|a| + 1..2 * |a| + 1] == a && q[|x| + 1..2 * |x| + 1] == x;
    assert p[2 * |a| + 1..] == b && q[2 * |x| + 1..] == y;
  }

  /** A key derivation without collisions goes with every law. */
  lemma CollisionsCanBeAbsent()
    ensures var c := Toy().(hkdf := (k: Bytes, s: Bytes, i: Bytes) => Both(k, Both(s, i)));
      Lawful(c) && StripsTag(c) && Contexts.Collisionless(c)
  {
    LawsCanBeMet();
    var c := Toy().(hkdf := (k: Bytes, s: Bytes, i: Bytes) => Both(k, Both(s, i)));
    assert c.seal == Toy().seal && c.open == Toy().open && c.base64 == Toy().base64 && c.unbase64 == Toy().unbase64;
    assert c.utf8 == Toy().utf8 && c.fromUtf8 == Toy().fromUtf8;
    forall k: Bytes, s: Bytes, i: Bytes, l: Bytes, t: Bytes, j: Bytes | c.hkdf(k, s, i) == c.hkdf(l, t, j) ensures k == l && s == t && i == j {
      BothTellsApart(k, Both(s, i), l, Both(t, j));
      BothTellsApart(s, i, t, j);
    }
  }

  // ── Two logs written under a retired root ──────────────────────────────────

  const OLD_ROOT: Key := [2]
  const NEW_ROOT: Key := [1]
  const NO_CONTEXT := Context([], [])

  /** The new root is current, the old one retired. */
  function Rotated(): Cipher {
    WithRetired(Toy(), FromRoot(Toy(), NEW_ROOT, []), [OLD_ROOT])
  }

  /** A header as creating a log writes it. */
  function SomeHeader(): L.Header {
    L.BuildHeader(Zeros(20))
  }

  function OneRecord(): seq<L.Entry> {
    [L.Entry(Zeros(12), [7])]
  }

  lemma RotatedKeys()
    ensures Rotated() == Cipher([], [], ContentKey(NEW_ROOT, ToyKcv(NEW_ROOT)), [ContentKey(OLD_ROOT, ToyKcv(OLD_ROOT))])
    ensures LawfulAead(Toy()) && L.CheckHeader(SomeHeader()) == None
  {
    var c := Toy();
    LawsCanBeMet();
    L.BuiltHeaderPasses(Zeros(20));
    var cipher := FromRoot(c, NEW_ROOT, []);
    assert [OLD_ROOT][..0] == [];
    assert RetiredKeys(c, cipher, []) == [];
    assert ToyKcv(OLD_ROOT) != ToyKcv(NEW_ROOT);
  }

  /** Created under the old root and never written to: the new root takes it over. */
  lemma EmptyRetiredLogIsTakenOver()
    ensures Logs.Recovered(Toy(), SomeHeader(), Rotated(), NO_CONTEXT) == Ok(Logs.RecoveredLog([], false, false))
    ensures Logs.Reopened(Toy(), SomeHeader(), Rotated(), NO_CONTEXT).Ok?
  {
    hide LawfulAead;
    RotatedKeys();
    var c, header := Toy(), SomeHeader();
    assert L.Torn(c, OLD_ROOT, header, [], 0, header);
    Logs.RetiredLogOpens(c, Rotated(), NO_CONTEXT, header, 0, [], 0, header);
    assert L.Records([]) == [];
  }

  /** With one record: it is recovered and flagged, and refused for appending. */
  lemma WrittenRetiredLogIsRefused()
    ensures var file := L.Image(Toy(), OLD_ROOT, SomeHeader(), OneRecord());
      && Logs.Recovered(Toy(), file, Rotated(), NO_CONTEXT) == Ok(Logs.RecoveredLog([[7]], false, true))
      && Logs.Reopened(Toy(), file, Rotated(), NO_CONTEXT).Err?
  {
    hide LawfulAead;
    RotatedKeys();
    var c, header, entries := Toy(), SomeHeader(), OneRecord();
    var file := L.Image(c, OLD_ROOT, header, entries);
    assert entries[..1] == entries;
    assert L.Torn(c, OLD_ROOT, header, entries, 1, file);
    var sealed := c.seal(OLD_ROOT, entries[0].nonce, L.RecordAad(header, 0), entries[0].record);
    assert sealed[|sealed| - TAG_LEN..] == ToyTag(OLD_ROOT) && ToyTag(OLD_ROOT)[0] != ToyTag(NEW_ROOT)[0];
    assert Candidates(Rotated())[0].0.key == NEW_ROOT;
    Logs.RetiredLogOpens(c, Rotated(), NO_CONTEXT, header, 0, entries, 1, file);
    assert L.Records(entries) == [[7]];
  }
}
