/**
  What a stored value is, told by its characters and by which key opens it, and
  nothing else. That the reader and the migration judge every value by this is
  proved here for all values.
 */
module ContentEnvelopes {
  import opened Wrappers
  import opened ByteStrings
  import opened ContentContexts
  import opened ContentCiphers
  import opened ContentCells
  import Text

  /** What one key makes of a nonce and a ciphertext. */
  function Decrypted(c: Crypto, key: Key, store: Slice, context: Context, blob: Bytes): Option<Bytes> {
    if |blob| < NONCE_LEN + TAG_LEN then None
    else c.open(key, blob[..NONCE_LEN], AssociatedDataOf(store, context), blob[NONCE_LEN..])
  }

  /** The current key does not open it; the first retired key that does makes `plain` of it. */
  ghost predicate RetiredOpens(c: Crypto, cipher: Cipher, context: Context, blob: Bytes, plain: Bytes) {
    && Decrypted(c, cipher.current.key, cipher.store, context, blob) == None
    && exists i :: 0 <= i < |cipher.retired|
         && Decrypted(c, cipher.retired[i].key, cipher.store, context, blob) == Some(plain)
         && forall j :: 0 <= j < i ==> Decrypted(c, cipher.retired[j].key, cipher.store, context, blob) == None
  }

  // ── Text ───────────────────────────────────────────────────────────────────

  function TextBlob(c: Crypto, stored: string): Option<Bytes> {
    if "encb:v1:" <= stored then c.unbase64(Text.Trim(stored[8..])) else None
  }

  /** `encb:v`, at least one digit, a colon. */
  predicate Versioned(stored: string) {
    "encb:v" <= stored && exists colon :: 6 < colon < |stored| && stored[colon] == ':' && forall i :: 6 <= i < colon ==> Text.IsDigit(stored[i])
  }

  /** An envelope that the current key opens holds this text. */
  function CurrentText(c: Crypto, cipher: Cipher, context: Context, stored: string): Option<string> {
    match TextBlob(c, stored)
    case None => None
    case Some(blob) =>
      match Decrypted(c, cipher.current.key, cipher.store, context, blob)
      case None => None
      case Some(bytes) => c.fromUtf8(bytes)
  }

  ghost predicate RetiredText(c: Crypto, cipher: Cipher, context: Context, stored: string, plain: string) {
    && TextBlob(c, stored).Some?
    && exists bytes :: RetiredOpens(c, cipher, context, TextBlob(c, stored).value, bytes) && c.fromUtf8(bytes) == Some(plain)
  }

  /** Not an envelope of any version: text from before sealing, perhaps escaped by a store without keys. */
  predicate LegacyText(stored: string, plain: string) {
    && stored != "" && !("encb:v1:" <= stored) && !Versioned(stored)
    && plain == (if "encb:raw:" <= stored then stored[9..] else stored)
  }

  lemma VersionedIff(stored: string)
    ensures IsVersionedFamily(stored) <==> Versioned(stored)
    ensures Versioned(stored) ==> stored != ""
  {
    if "encb:v" <= stored {
      var rest := stored[6..];
      assert stored[5..][1..] == rest && stored[5..][0] == 'v';
      DigitRunIs(rest);
      var n := DigitRun(rest);
      assert forall i :: 6 <= i < 6 + n ==> stored[i] == rest[i - 6];
      if Versioned(stored) {
        var colon :| 6 < colon < |stored| && stored[colon] == ':' && forall i :: 6 <= i < colon ==> Text.IsDigit(stored[i]);
        assert rest[colon - 6] == ':' && forall i :: 0 <= i < colon - 6 ==> rest[i] == stored[i + 6];
      }
    }
  }

  lemma {:induction false} DigitRunIs(s: string)
    ensures var n := DigitRun(s);
      (forall i :: 0 <= i < n ==> Text.IsDigit(s[i])) && (n < |s| ==> !Text.IsDigit(s[n]))
  {
    if s != "" && Text.IsDigit(s[0]) {
      DigitRunIs(s[1..]);
    }
  }

  // ── Bytes ──────────────────────────────────────────────────────────────────

  function BytesBlob(stored: Bytes): Option<Bytes> {
    if Ascii("RYU-CB01") <= stored then Some(stored[8..]) else None
  }

  function CurrentBytes(c: Crypto, cipher: Cipher, context: Context, stored: Bytes): Option<Bytes> {
    match BytesBlob(stored)
    case None => None
    case Some(blob) => Decrypted(c, cipher.current.key, cipher.store, context, blob)
  }

  ghost predicate RetiredBytes(c: Crypto, cipher: Cipher, context: Context, stored: Bytes, plain: Bytes) {
    BytesBlob(stored).Some? && RetiredOpens(c, cipher, context, BytesBlob(stored).value, plain)
  }

  /** `RYU-`, two capitals, two digits. */
  predicate RyuTag(stored: Bytes) {
    && |stored| >= 8 && stored[..4] == Ascii("RYU-")
    && (forall i :: 4 <= i < 6 ==> 'A' as int <= stored[i] <= 'Z' as int)
    && (forall i :: 6 <= i < 8 ==> '0' as int <= stored[i] <= '9' as int)
  }

  predicate LegacyBytes(stored: Bytes, plain: Bytes) {
    stored != [] && !RyuTag(stored) && plain == stored
  }

  /** The bytes start like a sealed value, file or log. */
  predicate LooksSealed(plain: Bytes) {
    Ascii("RYU-CB01") <= plain || Ascii("RYU-SF01") <= plain || Ascii("RYU-SL01") <= plain
  }

  // ── Opening ────────────────────────────────────────────────────────────────

  /** Key `i` opens the ciphertext, and no key before it. */
  predicate FirstAt(c: Crypto, keys: seq<(ContentKey, bool)>, nonce: Nonce, aad: Bytes, ciphertext: Bytes, i: nat) {
    && i < |keys| && c.open(keys[i].0.key, nonce, aad, ciphertext).Some?
    && forall j :: 0 <= j < i ==> c.open(keys[j].0.key, nonce, aad, ciphertext) == None
  }

  lemma {:induction false} FirstIndex(c: Crypto, keys: seq<(ContentKey, bool)>, nonce: Nonce, aad: Bytes, ciphertext: Bytes) returns (i: nat)
    requires FirstOpening(c, keys, nonce, aad, ciphertext).Some?
    ensures FirstAt(c, keys, nonce, aad, ciphertext, i)
    ensures FirstOpening(c, keys, nonce, aad, ciphertext) == Some((c.open(keys[i].0.key, nonce, aad, ciphertext).value, keys[i].1))
  {
    if c.open(keys[0].0.key, nonce, aad, ciphertext).Some? {
      i := 0;
    } else {
      i := FirstIndex(c, keys[1..], nonce, aad, ciphertext);
      i := i + 1;
      assert forall j :: 0 < j < |keys| ==> keys[j] == keys[1..][j - 1];
    }
  }

  lemma CurrentOpensAs(c: Crypto, cipher: Cipher, blob: Bytes, context: Context, plain: Bytes)
    requires |blob| >= NONCE_LEN + TAG_LEN
    ensures OpenBlob(c, cipher, blob, context) == Ok((plain, false)) <==> Decrypted(c, cipher.current.key, cipher.store, context, blob) == Some(plain)
  {
    hide AssociatedDataOf;
    var keys := Candidates(cipher);
    var nonce: Nonce := blob[..NONCE_LEN];
    var aad := AssociatedDataOf(cipher.store, context);
    if FirstOpening(c, keys, nonce, aad, blob[NONCE_LEN..]).Some? {
      var i := FirstIndex(c, keys, nonce, aad, blob[NONCE_LEN..]);
      assert i > 0 ==> keys[i].1 && c.open(keys[0].0.key, nonce, aad, blob[NONCE_LEN..]) == None;
    }
  }

  lemma RetiredOpensAs(c: Crypto, cipher: Cipher, blob: Bytes, context: Context, plain: Bytes)
    requires |blob| >= NONCE_LEN + TAG_LEN
    ensures OpenBlob(c, cipher, blob, context) == Ok((plain, true)) <==> RetiredOpens(c, cipher, context, blob, plain)
  {
    hide AssociatedDataOf, FirstOpening;
    var keys := Candidates(cipher);
    var nonce: Nonce := blob[..NONCE_LEN];
    var aad := AssociatedDataOf(cipher.store, context);
    if RetiredOpens(c, cipher, context, blob, plain) {
      var i :| 0 <= i < |cipher.retired| && Decrypted(c, cipher.retired[i].key, cipher.store, context, blob) == Some(plain)
        && forall j :: 0 <= j < i ==> Decrypted(c, cipher.retired[j].key, cipher.store, context, blob) == None;
      forall j | 0 <= j < i + 1 ensures c.open(keys[j].0.key, nonce, aad, blob[NONCE_LEN..]) == None {
        assert j > 0 ==> Decrypted(c, cipher.retired[j - 1].key, cipher.store, context, blob) == None;
      }
      FirstOpeningIs(c, keys, nonce, aad, blob[NONCE_LEN..], i + 1);
    }
    if OpenBlob(c, cipher, blob, context) == Ok((plain, true)) {
      var i := FirstIndex(c, keys, nonce, aad, blob[NONCE_LEN..]);
      assert Decrypted(c, cipher.retired[i - 1].key, cipher.store, context, blob) == Some(plain);
      forall j | 0 <= j < i - 1 ensures Decrypted(c, cipher.retired[j].key, cipher.store, context, blob) == None {
        assert keys[j + 1] == (cipher.retired[j], true);
      }
    }
  }

  lemma ShortBlob(c: Crypto, cipher: Cipher, context: Context, blob: Bytes)
    requires |blob| < NONCE_LEN + TAG_LEN
    ensures Decrypted(c, cipher.current.key, cipher.store, context, blob) == None
    ensures forall plain :: !RetiredOpens(c, cipher, context, blob, plain)
  {
  }

  lemma BlobText(c: Crypto, cipher: Cipher, blob: Bytes, context: Context, plain: string)
    requires |blob| >= NONCE_LEN + TAG_LEN
    ensures var r := OpenBlob(c, cipher, blob, context); var o := Decrypted(c, cipher.current.key, cipher.store, context, blob);
      && ((r.Ok? && !r.value.1 && c.fromUtf8(r.value.0) == Some(plain)) <==> (o.Some? && c.fromUtf8(o.value) == Some(plain)))
      && ((r.Ok? && r.value.1 && c.fromUtf8(r.value.0) == Some(plain))
          <==> exists bytes :: RetiredOpens(c, cipher, context, blob, bytes) && c.fromUtf8(bytes) == Some(plain))
  {
    hide OpenBlob, RetiredOpens, Decrypted;
    var o := Decrypted(c, cipher.current.key, cipher.store, context, blob);
    if o.Some? {
      CurrentOpensAs(c, cipher, blob, context, o.value);
    }
    var r := OpenBlob(c, cipher, blob, context);
    if r.Ok? {
      CurrentOpensAs(c, cipher, blob, context, r.value.0);
      RetiredOpensAs(c, cipher, blob, context, r.value.0);
    }
    if bytes :| RetiredOpens(c, cipher, context, blob, bytes) && c.fromUtf8(bytes) == Some(plain) {
      RetiredOpensAs(c, cipher, blob, context, bytes);
    }
  }

  lemma TextOpensAs(c: Crypto, cipher: Cipher, text: string, context: Context, plain: string)
    ensures OpenText(c, cipher, text, context) == Ok(Opened(plain, false))
       <==> (text == "" && plain == "") || CurrentText(c, cipher, context, text) == Some(plain)
    ensures OpenText(c, cipher, text, context) == Ok(Opened(plain, true))
       <==> (text != "" && !("encb:v1:" <= text) && !Versioned(text) && plain == text) || RetiredText(c, cipher, context, text, plain)
  {
    hide OpenBlob, IsVersionedFamily, Versioned, RetiredOpens, Decrypted;
    VersionedIff(text);
    if CONTENT_TEXT_PREFIX <= text {
      assert text != "" && TextBlob(c, text) == c.unbase64(Text.Trim(Text.StripPrefix(text, CONTENT_TEXT_PREFIX).value));
      if TextBlob(c, text).Some? {
        var blob := TextBlob(c, text).value;
        if |blob| >= NONCE_LEN + TAG_LEN {
          BlobText(c, cipher, blob, context, plain);
        } else {
          ShortBlob(c, cipher, context, blob);
        }
      }
    }
  }

  lemma BytesOpenAs(c: Crypto, cipher: Cipher, stored: Bytes, context: Context, plain: Bytes)
    ensures OpenBytes(c, cipher, stored, context) == Ok(Opened(plain, false))
       <==> (stored == [] && plain == []) || CurrentBytes(c, cipher, context, stored) == Some(plain)
    ensures OpenBytes(c, cipher, stored, context) == Ok(Opened(plain, true))
       <==> LegacyBytes(stored, plain) || RetiredBytes(c, cipher, context, stored, plain)
  {
    hide OpenBlob, RetiredOpens, Decrypted, LooksLikeRyuMagic, RyuTag;
    RyuTagIff(stored);
    if CONTENT_BYTES_MAGIC <= stored {
      var blob := stored[8..];
      EnvelopesAreTagged(stored);
      assert stored != [];
      if |blob| >= NONCE_LEN + TAG_LEN {
        CurrentOpensAs(c, cipher, blob, context, plain);
        RetiredOpensAs(c, cipher, blob, context, plain);
      } else {
        ShortBlob(c, cipher, context, blob);
      }
    }
  }

  lemma RyuTagIff(stored: Bytes)
    ensures LooksLikeRyuMagic(stored) <==> RyuTag(stored)
    ensures RyuTag(stored) ==> stored != []
  {
  }

  lemma EnvelopesAreTagged(stored: Bytes)
    requires LooksSealed(stored)
    ensures RyuTag(stored)
  {
    assert stored[..4] == Ascii("RYU-");
    assert stored[4] == 'C' as int || stored[4] == 'S' as int;
    assert stored[5] == 'B' as int || stored[5] == 'F' as int || stored[5] == 'L' as int;
  }

  // ── What every value is taken for ──────────────────────────────────────────

  /**
    A TEXT cell is finished exactly when it is empty or an envelope the current key
    opens; is resealed, as `plain`, exactly when it is legacy text or an envelope a
    retired key opens; and else stays as it is. It reads as what any of these hold.
   */
  lemma TextCellIff(c: Crypto, cipher: Cipher, cell: Cell, context: Context, text: string, plain: string)
    requires cell != Null && TextOf(c, cell) == Some(text)
    ensures VerdictOf(c, cipher, TextColumn, cell, context) == Finished <==> text == "" || CurrentText(c, cipher, context, text).Some?
    ensures VerdictOf(c, cipher, TextColumn, cell, context) == MustSealText(plain)
       <==> LegacyText(text, plain) || RetiredText(c, cipher, context, text, plain)
    ensures !VerdictOf(c, cipher, TextColumn, cell, context).MustSealBytes?
    ensures ReadingOf(c, cipher, TextColumn, cell, context) == PlainText(plain)
       <==> (text == "" && plain == "") || CurrentText(c, cipher, context, text) == Some(plain)
            || LegacyText(text, plain) || RetiredText(c, cipher, context, text, plain)
    ensures ReadingOf(c, cipher, TextColumn, cell, context).PlainText? || ReadingOf(c, cipher, TextColumn, cell, context) == DoesNotRead(cell)
  {
    hide OpenText, Versioned, RetiredText, CurrentText;
    TextOpensAs(c, cipher, text, context, plain);
    TextOpensAs(c, cipher, text, context, text);
    var o := OpenText(c, cipher, text, context);
    if o.Ok? {
      TextOpensAs(c, cipher, text, context, o.value.value);
      OnlyEnvelopes(c, cipher, context, text, o.value.value);
    }
    if CurrentText(c, cipher, context, text).Some? {
      TextOpensAs(c, cipher, text, context, CurrentText(c, cipher, context, text).value);
    }
    OnlyEnvelopes(c, cipher, context, text, plain);
  }

  lemma OnlyEnvelopes(c: Crypto, cipher: Cipher, context: Context, text: string, plain: string)
    ensures CurrentText(c, cipher, context, text).Some? || RetiredText(c, cipher, context, text, plain) ==> "encb:v1:" <= text
  {
  }

  /** A BLOB cell likewise, except that what looks like a sealed value is never sealed again. */
  lemma BytesCellIff(c: Crypto, cipher: Cipher, cell: Cell, context: Context, plain: Bytes)
    requires cell != Null
    ensures var stored := BytesOf(c, cell); var verdict := VerdictOf(c, cipher, BlobColumn, cell, context);
      && (verdict == Finished <==> stored == [] || CurrentBytes(c, cipher, context, stored).Some?)
      && (verdict == MustSealBytes(plain)
          <==> (LegacyBytes(stored, plain) || RetiredBytes(c, cipher, context, stored, plain)) && !LooksSealed(plain))
      && !verdict.MustSealText?
    ensures var stored := BytesOf(c, cell); var reading := ReadingOf(c, cipher, BlobColumn, cell, context);
      && (reading == PlainBytes(plain)
          <==> (stored == [] && plain == []) || CurrentBytes(c, cipher, context, stored) == Some(plain)
               || LegacyBytes(stored, plain) || RetiredBytes(c, cipher, context, stored, plain))
      && (reading.PlainBytes? || reading == DoesNotRead(cell))
  {
    hide OpenBytes, RyuTag, RetiredBytes, CurrentBytes;
    var stored := BytesOf(c, cell);
    BytesOpenAs(c, cipher, stored, context, plain);
    var o := OpenBytes(c, cipher, stored, context);
    if o.Ok? {
      BytesOpenAs(c, cipher, stored, context, o.value.value);
    }
    if CurrentBytes(c, cipher, context, stored).Some? {
      BytesOpenAs(c, cipher, stored, context, CurrentBytes(c, cipher, context, stored).value);
    }
    BytesOpenAs(c, cipher, stored, context, []);
  }

  /** No value, an empty one, or an envelope that opens under the current key alone. */
  ghost predicate EnvelopeOrEmpty(c: Crypto, cipher: Cipher, kind: ColumnKind, cell: Cell, context: Context) {
    cell == Null || match kind
      case TextColumn =>
        var text := TextOf(c, cell);
        text.Some? && (text.value == "" || CurrentText(c, cipher, context, text.value).Some?)
      case BlobColumn => BytesOf(c, cell) == [] || CurrentBytes(c, cipher, context, BytesOf(c, cell)).Some?
  }

  lemma FinishedIff(c: Crypto, cipher: Cipher, kind: ColumnKind, cell: Cell, context: Context)
    ensures VerdictOf(c, cipher, kind, cell, context) == Finished <==> EnvelopeOrEmpty(c, cipher, kind, cell, context)
  {
    hide OpenText, OpenBytes, CurrentText, CurrentBytes;
    if cell != Null {
      match kind {
        case TextColumn =>
          if TextOf(c, cell).Some? {
            TextCellIff(c, cipher, cell, context, TextOf(c, cell).value, "");
          }
        case BlobColumn => BytesCellIff(c, cipher, cell, context, []);
      }
    }
  }
}
