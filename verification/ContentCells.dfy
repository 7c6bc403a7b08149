/** One stored cell: what it means, whether it still has to be sealed, and sealing it. */
module ContentCells {
  import opened Wrappers
  import opened ByteStrings
  import opened ContentContexts
  import opened ContentCiphers
  import Text

  datatype ColumnKind = TextColumn | BlobColumn

  /** An SQLite value. A number is held as the text it renders to. */
  datatype Cell = Null | Number(rendered: string) | Text(text: string) | Blob(bytes: Bytes)

  /** What a reader gets out of a cell. */
  datatype Reading = NoValue | PlainText(text: string) | PlainBytes(bytes: Bytes) | DoesNotRead(cell: Cell)

  /** What the migration must do with a cell. */
  datatype Verdict = Finished | Stuck | MustSealText(text: string) | MustSealBytes(bytes: Bytes)

  function TextOf(c: Crypto, cell: Cell): Option<string>
    requires cell != Null
  {
    match cell
    case Number(rendered) => Some(rendered)
    case Text(text) => Some(text)
    case Blob(bytes) => c.fromUtf8(bytes)
  }

  function BytesOf(c: Crypto, cell: Cell): Bytes
    requires cell != Null
  {
    match cell
    case Number(rendered) => c.utf8(rendered)
    case Text(text) => c.utf8(text)
    case Blob(bytes) => bytes
  }

  /** Legacy plaintext from a keyless store may carry the compat escape; sealed text never does. */
  function Unescaped(stored: string, value: string): string {
    if CONTENT_TEXT_PREFIX <= stored then value
    else match Text.StripPrefix(value, COMPAT_ESCAPE)
      case Some(inner) => inner
      case None => value
  }

  function ReadingOf(c: Crypto, cipher: Cipher, kind: ColumnKind, cell: Cell, context: Context): Reading {
    if cell == Null then NoValue
    else match kind
      case TextColumn =>
        (match TextOf(c, cell)
         case None => DoesNotRead(cell)
         case Some(text) =>
           match OpenText(c, cipher, text, context)
           case Err(_) => DoesNotRead(cell)
           case Ok(o) => PlainText(Unescaped(text, o.value)))
      case BlobColumn =>
        match OpenBytes(c, cipher, BytesOf(c, cell), context)
        case Err(_) => DoesNotRead(cell)
        case Ok(o) => PlainBytes(o.value)
  }

  function VerdictOf(c: Crypto, cipher: Cipher, kind: ColumnKind, cell: Cell, context: Context): Verdict {
    if cell == Null then Finished
    else match kind
      case TextColumn =>
        (match TextOf(c, cell)
         case None => Stuck
         case Some(text) =>
           match OpenText(c, cipher, text, context)
           case Err(_) => Stuck
           case Ok(o) => if o.needsReseal then MustSealText(Unescaped(text, o.value)) else Finished)
      case BlobColumn =>
        match OpenBytes(c, cipher, BytesOf(c, cell), context)
        case Err(_) => Stuck
        case Ok(o) =>
          if !o.needsReseal then Finished
          else if StartsWithRyuMagic(o.value) then Stuck
          else MustSealBytes(o.value)
  }

  datatype Outcome = Sealed(cell: Cell) | Already | Unreadable

  /** Open a value and, if it needs it, seal it again under the current key. */
  method ResealValue(c: Crypto, cipher: Cipher, kind: ColumnKind, stored: Cell, context: Context, nonce: Nonce) returns (r: Outcome)
    requires Lawful(c)
    ensures match VerdictOf(c, cipher, kind, stored, context)
      case Finished => r == Already
      case Stuck => r == Unreadable
      case _ => r.Sealed? && Replaces(c, cipher, kind, context, stored, r.cell)
  {
    hide Lawful;
    match kind {
      case TextColumn =>
        var text: string;
        match stored {
          case Null => return Already;
          case Number(rendered) => text := rendered;
          case Text(t) => text := t;
          case Blob(bytes) =>
            var decoded := c.fromUtf8(bytes);
            if decoded.None? {
              return Unreadable;
            }
            text := decoded.value;
        }
        var o := OpenText(c, cipher, text, context);
        if o.Err? {
          return Unreadable;
        }
        if !o.value.needsReseal {
          return Already;
        }
        var plain := o.value.value;
        if !(CONTENT_TEXT_PREFIX <= text) {
          var inner := Text.StripPrefix(plain, COMPAT_ESCAPE);
          plain := if inner.Some? then inner.value else plain;
        }
        SealedTextReplaces(c, cipher, context, stored, text, plain, nonce);
        return Sealed(Cell.Text(SealText(c, cipher, plain, context, nonce)));
      case BlobColumn =>
        if stored == Null {
          return Already;
        }
        var bytes := BytesOf(c, stored);
        var o := OpenBytes(c, cipher, bytes, context);
        if o.Err? {
          return Unreadable;
        }
        if !o.value.needsReseal {
          return Already;
        }
        var sealed := SealBytes(c, cipher, o.value.value, context, nonce);
        if sealed.Err? {
          return Unreadable;
        }
        SealedBytesReplace(c, cipher, context, stored, o.value.value, nonce);
        return Sealed(Blob(sealed.value));
    }
  }

  /** `after` may stand where `before` stood: it needs nothing more and reads the same. */
  ghost predicate Replaces(c: Crypto, cipher: Cipher, kind: ColumnKind, context: Context, before: Cell, after: Cell) {
    && VerdictOf(c, cipher, kind, after, context) == Finished
    && ReadingOf(c, cipher, kind, after, context) == ReadingOf(c, cipher, kind, before, context)
  }

  lemma SealedTextReplaces(c: Crypto, cipher: Cipher, context: Context, before: Cell, text: string, plain: string, nonce: Nonce)
    requires Lawful(c) && before != Null && TextOf(c, before) == Some(text)
    requires OpenText(c, cipher, text, context).Ok? && plain == Unescaped(text, OpenText(c, cipher, text, context).value.value)
    ensures Replaces(c, cipher, TextColumn, context, before, Cell.Text(SealText(c, cipher, plain, context, nonce)))
  {
    hide OpenText, Lawful;
    OpensSealedText(c, cipher, plain, context, nonce);
  }

  lemma SealedBytesReplace(c: Crypto, cipher: Cipher, context: Context, before: Cell, plain: Bytes, nonce: Nonce)
    requires Lawful(c) && before != Null && !StartsWithRyuMagic(plain)
    requires OpenBytes(c, cipher, BytesOf(c, before), context).Ok? && plain == OpenBytes(c, cipher, BytesOf(c, before), context).value.value
    ensures Replaces(c, cipher, BlobColumn, context, before, Blob(SealBytes(c, cipher, plain, context, nonce).value))
  {
    hide OpenBytes, LawfulAead;
    OpensSealedBytes(c, cipher, plain, context, nonce);
  }

  /** A finished cell reads the same once the retired keys are gone. */
  lemma FinishedNeedsNoRetiredKey(c: Crypto, cipher: Cipher, kind: ColumnKind, cell: Cell, context: Context)
    requires VerdictOf(c, cipher, kind, cell, context) == Finished
    ensures var alone := cipher.(retired := []);
            && VerdictOf(c, alone, kind, cell, context) == Finished
            && ReadingOf(c, alone, kind, cell, context) == ReadingOf(c, cipher, kind, cell, context)
            && !ReadingOf(c, alone, kind, cell, context).DoesNotRead?
  {
    hide OpenText, OpenBytes;
    if cell != Null {
      match kind {
        case TextColumn => CurrentKeyReadsText(c, cipher, TextOf(c, cell).value, context);
        case BlobColumn => CurrentKeyReadsBytes(c, cipher, BytesOf(c, cell), context);
      }
    }
  }

  lemma CurrentKeyReadsText(c: Crypto, cipher: Cipher, text: string, context: Context)
    requires var o := OpenText(c, cipher, text, context); o.Ok? && !o.value.needsReseal
    ensures OpenText(c, cipher.(retired := []), text, context) == OpenText(c, cipher, text, context)
  {
    hide OpenBlob, IsVersionedFamily;
    if CONTENT_TEXT_PREFIX <= text {
      var blob := c.unbase64(Text.Trim(Text.StripPrefix(text, CONTENT_TEXT_PREFIX).value)).value;
      CurrentKeyOpened(c, cipher, blob, context);
    }
  }

  lemma CurrentKeyReadsBytes(c: Crypto, cipher: Cipher, bytes: Bytes, context: Context)
    requires var o := OpenBytes(c, cipher, bytes, context); o.Ok? && !o.value.needsReseal
    ensures OpenBytes(c, cipher.(retired := []), bytes, context) == OpenBytes(c, cipher, bytes, context)
  {
    hide OpenBlob, LooksLikeRyuMagic;
    if CONTENT_BYTES_MAGIC <= bytes {
      CurrentKeyOpened(c, cipher, bytes[8..], context);
    }
  }

  lemma CurrentKeyOpened(c: Crypto, cipher: Cipher, blob: Bytes, context: Context)
    requires |blob| >= NONCE_LEN && OpenBlob(c, cipher, blob, context).Ok? && !OpenBlob(c, cipher, blob, context).value.1
    ensures OpenBlob(c, cipher.(retired := []), blob, context) == OpenBlob(c, cipher, blob, context)
  {
    var keys := Candidates(cipher);
    var nonce: Nonce := blob[..NONCE_LEN];
    var aad := Aad(cipher, context);
    if c.open(keys[0].0.key, nonce, aad, blob[NONCE_LEN..]).None? {
      OnlyRetiredLeft(c, keys[1..], nonce, aad, blob[NONCE_LEN..]);
    }
  }

  lemma {:induction false} OnlyRetiredLeft(c: Crypto, keys: seq<(ContentKey, bool)>, nonce: Nonce, aad: Bytes, ciphertext: Bytes)
    requires forall i :: 0 <= i < |keys| ==> keys[i].1
    ensures var found := FirstOpening(c, keys, nonce, aad, ciphertext); found.Some? ==> found.value.1
  {
    if keys != [] {
      OnlyRetiredLeft(c, keys[1..], nonce, aad, ciphertext);
    }
  }
}
