/**
  A sealed log or file belongs to one store and context: its key is derived from
  their associated data. With an ideal AEAD and a key derivation without
  collisions, what was sealed for one opens for no other.
 */
module SealedContexts {
  import opened Wrappers
  import opened ByteStrings
  import opened ContentContexts
  import opened ContentCiphers
  import L = SealedLogFormat
  import Logs = SealedLogs
  import Scans = SealedLogScans
  import F = SealedFileFormat

  /** Different inputs never derive the same key. */
  ghost predicate Collisionless(c: Crypto) {
    forall k, s, i, l, t, j :: c.hkdf(k, s, i) == c.hkdf(l, t, j) ==> k == l && s == t && i == j
  }

  /** Every key that sealed anything was derived for this store and context. */
  ghost predicate SealedFor(c: Crypto, sealings: set<Sealing>, info: Bytes, store: Slice, context: Context) {
    forall s :: s in sealings ==> exists k, salt :: s.key == c.hkdf(k, salt, info + AssociatedDataOf(store, context))
  }

  lemma OtherKeyOpensNothing(c: Crypto, sealings: set<Sealing>, info: Bytes, store: Slice, home: Context, other: Slice, context: Context,
                             k: Key, salt: Bytes, nonce: Nonce, aad: Bytes, ciphertext: Bytes)
    requires OnlyOpens(c, sealings) && Collisionless(c) && SealedFor(c, sealings, info, store, home) && (other, context) != (store, home)
    ensures c.open(c.hkdf(k, salt, info + AssociatedDataOf(other, context)), nonce, aad, ciphertext).None?
  {
    var key := c.hkdf(k, salt, info + AssociatedDataOf(other, context));
    if c.open(key, nonce, aad, ciphertext).Some? {
      assert Sealing(key, nonce, aad, ciphertext) in sealings;
      var l, t :| key == c.hkdf(l, t, info + AssociatedDataOf(store, home));
      assert info + AssociatedDataOf(other, context) == info + AssociatedDataOf(store, home);
      assert (info + AssociatedDataOf(other, context))[|info|..] == AssociatedDataOf(other, context);
      assert (info + AssociatedDataOf(store, home))[|info|..] == AssociatedDataOf(store, home);
      AssociatedDataIsInjective(other, context, store, home);
    }
  }

  /** Sealed for another store or context, a log with one whole record is refused, whatever follows it. */
  lemma LogForAnotherIsRefused(c: Crypto, sealings: set<Sealing>, store: Slice, home: Context, cipher: Cipher, context: Context, bytes: Bytes, end: nat)
    requires OnlyOpens(c, sealings) && Collisionless(c) && SealedFor(c, sealings, Ascii("ryu-sealed-log-v1"), store, home)
    requires (cipher.store, context) != (store, home) && Scans.FrameThere(bytes, L.HEADER_LEN, end)
    ensures Scans.LogRefused(c, bytes, cipher, context) && Logs.Recovered(c, bytes, cipher, context).Err? && Logs.Reopened(c, bytes, cipher, context).Err?
  {
    hide AssociatedDataOf, OnlyOpens, Collisionless, SealedFor, Scans.Refused, L.CheckHeader;
    var header: L.Header := bytes[..L.HEADER_LEN];
    var keys := Candidates(cipher);
    forall n | 0 <= n < |keys| ensures Scans.Refused(c, bytes, header, L.LogKey(c, keys[n].0.key, header, Aad(cipher, context))) {
      var key := L.LogKey(c, keys[n].0.key, header, Aad(cipher, context));
      OtherKeyOpensNothing(c, sealings, L.LOG_KDF_INFO, store, home, cipher.store, context, keys[n].0.key, header[12..],
        bytes[L.HEADER_LEN + 4..L.HEADER_LEN + 16], L.RecordAad(header, 0), bytes[L.HEADER_LEN + 16..end]);
      Scans.FirstFrameFails(c, bytes, header, key, end);
    }
    Scans.LogRefusedIff(c, bytes, cipher, context);
  }

  /** Sealed for another store or context, no file opens. */
  lemma FileForAnotherDoesNotOpen(c: Crypto, sealings: set<Sealing>, store: Slice, home: Context, cipher: Cipher, context: Context, file: Bytes)
    requires OnlyOpens(c, sealings) && Collisionless(c) && SealedFor(c, sealings, Ascii("ryu-sealed-file-v1"), store, home)
    requires (cipher.store, context) != (store, home)
    ensures F.OpenedAs(c, file, cipher, context).Err?
  {
    hide AssociatedDataOf, OnlyOpens, Collisionless, SealedFor, F.Stored, F.GeometryOf, F.CheckHeader;
    var found := F.OpenedAs(c, file, cipher, context);
    if found.Ok? {
      var f := found.value;
      var n := OpeningKey(c, file, cipher, context);
      F.GeometrySound(|file|, f.size);
      var last := f.geometry.chunks - 1;
      OtherKeyOpensNothing(c, sealings, F.FILE_KDF_INFO, store, home, cipher.store, context, Candidates(cipher)[n].0.key, f.header[12..],
        F.ChunkNonce(last, true), f.header, F.Stored(file, f, last));
    }
  }

  lemma OpeningKey(c: Crypto, file: Bytes, cipher: Cipher, context: Context) returns (n: nat)
    requires F.OpenedAs(c, file, cipher, context).Ok?
    ensures var f := F.OpenedAs(c, file, cipher, context).value;
      n < |Candidates(cipher)| && f.key == F.FileKey(c, Candidates(cipher)[n].0.key, f.header, Aad(cipher, context))
  {
    hide F.GeometryOf, F.OpenWith, F.Pow2;
    var header: F.Header := file[..F.HEADER_LEN];
    var size := F.Pow2(header[8]);
    n := OpeningIndex(c, file, header, size, F.GeometryOf(|file|, size).value, Aad(cipher, context), Candidates(cipher));
  }

  lemma {:induction false} OpeningIndex(c: Crypto, file: Bytes, header: F.Header, size: nat, geometry: F.Geometry, aad: Bytes, keys: seq<(ContentKey, bool)>) returns (n: nat)
    requires size > 0 && |file| >= F.HEADER_LEN && F.GeometryOf(|file|, size) == Ok(geometry)
    requires F.OpenWith(c, file, header, size, geometry, aad, keys).Ok?
    ensures n < |keys| && F.OpenWith(c, file, header, size, geometry, aad, keys).value.key == F.FileKey(c, keys[n].0.key, header, aad)
  {
    hide F.GeometryOf, F.LoadedChunk, F.FileKey;
    F.GeometrySound(|file|, size);
    var f := F.OpenedFile(header, F.FileKey(c, keys[0].0.key, header, aad), size, geometry, keys[0].1);
    if F.LoadedChunk(c, file, f, geometry.chunks - 1).Ok? {
      n := 0;
    } else {
      n := OpeningIndex(c, file, header, size, geometry, aad, keys[1..]);
      n := n + 1;
    }
  }
}
