/**
  Content ciphers: which keys a store can open with, and the TEXT and BLOB
  envelopes. The cryptography itself is a record of functions; every theorem
  holds for all functions that satisfy the laws in Lawful.
 */
module ContentCiphers {
  import opened Wrappers
  import opened ByteStrings
  import opened ContentContexts
  import Text

  const NONCE_LEN := 12
  const TAG_LEN := 16

  type Key = Bytes
  type Nonce = n: Bytes | |n| == NONCE_LEN witness [0, 0, 0, 0, 0, 0, 0, 0, 0, 0, 0, 0]

  /**
    The foreign code: the AEAD of section 2.8 of RFC 8439, HKDF (ikm, salt,
    info), the key check value of a root, SHA-256, base64 and UTF-8.
   */
  datatype Crypto = Crypto(
    seal: (Key, Nonce, Bytes, Bytes) -> Bytes,
    open: (Key, Nonce, Bytes, Bytes) -> Option<Bytes>,
    hkdf: (Bytes, Bytes, Bytes) -> Key,
    kcv: Key -> string,
    sha256: Bytes -> Bytes,
    base64: Bytes -> string,
    unbase64: string -> Option<Bytes>,
    utf8: string -> Bytes,
    fromUtf8: Bytes -> Option<string>)

  ghost predicate TagLength(c: Crypto) {
    forall k, n, a, m :: |c.seal(k, n, a, m)| == |m| + TAG_LEN
  }

  ghost predicate LawfulAead(c: Crypto) {
    (forall k, n, a, m :: c.open(k, n, a, c.seal(k, n, a, m)) == Some(m)) && TagLength(c)
  }

  /** What was sealed from `m` opens as `m`. */
  predicate SealOpens(c: Crypto, k: Key, n: Nonce, a: Bytes, m: Bytes) {
    c.open(k, n, a, c.seal(k, n, a, m)) == Some(m)
  }

  /** Decryption strips exactly the tag. */
  ghost predicate StripsTag(c: Crypto) {
    forall k, n, a, t :: c.open(k, n, a, t).Some? ==> |c.open(k, n, a, t).value| + TAG_LEN == |t|
  }

  ghost predicate Lawful(c: Crypto) {
    && LawfulAead(c)
    && (forall b :: c.unbase64(Text.Trim(c.base64(b))) == Some(b))
    && (forall s :: c.fromUtf8(c.utf8(s)) == Some(s))
  }

  /** One AEAD encryption that took place. */
  datatype Sealing = Sealing(key: Key, nonce: Nonce, aad: Bytes, ciphertext: Bytes)

  /**
    The ideal AEAD: nothing opens except what was sealed. Assumed only where a
    theorem says something fails, and then of the sealings that took place only:
    no function meets LawfulAead and this for a finite set.
   */
  ghost predicate OnlyOpens(c: Crypto, sealings: set<Sealing>) {
    forall k, n, a, t :: c.open(k, n, a, t).Some? ==> Sealing(k, n, a, t) in sealings
  }

  // ── Key lists ──────────────────────────────────────────────────────────────

  datatype ContentKey = ContentKey(key: Key, rootKcv: string)

  datatype Cipher = Cipher(store: Slice, labels: seq<Bytes>, current: ContentKey, retired: seq<ContentKey>)

  const CONTENT_KDF_SALT := Ascii("ryu-content-crypto-v1")
  const CONTENT_KDF_INFO := Ascii("ryu-content-crypto-v1:")
  const SUB_KDF_SALT := Ascii("ryu-content-sub-v1")
  const SUB_KDF_INFO := Ascii("ryu-content-sub-v1:")

  function DeriveContentKey(c: Crypto, root: Key, store: Slice): Key {
    c.hkdf(root, CONTENT_KDF_SALT, CONTENT_KDF_INFO + store)
  }

  function DeriveSubKey(c: Crypto, key: Key, name: Bytes): Key {
    c.hkdf(key, SUB_KDF_SALT, SUB_KDF_INFO + name)
  }

  /** The key of `store` under `root`, followed down a path of sub-cipher labels. */
  function DerivePath(c: Crypto, root: Key, store: Slice, labels: seq<Bytes>): Key {
    if labels == [] then DeriveContentKey(c, root, store)
    else DeriveSubKey(c, DerivePath(c, root, store, labels[..|labels| - 1]), labels[|labels| - 1])
  }

  function FromRoot(c: Crypto, root: Key, store: Slice): Cipher {
    Cipher(store, [], ContentKey(DeriveContentKey(c, root, store), c.kcv(root)), [])
  }

  predicate HasKcv(keys: seq<ContentKey>, kcv: string) {
    exists i :: 0 <= i < |keys| && keys[i].rootKcv == kcv
  }

  /** The retired keys kept from `roots`: first come first, one per key check value, never the current one. */
  function RetiredKeys(c: Crypto, cipher: Cipher, roots: seq<Key>): seq<ContentKey> {
    if roots == [] then []
    else
      var before := RetiredKeys(c, cipher, roots[..|roots| - 1]);
      var root := roots[|roots| - 1];
      if c.kcv(root) == cipher.current.rootKcv || HasKcv(before, c.kcv(root)) then before
      else before + [ContentKey(DerivePath(c, root, cipher.store, cipher.labels), c.kcv(root))]
  }

  function WithRetired(c: Crypto, cipher: Cipher, roots: seq<Key>): Cipher {
    cipher.(retired := RetiredKeys(c, cipher, roots))
  }

  method WithRetiredRoots(c: Crypto, cipher: Cipher, roots: seq<Key>) returns (r: Cipher)
    ensures r == WithRetired(c, cipher, roots)
  {
    var retired: seq<ContentKey> := [];
    for i := 0 to |roots|
      invariant retired == RetiredKeys(c, cipher, roots[..i])
    {
      assert roots[..i + 1][..i] == roots[..i];
      var kcv := c.kcv(roots[i]);
      if kcv != cipher.current.rootKcv && !HasKcv(retired, kcv) {
        retired := retired + [ContentKey(DerivePath(c, roots[i], cipher.store, cipher.labels), kcv)];
      }
    }
    assert roots[..|roots|] == roots;
    r := cipher.(retired := retired);
  }

  function SubKey(c: Crypto, key: ContentKey, name: Bytes): ContentKey {
    ContentKey(DeriveSubKey(c, key.key, name), key.rootKcv)
  }

  function SubCipher(c: Crypto, cipher: Cipher, name: Bytes): Cipher {
    Cipher(cipher.store, cipher.labels + [name], SubKey(c, cipher.current, name),
           seq(|cipher.retired|, i requires 0 <= i < |cipher.retired| => SubKey(c, cipher.retired[i], name)))
  }

  function Nest(c: Crypto, cipher: Cipher, labels: seq<Bytes>): Cipher
    decreases |labels|
  {
    if labels == [] then cipher else Nest(c, SubCipher(c, cipher, labels[0]), labels[1..])
  }

  /** Attaching retired roots commutes with one level of sub-cipher derivation. */
  lemma {:induction false} RetiredKeysFollow(c: Crypto, cipher: Cipher, roots: seq<Key>, name: Bytes)
    ensures SubCipher(c, WithRetired(c, cipher, roots), name).retired
         == RetiredKeys(c, SubCipher(c, cipher, name), roots)
  {
    if roots != [] {
      var init := roots[..|roots| - 1];
      var root := roots[|roots| - 1];
      RetiredKeysFollow(c, cipher, init, name);
      var before := RetiredKeys(c, cipher, init);
      var child := SubCipher(c, cipher, name);
      var beforeChild := RetiredKeys(c, child, init);
      assert |before| == |beforeChild|;
      assert forall i :: 0 <= i < |before| ==> beforeChild[i] == SubKey(c, before[i], name);
      assert HasKcv(before, c.kcv(root)) == HasKcv(beforeChild, c.kcv(root));
      assert child.labels[..|child.labels| - 1] == cipher.labels;
      assert DerivePath(c, root, child.store, child.labels)
          == DeriveSubKey(c, DerivePath(c, root, cipher.store, cipher.labels), name);
    }
  }

  /**
    Attaching the retired roots before, between or after any nesting of
    sub-cipher labels yields the same cipher, hence the same candidate keys.
   */
  lemma {:induction false} RetiredRootsCommuteWithNesting(c: Crypto, cipher: Cipher, roots: seq<Key>, labels: seq<Bytes>)
    ensures Nest(c, WithRetired(c, cipher, roots), labels) == WithRetired(c, Nest(c, cipher, labels), roots)
    decreases |labels|
  {
    if labels != [] {
      var child := SubCipher(c, cipher, labels[0]);
      RetiredKeysFollow(c, cipher, roots, labels[0]);
      assert SubCipher(c, WithRetired(c, cipher, roots), labels[0]) == WithRetired(c, child, roots);
      RetiredRootsCommuteWithNesting(c, child, roots, labels[1..]);
    }
  }

  /** Current key first, then the retired ones, each with its `retired` flag. */
  function Candidates(cipher: Cipher): (r: seq<(ContentKey, bool)>)
    ensures |r| == 1 + |cipher.retired| && r[0] == (cipher.current, false)
    ensures forall i :: 0 < i < |r| ==> r[i] == (cipher.retired[i - 1], true)
  {
    [(cipher.current, false)]
    + seq(|cipher.retired|, i requires 0 <= i < |cipher.retired| => (cipher.retired[i], true))
  }

  /** The retired list holds each given check value exactly once, and never the current one. */
  lemma RetiredKeysCoverRoots(c: Crypto, cipher: Cipher, roots: seq<Key>)
    ensures AllDiffer(RetiredKeys(c, cipher, roots), cipher.current.rootKcv)
    ensures forall root :: root in roots && c.kcv(root) != cipher.current.rootKcv ==> HasKcv(RetiredKeys(c, cipher, roots), c.kcv(root))
    ensures forall key :: key in RetiredKeys(c, cipher, roots) ==>
              exists root :: root in roots && key == ContentKey(DerivePath(c, root, cipher.store, cipher.labels), c.kcv(root))
  {
    hide RetiredKeys;
    RetiredKeysDiffer(c, cipher, roots);
    RetiredKeysAreRoots(c, cipher, roots);
    forall root | root in roots && c.kcv(root) != cipher.current.rootKcv ensures HasKcv(RetiredKeys(c, cipher, roots), c.kcv(root)) {
      RootIsRetired(c, cipher, roots, root);
    }
  }

  /** No two keys share a check value, and none has this one. */
  predicate AllDiffer(keys: seq<ContentKey>, kcv: string) {
    && (forall i :: 0 <= i < |keys| ==> keys[i].rootKcv != kcv)
    && (forall i, j :: 0 <= i < j < |keys| ==> keys[i].rootKcv != keys[j].rootKcv)
  }

  lemma {:induction false} RetiredKeysDiffer(c: Crypto, cipher: Cipher, roots: seq<Key>)
    ensures AllDiffer(RetiredKeys(c, cipher, roots), cipher.current.rootKcv)
  {
    if roots != [] {
      var before := RetiredKeys(c, cipher, roots[..|roots| - 1]);
      var keys := RetiredKeys(c, cipher, roots);
      RetiredKeysDiffer(c, cipher, roots[..|roots| - 1]);
      assert before <= keys && |keys| <= |before| + 1;
      assert keys != before ==> !HasKcv(before, keys[|before|].rootKcv) && keys[|before|].rootKcv != cipher.current.rootKcv;
    }
  }

  lemma {:induction false} RetiredKeysAreRoots(c: Crypto, cipher: Cipher, roots: seq<Key>)
    ensures forall key :: key in RetiredKeys(c, cipher, roots) ==>
              exists root :: root in roots && key == ContentKey(DerivePath(c, root, cipher.store, cipher.labels), c.kcv(root))
  {
    hide DerivePath;
    if roots != [] {
      RetiredKeysAreRoots(c, cipher, roots[..|roots| - 1]);
    }
  }

  lemma {:induction false} RootIsRetired(c: Crypto, cipher: Cipher, roots: seq<Key>, root: Key)
    requires root in roots && c.kcv(root) != cipher.current.rootKcv
    ensures HasKcv(RetiredKeys(c, cipher, roots), c.kcv(root))
  {
    hide DerivePath;
    var init := roots[..|roots| - 1];
    var before := RetiredKeys(c, cipher, init);
    var keys := RetiredKeys(c, cipher, roots);
    assert before <= keys;
    if root in init {
      RootIsRetired(c, cipher, init, root);
      var i :| 0 <= i < |before| && before[i].rootKcv == c.kcv(root);
      assert keys[i] == before[i];
    } else {
      assert root == roots[|roots| - 1];
      assert !HasKcv(before, c.kcv(root)) ==> keys[|before|].rootKcv == c.kcv(root);
    }
  }

  datatype KcvMatch = MatchesCurrent | MatchesRetired | Unknown

  function MatchKcv(cipher: Cipher, kcv: string): KcvMatch {
    if kcv == cipher.current.rootKcv then MatchesCurrent
    else if HasKcv(cipher.retired, kcv) then MatchesRetired
    else Unknown
  }

  // ── Envelopes ──────────────────────────────────────────────────────────────

  datatype SealError = UnknownVersion | DoesNotOpen | Malformed | AlreadyARyuEnvelope

  datatype Opened<T> = Opened(value: T, needsReseal: bool)

  const CONTENT_TEXT_PREFIX := "encb:v1:"
  const CONTENT_TEXT_FAMILY := "encb:"
  const COMPAT_ESCAPE := "encb:raw:"
  const CONTENT_BYTES_MAGIC := Ascii("RYU-CB01")
  const SEALED_FILE_MAGIC := Ascii("RYU-SF01")
  const SEALED_LOG_MAGIC := Ascii("RYU-SL01")

  function Aad(cipher: Cipher, context: Context): Bytes {
    AssociatedDataOf(cipher.store, context)
  }

  function FirstOpening(c: Crypto, keys: seq<(ContentKey, bool)>, nonce: Nonce, aad: Bytes, ciphertext: Bytes): Option<(Bytes, bool)> {
    if keys == [] then None
    else match c.open(keys[0].0.key, nonce, aad, ciphertext)
      case Some(plain) => Some((plain, keys[0].1))
      case None => FirstOpening(c, keys[1..], nonce, aad, ciphertext)
  }

  /** Try the current key, then each retired key. */
  function OpenBlob(c: Crypto, cipher: Cipher, blob: Bytes, context: Context): Result<(Bytes, bool), SealError>
    requires |blob| >= NONCE_LEN
  {
    match FirstOpening(c, Candidates(cipher), blob[..NONCE_LEN], Aad(cipher, context), blob[NONCE_LEN..])
    case Some(found) => Ok(found)
    case None => Err(DoesNotOpen)
  }

  function SealBlob(c: Crypto, cipher: Cipher, plain: Bytes, context: Context, nonce: Nonce): Bytes {
    nonce + c.seal(cipher.current.key, nonce, Aad(cipher, context), plain)
  }

  function SealText(c: Crypto, cipher: Cipher, plain: string, context: Context, nonce: Nonce): string {
    CONTENT_TEXT_PREFIX + c.base64(SealBlob(c, cipher, c.utf8(plain), context, nonce))
  }

  function DigitRun(s: string): (n: nat)
    ensures n <= |s|
  {
    if s == "" || !Text.IsDigit(s[0]) then 0 else 1 + DigitRun(s[1..])
  }

  /** `encb:` followed by `v<digits>:`. */
  predicate IsVersionedFamily(stored: string) {
    && CONTENT_TEXT_FAMILY <= stored
    && var rest := stored[|CONTENT_TEXT_FAMILY|..];
       && rest != "" && rest[0] == 'v'
       && var digits := DigitRun(rest[1..]);
          digits > 0 && digits < |rest[1..]| && rest[1..][digits] == ':'
  }

  function OpenText(c: Crypto, cipher: Cipher, stored: string, context: Context): Result<Opened<string>, SealError> {
    match Text.StripPrefix(stored, CONTENT_TEXT_PREFIX)
    case None =>
      if IsVersionedFamily(stored) then Err(UnknownVersion)
      else Ok(Opened(stored, stored != ""))
    case Some(encoded) =>
      match c.unbase64(Text.Trim(encoded))
      case None => Err(Malformed)
      case Some(blob) =>
        if |blob| < NONCE_LEN + TAG_LEN then Err(Malformed)
        else match OpenBlob(c, cipher, blob, context)
          case Err(e) => Err(e)
          case Ok(found) =>
            match c.fromUtf8(found.0)
            case None => Err(Malformed)
            case Some(value) => Ok(Opened(value, found.1))
  }

  predicate IsUpper(b: byte) { 65 <= b <= 90 }

  predicate IsAsciiDigit(b: byte) { 48 <= b <= 57 }

  /** `RYU-`, two upper-case letters, two digits. */
  predicate LooksLikeRyuMagic(b: Bytes) {
    && |b| >= 8 && b[..4] == Ascii("RYU-")
    && IsUpper(b[4]) && IsUpper(b[5]) && IsAsciiDigit(b[6]) && IsAsciiDigit(b[7])
  }

  predicate StartsWithRyuMagic(b: Bytes) {
    CONTENT_BYTES_MAGIC <= b || SEALED_FILE_MAGIC <= b || SEALED_LOG_MAGIC <= b
  }

  function SealBytes(c: Crypto, cipher: Cipher, plain: Bytes, context: Context, nonce: Nonce): Result<Bytes, SealError> {
    if StartsWithRyuMagic(plain) then Err(AlreadyARyuEnvelope)
    else Ok(CONTENT_BYTES_MAGIC + SealBlob(c, cipher, plain, context, nonce))
  }

  function OpenBytes(c: Crypto, cipher: Cipher, stored: Bytes, context: Context): Result<Opened<Bytes>, SealError> {
    if CONTENT_BYTES_MAGIC <= stored then
      var blob := stored[8..];
      if |blob| < NONCE_LEN + TAG_LEN then Err(Malformed)
      else match OpenBlob(c, cipher, blob, context)
        case Err(e) => Err(e)
        case Ok(found) => Ok(Opened(found.0, found.1))
    else if LooksLikeRyuMagic(stored) then Err(UnknownVersion)
    else Ok(Opened(stored, stored != []))
  }

  lemma OpensSealedBlob(c: Crypto, cipher: Cipher, plain: Bytes, context: Context, nonce: Nonce)
    requires LawfulAead(c)
    ensures var blob := SealBlob(c, cipher, plain, context, nonce);
            |blob| >= NONCE_LEN + TAG_LEN && OpenBlob(c, cipher, blob, context) == Ok((plain, false))
  {
    var blob := SealBlob(c, cipher, plain, context, nonce);
    assert blob[..NONCE_LEN] == nonce;
    assert blob[NONCE_LEN..] == c.seal(cipher.current.key, nonce, Aad(cipher, context), plain);
  }

  /** What a cipher seals, it opens under its current key, whatever the text looks like. */
  lemma OpensSealedText(c: Crypto, cipher: Cipher, plain: string, context: Context, nonce: Nonce)
    requires Lawful(c)
    ensures OpenText(c, cipher, SealText(c, cipher, plain, context, nonce), context) == Ok(Opened(plain, false))
  {
    var blob := SealBlob(c, cipher, c.utf8(plain), context, nonce);
    OpensSealedBlob(c, cipher, c.utf8(plain), context, nonce);
    assert SealText(c, cipher, plain, context, nonce)[|CONTENT_TEXT_PREFIX|..] == c.base64(blob);
    assert c.unbase64(Text.Trim(c.base64(blob))) == Some(blob);
  }

  /** Sealed bytes open; only bytes that already start with a Ryu magic are refused. */
  lemma OpensSealedBytes(c: Crypto, cipher: Cipher, plain: Bytes, context: Context, nonce: Nonce)
    requires LawfulAead(c)
    ensures var sealed := SealBytes(c, cipher, plain, context, nonce);
            && (sealed.Ok? <==> !StartsWithRyuMagic(plain))
            && (sealed.Ok? ==> OpenBytes(c, cipher, sealed.value, context) == Ok(Opened(plain, false)))
  {
    var sealed := SealBytes(c, cipher, plain, context, nonce);
    if sealed.Ok? {
      OpensSealedBlob(c, cipher, plain, context, nonce);
      assert sealed.value[8..] == SealBlob(c, cipher, plain, context, nonce);
    }
  }

  lemma {:induction false} FirstOpeningIs(c: Crypto, keys: seq<(ContentKey, bool)>, nonce: Nonce, aad: Bytes, ciphertext: Bytes, at: nat)
    requires at < |keys|
    requires forall i :: 0 <= i < at ==> c.open(keys[i].0.key, nonce, aad, ciphertext).None?
    requires c.open(keys[at].0.key, nonce, aad, ciphertext).Some?
    ensures FirstOpening(c, keys, nonce, aad, ciphertext)
         == Some((c.open(keys[at].0.key, nonce, aad, ciphertext).value, keys[at].1))
  {
    if at > 0 {
      FirstOpeningIs(c, keys[1..], nonce, aad, ciphertext, at - 1);
    }
  }

  lemma {:induction false} NoOpening(c: Crypto, keys: seq<(ContentKey, bool)>, nonce: Nonce, aad: Bytes, ciphertext: Bytes)
    ensures (forall i :: 0 <= i < |keys| ==> c.open(keys[i].0.key, nonce, aad, ciphertext).None?)
       <==> FirstOpening(c, keys, nonce, aad, ciphertext).None?
  {
    if keys != [] {
      NoOpening(c, keys[1..], nonce, aad, ciphertext);
      assert forall i :: 0 < i < |keys| ==> keys[i] == keys[1..][i - 1];
    }
  }

  /**
    A blob sealed under a retired root still opens once that root is attached,
    flagged for resealing, provided no other candidate key opens it.
   */
  lemma RetiredRootStillOpens(c: Crypto, cipher: Cipher, roots: seq<Key>, former: Key, plain: Bytes, context: Context, nonce: Nonce)
    requires LawfulAead(c) && former in roots && c.kcv(former) != cipher.current.rootKcv
    requires forall r :: r in roots && c.kcv(r) == c.kcv(former) ==> r == former
    requires var key := DerivePath(c, former, cipher.store, cipher.labels);
             && cipher.current.key != key
             && OpensOnlyUnder(c, key, nonce, Aad(cipher, context), c.seal(key, nonce, Aad(cipher, context), plain))
    ensures var key := DerivePath(c, former, cipher.store, cipher.labels);
            OpenBlob(c, WithRetired(c, cipher, roots), nonce + c.seal(key, nonce, Aad(cipher, context), plain), context) == Ok((plain, true))
  {
    var key := DerivePath(c, former, cipher.store, cipher.labels);
    var full := WithRetired(c, cipher, roots);
    RetiredKeysCoverRoots(c, cipher, roots);
    var i :| 0 <= i < |full.retired| && full.retired[i].rootKcv == c.kcv(former);
    assert full.retired[i] in RetiredKeys(c, cipher, roots);
    OpensUnderRetiredKey(c, full, i, plain, context, nonce);
  }

  /** No key but `key` opens this ciphertext. */
  ghost predicate OpensOnlyUnder(c: Crypto, key: Key, nonce: Nonce, aad: Bytes, ciphertext: Bytes) {
    forall k :: c.open(k, nonce, aad, ciphertext).Some? ==> k == key
  }

  lemma OpensUnderRetiredKey(c: Crypto, cipher: Cipher, i: nat, plain: Bytes, context: Context, nonce: Nonce)
    requires LawfulAead(c) && i < |cipher.retired| && cipher.current.key != cipher.retired[i].key
    requires var key := cipher.retired[i].key;
             OpensOnlyUnder(c, key, nonce, Aad(cipher, context), c.seal(key, nonce, Aad(cipher, context), plain))
    ensures OpenBlob(c, cipher, nonce + c.seal(cipher.retired[i].key, nonce, Aad(cipher, context), plain), context) == Ok((plain, true))
  {
    var key := cipher.retired[i].key;
    var t := c.seal(key, nonce, Aad(cipher, context), plain);
    var keys := Candidates(cipher);
    assert keys[i + 1].0.key == key;
    var at := FirstWithKey(keys, key);
    FirstOpeningIs(c, keys, nonce, Aad(cipher, context), t, at);
    assert (nonce + t)[..NONCE_LEN] == nonce && (nonce + t)[NONCE_LEN..] == t;
  }

  /** The first candidate holding `key`. */
  function FirstWithKey(keys: seq<(ContentKey, bool)>, key: Key): (at: nat)
    requires exists i :: 0 <= i < |keys| && keys[i].0.key == key
    ensures at < |keys| && keys[at].0.key == key
    ensures forall j :: 0 <= j < at ==> keys[j].0.key != key
  {
    if keys[0].0.key == key then 0
    else
      assert exists i :: 0 <= i < |keys[1..]| && keys[1..][i].0.key == key by {
        var i :| 0 <= i < |keys| && keys[i].0.key == key;
        assert keys[1..][i - 1].0.key == key;
      }
      1 + FirstWithKey(keys[1..], key)
  }

  /**
    A blob sealed for one record opens for no other record, column or store:
    under an AEAD that opens only what was sealed, moving it yields DoesNotOpen.
   */
  lemma MovedBlobDoesNotOpen(c: Crypto, sealings: set<Sealing>, cipher: Cipher, blob: Bytes, home: Context, homeStore: Slice, context: Context)
    requires OnlyOpens(c, sealings) && |blob| >= NONCE_LEN
    requires forall s :: s in sealings && s.nonce == blob[..NONCE_LEN] && s.ciphertext == blob[NONCE_LEN..]
               ==> s.aad == AssociatedDataOf(homeStore, home)
    requires (cipher.store, context) != (homeStore, home)
    ensures OpenBlob(c, cipher, blob, context) == Err(DoesNotOpen)
  {
    var nonce: Nonce := blob[..NONCE_LEN];
    var keys := Candidates(cipher);
    forall i | 0 <= i < |keys| ensures c.open(keys[i].0.key, nonce, Aad(cipher, context), blob[NONCE_LEN..]).None? {
      if c.open(keys[i].0.key, nonce, Aad(cipher, context), blob[NONCE_LEN..]).Some? {
        assert Sealing(keys[i].0.key, nonce, Aad(cipher, context), blob[NONCE_LEN..]) in sealings;
        AssociatedDataIsInjective(cipher.store, context, homeStore, home);
      }
    }
    NoOpening(c, keys, nonce, Aad(cipher, context), blob[NONCE_LEN..]);
  }
}
