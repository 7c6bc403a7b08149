/**
  The slots a data folder's master key may live in (environment, OS keychain,
  key files, retired vault), what a process can read from them, and what it
  means that a key is still held.
 */
module KeySlots {
  import opened Wrappers
  import opened ByteStrings

  const MAX_RETIRED_KEYS := 4
  const SUPPORTED_MIN_READER := 2

  type Key = Bytes

  /** A keychain item or a key file. Garbled: it is there but holds no key. */
  datatype Slot = Nothing | Holds(key: Key) | Garbled

  /** The environment value: unset, not a key, or a key. */
  datatype EnvValue = NoEnv | BadEnv | EnvKey(key: Key)

  /** What a keychain read reports. */
  datatype KeychainState = KeyThere(key: Key) | Empty | Corrupt | Unavailable

  datatype KeyProbe = Passed | NoSealedData | Failed

  datatype RetiredEntry = RetiredEntry(kcv: string, inKeychain: bool)

  /** A JSON file, which may not parse. */
  datatype Json<+T> = Broken | Parsed(value: T)

  /** Everything durable: the keychain (which may be locked for now), the files, the retired index, the recorded check value. */
  datatype Slots = Slots(keychain: Slot, locked: bool, master: Slot, legacy: Slot,
                         vaultItems: map<string, Slot>, vaultFiles: map<string, Slot>,
                         index: Json<seq<RetiredEntry>>, record: Json<Option<string>>)

  /** What one process is given: its environment, its policies, and the key check value function. */
  datatype Inputs = Inputs(env: EnvValue, keychainEnabled: bool, allowFile: bool, recordsKcv: bool, minReader: Option<int>,
                           hostEvidence: bool, probe: Key -> KeyProbe, kcv: Key -> string)

  datatype KeySource = FromEnv | FromKeychain | FromFile | FromLegacy | FromRetired(kcv: string)

  type Candidate = (KeySource, Key)

  // ── Reading ────────────────────────────────────────────────────────────────

  function SeenKeychain(i: Inputs, s: Slots): KeychainState {
    if !i.keychainEnabled || s.locked then Unavailable
    else match s.keychain
      case Nothing => Empty
      case Holds(key) => KeyThere(key)
      case Garbled => Corrupt
  }

  function Entries(s: Slots): seq<RetiredEntry> {
    match s.index
    case Broken => []
    case Parsed(entries) => entries
  }

  function VaultSlot(s: Slots, e: RetiredEntry): Slot {
    var vault := if e.inKeychain then s.vaultItems else s.vaultFiles;
    if e.kcv in vault then vault[e.kcv] else Nothing
  }

  /** A retired key, if it can be read now and matches its check value. */
  function Load(i: Inputs, s: Slots, e: RetiredEntry): Option<Key> {
    if e.inKeychain && (!i.keychainEnabled || s.locked) then None
    else match VaultSlot(s, e)
      case Holds(key) => if i.kcv(key) == e.kcv then Some(key) else None
      case _ => None
  }

  function LoadAll(i: Inputs, s: Slots, entries: seq<RetiredEntry>): seq<Candidate> {
    if entries == [] then []
    else
      var before := LoadAll(i, s, entries[..|entries| - 1]);
      var e := entries[|entries| - 1];
      match Load(i, s, e)
      case Some(key) => before + [(FromRetired(e.kcv), key)]
      case None => before
  }

  function LiveCandidates(i: Inputs, s: Slots): seq<Candidate> {
    (if i.env.EnvKey? then [(FromEnv, i.env.key)] else [])
    + (if SeenKeychain(i, s).KeyThere? then [(FromKeychain, SeenKeychain(i, s).key)] else [])
    + (if s.master.Holds? then [(FromFile, s.master.key)] else [])
    + (if s.legacy.Holds? then [(FromLegacy, s.legacy.key)] else [])
  }

  /** Every candidate key, in recovery order. */
  function Candidates(i: Inputs, s: Slots): seq<Candidate> {
    LiveCandidates(i, s) + LoadAll(i, s, Entries(s))
  }

  /** The first candidate with a key check value. */
  function FindKcv(i: Inputs, cands: seq<Candidate>, kcv: string): (r: Option<Candidate>)
    ensures r.Some? <==> exists n :: 0 <= n < |cands| && i.kcv(cands[n].1) == kcv
    ensures r.Some? ==> r.value in cands && i.kcv(r.value.1) == kcv
  {
    if cands == [] then None
    else if i.kcv(cands[0].1) == kcv then Some(cands[0])
    else
      var rest := FindKcv(i, cands[1..], kcv);
      assert rest.Some? ==> exists n :: 0 <= n < |cands[1..]| && i.kcv(cands[1..][n].1) == kcv && i.kcv(cands[n + 1].1) == kcv;
      assert forall n :: 0 < n < |cands| ==> cands[n] == cands[1..][n - 1];
      rest
  }

  /** The first candidate other than `primary` that opens sealed data. */
  function FindProbed(i: Inputs, cands: seq<Candidate>, primary: Key): (r: Option<Candidate>)
    ensures r.Some? ==> r.value in cands && r.value.1 != primary && i.probe(r.value.1) == Passed
    ensures r.None? ==> forall n :: 0 <= n < |cands| ==> cands[n].1 == primary || i.probe(cands[n].1) != Passed
  {
    if cands == [] then None
    else if cands[0].1 != primary && i.probe(cands[0].1) == Passed then Some(cands[0])
    else FindProbed(i, cands[1..], primary)
  }

  function FindSource(cands: seq<Candidate>, source: KeySource): (r: Option<Candidate>)
    ensures r.Some? ==> r.value in cands && r.value.0 == source
    ensures r.None? ==> forall n :: 0 <= n < |cands| ==> cands[n].0 != source
  {
    if cands == [] then None
    else if cands[0].0 == source then Some(cands[0])
    else FindSource(cands[1..], source)
  }

  // ── What is held ───────────────────────────────────────────────────────────

  predicate SlotHas(i: Inputs, slot: Slot, kcv: string) {
    slot.Holds? && i.kcv(slot.key) == kcv
  }

  predicate EnvHas(i: Inputs, kcv: string) {
    i.env.EnvKey? && i.kcv(i.env.key) == kcv
  }

  /** A live slot holds the key, whether or not it can be read now. */
  predicate LiveHolds(i: Inputs, s: Slots, kcv: string) {
    EnvHas(i, kcv) || SlotHas(i, s.keychain, kcv) || SlotHas(i, s.master, kcv) || SlotHas(i, s.legacy, kcv)
  }

  /** A live slot shows the key to this process. */
  predicate LiveShows(i: Inputs, s: Slots, kcv: string) {
    || EnvHas(i, kcv) || SlotHas(i, s.master, kcv) || SlotHas(i, s.legacy, kcv)
    || (SeenKeychain(i, s).KeyThere? && i.kcv(SeenKeychain(i, s).key) == kcv)
  }

  predicate Listed(s: Slots, kcv: string) {
    exists n :: 0 <= n < |Entries(s)| && Entries(s)[n].kcv == kcv
  }

  predicate VaultShows(i: Inputs, s: Slots, kcv: string) {
    exists n :: 0 <= n < |Entries(s)| && Entries(s)[n].kcv == kcv && Load(i, s, Entries(s)[n]).Some?
  }

  predicate Shows(i: Inputs, s: Slots, kcv: string) {
    LiveShows(i, s, kcv) || VaultShows(i, s, kcv)
  }

  /** A vault entry offers the key now. */
  predicate VaultOffers(i: Inputs, s: Slots, key: Key) {
    exists n :: 0 <= n < |Entries(s)| && Load(i, s, Entries(s)[n]) == Some(key)
  }

  predicate KeychainShows(i: Inputs, s: Slots, kcv: string) {
    SeenKeychain(i, s).KeyThere? && i.kcv(SeenKeychain(i, s).key) == kcv
  }

  /** The first place that shows the check value: environment, keychain, key file, legacy file, vault. */
  predicate FoundIn(i: Inputs, s: Slots, kcv: string, source: KeySource, key: Key) {
    i.kcv(key) == kcv &&
    match source
    case FromEnv => i.env == EnvKey(key)
    case FromKeychain => !EnvHas(i, kcv) && SeenKeychain(i, s) == KeyThere(key)
    case FromFile => !EnvHas(i, kcv) && !KeychainShows(i, s, kcv) && s.master == Holds(key)
    case FromLegacy => !EnvHas(i, kcv) && !KeychainShows(i, s, kcv) && !SlotHas(i, s.master, kcv) && s.legacy == Holds(key)
    case FromRetired(k) => !LiveShows(i, s, kcv) && k == kcv && VaultOffers(i, s, key)
  }

  /** A live slot or the vault holds a key with this check value. */
  predicate Held(i: Inputs, s: Slots, kcv: string) {
    LiveHolds(i, s, kcv) || Listed(s, kcv)
  }

  ghost predicate EntryHeld(i: Inputs, s: Slots, e: RetiredEntry) {
    SlotHas(i, VaultSlot(s, e), e.kcv)
  }

  /** The vault: at most four entries, distinct, each backed by the key it names; key files are stored under their own check value. */
  ghost predicate Sound(i: Inputs, s: Slots) {
    && |Entries(s)| <= MAX_RETIRED_KEYS
    && (forall m, n :: 0 <= m < n < |Entries(s)| ==> Entries(s)[m].kcv != Entries(s)[n].kcv)
    && (forall n :: 0 <= n < |Entries(s)| ==> EntryHeld(i, s, Entries(s)[n]))
    && (forall k :: k in s.vaultFiles && s.vaultFiles[k].Holds? ==> i.kcv(s.vaultFiles[k].key) == k)
  }

  /** The key is in some slot (the environment included). */
  predicate Present(i: Inputs, s: Slots, key: Key) {
    || i.env == EnvKey(key) || s.keychain == Holds(key) || s.master == Holds(key) || s.legacy == Holds(key)
    || (exists k :: k in s.vaultItems && s.vaultItems[k] == Holds(key))
    || (exists k :: k in s.vaultFiles && s.vaultFiles[k] == Holds(key))
  }

  ghost predicate NoNewKey(i: Inputs, s: Slots, t: Slots) {
    forall key :: Present(i, t, key) ==> Present(i, s, key)
  }

  /** From position `from` on, the record stayed as in `s` and no key appeared that was in no slot of `s`. */
  ghost predicate OnlyOldKeys(i: Inputs, s: Slots, h: seq<Slots>, from: nat) {
    forall n :: from <= n < |h| ==> NoNewKey(i, s, h[n]) && h[n].record == s.record
  }

  function Recorded(s: Slots): Option<string> {
    match s.record
    case Broken => None
    case Parsed(r) => r
  }

  // ── Conservation ───────────────────────────────────────────────────────────

  /** Every check value recorded up to `b` is in the vault, or is the recorded one and in a live slot. */
  ghost predicate KeptAt(i: Inputs, h: seq<Slots>, b: nat)
    requires b < |h|
  {
    forall a :: 0 <= a <= b && Recorded(h[a]).Some? ==> Keeps(i, h[b], Recorded(h[a]).value)
  }

  predicate Keeps(i: Inputs, s: Slots, kcv: string) {
    Listed(s, kcv) || (Recorded(s) == Some(kcv) && LiveHolds(i, s, kcv))
  }

  /** At every written state of a history, every key recorded until then is held. */
  ghost predicate Conserved(i: Inputs, h: seq<Slots>) {
    forall b :: 0 <= b < |h| ==> KeptAt(i, h, b)
  }

  /** One write keeps what the state before it kept, and what it records. */
  ghost predicate StepKeeps(i: Inputs, s: Slots, t: Slots) {
    && (forall k :: Keeps(i, s, k) ==> Keeps(i, t, k))
    && (Recorded(t).Some? ==> Recorded(s) == Recorded(t) || Keeps(i, t, Recorded(t).value))
  }

  lemma ConservedStep(i: Inputs, h: seq<Slots>, t: Slots)
    requires h != [] && Conserved(i, h) && StepKeeps(i, h[|h| - 1], t)
    ensures Conserved(i, h + [t])
  {
    hide Keeps, Recorded;
    var g := h + [t];
    forall b | 0 <= b < |g| ensures KeptAt(i, g, b) {
      if b < |h| {
        assert KeptAt(i, h, b);
        forall a | 0 <= a <= b && Recorded(g[a]).Some? ensures Keeps(i, g[b], Recorded(g[a]).value) {
          assert h[a] == g[a];
        }
      } else {
        assert KeptAt(i, h, |h| - 1);
        forall a | 0 <= a <= b && Recorded(g[a]).Some? ensures Keeps(i, g[b], Recorded(g[a]).value) {
          if a < b {
            assert h[a] == g[a];
          } else {
            assert Recorded(t).Some?;
            if Recorded(h[|h| - 1]) == Recorded(t) {
              assert Recorded(h[|h| - 1]).Some?;
            }
          }
        }
      }
    }
  }

  /** Conserved keys are held: what the index lists, the vault backs. */
  lemma {:induction false} ConservedHeld(i: Inputs, h: seq<Slots>, a: nat, b: nat)
    requires Conserved(i, h) && a <= b < |h| && Sound(i, h[b]) && Recorded(h[a]).Some?
    ensures var kcv := Recorded(h[a]).value;
            LiveHolds(i, h[b], kcv) || exists e :: e in Entries(h[b]) && e.kcv == kcv && EntryHeld(i, h[b], e)
  {
    assert KeptAt(i, h, b);
    var kcv := Recorded(h[a]).value;
    if Listed(h[b], kcv) {
      var n :| 0 <= n < |Entries(h[b])| && Entries(h[b])[n].kcv == kcv;
      assert Entries(h[b])[n] in Entries(h[b]);
    }
  }

  // ── Finding a recorded key ─────────────────────────────────────────────────

  lemma {:induction false} LoadAllShows(i: Inputs, s: Slots, entries: seq<RetiredEntry>, kcv: string)
    ensures (exists n :: 0 <= n < |LoadAll(i, s, entries)| && i.kcv(LoadAll(i, s, entries)[n].1) == kcv)
       <==> (exists n :: 0 <= n < |entries| && entries[n].kcv == kcv && Load(i, s, entries[n]).Some?)
  {
    hide Load;
    if entries != [] {
      var init := entries[..|entries| - 1];
      var last := entries[|entries| - 1];
      LoadAllShows(i, s, init, kcv);
      LoadedMatches(i, s, last);
      var before := LoadAll(i, s, init);
      var all := LoadAll(i, s, entries);
      assert forall n :: 0 <= n < |before| ==> all[n] == before[n];
      assert forall n :: 0 <= n < |init| ==> entries[n] == init[n];
      if Load(i, s, last).Some? && last.kcv == kcv {
        assert i.kcv(all[|before|].1) == kcv;
        assert entries[|entries| - 1].kcv == kcv;
      }
    }
  }

  lemma LoadedMatches(i: Inputs, s: Slots, e: RetiredEntry)
    ensures Load(i, s, e).Some? ==> i.kcv(Load(i, s, e).value) == e.kcv
  {
  }

  lemma LiveFinds(i: Inputs, s: Slots, kcv: string)
    ensures FindKcv(i, LiveCandidates(i, s), kcv).Some? <==> LiveShows(i, s, kcv)
  {
    var env := if i.env.EnvKey? then [(FromEnv, i.env.key)] else [];
    var keychain := if SeenKeychain(i, s).KeyThere? then [(FromKeychain, SeenKeychain(i, s).key)] else [];
    var master := if s.master.Holds? then [(FromFile, s.master.key)] else [];
    var live := LiveCandidates(i, s);
    if EnvHas(i, kcv) {
      assert live[0] == (FromEnv, i.env.key);
    }
    if SeenKeychain(i, s).KeyThere? {
      assert live[|env|] == (FromKeychain, SeenKeychain(i, s).key);
    }
    if s.master.Holds? {
      assert live[|env| + |keychain|] == (FromFile, s.master.key);
    }
    if s.legacy.Holds? {
      assert live[|env| + |keychain| + |master|] == (FromLegacy, s.legacy.key);
    }
  }

  /** Some candidate has the check value exactly when a live slot or a loadable vault entry shows it. */
  lemma CandidatesShow(i: Inputs, s: Slots, kcv: string)
    ensures FindKcv(i, Candidates(i, s), kcv).Some? <==> Shows(i, s, kcv)
  {
    hide LiveShows, Load, LiveCandidates;
    var live := LiveCandidates(i, s);
    var vault := LoadAll(i, s, Entries(s));
    LiveFinds(i, s, kcv);
    LoadAllShows(i, s, Entries(s), kcv);
    var all := Candidates(i, s);
    assert forall n :: 0 <= n < |live| ==> all[n] == live[n];
    assert forall n :: 0 <= n < |vault| ==> all[|live| + n] == vault[n];
    if Shows(i, s, kcv) {
      if n :| 0 <= n < |live| && i.kcv(live[n].1) == kcv {
        assert i.kcv(all[n].1) == kcv;
      } else {
        var n :| 0 <= n < |vault| && i.kcv(vault[n].1) == kcv;
        assert i.kcv(all[|live| + n].1) == kcv;
      }
    }
  }

  lemma {:induction false} FirstFound(i: Inputs, cands: seq<Candidate>, more: seq<Candidate>, kcv: string)
    ensures FindKcv(i, cands + more, kcv) == (if FindKcv(i, cands, kcv).Some? then FindKcv(i, cands, kcv) else FindKcv(i, more, kcv))
  {
    if cands == [] {
      assert cands + more == more;
    } else {
      assert (cands + more)[1..] == cands[1..] + more;
      FirstFound(i, cands[1..], more, kcv);
    }
  }

  predicate Only(i: Inputs, cands: seq<Candidate>, kcv: string)
    requires |cands| <= 1
  {
    cands != [] && i.kcv(cands[0].1) == kcv
  }

  lemma FirstOfFour(i: Inputs, a: seq<Candidate>, b: seq<Candidate>, c: seq<Candidate>, d: seq<Candidate>, kcv: string)
    requires |a| <= 1 && |b| <= 1 && |c| <= 1 && |d| <= 1
    ensures FindKcv(i, a + b + c + d, kcv)
         == if Only(i, a, kcv) then Some(a[0]) else if Only(i, b, kcv) then Some(b[0])
            else if Only(i, c, kcv) then Some(c[0]) else if Only(i, d, kcv) then Some(d[0]) else None
  {
    hide FindKcv;
    FirstFound(i, a + b + c, d, kcv);
    FirstFound(i, a + b, c, kcv);
    FirstFound(i, a, b, kcv);
    FoundAlone(i, a, kcv);
    FoundAlone(i, b, kcv);
    FoundAlone(i, c, kcv);
    FoundAlone(i, d, kcv);
  }

  lemma FoundAlone(i: Inputs, cands: seq<Candidate>, kcv: string)
    requires |cands| <= 1
    ensures FindKcv(i, cands, kcv) == if Only(i, cands, kcv) then Some(cands[0]) else None
  {
    assert |cands| == 1 ==> cands[1..] == [];
  }

  lemma LiveFoundInOrder(i: Inputs, s: Slots, kcv: string)
    ensures var found := FindKcv(i, LiveCandidates(i, s), kcv);
      found.Some? ==> FoundIn(i, s, kcv, found.value.0, found.value.1)
  {
    hide VaultOffers, FindKcv;
    var env: seq<Candidate> := if i.env.EnvKey? then [(FromEnv, i.env.key)] else [];
    var keychain: seq<Candidate> := if SeenKeychain(i, s).KeyThere? then [(FromKeychain, SeenKeychain(i, s).key)] else [];
    var master: seq<Candidate> := if s.master.Holds? then [(FromFile, s.master.key)] else [];
    var legacy: seq<Candidate> := if s.legacy.Holds? then [(FromLegacy, s.legacy.key)] else [];
    FirstOfFour(i, env, keychain, master, legacy, kcv);
  }

  /** The candidate found is the first place's. */
  lemma FoundInOrder(i: Inputs, s: Slots, kcv: string)
    ensures var found := FindKcv(i, Candidates(i, s), kcv); found.Some? ==> FoundIn(i, s, kcv, found.value.0, found.value.1)
  {
    hide Load, LoadAll, LiveCandidates, LiveShows, FindKcv, Present;
    FirstFound(i, LiveCandidates(i, s), LoadAll(i, s, Entries(s)), kcv);
    LiveFoundInOrder(i, s, kcv);
    LiveFinds(i, s, kcv);
    var found := FindKcv(i, LoadAll(i, s, Entries(s)), kcv);
    if found.Some? {
      LoadAllPresent(i, s, Entries(s), found.value);
      var e :| e in Entries(s) && found.value.0 == FromRetired(e.kcv) && Load(i, s, e) == Some(found.value.1);
      var n :| 0 <= n < |Entries(s)| && Entries(s)[n] == e;
      LoadedMatches(i, s, e);
    }
  }

  lemma {:induction false} LoadAllOffers(i: Inputs, s: Slots, entries: seq<RetiredEntry>, key: Key)
    ensures (exists n :: 0 <= n < |LoadAll(i, s, entries)| && LoadAll(i, s, entries)[n].1 == key)
       <==> exists n :: 0 <= n < |entries| && Load(i, s, entries[n]) == Some(key)
  {
    hide Load;
    if entries != [] {
      var init := entries[..|entries| - 1];
      var last := entries[|entries| - 1];
      LoadAllOffers(i, s, init, key);
      var before := LoadAll(i, s, init);
      var all := LoadAll(i, s, entries);
      assert forall n :: 0 <= n < |before| ==> all[n] == before[n];
      assert forall n :: 0 <= n < |init| ==> entries[n] == init[n];
      if Load(i, s, last) == Some(key) {
        assert all[|before|].1 == key && entries[|entries| - 1] == last;
      }
    }
  }

  lemma {:induction false} LoadAllPresent(i: Inputs, s: Slots, entries: seq<RetiredEntry>, x: Candidate)
    requires x in LoadAll(i, s, entries)
    ensures Present(i, s, x.1) && exists e :: e in entries && x.0 == FromRetired(e.kcv) && Load(i, s, e) == Some(x.1)
  {
    var init := entries[..|entries| - 1];
    var last := entries[|entries| - 1];
    if x in LoadAll(i, s, init) {
      LoadAllPresent(i, s, init, x);
      var e :| e in init && x.0 == FromRetired(e.kcv) && Load(i, s, e) == Some(x.1);
      assert e in entries;
    } else {
      assert last in entries && Load(i, s, last) == Some(x.1);
      assert VaultSlot(s, last) == Holds(x.1);
    }
  }

  lemma CandidatePresent(i: Inputs, s: Slots, x: Candidate)
    requires x in Candidates(i, s)
    ensures Present(i, s, x.1)
    ensures x.0 == FromFile ==> s.master == Holds(x.1)
    ensures x.0 == FromLegacy ==> s.legacy == Holds(x.1)
    ensures Keeps(i, s.(record := Parsed(Some(i.kcv(x.1)))), i.kcv(x.1))
  {
    if x !in LiveCandidates(i, s) {
      assert x in LoadAll(i, s, Entries(s));
      LoadAllPresent(i, s, Entries(s), x);
      var e :| e in Entries(s) && x.0 == FromRetired(e.kcv) && Load(i, s, e) == Some(x.1);
      var n :| 0 <= n < |Entries(s)| && Entries(s)[n] == e;
      assert Entries(s.(record := Parsed(Some(e.kcv)))) == Entries(s);
    }
  }
}
