/** Master-key custody: resolving, adopting, importing and retiring the key of one data folder. */
module KeyFolders {
  import opened Wrappers
  import opened KeySlots

  datatype KeyError =
    | NewerFormat | BrokenJson | NotAKey | BrokenKeyFile | KeychainCorrupt | KeychainUnverified | MayNotGenerate | FileRefused
    | Mismatch | NoCandidate | ProbeRefused | VaultFull | EnvStranded | IsCurrent | InKeychain | WriteFailed

  /** The errors a write may end in. */
  predicate Storage(e: KeyError) {
    e.BrokenJson? || e.BrokenKeyFile? || e.VaultFull? || e.FileRefused? || e.WriteFailed?
  }

  datatype MasterKeySource = SourceEnv | SourceKeychain | SourceFile

  datatype Health = Healthy | RecoveredFrom(source: KeySource)

  datatype Resolution = Resolution(key: Key, source: MasterKeySource, retired: seq<Key>, health: Health)

  /** What an install did; custody is `None` when the record was left as it was. */
  datatype AdoptOutcome = AdoptOutcome(kcv: string, custody: Option<MasterKeySource>, retired: Option<string>)

  datatype AdoptFrom = AdoptEnv | AdoptKeychain | AdoptFile | AdoptRetired(kcv: string)

  function Wanted(from: AdoptFrom): KeySource {
    match from
    case AdoptEnv => FromEnv
    case AdoptKeychain => FromKeychain
    case AdoptFile => FromFile
    case AdoptRetired(kcv) => FromRetired(kcv)
  }

  /** What the OS does with one keychain write: what it reports, whether the item changed, whether the keychain is locked afterwards. */
  datatype StoreOutcome = StoreOutcome(reported: bool, wrote: bool, locked: bool)

  function CustodyOf(source: KeySource): MasterKeySource {
    match source
    case FromEnv => SourceEnv
    case FromKeychain => SourceKeychain
    case _ => SourceFile
  }

  function ReadKeyFile(slot: Slot): Result<Option<Key>, KeyError> {
    match slot
    case Nothing => Ok(None)
    case Holds(key) => Ok(Some(key))
    case Garbled => Err(BrokenKeyFile)
  }

  /** The retired keys to open with: every loadable one but the current. */
  function Others(keys: seq<Candidate>, exclude: Key): (r: seq<Key>)
    ensures forall key :: key in r <==> key != exclude && exists n :: 0 <= n < |keys| && keys[n].1 == key
  {
    if keys == [] then []
    else
      var init := keys[..|keys| - 1];
      var last := keys[|keys| - 1].1;
      var before := Others(init, exclude);
      assert forall n :: 0 <= n < |init| ==> keys[n] == init[n];
      if last != exclude then before + [last] else before
  }

  /** The environment names a key that is neither the recorded one nor a retired one. */
  predicate EnvStranger(i: Inputs, s: Slots, kcv: string) {
    i.env.EnvKey? && i.kcv(i.env.key) != kcv && !VaultShows(i, s, i.kcv(i.env.key))
  }

  /** Why no key may be generated: a recorded check value, or sealed data. */
  predicate HasEvidence(i: Inputs, s: Slots) {
    Recorded(s).Some? || i.hostEvidence || Entries(s) != []
  }

  // ── What installing a key retires ──────────────────────────────────────────

  /** The key in persistent custody: keychain first, then file. */
  function PersistentKey(i: Inputs, s: Slots): Option<Key> {
    match SeenKeychain(i, s)
    case KeyThere(key) => Some(key)
    case _ => if s.master.Holds? then Some(s.master.key) else None
  }

  /** The recorded key, from any live slot that shows it. */
  function RecordedKey(i: Inputs, s: Slots): Option<Key> {
    match Recorded(s)
    case None => None
    case Some(kcv) =>
      match FindKcv(i, LiveCandidates(i, s), kcv)
      case None => None
      case Some(found) => Some(found.1)
  }

  function AddNew(keys: seq<Key>, key: Key, wanted: Key): seq<Key> {
    if wanted != key && wanted !in keys then keys + [wanted] else keys
  }

  function AddFound(keys: seq<Key>, key: Key, found: Option<Key>): seq<Key> {
    match found
    case None => keys
    case Some(former) => AddNew(keys, key, former)
  }

  function AddAll(keys: seq<Key>, key: Key, extra: seq<Key>): (r: seq<Key>)
    ensures forall x :: x in r <==> x in keys || (x != key && x in extra)
  {
    if extra == [] then keys
    else AddNew(AddAll(keys, key, extra[..|extra| - 1]), key, extra[|extra| - 1])
  }

  /** Everything installing `key` retires: the persistent key, the recorded key, the given ones; never `key` itself. */
  function ToRetire(i: Inputs, s: Slots, key: Key, extra: seq<Key>): seq<Key> {
    AddAll(AddFound(AddFound([], key, PersistentKey(i, s)), key, RecordedKey(i, s)), key, extra)
  }

  /** The previous key an install reports as retired: the recorded one, else the persistent one. */
  function ReportedRetired(i: Inputs, s: Slots, key: Key): Option<string> {
    match RecordedKey(i, s)
    case Some(former) => if former != key then Some(i.kcv(former)) else ReportedPersistent(i, s, key)
    case None => ReportedPersistent(i, s, key)
  }

  function ReportedPersistent(i: Inputs, s: Slots, key: Key): Option<string> {
    match PersistentKey(i, s)
    case Some(former) => if former != key then Some(i.kcv(former)) else None
    case None => None
  }

  function CountNew(i: Inputs, s: Slots, keys: seq<Key>): nat {
    if keys == [] then 0
    else CountNew(i, s, keys[..|keys| - 1]) + (if Listed(s, i.kcv(keys[|keys| - 1])) then 0 else 1)
  }

  /** The check values a list of keys adds to the vault. */
  function NewKcvs(i: Inputs, s: Slots, keys: seq<Key>): set<string> {
    set n | 0 <= n < |keys| && !Listed(s, i.kcv(keys[n])) :: i.kcv(keys[n])
  }

  /**
    Installing `key` cannot lose the recorded key: there is none, `key` has its
    check value, a live slot shows it, the vault lists it, or it is being retired.
   */
  predicate SafeToInstall(i: Inputs, s: Slots, key: Key, extra: seq<Key>) {
    match Recorded(s)
    case None => true
    case Some(kcv) =>
      i.kcv(key) == kcv || LiveShows(i, s, kcv) || Listed(s, kcv) || exists n :: 0 <= n < |extra| && i.kcv(extra[n]) == kcv
  }

  // ── The folder ─────────────────────────────────────────────────────────────

  class KeyFolder {
    const inputs: Inputs
    const os: nat -> StoreOutcome
    /** Whether the n-th file write works. */
    const disk: nat -> bool
    var calls: nat
    var writes: nat
    var slots: Slots
    /** The slots after every write: what a crash may leave. */
    ghost var history: seq<Slots>

    ghost predicate Valid()
      reads this
    {
      && history != [] && history[|history| - 1] == slots
      && forall n :: 0 <= n < |history| ==> Sound(inputs, history[n])
    }

    /** The keychain stays as reachable as it is. */
    ghost predicate Steady(locked: bool) {
      forall n :: os(n).locked == locked
    }

    /** Every keychain write works, and leaves the keychain unlocked. */
    ghost predicate Writable() {
      inputs.keychainEnabled && forall n :: os(n) == StoreOutcome(true, true, false)
    }

    /** Every file write works. */
    ghost predicate Reliable() {
      forall n :: disk(n)
    }

    /** Nothing makes the ladder refuse: not the slots, not a failing write, not a keychain that will not be seeded. */
    ghost predicate Undisturbed()
      reads this
    {
      !Refuses(inputs, slots) && Reliable() && (SeenKeychain(inputs, slots) == Empty && inputs.env.NoEnv? ==> Writable())
    }

    /** The keychain item holds the key, and installing `key` will not overwrite it: its one write there, after one for each key newly retired, has no effect. */
    ghost predicate Spared(key: Key, extra: seq<Key>, kcv: string)
      reads this
    {
      && SlotHas(inputs, slots.keychain, kcv)
      && (!inputs.keychainEnabled || !os(calls + |NewKcvs(inputs, slots, ToRetire(inputs, slots, key, extra))|).wrote)
    }

    /** Installing `key` with success will leave the recorded key held: it is in sight, or its keychain item is spared. */
    ghost predicate Survives(key: Key, extra: seq<Key>)
      reads this
      requires Recorded(slots).Some?
    {
      SafeToInstall(inputs, slots, key, extra) || Spared(key, extra, Recorded(slots).value)
    }

    constructor (inputs: Inputs, os: nat -> StoreOutcome, disk: nat -> bool, slots: Slots)
      requires Sound(inputs, slots)
      ensures Valid() && this.slots == slots && history == [slots] && this.inputs == inputs && this.os == os && this.disk == disk
    {
      this.inputs, this.os, this.disk, this.calls, this.writes, this.slots := inputs, os, disk, 0, 0, slots;
      this.history := [slots];
    }

    /** One write took effect. */
    ghost method Log(before: Slots)
      requires history != [] && history[|history| - 1] == before && Sound(inputs, slots)
      requires forall n :: 0 <= n < |history| ==> Sound(inputs, history[n])
      modifies this`history
      ensures Valid() && history == old(history) + [slots]
      ensures old(Conserved(inputs, history)) && StepKeeps(inputs, before, slots) ==> Conserved(inputs, history)
    {
      hide Sound, StepKeeps, Conserved;
      if Conserved(inputs, history) && StepKeeps(inputs, before, slots) {
        ConservedStep(inputs, history, slots);
      }
      history := history + [slots];
    }

    // ── Single writes ────────────────────────────────────────────────────────

    /** Store a key in the main keychain item. */
    method PutKeychain(key: Key) returns (reported: bool)
      requires Valid()
      modifies this
      ensures Valid() && old(history) <= history <= old(history) + [slots] && calls >= old(calls)
      ensures slots == old(slots).(keychain := slots.keychain, locked := slots.locked)
      ensures slots.keychain == if inputs.keychainEnabled && os(old(calls)).wrote then Holds(key) else old(slots).keychain
      ensures Present(inputs, old(slots), key) ==> NoNewKey(inputs, old(slots), slots)
      ensures !inputs.keychainEnabled ==> !reported && slots == old(slots)
      ensures inputs.keychainEnabled && os(old(calls)) == StoreOutcome(true, true, false) ==> reported && slots.keychain == Holds(key) && !slots.locked
      ensures Steady(old(slots).locked) ==> slots.locked == old(slots).locked
      ensures old(Conserved(inputs, history)) && StepKeeps(inputs, old(slots), slots) ==> Conserved(inputs, history)
    {
      hide StepKeeps, Conserved, EntryHeld;
      if !inputs.keychainEnabled {
        return false;
      }
      var outcome := os(calls);
      ghost var before := slots;
      calls := calls + 1;
      slots := slots.(keychain := if outcome.wrote then Holds(key) else slots.keychain, locked := outcome.locked);
      SoundOtherSlots(inputs, before, slots);
      Log(before);
      reported := outcome.reported;
    }

    /** Store a key in the keychain item of one retired account, and say whether reading it back confirms it. */
    method PutVaultItem(kcv: string, key: Key) returns (confirmed: bool)
      requires Valid() && inputs.keychainEnabled && !Listed(slots, kcv)
      modifies this
      ensures Valid() && old(history) <= history <= old(history) + [slots]
      ensures slots == old(slots).(vaultItems := slots.vaultItems, locked := slots.locked) && calls == old(calls) + 1
      ensures slots.vaultItems == old(slots).vaultItems || slots.vaultItems == old(slots).vaultItems[kcv := Holds(key)]
      ensures confirmed ==> kcv in slots.vaultItems && slots.vaultItems[kcv] == Holds(key) && !slots.locked
      ensures os(old(calls)) == StoreOutcome(true, true, false) ==> confirmed
      ensures Present(inputs, old(slots), key) ==> NoNewKey(inputs, old(slots), slots)
      ensures Steady(old(slots).locked) ==> slots.locked == old(slots).locked
      ensures old(Conserved(inputs, history)) ==> Conserved(inputs, history)
    {
      hide Conserved, EntryHeld;
      var outcome := os(calls);
      ghost var before := slots;
      calls := calls + 1;
      slots := slots.(vaultItems := if outcome.wrote then slots.vaultItems[kcv := Holds(key)] else slots.vaultItems, locked := outcome.locked);
      SoundUnlistedItem(inputs, before, slots, kcv);
      assert StepKeeps(inputs, before, slots) by { SameLiveKeeps(inputs, before, slots); }
      Log(before);
      confirmed := outcome.reported && !slots.locked && kcv in slots.vaultItems && slots.vaultItems[kcv] == Holds(key);
    }

    /** Replace, publish or remove one file: it happens as a whole or fails. */
    method WriteFile(next: Slots) returns (ok: bool)
      requires Valid() && Sound(inputs, next)
      modifies this`slots, this`history, this`writes
      ensures Valid() && old(history) <= history <= old(history) + [slots]
      ensures slots == if ok then next else old(slots)
      ensures !ok ==> history == old(history)
      ensures ok <==> disk(old(writes))
      ensures old(Conserved(inputs, history)) && StepKeeps(inputs, old(slots), next) ==> Conserved(inputs, history)
    {
      hide StepKeeps, Conserved, Sound;
      ok := disk(writes);
      writes := writes + 1;
      if ok {
        ghost var before := slots;
        slots := next;
        Log(before);
      }
    }

    // ── The retired vault ────────────────────────────────────────────────────

    /** Put the key material of an unlisted retired key somewhere it can be read back from; says whether that is the keychain. */
    method StoreRetired(kcv: string, key: Key, preferKeychain: bool) returns (r: Result<bool, KeyError>)
      requires Valid() && kcv == inputs.kcv(key) && !Listed(slots, kcv)
      modifies this
      ensures Valid() && old(history) <= history
      ensures slots == old(slots).(vaultItems := slots.vaultItems, vaultFiles := slots.vaultFiles, locked := slots.locked)
      ensures r.Ok? ==> SlotHas(inputs, VaultSlot(slots, RetiredEntry(kcv, r.value)), kcv)
      ensures r.Ok? ==> (r.value ==> preferKeychain && inputs.keychainEnabled && !slots.locked) && (preferKeychain && Writable() ==> r.value)
      ensures r.Err? ==> (r.error.BrokenKeyFile? && GarbledFile(old(slots))) || (r.error.WriteFailed? && !Reliable())
      ensures GarbledFile(slots) ==> GarbledFile(old(slots))
      ensures calls == old(calls) + (if preferKeychain && inputs.keychainEnabled then 1 else 0)
      ensures Steady(old(slots).locked) ==> slots.locked == old(slots).locked
      ensures old(Conserved(inputs, history)) ==> Conserved(inputs, history)
      ensures Present(inputs, old(slots), key) ==> OnlyOldKeys(inputs, old(slots), history, |old(history)|) && NoNewKey(inputs, old(slots), slots)
    {
      hide Conserved, StepKeeps, Steady, NoNewKey, Present, Sound;
      NoNewKeyReflexive(inputs, slots);
      ghost var s, h := slots, history;
      if preferKeychain && inputs.keychainEnabled {
        var confirmed := PutVaultItem(kcv, key);
        OnlyOldExtend(inputs, s, h, history, |h|, slots);
        if confirmed {
          return Ok(true);
        }
      }
      var file := if kcv in slots.vaultFiles then slots.vaultFiles[kcv] else Nothing;
      if file.Garbled? {
        return Err(BrokenKeyFile);
      }
      assert !Listed(slots, kcv) by { assert Entries(slots) == Entries(s); }
      if file.Nothing? {
        ghost var before := history;
        var next := slots.(vaultFiles := slots.vaultFiles[kcv := Holds(key)]);
        RetiredFileStep(inputs, slots, next, kcv, key);
        var ok := WriteFile(next);
        if !ok {
          return Err(WriteFailed);
        }
        OnlyOldExtend(inputs, s, before, history, |h|, slots);
      } else {
        HonestFile(inputs, slots, kcv);
      }
      r := Ok(false);
    }

    /** Store a key in the retired set, once per check value, at most four. */
    method Retire(key: Key, preferKeychain: bool) returns (r: Result<RetiredEntry, KeyError>)
      requires Valid()
      modifies this
      ensures Valid() && old(history) <= history
      ensures slots == old(slots).(vaultItems := slots.vaultItems, vaultFiles := slots.vaultFiles, index := slots.index, locked := slots.locked)
      ensures Retired(inputs, old(slots), slots, key, r)
      ensures r.Ok? && !Listed(old(slots), inputs.kcv(key)) ==> VaultShows(inputs, slots, inputs.kcv(key))
      ensures r.Ok? && !Listed(old(slots), inputs.kcv(key)) ==>
        (r.value.inKeychain ==> preferKeychain && inputs.keychainEnabled) && (preferKeychain && Writable() ==> r.value.inKeychain)
      ensures r == Err(VaultFull) ==> history == old(history)
      ensures r.Ok? ==> calls == old(calls) + (if preferKeychain && inputs.keychainEnabled && !Listed(old(slots), inputs.kcv(key)) then 1 else 0)
      ensures r.Err? ==>
        || (r.error.BrokenJson? && old(slots).index.Broken?) || r.error.VaultFull?
        || (r.error.BrokenKeyFile? && GarbledFile(old(slots))) || (r.error.WriteFailed? && !Reliable())
      ensures GarbledFile(slots) ==> GarbledFile(old(slots))
      ensures Steady(old(slots).locked) ==> slots.locked == old(slots).locked
      ensures old(Conserved(inputs, history)) ==> Conserved(inputs, history)
      ensures Present(inputs, old(slots), key) ==> OnlyOldKeys(inputs, old(slots), history, |old(history)|) && NoNewKey(inputs, old(slots), slots)
    {
      hide Conserved, StepKeeps, Steady, NoNewKey, Present, Sound, GarbledFile;
      NoNewKeyReflexive(inputs, slots);
      ghost var s, h := slots, history;
      var kcv := inputs.kcv(key);
      if slots.index.Broken? {
        return Err(BrokenJson);
      }
      if Listed(slots, kcv) {
        var n :| 0 <= n < |Entries(slots)| && Entries(slots)[n].kcv == kcv;
        return Ok(Entries(slots)[n]);
      }
      if |Entries(slots)| >= MAX_RETIRED_KEYS {
        return Err(VaultFull);
      }
      var stored := StoreRetired(kcv, key, preferKeychain);
      if stored.Err? {
        return Err(stored.error);
      }
      var entry := RetiredEntry(kcv, stored.value);
      var next := slots.(index := Parsed(slots.index.value + [entry]));
      SameFiles(slots, next);
      IndexStep(inputs, slots, next, entry);
      NoNewKeyTransitiveIf(inputs, s, slots, next, key);
      ghost var before := history;
      var ok := WriteFile(next);
      if !ok {
        return Err(WriteFailed);
      }
      OnlyOldExtend(inputs, s, before, history, |h|, slots);
      assert entry == Entries(slots)[|Entries(slots)| - 1] && Load(inputs, slots, entry).Some?;
      r := Ok(entry);
    }

    // ── The custody ladder ───────────────────────────────────────────────────

    /** Remove the legacy key file once the keychain is known to hold the same bytes; a different key there stays. */
    method RetireMatchingLegacy(key: Key) returns (r: Result<bool, KeyError>)
      requires Valid() && SeenKeychain(inputs, slots) == KeyThere(key)
      modifies this`slots, this`history, this`writes
      ensures Valid() && old(history) <= history <= old(history) + [slots]
      ensures slots == old(slots).(legacy := if old(slots).legacy == Holds(key) && r.Ok? then Nothing else old(slots).legacy)
      ensures r.Ok? ==> (r.value <==> old(slots).legacy == Holds(key))
      ensures old(slots).legacy.Garbled? ==> r == Err(BrokenKeyFile)
      ensures r.Err? ==> (r.error == BrokenKeyFile && old(slots).legacy.Garbled?) || (r.error == WriteFailed && !Reliable())
      ensures SameLive(inputs, old(slots), slots) && NoNewKey(inputs, old(slots), slots)
      ensures old(Conserved(inputs, history)) ==> Conserved(inputs, history)
    {
      hide Conserved, StepKeeps, NoNewKey, Sound;
      NoNewKeyReflexive(inputs, slots);
      match ReadKeyFile(slots.legacy) {
        case Err(e) => return Err(e);
        case Ok(found) =>
          if found != Some(key) {
            return Ok(false);
          }
          var next := slots.(legacy := Nothing);
          LegacyStep(inputs, slots, next, key);
          var ok := WriteFile(next);
          if !ok {
            return Err(WriteFailed);
          }
          return Ok(true);
      }
    }

    /** Publish a key at `master.key` unless a key is there already; answers what the file holds then. */
    method PublishMaster(key: Key) returns (r: Result<Key, KeyError>)
      requires Valid()
      modifies this`slots, this`history, this`writes
      ensures Valid() && old(history) <= history <= old(history) + [slots]
      ensures slots == old(slots).(master := slots.master)
      ensures r.Ok? ==> slots.master == Holds(r.value)
      ensures r.Err? ==> (r.error == BrokenKeyFile && old(slots).master.Garbled?) || (r.error == WriteFailed && !Reliable())
      ensures LiveShows(inputs, old(slots), inputs.kcv(key)) ==> SameLive(inputs, old(slots), slots)
      ensures slots.master == old(slots).master || (old(slots).master == Nothing && slots.master == Holds(key))
      ensures Present(inputs, old(slots), key) ==> NoNewKey(inputs, old(slots), slots)
      ensures old(Conserved(inputs, history)) ==> Conserved(inputs, history)
    {
      hide Conserved, StepKeeps, NoNewKey, Sound, Present;
      NoNewKeyReflexive(inputs, slots);
      match ReadKeyFile(slots.master) {
        case Err(e) => return Err(e);
        case Ok(found) =>
          if found.Some? {
            return Ok(found.value);
          }
          var next := slots.(master := Holds(key));
          EmptySlotStep(inputs, slots, next, key);
          var ok := WriteFile(next);
          if !ok {
            return Err(WriteFailed);
          }
          return Ok(key);
      }
    }

    /** The key an empty keychain is seeded with: the key file's, the legacy one, or a new one if nothing is sealed yet. */
    method SeedKey(legacy: Option<Key>) returns (r: Result<Key, KeyError>)
      requires Valid() && ReadKeyFile(slots.legacy) == Ok(legacy)
      ensures r.Ok? && HasEvidence(inputs, slots) ==> Present(inputs, slots, r.value) && LiveShows(inputs, slots, inputs.kcv(r.value))
      ensures SeenKeychain(inputs, slots) == Empty && inputs.env.NoEnv? && r.Ok? ==> Chosen(inputs, slots, r.value)
      ensures r.Err? ==> Blocked(inputs, slots, r.error)
      ensures SeenKeychain(inputs, slots) == Empty && inputs.env.NoEnv? ==> (r.Err? <==> Refuses(inputs, slots))
    {
      hide Present, LiveShows, Entries;
      FileKeyPresent(inputs, slots);
      var found := legacy;
      if inputs.allowFile {
        match ReadKeyFile(slots.master) {
          case Err(e) => return Err(e);
          case Ok(file) => found := if file.Some? then file else legacy;
        }
      }
      if found.Some? {
        return Ok(found.value);
      }
      if HasEvidence(inputs, slots) {
        return Err(MayNotGenerate);
      }
      var generated: Key := *;
      r := Ok(generated);
    }

    /** Seed the empty keychain with `key` and read it back; a keychain that cannot be written leaves it to the key file. */
    method Seed(key: Key) returns (r: Result<(Key, MasterKeySource), KeyError>)
      requires Valid() && inputs.env.NoEnv? && SeenKeychain(inputs, slots) == Empty && Chosen(inputs, slots, key)
      requires !Refuses(inputs, slots)
      modifies this
      ensures Valid() && old(history) <= history
      ensures Climbed(inputs, old(slots), slots, r) && (Steady(old(slots).locked) ==> slots.locked == old(slots).locked)
      ensures r.Err? ==> !Reliable() || !Writable()
      ensures r.Ok? && Writable() ==> r.value.1 == SourceKeychain
      ensures Steady(old(slots).locked) && LiveShows(inputs, old(slots), inputs.kcv(key)) ==> SameLive(inputs, old(slots), slots)
      ensures Present(inputs, old(slots), key) ==> OnlyOldKeys(inputs, old(slots), history, |old(history)|) && NoNewKey(inputs, old(slots), slots)
      ensures old(Conserved(inputs, history)) ==> Conserved(inputs, history)
    {
      hide Conserved, StepKeeps, NoNewKey, Sound, Present, Steady, Entries, LiveShows;
      ghost var s, h := slots, history;
      var stored := PutKeychain(key);
      OnlyOldExtend(inputs, s, h, history, |h|, slots);
      FilledSlotStep(inputs, s, slots, key);
      ghost var mid, g := slots, history;
      if stored {
        if SeenKeychain(inputs, slots) != KeyThere(key) {
          return Err(if SeenKeychain(inputs, slots).Corrupt? then KeychainCorrupt else KeychainUnverified);
        }
        var removed := RetireMatchingLegacy(key);
        NoNewKeyTransitiveIf(inputs, s, mid, slots, key);
        OnlyOldExtend(inputs, s, g, history, |h|, slots);
        if removed.Err? {
          return Err(removed.error);
        }
        FileKeyPresent(inputs, slots);
        return Ok((key, SourceKeychain));
      }
      if !inputs.allowFile {
        return Err(FileRefused);
      }
      var published := PublishMaster(key);
      NoNewKeyTransitiveIf(inputs, s, mid, slots, key);
      OnlyOldExtend(inputs, s, g, history, |h|, slots);
      if published.Err? {
        return Err(published.error);
      }
      FileKeyPresent(inputs, slots);
      r := Ok((published.value, SourceFile));
    }

    /** The keychain is unreachable: the key file, then the legacy key, then a new key if nothing is sealed yet. */
    method LadderFile(legacy: Option<Key>) returns (r: Result<(Key, MasterKeySource), KeyError>)
      requires Valid() && inputs.env.NoEnv? && SeenKeychain(inputs, slots) == Unavailable && ReadKeyFile(slots.legacy) == Ok(legacy)
      modifies this
      ensures Valid() && old(history) <= history
      ensures Climbed(inputs, old(slots), slots, r) && slots.locked == old(slots).locked
      ensures Refuses(inputs, old(slots)) ==> r.Err?
      ensures r.Err? ==> Refuses(inputs, old(slots)) || !Reliable()
      ensures HasEvidence(inputs, old(slots)) ==> SameLive(inputs, old(slots), slots)
      ensures HasEvidence(inputs, old(slots)) ==> OnlyOldKeys(inputs, old(slots), history, |old(history)|) && NoNewKey(inputs, old(slots), slots)
      ensures old(Conserved(inputs, history)) ==> Conserved(inputs, history)
    {
      hide Conserved, StepKeeps, NoNewKey, Sound, Present, Entries;
      NoNewKeyReflexive(inputs, slots);
      FileKeyPresent(inputs, slots);
      ghost var s, h := slots, history;
      if !inputs.allowFile {
        return Err(FileRefused);
      }
      match ReadKeyFile(slots.master) {
        case Err(e) => return Err(e);
        case Ok(file) =>
          if file.Some? {
            return Ok((file.value, SourceFile));
          }
      }
      var key: Key;
      if legacy.Some? {
        key := legacy.value;
      } else {
        if HasEvidence(inputs, slots) {
          return Err(MayNotGenerate);
        }
        key := *;
      }
      var published := PublishMaster(key);
      OnlyOldExtend(inputs, s, h, history, |h|, slots);
      FileKeyPresent(inputs, slots);
      if published.Err? {
        return Err(published.error);
      }
      r := Ok((published.value, SourceFile));
    }

    /** The custody ladder: environment, keychain, files. */
    method Ladder() returns (r: Result<(Key, MasterKeySource), KeyError>)
      requires Valid()
      modifies this
      ensures Valid() && old(history) <= history
      ensures Climbed(inputs, old(slots), slots, r) && (Steady(old(slots).locked) ==> slots.locked == old(slots).locked)
      ensures Refuses(inputs, old(slots)) ==> r.Err?
      ensures r.Err? ==> Refuses(inputs, old(slots)) || !Reliable() || (inputs.env.NoEnv? && SeenKeychain(inputs, old(slots)) == Empty && !Writable())
      ensures r.Ok? && Writable() && !old(slots).locked && inputs.env.NoEnv? ==> r.value.1 == SourceKeychain
      ensures Steady(old(slots).locked) && HasEvidence(inputs, old(slots)) ==> SameLive(inputs, old(slots), slots)
      ensures HasEvidence(inputs, old(slots)) ==> OnlyOldKeys(inputs, old(slots), history, |old(history)|) && NoNewKey(inputs, old(slots), slots)
      ensures old(Conserved(inputs, history)) ==> Conserved(inputs, history)
    {
      hide Conserved, StepKeeps, NoNewKey, Sound, Present, Steady, Entries;
      NoNewKeyReflexive(inputs, slots);
      ghost var s, h := slots, history;
      match inputs.env {
        case EnvKey(key) =>
          EnvKeyPresent(inputs, slots);
          return Ok((key, SourceEnv));
        case BadEnv => return Err(NotAKey);
        case NoEnv =>
      }
      var legacy := ReadKeyFile(slots.legacy);
      if legacy.Err? {
        return Err(legacy.error);
      }
      match SeenKeychain(inputs, slots) {
        case KeyThere(key) =>
          var removed := RetireMatchingLegacy(key);
          OnlyOldExtend(inputs, s, h, history, |h|, slots);
          FileKeyPresent(inputs, slots);
          if removed.Err? {
            return Err(removed.error);
          }
          return Ok((key, SourceKeychain));
        case Empty =>
          var key := SeedKey(legacy.value);
          if key.Err? {
            return Err(key.error);
          }
          r := Seed(key.value);
        case Corrupt => return Err(KeychainCorrupt);
        case Unavailable => r := LadderFile(legacy.value);
      }
    }

    // ── Resolution ───────────────────────────────────────────────────────────

    /** The folder records a key: only that key resolves, from wherever it is shown. */
    method ResolveRecorded(kcv: string, ladder: Result<(Key, MasterKeySource), KeyError>) returns (r: Result<Resolution, KeyError>)
      requires Valid() && slots.record == Parsed(Some(kcv)) && Answered(inputs, slots, ladder)
      modifies this
      ensures Valid() && old(history) <= history
      ensures r.Ok? <==> Shows(inputs, old(slots), kcv) && !EnvStranger(inputs, old(slots), kcv)
      ensures r.Ok? ==> inputs.kcv(r.value.key) == kcv && Present(inputs, old(slots), r.value.key)
      ensures r.Ok? ==> Served(inputs, old(slots), kcv, ladder, r.value)
      ensures r.Ok? ==> forall key :: key in r.value.retired <==>
        key != r.value.key && (VaultOffers(inputs, old(slots), key) || (ladder.Ok? && ladder.value.0 == key))
      ensures r.Ok? && ladder.Ok? && ladder.value.1 != SourceEnv && inputs.kcv(ladder.value.0) != kcv && Reliable() && HasRoom(old(slots), inputs.kcv(ladder.value.0)) ==>
        VaultShows(inputs, slots, inputs.kcv(ladder.value.0))
      ensures ladder.Err? || inputs.kcv(ladder.value.0) == kcv ==> slots == old(slots)
      ensures OnlyOldKeys(inputs, old(slots), history, |old(history)|) && NoNewKey(inputs, old(slots), slots)
      ensures Steady(old(slots).locked) ==> slots.locked == old(slots).locked
      ensures old(Conserved(inputs, history)) ==> Conserved(inputs, history)
    {
      hide Conserved, NoNewKey, Sound, Present, Steady, Entries, Candidates, LiveShows, Load, LoadAll, Retired, FoundIn, VaultOffers, VaultShows, HasRoom;
      NoNewKeyReflexive(inputs, slots);
      CandidatesShow(inputs, slots, kcv);
      FoundInOrder(inputs, slots, kcv);
      var retiredAll := LoadAll(inputs, slots, Entries(slots));
      OffersAll(inputs, slots);
      var found := FindKcv(inputs, Candidates(inputs, slots), kcv);
      if found.Some? {
        CandidatePresent(inputs, slots, found.value);
      }
      if ladder.Err? {
        if found.None? {
          return Err(ladder.error);
        }
        var key := found.value.1;
        return Ok(Resolution(key, CustodyOf(found.value.0), Others(retiredAll, key), RecoveredFrom(found.value.0)));
      }
      var (primary, source) := ladder.value;
      if inputs.kcv(primary) == kcv {
        return Ok(Resolution(primary, source, Others(retiredAll, primary), Healthy));
      }
      RetiredSource(inputs, slots, inputs.kcv(primary));
      if source == SourceEnv && FindSource(retiredAll, FromRetired(inputs.kcv(primary))).None? {
        return Err(Mismatch);
      }
      if found.None? {
        return Err(Mismatch);
      }
      if source != SourceEnv {
        RoomToRetire(inputs, slots, primary);
        var ignored := Retire(primary, source == SourceKeychain);
      }
      var key := found.value.1;
      var retired := Others(retiredAll, key);
      if primary !in retired {
        retired := retired + [primary];
      }
      r := Ok(Resolution(key, CustodyOf(found.value.0), retired, RecoveredFrom(found.value.0)));
    }

    /** No key is recorded: the ladder's key is recorded if it opens what is sealed, else a candidate that does. */
    method ResolveUnrecorded(primary: Key, source: MasterKeySource) returns (r: Result<Resolution, KeyError>)
      requires Valid() && slots.record == Parsed(None) && LiveShows(inputs, slots, inputs.kcv(primary)) && Present(inputs, slots, primary)
      modifies this
      ensures Valid() && old(history) <= history
      ensures r.Ok? ==> Present(inputs, old(slots), r.value.key)
      ensures r.Ok? ==>
        if inputs.recordsKcv && inputs.probe(primary) == Failed then
          r.value.health.RecoveredFrom? && r.value.source == CustodyOf(r.value.health.source)
          && FirstProbed(inputs, Candidates(inputs, old(slots)), primary, (r.value.health.source, r.value.key))
        else (r.value.key, r.value.source, r.value.health) == (primary, source, Healthy)
      ensures r.Ok? ==> forall key :: key in r.value.retired <==> key != r.value.key && (VaultOffers(inputs, old(slots), key) || key == primary)
      ensures r.Ok? && source != SourceEnv && r.value.key != primary && Reliable() && HasRoom(old(slots), inputs.kcv(primary)) ==>
        VaultShows(inputs, slots, inputs.kcv(primary))
      ensures r.Ok? && r.value.key == primary ==> slots == old(slots).(record := slots.record)
      ensures r.Err? ==> r.error == Mismatch || (r.error == WriteFailed && !Reliable())
      ensures r.Ok? && inputs.recordsKcv ==> slots.record == Parsed(Some(inputs.kcv(r.value.key))) && inputs.probe(r.value.key) != Failed
      ensures r.Err? || !inputs.recordsKcv ==> slots.record == Parsed(None)
      ensures r == Err(Mismatch) <==> inputs.recordsKcv && inputs.probe(primary) == Failed && FindProbed(inputs, Candidates(inputs, old(slots)), primary).None?
      ensures r == Err(Mismatch) ==> history == old(history)
      ensures Steady(old(slots).locked) ==> slots.locked == old(slots).locked
      ensures old(Conserved(inputs, history)) ==> Conserved(inputs, history)
    {
      hide Conserved, NoNewKey, Sound, Present, Steady, Entries, Candidates, LiveShows, Load, LoadAll, StepKeeps, VaultOffers, VaultShows, HasRoom;
      ghost var s := slots;
      var retiredAll := LoadAll(inputs, slots, Entries(slots));
      OffersAll(inputs, slots);
      if !inputs.recordsKcv {
        return Ok(Resolution(primary, source, Others(retiredAll, primary), Healthy));
      }
      if inputs.probe(primary) != Failed {
        RecordStep(inputs, s, slots, inputs.kcv(primary));
        var ok := WriteFile(slots.(record := Parsed(Some(inputs.kcv(primary)))));
        if !ok {
          return Err(WriteFailed);
        }
        return Ok(Resolution(primary, source, Others(retiredAll, primary), Healthy));
      }
      var recovered := FindProbed(inputs, Candidates(inputs, slots), primary);
      if recovered.None? {
        return Err(Mismatch);
      }
      var (kind, key) := recovered.value;
      CandidatePresent(inputs, slots, recovered.value);
      ProbedFirst(inputs, Candidates(inputs, slots), primary);
      if source != SourceEnv {
        RoomToRetire(inputs, slots, primary);
        var ignored := Retire(primary, source == SourceKeychain);
      }
      RecordStep(inputs, s, slots, inputs.kcv(key));
      VaultStays(inputs, slots, slots.(record := Parsed(Some(inputs.kcv(key)))), inputs.kcv(primary));
      var ok := WriteFile(slots.(record := Parsed(Some(inputs.kcv(key)))));
      if !ok {
        return Err(WriteFailed);
      }
      var retired := Others(retiredAll, key);
      if primary !in retired {
        retired := retired + [primary];
      }
      r := Ok(Resolution(key, CustodyOf(kind), retired, RecoveredFrom(kind)));
    }

    /**
      Resolve the folder's master key. Once a check value is recorded, whatever
      the slots hold, the answer is a key with that check value or an error; the
      record stays; and at no point does any slot hold a key that no slot held
      before: nothing is ever generated. With a keychain that stays as reachable
      as it is, resolution succeeds exactly when some candidate shows the
      recorded key and the environment does not name a stranger.
     */
    method Resolve() returns (r: Result<Resolution, KeyError>)
      requires Valid()
      modifies this
      ensures Valid() && old(history) <= history
      ensures old(slots).record.Broken? ==> r.Err? && history == old(history)
      ensures TooNew(inputs) ==> r == Err(NewerFormat) && history == old(history)
      ensures Recorded(old(slots)).Some? ==>
        && OnlyOldKeys(inputs, old(slots), history, |old(history)|)
        && slots.record == old(slots).record
        && (r.Ok? ==> inputs.kcv(r.value.key) == Recorded(old(slots)).value && Present(inputs, old(slots), r.value.key))
      ensures Recorded(old(slots)).Some? && Steady(old(slots).locked) ==>
        (r.Ok? <==> && !TooNew(inputs) && Shows(inputs, old(slots), Recorded(old(slots)).value)
                    && !EnvStranger(inputs, old(slots), Recorded(old(slots)).value))
      ensures old(slots).record == Parsed(None) && r.Ok? && inputs.recordsKcv ==>
        slots.record == Parsed(Some(inputs.kcv(r.value.key))) && inputs.probe(r.value.key) != Failed
      ensures old(slots).record == Parsed(None) && (r.Err? || !inputs.recordsKcv) ==> slots.record == Parsed(None)
      ensures Recorded(old(slots)).Some? && Steady(old(slots).locked) && r.Ok? ==>
        && (ResolvedAs(inputs, old(slots), slots, true, r.value) || ResolvedAs(inputs, old(slots), slots, false, r.value))
        && (Refuses(inputs, old(slots)) ==> ResolvedAs(inputs, old(slots), slots, false, r.value))
        && (old(Undisturbed()) ==> ResolvedAs(inputs, old(slots), slots, true, r.value))
      ensures Recorded(old(slots)).Some? && Steady(old(slots).locked) && old(Undisturbed()) && r.Ok? && !inputs.env.EnvKey? ==>
        var chosen := ChosenKey(inputs, old(slots));
        chosen.Some? && (inputs.kcv(chosen.value) != inputs.kcv(r.value.key) && HasRoom(old(slots), inputs.kcv(chosen.value)) ==>
          VaultShows(inputs, slots, inputs.kcv(chosen.value)))
      ensures old(slots).record == Parsed(None) && r.Ok? ==>
        exists primary :: Chosen(inputs, old(slots), primary) && (inputs.recordsKcv && inputs.probe(primary) == Failed <==> r.value.health.RecoveredFrom?)
          && (if r.value.health == Healthy then r.value.key == primary && StandsIn(inputs, old(slots), slots, (primary, r.value.source))
              else primary in r.value.retired && r.value.source == CustodyOf(r.value.health.source) && inputs.probe(r.value.key) == Passed)
      ensures old(slots).record == Parsed(None) && r.Err? && !TooNew(inputs) && old(Undisturbed()) ==>
        r.error == Mismatch && inputs.recordsKcv
        && exists primary :: Chosen(inputs, old(slots), primary) && inputs.probe(primary) == Failed && FindProbed(inputs, Candidates(inputs, slots), primary).None?
      ensures Steady(old(slots).locked) && r.Ok? ==> forall key :: VaultOffers(inputs, old(slots), key) && key != r.value.key ==> key in r.value.retired
      ensures Steady(old(slots).locked) ==> slots.locked == old(slots).locked
      ensures old(Conserved(inputs, history)) ==> Conserved(inputs, history)
    {
      hide Conserved, NoNewKey, Sound, Present, Steady, Entries, Candidates, LiveShows, Shows, EnvStranger, SameLive, Refuses, FoundIn, VaultOffers, VaultShows, HasRoom;
      if TooNew(inputs) {
        return Err(NewerFormat);
      }
      if slots.record.Broken? {
        return Err(BrokenJson);
      }
      ghost var s := slots;
      var recorded := slots.record.value;
      var ladder := Ladder();
      ghost var mid, h := slots, history;
      SameVault(inputs, s, mid);
      match recorded {
        case Some(kcv) =>
          r := ResolveRecorded(kcv, ladder);
          if r.Ok? && ladder.Ok? && inputs.kcv(ladder.value.0) != kcv && mid.locked == s.locked {
            FoundBefore(inputs, s, mid, ladder.value.0, kcv, r.value.health.source, r.value.key);
          }
          OnlyOldTwice(inputs, s, mid, old(history), h, history);
          NoNewKeyPresent(inputs, s, mid, r);
        case None =>
          if ladder.Err? {
            return Err(ladder.error);
          }
          r := ResolveUnrecorded(ladder.value.0, ladder.value.1);
      }
    }

    // ── Making a key current ─────────────────────────────────────────────────

    /** The keys an install has to retire. */
    method CollectRetired(key: Key, extra: seq<Key>) returns (r: seq<Key>)
      ensures r == ToRetire(inputs, slots, key, extra)
    {
      r := [];
      var previous := PersistentKey(inputs, slots);
      if previous.Some? && previous.value != key {
        r := r + [previous.value];
      }
      var recorded := RecordedKey(inputs, slots);
      if recorded.Some? && recorded.value != key && recorded.value !in r {
        r := r + [recorded.value];
      }
      ghost var first := r;
      for n := 0 to |extra|
        invariant r == AddAll(first, key, extra[..n])
      {
        assert extra[..n + 1][..n] == extra[..n];
        if extra[n] != key && extra[n] !in r {
          r := r + [extra[n]];
        }
      }
      assert extra[..|extra|] == extra;
    }

    /** Retire a list of keys that is known to fit. */
    method RetireAll(keys: seq<Key>) returns (r: Option<KeyError>)
      requires Valid() && slots.index.Parsed? && |Entries(slots)| + CountNew(inputs, slots, keys) <= MAX_RETIRED_KEYS
      modifies this
      ensures Valid() && old(history) <= history && slots.index.Parsed?
      ensures slots == old(slots).(vaultItems := slots.vaultItems, vaultFiles := slots.vaultFiles, index := slots.index, locked := slots.locked)
      ensures r.Some? ==> (r.value.BrokenKeyFile? && GarbledFile(old(slots))) || (r.value.WriteFailed? && !Reliable())
      ensures Entries(old(slots)) <= Entries(slots)
      ensures r.None? ==> calls == old(calls) + (if inputs.keychainEnabled then |NewKcvs(inputs, old(slots), keys)| else 0)
      ensures r.None? ==> forall k :: Listed(slots, k) <==> Listed(old(slots), k) || HasKcv(inputs, keys, k)
      ensures Steady(old(slots).locked) ==> slots.locked == old(slots).locked
      ensures old(Conserved(inputs, history)) ==> Conserved(inputs, history)
    {
      hide Conserved, NoNewKey, Sound, Present, Steady, CountNew, NewKcvs, OnlyOldKeys, Listed, HasKcv, GarbledFile, Reliable;
      ghost var s := slots;
      NoNewKcvs(inputs, s, keys[..0]);
      assert forall k :: !HasKcv(inputs, keys[..0], k) by { NoneHasKcv(inputs, keys[..0]); }
      CountNewNone(inputs, s, keys[..0]);
      for n := 0 to |keys|
        invariant Valid() && old(history) <= history && slots.index.Parsed?
        invariant slots == s.(vaultItems := slots.vaultItems, vaultFiles := slots.vaultFiles, index := slots.index, locked := slots.locked)
        invariant Entries(s) <= Entries(slots) && |Entries(slots)| <= |Entries(s)| + CountNew(inputs, s, keys[..n])
        invariant forall k :: Listed(slots, k) <==> Listed(s, k) || HasKcv(inputs, keys[..n], k)
        invariant GarbledFile(slots) ==> GarbledFile(s)
        invariant calls == old(calls) + (if inputs.keychainEnabled then |NewKcvs(inputs, s, keys[..n])| else 0)
        invariant Steady(s.locked) ==> slots.locked == s.locked
        invariant old(Conserved(inputs, history)) ==> Conserved(inputs, history)
      {
        ghost var mid := slots;
        OneMoreKey(inputs, s, keys, n);
        OneMoreKcv(inputs, s, keys, n);
        CountNewPrefix(inputs, s, keys, n + 1);
        var entry := Retire(keys[n], inputs.keychainEnabled);
        RetiredLists(inputs, mid, slots, keys[n], entry);
        if entry.Err? {
          return Some(entry.error);
        }
      }
      assert keys[..|keys|] == keys;
      r := None;
    }

    /** Store the current key: in the keychain if that is confirmed, else in the key file. Then record its check value. */
    method StoreCurrent(key: Key) returns (r: Result<MasterKeySource, KeyError>)
      requires Valid()
      modifies this
      ensures Valid() && old(history) <= history
      ensures slots == old(slots).(keychain := slots.keychain, locked := slots.locked, master := slots.master, record := slots.record)
      ensures r.Ok? ==> slots.record == Parsed(Some(inputs.kcv(key)))
      ensures r.Err? ==> slots.record == old(slots).record && ((r.error.FileRefused? && !inputs.allowFile && !Writable()) || (r.error.WriteFailed? && !Reliable()))
      ensures r.Ok? ==> StoredIn(inputs, old(slots), slots, key, r.value)
      ensures Writable() && r.Ok? ==> r.value == SourceKeychain
      ensures slots.keychain == if inputs.keychainEnabled && os(old(calls)).wrote then Holds(key) else old(slots).keychain
      ensures Steady(old(slots).locked) ==> slots.locked == old(slots).locked
      ensures old(Conserved(inputs, history)) && Covered(inputs, old(slots), key) ==> Conserved(inputs, history)
    {
      hide Conserved, StepKeeps, Sound, Steady, Listed, LiveHolds;
      ghost var s := slots;
      var stored := PutKeychain(key);
      OverwriteStep(inputs, s, slots, key);
      var custody := if stored && SeenKeychain(inputs, slots) == KeyThere(key) then SourceKeychain else SourceFile;
      if custody == SourceFile {
        if !inputs.allowFile {
          return Err(FileRefused);
        }
        var next := slots.(master := Holds(key));
        OverwriteStep(inputs, slots, next, key);
        var ok := WriteFile(next);
        if !ok {
          return Err(WriteFailed);
        }
      }
      NowHolds(inputs, slots, key);
      NewRecordStep(inputs, slots, key);
      var ok := WriteFile(slots.(record := Parsed(Some(inputs.kcv(key)))));
      if !ok {
        return Err(WriteFailed);
      }
      r := Ok(custody);
    }

    /**
      Make `key` the current key, retiring what it replaces first. It refuses
      before any write exactly when the retired set would overflow. Every key ever
      recorded stays held, at every write, provided the recorded key is in sight;
      and an install that succeeds leaves the recorded key held if and only if it
      was in sight, or the keychain item held it out of sight and writing the new
      key there had no effect.
     */
    method InstallCurrent(key: Key, extra: seq<Key>) returns (r: Result<AdoptOutcome, KeyError>)
      requires Valid()
      modifies this
      ensures Valid() && old(history) <= history
      ensures old(slots).record.Broken? || old(slots).index.Broken? ==> r == Err(BrokenJson) && history == old(history)
      ensures old(slots).record.Parsed? && old(slots).index.Parsed? ==>
        (r == Err(VaultFull) <==> |Entries(old(slots))| + CountNew(inputs, old(slots), ToRetire(inputs, old(slots), key, extra)) > MAX_RETIRED_KEYS)
      ensures r == Err(VaultFull) ==> history == old(history)
      ensures r.Ok? ==> Installed(inputs, old(slots), slots, key, extra, r.value)
      ensures r.Err? ==> Storage(r.error)
      ensures r.Err? && Reliable() && old(slots).record.Parsed? && old(slots).index.Parsed? ==>
        r.error.VaultFull? || GarbledFile(old(slots)) || (!inputs.allowFile && !Writable())
      ensures Writable() && r.Ok? ==> r.value.custody == Some(SourceKeychain)
      ensures Steady(old(slots).locked) ==> slots.locked == old(slots).locked
      ensures old(Conserved(inputs, history)) && SafeToInstall(inputs, old(slots), key, extra) ==> Conserved(inputs, history)
      ensures r.Ok? && Recorded(old(slots)).Some? ==>
        (Held(inputs, slots, Recorded(old(slots)).value) <==> old(Survives(key, extra)))
    {
      hide Conserved, Sound, Steady, GarbledFile, Reliable, Writable, CountNew, ToRetire, SafeToInstall, Covered, LiveHolds, LiveShows, Listed, HasKcv;
      if slots.record.Broken? || slots.index.Broken? {
        return Err(BrokenJson);
      }
      ghost var s := slots;
      var keys := CollectRetired(key, extra);
      if |Entries(slots)| + CountNew(inputs, slots, keys) > MAX_RETIRED_KEYS {
        return Err(VaultFull);
      }
      var outcome := AdoptOutcome(inputs.kcv(key), None, ReportedRetired(inputs, slots, key));
      ReportedReports(inputs, slots, key);
      var failed := RetireAll(keys);
      if failed.Some? {
        return Err(failed.value);
      }
      ghost var mid := slots;
      SafeIsCovered(inputs, s, mid, key, extra);
      ghost var overwritten := inputs.keychainEnabled && os(calls).wrote;
      var stored := StoreCurrent(key);
      if stored.Err? {
        return Err(stored.error);
      }
      RecordedSurvives(inputs, s, mid, slots, key, extra, stored.value, overwritten);
      r := Ok(outcome.(custody := Some(stored.value)));
    }

    // ── The commands ─────────────────────────────────────────────────────────

    /** `keys adopt`: make a candidate current. A key the probe rejects is refused unless asked for. */
    method AdoptWith(from: AdoptFrom, acceptUnreadable: bool) returns (r: Result<AdoptOutcome, KeyError>)
      requires Valid()
      modifies this
      ensures Valid() && old(history) <= history
      ensures var found := FindSource(Candidates(inputs, old(slots)), Wanted(from));
        && (found.None? <==> r == Err(NoCandidate)) && (found.None? ==> history == old(history))
        && (found.Some? ==>
              && (old(Conserved(inputs, history)) && SafeToInstall(inputs, old(slots), found.value.1, []) ==> Conserved(inputs, history))
              && (r.Ok? ==> Installed(inputs, old(slots), slots, found.value.1, [], r.value))
              && (r.Ok? && Recorded(old(slots)).Some? ==>
                    (Held(inputs, slots, Recorded(old(slots)).value) <==> old(Survives(found.value.1, []))))
              && (r == Err(VaultFull) ==> |Entries(old(slots))| + CountNew(inputs, old(slots), ToRetire(inputs, old(slots), found.value.1, [])) > MAX_RETIRED_KEYS)
              && (old(slots).record.Parsed? ==>
                    (r == Err(ProbeRefused) <==> && Recorded(old(slots)) != Some(inputs.kcv(found.value.1))
                                                 && inputs.probe(found.value.1) == Failed && !acceptUnreadable)))
      ensures r == Err(ProbeRefused) || r == Err(VaultFull) ==> history == old(history)
      ensures Writable() && r.Ok? ==> r.value.custody == Some(SourceKeychain)
      ensures r.Err? && Reliable() && old(slots).record.Parsed? && old(slots).index.Parsed? ==>
        r.error in {NoCandidate, ProbeRefused, VaultFull} || GarbledFile(old(slots)) || (!inputs.allowFile && !Writable())
      ensures Steady(old(slots).locked) ==> slots.locked == old(slots).locked
    {
      hide Conserved, Sound, Steady, GarbledFile, Reliable, CountNew, ToRetire, SafeToInstall, Held, Candidates, Installed;
      var found := FindSource(Candidates(inputs, slots), Wanted(from));
      if found.None? {
        return Err(NoCandidate);
      }
      var key := found.value.1;
      if slots.record.Broken? {
        return Err(BrokenJson);
      }
      if slots.record.value != Some(inputs.kcv(key)) && inputs.probe(key) == Failed && !acceptUnreadable {
        return Err(ProbeRefused);
      }
      r := InstallCurrent(key, []);
    }

    /** `keys import`: install a backup's key and retire the others it carries. An environment key that would be stranded refuses first. */
    method ImportWith(current: Key, retired: seq<Key>) returns (r: Result<AdoptOutcome, KeyError>)
      requires Valid()
      modifies this
      ensures Valid() && old(history) <= history
      ensures r == Err(EnvStranded) <==> inputs.env.EnvKey? && inputs.env.key != current && inputs.env.key !in retired
      ensures r == Err(EnvStranded) ==> history == old(history)
      ensures AlreadyCurrent(inputs, old(slots), current) ==>
        slots == old(slots).(vaultItems := slots.vaultItems, vaultFiles := slots.vaultFiles, index := slots.index, locked := slots.locked)
      ensures r.Ok? && AlreadyCurrent(inputs, old(slots), current) ==>
        forall n :: 0 <= n < |retired| && retired[n] != current ==> Listed(slots, inputs.kcv(retired[n]))
      ensures r.Ok? && !AlreadyCurrent(inputs, old(slots), current) ==> Installed(inputs, old(slots), slots, current, retired, r.value)
      ensures Steady(old(slots).locked) ==> slots.locked == old(slots).locked
      ensures old(Conserved(inputs, history)) && (AlreadyCurrent(inputs, old(slots), current) || SafeToInstall(inputs, old(slots), current, retired)) ==>
        Conserved(inputs, history)
    {
      hide Conserved, Sound, Steady, CountNew, ToRetire, SafeToInstall, Held, Installed, OnlyOldKeys, NoNewKey, Present, Listed, SeenKeychain;
      if inputs.env.EnvKey? && inputs.env.key != current && inputs.env.key !in retired {
        return Err(EnvStranded);
      }
      if slots.record.Broken? {
        return Err(BrokenJson);
      }
      if AlreadyCurrent(inputs, slots, current) {
        ghost var s := slots;
        for n := 0 to |retired|
          invariant Valid() && old(history) <= history
          invariant slots == s.(vaultItems := slots.vaultItems, vaultFiles := slots.vaultFiles, index := slots.index, locked := slots.locked)
          invariant Steady(s.locked) ==> slots.locked == s.locked
          invariant old(Conserved(inputs, history)) ==> Conserved(inputs, history)
          invariant forall m :: 0 <= m < n && retired[m] != current ==> Listed(slots, inputs.kcv(retired[m]))
        {
          if retired[n] != current {
            ghost var mid := slots;
            var entry := Retire(retired[n], inputs.keychainEnabled);
            RetiredLists(inputs, mid, slots, retired[n], entry);
            if entry.Err? {
              return Err(entry.error);
            }
          }
        }
        return Ok(AdoptOutcome(inputs.kcv(current), None, None));
      }
      r := InstallCurrent(current, retired);
    }

    /** `keys retire`: move a candidate that is not current into the vault, and remove its file once the vault can load it. */
    method RetireWith(kcv: string) returns (r: Result<RetiredEntry, KeyError>)
      requires Valid()
      modifies this
      ensures Valid() && old(history) <= history
      ensures Recorded(old(slots)) == Some(kcv) ==> r == Err(IsCurrent) && history == old(history)
      ensures r.Ok? ==> LiveShows(inputs, old(slots), kcv) && Listed(slots, kcv) && r.value.kcv == kcv
      ensures slots.master == old(slots).master || (SlotHas(inputs, old(slots).master, kcv) && slots.master == Nothing && VaultShows(inputs, slots, kcv))
      ensures slots.legacy == old(slots).legacy || (SlotHas(inputs, old(slots).legacy, kcv) && slots.legacy == Nothing && VaultShows(inputs, slots, kcv))
      ensures slots.record == old(slots).record && slots.keychain == old(slots).keychain
      ensures Steady(old(slots).locked) ==> slots.locked == old(slots).locked
      ensures old(Conserved(inputs, history)) ==> Conserved(inputs, history)
    {
      hide Conserved, Sound, Steady, StepKeeps, Listed, LiveShows, LiveCandidates, OnlyOldKeys, NoNewKey, Present, Load, Entries;
      if slots.record.Broken? {
        return Err(BrokenJson);
      }
      if slots.record.value == Some(kcv) {
        return Err(IsCurrent);
      }
      LiveFinds(inputs, slots, kcv);
      var found := FindKcv(inputs, LiveCandidates(inputs, slots), kcv);
      if found.None? {
        return Err(NoCandidate);
      }
      var (kind, key) := found.value;
      LiveSlot(inputs, slots, found.value);
      if kind == FromKeychain {
        return Err(InKeychain);
      }
      ghost var s := slots;
      var entry := Retire(key, inputs.keychainEnabled);
      RetiredLists(inputs, s, slots, key, entry);
      if entry.Err? {
        return Err(entry.error);
      }
      if Load(inputs, slots, entry.value) == Some(key) && (kind == FromFile || kind == FromLegacy) {
        var next := if kind == FromFile then slots.(master := Nothing) else slots.(legacy := Nothing);
        RemoveStep(inputs, slots, next, kcv, entry.value);
        var ok := WriteFile(next);
        if !ok {
          return Err(WriteFailed);
        }
      }
      r := entry;
    }

    /**
      Adopt, then boot: the next resolution answers the adopted key, unless the
      environment names a key that is neither it nor a readable retired one.
     */
    method AdoptThenResolve(from: AdoptFrom, acceptUnreadable: bool) returns (adopted: Result<AdoptOutcome, KeyError>, r: Result<Resolution, KeyError>, ghost at: Slots)
      requires Valid() && !TooNew(inputs) && Steady(slots.locked)
      modifies this
      ensures Valid()
      ensures adopted.Ok? ==>
        && (r.Ok? <==> !EnvStranger(inputs, at, adopted.value.kcv))
        && (r.Ok? ==> inputs.kcv(r.value.key) == adopted.value.kcv)
        && (from == AdoptEnv || !inputs.env.EnvKey? ==> r.Ok?)
    {
      hide Conserved, Sound, Steady, SafeToInstall, Candidates, OnlyOldKeys, NoNewKey, VaultShows;
      EnvCandidate(inputs, slots);
      adopted := AdoptWith(from, acceptUnreadable);
      at := slots;
      r := Err(NoCandidate);
      if adopted.Ok? {
        InstalledShows(inputs, slots);
        r := Resolve();
      }
    }
  }

  // ── Steps that keep the vault and the record ───────────────────────────────

  lemma SoundOtherSlots(i: Inputs, s: Slots, t: Slots)
    requires Sound(i, s) && t.vaultItems == s.vaultItems && t.vaultFiles == s.vaultFiles && t.index == s.index
    ensures Sound(i, t)
  {
    assert Entries(t) == Entries(s);
    forall n | 0 <= n < |Entries(t)| ensures EntryHeld(i, t, Entries(t)[n]) {
      assert EntryHeld(i, s, Entries(s)[n]);
    }
  }

  lemma SoundUnlistedItem(i: Inputs, s: Slots, t: Slots, kcv: string)
    requires Sound(i, s) && !Listed(s, kcv) && t.vaultFiles == s.vaultFiles && t.index == s.index
    requires forall k :: k != kcv ==> (k in t.vaultItems <==> k in s.vaultItems) && (k in s.vaultItems ==> t.vaultItems[k] == s.vaultItems[k])
    ensures Sound(i, t)
  {
    assert Entries(t) == Entries(s);
    forall n | 0 <= n < |Entries(t)| ensures EntryHeld(i, t, Entries(t)[n]) {
      assert EntryHeld(i, s, Entries(s)[n]) && Entries(s)[n].kcv != kcv;
    }
  }

  /** A retired key's file is there and holds no key. */
  predicate GarbledFile(s: Slots) {
    exists k :: k in s.vaultFiles && s.vaultFiles[k].Garbled?
  }

  lemma SameFiles(s: Slots, t: Slots)
    requires t.vaultFiles == s.vaultFiles
    ensures GarbledFile(t) <==> GarbledFile(s)
  {
  }

  lemma SameLiveKeeps(i: Inputs, s: Slots, t: Slots)
    requires t.keychain == s.keychain && t.master == s.master && t.legacy == s.legacy && t.record == s.record
    requires forall k :: Listed(s, k) ==> Listed(t, k)
    ensures StepKeeps(i, s, t)
  {
    hide Listed;
  }

  /** What retiring a key does to the index. */
  ghost predicate Retired(i: Inputs, s: Slots, t: Slots, key: Key, r: Result<RetiredEntry, KeyError>) {
    var kcv := i.kcv(key);
    && (r.Err? ==> Storage(r.error))
    && (r == Err(VaultFull) <==> s.index.Parsed? && !Listed(s, kcv) && |Entries(s)| >= 4)
    && (r.Ok? ==> r.value in Entries(t) && r.value.kcv == kcv)
    && (s.index.Parsed? <==> t.index.Parsed?)
    && Entries(s) <= Entries(t)
    && (if r.Ok? && !Listed(s, kcv) then |Entries(t)| == |Entries(s)| + 1 else t.index == s.index)
    && (r.Ok? ==> s.index.Parsed?)
    && (s.index.Parsed? && Listed(s, kcv) ==> r.Ok? && t == s)
  }

  lemma NoNewKeyReflexive(i: Inputs, s: Slots)
    ensures NoNewKey(i, s, s)
  {
  }

  lemma NoNewKeyTransitive(i: Inputs, s: Slots, t: Slots, u: Slots)
    requires NoNewKey(i, s, t) && NoNewKey(i, t, u)
    ensures NoNewKey(i, s, u)
  {
    hide Present;
  }

  lemma NoNewKeyTransitiveIf(i: Inputs, s: Slots, t: Slots, u: Slots, key: Key)
    requires Present(i, s, key) ==> NoNewKey(i, s, t) && NoNewKey(i, t, u)
    ensures Present(i, s, key) ==> NoNewKey(i, s, u)
  {
    hide Present;
  }

  lemma OnlyOldExtend(i: Inputs, s: Slots, h: seq<Slots>, g: seq<Slots>, from: nat, t: Slots)
    requires h <= g <= h + [t]
    ensures OnlyOldKeys(i, s, h, from) && NoNewKey(i, s, t) && t.record == s.record ==> OnlyOldKeys(i, s, g, from)
  {
    hide NoNewKey;
  }

  lemma RetiredFileStep(i: Inputs, s: Slots, t: Slots, kcv: string, key: Key)
    requires Sound(i, s) && !Listed(s, kcv) && kcv == i.kcv(key) && t == s.(vaultFiles := s.vaultFiles[kcv := Holds(key)])
    ensures Sound(i, t) && StepKeeps(i, s, t)
    ensures forall s0 :: NoNewKey(i, s0, s) && Present(i, s0, key) ==> NoNewKey(i, s0, t)
  {
    forall n | 0 <= n < |Entries(t)| ensures EntryHeld(i, t, Entries(t)[n]) {
      assert EntryHeld(i, s, Entries(s)[n]) && Entries(s)[n].kcv != kcv;
    }
    assert Entries(t) == Entries(s);
    SameLiveKeeps(i, s, t);
    assert forall x :: Present(i, t, x) ==> x == key || Present(i, s, x);
  }

  lemma HonestFile(i: Inputs, s: Slots, kcv: string)
    requires Sound(i, s) && kcv in s.vaultFiles && s.vaultFiles[kcv].Holds?
    ensures SlotHas(i, s.vaultFiles[kcv], kcv)
  {
  }

  lemma IndexStep(i: Inputs, s: Slots, t: Slots, e: RetiredEntry)
    requires Sound(i, s) && s.index.Parsed? && !Listed(s, e.kcv) && |Entries(s)| < MAX_RETIRED_KEYS && EntryHeld(i, s, e)
    requires t == s.(index := Parsed(s.index.value + [e]))
    ensures Sound(i, t) && StepKeeps(i, s, t) && NoNewKey(i, s, t)
  {
    forall n | 0 <= n < |Entries(t)| ensures EntryHeld(i, t, Entries(t)[n]) {
      if n < |Entries(s)| {
        assert EntryHeld(i, s, Entries(s)[n]);
      }
    }
    forall k | Listed(s, k) ensures Listed(t, k) {
      var n :| 0 <= n < |Entries(s)| && Entries(s)[n].kcv == k;
      assert Entries(t)[n].kcv == k;
    }
    SameLiveKeeps(i, s, t);
    assert forall x :: Present(i, t, x) ==> Present(i, s, x);
  }

  /** Live slots show and hold the same check values. */
  ghost predicate SameLive(i: Inputs, s: Slots, t: Slots) {
    (forall k :: LiveShows(i, s, k) <==> LiveShows(i, t, k)) && (forall k :: LiveHolds(i, s, k) ==> LiveHolds(i, t, k))
  }

  /** The ladder's answer is a key some live slot shows; the environment's key exactly when there is one. */
  predicate Answered(i: Inputs, t: Slots, r: Result<(Key, MasterKeySource), KeyError>) {
    && (r.Ok? ==> LiveShows(i, t, i.kcv(r.value.0)) && Present(i, t, r.value.0))
    && (r.Ok? ==> (r.value.1 == SourceEnv <==> i.env.EnvKey?))
    && (i.env.EnvKey? ==> r == Ok((i.env.key, SourceEnv)))
  }

  /** The ladder touches live slots only, answers the first key it comes to, and refuses only for a listed reason. */
  ghost predicate Climbed(i: Inputs, s: Slots, t: Slots, r: Result<(Key, MasterKeySource), KeyError>) {
    && t == s.(keychain := t.keychain, locked := t.locked, master := t.master, legacy := t.legacy)
    && Answered(i, t, r)
    && (i.env.EnvKey? ==> t == s)
    && (r.Ok? ==> Chosen(i, s, r.value.0) && StandsIn(i, s, t, r.value) && OnlyMoves(s, t, r.value.0))
    && (r.Err? ==> Blocked(i, s, r.error))
  }

  /** The ladder's choice among the keys there are: environment, keychain, key file if allowed, legacy file. */
  function ChosenKey(i: Inputs, s: Slots): Option<Key> {
    if i.env.EnvKey? then Some(i.env.key)
    else if SeenKeychain(i, s).KeyThere? then Some(SeenKeychain(i, s).key)
    else if i.allowFile && s.master.Holds? then Some(s.master.key)
    else if s.legacy.Holds? then Some(s.legacy.key)
    else None
  }

  /** Nothing is recorded, sealed or retired yet. */
  predicate Fresh(i: Inputs, s: Slots) {
    Recorded(s).None? && !i.hostEvidence && Entries(s) == []
  }

  /** The ladder's choice; a new key only when there is none and nothing is sealed. */
  predicate Chosen(i: Inputs, s: Slots, key: Key) {
    match ChosenKey(i, s)
    case Some(found) => key == found
    case None => Fresh(i, s)
  }

  /** The state of the slots alone makes the ladder refuse. */
  predicate Refuses(i: Inputs, s: Slots) {
    match i.env
    case BadEnv => true
    case EnvKey(_) => false
    case NoEnv =>
      s.legacy.Garbled? ||
      match SeenKeychain(i, s)
      case KeyThere(_) => false
      case Corrupt => true
      case Empty => (i.allowFile && s.master.Garbled?) || (ChosenKey(i, s).None? && !Fresh(i, s))
      case Unavailable => !i.allowFile || s.master.Garbled? || (ChosenKey(i, s).None? && !Fresh(i, s))
  }

  /** The ladder's answer stands where its source says: the key file only when the keychain showed no key. */
  predicate StandsIn(i: Inputs, s: Slots, t: Slots, found: (Key, MasterKeySource)) {
    match found.1
    case SourceEnv => i.env == EnvKey(found.0)
    case SourceKeychain => SeenKeychain(i, t) == KeyThere(found.0)
    case SourceFile => t.master == Holds(found.0) && !SeenKeychain(i, s).KeyThere?
  }

  /** The ladder only puts its key where there was none, and removes a legacy file that holds it. */
  predicate OnlyMoves(s: Slots, t: Slots, key: Key) {
    && (t.keychain == s.keychain || (s.keychain == Nothing && t.keychain == Holds(key)))
    && (t.master == s.master || (s.master == Nothing && t.master == Holds(key)))
    && (t.legacy == s.legacy || (s.legacy == Holds(key) && t.legacy == Nothing))
  }

  /** Why the ladder may refuse. */
  predicate Blocked(i: Inputs, s: Slots, e: KeyError) {
    match e
    case NotAKey => i.env.BadEnv?
    case BrokenKeyFile => s.legacy.Garbled? || s.master.Garbled?
    case KeychainCorrupt => SeenKeychain(i, s).Corrupt?
    case KeychainUnverified => SeenKeychain(i, s).Empty?
    case MayNotGenerate => HasEvidence(i, s) && !s.legacy.Holds? && (i.allowFile ==> !s.master.Holds?)
    case FileRefused => !i.allowFile
    case WriteFailed => true
    case _ => false
  }

  lemma LegacyStep(i: Inputs, s: Slots, t: Slots, key: Key)
    requires Sound(i, s) && SeenKeychain(i, s) == KeyThere(key) && s.legacy == Holds(key) && t == s.(legacy := Nothing)
    ensures Sound(i, t) && StepKeeps(i, s, t) && SameLive(i, s, t) && NoNewKey(i, s, t)
  {
    SoundOtherSlots(i, s, t);
    assert forall k :: Listed(s, k) ==> Listed(t, k) by { assert Entries(t) == Entries(s); }
    assert forall x :: Present(i, t, x) ==> Present(i, s, x);
  }

  /** A key put where there was none loses nothing. */
  lemma EmptySlotStep(i: Inputs, s: Slots, t: Slots, key: Key)
    requires Sound(i, s) && s.master == Nothing && t == s.(master := Holds(key))
    ensures Sound(i, t) && StepKeeps(i, s, t) && (Present(i, s, key) ==> NoNewKey(i, s, t))
    ensures LiveShows(i, s, i.kcv(key)) ==> SameLive(i, s, t)
  {
    SoundOtherSlots(i, s, t);
    assert forall k :: Listed(s, k) ==> Listed(t, k) by { assert Entries(t) == Entries(s); }
    assert forall x :: Present(i, t, x) ==> x == key || Present(i, s, x);
  }

  lemma FilledSlotStep(i: Inputs, s: Slots, t: Slots, key: Key)
    requires s.keychain == Nothing && (t.keychain == Nothing || t.keychain == Holds(key)) && t == s.(keychain := t.keychain, locked := t.locked)
    ensures StepKeeps(i, s, t) && (Present(i, s, key) ==> Present(i, t, key))
    ensures t.locked == s.locked && !s.locked && LiveShows(i, s, i.kcv(key)) ==> SameLive(i, s, t) && LiveShows(i, t, i.kcv(key))
  {
    assert forall k :: Listed(s, k) ==> Listed(t, k) by { assert Entries(t) == Entries(s); }
  }

  lemma FileKeyPresent(i: Inputs, s: Slots)
    ensures s.master.Holds? ==> Present(i, s, s.master.key) && LiveShows(i, s, i.kcv(s.master.key))
    ensures s.legacy.Holds? ==> Present(i, s, s.legacy.key) && LiveShows(i, s, i.kcv(s.legacy.key))
    ensures s.keychain.Holds? ==> Present(i, s, s.keychain.key)
    ensures SeenKeychain(i, s).KeyThere? ==> LiveShows(i, s, i.kcv(SeenKeychain(i, s).key))
  {
  }

  lemma EnvKeyPresent(i: Inputs, s: Slots)
    ensures i.env.EnvKey? ==> Present(i, s, i.env.key) && LiveShows(i, s, i.kcv(i.env.key))
  {
  }

  /** A key with this check value can be retired: the index reads, has room, and does not list it yet; no key file there is garbled. */
  predicate HasRoom(s: Slots, kcv: string) {
    s.index.Parsed? && !Listed(s, kcv) && |Entries(s)| < MAX_RETIRED_KEYS && !GarbledFile(s)
  }

  lemma RoomToRetire(i: Inputs, s: Slots, key: Key)
    ensures HasRoom(s, i.kcv(key)) ==> forall t, r :: Retired(i, s, t, key, r) ==> r != Err(VaultFull)
    ensures HasRoom(s, i.kcv(key)) ==> s.index.Parsed? && !Listed(s, i.kcv(key)) && !GarbledFile(s)
  {
  }

  /** How a recorded key is served: by the ladder if it answers that key, else by the first place that shows it. */
  predicate Served(i: Inputs, s: Slots, kcv: string, ladder: Result<(Key, MasterKeySource), KeyError>, r: Resolution) {
    if ladder.Ok? && i.kcv(ladder.value.0) == kcv then (r.key, r.source) == ladder.value && r.health == Healthy
    else r.health.RecoveredFrom? && r.source == CustodyOf(r.health.source) && FoundIn(i, s, kcv, r.health.source, r.key)
  }

  /** The first candidate other than `primary` that opens sealed data. */
  predicate FirstProbed(i: Inputs, cands: seq<Candidate>, primary: Key, found: Candidate) {
    exists n :: 0 <= n < |cands| && cands[n] == found && found.1 != primary && i.probe(found.1) == Passed
      && forall m :: 0 <= m < n ==> cands[m].1 == primary || i.probe(cands[m].1) != Passed
  }

  lemma {:induction false} ProbedFirst(i: Inputs, cands: seq<Candidate>, primary: Key)
    ensures var found := FindProbed(i, cands, primary); found.Some? ==> FirstProbed(i, cands, primary, found.value)
  {
    if cands != [] && !(cands[0].1 != primary && i.probe(cands[0].1) == Passed) {
      ProbedFirst(i, cands[1..], primary);
      var found := FindProbed(i, cands, primary);
      if found.Some? {
        var n :| 0 <= n < |cands[1..]| && cands[1..][n] == found.value
          && forall m :: 0 <= m < n ==> cands[1..][m].1 == primary || i.probe(cands[1..][m].1) != Passed;
        assert cands[n + 1] == found.value;
        assert forall m :: 0 < m < n + 1 ==> cands[m] == cands[1..][m - 1];
      }
    }
  }

  lemma OffersAll(i: Inputs, s: Slots)
    ensures forall key :: (exists n :: 0 <= n < |LoadAll(i, s, Entries(s))| && LoadAll(i, s, Entries(s))[n].1 == key) <==> VaultOffers(i, s, key)
  {
    hide Load, LoadAll, Entries;
    forall key ensures (exists n :: 0 <= n < |LoadAll(i, s, Entries(s))| && LoadAll(i, s, Entries(s))[n].1 == key) <==> VaultOffers(i, s, key) {
      LoadAllOffers(i, s, Entries(s), key);
    }
  }

  predicate TooNew(i: Inputs) {
    i.minReader.Some? && i.minReader.value > SUPPORTED_MIN_READER
  }

  lemma {:induction false} LoadAllSource(i: Inputs, s: Slots, entries: seq<RetiredEntry>, kcv: string)
    ensures FindSource(LoadAll(i, s, entries), FromRetired(kcv)).Some?
       <==> exists n :: 0 <= n < |entries| && entries[n].kcv == kcv && Load(i, s, entries[n]).Some?
  {
    hide Load;
    if entries != [] {
      var init := entries[..|entries| - 1];
      var last := entries[|entries| - 1];
      LoadAllSource(i, s, init, kcv);
      var before := LoadAll(i, s, init);
      var all := LoadAll(i, s, entries);
      assert forall n :: 0 <= n < |before| ==> all[n] == before[n];
      assert forall n :: 0 <= n < |init| ==> entries[n] == init[n];
      if Load(i, s, last).Some? && last.kcv == kcv {
        assert all[|before|].0 == FromRetired(kcv);
        assert entries[|entries| - 1].kcv == kcv;
      } else if FindSource(before, FromRetired(kcv)).Some? {
        var n :| 0 <= n < |before| && before[n] == FindSource(before, FromRetired(kcv)).value;
        assert all[n].0 == FromRetired(kcv);
      }
    }
  }

  lemma RetiredSource(i: Inputs, s: Slots, kcv: string)
    ensures FindSource(LoadAll(i, s, Entries(s)), FromRetired(kcv)).Some? <==> VaultShows(i, s, kcv)
  {
    hide Load, LoadAll;
    LoadAllSource(i, s, Entries(s), kcv);
  }

  lemma {:induction false} LoadAllSame(i: Inputs, s: Slots, t: Slots, entries: seq<RetiredEntry>)
    requires t.vaultItems == s.vaultItems && t.vaultFiles == s.vaultFiles && t.locked == s.locked
    ensures LoadAll(i, t, entries) == LoadAll(i, s, entries)
  {
    if entries != [] {
      LoadAllSame(i, s, t, entries[..|entries| - 1]);
      assert Load(i, t, entries[|entries| - 1]) == Load(i, s, entries[|entries| - 1]);
    }
  }

  /** What the vault offers depends on the vault and on whether the keychain can be read. */
  lemma SameVault(i: Inputs, s: Slots, t: Slots)
    requires t.vaultItems == s.vaultItems && t.vaultFiles == s.vaultFiles && t.index == s.index
    ensures t.locked == s.locked ==> forall key :: VaultOffers(i, t, key) <==> VaultOffers(i, s, key)
    ensures forall kcv :: HasRoom(t, kcv) <==> HasRoom(s, kcv)
    ensures t.locked == s.locked && SameLive(i, s, t) ==> forall k :: Shows(i, t, k) <==> Shows(i, s, k)
    ensures t.locked == s.locked ==> forall k :: EnvStranger(i, t, k) <==> EnvStranger(i, s, k)
    ensures t == s ==> SameLive(i, s, t)
  {
    hide LiveShows, LiveHolds, LoadAll;
    assert Entries(t) == Entries(s);
    if t.locked == s.locked {
      LoadAllSame(i, s, t, Entries(s));
      assert forall e :: Load(i, t, e) == Load(i, s, e);
      assert forall k :: VaultShows(i, t, k) <==> VaultShows(i, s, k);
    }
  }

  /** How a recorded key was served: by the ladder's chosen key if the ladder came through and it is the recorded one, else by the first place that shows it. */
  ghost predicate ResolvedAs(i: Inputs, s: Slots, t: Slots, came: bool, r: Resolution)
    requires Recorded(s).Some?
  {
    var kcv := Recorded(s).value;
    var chosen := ChosenKey(i, s);
    && (came ==> chosen.Some?)
    && (if came && i.kcv(chosen.value) == kcv then r.key == chosen.value && r.health == Healthy && StandsIn(i, s, t, (r.key, r.source))
        else r.health.RecoveredFrom? && r.source == CustodyOf(r.health.source) && FoundIn(i, if came then s else t, kcv, r.health.source, r.key))
    && forall key :: key in r.retired <==> key != r.key && (VaultOffers(i, s, key) || (came && key == chosen.value))
  }

  /** Moving another key between live slots does not change where a key is found. */
  lemma FoundBefore(i: Inputs, s: Slots, t: Slots, key: Key, kcv: string, source: KeySource, found: Key)
    requires t == s.(keychain := t.keychain, locked := t.locked, master := t.master, legacy := t.legacy)
    requires t.locked == s.locked && OnlyMoves(s, t, key) && i.kcv(key) != kcv && FoundIn(i, t, kcv, source, found)
    ensures FoundIn(i, s, kcv, source, found)
  {
    hide Load;
    assert Entries(t) == Entries(s);
    assert forall e :: Load(i, t, e) == Load(i, s, e) by { LoadSame(i, s, t); }
  }

  lemma VaultStays(i: Inputs, s: Slots, t: Slots, kcv: string)
    requires t == s.(record := t.record)
    ensures VaultShows(i, t, kcv) <==> VaultShows(i, s, kcv)
  {
    hide Load;
    assert Entries(t) == Entries(s);
    LoadSame(i, s, t);
  }

  lemma LoadSame(i: Inputs, s: Slots, t: Slots)
    requires t.vaultItems == s.vaultItems && t.vaultFiles == s.vaultFiles && t.locked == s.locked
    ensures forall e :: Load(i, t, e) == Load(i, s, e)
  {
  }

  lemma OnlyOldTwice(i: Inputs, s: Slots, t: Slots, g: seq<Slots>, h: seq<Slots>, k: seq<Slots>)
    requires g <= h <= k && OnlyOldKeys(i, s, h, |g|) && NoNewKey(i, s, t) && OnlyOldKeys(i, t, k, |h|) && t.record == s.record
    ensures OnlyOldKeys(i, s, k, |g|)
  {
    hide NoNewKey;
    forall n | |g| <= n < |k| ensures NoNewKey(i, s, k[n]) && k[n].record == s.record {
      if n < |h| {
        assert h[n] == k[n];
      } else {
        NoNewKeyTransitive(i, s, t, k[n]);
      }
    }
  }

  lemma NoNewKeyPresent(i: Inputs, s: Slots, t: Slots, r: Result<Resolution, KeyError>)
    requires NoNewKey(i, s, t)
    ensures r.Ok? && Present(i, t, r.value.key) ==> Present(i, s, r.value.key)
  {
    hide Present;
  }

  /** Recording a key that is held, where none was recorded. */
  lemma RecordStep(i: Inputs, s: Slots, t: Slots, kcv: string)
    requires s.record == Parsed(None) && t.record == Parsed(None) && Sound(i, t)
    requires t.keychain == s.keychain && t.master == s.master && t.legacy == s.legacy && Entries(s) <= Entries(t)
    requires LiveShows(i, s, kcv) || Keeps(i, s.(record := Parsed(Some(kcv))), kcv)
    ensures var u := t.(record := Parsed(Some(kcv))); Sound(i, u) && StepKeeps(i, t, u)
  {
    var u := t.(record := Parsed(Some(kcv)));
    SoundOtherSlots(i, t, u);
    assert Entries(u) == Entries(t);
    assert Entries(s.(record := Parsed(Some(kcv)))) == Entries(s);
    assert forall k :: Listed(s, k) ==> Listed(t, k);
    assert forall k :: Listed(t, k) ==> Listed(u, k);
  }

  // ── Installing ─────────────────────────────────────────────────────────────

  predicate HasKcv(i: Inputs, keys: seq<Key>, kcv: string) {
    exists n :: 0 <= n < |keys| && i.kcv(keys[n]) == kcv
  }

  /** The key is where its custody says. */
  predicate StoredIn(i: Inputs, s: Slots, t: Slots, key: Key, custody: MasterKeySource) {
    match custody
    case SourceKeychain => SeenKeychain(i, t) == KeyThere(key) && t.master == s.master
    case SourceFile => t.master == Holds(key)
    case SourceEnv => false
  }

  /** The key reported as replaced: the recorded one if a live slot shows it, else the one in persistent custody. */
  predicate Reports(i: Inputs, s: Slots, key: Key, retired: Option<string>) {
    && (Recorded(s).Some? && LiveShows(i, s, Recorded(s).value) && Recorded(s).value != i.kcv(key) ==> retired == Recorded(s))
    && ((Recorded(s).None? || !LiveShows(i, s, Recorded(s).value)) ==>
          retired == match PersistentKey(i, s)
            case Some(former) => if former != key then Some(i.kcv(former)) else None
            case None => None)
    && (retired.Some? ==> HasKcv(i, ToRetire(i, s, key, []), retired.value))
  }

  lemma ReportedReports(i: Inputs, s: Slots, key: Key)
    ensures Reports(i, s, key, ReportedRetired(i, s, key))
  {
    hide LiveShows, LiveCandidates, PersistentKey, ToRetire;
    if Recorded(s).Some? {
      LiveFinds(i, s, Recorded(s).value);
    }
    var retired := ReportedRetired(i, s, key);
    if retired.Some? {
      var former := if RecordedKey(i, s).Some? && RecordedKey(i, s).value != key then RecordedKey(i, s).value else PersistentKey(i, s).value;
      ToRetireHas(i, s, key, [], former);
      var n :| 0 <= n < |ToRetire(i, s, key, [])| && ToRetire(i, s, key, [])[n] == former;
    }
  }

  /** After an install: the new key is recorded and readable, what it replaces is retired, nothing else moved. */
  ghost predicate Installed(i: Inputs, s: Slots, t: Slots, key: Key, extra: seq<Key>, r: AdoptOutcome) {
    && r.kcv == i.kcv(key) && t.record == Parsed(Some(i.kcv(key))) && Reports(i, s, key, r.retired)
    && t.legacy == s.legacy
    && r.custody.Some? && StoredIn(i, s, t, key, r.custody.value)
    && (forall k :: Listed(t, k) <==> Listed(s, k) || HasKcv(i, ToRetire(i, s, key, extra), k))
  }

  /** Overwriting live slots with `key` cannot lose the recorded key. */
  predicate Covered(i: Inputs, s: Slots, key: Key) {
    match Recorded(s)
    case None => true
    case Some(kcv) => Listed(s, kcv) || i.kcv(key) == kcv
  }

  lemma ToRetireHas(i: Inputs, s: Slots, key: Key, extra: seq<Key>, x: Key)
    ensures x in ToRetire(i, s, key, extra) <==> x != key && (PersistentKey(i, s) == Some(x) || RecordedKey(i, s) == Some(x) || x in extra)
  {
    hide PersistentKey, RecordedKey;
  }

  lemma NoneHasKcv(i: Inputs, keys: seq<Key>)
    requires keys == []
    ensures forall k :: !HasKcv(i, keys, k)
  {
  }

  lemma CountNewNone(i: Inputs, s: Slots, keys: seq<Key>)
    requires keys == []
    ensures CountNew(i, s, keys) == 0
  {
  }

  lemma OneMoreKey(i: Inputs, s: Slots, keys: seq<Key>, n: nat)
    requires n < |keys|
    ensures forall k :: HasKcv(i, keys[..n + 1], k) <==> HasKcv(i, keys[..n], k) || k == i.kcv(keys[n])
    ensures CountNew(i, s, keys[..n + 1]) == CountNew(i, s, keys[..n]) + (if Listed(s, i.kcv(keys[n])) then 0 else 1)
  {
    var longer := keys[..n + 1];
    assert longer[..n] == keys[..n] && longer[n] == keys[n];
    forall k ensures HasKcv(i, longer, k) <==> HasKcv(i, keys[..n], k) || k == i.kcv(keys[n]) {
      if HasKcv(i, keys[..n], k) {
        var m :| 0 <= m < n && i.kcv(keys[..n][m]) == k;
        assert i.kcv(longer[m]) == k;
      }
      if HasKcv(i, longer, k) && k != i.kcv(keys[n]) {
        var m :| 0 <= m < |longer| && i.kcv(longer[m]) == k;
        assert i.kcv(keys[..n][m]) == k;
      }
    }
  }

  lemma NoNewKcvs(i: Inputs, s: Slots, keys: seq<Key>)
    requires keys == []
    ensures |NewKcvs(i, s, keys)| == 0
  {
  }

  lemma OneMoreKcv(i: Inputs, s: Slots, keys: seq<Key>, n: nat)
    requires n < |keys|
    ensures var kcv := i.kcv(keys[n]);
      |NewKcvs(i, s, keys[..n + 1])| == |NewKcvs(i, s, keys[..n])| + (if Listed(s, kcv) || HasKcv(i, keys[..n], kcv) then 0 else 1)
  {
    hide Listed;
    var kcv := i.kcv(keys[n]);
    var before, after := NewKcvs(i, s, keys[..n]), NewKcvs(i, s, keys[..n + 1]);
    assert forall m :: 0 <= m < n ==> keys[..n + 1][m] == keys[..n][m];
    assert keys[..n + 1][n] == keys[n];
    forall k ensures k in after <==> k in before || (k == kcv && !Listed(s, kcv)) {
      if k in after {
        var m :| 0 <= m < n + 1 && !Listed(s, i.kcv(keys[..n + 1][m])) && k == i.kcv(keys[..n + 1][m]);
        assert m < n ==> i.kcv(keys[..n][m]) in before;
      }
      if k in before {
        var m :| 0 <= m < n && !Listed(s, i.kcv(keys[..n][m])) && k == i.kcv(keys[..n][m]);
        assert i.kcv(keys[..n + 1][m]) in after;
      }
      if k == kcv && !Listed(s, kcv) {
        assert i.kcv(keys[..n + 1][n]) in after;
      }
    }
    assert kcv in before <==> HasKcv(i, keys[..n], kcv) && !Listed(s, kcv);
    if kcv in before || Listed(s, kcv) {
      assert after == before;
    } else {
      assert after == before + {kcv};
    }
  }

  lemma {:induction false} CountNewPrefix(i: Inputs, s: Slots, keys: seq<Key>, n: nat)
    requires n <= |keys|
    ensures CountNew(i, s, keys[..n]) <= CountNew(i, s, keys)
    decreases |keys|
  {
    if n < |keys| {
      var init := keys[..|keys| - 1];
      assert init[..n] == keys[..n];
      CountNewPrefix(i, s, init, n);
    } else {
      assert keys[..n] == keys;
    }
  }

  lemma RetiredLists(i: Inputs, s: Slots, t: Slots, key: Key, r: Result<RetiredEntry, KeyError>)
    requires Retired(i, s, t, key, r)
    ensures if r.Ok? then forall k :: Listed(t, k) <==> Listed(s, k) || k == i.kcv(key) else t.index == s.index
  {
    var kcv := i.kcv(key);
    if r.Ok? {
      var e := r.value;
      var at :| 0 <= at < |Entries(t)| && Entries(t)[at] == e;
      forall k ensures Listed(t, k) <==> Listed(s, k) || k == kcv {
        if Listed(s, k) {
          var n :| 0 <= n < |Entries(s)| && Entries(s)[n].kcv == k;
          assert Entries(t)[n].kcv == k;
        }
        if Listed(t, k) && k != kcv {
          var n :| 0 <= n < |Entries(t)| && Entries(t)[n].kcv == k;
          assert n < |Entries(s)| && Entries(s)[n].kcv == k;
        }
      }
    }
  }

  lemma OverwriteStep(i: Inputs, s: Slots, t: Slots, key: Key)
    requires t.keychain == s.keychain || t.keychain == Holds(key)
    requires t.master == s.master || t.master == Holds(key)
    requires t == s.(keychain := t.keychain, locked := t.locked, master := t.master)
    ensures Sound(i, s) ==> Sound(i, t)
    ensures Covered(i, s, key) ==> StepKeeps(i, s, t) && Covered(i, t, key)
  {
    if Sound(i, s) {
      SoundOtherSlots(i, s, t);
    }
    assert Entries(t) == Entries(s);
    assert forall k :: Listed(s, k) <==> Listed(t, k);
  }

  lemma NowHolds(i: Inputs, s: Slots, key: Key)
    requires s.keychain == Holds(key) || s.master == Holds(key)
    ensures LiveHolds(i, s, i.kcv(key))
  {
  }

  lemma NewRecordStep(i: Inputs, s: Slots, key: Key)
    ensures var t := s.(record := Parsed(Some(i.kcv(key))));
            && (Sound(i, s) ==> Sound(i, t))
            && (Covered(i, s, key) && LiveHolds(i, s, i.kcv(key)) ==> StepKeeps(i, s, t))
  {
    var t := s.(record := Parsed(Some(i.kcv(key))));
    if Sound(i, s) {
      SoundOtherSlots(i, s, t);
    }
    assert Entries(t) == Entries(s);
    assert forall k :: Listed(s, k) <==> Listed(t, k);
  }

  lemma ShownIsRecordedKey(i: Inputs, s: Slots)
    requires Recorded(s).Some? && LiveShows(i, s, Recorded(s).value)
    ensures RecordedKey(i, s).Some? && i.kcv(RecordedKey(i, s).value) == Recorded(s).value
  {
    LiveFinds(i, s, Recorded(s).value);
  }

  lemma SafeIsCovered(i: Inputs, s: Slots, t: Slots, key: Key, extra: seq<Key>)
    requires t.record == s.record
    requires forall k :: Listed(t, k) <==> Listed(s, k) || HasKcv(i, ToRetire(i, s, key, extra), k)
    ensures SafeToInstall(i, s, key, extra) ==> Covered(i, t, key)
  {
    hide ToRetire, Listed, LiveShows, RecordedKey, PersistentKey;
    if SafeToInstall(i, s, key, extra) && Recorded(s).Some? && i.kcv(key) != Recorded(s).value {
      var kcv := Recorded(s).value;
      var keys := ToRetire(i, s, key, extra);
      if LiveShows(i, s, kcv) {
        ShownIsRecordedKey(i, s);
        ToRetireHas(i, s, key, extra, RecordedKey(i, s).value);
        var n :| 0 <= n < |keys| && keys[n] == RecordedKey(i, s).value;
        assert HasKcv(i, keys, kcv);
      } else if !Listed(s, kcv) {
        var m :| 0 <= m < |extra| && i.kcv(extra[m]) == kcv;
        ToRetireHas(i, s, key, extra, extra[m]);
        var n :| 0 <= n < |keys| && keys[n] == extra[m];
        assert HasKcv(i, keys, kcv);
      }
    }
  }

  lemma PersistentIsShown(i: Inputs, s: Slots)
    ensures PersistentKey(i, s).Some? ==> LiveShows(i, s, i.kcv(PersistentKey(i, s).value))
    ensures RecordedKey(i, s).Some? ==> Recorded(s).Some? && LiveShows(i, s, i.kcv(RecordedKey(i, s).value))
  {
    if Recorded(s).Some? {
      LiveFinds(i, s, Recorded(s).value);
    }
  }

  /** After an install, the key recorded before is held iff it was in sight or the keychain item held it and was not overwritten. */
  lemma RecordedSurvives(i: Inputs, s: Slots, m: Slots, t: Slots, key: Key, extra: seq<Key>, custody: MasterKeySource, overwritten: bool)
    requires m == s.(vaultItems := m.vaultItems, vaultFiles := m.vaultFiles, index := m.index, locked := m.locked)
    requires t == m.(keychain := t.keychain, locked := t.locked, master := t.master, record := t.record)
    requires t.keychain == if overwritten then Holds(key) else s.keychain
    requires forall k :: Listed(m, k) <==> Listed(s, k) || HasKcv(i, ToRetire(i, s, key, extra), k)
    ensures forall k :: Listed(t, k) <==> Listed(s, k) || HasKcv(i, ToRetire(i, s, key, extra), k)
    ensures StoredIn(i, s, t, key, custody) && Recorded(s).Some? ==>
      (Held(i, t, Recorded(s).value) <==> SafeToInstall(i, s, key, extra) || (SlotHas(i, s.keychain, Recorded(s).value) && !overwritten))
  {
    hide ToRetire, RecordedKey, PersistentKey;
    assert forall k :: Listed(t, k) <==> Listed(m, k) by { assert Entries(t) == Entries(m); }
    if StoredIn(i, s, t, key, custody) && Recorded(s).Some? {
      var kcv := Recorded(s).value;
      SafeIsCovered(i, s, m, key, extra);
      var keys := ToRetire(i, s, key, extra);
      if Held(i, t, kcv) && !LiveHolds(i, t, kcv) && !Listed(s, kcv) {
        var n :| 0 <= n < |keys| && i.kcv(keys[n]) == kcv;
        ToRetireHas(i, s, key, extra, keys[n]);
        PersistentIsShown(i, s);
      }
    }
  }

  /** The record names the key and the environment, the keychain or the key file shows it. */
  predicate AlreadyCurrent(i: Inputs, s: Slots, current: Key) {
    && Recorded(s) == Some(i.kcv(current))
    && (i.env == EnvKey(current) || SeenKeychain(i, s) == KeyThere(current) || s.master == Holds(current))
  }

  lemma LiveSlot(i: Inputs, s: Slots, x: Candidate)
    requires x in LiveCandidates(i, s)
    ensures x.0 == FromFile ==> s.master == Holds(x.1)
    ensures x.0 == FromLegacy ==> s.legacy == Holds(x.1)
  {
  }

  /** A key file goes away once its key, which is not the recorded one, is in the vault. */
  lemma RemoveStep(i: Inputs, s: Slots, t: Slots, kcv: string, e: RetiredEntry)
    requires Sound(i, s) && Recorded(s) != Some(kcv) && e in Entries(s) && e.kcv == kcv && Load(i, s, e).Some?
    requires (SlotHas(i, s.master, kcv) && t == s.(master := Nothing)) || (SlotHas(i, s.legacy, kcv) && t == s.(legacy := Nothing))
    ensures Sound(i, t) && StepKeeps(i, s, t) && VaultShows(i, t, kcv) && Listed(t, kcv)
    ensures VaultShows(i, s, kcv) && Listed(s, kcv)
  {
    SoundOtherSlots(i, s, t);
    assert Entries(t) == Entries(s);
    assert forall k :: Listed(s, k) <==> Listed(t, k);
    var n :| 0 <= n < |Entries(s)| && Entries(s)[n] == e;
    assert Load(i, t, Entries(t)[n]) == Load(i, s, e);
  }

  lemma EnvCandidate(i: Inputs, s: Slots)
    ensures var found := FindSource(Candidates(i, s), FromEnv);
            found.Some? ==> i.env == EnvKey(found.value.1)
  {
    var found := FindSource(Candidates(i, s), FromEnv);
    if found.Some? && found.value !in LiveCandidates(i, s) {
      LoadAllPresent(i, s, Entries(s), found.value);
    }
  }

  lemma InstalledShows(i: Inputs, s: Slots)
    ensures s.keychain.Holds? && SeenKeychain(i, s) == KeyThere(s.keychain.key) ==> LiveShows(i, s, i.kcv(s.keychain.key))
    ensures s.master.Holds? ==> LiveShows(i, s, i.kcv(s.master.key))
  {
  }
}
