/** Whole runs of a data folder's custody: resolve, adopt, import and retire in any order. */
module CustodyRuns {
  import opened Wrappers
  import opened KeySlots
  import opened KeyFolders

  datatype KeyOp = ResolveOp | AdoptOp(from: AdoptFrom, acceptUnreadable: bool) | ImportOp(current: Key, retired: seq<Key>) | RetireOp(kcv: string)

  /** The operation cannot lose the recorded key: it installs nothing, or the recorded key is in sight. */
  predicate InSight(i: Inputs, s: Slots, op: KeyOp) {
    match op
    case AdoptOp(from, _) =>
      var found := FindSource(Candidates(i, s), Wanted(from));
      found.Some? ==> SafeToInstall(i, s, found.value.1, [])
    case ImportOp(current, retired) => AlreadyCurrent(i, s, current) || SafeToInstall(i, s, current, retired)
    case _ => true
  }

  /** A folder that records nothing, or a key it holds, starts out conserved. */
  lemma StartsConserved(i: Inputs, s: Slots)
    ensures Conserved(i, [s]) <==> (Recorded(s).Some? ==> Keeps(i, s, Recorded(s).value))
  {
    hide Keeps, Recorded;
    assert [s][0] == s;
    if Conserved(i, [s]) && Recorded(s).Some? {
      assert KeptAt(i, [s], 0);
    }
  }

  /** A keychain that can be read puts every held recorded key in sight. */
  lemma ReadableIsInSight(i: Inputs, s: Slots, op: KeyOp)
    requires i.keychainEnabled && !s.locked
    requires Recorded(s).Some? ==> Keeps(i, s, Recorded(s).value)
    ensures InSight(i, s, op)
  {
    if Recorded(s).Some? {
      assert Listed(s, Recorded(s).value) || LiveShows(i, s, Recorded(s).value);
    }
  }

  lemma LastKept(i: Inputs, h: seq<Slots>)
    requires h != [] && Conserved(i, h)
    ensures Recorded(h[|h| - 1]).Some? ==> Keeps(i, h[|h| - 1], Recorded(h[|h| - 1]).value)
  {
    hide Keeps, Recorded;
    assert KeptAt(i, h, |h| - 1);
  }

  method Perform(folder: KeyFolder, op: KeyOp)
    requires folder.Valid()
    modifies folder
    ensures folder.Valid() && old(folder.history) <= folder.history
    ensures folder.Steady(old(folder.slots).locked) ==> folder.slots.locked == old(folder.slots).locked
    ensures old(Conserved(folder.inputs, folder.history)) && InSight(folder.inputs, old(folder.slots), op) ==> Conserved(folder.inputs, folder.history)
  {
    hide Conserved, Sound, SafeToInstall, AlreadyCurrent, Candidates, Installed, OnlyOldKeys, NoNewKey, Shows, EnvStranger, ToRetire, CountNew, Held;
    match op {
      case ResolveOp => var _ := folder.Resolve();
      case AdoptOp(from, acceptUnreadable) => var _ := folder.AdoptWith(from, acceptUnreadable);
      case ImportOp(current, retired) => var _ := folder.ImportWith(current, retired);
      case RetireOp(kcv) => var _ := folder.RetireWith(kcv);
    }
  }

  /**
    Over every run of operations, with every keychain and file write failing or
    working as it may, at every write: every key ever recorded is in the vault or
    is the recorded one and in a live slot, provided each install began with the
    recorded key in sight, as it always does while the keychain can be read. (The
    vault's own bounds are part of Valid, at every write.)
   */
  method RunAll(folder: KeyFolder, ops: seq<KeyOp>) returns (ghost inSight: bool)
    requires folder.Valid()
    modifies folder
    ensures folder.Valid() && old(folder.history) <= folder.history
    ensures old(Conserved(folder.inputs, folder.history)) && inSight ==> Conserved(folder.inputs, folder.history)
    ensures old(Conserved(folder.inputs, folder.history)) && folder.inputs.keychainEnabled && !old(folder.slots).locked && folder.Steady(false) ==> inSight
  {
    hide Conserved, Sound, InSight, KeyFolder.Steady;
    inSight := true;
    ghost var readable := folder.inputs.keychainEnabled && !folder.slots.locked && folder.Steady(false);
    for n := 0 to |ops|
      invariant folder.Valid() && old(folder.history) <= folder.history
      invariant old(Conserved(folder.inputs, folder.history)) && inSight ==> Conserved(folder.inputs, folder.history)
      invariant readable ==> !folder.slots.locked
      invariant old(Conserved(folder.inputs, folder.history)) && readable ==> inSight
    {
      if readable && Conserved(folder.inputs, folder.history) {
        LastKept(folder.inputs, folder.history);
        ReadableIsInSight(folder.inputs, folder.slots, ops[n]);
      }
      inSight := inSight && InSight(folder.inputs, folder.slots, ops[n]);
      Perform(folder, ops[n]);
    }
  }

  /** The keychain holds the recorded key but is locked; `master.key` holds another key. */
  function LockedSlots(i: Inputs, sealing: Key, other: Key): Slots {
    Slots(Holds(sealing), true, Holds(other), Nothing, map[], map[], Parsed([]), Parsed(Some(i.kcv(sealing))))
  }

  lemma LockedStart(i: Inputs, sealing: Key, other: Key)
    requires i.env == NoEnv && i.kcv(sealing) != i.kcv(other)
    ensures var s := LockedSlots(i, sealing, other);
      && Sound(i, s) && Conserved(i, [s]) && !GarbledFile(s) && FindSource(Candidates(i, s), FromFile) == Some((FromFile, other))
      && |Entries(s)| + CountNew(i, s, ToRetire(i, s, other, [])) == 0 && !SafeToInstall(i, s, other, [])
  {
    hide Conserved;
    var s := LockedSlots(i, sealing, other);
    assert LiveHolds(i, s, i.kcv(sealing));
    StartsConserved(i, s);
    assert Candidates(i, s) == [(FromFile, other)];
    assert RecordedKey(i, s).None? && PersistentKey(i, s) == Some(other);
  }

  lemma InKeychainNow(i: Inputs, s: Slots, t: Slots, key: Key, r: AdoptOutcome)
    requires Installed(i, s, t, key, [], r) && r.custody == Some(SourceKeychain)
    ensures t.keychain == Holds(key)
  {
    hide ToRetire;
  }

  /**
    The proviso is needed. The keychain holds the recorded key but is locked, so
    adopting the key file retires nothing; the write that follows finds it
    unlocked and overwrites the only copy of the recorded key. Adoption reports
    success, and nothing holds the key any more.
   */
  method LockedKeychainLosesKey(inputs: Inputs, sealing: Key, other: Key) returns (folder: KeyFolder, r: Result<AdoptOutcome, KeyError>)
    requires inputs.env == NoEnv && inputs.keychainEnabled && inputs.probe(other) != Failed
    requires inputs.kcv(sealing) != inputs.kcv(other)
    ensures folder.Valid() && folder.history != [] && folder.history[0] == LockedSlots(inputs, sealing, other)
    ensures Conserved(inputs, [folder.history[0]])
    ensures r.Ok? && !Held(inputs, folder.slots, inputs.kcv(sealing))
  {
    hide Conserved, Installed, ToRetire, CountNew, SafeToInstall, Candidates, Sound, GarbledFile, Held;
    LockedStart(inputs, sealing, other);
    var s := LockedSlots(inputs, sealing, other);
    folder := new KeyFolder(inputs, n => StoreOutcome(true, true, false), n => true, s);
    assert folder.Reliable() && folder.Writable();
    r := folder.AdoptWith(AdoptFile, false);
    InKeychainNow(inputs, s, folder.slots, other, r.value);
  }
}
