/** Whole runs over a sealed store: opening it, and what an interrupted reseal may record. */
module ContentRuns {
  import opened Wrappers
  import opened ContentContexts
  import opened ContentCiphers
  import opened ContentCells
  import opened ContentStates
  import opened ContentDbs
  import Text

  /** A store never migrated before owes nothing and overstates nothing. */
  lemma NeverMigrated(c: Crypto, cipher: Cipher, plans: seq<ColumnPlan>, d: Durable)
    requires d.items == map[] && d.store.None?
    ensures Debt(d) && forall p :: 0 <= p < |plans| ==> Progress(c, cipher, plans[p], d)
  {
  }

  /** The committed states of a connection keep the scrub-debt invariant from any state that has it. */
  lemma DebtAlong(db: ContentDb, start: nat)
    requires db.Valid() && start < |db.history| && Debt(db.history[start])
    ensures forall i :: start <= i < |db.history| ==> Debt(db.history[i])
  {
    hide Lawful, Path, Tx, WellFormed, Debt;
    PathTail(db.c, db.cipher, db.plans, db.history, start);
    forall i | start <= i < |db.history| ensures Debt(db.history[i]) {
      PathKeepsDebt(db.c, db.cipher, db.plans, db.history[start..], i - start);
    }
  }

  /**
    Open a store as the Rooms backend does: finish owed cleanup (errors only
    logged), migrate, then scrub if anything was sealed (errors only logged). At
    every committed state on the way, so wherever the process may die, `ok`
    still means nothing is left.
   */
  method OpenStore(db: ContentDb, policy: VacuumPolicy, now: int, nonces: nat -> Nonce) returns (r: Result<MigrationReport, DbError>)
    requires db.Valid() && Debt(db.Now()) && Text.InI64(now)
    modifies db
    ensures db.Valid() && old(db.history) <= db.history
    ensures forall i :: |old(db.history)| - 1 <= i < |db.history| ==> Debt(db.history[i])
    ensures r.Ok? ==> forall p :: 0 <= p < |db.plans| ==> ItemFinished(db.plans[p], db.Now())
    ensures r.Err? && old(db.secureDelete) && Migratable(db.cipher, db.plans, old(db.Now())) ==> !db.Reliable()
  {
    hide Lawful, Path, Tx, WellFormed, Debt, TallyPlans, Resumable, MatchKcv, Clean;
    ghost var start := |db.history| - 1;
    var cleaned := db.RunPendingVacuum(policy, now);
    StillMigratable(db.cipher, db.plans, db.history[start], db.Now());
    r := db.MigrateColumns(nonces);
    DebtAlong(db, start);
    if r.Ok? && r.value.sealed > 0 {
      assert Debt(db.history[|db.history| - 1]);
      var finished := db.FinishStore(policy);
      DebtAlong(db, start);
    }
  }

  lemma StillMigratable(cipher: Cipher, plans: seq<ColumnPlan>, before: Durable, after: Durable)
    requires after.columns == before.columns && after.items == before.items && SameRecord(before.store, after.store)
    ensures Migratable(cipher, plans, before) ==> Migratable(cipher, plans, after)
  {
    hide MatchKcv, ResumeAt;
  }

  // ── When the record may be trusted ─────────────────────────────────────────

  /** The rows a run starting in `d` does not look at: finished items, and rows up to a cursor. */
  function Skipped(plan: ColumnPlan, d: Durable): seq<Row>
    requires Resumable(plan, d) && plan.item in d.columns
  {
    if ItemFinished(plan, d) then d.columns[plan.item]
    else d.columns[plan.item][..ResumeAt(plan, d.columns[plan.item], CursorOf(plan, d)).value]
  }

  ghost predicate NoneStuckIn(c: Crypto, cipher: Cipher, plan: ColumnPlan, rows: seq<Row>) {
    forall i :: 0 <= i < |rows| ==> RowVerdict(c, cipher, plan, rows[i]) != Stuck
  }

  lemma ColumnSplits(c: Crypto, cipher: Cipher, plan: ColumnPlan, d: Durable)
    requires Resumable(plan, d) && plan.item in d.columns
    ensures NoneStuckIn(c, cipher, plan, d.columns[plan.item])
       <==> NoneStuckIn(c, cipher, plan, Skipped(plan, d)) && NoneStuckIn(c, cipher, plan, Visited(plan, d))
  {
    hide RowVerdict, ResumeAt;
    var rows := d.columns[plan.item];
    if !ItemFinished(plan, d) {
      var at := ResumeAt(plan, rows, CursorOf(plan, d)).value;
      assert forall i :: at <= i < |rows| ==> rows[i] == Visited(plan, d)[i - at];
      assert forall i :: 0 <= i < at ==> rows[i] == Skipped(plan, d)[i];
      assert forall i :: 0 <= i < |rows[at..]| ==> Visited(plan, d)[i] == rows[at + i];
    }
  }

  /**
    `unreadable` counts only the current run, so the record a run moves can be
    trusted exactly when no unreadable value lies among the rows it skips: no
    planned value is stuck iff the run met none and none was skipped.
   */
  lemma RunVouchesForAllIff(c: Crypto, cipher: Cipher, plans: seq<ColumnPlan>, d: Durable)
    requires forall p :: 0 <= p < |plans| ==> Resumable(plans[p], d) && plans[p].item in d.columns
    ensures NoneStuck(c, cipher, plans, d.columns)
       <==> && TallyPlans(c, cipher, plans, d).unreadable == 0
            && forall p :: 0 <= p < |plans| ==> NoneStuckIn(c, cipher, plans[p], Skipped(plans[p], d))
  {
    hide RowVerdict, Resumable, TallyPlans, Visited, Skipped;
    TallyPlansUnreadable(c, cipher, plans, d);
    forall p | 0 <= p < |plans| {
      ColumnSplits(c, cipher, plans[p], d);
    }
    assert NoneStuck(c, cipher, plans, d.columns) <==> forall p :: 0 <= p < |plans| ==> NoneStuckIn(c, cipher, plans[p], d.columns[plans[p].item]);
    assert TallyPlans(c, cipher, plans, d).unreadable == 0 <==> forall p :: 0 <= p < |plans| ==> NoneStuckIn(c, cipher, plans[p], Visited(plans[p], d));
  }

  /**
    A run from any state that overstates nothing, wherever the runs before it
    died, on a store recorded under a retired root. When it succeeds, it has moved
    the record if and only if some plan it finished was the last one with a state
    row left, and nothing unreadable had been met by then. And every value reads
    as before without the retired keys if and only if the run met no unreadable
    value at all and no row it skipped was stuck.
   */
  method MigrateAndTrust(db: ContentDb, nonces: nat -> Nonce) returns (r: Result<MigrationReport, DbError>)
    requires db.Valid() && db.store.Some? && db.store.value.kcv.Some? && MatchKcv(db.cipher, db.store.value.kcv.value) == MatchesRetired
    requires forall p :: 0 <= p < |db.plans| ==> db.plans[p].item in db.columns && Progress(db.c, db.cipher, db.plans[p], db.Now())
    modifies db
    ensures db.Valid() && old(db.history) <= db.history
    ensures r.Ok? ==>
      && db.store.Some?
      && (db.store.value.kcv == Some(db.cipher.current.rootKcv) <==> MovesBefore(db.c, db.cipher, db.plans, old(db.Now()), |db.plans|))
    ensures r.Ok? && AllRecorded(db.plans, old(db.Now())) && AllPlanned(db.plans, old(db.items)) ==>
      (MovesBefore(db.c, db.cipher, db.plans, old(db.Now()), |db.plans|) <==> r.value.unreadable == 0 && AnyUnfinished(db.plans, old(db.Now())))
    ensures r.Ok? ==>
      && (forall p :: 0 <= p < |db.plans| ==> Resumable(db.plans[p], old(db.Now())))
      && (AllReadWithoutRetired(db.c, db.cipher, db.plans, old(db.columns), db.columns)
          <==> && r.value.unreadable == 0
               && forall p :: 0 <= p < |db.plans| ==> NoneStuckIn(db.c, db.cipher, db.plans[p], Skipped(db.plans[p], old(db.Now()))))
  {
    hide Lawful, Path, Tx, WellFormed, TallyPlans, AllReadWithoutRetired, NoneStuck, NoneStuckIn, Skipped, Resumable, MatchKcv, AllItemsSealed, AnyUnfinished, AllRecorded, AllPlanned, Progress, MovesBefore;
    ghost var start, d := |db.history| - 1, db.Now();
    NotCurrent(db.cipher, d.store.value.kcv.value);
    r := db.MigrateColumns(nonces);
    if r.Ok? {
      SealedIfPlanned(db.plans, d.items, db.Now());
      RunVouchesForAllIff(db.c, db.cipher, db.plans, d);
      PathTail(db.c, db.cipher, db.plans, db.history, start);
      assert db.history[start..][0] == d;
      EveryValueReads(db.c, db.cipher, db.plans, db.history[start..], d, db.Now());
    }
  }

  const FUTURE_TEXT := "encb:v2:"

  /** Text of a newer envelope version opens under no key. */
  lemma FutureTextIsStuck(c: Crypto, cipher: Cipher, context: Context)
    ensures VerdictOf(c, cipher, TextColumn, Cell.Text(FUTURE_TEXT), context) == Stuck
    ensures ReadingOf(c, cipher, TextColumn, Cell.Text(FUTURE_TEXT), context) == DoesNotRead(Cell.Text(FUTURE_TEXT))
  {
    assert FUTURE_TEXT[5..] == "v2:";
    assert "v2:"[1..] == "2:" && "2:"[1..] == ":";
    assert DigitRun("2:") == 1;
    assert !(CONTENT_TEXT_PREFIX <= FUTURE_TEXT) by { assert FUTURE_TEXT[6] != CONTENT_TEXT_PREFIX[6]; }
  }

  /** Two reset columns under a new root; the first holds one value no key opens. */
  function ResetState(former: string): Durable {
    Durable(map["a.text" := [Row(TextKey("1"), [], Cell.Text(FUTURE_TEXT))], "b.text" := []],
            map["a.text" := ItemRow(ItemPending, None), "b.text" := ItemRow(ItemPending, None)],
            Some(StoreRow(StoreOk, None, Some(former), SUPPORTED_MIN_READER)), Residue(false, 0, 0, false))
  }

  function TwoPlans(contextOf: (string, seq<string>) -> Context): (plans: seq<ColumnPlan>)
    ensures Distinct(plans) && |plans| == 2
  {
    assert "a.text"[0] != "b.text"[0];
    [ColumnPlan("a.text", TextKeys, TextColumn, contextOf), ColumnPlan("b.text", TextKeys, TextColumn, contextOf)]
  }

  /** The first column is finished, the second not begun, the record still the former root's, the value still stuck. */
  ghost predicate HalfResealed(c: Crypto, cipher: Cipher, former: string, contextOf: (string, seq<string>) -> Context, d: Durable) {
    && d.items == map["a.text" := ItemRow(ItemSealed, None), "b.text" := ItemRow(ItemPending, None)]
    && d.store.Some? && d.store.value.kcv == Some(former) && d.store.value.minReader <= SUPPORTED_MIN_READER
    && d.columns.Keys == {"a.text", "b.text"} && d.columns["b.text"] == [] && StuckRow(c, cipher, contextOf, d.columns["a.text"])
  }

  ghost predicate StuckRow(c: Crypto, cipher: Cipher, contextOf: (string, seq<string>) -> Context, rows: seq<Row>) {
    && |rows| == 1 && rows[0].key == TextKey("1") && rows[0].extras == []
    && ReadingOf(c, cipher, TextColumn, rows[0].cell, contextOf("1", [])) == DoesNotRead(Cell.Text(FUTURE_TEXT))
  }

  lemma KeptStaysStuck(c: Crypto, cipher: Cipher, contextOf: (string, seq<string>) -> Context, p: nat, before: seq<Row>, after: seq<Row>)
    requires p < 2 && ColumnKept(c, cipher, TwoPlans(contextOf)[p], before, after)
    requires StuckRow(c, cipher, contextOf, before)
    ensures StuckRow(c, cipher, contextOf, after)
  {
    hide VerdictOf, ReadingOf;
    assert RowKept(c, cipher, TwoPlans(contextOf)[p], before[0], after[0]);
  }

  /** Along any committed path, the stuck value stays what it is. */
  lemma StaysStuck(c: Crypto, cipher: Cipher, contextOf: (string, seq<string>) -> Context, p: nat, ds: seq<Durable>)
    requires p < 2 && ds != [] && Path(c, cipher, TwoPlans(contextOf), ds)
    requires TwoPlans(contextOf)[p].item in ds[0].columns && StuckRow(c, cipher, contextOf, ds[0].columns[TwoPlans(contextOf)[p].item])
    ensures TwoPlans(contextOf)[p].item in ds[|ds| - 1].columns
    ensures StuckRow(c, cipher, contextOf, ds[|ds| - 1].columns[TwoPlans(contextOf)[p].item])
  {
    hide Path, StuckRow, ColumnKept;
    var plans := TwoPlans(contextOf);
    PathKeepsMeaning(c, cipher, plans, ds, |ds| - 1);
    KeptStaysStuck(c, cipher, contextOf, p, ds[0].columns[plans[p].item], ds[|ds| - 1].columns[plans[p].item]);
  }

  /** The run that dies after the first column: its counter saw the stuck value. */
  method ResealFirstColumn(c: Crypto, cipher: Cipher, former: string, contextOf: (string, seq<string>) -> Context, nonces: nat -> Nonce)
    returns (db: ContentDb)
    requires Lawful(c) && MatchKcv(cipher, former) == MatchesRetired
    ensures db.Valid() && fresh(db) && db.c == c && db.cipher == cipher && db.plans == TwoPlans(contextOf)
    ensures db.history[0] == ResetState(former) && HalfResealed(c, cipher, former, contextOf, db.Now())
  {
    hide Lawful, Path, Tx, VerdictOf, ReadingOf, MatchKcv, Tally, ColumnKept, StuckRow;
    var plans := TwoPlans(contextOf);
    var d := ResetState(former);
    assert WellFormed(plans, d);
    db := new ContentDb(c, cipher, plans, 4096, n => true, Volume(n => 0, (n, needed) => true), d.columns, d.items, d.store, true, 0, false, 0, false);
    FutureTextIsStuck(c, cipher, contextOf("1", []));
    assert StuckRow(c, cipher, contextOf, d.columns["a.text"]) by { StuckNow(c, cipher, contextOf, d.columns["a.text"]); }
    var run := db.MigrateItem(plans[0], true, nonces, MigrationReport(0, 0, 0, 0, 0));
    assert Visited(plans[0], d) == d.columns["a.text"];
    OneStuckRow(c, cipher, plans[0], d.columns["a.text"][0], MigrationReport(0, 0, 0, 0, 0));
    StaysStuck(c, cipher, contextOf, 0, db.history);
  }

  lemma StuckNow(c: Crypto, cipher: Cipher, contextOf: (string, seq<string>) -> Context, rows: seq<Row>)
    requires |rows| == 1 && rows[0].key == TextKey("1") && rows[0].extras == []
    requires ReadingOf(c, cipher, TextColumn, rows[0].cell, contextOf("1", [])) == DoesNotRead(Cell.Text(FUTURE_TEXT))
    ensures StuckRow(c, cipher, contextOf, rows)
  {
  }

  /**
    The record can move although a value stays unreadable. Two columns are reset
    under a new root; the process dies after the first, whose one value does not
    open; the next run skips that column, meets nothing unreadable and records
    the current root.
   */
  method InterruptedResealMovesRecord(c: Crypto, cipher: Cipher, former: string, contextOf: (string, seq<string>) -> Context, nonces: nat -> Nonce)
    returns (db: ContentDb, ghost first: ContentDb)
    requires Lawful(c) && MatchKcv(cipher, former) == MatchesRetired
    ensures first.Valid() && first.history[0] == ResetState(former)
    ensures db.Valid() && db.history[0] == first.Now()
    ensures former != cipher.current.rootKcv
    ensures db.store.Some? && db.store.value.kcv == Some(cipher.current.rootKcv)
    ensures "a.text" in db.columns && StuckRow(c, cipher, contextOf, db.columns["a.text"])
  {
    hide Lawful, Path, Tx, VerdictOf, ReadingOf, MatchKcv, TallyPlans, ColumnKept, StuckRow, WellFormed, Resumable, MovesBefore, AllItemsSealed, AnyUnfinished, AllRecorded, AllPlanned, Migratable, ItemFinished;
    NotCurrent(cipher, former);
    var plans := TwoPlans(contextOf);
    var dead := ResealFirstColumn(c, cipher, former, contextOf, nonces);
    first := dead;
    db := new ContentDb(c, cipher, plans, 4096, n => true, Volume(n => 0, (n, needed) => true), dead.columns, dead.items, dead.store, true, dead.freelist, dead.wal, dead.dirtyFree, dead.partialPages);
    ghost var reopened := db.Now();
    SecondRunStarts(c, cipher, former, contextOf, reopened);
    var run := db.MigrateColumns(nonces);
    SealedIfPlanned(plans, reopened.items, db.Now());
    StaysStuck(c, cipher, contextOf, 0, db.history);
  }

  /** Two plans under a new root. The first has a state row and no value; the second was added since, and has one stuck value. */
  function AddedPlanState(former: string): Durable {
    Durable(map["a.text" := [], "b.text" := [Row(TextKey("1"), [], Cell.Text(FUTURE_TEXT))]],
            map["a.text" := ItemRow(ItemPending, None)],
            Some(StoreRow(StoreOk, None, Some(former), SUPPORTED_MIN_READER)), Residue(false, 0, 0, false))
  }

  /**
    A plan without a state row does not hold the record back. The run moves it when
    it has finished the first column, and only then meets the value that does not
    open: it succeeds, having counted it.
   */
  method AddedPlanMovesRecord(c: Crypto, cipher: Cipher, former: string, contextOf: (string, seq<string>) -> Context, nonces: nat -> Nonce)
    returns (db: ContentDb, r: Result<MigrationReport, DbError>)
    requires Lawful(c) && MatchKcv(cipher, former) == MatchesRetired
    ensures db.Valid() && db.history[0] == AddedPlanState(former)
    ensures former != cipher.current.rootKcv
    ensures r.Ok? && r.value.unreadable == 1
    ensures db.store.Some? && db.store.value.kcv == Some(cipher.current.rootKcv)
    ensures "b.text" in db.columns && StuckRow(c, cipher, contextOf, db.columns["b.text"])
  {
    hide Lawful, Path, Tx, VerdictOf, ReadingOf, MatchKcv, TallyPlans, ColumnKept, StuckRow, Resumable, MovesBefore, AllItemsSealed, AnyUnfinished, Migratable;
    NotCurrent(cipher, former);
    var plans := TwoPlans(contextOf);
    var d := AddedPlanState(former);
    assert WellFormed(plans, d);
    db := new ContentDb(c, cipher, plans, 4096, n => true, Volume(n => 0, (n, needed) => true), d.columns, d.items, d.store, true, 0, false, 0, false);
    AddedPlanRun(c, cipher, former, contextOf);
    r := db.MigrateColumns(nonces);
    StaysStuck(c, cipher, contextOf, 1, db.history);
  }

  lemma AddedPlanRun(c: Crypto, cipher: Cipher, former: string, contextOf: (string, seq<string>) -> Context)
    requires MatchKcv(cipher, former) == MatchesRetired
    ensures Migratable(cipher, TwoPlans(contextOf), AddedPlanState(former))
    ensures MovesBefore(c, cipher, TwoPlans(contextOf), AddedPlanState(former), 2)
    ensures TallyPlans(c, cipher, TwoPlans(contextOf), AddedPlanState(former)).unreadable == 1
    ensures StuckRow(c, cipher, contextOf, AddedPlanState(former).columns["b.text"])
  {
    hide MatchKcv, VerdictOf, ReadingOf, OnlyFirstLeft, StuckRow, Tally, TallyPlans, Visited;
    var plans, d := TwoPlans(contextOf), AddedPlanState(former);
    assert plans[..1] == [plans[0]] && plans == [plans[0], plans[1]];
    VisitsAll(plans[0], d);
    VisitsAll(plans[1], d);
    SecondCounted(c, cipher, plans[0], plans[1], d);
    OnlyFirstAdded(former, contextOf);
    assert MovesAt(c, cipher, plans, d, 0);
    FutureTextIsStuck(c, cipher, contextOf("1", []));
    OneStuckRow(c, cipher, plans[1], d.columns["b.text"][0], TallyPlans(c, cipher, [plans[0]], d));
    StuckNow(c, cipher, contextOf, d.columns["b.text"]);
  }

  lemma VisitsAll(plan: ColumnPlan, d: Durable)
    requires plan.item in d.columns && !ItemFinished(plan, d) && CursorOf(plan, d) == None
    ensures Resumable(plan, d) && Visited(plan, d) == d.columns[plan.item]
  {
  }

  lemma SecondCounted(c: Crypto, cipher: Cipher, a: ColumnPlan, b: ColumnPlan, d: Durable)
    requires !ItemFinished(a, d) && Visited(a, d) == [] && !ItemFinished(b, d)
    ensures TallyPlans(c, cipher, [a], d).unreadable == 0
    ensures TallyPlans(c, cipher, [a, b], d) == Tally(c, cipher, b, Visited(b, d), TallyPlans(c, cipher, [a], d))
  {
    hide Visited;
    assert [a][..0] == [] && [a, b][..1] == [a];
  }

  lemma OnlyFirstAdded(former: string, contextOf: (string, seq<string>) -> Context)
    ensures OnlyFirstLeft(TwoPlans(contextOf), AddedPlanState(former), 1)
  {
    assert TwoPlans(contextOf)[0].item == "a.text";
  }

  lemma SecondRunStarts(c: Crypto, cipher: Cipher, former: string, contextOf: (string, seq<string>) -> Context, d: Durable)
    requires MatchKcv(cipher, former) == MatchesRetired && HalfResealed(c, cipher, former, contextOf, d)
    ensures Migratable(cipher, TwoPlans(contextOf), d) && AllRecorded(TwoPlans(contextOf), d) && AnyUnfinished(TwoPlans(contextOf), d)
    ensures TallyPlans(c, cipher, TwoPlans(contextOf), d).unreadable == 0
    ensures AllPlanned(TwoPlans(contextOf), d.items)
  {
    hide MatchKcv, TallyPlans, StuckRow, Resumable, AnyUnfinished;
    var plans := TwoPlans(contextOf);
    NothingLeftToCount(c, cipher, plans[0], plans[1], d);
    assert plans == [plans[0], plans[1]] && plans[0].item == "a.text" && plans[1].item == "b.text";
  }

  lemma OneStuckRow(c: Crypto, cipher: Cipher, plan: ColumnPlan, row: Row, before: MigrationReport)
    requires RowVerdict(c, cipher, plan, row) == Stuck
    ensures Tally(c, cipher, plan, [row], before).unreadable == before.unreadable + 1
  {
    assert [row][..0] == [];
  }

  lemma NothingLeftToCount(c: Crypto, cipher: Cipher, a: ColumnPlan, b: ColumnPlan, d: Durable)
    requires ItemFinished(a, d) && b.item in d.columns && d.columns[b.item] == []
    requires b.item in d.items && d.items[b.item] == ItemRow(ItemPending, None)
    ensures TallyPlans(c, cipher, [a, b], d).unreadable == 0 && Resumable(a, d) && Resumable(b, d) && AnyUnfinished([a, b], d)
  {
    assert [a, b][..1] == [a] && [a][..0] == [];
    assert Visited(b, d) == [];
    assert TallyPlans(c, cipher, [a], d).unreadable == 0;
    assert !ItemFinished([a, b][1], d);
  }
}
