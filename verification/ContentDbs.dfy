/** A store's connection: sealing its legacy values, and cleaning up after itself. */
module ContentDbs {
  import opened Wrappers
  import opened ContentCiphers
  import opened ContentCells
  import opened ContentEnvelopes
  import opened ContentStates
  import Text

  datatype MigrationReport = MigrationReport(sealed: nat, alreadySealed: nat, unreadable: nat, raced: int, finishedItems: nat)

  datatype DbError =
    | SecureDeleteOff | NewerStoreFormat | KeyMismatch | NoSuchTable(item: string) | CorruptCursor(item: string)
    | WalNotTruncated | SqlFailed

  datatype StoreKeyState = KeyRecorded | KeyCurrent | KeyRetired | KeyMismatched(recorded: string)

  // ── What a run will count ──────────────────────────────────────────────────

  function Counted(report: MigrationReport, verdict: Verdict): MigrationReport {
    match verdict
    case Finished => report.(alreadySealed := report.alreadySealed + 1)
    case Stuck => report.(unreadable := report.unreadable + 1)
    case _ => report.(sealed := report.sealed + 1)
  }

  function RowVerdict(c: Crypto, cipher: Cipher, plan: ColumnPlan, row: Row): Verdict {
    VerdictOf(c, cipher, plan.kind, row.cell, RowContext(plan, row))
  }

  function Tally(c: Crypto, cipher: Cipher, plan: ColumnPlan, rows: seq<Row>, report: MigrationReport): MigrationReport {
    if rows == [] then report
    else Counted(Tally(c, cipher, plan, rows[..|rows| - 1], report), RowVerdict(c, cipher, plan, rows[|rows| - 1]))
  }

  /** The rows for which the verdict is this kind of thing. */
  function RowsWith(c: Crypto, cipher: Cipher, plan: ColumnPlan, rows: seq<Row>, which: Verdict -> bool): set<nat> {
    set i: nat | i < |rows| && which(RowVerdict(c, cipher, plan, rows[i]))
  }

  lemma RowsWithLast(c: Crypto, cipher: Cipher, plan: ColumnPlan, rows: seq<Row>, which: Verdict -> bool)
    requires rows != []
    ensures |RowsWith(c, cipher, plan, rows, which)|
         == |RowsWith(c, cipher, plan, rows[..|rows| - 1], which)| + (if which(RowVerdict(c, cipher, plan, rows[|rows| - 1])) then 1 else 0)
  {
    hide RowVerdict;
    var n := |rows| - 1;
    var before := RowsWith(c, cipher, plan, rows[..n], which);
    assert n !in before && RowsWith(c, cipher, plan, rows, which) == if which(RowVerdict(c, cipher, plan, rows[n])) then before + {n} else before;
  }

  /** The report counts every row once, under what became of it, and nothing else. */
  lemma {:induction false} TallyCounts(c: Crypto, cipher: Cipher, plan: ColumnPlan, rows: seq<Row>, report: MigrationReport)
    ensures var r := Tally(c, cipher, plan, rows, report);
      && r.alreadySealed == report.alreadySealed + |RowsWith(c, cipher, plan, rows, v => v == Finished)|
      && r.unreadable == report.unreadable + |RowsWith(c, cipher, plan, rows, v => v == Stuck)|
      && r.sealed == report.sealed + |RowsWith(c, cipher, plan, rows, (v: Verdict) => v.MustSealText? || v.MustSealBytes?)|
      && r.raced == report.raced && r.finishedItems == report.finishedItems
  {
    hide RowsWith, RowVerdict;
    if rows == [] {
      NoRowsWith(c, cipher, plan, v => v == Finished);
      NoRowsWith(c, cipher, plan, v => v == Stuck);
      NoRowsWith(c, cipher, plan, (v: Verdict) => v.MustSealText? || v.MustSealBytes?);
    } else {
      TallyCounts(c, cipher, plan, rows[..|rows| - 1], report);
      RowsWithLast(c, cipher, plan, rows, v => v == Finished);
      RowsWithLast(c, cipher, plan, rows, v => v == Stuck);
      RowsWithLast(c, cipher, plan, rows, (v: Verdict) => v.MustSealText? || v.MustSealBytes?);
    }
  }

  lemma NoRowsWith(c: Crypto, cipher: Cipher, plan: ColumnPlan, which: Verdict -> bool)
    ensures |RowsWith(c, cipher, plan, [], which)| == 0
  {
    assert RowsWith(c, cipher, plan, [], which) == {};
  }

  predicate ItemFinished(plan: ColumnPlan, d: Durable) {
    plan.item in d.items && d.items[plan.item].state == ItemSealed
  }

  function CursorOf(plan: ColumnPlan, d: Durable): Option<string> {
    if plan.item in d.items then d.items[plan.item].cursor else None
  }

  /** The item is done, or its table exists and its cursor parses. */
  predicate Resumable(plan: ColumnPlan, d: Durable) {
    ItemFinished(plan, d)
    || (plan.item in d.columns && ResumeAt(plan, d.columns[plan.item], CursorOf(plan, d)).Some?)
  }

  /** The rows a run starting in `d` looks at: those after the cursor of an unfinished item. */
  function Visited(plan: ColumnPlan, d: Durable): seq<Row> {
    if ItemFinished(plan, d) || !Resumable(plan, d) then []
    else d.columns[plan.item][ResumeAt(plan, d.columns[plan.item], CursorOf(plan, d)).value..]
  }

  function TallyPlans(c: Crypto, cipher: Cipher, plans: seq<ColumnPlan>, d: Durable): MigrationReport {
    if plans == [] then MigrationReport(0, 0, 0, 0, 0)
    else
      var before := TallyPlans(c, cipher, plans[..|plans| - 1], d);
      var plan := plans[|plans| - 1];
      if ItemFinished(plan, d) then before.(finishedItems := before.finishedItems + 1)
      else Tally(c, cipher, plan, Visited(plan, d), before)
  }

  lemma {:induction false} TallyPlansIgnoresStore(c: Crypto, cipher: Cipher, plans: seq<ColumnPlan>, d: Durable, e: Durable)
    requires e.columns == d.columns && e.items == d.items
    ensures TallyPlans(c, cipher, plans, e) == TallyPlans(c, cipher, plans, d)
  {
    if plans != [] {
      TallyPlansIgnoresStore(c, cipher, plans[..|plans| - 1], d, e);
    }
  }

  predicate AnyUnfinished(plans: seq<ColumnPlan>, d: Durable) {
    exists p :: 0 <= p < |plans| && !ItemFinished(plans[p], d)
  }

  /** Every planned item has a state row, as after a reset. */
  predicate AllRecorded(plans: seq<ColumnPlan>, d: Durable) {
    forall p :: 0 <= p < |plans| ==> plans[p].item in d.items
  }

  /** Every item with a state row is planned. */
  predicate AllPlanned(plans: seq<ColumnPlan>, items: map<string, ItemRow>) {
    forall item :: item in items ==> exists p :: 0 <= p < |plans| && plans[p].item == item
  }

  /** The store row names the same key and the same readers. */
  predicate SameRecord(before: Option<StoreRow>, after: Option<StoreRow>) {
    match (before, after)
    case (None, None) => true
    case (Some(b), Some(a)) => a.kcv == b.kcv && a.minReader == b.minReader
    case _ => false
  }

  /** Nothing about the store as it is keeps a migration from running to its end. */
  predicate Migratable(cipher: Cipher, plans: seq<ColumnPlan>, d: Durable) {
    && !(d.store.Some? && d.store.value.minReader > SUPPORTED_MIN_READER)
    && !(d.store.Some? && d.store.value.kcv.Some? && MatchKcv(cipher, d.store.value.kcv.value) == Unknown)
    && forall p :: 0 <= p < |plans| ==> Resumable(plans[p], d)
  }

  /** Every item with a state row in `d` is sealed, or is that of one of the first `k` plans. */
  predicate OnlyFirstLeft(plans: seq<ColumnPlan>, d: Durable, k: nat)
    requires k <= |plans|
  {
    forall item :: item in d.items ==> d.items[item].state == ItemSealed || exists p :: 0 <= p < k && plans[p].item == item
  }

  /**
    A run from `d` moves the record when it finishes plan `k`: it finishes it, has
    met nothing unreadable yet, and no item with a state row is left. A plan after
    `k` without a state row does not hold it back.
   */
  predicate MovesAt(c: Crypto, cipher: Cipher, plans: seq<ColumnPlan>, d: Durable, k: nat) {
    && k < |plans| && !ItemFinished(plans[k], d)
    && TallyPlans(c, cipher, plans[..k + 1], d).unreadable == 0 && OnlyFirstLeft(plans, d, k + 1)
  }

  predicate MovesBefore(c: Crypto, cipher: Cipher, plans: seq<ColumnPlan>, d: Durable, n: nat) {
    exists k :: 0 <= k < n && MovesAt(c, cipher, plans, d, k)
  }

  // ── One SQL update ─────────────────────────────────────────────────────────

  /** `UPDATE ... SET column = now WHERE key = key AND column IS was`. */
  function Updated(rows: seq<Row>, key: SqlKey, was: Cell, now: Cell): (r: seq<Row>)
    ensures |r| == |rows|
  {
    seq(|rows|, i requires 0 <= i < |rows| => if rows[i].key == key && rows[i].cell == was then rows[i].(cell := now) else rows[i])
  }

  /** How many rows that update changes. */
  function Changed(rows: seq<Row>, key: SqlKey, was: Cell): nat {
    if rows == [] then 0
    else Changed(rows[..|rows| - 1], key, was) + (if rows[|rows| - 1].key == key && rows[|rows| - 1].cell == was then 1 else 0)
  }

  lemma {:induction false} ChangesNone(rows: seq<Row>, key: SqlKey, was: Cell)
    requires forall i :: 0 <= i < |rows| ==> rows[i].key != key
    ensures Changed(rows, key, was) == 0
  {
    if rows != [] {
      ChangesNone(rows[..|rows| - 1], key, was);
    }
  }

  lemma {:induction false} ChangesOne(plan: ColumnPlan, rows: seq<Row>, at: nat)
    requires Keyed(plan, rows) && at < |rows|
    ensures Changed(rows, rows[at].key, rows[at].cell) == 1
    decreases |rows|
  {
    var init := rows[..|rows| - 1];
    forall i | 0 <= i < |rows| && i != at ensures rows[i].key != rows[at].key {
      KeyOrder(rows[i].key, rows[at].key);
    }
    if at == |rows| - 1 {
      ChangesNone(init, rows[at].key, rows[at].cell);
    } else {
      ChangesOne(plan, init, at);
    }
  }

  /** Under a primary key, the compare-and-swap changes exactly the row it read. */
  lemma UpdatesOne(plan: ColumnPlan, rows: seq<Row>, at: nat, now: Cell)
    requires Keyed(plan, rows) && at < |rows|
    ensures Changed(rows, rows[at].key, rows[at].cell) == 1
    ensures Updated(rows, rows[at].key, rows[at].cell, now) == rows[at := rows[at].(cell := now)]
  {
    ChangesOne(plan, rows, at);
    forall i | 0 <= i < |rows| && i != at ensures rows[i].key != rows[at].key {
      KeyOrder(rows[i].key, rows[at].key);
    }
  }

  /** Reseal the rows of one batch, each by compare-and-swap. No row is ever raced: the batch holds the write lock. */
  method SealRows(c: Crypto, cipher: Cipher, plan: ColumnPlan, batch: seq<Row>, at: nat, hi: nat, nonces: nat -> Nonce, report: MigrationReport)
    returns (rows: seq<Row>, r: MigrationReport)
    requires Lawful(c) && Keyed(plan, batch) && at <= hi <= |batch|
    ensures RowsDone(c, cipher, plan, batch, rows, at, hi)
    ensures r == Tally(c, cipher, plan, batch[at..hi], report)
  {
    hide Lawful, VerdictOf, Replaces, RowContext, RowsDone, Keyed, Tally, Updated, Changed;
    assert RowsDone(c, cipher, plan, batch, batch, at, at) by { NothingDone(c, cipher, plan, batch, at); }
    rows, r := batch, report;
    var i := at;
    assert Tally(c, cipher, plan, batch[at..at], report) == report by { NothingCounted(c, cipher, plan, batch, at, report); }
    while i < hi
      invariant at <= i <= hi && Keyed(plan, rows) && |rows| == |batch|
      invariant RowsDone(c, cipher, plan, batch, rows, at, i)
      invariant r == Tally(c, cipher, plan, batch[at..i], report)
    {
      var row := batch[i];
      var outcome := ResealValue(c, cipher, plan.kind, row.cell, RowContext(plan, row), nonces(r.sealed));
      TallyOneMore(c, cipher, plan, batch, at, i, report);
      match outcome {
        case Sealed(cell) =>
          RowsDoneOneMore(c, cipher, plan, batch, rows, at, i, row.(cell := cell));
          UpdatesOne(plan, rows, i, cell);
          var changed := Changed(rows, row.key, row.cell);
          rows := Updated(rows, row.key, row.cell, cell);
          if changed == 1 {
            r := r.(sealed := r.sealed + 1);
          } else {
            r := r.(raced := r.raced + 1);
          }
        case Already =>
          RowsDoneOneMore(c, cipher, plan, batch, rows, at, i, row);
          assert rows[i := row] == rows;
          r := r.(alreadySealed := r.alreadySealed + 1);
        case Unreadable =>
          RowsDoneOneMore(c, cipher, plan, batch, rows, at, i, row);
          assert rows[i := row] == rows;
          r := r.(unreadable := r.unreadable + 1);
      }
      i := i + 1;
    }
  }

  lemma {:induction false} TallyConcat(c: Crypto, cipher: Cipher, plan: ColumnPlan, a: seq<Row>, b: seq<Row>, report: MigrationReport)
    ensures Tally(c, cipher, plan, a + b, report) == Tally(c, cipher, plan, b, Tally(c, cipher, plan, a, report))
    decreases |b|
  {
    if b == [] {
      assert a + b == a;
    } else {
      assert (a + b)[..|a + b| - 1] == a + b[..|b| - 1];
      TallyConcat(c, cipher, plan, a, b[..|b| - 1], report);
    }
  }

  /** Rows at or past `hi` are untouched by a batch, so a run counts the original rows. */
  lemma TallyBatch(c: Crypto, cipher: Cipher, plan: ColumnPlan, original: seq<Row>, rows: seq<Row>, start: nat, at: nat, hi: nat, report: MigrationReport)
    requires |rows| == |original| && start <= at <= hi <= |rows| && rows[at..] == original[at..]
    ensures Tally(c, cipher, plan, original[start..hi], report)
         == Tally(c, cipher, plan, rows[at..hi], Tally(c, cipher, plan, original[start..at], report))
  {
    assert rows[at..hi] == rows[at..][..hi - at];
    assert original[at..hi] == original[at..][..hi - at];
    assert original[start..hi] == original[start..at] + original[at..hi];
    TallyConcat(c, cipher, plan, original[start..at], original[at..hi], report);
  }

  lemma UntouchedTail(c: Crypto, cipher: Cipher, plan: ColumnPlan, before: seq<Row>, after: seq<Row>, lo: nat, hi: nat)
    requires RowsDone(c, cipher, plan, before, after, lo, hi) && hi <= |before|
    ensures |after| == |before| && after[hi..] == before[hi..]
  {
    hide CellDone;
    assert |after| == |before|;
    forall i | hi <= i < |before| ensures after[i] == before[i] {
    }
  }

  lemma NothingDone(c: Crypto, cipher: Cipher, plan: ColumnPlan, rows: seq<Row>, at: nat)
    ensures RowsDone(c, cipher, plan, rows, rows, at, at)
  {
  }

  lemma NothingCounted(c: Crypto, cipher: Cipher, plan: ColumnPlan, rows: seq<Row>, at: nat, report: MigrationReport)
    requires at <= |rows|
    ensures Tally(c, cipher, plan, rows[at..at], report) == report
  {
  }

  lemma TallyOneMore(c: Crypto, cipher: Cipher, plan: ColumnPlan, rows: seq<Row>, lo: nat, i: nat, report: MigrationReport)
    requires lo <= i < |rows|
    ensures Tally(c, cipher, plan, rows[lo..i + 1], report)
         == Counted(Tally(c, cipher, plan, rows[lo..i], report), RowVerdict(c, cipher, plan, rows[i]))
  {
    assert rows[lo..i + 1][..i - lo] == rows[lo..i];
  }

  // ── Gates ──────────────────────────────────────────────────────────────────

  const VACUUM_RETRY_SECS := 24 * 60 * 60
  const SCRUB_CHUNK_BYTES := 64 * 1024 * 1024
  const CHECKPOINT_ATTEMPTS := 3

  datatype VacuumPolicy = VacuumPolicy(vacuumNowMaxBytes: nat, headroomBytes: nat)

  /** What only SQLite and the file system know: the n-th number asked for, and whether so many bytes are known to be free then. */
  datatype Volume = Volume(number: nat -> nat, room: (nat, nat) -> bool)

  datatype FinishOutcome = FinishOutcome(scrubbedPages: nat, vacuumed: bool, vacuumPending: bool)

  class ContentDb {
    const c: Crypto
    const cipher: Cipher
    const plans: seq<ColumnPlan>
    const pageSize: nat
    /** Whether the n-th step that may fail (sealing a batch, a statement, a commit) works. */
    const disk: nat -> bool
    const volume: Volume
    var calls: nat
    var columns: map<string, seq<Row>>
    var items: map<string, ItemRow>
    var store: Option<StoreRow>
    var secureDelete: bool
    var freelist: nat
    ghost var wal: bool
    ghost var dirtyFree: nat
    ghost var partialPages: bool
    /** Every state committed since the store was opened: what a crash may leave. */
    ghost var history: seq<Durable>

    ghost function Now(): Durable
      reads this
    {
      Durable(columns, items, store, Residue(wal, freelist, dirtyFree, partialPages))
    }

    ghost predicate Valid()
      reads this
    {
      && Lawful(c) && Distinct(plans) && pageSize > 0 && WellFormed(plans, Now())
      && history != [] && history[|history| - 1] == Now()
      && Path(c, cipher, plans, history)
    }

    /** Open a store in whatever state it was left in. */
    constructor (c: Crypto, cipher: Cipher, plans: seq<ColumnPlan>, pageSize: nat, disk: nat -> bool, volume: Volume, columns: map<string, seq<Row>>, items: map<string, ItemRow>,
                 store: Option<StoreRow>, secureDelete: bool, freelist: nat, ghost wal: bool, ghost dirtyFree: nat, ghost partialPages: bool)
      requires Lawful(c) && Distinct(plans) && pageSize > 0
      requires WellFormed(plans, Durable(columns, items, store, Residue(wal, freelist, dirtyFree, partialPages)))
      ensures Valid() && Now() == Durable(columns, items, store, Residue(wal, freelist, dirtyFree, partialPages))
      ensures history == [Now()] && this.secureDelete == secureDelete
      ensures this.c == c && this.cipher == cipher && this.plans == plans && this.disk == disk && this.volume == volume
    {
      this.c, this.cipher, this.plans, this.pageSize, this.disk, this.volume, this.calls := c, cipher, plans, pageSize, disk, volume, 0;
      this.columns, this.items, this.store := columns, items, store;
      this.secureDelete, this.freelist := secureDelete, freelist;
      this.wal, this.dirtyFree, this.partialPages := wal, dirtyFree, partialPages;
      this.history := [Durable(columns, items, store, Residue(wal, freelist, dirtyFree, partialPages))];
    }

    /** No step fails. */
    ghost predicate Reliable() {
      forall n :: disk(n)
    }

    /** There is always room on the volume. */
    ghost predicate Roomy() {
      forall n, needed :: volume.room(n, needed)
    }

    /** The store is never too large to compact at once. */
    ghost predicate Small(policy: VacuumPolicy) {
      forall n :: volume.number(n) <= policy.vacuumNowMaxBytes
    }

    /** A step that may fail, before it changes anything. */
    method Works() returns (ok: bool)
      requires Valid()
      modifies this`calls
      ensures Valid() && (ok <==> disk(old(calls)))
    {
      hide Lawful, Distinct, WellFormed, Path;
      ok := disk(calls);
      calls := calls + 1;
    }

    /** A transaction commits: the new state becomes durable. */
    ghost method Commit()
      requires Lawful(c) && Distinct(plans) && pageSize > 0 && WellFormed(plans, Now())
      requires history != [] && Path(c, cipher, plans, history)
      requires Tx(c, cipher, plans, history[|history| - 1], Now())
      modifies this`history
      ensures Valid() && history == old(history) + [Now()]
    {
      hide Tx, WellFormed, Lawful;
      history := history + [Now()];
    }

    method CheckStoreKey() returns (r: Result<StoreKeyState, DbError>)
      requires Valid()
      modifies this`store, this`history, this`calls
      ensures Valid() && old(history) <= history
      ensures old(store).Some? && old(store).value.minReader > SUPPORTED_MIN_READER ==> r == Err(NewerStoreFormat)
      ensures r.Err? ==> store == old(store) && history == old(history)
      ensures r.Err? ==>
        || (r.error == NewerStoreFormat && old(store).Some? && old(store).value.minReader > SUPPORTED_MIN_READER)
        || (r.error == SqlFailed && !Reliable())
      ensures r.Ok? && (old(store).None? || old(store).value.kcv.None?) ==>
                r.value == KeyRecorded && store == Some(RecordedKcv(old(store), cipher.current.rootKcv)) && store.value.kcv == Some(cipher.current.rootKcv)
      ensures r.Ok? && old(store).Some? && old(store).value.kcv.Some? ==>
                && store == old(store)
                && r.value == match MatchKcv(cipher, old(store).value.kcv.value)
                              case MatchesCurrent => KeyCurrent
                              case MatchesRetired => KeyRetired
                              case Unknown => KeyMismatched(old(store).value.kcv.value)
      ensures r.Ok? ==> store.Some? && store.value.kcv.Some?
    {
      if store.Some? {
        if store.value.minReader > SUPPORTED_MIN_READER {
          return Err(NewerStoreFormat);
        }
        if store.value.kcv.Some? {
          var recorded := store.value.kcv.value;
          match MatchKcv(cipher, recorded) {
            case MatchesCurrent => return Ok(KeyCurrent);
            case MatchesRetired => return Ok(KeyRetired);
            case Unknown => return Ok(KeyMismatched(recorded));
          }
        }
      }
      hide Lawful;
      var ok := Works();
      if !ok {
        return Err(SqlFailed);
      }
      store := Some(RecordedKcv(store, cipher.current.rootKcv));
      assert RecordTx(cipher, history[|history| - 1], Now());
      Commit();
      r := Ok(KeyRecorded);
    }

    /** One migration transaction: up to BATCH_SIZE rows after position `at`, and the cursor; or nothing, if a value cannot be sealed or the commit fails. */
    method SealBatch(plan: ColumnPlan, at: nat, nonces: nat -> Nonce, report: MigrationReport) returns (ok: bool, hi: nat, r: MigrationReport)
      requires Valid() && plan in plans && ScrubOwed(Now())
      requires plan.item in items && items[plan.item].state == ItemSealing && plan.item in columns
      requires ResumeAt(plan, columns[plan.item], items[plan.item].cursor) == Some(at)
      modifies this`columns, this`items, this`freelist, this`wal, this`dirtyFree, this`partialPages, this`history, this`calls
      ensures Valid() && old(history) <= history
      ensures at <= hi <= |old(columns)[plan.item]| && hi == (if at + BATCH_SIZE < |old(columns)[plan.item]| then at + BATCH_SIZE else |old(columns)[plan.item]|)
      ensures plan.item in columns && columns == old(columns)[plan.item := columns[plan.item]]
      ensures !ok ==> !Reliable() && columns == old(columns) && items == old(items) && Now() == old(Now())
      ensures ok ==> RowsDone(c, cipher, plan, old(columns)[plan.item], columns[plan.item], at, hi)
      ensures plan.item in items && items == old(items)[plan.item := items[plan.item]] && items[plan.item].state == ItemSealing
      ensures ResumeAt(plan, columns[plan.item], items[plan.item].cursor) == Some(if ok then hi else at)
      ensures r == Tally(c, cipher, plan, old(columns)[plan.item][at..hi], report)
    {
      hide Lawful, ParseCursor, RowsUpTo, VerdictOf, RowsDone, RenderKey, Tally, Keyed, Path, Tx;
      var rows := columns[plan.item];
      assert Keyed(plan, rows);
      hi := if at + BATCH_SIZE < |rows| then at + BATCH_SIZE else |rows|;
      var sealed: seq<Row>;
      sealed, r := SealRows(c, cipher, plan, rows, at, hi, nonces, report);
      ok := Works();
      if !ok {
        return;
      }
      WriteBatch(plan, at, hi, sealed);
    }

    /** Write the batch's rows and its cursor, and commit. */
    method WriteBatch(plan: ColumnPlan, at: nat, hi: nat, sealed: seq<Row>)
      requires Valid() && plan in plans && ScrubOwed(Now())
      requires plan.item in items && items[plan.item].state == ItemSealing && plan.item in columns
      requires ResumeAt(plan, columns[plan.item], items[plan.item].cursor) == Some(at)
      requires hi == (if at + BATCH_SIZE < |columns[plan.item]| then at + BATCH_SIZE else |columns[plan.item]|)
      requires RowsDone(c, cipher, plan, columns[plan.item], sealed, at, hi)
      modifies this`columns, this`items, this`freelist, this`wal, this`dirtyFree, this`partialPages, this`history, this`calls
      ensures Valid() && old(history) <= history
      ensures columns == old(columns)[plan.item := sealed]
      ensures plan.item in items && items == old(items)[plan.item := items[plan.item]] && items[plan.item].state == ItemSealing
      ensures ResumeAt(plan, sealed, items[plan.item].cursor) == Some(hi)
    {
      hide Lawful, ScrubOwed, ResumeAt, RowsDone, RenderKey, Keyed, Path, Tx;
      var rows := columns[plan.item];
      assert Keyed(plan, rows);
      ghost var before := Now();
      RowsDoneSameKeys(c, cipher, plan, rows, sealed, at, hi);
      ResumeAtSameKeys(plan, rows, sealed, items[plan.item].cursor);
      var cursor := items[plan.item].cursor;
      if hi > at {
        cursor := Some(RenderKey(rows[hi - 1].key));
        BatchCursor(plan, rows, sealed, hi);
      }
      columns := columns[plan.item := sealed];
      items := items[plan.item := ItemRow(ItemSealing, cursor)];
      // Rewriting cells may leave old page images in the WAL, on free pages and inside partly used pages.
      freelist, wal, dirtyFree, partialPages := *, *, *, *;
      dirtyFree := if dirtyFree <= freelist then dirtyFree else freelist;
      assert BatchTx(c, cipher, plan, before, Now());
      CommitBatch(plan, before);
    }

    ghost method CommitBatch(plan: ColumnPlan, before: Durable)
      requires Lawful(c) && Distinct(plans) && pageSize > 0 && WellFormed(plans, before) && plan in plans
      requires history != [] && history[|history| - 1] == before && Path(c, cipher, plans, history)
      requires BatchTx(c, cipher, plan, before, Now()) && Keyed(plan, columns[plan.item])
      modifies this`history
      ensures Valid() && history == old(history) + [Now()]
    {
      hide Lawful, Keyed, ResumeAt, RowsDone, ParseCursor;
      var p :| 0 <= p < |plans| && plans[p] == plan;
      assert PlanTx(c, cipher, plans[p], before, Now());
      Commit();
    }

    /** Record the scrub debt and the item as started, in one transaction, before any cell is rewritten. */
    method StartItem(plan: ColumnPlan) returns (ok: bool)
      requires Valid() && plan in plans && !ItemFinished(plan, Now())
      modifies this`store, this`items, this`history, this`calls
      ensures Valid() && old(history) <= history
      ensures !ok ==> !Reliable() && Now() == old(Now())
      ensures ok ==> ScrubOwed(Now()) && store.Some?
      ensures ok ==> items == old(items)[plan.item := ItemRow(ItemSealing, CursorOf(plan, old(Now())))]
      ensures old(store).Some? ==> store.Some? && store.value.kcv == old(store).value.kcv && store.value.minReader == old(store).value.minReader
    {
      hide Lawful, Keyed, Path, Tx;
      ok := Works();
      if !ok {
        return;
      }
      ghost var before := Now();
      OwesScrub(store);
      store := Some(ScrubOwedRow(store));
      items := items[plan.item := ItemRow(ItemSealing, if plan.item in items then items[plan.item].cursor else None)];
      ProvePlanTx(plan, before);
      Commit();
    }

    ghost method ProvePlanTx(plan: ColumnPlan, before: Durable)
      requires plan in plans && (StartTx(plan, before, Now()) || SealTx(c, cipher, plan, before, Now()) || ResetTx(plan, before, Now()))
      requires WellFormed(plans, before)
      ensures Tx(c, cipher, plans, before, Now()) && WellFormed(plans, Now())
    {
      hide Keyed, ResumeAt, ParseCursor, EncodeCursor;
      var p :| 0 <= p < |plans| && plans[p] == plan;
      assert PlanTx(c, cipher, plans[p], before, Now());
      assert Now().columns == before.columns && Now().residue == before.residue;
    }

    /** Record the item as sealed; when that was the last one of a clean retired-key run, the record moves to the current root. */
    method FinishItem(plan: ColumnPlan, moveRecord: bool) returns (ok: bool)
      requires Valid() && plan in plans && store.Some?
      requires plan.item in items && items[plan.item].state == ItemSealing && plan.item in columns
      requires ResumeAt(plan, columns[plan.item], items[plan.item].cursor) == Some(|columns[plan.item]|)
      modifies this`store, this`items, this`history, this`calls
      ensures Valid() && old(history) <= history && store.Some?
      ensures !ok ==> !Reliable() && Now() == old(Now())
      ensures ok ==> items == old(items)[plan.item := ItemRow(ItemSealed, None)]
      ensures ok ==> store.value.kcv == if moveRecord && AllItemsSealed(items) then Some(cipher.current.rootKcv) else old(store).value.kcv
      ensures old(store).value.minReader <= SUPPORTED_MIN_READER ==> store.value.minReader <= SUPPORTED_MIN_READER
    {
      hide Lawful, Keyed, Path, Tx, ResumeAt;
      ok := Works();
      if !ok {
        return;
      }
      ghost var before := Now();
      items := items[plan.item := ItemRow(ItemSealed, None)];
      if moveRecord && AllItemsSealed(items) {
        store := Some(RecordedKcv(store, cipher.current.rootKcv));
      }
      ProvePlanTx(plan, before);
      Commit();
    }

    /** Migrate one unfinished item from wherever its cursor stands. */
    method MigrateItem(plan: ColumnPlan, wasRetired: bool, nonces: nat -> Nonce, report: MigrationReport) returns (r: Result<MigrationReport, DbError>)
      requires Valid() && plan in plans && store.Some? && !ItemFinished(plan, Now())
      modifies this`columns, this`items, this`store, this`freelist, this`wal, this`dirtyFree, this`partialPages, this`history, this`calls
      ensures Valid() && old(history) <= history && store.Some?
      ensures r.Ok? ==> Resumable(plan, old(Now()))
      ensures r.Err? && r.error == SqlFailed ==> !Reliable()
      ensures r.Err? && r.error != SqlFailed ==>
        && !Resumable(plan, old(Now())) && columns == old(columns)
        && r.error == (if plan.item in old(columns) then CorruptCursor(plan.item) else NoSuchTable(plan.item))
      ensures old(store).value.minReader <= SUPPORTED_MIN_READER ==> store.value.minReader <= SUPPORTED_MIN_READER
      ensures r.Ok? ==>
        && r.value == Tally(c, cipher, plan, Visited(plan, old(Now())), report)
        && items == old(items)[plan.item := ItemRow(ItemSealed, None)]
        && plan.item in old(columns) && plan.item in columns && columns == old(columns)[plan.item := columns[plan.item]]
        && store.value.kcv == if wasRetired && r.value.unreadable == 0 && AllItemsSealed(items) then Some(cipher.current.rootKcv) else old(store).value.kcv
    {
      hide Lawful, Keyed, Path, Tx, ResumeAt, RowsDone, Tally, ScrubOwed, WellFormed;
      ghost var start := Now();
      var started := StartItem(plan);
      if !started {
        return Err(SqlFailed);
      }
      if plan.item !in columns {
        return Err(NoSuchTable(plan.item));
      }
      var cursor := ResumeAt(plan, columns[plan.item], items[plan.item].cursor);
      if cursor.None? {
        return Err(CorruptCursor(plan.item));
      }
      var ran, total := RunBatches(plan, cursor.value, nonces, report);
      if !ran {
        return Err(SqlFailed);
      }
      var finished := FinishItem(plan, wasRetired && total.unreadable == 0);
      if !finished {
        return Err(SqlFailed);
      }
      assert Visited(plan, start) == start.columns[plan.item][cursor.value..];
      r := Ok(total);
    }

    /** The batches of one started item, each its own transaction, until one comes up short. */
    method RunBatches(plan: ColumnPlan, start: nat, nonces: nat -> Nonce, report: MigrationReport) returns (ok: bool, r: MigrationReport)
      requires Valid() && plan in plans && ScrubOwed(Now())
      requires plan.item in items && items[plan.item].state == ItemSealing && plan.item in columns
      requires start <= |columns[plan.item]|
      requires ResumeAt(plan, columns[plan.item], items[plan.item].cursor) == Some(start)
      modifies this`columns, this`items, this`freelist, this`wal, this`dirtyFree, this`partialPages, this`history, this`calls
      ensures Valid() && old(history) <= history
      ensures plan.item in columns && columns == old(columns)[plan.item := columns[plan.item]]
      ensures plan.item in items && items == old(items)[plan.item := items[plan.item]] && items[plan.item].state == ItemSealing
      ensures !ok ==> !Reliable()
      ensures ok ==> ResumeAt(plan, columns[plan.item], items[plan.item].cursor) == Some(|columns[plan.item]|)
      ensures ok ==> r == Tally(c, cipher, plan, old(columns)[plan.item][start..], report)
    {
      hide Lawful, Keyed, Path, Tx, ResumeAt, RowsDone, Tally, WellFormed, ParseCursor;
      ghost var original := columns[plan.item];
      var at := start;
      r := report;
      NothingCounted(c, cipher, plan, original, start, report);
      while true
        invariant Valid() && ScrubOwed(Now()) && old(history) <= history
        invariant plan.item in columns && columns == old(columns)[plan.item := columns[plan.item]]
        invariant plan.item in items && items == old(items)[plan.item := items[plan.item]] && items[plan.item].state == ItemSealing
        invariant start <= at <= |original| && |columns[plan.item]| == |original|
        invariant columns[plan.item][at..] == original[at..]
        invariant ResumeAt(plan, columns[plan.item], items[plan.item].cursor) == Some(at)
        invariant r == Tally(c, cipher, plan, original[start..at], report)
        decreases |original| - at
      {
        ghost var rows := columns[plan.item];
        var hi;
        TallyBatchAuto(plan, original, rows, start, at, report);
        ok, hi, r := SealBatch(plan, at, nonces, r);
        if !ok {
          return;
        }
        UntouchedTail(c, cipher, plan, rows, columns[plan.item], at, hi);
        assert original[hi..] == original[at..][hi - at..] == rows[hi..];
        var size := hi - at;
        at := hi;
        if size < BATCH_SIZE {
          assert original[start..at] == original[start..];
          return;
        }
      }
    }

    lemma TallyBatchAuto(plan: ColumnPlan, original: seq<Row>, rows: seq<Row>, start: nat, at: nat, report: MigrationReport)
      requires |rows| == |original| && start <= at <= |rows| && rows[at..] == original[at..]
      ensures forall hi :: at <= hi <= |rows| ==>
        Tally(c, cipher, plan, original[start..hi], report)
        == Tally(c, cipher, plan, rows[at..hi], Tally(c, cipher, plan, original[start..at], report))
    {
      hide Tally;
      forall hi | at <= hi <= |rows|
        ensures Tally(c, cipher, plan, original[start..hi], report)
             == Tally(c, cipher, plan, rows[at..hi], Tally(c, cipher, plan, original[start..at], report))
      {
        TallyBatch(c, cipher, plan, original, rows, start, at, hi, report);
      }
    }

    /**
      Seal every legacy value of every planned column. Unless SQLite or a sealing
      fails, whether it succeeds, what it counts and whether the store's key record
      moves are all functions of the state it starts in: it counts exactly the rows after the cursors of the
      unfinished items, and a retired record moves to the current root iff there
      was something to finish, nothing counted was unreadable, and no item is left.
     */
    method MigrateColumns(nonces: nat -> Nonce) returns (r: Result<MigrationReport, DbError>)
      requires Valid()
      modifies this
      ensures Valid() && old(history) <= history && secureDelete == old(secureDelete)
      ensures !secureDelete ==> r == Err(SecureDeleteOff) && Now() == old(Now())
      ensures secureDelete && old(store).Some? && old(store).value.minReader > SUPPORTED_MIN_READER ==>
                r == Err(NewerStoreFormat) && Now() == old(Now())
      ensures r == Err(KeyMismatch) ==> Now() == old(Now())
      ensures r.Ok? ==> secureDelete && Migratable(cipher, plans, old(Now()))
      ensures r.Err? && secureDelete && Migratable(cipher, plans, old(Now())) ==> r.error == SqlFailed && !Reliable()
      ensures r.Ok? ==> r.value == TallyPlans(c, cipher, plans, old(Now()))
      ensures r.Ok? ==> old(items).Keys <= items.Keys && forall p :: 0 <= p < |plans| ==> ItemFinished(plans[p], Now())
      ensures r.Ok? ==> forall item :: item in items && (forall p :: 0 <= p < |plans| ==> plans[p].item != item) ==>
                          item in old(items) && items[item] == old(items)[item]
      ensures r.Ok? && old(store).Some? && old(store).value.kcv.Some? ==>
                store.Some? && store.value.kcv == Some(
                  if MatchKcv(cipher, old(store).value.kcv.value) == MatchesRetired && MovesBefore(c, cipher, plans, old(Now()), |plans|)
                  then cipher.current.rootKcv else old(store).value.kcv.value)
      ensures r.Ok? && (old(store).None? || old(store).value.kcv.None?) ==> store.Some? && store.value.kcv == Some(cipher.current.rootKcv)
      ensures r.Ok? && AllRecorded(plans, old(Now())) ==>
                (MovesBefore(c, cipher, plans, old(Now()), |plans|)
                 <==> AnyUnfinished(plans, old(Now())) && r.value.unreadable == 0 && AllItemsSealed(items))
    {
      hide Lawful, Keyed, Path, Tx, WellFormed, ScrubOwed, ResumeAt, RecordedKcv, MovesBefore, TallyPlans, AnyUnfinished, AllItemsSealed;
      if !secureDelete {
        return Err(SecureDeleteOff);
      }
      ghost var before := Now();
      var state := CheckStoreKey();
      if state.Err? {
        return Err(state.error);
      }
      if state.value.KeyMismatched? {
        return Err(KeyMismatch);
      }
      TallyPlansIgnoresStore(c, cipher, plans, before, Now());
      MovesIgnoreStore(c, cipher, plans, before, Now(), |plans|);
      r := MigratePlans(state.value == KeyRetired, nonces);
      if r.Ok? && AllRecorded(plans, before) {
        assert RanFrom(plans, before, items);
        MovesWhenRecorded(c, cipher, plans, before, items);
      }
    }

    method MigratePlans(wasRetired: bool, nonces: nat -> Nonce) returns (r: Result<MigrationReport, DbError>)
      requires Valid() && store.Some? && store.value.kcv.Some?
      modifies this`columns, this`items, this`store, this`freelist, this`wal, this`dirtyFree, this`partialPages, this`history, this`calls
      ensures Valid() && old(history) <= history
      ensures r.Ok? ==> forall p :: 0 <= p < |plans| ==> Resumable(plans[p], old(Now()))
      ensures r.Err? ==> (r.error == SqlFailed && !Reliable()) || r.error.NoSuchTable? || r.error.CorruptCursor?
      ensures r.Err? && r.error != SqlFailed ==> exists p :: 0 <= p < |plans| && !Resumable(plans[p], old(Now()))
      ensures r.Ok? ==> r.value == TallyPlans(c, cipher, plans, old(Now()))
      ensures r.Ok? ==> old(items).Keys <= items.Keys && forall p :: 0 <= p < |plans| ==> ItemFinished(plans[p], Now())
      ensures r.Ok? ==> forall item :: item in items && (forall p :: 0 <= p < |plans| ==> plans[p].item != item) ==>
                          item in old(items) && items[item] == old(items)[item]
      ensures r.Ok? ==>
                store.Some? && store.value.kcv == Some(
                  if wasRetired && MovesBefore(c, cipher, plans, old(Now()), |plans|) then cipher.current.rootKcv else old(store).value.kcv.value)
    {
      hide Lawful, Keyed, Path, Tx, WellFormed, ScrubOwed, Visited, Resumable, Tally, AllItemsSealed, MidRun, MovesBefore, OnlyFirstLeft;
      NoMoveYet(c, cipher, plans, Now());
      ghost var start := Now();
      assert MidRun(plans, start, start, 0) by { MidRunStart(plans, start); }
      var report := MigrationReport(0, 0, 0, 0, 0);
      for k := 0 to |plans|
        invariant Valid() && old(history) <= history && store.Some?
        invariant MidRun(plans, start, Now(), k)
        invariant report == TallyPlans(c, cipher, plans[..k], start)
        invariant store.value.kcv == Some(if wasRetired && MovesBefore(c, cipher, plans, start, k) then cipher.current.rootKcv else start.store.value.kcv.value)
      {
        var plan := plans[k];
        assert plans[..k + 1][..k] == plans[..k] && plans[..k + 1][k] == plan;
        ghost var before := Now();
        MidRunItem(plans, start, before, k);
        if plan.item in items && items[plan.item].state == ItemSealed {
          report := report.(finishedItems := report.finishedItems + 1);
        } else {
          var total := MigrateItem(plan, wasRetired, nonces, report);
          if total.Err? {
            return Err(total.error);
          }
          report := total.value;
        }
        MidRunStep(plans, start, before, Now(), k);
        MidRunSealed(plans, start, Now(), k + 1);
        OneMoreMove(c, cipher, plans, start, k);
      }
      assert plans[..|plans|] == plans;
      MidRunEnd(plans, start, Now());
      r := Ok(report);
    }

    // ── Scrubbing ────────────────────────────────────────────────────────────

    ghost method CommitCleanup(before: Durable)
      requires Lawful(c) && Distinct(plans) && pageSize > 0 && WellFormed(plans, before)
      requires history != [] && history[|history| - 1] == before && Path(c, cipher, plans, history)
      requires CleanupTx(before, Now())
      modifies this`history
      ensures Valid() && history == old(history) + [Now()]
    {
      hide Lawful, Keyed, Clean;
      assert Tx(c, cipher, plans, before, Now());
      Commit();
    }

    /** `wal_checkpoint(TRUNCATE)`, retried while a reader blocks it. */
    method CheckpointTruncate() returns (ok: bool)
      requires Valid()
      modifies this`wal, this`history, this`calls
      ensures Valid() && old(history) <= history
      ensures if ok then !wal else wal == old(wal)
      ensures !ok ==> !Reliable()
    {
      hide Lawful, Keyed, Path, Tx;
      for attempt := 0 to CHECKPOINT_ATTEMPTS
        invariant Valid() && wal == old(wal) && history == old(history) && (attempt > 0 ==> !Reliable())
      {
        var idle := Works();
        if idle {
          ghost var before := Now();
          wal := false;
          CommitCleanup(before);
          return true;
        }
      }
      ok := false;
    }

    /** Drop the scratch table without rewriting its zeroed pages, then truncate the WAL. */
    method DropScrubTable() returns (ok: bool)
      requires Valid()
      modifies this`secureDelete, this`freelist, this`wal, this`history, this`calls
      ensures Valid() && old(history) <= history
      ensures ok ==> secureDelete && !wal
      ensures !ok ==> wal == old(wal) && !Reliable()
      ensures old(secureDelete) && !secureDelete ==> !Reliable()
    {
      hide Lawful, Keyed, Path, Tx;
      secureDelete := false;
      var dropped := Works();
      if dropped {
        ghost var before := Now();
        var returned := Ask();
        freelist := freelist + returned;
        CommitCleanup(before);
      }
      var restored := Works();
      if restored {
        secureDelete := true;
      }
      if !dropped || !restored {
        return false;
      }
      ok := CheckpointTruncate();
    }

    /** Some pages leave the free list and are overwritten; which ones is up to SQLite. */
    method TakeFreePages(pages: nat)
      requires Valid()
      modifies this`freelist, this`dirtyFree, this`history
      ensures Valid() && old(history) <= history
      ensures freelist == (if pages <= old(freelist) then old(freelist) - pages else 0)
      ensures dirtyFree <= old(dirtyFree)
    {
      hide Lawful, Keyed, Path, Tx;
      ghost var before := Now();
      freelist := if pages <= freelist then freelist - pages else 0;
      dirtyFree := if dirtyFree <= freelist then dirtyFree else freelist;
      CommitCleanup(before);
    }

    /** The volume is known to have `needed` bytes free. */
    method HasRoom(needed: nat) returns (ok: bool)
      requires Valid()
      modifies this`calls
      ensures Valid() && (!ok ==> !Roomy())
    {
      hide Lawful, Distinct, WellFormed, Path;
      ok := volume.room(calls, needed);
      calls := calls + 1;
    }

    /** A number only SQLite or the file system knows. */
    method Ask() returns (n: nat)
      requires Valid()
      modifies this`calls
      ensures Valid() && n == volume.number(old(calls))
    {
      hide Lawful, Distinct, WellFormed, Path;
      n := volume.number(calls);
      calls := calls + 1;
    }

    /** Insert zero blobs as large as the free list, a chunk per transaction. `None` when the disk is too full. */
    method FillFreePages(bytes: nat, policy: VacuumPolicy) returns (r: Result<bool, DbError>)
      requires Valid() && PagesFit(freelist, pageSize, bytes)
      modifies this`freelist, this`dirtyFree, this`wal, this`history, this`calls
      ensures Valid() && old(history) <= history && dirtyFree <= old(dirtyFree)
      ensures r == Ok(true) ==> dirtyFree == 0
      ensures (r.Err? ==> !Reliable()) && (r == Ok(false) ==> !Roomy())
      ensures wal ==> old(wal)
    {
      hide Lawful, Keyed, Path, Tx, PagesFit, RoundedUp;
      var remaining: nat := bytes;
      while remaining > 0
        invariant Valid() && old(history) <= history && dirtyFree <= old(dirtyFree)
        invariant PagesFit(freelist, pageSize, remaining)
        invariant wal ==> old(wal)
      {
        var chunk := if remaining < SCRUB_CHUNK_BYTES then remaining else SCRUB_CHUNK_BYTES;
        var room := HasRoom(chunk + policy.headroomBytes);
        if !room {
          return Ok(false);
        }
        var inserted := Works();
        if !inserted {
          return Err(SqlFailed);
        }
        // A blob of `chunk` bytes fills at least chunk / pageSize pages, rounded up.
        var extra := Ask();
        var pages := RoundedUp(chunk, pageSize) + extra;
        PagesCover(freelist, pages, pageSize, chunk, remaining);
        TakeFreePages(pages);
        var truncated := CheckpointTruncate();
        if !truncated {
          return Err(WalNotTruncated);
        }
        remaining := remaining - chunk;
      }
      assert freelist == 0 by { NoPagesLeft(freelist, pageSize); }
      r := Ok(true);
    }

    /** Overwrite every free page with zeros. `Ok(None)` when there is no room; on success no free page holds old plaintext. */
    method ScrubFreelist(policy: VacuumPolicy) returns (r: Result<Option<nat>, DbError>)
      requires Valid()
      modifies this`secureDelete, this`freelist, this`dirtyFree, this`wal, this`history, this`calls
      ensures Valid() && old(history) <= history && dirtyFree <= old(dirtyFree)
      ensures r.Ok? ==> secureDelete && !wal
      ensures r.Ok? && r.value.Some? ==> dirtyFree == 0
      ensures (r.Err? ==> !Reliable()) && (r == Ok(None) ==> !Roomy())
      ensures wal ==> old(wal)
      ensures old(secureDelete) && !secureDelete ==> !Reliable()
    {
      hide Lawful, Keyed, Path, Tx;
      var ready := DropScrubTable();
      if !ready {
        return Err(SqlFailed);
      }
      var freePages := freelist;
      if freePages <= 0 {
        return Ok(Some(0));
      }
      var remaining := freePages * pageSize;
      var created := Works();
      var taken := Ask();
      if !created {
        return Err(SqlFailed);
      }
      FewerPages(freePages, taken, pageSize);
      TakeFreePages(taken);
      var filled := FillFreePages(remaining, policy);
      var dropped := DropScrubTable();
      if filled.Err? {
        return Err(filled.error);
      }
      if !dropped {
        return Err(SqlFailed);
      }
      r := Ok(if filled.value then Some(freePages) else None);
    }

    /** Record that the scrub or the VACUUM is still owed. */
    method SetPending(cursor: PendingCursor)
      requires Valid() && (cursor.lastAttempt.Some? ==> Text.InI64(cursor.lastAttempt.value))
      requires cursor.scrubbed ==> dirtyFree == 0
      modifies this`store, this`history
      ensures Valid() && old(history) <= history
      ensures store == Some(StoreRowWith(old(store), VacuumPending, EncodeCursor(cursor))) && ParseCursor(store.value.cursor) == cursor
    {
      hide Lawful, Keyed, Path, EncodeCursor, ParseCursor;
      ghost var before := Now();
      PendingCursorRoundTrips(cursor);
      store := Some(StoreRowWith(store, VacuumPending, EncodeCursor(cursor)));
      assert OweTx(before, Now());
      Commit();
    }

    /** VACUUM, checkpoint, and only then `ok`. */
    method CompactNow() returns (r: Result<bool, DbError>)
      requires Valid() && dirtyFree == 0
      modifies this`store, this`freelist, this`dirtyFree, this`wal, this`partialPages, this`history, this`calls
      ensures Valid() && old(history) <= history && dirtyFree == 0
      ensures r.Ok? ==> r.value && store == Some(StoreRowWith(old(store), StoreOk, None)) && Clean(Now().residue)
      ensures r.Err? ==> store == old(store) && !Reliable()
    {
      hide Lawful, Keyed, Path, Tx;
      var vacuumed := Works();
      if !vacuumed {
        return Err(SqlFailed);
      }
      ghost var before := Now();
      // The rebuilt file keeps only live content; the old pages go when the WAL is copied back.
      freelist, dirtyFree, partialPages := 0, 0, false;
      wal := !Clean(before.residue);
      CommitCleanup(before);
      var truncated := CheckpointTruncate();
      if !truncated {
        return Err(WalNotTruncated);
      }
      before := Now();
      store := Some(StoreRowWith(store, StoreOk, None));
      CommitOk(before);
      r := Ok(true);
    }

    ghost method CommitOk(before: Durable)
      requires Lawful(c) && Distinct(plans) && pageSize > 0 && WellFormed(plans, before)
      requires history != [] && history[|history| - 1] == before && Path(c, cipher, plans, history)
      requires OkTx(before, Now())
      modifies this`history
      ensures Valid() && history == old(history) + [Now()]
    {
      hide Lawful, Keyed, Clean;
      assert Tx(c, cipher, plans, before, Now());
      Commit();
    }

    /** Scrub what a migration freed; compact now if small enough and there is room. */
    method FinishStore(policy: VacuumPolicy) returns (r: Result<FinishOutcome, DbError>)
      requires Valid() && Debt(Now())
      modifies this`store, this`secureDelete, this`freelist, this`dirtyFree, this`wal, this`partialPages, this`history, this`calls
      ensures Valid() && old(history) <= history
      ensures !old(secureDelete) ==> r == Err(SecureDeleteOff) && Now() == old(Now())
      ensures r.Ok? ==> store.Some? && r.value.vacuumPending == !r.value.vacuumed
      ensures r.Ok? ==> store.value.state == (if r.value.vacuumed then StoreOk else VacuumPending)
      ensures r.Ok? && r.value.vacuumed ==> Clean(Now().residue)
      ensures old(secureDelete) && Reliable() && Roomy() && Small(policy) ==> r.Ok? && r.value.vacuumed
      ensures r.Ok? && !r.value.vacuumed ==> !Roomy() || !Small(policy)
      ensures r.Err? && store.Some? && store.value.state == StoreOk ==> old(store).Some? && old(store).value.state == StoreOk
    {
      if !secureDelete {
        return Err(SecureDeleteOff);
      }
      hide Lawful, Keyed, Path, Tx, EncodeCursor;
      r := FinishInner(policy);
      if r.Err? {
        // Best effort: the original error is the one reported.
        var recorded := Works();
        if recorded {
          SetPending(PendingCursor(false, None));
        }
      }
    }

    method FinishInner(policy: VacuumPolicy) returns (r: Result<FinishOutcome, DbError>)
      requires Valid() && Debt(Now())
      modifies this`store, this`secureDelete, this`freelist, this`dirtyFree, this`wal, this`partialPages, this`history, this`calls
      ensures Valid() && old(history) <= history
      ensures r.Ok? ==> store.Some? && r.value.vacuumPending == !r.value.vacuumed
      ensures r.Ok? ==> store.value.state == (if r.value.vacuumed then StoreOk else VacuumPending)
      ensures r.Ok? && r.value.vacuumed ==> Clean(Now().residue)
      ensures r.Err? ==> store == old(store) && !Reliable()
      ensures r.Ok? && !r.value.vacuumed ==> !Roomy() || !Small(policy)
    {
      hide Lawful, Keyed, Path, Tx, ParseCursor, EncodeCursor;
      var truncated := CheckpointTruncate();
      if !truncated {
        return Err(WalNotTruncated);
      }
      var alreadyScrubbed := store.Some? && store.value.state == VacuumPending && ParseCursor(store.value.cursor).scrubbed;
      var scrubbed: Result<Option<nat>, DbError> := Ok(Some(0));
      if !alreadyScrubbed {
        scrubbed := ScrubFreelist(policy);
        if scrubbed.Err? {
          return Err(scrubbed.error);
        }
      }
      if scrubbed.value.None? {
        SetPending(PendingCursor(false, None));
        return Ok(FinishOutcome(0, false, true));
      }
      var size := Ask();
      var fits := HasRoom(2 * size + policy.headroomBytes);
      if size <= policy.vacuumNowMaxBytes && fits {
        var compacted := CompactNow();
        if compacted.Err? {
          return Err(compacted.error);
        }
        return Ok(FinishOutcome(scrubbed.value.value, true, false));
      }
      SetPending(PendingCursor(true, None));
      r := Ok(FinishOutcome(scrubbed.value.value, false, true));
    }

    /** A gated attempt ran less than a day ago. */
    predicate AttemptedToday(row: StoreRow, now: int) {
      ParseCursor(row.cursor).lastAttempt.Some? && now - ParseCursor(row.cursor).lastAttempt.value < 86400
    }

    /** The cleanup stays owed: for want of room, with the attempt recorded, or for the store's size, with its free pages scrubbed. */
    ghost predicate Postponed(policy: VacuumPolicy, now: int)
      reads this
    {
      && store.Some? && store.value.state == VacuumPending
      && var cursor := ParseCursor(store.value.cursor);
         (cursor.lastAttempt == Some(now) && !Roomy()) || (cursor.scrubbed && dirtyFree == 0 && !Small(policy))
    }

    /** At a start: finish what the last finish deferred, at most once a day after a refusal. */
    method RunPendingVacuum(policy: VacuumPolicy, now: int) returns (r: Result<bool, DbError>)
      requires Valid() && Debt(Now()) && Text.InI64(now)
      modifies this`store, this`secureDelete, this`freelist, this`dirtyFree, this`wal, this`partialPages, this`history, this`calls
      ensures Valid() && old(history) <= history
      ensures old(store).None? || old(store).value.state != VacuumPending ==> r == Ok(false) && Now() == old(Now())
      ensures old(store).Some? && old(store).value.state == VacuumPending ==>
                && store.Some?
                && (r == Ok(true) <==> store.value.state == StoreOk)
                && (r == Ok(true) ==> Clean(Now().residue))
      ensures old(store).Some? && old(store).value.state == VacuumPending ==>
        if AttemptedToday(old(store).value, now) then r == Ok(false) && Now() == old(Now())
        else if !old(secureDelete) then r == Err(SecureDeleteOff) && Now() == old(Now())
        else (r.Err? ==> !Reliable()) && (r == Ok(false) ==> Postponed(policy, now))
      ensures old(secureDelete) && !secureDelete ==> !Reliable()
      ensures SameRecord(old(store), store)
    {
      hide Lawful, Keyed, Path, Tx, ParseCursor, EncodeCursor, Clean, Postponed, Debt;
      if store.None? || store.value.state != VacuumPending {
        return Ok(false);
      }
      var cursor := ParseCursor(store.value.cursor);
      if cursor.lastAttempt.Some? && now - cursor.lastAttempt.value < VACUUM_RETRY_SECS {
        return Ok(false);
      }
      if !secureDelete {
        return Err(SecureDeleteOff);
      }
      r := FinishPending(policy, now);
    }

    /** Scrub, unless that is done, and VACUUM. */
    method FinishPending(policy: VacuumPolicy, now: int) returns (r: Result<bool, DbError>)
      requires Valid() && Debt(Now()) && Text.InI64(now) && secureDelete && store.Some? && store.value.state == VacuumPending
      modifies this`store, this`secureDelete, this`freelist, this`dirtyFree, this`wal, this`partialPages, this`history, this`calls
      ensures Valid() && old(history) <= history && store.Some?
      ensures (r == Ok(true) <==> store.value.state == StoreOk) && (r == Ok(true) ==> Clean(Now().residue))
      ensures (r.Err? ==> !Reliable()) && (r == Ok(false) ==> Postponed(policy, now))
      ensures old(secureDelete) && !secureDelete ==> !Reliable()
      ensures SameRecord(old(store), store)
    {
      hide Lawful, Keyed, Path, Tx, ParseCursor, EncodeCursor;
      var cursor := ParseCursor(store.value.cursor);
      CursorInRange(store.value.cursor);
      var truncated := CheckpointTruncate();
      if !truncated {
        return Err(WalNotTruncated);
      }
      if !cursor.scrubbed {
        var scrubbed := ScrubFreelist(policy);
        if scrubbed.Err? {
          return Err(scrubbed.error);
        }
        if scrubbed.value.None? {
          SetPending(cursor.(lastAttempt := Some(now)));
          return Ok(false);
        }
        cursor := PendingCursor(true, None);
        SetPending(cursor);
      }
      r := VacuumIfItFits(policy, cursor, now);
    }

    /** The VACUUM still owed after the scrub: unless the store is too large for now, or the disk too full. */
    method VacuumIfItFits(policy: VacuumPolicy, cursor: PendingCursor, now: int) returns (r: Result<bool, DbError>)
      requires Valid() && dirtyFree == 0 && store.Some? && store.value.state == VacuumPending && Text.InI64(now)
      requires cursor == ParseCursor(store.value.cursor) && cursor.scrubbed
      modifies this`store, this`freelist, this`dirtyFree, this`wal, this`partialPages, this`history, this`calls
      ensures Valid() && old(history) <= history && store.Some?
      ensures r == Ok(true) <==> store.value.state == StoreOk
      ensures r == Ok(true) ==> Clean(Now().residue)
      ensures (r.Err? ==> !Reliable()) && (r == Ok(false) ==> Postponed(policy, now))
      ensures SameRecord(old(store), store)
    {
      hide Lawful, Keyed, Path, Tx, ParseCursor, EncodeCursor;
      var size := Ask();
      if size > policy.vacuumNowMaxBytes {
        return Ok(false);
      }
      var fits := HasRoom(2 * size + policy.headroomBytes);
      if !fits {
        SetPending(cursor.(lastAttempt := Some(now)));
        return Ok(false);
      }
      r := CompactNow();
    }

    // ── A new root ───────────────────────────────────────────────────────────

    /** Mark every planned item as not finished, so the next run walks them all. */
    method ResetItems() returns (ok: bool)
      requires Valid()
      modifies this`items, this`history, this`calls
      ensures Valid() && old(history) <= history
      ensures !ok ==> !Reliable()
      ensures ok ==> forall p :: 0 <= p < |plans| ==> plans[p].item in items && items[plans[p].item] == ItemRow(ItemPending, None)
      ensures forall item :: item in items && (forall p :: 0 <= p < |plans| ==> plans[p].item != item) ==>
                item in old(items) && items[item] == old(items)[item]
    {
      hide Lawful, Keyed, Path, Tx, Distinct, WellFormed, ResetTx;
      for k := 0 to |plans|
        invariant Valid() && old(history) <= history
        invariant forall p :: 0 <= p < k ==> plans[p].item in items && items[plans[p].item] == ItemRow(ItemPending, None)
        invariant forall item :: item in items && (forall p :: 0 <= p < |plans| ==> plans[p].item != item) ==>
                    item in old(items) && items[item] == old(items)[item]
      {
        ok := Works();
        if !ok {
          return;
        }
        ghost var before := Now();
        items := items[plans[k].item := ItemRow(ItemPending, None)];
        assert ResetTx(plans[k], before, Now()) by { ResetIs(plans[k], before, Now()); }
        ProvePlanTx(plans[k], before);
        Commit();
      }
      ok := true;
    }

    /**
      After adopting a new root: from a reset, on a store recorded under a
      retired root whose items are all planned, an uninterrupted run moves the
      record to the current root if and only if it met no unreadable value; and
      then every value reads as before with the retired keys removed.
     */
    method ResealUnderCurrentRoot(nonces: nat -> Nonce) returns (r: Result<MigrationReport, DbError>)
      requires Valid() && secureDelete && plans != []
      requires store.Some? && store.value.minReader <= SUPPORTED_MIN_READER && store.value.kcv.Some?
      requires MatchKcv(cipher, store.value.kcv.value) == MatchesRetired
      requires forall p :: 0 <= p < |plans| ==> plans[p].item in columns
      requires AllPlanned(plans, items)
      modifies this
      ensures Valid() && old(history) <= history
      ensures r.Err? ==> !Reliable()
      ensures r.Ok? ==> (store.Some? && store.value.kcv == Some(cipher.current.rootKcv) <==> r.value.unreadable == 0)
      ensures r.Ok? ==> (r.value.unreadable == 0 <==> NoneStuck(c, cipher, plans, old(columns)))
      ensures r.Ok? && r.value.unreadable == 0 ==> AllReadWithoutRetired(c, cipher, plans, old(columns), columns)
    {
      hide Lawful, Keyed, Path, Tx, WellFormed, Progress, Tally, TallyPlans, AllReadWithoutRetired, NoneStuck, MatchKcv, Resumable, AllItemsSealed, AnyUnfinished, AllRecorded, AllPlanned, Migratable, MovesBefore;
      var ok := ResetItems();
      if !ok {
        return Err(SqlFailed);
      }
      ghost var reset := |history| - 1;
      ghost var before := Now();
      AfterReset(c, cipher, plans, before);
      r := MigrateColumns(nonces);
      if r.Err? {
        return;
      }
      SealedIfPlanned(plans, old(items), Now());
      NotCurrent(cipher, before.store.value.kcv.value);
      ReadsSince(reset);
    }

    /** Since a reset with no stuck value, every value reads as it did then. */
    lemma ReadsSince(reset: nat)
      requires Valid() && reset < |history| && forall p :: 0 <= p < |plans| ==> ItemFinished(plans[p], Now())
      requires WellFormed(plans, history[reset]) && forall p :: 0 <= p < |plans| ==>
        plans[p].item in history[reset].columns && plans[p].item in history[reset].items && history[reset].items[plans[p].item] == ItemRow(ItemPending, None)
      ensures AllReadWithoutRetired(c, cipher, plans, history[reset].columns, columns) <==> NoneStuck(c, cipher, plans, history[reset].columns)
    {
      hide Lawful, Keyed, Path, Tx, WellFormed, Progress, AllReadWithoutRetired, NoneStuck, ItemFinished;
      PathTail(c, cipher, plans, history, reset);
      assert history[reset..][0] == history[reset];
      ResetHasProgress(c, cipher, plans, history[reset]);
      EveryValueReads(c, cipher, plans, history[reset..], history[reset], Now());
    }
  }

  lemma ResetIs(plan: ColumnPlan, d: Durable, e: Durable)
    requires e == d.(items := d.items[plan.item := ItemRow(ItemPending, None)])
    ensures ResetTx(plan, d, e)
  {
  }

  /** No planned value is stuck. */
  ghost predicate NoneStuck(c: Crypto, cipher: Cipher, plans: seq<ColumnPlan>, columns: map<string, seq<Row>>) {
    forall p, i :: 0 <= p < |plans| && plans[p].item in columns && 0 <= i < |columns[plans[p].item]| ==>
      RowVerdict(c, cipher, plans[p], columns[plans[p].item][i]) != Stuck
  }

  /** Every planned value reads as it did, needing no retired key. */
  ghost predicate AllReadWithoutRetired(c: Crypto, cipher: Cipher, plans: seq<ColumnPlan>, before: map<string, seq<Row>>, after: map<string, seq<Row>>) {
    forall p :: 0 <= p < |plans| && plans[p].item in before ==>
      plans[p].item in after && ColumnReads(c, cipher, plans[p], before[plans[p].item], after[plans[p].item])
  }

  ghost predicate ColumnReads(c: Crypto, cipher: Cipher, plan: ColumnPlan, before: seq<Row>, after: seq<Row>) {
    |after| == |before| && forall i :: 0 <= i < |before| ==> ReadsWithoutRetired(c, cipher, plan, before[i], after[i])
  }

  lemma SealedIfPlanned(plans: seq<ColumnPlan>, before: map<string, ItemRow>, d: Durable)
    requires forall p :: 0 <= p < |plans| ==> ItemFinished(plans[p], d)
    requires forall item :: item in d.items && (forall p :: 0 <= p < |plans| ==> plans[p].item != item) ==> item in before
    ensures AllPlanned(plans, before) ==> AllItemsSealed(d.items)
  {
    if AllPlanned(plans, before) {
      forall item | item in d.items ensures d.items[item].state == ItemSealed {
        var p :| 0 <= p < |plans| && plans[p].item == item;
        assert ItemFinished(plans[p], d);
      }
    }
  }

  lemma NotCurrent(cipher: Cipher, kcv: string)
    requires MatchKcv(cipher, kcv) == MatchesRetired
    ensures kcv != cipher.current.rootKcv
  {
  }

  lemma PathTail(c: Crypto, cipher: Cipher, plans: seq<ColumnPlan>, ds: seq<Durable>, from: nat)
    requires Path(c, cipher, plans, ds) && from <= |ds|
    ensures Path(c, cipher, plans, ds[from..])
  {
    hide Tx;
    forall i | 0 <= i < |ds[from..]| - 1 ensures Tx(c, cipher, plans, ds[from..][i], ds[from..][i + 1]) {
      assert Tx(c, cipher, plans, ds[from + i], ds[from + i + 1]);
    }
  }

  /** `pages` free pages hold at most `bytes` bytes. */
  predicate PagesFit(pages: nat, pageSize: nat, bytes: nat) {
    pages * pageSize <= bytes
  }

  /** The pages that a blob of `bytes` bytes fills, the last one in part. */
  function RoundedUp(bytes: nat, pageSize: nat): nat
    requires pageSize > 0
  {
    (bytes + pageSize - 1) / pageSize
  }

  lemma PagesCover(freelist: nat, pages: nat, pageSize: nat, chunk: nat, remaining: nat)
    requires pageSize > 0 && chunk <= remaining && PagesFit(freelist, pageSize, remaining)
    requires pages >= RoundedUp(chunk, pageSize)
    ensures PagesFit(if pages <= freelist then freelist - pages else 0, pageSize, remaining - chunk)
  {
    var q := RoundedUp(chunk, pageSize);
    assert q * pageSize >= chunk;
    assert pages * pageSize >= q * pageSize;
    if pages <= freelist {
      assert (freelist - pages) * pageSize == freelist * pageSize - pages * pageSize;
    }
  }

  lemma NoPagesLeft(freelist: nat, pageSize: nat)
    requires pageSize > 0 && PagesFit(freelist, pageSize, 0)
    ensures freelist == 0
  {
  }

  lemma FewerPages(freelist: nat, taken: nat, pageSize: nat)
    ensures (if taken <= freelist then freelist - taken else 0) * pageSize <= freelist * pageSize
  {
  }

  lemma CursorInRange(cursor: Option<string>)
    ensures var p := ParseCursor(cursor); p.lastAttempt.Some? ==> Text.InI64(p.lastAttempt.value)
  {
  }

  /** The new cell is empty or an envelope the current key opens, and reads as the original did without the retired keys. */
  ghost predicate ReadsWithoutRetired(c: Crypto, cipher: Cipher, plan: ColumnPlan, before: Row, after: Row) {
    var context := RowContext(plan, before);
    && EnvelopeOrEmpty(c, cipher, plan.kind, after.cell, context)
    && ReadingOf(c, cipher.(retired := []), plan.kind, after.cell, context) == ReadingOf(c, cipher, plan.kind, before.cell, context)
  }

  lemma AfterReset(c: Crypto, cipher: Cipher, plans: seq<ColumnPlan>, d: Durable)
    requires forall p :: 0 <= p < |plans| ==> plans[p].item in d.columns && plans[p].item in d.items && d.items[plans[p].item] == ItemRow(ItemPending, None)
    requires d.store.Some? && d.store.value.minReader <= SUPPORTED_MIN_READER && d.store.value.kcv.Some?
    requires MatchKcv(cipher, d.store.value.kcv.value) == MatchesRetired
    ensures Migratable(cipher, plans, d)
    ensures plans != [] ==> AnyUnfinished(plans, d)
    ensures AllRecorded(plans, d)
    ensures TallyPlans(c, cipher, plans, d).unreadable == 0 <==> NoneStuck(c, cipher, plans, d.columns)
  {
    hide TallyPlans, RowVerdict, MatchKcv;
    if plans != [] {
      assert !ItemFinished(plans[0], d);
    }
    assert forall p :: 0 <= p < |plans| ==> Visited(plans[p], d) == d.columns[plans[p].item];
    TallyPlansUnreadable(c, cipher, plans, d);
  }

  lemma ResetHasProgress(c: Crypto, cipher: Cipher, plans: seq<ColumnPlan>, d: Durable)
    requires forall p :: 0 <= p < |plans| ==> plans[p].item in d.columns && plans[p].item in d.items && d.items[plans[p].item] == ItemRow(ItemPending, None)
    ensures forall p :: 0 <= p < |plans| ==> Progress(c, cipher, plans[p], d)
  {
  }

  lemma {:induction false} TallyUnreadable(c: Crypto, cipher: Cipher, plan: ColumnPlan, rows: seq<Row>, report: MigrationReport)
    ensures var r := Tally(c, cipher, plan, rows, report);
            && r.unreadable >= report.unreadable
            && (r.unreadable == report.unreadable <==> forall i :: 0 <= i < |rows| ==> RowVerdict(c, cipher, plan, rows[i]) != Stuck)
  {
    hide VerdictOf;
    if rows != [] {
      var init := rows[..|rows| - 1];
      TallyUnreadable(c, cipher, plan, init, report);
      assert forall i :: 0 <= i < |init| ==> init[i] == rows[i];
      assert rows[|rows| - 1] == rows[|init|];
    }
  }

  /** A run meets an unreadable value exactly when a row it visits is stuck. */
  lemma {:induction false} TallyPlansUnreadable(c: Crypto, cipher: Cipher, plans: seq<ColumnPlan>, d: Durable)
    ensures TallyPlans(c, cipher, plans, d).unreadable == 0
       <==> forall p, i :: 0 <= p < |plans| && 0 <= i < |Visited(plans[p], d)| ==> RowVerdict(c, cipher, plans[p], Visited(plans[p], d)[i]) != Stuck
  {
    hide Tally, VerdictOf, ResumeAt, Resumable;
    if plans != [] {
      var n := |plans| - 1;
      var init := plans[..n];
      TallyPlansUnreadable(c, cipher, init, d);
      TallyUnreadable(c, cipher, plans[n], Visited(plans[n], d), TallyPlans(c, cipher, init, d));
      assert forall p :: 0 <= p < n ==> init[p] == plans[p];
    }
  }

  /** A run that finishes every item, from a state that overstates nothing: what was not stuck reads as before, without the retired keys. */
  lemma EveryValueReads(c: Crypto, cipher: Cipher, plans: seq<ColumnPlan>, ds: seq<Durable>, d: Durable, e: Durable)
    requires Distinct(plans) && WellFormed(plans, d) && Path(c, cipher, plans, ds) && ds != [] && ds[0] == d && ds[|ds| - 1] == e
    requires forall p :: 0 <= p < |plans| ==> Progress(c, cipher, plans[p], d)
    requires forall p :: 0 <= p < |plans| ==> ItemFinished(plans[p], e)
    ensures AllReadWithoutRetired(c, cipher, plans, d.columns, e.columns) <==> NoneStuck(c, cipher, plans, d.columns)
  {
    hide Path, ReadsWithoutRetired, WellFormed, RowVerdict, Progress;
    PathKeepsMeaning(c, cipher, plans, ds, |ds| - 1);
    forall p, i | 0 <= p < |plans| && plans[p].item in d.columns && 0 <= i < |d.columns[plans[p].item]|
      ensures ColumnKept(c, cipher, plans[p], d.columns[plans[p].item], e.columns[plans[p].item])
      ensures ReadsWithoutRetired(c, cipher, plans[p], d.columns[plans[p].item][i], e.columns[plans[p].item][i])
         <==> RowVerdict(c, cipher, plans[p], d.columns[plans[p].item][i]) != Stuck
    {
      assert ColumnKept(c, cipher, plans[p], d.columns[plans[p].item], e.columns[plans[p].item]);
      ValueReads(c, cipher, plans, ds, d, e, p, i);
    }
    if AllReadWithoutRetired(c, cipher, plans, d.columns, e.columns) {
      forall p, i | 0 <= p < |plans| && plans[p].item in d.columns && 0 <= i < |d.columns[plans[p].item]|
        ensures RowVerdict(c, cipher, plans[p], d.columns[plans[p].item][i]) != Stuck
      {
        assert ColumnReads(c, cipher, plans[p], d.columns[plans[p].item], e.columns[plans[p].item]);
      }
    }
    if NoneStuck(c, cipher, plans, d.columns) {
      forall p | 0 <= p < |plans| && plans[p].item in d.columns
        ensures plans[p].item in e.columns && ColumnReads(c, cipher, plans[p], d.columns[plans[p].item], e.columns[plans[p].item])
      {
        assert ColumnKept(c, cipher, plans[p], d.columns[plans[p].item], e.columns[plans[p].item]);
        forall i | 0 <= i < |d.columns[plans[p].item]|
          ensures ReadsWithoutRetired(c, cipher, plans[p], d.columns[plans[p].item][i], e.columns[plans[p].item][i])
        {
          assert RowVerdict(c, cipher, plans[p], d.columns[plans[p].item][i]) != Stuck;
        }
      }
    }
  }

  lemma ValueReads(c: Crypto, cipher: Cipher, plans: seq<ColumnPlan>, ds: seq<Durable>, d: Durable, e: Durable, p: nat, i: nat)
    requires Distinct(plans) && WellFormed(plans, d) && Path(c, cipher, plans, ds) && ds != [] && ds[0] == d && ds[|ds| - 1] == e
    requires forall p :: 0 <= p < |plans| ==> Progress(c, cipher, plans[p], d)
    requires p < |plans| && plans[p].item in d.columns && ItemFinished(plans[p], e) && i < |d.columns[plans[p].item]|
    ensures plans[p].item in e.columns && i < |e.columns[plans[p].item]|
    ensures ReadsWithoutRetired(c, cipher, plans[p], d.columns[plans[p].item][i], e.columns[plans[p].item][i])
       <==> RowVerdict(c, cipher, plans[p], d.columns[plans[p].item][i]) != Stuck
  {
    hide Path, VerdictOf, ReadingOf, WellFormed, Progress, EnvelopeOrEmpty;
    SealedItemIsSealed(c, cipher, plans, ds, p, i);
    var row := d.columns[plans[p].item][i];
    if RowVerdict(c, cipher, plans[p], row) == Stuck {
      PathKeepsStuck(c, cipher, plans, ds, |ds| - 1, p, i);
      FinishedIff(c, cipher, plans[p].kind, row.cell, RowContext(plans[p], row));
    }
  }

  /** The item's row and column are the same in both states. */
  ghost predicate SameItem(plan: ColumnPlan, d: Durable, e: Durable) {
    && (plan.item in d.items <==> plan.item in e.items)
    && (plan.item in d.items ==> e.items[plan.item] == d.items[plan.item])
    && (plan.item in d.columns <==> plan.item in e.columns)
    && (plan.item in d.columns ==> e.columns[plan.item] == d.columns[plan.item])
  }

  /** Half way through a run: the first `k` items are done, the others untouched. */
  ghost predicate MidRun(plans: seq<ColumnPlan>, d: Durable, e: Durable, k: nat) {
    && (forall p :: 0 <= p < k && p < |plans| ==> Resumable(plans[p], d) && ItemFinished(plans[p], e))
    && (forall p :: k <= p < |plans| ==> SameItem(plans[p], d, e))
    && d.items.Keys <= e.items.Keys
    && (forall item :: item in e.items && (forall p :: 0 <= p < |plans| ==> plans[p].item != item) ==>
          item in d.items && e.items[item] == d.items[item])
  }

  lemma MidRunStart(plans: seq<ColumnPlan>, d: Durable)
    ensures MidRun(plans, d, d, 0)
  {
  }

  lemma MidRunItem(plans: seq<ColumnPlan>, d: Durable, e: Durable, k: nat)
    requires MidRun(plans, d, e, k) && k < |plans|
    ensures var plan := plans[k];
            && (plan.item in e.items <==> plan.item in d.items)
            && (ItemFinished(plan, e) <==> ItemFinished(plan, d))
            && (Resumable(plan, e) <==> Resumable(plan, d)) && Visited(plan, e) == Visited(plan, d)
  {
    assert SameItem(plans[k], d, e);
  }

  lemma MidRunStep(plans: seq<ColumnPlan>, d: Durable, e: Durable, f: Durable, k: nat)
    requires Distinct(plans) && MidRun(plans, d, e, k) && k < |plans|
    requires (f == e && ItemFinished(plans[k], e))
          || (Resumable(plans[k], e) && plans[k].item in f.columns && plans[k].item in e.columns
              && f.items == e.items[plans[k].item := ItemRow(ItemSealed, None)]
              && f.columns == e.columns[plans[k].item := f.columns[plans[k].item]])
    ensures MidRun(plans, d, f, k + 1)
  {
    hide ResumeAt, Resumable;
    forall p | k + 1 <= p < |plans| ensures SameItem(plans[p], d, f) {
      assert SameItem(plans[p], d, e) && plans[p].item != plans[k].item;
    }
    ResumableThrough(plans[k], d, e);
    forall p | 0 <= p < k + 1 && p < |plans| ensures Resumable(plans[p], d) && ItemFinished(plans[p], f) {
      assert p < k ==> plans[p].item != plans[k].item;
    }
  }

  lemma ResumableThrough(plan: ColumnPlan, d: Durable, e: Durable)
    requires SameItem(plan, d, e)
    ensures Resumable(plan, e) ==> Resumable(plan, d)
    ensures ItemFinished(plan, e) ==> Resumable(plan, d)
  {
    hide ResumeAt;
  }

  /** After the first `k` items, all are sealed exactly if no other item with a state row was left at the start. */
  lemma MidRunSealed(plans: seq<ColumnPlan>, d: Durable, e: Durable, k: nat)
    requires Distinct(plans) && MidRun(plans, d, e, k) && k <= |plans|
    ensures AllItemsSealed(e.items) <==> OnlyFirstLeft(plans, d, k)
  {
    hide MidRun, Resumable;
    if AllItemsSealed(e.items) {
      forall item | item in d.items && d.items[item].state != ItemSealed ensures exists p :: 0 <= p < k && plans[p].item == item {
        LeftIsFirst(plans, d, e, k, item);
      }
    }
    if OnlyFirstLeft(plans, d, k) {
      forall item | item in e.items ensures e.items[item].state == ItemSealed {
        SealedSinceStart(plans, d, e, k, item);
      }
    }
  }

  lemma LeftIsFirst(plans: seq<ColumnPlan>, d: Durable, e: Durable, k: nat, item: string)
    requires MidRun(plans, d, e, k) && k <= |plans| && AllItemsSealed(e.items) && item in d.items && d.items[item].state != ItemSealed
    ensures exists p :: 0 <= p < k && plans[p].item == item
  {
    hide Resumable;
    assert item in e.items && e.items[item] != d.items[item];
    var p :| 0 <= p < |plans| && plans[p].item == item;
    assert k <= p ==> SameItem(plans[p], d, e);
  }

  lemma SealedSinceStart(plans: seq<ColumnPlan>, d: Durable, e: Durable, k: nat, item: string)
    requires Distinct(plans) && MidRun(plans, d, e, k) && k <= |plans| && OnlyFirstLeft(plans, d, k) && item in e.items
    ensures e.items[item].state == ItemSealed
  {
    hide Resumable;
    if exists p :: 0 <= p < |plans| && plans[p].item == item {
      var p :| 0 <= p < |plans| && plans[p].item == item;
      assert p < k ==> ItemFinished(plans[p], e);
      assert k <= p ==> SameItem(plans[p], d, e) && forall q :: 0 <= q < k ==> plans[q].item != item;
    }
  }

  lemma NoMoveYet(c: Crypto, cipher: Cipher, plans: seq<ColumnPlan>, d: Durable)
    ensures !MovesBefore(c, cipher, plans, d, 0)
  {
  }

  lemma OneMoreMove(c: Crypto, cipher: Cipher, plans: seq<ColumnPlan>, d: Durable, k: nat)
    ensures MovesBefore(c, cipher, plans, d, k + 1) <==> MovesBefore(c, cipher, plans, d, k) || MovesAt(c, cipher, plans, d, k)
  {
    hide MovesAt;
  }

  lemma MovesIgnoreStore(c: Crypto, cipher: Cipher, plans: seq<ColumnPlan>, d: Durable, e: Durable, n: nat)
    requires e.columns == d.columns && e.items == d.items
    ensures MovesBefore(c, cipher, plans, e, n) <==> MovesBefore(c, cipher, plans, d, n)
  {
    hide MovesAt;
    forall k: nat | k < n ensures MovesAt(c, cipher, plans, e, k) <==> MovesAt(c, cipher, plans, d, k) {
      MovesAtIgnoresStore(c, cipher, plans, d, e, k);
    }
  }

  lemma MovesAtIgnoresStore(c: Crypto, cipher: Cipher, plans: seq<ColumnPlan>, d: Durable, e: Durable, k: nat)
    requires e.columns == d.columns && e.items == d.items
    ensures MovesAt(c, cipher, plans, e, k) <==> MovesAt(c, cipher, plans, d, k)
  {
    hide TallyPlans;
    if k < |plans| {
      TallyPlansIgnoresStore(c, cipher, plans[..k + 1], d, e);
    }
  }

  /** What a run that succeeded from `d` leaves in the item table. */
  predicate RanFrom(plans: seq<ColumnPlan>, d: Durable, items: map<string, ItemRow>) {
    && d.items.Keys <= items.Keys
    && (forall p :: 0 <= p < |plans| ==> plans[p].item in items && items[plans[p].item].state == ItemSealed)
    && (forall item :: item in items && (forall p :: 0 <= p < |plans| ==> plans[p].item != item) ==>
          item in d.items && items[item] == d.items[item])
  }

  /** With a state row for every plan, the record can only move when the last unfinished plan is. */
  lemma MovesWhenRecorded(c: Crypto, cipher: Cipher, plans: seq<ColumnPlan>, d: Durable, items: map<string, ItemRow>)
    requires Distinct(plans) && AllRecorded(plans, d) && RanFrom(plans, d, items)
    ensures MovesBefore(c, cipher, plans, d, |plans|)
       <==> AnyUnfinished(plans, d) && TallyPlans(c, cipher, plans, d).unreadable == 0 && AllItemsSealed(items)
  {
    hide TallyPlans, RanFrom, OnlyFirstLeft;
    if AnyUnfinished(plans, d) {
      var last := LastUnfinished(plans, d);
      TallyPrefix(c, cipher, plans, d, last + 1);
      SealedIfOnlyFirstLeft(plans, d, items, last);
      if MovesBefore(c, cipher, plans, d, |plans|) {
        var k :| 0 <= k < |plans| && MovesAt(c, cipher, plans, d, k);
        MovesAtLast(c, cipher, plans, d, k, last);
      }
      assert TallyPlans(c, cipher, plans, d).unreadable == 0 && AllItemsSealed(items) ==> MovesAt(c, cipher, plans, d, last);
    }
  }

  lemma SealedIfOnlyFirstLeft(plans: seq<ColumnPlan>, d: Durable, items: map<string, ItemRow>, last: nat)
    requires last < |plans| && (forall p :: last < p < |plans| ==> ItemFinished(plans[p], d)) && RanFrom(plans, d, items)
    ensures OnlyFirstLeft(plans, d, last + 1) <==> AllItemsSealed(items)
  {
    if AllItemsSealed(items) {
      forall item | item in d.items && d.items[item].state != ItemSealed ensures exists p :: 0 <= p < last + 1 && plans[p].item == item {
        assert item in items && items[item] != d.items[item];
        var p :| 0 <= p < |plans| && plans[p].item == item;
        assert !ItemFinished(plans[p], d);
      }
    }
  }

  lemma MovesAtLast(c: Crypto, cipher: Cipher, plans: seq<ColumnPlan>, d: Durable, k: nat, last: nat)
    requires Distinct(plans) && AllRecorded(plans, d) && MovesAt(c, cipher, plans, d, k)
    requires last < |plans| && !ItemFinished(plans[last], d) && forall p :: last < p < |plans| ==> ItemFinished(plans[p], d)
    ensures k == last
  {
    hide TallyPlans;
    assert plans[last].item in d.items && d.items[plans[last].item].state != ItemSealed;
  }

  lemma {:induction false} LastUnfinished(plans: seq<ColumnPlan>, d: Durable) returns (last: nat)
    requires AnyUnfinished(plans, d)
    ensures last < |plans| && !ItemFinished(plans[last], d) && forall p :: last < p < |plans| ==> ItemFinished(plans[p], d)
  {
    last := |plans| - 1;
    while ItemFinished(plans[last], d)
      invariant last < |plans| && forall p :: last < p < |plans| ==> ItemFinished(plans[p], d)
      decreases last
    {
      last := last - 1;
    }
  }

  /** Plans only add to what was unreadable, and finished ones add nothing. */
  lemma {:induction false} TallyPrefix(c: Crypto, cipher: Cipher, plans: seq<ColumnPlan>, d: Durable, k: nat)
    requires k <= |plans|
    ensures TallyPlans(c, cipher, plans[..k], d).unreadable <= TallyPlans(c, cipher, plans, d).unreadable
    ensures (forall p :: k <= p < |plans| ==> ItemFinished(plans[p], d)) ==>
      TallyPlans(c, cipher, plans[..k], d).unreadable == TallyPlans(c, cipher, plans, d).unreadable
    decreases |plans|
  {
    hide Tally, Visited, ItemFinished;
    if k == |plans| {
      assert plans[..k] == plans;
    } else {
      var n := |plans| - 1;
      assert plans[..n][..k] == plans[..k] && forall p :: 0 <= p < n ==> plans[..n][p] == plans[p];
      TallyPrefix(c, cipher, plans[..n], d, k);
      TallyUnreadable(c, cipher, plans[n], Visited(plans[n], d), TallyPlans(c, cipher, plans[..n], d));
    }
  }

  lemma MidRunEnd(plans: seq<ColumnPlan>, d: Durable, e: Durable)
    requires MidRun(plans, d, e, |plans|)
    ensures d.items.Keys <= e.items.Keys
    ensures forall p :: 0 <= p < |plans| ==> Resumable(plans[p], d) && ItemFinished(plans[p], e)
    ensures forall item :: item in e.items && (forall p :: 0 <= p < |plans| ==> plans[p].item != item) ==>
              item in d.items && e.items[item] == d.items[item]
  {
  }
}
