/**
  The durable state of a sealed store, every committed step that may change it,
  and what holds along every sequence of such steps. A crash leaves a store in
  some committed state; a rerun continues from there. So what holds along every
  path holds across every crash and rerun.
 */
module ContentStates {
  import opened Wrappers
  import opened ContentContexts
  import opened ContentCiphers
  import opened ContentCells
  import opened ContentEnvelopes
  import Text

  const BATCH_SIZE := 500
  const SUPPORTED_MIN_READER := 2

  // ── Rows and order keys ────────────────────────────────────────────────────

  datatype KeyKind = TextKeys | IntegerKeys

  datatype SqlKey = IntKey(n: int) | TextKey(s: string)

  predicate KeyLess(a: SqlKey, b: SqlKey) {
    match (a, b)
    case (IntKey(m), IntKey(n)) => m < n
    case (IntKey(_), TextKey(_)) => true
    case (TextKey(_), IntKey(_)) => false
    case (TextKey(s), TextKey(t)) => Text.StringLess(s, t)
  }

  lemma KeyOrder(a: SqlKey, b: SqlKey)
    ensures !KeyLess(a, a) && !(KeyLess(a, b) && KeyLess(b, a))
    ensures a == b || KeyLess(a, b) || KeyLess(b, a)
  {
    if a.TextKey? && b.TextKey? {
      Text.StringLessTotal(a.s, b.s);
    }
    if a.TextKey? {
      Text.StringLessTotal(a.s, a.s);
    }
  }

  /** A row of one planned column: its order key, its context columns, its cell. */
  datatype Row = Row(key: SqlKey, extras: seq<string>, cell: Cell)

  /** `table.column`, its key, and the context builder over the key and context columns. */
  datatype ColumnPlan = ColumnPlan(item: string, keyKind: KeyKind, kind: ColumnKind, contextOf: (string, seq<string>) -> Context)

  function RenderKey(key: SqlKey): string {
    match key
    case IntKey(n) => Text.PrintInt(n)
    case TextKey(s) => s
  }

  function CursorKey(kind: KeyKind, cursor: string): Option<SqlKey> {
    match kind
    case TextKeys => Some(TextKey(cursor))
    case IntegerKeys =>
      match Text.ParseI64(cursor)
      case None => None
      case Some(n) => Some(IntKey(n))
  }

  predicate KeyFits(kind: KeyKind, key: SqlKey) {
    match kind
    case TextKeys => key.TextKey?
    case IntegerKeys => key.IntKey? && Text.InI64(key.n)
  }

  lemma CursorRoundTrips(kind: KeyKind, key: SqlKey)
    requires KeyFits(kind, key)
    ensures CursorKey(kind, RenderKey(key)) == Some(key)
  {
    if key.IntKey? {
      Text.ParsesI64(key.n);
    }
  }

  function RowContext(plan: ColumnPlan, row: Row): Context {
    plan.contextOf(RenderKey(row.key), row.extras)
  }

  /** A primary key: unique, ordered, of the planned kind. */
  ghost predicate Keyed(plan: ColumnPlan, rows: seq<Row>) {
    && (forall i :: 0 <= i < |rows| ==> KeyFits(plan.keyKind, rows[i].key))
    && (forall i, j :: 0 <= i < j < |rows| ==> KeyLess(rows[i].key, rows[j].key))
  }

  /** How many rows `WHERE key > k` skips. */
  function RowsUpTo(rows: seq<Row>, k: SqlKey): (n: nat)
    ensures n <= |rows|
  {
    if rows == [] || KeyLess(k, rows[0].key) then 0 else 1 + RowsUpTo(rows[1..], k)
  }

  lemma {:induction false} RowsUpToKey(plan: ColumnPlan, rows: seq<Row>, i: nat)
    requires Keyed(plan, rows) && i < |rows|
    ensures RowsUpTo(rows, rows[i].key) == i + 1
    decreases i
  {
    KeyOrder(rows[0].key, rows[i].key);
    if i == 0 {
      if |rows| > 1 {
        assert KeyLess(rows[0].key, rows[1].key);
      }
    } else {
      assert Keyed(plan, rows[1..]);
      RowsUpToKey(plan, rows[1..], i - 1);
    }
  }

  lemma {:induction false} RowsUpToSameKeys(rows: seq<Row>, other: seq<Row>, k: SqlKey)
    requires |rows| == |other| && forall i :: 0 <= i < |rows| ==> rows[i].key == other[i].key
    ensures RowsUpTo(rows, k) == RowsUpTo(other, k)
  {
    if rows != [] {
      RowsUpToSameKeys(rows[1..], other[1..], k);
    }
  }

  /** Where the migration resumes; `None` for a cursor that does not parse. */
  function ResumeAt(plan: ColumnPlan, rows: seq<Row>, cursor: Option<string>): (r: Option<nat>)
    ensures r.Some? ==> r.value <= |rows|
  {
    match cursor
    case None => Some(0)
    case Some(text) =>
      match CursorKey(plan.keyKind, text)
      case None => None
      case Some(k) => Some(RowsUpTo(rows, k))
  }

  // ── The state tables ───────────────────────────────────────────────────────

  datatype ItemState = ItemPending | ItemSealing | ItemSealed

  datatype ItemRow = ItemRow(state: ItemState, cursor: Option<string>)

  datatype StoreState = StoreOk | VacuumPending

  /** The `__store__` row. */
  datatype StoreRow = StoreRow(state: StoreState, cursor: Option<string>, kcv: Option<string>, minReader: int)

  /** The store row's cursor: whether the free pages are scrubbed, and when a gated attempt last ran. */
  datatype PendingCursor = PendingCursor(scrubbed: bool, lastAttempt: Option<int>)

  const SCRUBBED_CURSOR := "scrubbed"

  function ParseCursor(cursor: Option<string>): PendingCursor {
    match cursor
    case None => PendingCursor(false, None)
    case Some(text) =>
      match Text.StripPrefix(text, SCRUBBED_CURSOR)
      case Some(rest) =>
        PendingCursor(true, match Text.StripPrefix(rest, ":")
                            case None => None
                            case Some(at) => Text.ParseI64(at))
      case None => PendingCursor(false, Text.ParseI64(text))
  }

  function EncodeCursor(p: PendingCursor): Option<string> {
    match (p.scrubbed, p.lastAttempt)
    case (false, None) => None
    case (false, Some(at)) => Some(Text.PrintInt(at))
    case (true, None) => Some(SCRUBBED_CURSOR)
    case (true, Some(at)) => Some(SCRUBBED_CURSOR + ":" + Text.PrintInt(at))
  }

  lemma PendingCursorRoundTrips(p: PendingCursor)
    requires p.lastAttempt.Some? ==> Text.InI64(p.lastAttempt.value)
    ensures ParseCursor(EncodeCursor(p)) == p
  {
    if p.lastAttempt.Some? {
      var at := Text.PrintInt(p.lastAttempt.value);
      Text.ParsesI64(p.lastAttempt.value);
      if p.scrubbed {
        var text := SCRUBBED_CURSOR + ":" + at;
        assert text[|SCRUBBED_CURSOR|..] == ":" + at;
        assert (":" + at)[1..] == at;
      } else {
        assert at[0] == '-' || Text.IsDigit(at[0]);
        assert !(SCRUBBED_CURSOR <= at);
      }
    }
  }

  /** Where old plaintext may still lie outside live cells. */
  datatype Residue = Residue(wal: bool, freelist: nat, dirtyFree: nat, partialPages: bool)

  predicate Clean(r: Residue) {
    !r.wal && r.dirtyFree == 0 && !r.partialPages
  }

  datatype Durable = Durable(columns: map<string, seq<Row>>, items: map<string, ItemRow>, store: Option<StoreRow>, residue: Residue)

  ghost predicate WellFormed(plans: seq<ColumnPlan>, d: Durable) {
    && d.residue.dirtyFree <= d.residue.freelist
    && forall i :: 0 <= i < |plans| && plans[i].item in d.columns ==> Keyed(plans[i], d.columns[plans[i].item])
  }

  ghost predicate Distinct(plans: seq<ColumnPlan>) {
    forall i, j :: 0 <= i < j < |plans| ==> plans[i].item != plans[j].item
  }

  function StoreRowWith(store: Option<StoreRow>, state: StoreState, cursor: Option<string>): StoreRow {
    match store
    case Some(row) => row.(state := state, cursor := cursor)
    case None => StoreRow(state, cursor, None, SUPPORTED_MIN_READER)
  }

  function RecordedKcv(store: Option<StoreRow>, kcv: string): StoreRow {
    match store
    case Some(row) =>
      row.(kcv := Some(kcv), minReader := if row.minReader < SUPPORTED_MIN_READER then SUPPORTED_MIN_READER else row.minReader)
    case None => StoreRow(StoreOk, None, Some(kcv), SUPPORTED_MIN_READER)
  }

  /** Owe the scrub again, keeping the last attempt but forgetting a finished scrub. */
  function ScrubOwedRow(store: Option<StoreRow>): StoreRow {
    if store.Some? && store.value.state == VacuumPending then
      var parsed := ParseCursor(store.value.cursor);
      if !parsed.scrubbed then store.value
      else StoreRowWith(store, VacuumPending, EncodeCursor(parsed.(scrubbed := false)))
    else StoreRowWith(store, VacuumPending, None)
  }

  predicate ScrubOwed(d: Durable) {
    d.store.Some? && d.store.value.state == VacuumPending && !ParseCursor(d.store.value.cursor).scrubbed
  }

  lemma OwesScrub(store: Option<StoreRow>)
    ensures var row := ScrubOwedRow(store);
            && row.state == VacuumPending && !ParseCursor(row.cursor).scrubbed
            && (store.Some? ==> row.kcv == store.value.kcv && row.minReader == store.value.minReader)
  {
    if store.Some? && store.value.state == VacuumPending {
      var parsed := ParseCursor(store.value.cursor);
      if parsed.scrubbed {
        PendingCursorRoundTrips(parsed.(scrubbed := false));
      }
    }
  }

  function AllItemsSealed(items: map<string, ItemRow>): bool {
    forall item :: item in items ==> items[item].state == ItemSealed
  }

  // ── Committed steps ────────────────────────────────────────────────────────

  /** A cell after its batch: rewritten faithfully if it needed it, else untouched. */
  ghost predicate CellDone(c: Crypto, cipher: Cipher, plan: ColumnPlan, before: Row, after: Row) {
    && after.key == before.key && after.extras == before.extras
    && match VerdictOf(c, cipher, plan.kind, before.cell, RowContext(plan, before))
       case Finished => after.cell == before.cell
       case Stuck => after.cell == before.cell
       case _ => Replaces(c, cipher, plan.kind, RowContext(plan, before), before.cell, after.cell)
  }

  ghost predicate RowsDone(c: Crypto, cipher: Cipher, plan: ColumnPlan, before: seq<Row>, after: seq<Row>, lo: nat, hi: nat) {
    && |after| == |before|
    && forall i :: 0 <= i < |before| ==> if lo <= i < hi then CellDone(c, cipher, plan, before[i], after[i]) else after[i] == before[i]
  }

  /** The item is recorded as in progress, with the scrub owed first, in one transaction. */
  ghost predicate StartTx(plan: ColumnPlan, d: Durable, e: Durable) {
    && (plan.item in d.items ==> d.items[plan.item].state != ItemSealed)
    && e == d.(store := Some(ScrubOwedRow(d.store)),
               items := d.items[plan.item := ItemRow(ItemSealing, if plan.item in d.items then d.items[plan.item].cursor else None)])
  }

  /** One batch: its rows, its cursor and nothing else; rewriting may leave old plaintext anywhere. */
  ghost predicate BatchTx(c: Crypto, cipher: Cipher, plan: ColumnPlan, d: Durable, e: Durable) {
    && ScrubOwed(d)
    && e.store == d.store && e.residue.dirtyFree <= e.residue.freelist
    && plan.item in d.items && d.items[plan.item].state == ItemSealing && plan.item in d.columns
    && var rows := d.columns[plan.item];
       var at := ResumeAt(plan, rows, d.items[plan.item].cursor);
       && at.Some?
       && BatchWrites(c, cipher, plan, d, e, rows, at.value, if at.value + BATCH_SIZE < |rows| then at.value + BATCH_SIZE else |rows|)
  }

  ghost predicate BatchWrites(c: Crypto, cipher: Cipher, plan: ColumnPlan, d: Durable, e: Durable, rows: seq<Row>, at: nat, hi: nat)
    requires at <= hi <= |rows| && plan.item in d.items
  {
    && plan.item in e.columns && RowsDone(c, cipher, plan, rows, e.columns[plan.item], at, hi)
    && e.columns == d.columns[plan.item := e.columns[plan.item]]
    && e.items == d.items[plan.item := ItemRow(ItemSealing, if hi > at then Some(RenderKey(rows[hi - 1].key)) else d.items[plan.item].cursor)]
  }

  /** The item is finished; the record may move to the current root once every item is. */
  ghost predicate SealTx(c: Crypto, cipher: Cipher, plan: ColumnPlan, d: Durable, e: Durable) {
    && plan.item in d.items && d.items[plan.item].state == ItemSealing && plan.item in d.columns
    && ResumeAt(plan, d.columns[plan.item], d.items[plan.item].cursor) == Some(|d.columns[plan.item]|)
    && e == d.(items := d.items[plan.item := ItemRow(ItemSealed, None)], store := e.store)
    && (e.store == d.store || (AllItemsSealed(e.items) && e.store == Some(RecordedKcv(d.store, cipher.current.rootKcv))))
  }

  ghost predicate ResetTx(plan: ColumnPlan, d: Durable, e: Durable) {
    e == d.(items := d.items[plan.item := ItemRow(ItemPending, None)])
  }

  /** First use: record the key of a store that names none. */
  ghost predicate RecordTx(cipher: Cipher, d: Durable, e: Durable) {
    && (d.store.Some? ==> d.store.value.kcv.None?)
    && e == d.(store := Some(RecordedKcv(d.store, cipher.current.rootKcv)))
  }

  /** Checkpoint, scrub chunk, scratch table and VACUUM: they free no old plaintext (VACUUM keeps what was left in the file until the next checkpoint). */
  ghost predicate CleanupTx(d: Durable, e: Durable) {
    && e == d.(residue := e.residue)
    && e.residue.dirtyFree <= d.residue.dirtyFree && e.residue.dirtyFree <= e.residue.freelist
    && (e.residue.partialPages ==> d.residue.partialPages)
    && (e.residue.wal ==> !Clean(d.residue))
  }

  /** The owed work is recorded; a finished scrub only when no free page holds old plaintext. */
  ghost predicate OweTx(d: Durable, e: Durable) {
    && exists cursor: PendingCursor :: e == d.(store := Some(StoreRowWith(d.store, VacuumPending, EncodeCursor(cursor))))
         && ParseCursor(EncodeCursor(cursor)) == cursor && (cursor.scrubbed ==> d.residue.dirtyFree == 0)
  }

  /** The store is declared compacted, only when nothing is left. */
  ghost predicate OkTx(d: Durable, e: Durable) {
    Clean(d.residue) && e == d.(store := Some(StoreRowWith(d.store, StoreOk, None)))
  }

  ghost predicate Tx(c: Crypto, cipher: Cipher, plans: seq<ColumnPlan>, d: Durable, e: Durable) {
    || RecordTx(cipher, d, e) || CleanupTx(d, e) || OweTx(d, e) || OkTx(d, e)
    || exists p :: 0 <= p < |plans| && PlanTx(c, cipher, plans[p], d, e)
  }

  ghost predicate PlanTx(c: Crypto, cipher: Cipher, plan: ColumnPlan, d: Durable, e: Durable) {
    StartTx(plan, d, e) || BatchTx(c, cipher, plan, d, e) || SealTx(c, cipher, plan, d, e) || ResetTx(plan, d, e)
  }

  /** Committed states, each a step from the one before. */
  ghost predicate Path(c: Crypto, cipher: Cipher, plans: seq<ColumnPlan>, ds: seq<Durable>) {
    forall i :: 0 <= i < |ds| - 1 ==> Tx(c, cipher, plans, ds[i], ds[i + 1])
  }

  /** A run cut short by a crash, then continued from its last committed state, is one path. */
  lemma RerunContinues(c: Crypto, cipher: Cipher, plans: seq<ColumnPlan>, first: seq<Durable>, crash: nat, rerun: seq<Durable>)
    requires Path(c, cipher, plans, first) && Path(c, cipher, plans, rerun)
    requires crash < |first| && rerun != [] && rerun[0] == first[crash]
    ensures Path(c, cipher, plans, first[..crash] + rerun)
  {
    var whole := first[..crash] + rerun;
    forall i | 0 <= i < |whole| - 1 ensures Tx(c, cipher, plans, whole[i], whole[i + 1]) {
      if i < crash {
        assert whole[i] == first[i] && whole[i + 1] == first[i + 1];
      } else {
        assert whole[i] == rerun[i - crash] && whole[i + 1] == rerun[i - crash + 1];
      }
    }
  }

  // ── Meaning is preserved ───────────────────────────────────────────────────

  /** The row reads as it did, and if it changed at all it is finished. */
  ghost predicate RowKept(c: Crypto, cipher: Cipher, plan: ColumnPlan, before: Row, after: Row) {
    && after.key == before.key && after.extras == before.extras
    && (after.cell == before.cell || Replaces(c, cipher, plan.kind, RowContext(plan, before), before.cell, after.cell))
  }

  ghost predicate ColumnKept(c: Crypto, cipher: Cipher, plan: ColumnPlan, before: seq<Row>, after: seq<Row>) {
    |after| == |before| && forall i :: 0 <= i < |before| ==> RowKept(c, cipher, plan, before[i], after[i])
  }

  /** No column outside the plans changed; every planned row reads as it did. */
  ghost predicate Kept(c: Crypto, cipher: Cipher, plans: seq<ColumnPlan>, d: Durable, e: Durable) {
    && e.columns.Keys == d.columns.Keys
    && (forall p :: 0 <= p < |plans| && plans[p].item in d.columns ==>
          ColumnKept(c, cipher, plans[p], d.columns[plans[p].item], e.columns[plans[p].item]))
    && (forall item :: item in d.columns && (forall p :: 0 <= p < |plans| ==> plans[p].item != item) ==>
          e.columns[item] == d.columns[item])
  }

  lemma ColumnKeptTransitive(c: Crypto, cipher: Cipher, plan: ColumnPlan, x: seq<Row>, y: seq<Row>, z: seq<Row>)
    requires ColumnKept(c, cipher, plan, x, y) && ColumnKept(c, cipher, plan, y, z)
    ensures ColumnKept(c, cipher, plan, x, z)
  {
    hide VerdictOf, ReadingOf;
    forall i | 0 <= i < |x| ensures RowKept(c, cipher, plan, x[i], z[i]) {
      assert RowKept(c, cipher, plan, x[i], y[i]) && RowKept(c, cipher, plan, y[i], z[i]);
    }
  }

  lemma KeptTransitive(c: Crypto, cipher: Cipher, plans: seq<ColumnPlan>, x: Durable, y: Durable, z: Durable)
    requires Kept(c, cipher, plans, x, y) && Kept(c, cipher, plans, y, z)
    ensures Kept(c, cipher, plans, x, z)
  {
    hide ColumnKept;
    forall p | 0 <= p < |plans| && plans[p].item in x.columns
      ensures ColumnKept(c, cipher, plans[p], x.columns[plans[p].item], z.columns[plans[p].item])
    {
      var item := plans[p].item;
      ColumnKeptTransitive(c, cipher, plans[p], x.columns[item], y.columns[item], z.columns[item]);
    }
  }

  lemma RowsDoneKeep(c: Crypto, cipher: Cipher, plan: ColumnPlan, before: seq<Row>, after: seq<Row>, lo: nat, hi: nat)
    requires RowsDone(c, cipher, plan, before, after, lo, hi)
    ensures ColumnKept(c, cipher, plan, before, after)
  {
    hide VerdictOf, ReadingOf;
    forall i | 0 <= i < |before| ensures RowKept(c, cipher, plan, before[i], after[i]) {
      if lo <= i < hi {
        assert CellDone(c, cipher, plan, before[i], after[i]);
      }
    }
  }

  lemma KeptWhenColumnsSame(c: Crypto, cipher: Cipher, plans: seq<ColumnPlan>, d: Durable, e: Durable)
    requires e.columns == d.columns
    ensures Kept(c, cipher, plans, d, e)
  {
  }

  lemma TxKeeps(c: Crypto, cipher: Cipher, plans: seq<ColumnPlan>, d: Durable, e: Durable)
    requires Distinct(plans) && Tx(c, cipher, plans, d, e)
    ensures Kept(c, cipher, plans, d, e)
  {
    hide ColumnKept, RowsDone, ResumeAt, ParseCursor, EncodeCursor, RecordedKcv;
    if e.columns == d.columns {
      KeptWhenColumnsSame(c, cipher, plans, d, e);
    } else {
      var p :| 0 <= p < |plans| && PlanTx(c, cipher, plans[p], d, e);
      assert BatchTx(c, cipher, plans[p], d, e);
      var rows := d.columns[plans[p].item];
      var at := ResumeAt(plans[p], rows, d.items[plans[p].item].cursor).value;
      var hi := if at + BATCH_SIZE < |rows| then at + BATCH_SIZE else |rows|;
      RowsDoneKeep(c, cipher, plans[p], rows, e.columns[plans[p].item], at, hi);
      forall q | 0 <= q < |plans| && plans[q].item in d.columns
        ensures ColumnKept(c, cipher, plans[q], d.columns[plans[q].item], e.columns[plans[q].item])
      {
        if q != p {
          assert plans[q].item != plans[p].item;
          SameColumnKept(c, cipher, plans[q], d.columns[plans[q].item]);
        }
      }
    }
  }

  lemma SameColumnKept(c: Crypto, cipher: Cipher, plan: ColumnPlan, rows: seq<Row>)
    ensures ColumnKept(c, cipher, plan, rows, rows)
  {
  }

  /**
    Along every path (any number of crashes and reruns), no row's meaning ever
    changes, and a row is only ever replaced by its sealed form.
   */
  lemma {:induction false} PathKeepsMeaning(c: Crypto, cipher: Cipher, plans: seq<ColumnPlan>, ds: seq<Durable>, k: nat)
    requires Distinct(plans) && Path(c, cipher, plans, ds) && k < |ds|
    ensures Kept(c, cipher, plans, ds[0], ds[k])
  {
    hide Tx, Kept;
    if k == 0 {
      KeptWhenColumnsSame(c, cipher, plans, ds[0], ds[0]);
    } else {
      PathKeepsMeaning(c, cipher, plans, ds, k - 1);
      assert Tx(c, cipher, plans, ds[k - 1], ds[k - 1 + 1]);
      TxKeeps(c, cipher, plans, ds[k - 1], ds[k]);
      KeptTransitive(c, cipher, plans, ds[0], ds[k - 1], ds[k]);
    }
  }

  /** A committed step leaves a stuck value byte for byte. */
  lemma TxKeepsStuck(c: Crypto, cipher: Cipher, plans: seq<ColumnPlan>, d: Durable, e: Durable, q: nat, i: nat)
    requires Distinct(plans) && Tx(c, cipher, plans, d, e) && q < |plans| && plans[q].item in d.columns && i < |d.columns[plans[q].item]|
    requires VerdictOf(c, cipher, plans[q].kind, d.columns[plans[q].item][i].cell, RowContext(plans[q], d.columns[plans[q].item][i])) == Stuck
    ensures plans[q].item in e.columns && i < |e.columns[plans[q].item]| && e.columns[plans[q].item][i] == d.columns[plans[q].item][i]
  {
    hide VerdictOf, ReadingOf, ParseCursor, EncodeCursor, ResumeAt;
    if !(RecordTx(cipher, d, e) || CleanupTx(d, e) || OweTx(d, e) || OkTx(d, e)) {
      var p :| 0 <= p < |plans| && PlanTx(c, cipher, plans[p], d, e);
      if p == q && BatchTx(c, cipher, plans[p], d, e) {
        var rows := d.columns[plans[p].item];
        var at := ResumeAt(plans[p], rows, d.items[plans[p].item].cursor).value;
        var hi := if at + BATCH_SIZE < |rows| then at + BATCH_SIZE else |rows|;
        assert RowsDone(c, cipher, plans[p], rows, e.columns[plans[p].item], at, hi);
        assert at <= i < hi ==> CellDone(c, cipher, plans[p], rows[i], e.columns[plans[p].item][i]);
      }
    }
  }

  lemma {:induction false} PathKeepsStuck(c: Crypto, cipher: Cipher, plans: seq<ColumnPlan>, ds: seq<Durable>, k: nat, q: nat, i: nat)
    requires Distinct(plans) && Path(c, cipher, plans, ds) && k < |ds|
    requires q < |plans| && plans[q].item in ds[0].columns && i < |ds[0].columns[plans[q].item]|
    requires VerdictOf(c, cipher, plans[q].kind, ds[0].columns[plans[q].item][i].cell, RowContext(plans[q], ds[0].columns[plans[q].item][i])) == Stuck
    ensures plans[q].item in ds[k].columns && i < |ds[k].columns[plans[q].item]| && ds[k].columns[plans[q].item][i] == ds[0].columns[plans[q].item][i]
  {
    hide Tx, VerdictOf;
    if k > 0 {
      PathKeepsStuck(c, cipher, plans, ds, k - 1, q, i);
      assert Tx(c, cipher, plans, ds[k - 1], ds[k - 1 + 1]);
      TxKeepsStuck(c, cipher, plans, ds[k - 1], ds[k], q, i);
    }
  }

  // ── Progress is never overstated ───────────────────────────────────────────

  /** The row is finished, or no key this process holds lets it be. */
  predicate Settled(c: Crypto, cipher: Cipher, plan: ColumnPlan, row: Row) {
    var verdict := VerdictOf(c, cipher, plan.kind, row.cell, RowContext(plan, row));
    verdict == Finished || verdict == Stuck
  }

  ghost predicate SettledUpTo(c: Crypto, cipher: Cipher, plan: ColumnPlan, rows: seq<Row>, n: nat) {
    forall i :: 0 <= i < n && i < |rows| ==> Settled(c, cipher, plan, rows[i])
  }

  /** Everything the state table claims to be processed is settled. */
  ghost predicate Progress(c: Crypto, cipher: Cipher, plan: ColumnPlan, d: Durable) {
    plan.item in d.items && plan.item in d.columns ==>
      var rows := d.columns[plan.item];
      if d.items[plan.item].state == ItemSealed then SettledUpTo(c, cipher, plan, rows, |rows|)
      else var at := ResumeAt(plan, rows, d.items[plan.item].cursor);
           at.Some? ==> SettledUpTo(c, cipher, plan, rows, at.value)
  }

  lemma RowsDoneSettle(c: Crypto, cipher: Cipher, plan: ColumnPlan, before: seq<Row>, after: seq<Row>, lo: nat, hi: nat)
    requires RowsDone(c, cipher, plan, before, after, lo, hi) && SettledUpTo(c, cipher, plan, before, lo) && lo <= hi
    ensures SettledUpTo(c, cipher, plan, after, hi)
  {
    hide VerdictOf, ReadingOf;
    forall i | 0 <= i < hi && i < |after| ensures Settled(c, cipher, plan, after[i]) {
      if i < lo {
        assert after[i] == before[i];
      } else {
        assert CellDone(c, cipher, plan, before[i], after[i]);
      }
    }
  }

  lemma BatchCursor(plan: ColumnPlan, before: seq<Row>, after: seq<Row>, hi: nat)
    requires Keyed(plan, before) && |after| == |before| && 0 < hi <= |before|
    requires forall i :: 0 <= i < |before| ==> after[i].key == before[i].key
    ensures ResumeAt(plan, after, Some(RenderKey(before[hi - 1].key))) == Some(hi)
  {
    CursorRoundTrips(plan.keyKind, before[hi - 1].key);
    RowsUpToKey(plan, before, hi - 1);
    RowsUpToSameKeys(before, after, before[hi - 1].key);
  }

  lemma RowsDoneSameKeys(c: Crypto, cipher: Cipher, plan: ColumnPlan, before: seq<Row>, after: seq<Row>, lo: nat, hi: nat)
    requires RowsDone(c, cipher, plan, before, after, lo, hi)
    ensures |after| == |before| && forall i :: 0 <= i < |before| ==> after[i].key == before[i].key
    ensures Keyed(plan, before) ==> Keyed(plan, after)
  {
    hide VerdictOf, ReadingOf, Replaces;
    forall i | 0 <= i < |before| ensures after[i].key == before[i].key {
      if lo <= i < hi {
        assert CellDone(c, cipher, plan, before[i], after[i]);
      }
    }
  }

  /** One more row of the batch is dealt with. */
  lemma RowsDoneOneMore(c: Crypto, cipher: Cipher, plan: ColumnPlan, before: seq<Row>, rows: seq<Row>, lo: nat, i: nat, row: Row)
    requires RowsDone(c, cipher, plan, before, rows, lo, i) && Keyed(plan, rows) && lo <= i < |before|
    requires CellDone(c, cipher, plan, before[i], row)
    ensures RowsDone(c, cipher, plan, before, rows[i := row], lo, i + 1) && Keyed(plan, rows[i := row])
    ensures rows[i] == before[i]
  {
    hide CellDone;
    assert rows[i] == before[i];
    assert row.key == before[i].key by { CellDoneKey(c, cipher, plan, before[i], row); }
    forall j | 0 <= j < |before| && lo <= j < i + 1 ensures CellDone(c, cipher, plan, before[j], rows[i := row][j]) {
      if j < i {
        assert CellDone(c, cipher, plan, before[j], rows[j]);
      }
    }
  }

  lemma ResumeAtSameKeys(plan: ColumnPlan, before: seq<Row>, after: seq<Row>, cursor: Option<string>)
    requires |after| == |before| && forall i :: 0 <= i < |before| ==> after[i].key == before[i].key
    ensures ResumeAt(plan, after, cursor) == ResumeAt(plan, before, cursor)
  {
    if cursor.Some? && CursorKey(plan.keyKind, cursor.value).Some? {
      RowsUpToSameKeys(before, after, CursorKey(plan.keyKind, cursor.value).value);
    }
  }

  lemma CellDoneKey(c: Crypto, cipher: Cipher, plan: ColumnPlan, before: Row, after: Row)
    requires CellDone(c, cipher, plan, before, after)
    ensures after.key == before.key && after.extras == before.extras
  {
  }

  lemma BatchProgress(c: Crypto, cipher: Cipher, plan: ColumnPlan, d: Durable, e: Durable)
    requires BatchTx(c, cipher, plan, d, e) && Progress(c, cipher, plan, d) && Keyed(plan, d.columns[plan.item])
    ensures Progress(c, cipher, plan, e) && Keyed(plan, e.columns[plan.item])
  {
    hide RowsDone, SettledUpTo, ParseCursor, Keyed, ResumeAt;
    var rows := d.columns[plan.item];
    var after := e.columns[plan.item];
    var at := ResumeAt(plan, rows, d.items[plan.item].cursor).value;
    var hi := if at + BATCH_SIZE < |rows| then at + BATCH_SIZE else |rows|;
    RowsDoneSettle(c, cipher, plan, rows, after, at, hi);
    RowsDoneSameKeys(c, cipher, plan, rows, after, at, hi);
    assert |after| == |rows| by { RowsDoneKeep(c, cipher, plan, rows, after, at, hi); }
    ResumeAtSameKeys(plan, rows, after, d.items[plan.item].cursor);
    if hi > at {
      BatchCursor(plan, rows, after, hi);
    }
  }

  lemma TxProgress(c: Crypto, cipher: Cipher, plans: seq<ColumnPlan>, d: Durable, e: Durable, q: nat)
    requires Distinct(plans) && WellFormed(plans, d) && Tx(c, cipher, plans, d, e)
    requires q < |plans| && Progress(c, cipher, plans[q], d)
    ensures Progress(c, cipher, plans[q], e)
    ensures plans[q].item in e.columns ==> Keyed(plans[q], e.columns[plans[q].item])
  {
    hide RowsDone, SettledUpTo, ParseCursor, EncodeCursor, Keyed, ResumeAt;
    if RecordTx(cipher, d, e) || CleanupTx(d, e) || OweTx(d, e) || OkTx(d, e) {
      assert e.columns == d.columns && e.items == d.items;
    } else {
      var p :| 0 <= p < |plans| && PlanTx(c, cipher, plans[p], d, e);
      if p == q {
        OwnProgress(c, cipher, plans[p], d, e);
      } else {
        assert plans[p].item != plans[q].item;
        if plans[q].item in e.columns {
          assert e.columns[plans[q].item] == d.columns[plans[q].item];
        }
        if plans[q].item in e.items {
          assert e.items[plans[q].item] == d.items[plans[q].item];
        }
      }
    }
  }

  lemma OwnProgress(c: Crypto, cipher: Cipher, plan: ColumnPlan, d: Durable, e: Durable)
    requires PlanTx(c, cipher, plan, d, e) && Progress(c, cipher, plan, d)
    requires plan.item in d.columns ==> Keyed(plan, d.columns[plan.item])
    ensures Progress(c, cipher, plan, e)
    ensures plan.item in e.columns ==> Keyed(plan, e.columns[plan.item])
  {
    hide RowsDone, Settled, ParseCursor, EncodeCursor, Keyed, CursorKey, RowsUpTo;
    if BatchTx(c, cipher, plan, d, e) {
      BatchProgress(c, cipher, plan, d, e);
    }
  }

  lemma TxWellFormed(c: Crypto, cipher: Cipher, plans: seq<ColumnPlan>, d: Durable, e: Durable)
    requires Distinct(plans) && WellFormed(plans, d) && Tx(c, cipher, plans, d, e)
    requires forall q :: 0 <= q < |plans| ==> Progress(c, cipher, plans[q], d)
    ensures WellFormed(plans, e)
    ensures forall q :: 0 <= q < |plans| ==> Progress(c, cipher, plans[q], e)
  {
    hide Keyed, Progress, ResumeAt, RowsDone, ParseCursor, EncodeCursor;
    assert e.residue.dirtyFree <= e.residue.freelist;
    forall q | 0 <= q < |plans|
      ensures Progress(c, cipher, plans[q], e)
      ensures plans[q].item in e.columns ==> Keyed(plans[q], e.columns[plans[q].item])
    {
      TxProgress(c, cipher, plans, d, e, q);
    }
  }

  lemma {:induction false} PathProgress(c: Crypto, cipher: Cipher, plans: seq<ColumnPlan>, ds: seq<Durable>, k: nat)
    requires Distinct(plans) && Path(c, cipher, plans, ds) && k < |ds|
    requires WellFormed(plans, ds[0]) && forall q :: 0 <= q < |plans| ==> Progress(c, cipher, plans[q], ds[0])
    ensures WellFormed(plans, ds[k]) && forall q :: 0 <= q < |plans| ==> Progress(c, cipher, plans[q], ds[k])
  {
    hide Tx, Progress, WellFormed;
    if k > 0 {
      PathProgress(c, cipher, plans, ds, k - 1);
      assert Tx(c, cipher, plans, ds[k - 1], ds[k - 1 + 1]);
      TxWellFormed(c, cipher, plans, ds[k - 1], ds[k]);
    }
  }

  /**
    Once an item is `sealed`, after any crashes and reruns, every cell of it is
    empty or an envelope that the current key opens, reading as it did without the
    retired keys, or is byte for byte the original cell, which no held key opens or
    which may not be sealed.
   */
  lemma SealedItemIsSealed(c: Crypto, cipher: Cipher, plans: seq<ColumnPlan>, ds: seq<Durable>, q: nat, i: nat)
    requires Distinct(plans) && Path(c, cipher, plans, ds) && ds != []
    requires WellFormed(plans, ds[0]) && forall p :: 0 <= p < |plans| ==> Progress(c, cipher, plans[p], ds[0])
    requires q < |plans| && plans[q].item in ds[0].columns
    requires var last := ds[|ds| - 1]; plans[q].item in last.items && last.items[plans[q].item].state == ItemSealed
    requires i < |ds[0].columns[plans[q].item]|
    ensures plans[q].item in ds[|ds| - 1].columns && i < |ds[|ds| - 1].columns[plans[q].item]|
    ensures var plan := plans[q];
            var before := ds[0].columns[plan.item][i];
            var after := ds[|ds| - 1].columns[plan.item][i];
            var context := RowContext(plan, before);
            && ReadingOf(c, cipher, plan.kind, after.cell, context) == ReadingOf(c, cipher, plan.kind, before.cell, context)
            && (|| (EnvelopeOrEmpty(c, cipher, plan.kind, after.cell, context)
                    && ReadingOf(c, cipher.(retired := []), plan.kind, after.cell, context) == ReadingOf(c, cipher, plan.kind, before.cell, context))
                || (after.cell == before.cell && VerdictOf(c, cipher, plan.kind, before.cell, context) == Stuck))
  {
    hide Tx, VerdictOf, ReadingOf, EnvelopeOrEmpty;
    var last := |ds| - 1;
    var plan := plans[q];
    PathKeepsMeaning(c, cipher, plans, ds, last);
    PathProgress(c, cipher, plans, ds, last);
    assert ColumnKept(c, cipher, plan, ds[0].columns[plan.item], ds[last].columns[plan.item]);
    var before := ds[0].columns[plan.item][i];
    var after := ds[last].columns[plan.item][i];
    assert RowKept(c, cipher, plan, before, after);
    assert Progress(c, cipher, plan, ds[last]);
    assert Settled(c, cipher, plan, after);
    if VerdictOf(c, cipher, plan.kind, after.cell, RowContext(plan, before)) == Finished {
      FinishedNeedsNoRetiredKey(c, cipher, plan.kind, after.cell, RowContext(plan, before));
      FinishedIff(c, cipher, plan.kind, after.cell, RowContext(plan, before));
    }
  }

  // ── Scrub debt ─────────────────────────────────────────────────────────────

  ghost predicate Started(d: Durable) {
    exists item :: item in d.items && d.items[item].state != ItemPending
  }

  /** `ok` after a start means nothing is left; a recorded scrub means the free pages are clean. */
  ghost predicate Debt(d: Durable) {
    && (Started(d) ==> d.store.Some?)
    && (Started(d) && d.store.value.state == StoreOk ==> Clean(d.residue))
    && (d.store.Some? && d.store.value.state == VacuumPending && ParseCursor(d.store.value.cursor).scrubbed ==> d.residue.dirtyFree == 0)
  }

  predicate DeclaredCompacted(d: Durable, e: Durable) {
    && d.store.Some? && d.store.value.state == VacuumPending
    && e.store.Some? && e.store.value.state == StoreOk
  }

  lemma TxKeepsDebt(c: Crypto, cipher: Cipher, plans: seq<ColumnPlan>, d: Durable, e: Durable)
    requires Tx(c, cipher, plans, d, e) && Debt(d)
    ensures Debt(e)
    ensures DeclaredCompacted(d, e) ==> Clean(d.residue)
  {
    hide RowsDone, ResumeAt, ParseCursor, EncodeCursor;
    if exists p :: 0 <= p < |plans| && PlanTx(c, cipher, plans[p], d, e) {
      var p :| 0 <= p < |plans| && PlanTx(c, cipher, plans[p], d, e);
      OwesScrub(d.store);
      PlanTxKeepsDebt(c, cipher, plans[p], d, e);
    } else {
      assert e.items == d.items;
    }
  }

  lemma PlanTxKeepsDebt(c: Crypto, cipher: Cipher, plan: ColumnPlan, d: Durable, e: Durable)
    requires PlanTx(c, cipher, plan, d, e) && Debt(d)
    ensures Debt(e)
    ensures d.store.Some? && d.store.value.state == VacuumPending ==> e.store.Some? && e.store.value.state == VacuumPending
  {
    hide RowsDone, ResumeAt, ParseCursor, EncodeCursor;
    OwesScrub(d.store);
    if SealTx(c, cipher, plan, d, e) {
      assert Started(d);
    } else if ResetTx(plan, d, e) {
      if Started(e) {
        var item :| item in e.items && e.items[item].state != ItemPending;
        assert d.items[item].state != ItemPending;
      }
    }
  }

  /**
    At every committed state of every path: a store reported `ok` after a
    migration started has no old plaintext in its WAL, free pages or partly used
    pages; a recorded scrub means clean free pages; and the step to `ok` was
    taken only when a checkpoint, a scrub and a VACUUM had left nothing.
   */
  lemma {:induction false} PathKeepsDebt(c: Crypto, cipher: Cipher, plans: seq<ColumnPlan>, ds: seq<Durable>, k: nat)
    requires Path(c, cipher, plans, ds) && k < |ds| && Debt(ds[0])
    ensures Debt(ds[k])
    ensures forall i :: 0 <= i < k && DeclaredCompacted(ds[i], ds[i + 1]) ==> Clean(ds[i].residue)
  {
    hide Tx, Debt;
    if k > 0 {
      PathKeepsDebt(c, cipher, plans, ds, k - 1);
      assert Tx(c, cipher, plans, ds[k - 1], ds[k - 1 + 1]);
      TxKeepsDebt(c, cipher, plans, ds[k - 1], ds[k]);
    }
  }
}
