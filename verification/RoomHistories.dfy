/** What the rooms' history amounts to: streamed answers, retained rows, and sessions a crash leaves behind. */
module RoomHistories {
  import opened Wrappers
  import opened Recency
  import opened RoomEvents
  import opened RoomGuests
  import opened RoomSessions
  import opened RoomSteadiness
  import opened RoomStores

  // ── Streamed text ──────────────────────────────────────────────────────────

  /** The deltas accepted for a run, joined. */
  function Streamed(events: seq<Event>, run: string): string {
    if events == [] then ""
    else
      var before := Streamed(events[..|events| - 1], run);
      var e := events[|events| - 1];
      if e.DeltaAppended? && e.run == run then before + e.delta else before
  }

  /** Over every history, a run's text is exactly what was streamed to it, joined, and at most 32000 characters. */
  lemma {:induction false} TextIsStreamed(d: Db, events: seq<Event>, run: string)
    requires Healthy(d) && Possible(d, events)
    ensures var now := After(d, events);
      && (run in now.runs ==> now.runs[run].partial == (if run in d.runs then d.runs[run].partial else "") + Streamed(events, run)
                              && |now.runs[run].partial| <= MAX_MESSAGE_CHARS)
      && (run !in now.spent ==> Streamed(events, run) == "") && now.runs.Keys <= now.spent && d.spent <= now.spent
      && (run in now.runs && run !in d.runs ==> run !in d.spent)
  {
    hide Live, Newest, RunsOk, SessionsOk, GuestsOk;
    AlwaysOk(d, events);
    if run in After(d, events).runs {
      BoundedPartial(After(d, events).rooms, After(d, events).runs, run);
    }
    if events != [] {
      var init := events[..|events| - 1];
      TextIsStreamed(d, init, run);
      OneMoreEvent(After(d, init), events[|events| - 1], run);
    }
  }

  /** How one event changes a run's text, and whether the run is there. */
  lemma OneMoreEvent(d: Db, e: Event, run: string)
    requires Enabled(d, e) && d.runs.Keys <= d.spent
    ensures var f := Apply(d, e);
      && d.spent <= f.spent && f.runs.Keys <= f.spent
      && (run in d.runs && run in f.runs ==> f.runs[run].partial == d.runs[run].partial + (if e.DeltaAppended? && e.run == run then e.delta else ""))
      && (run !in d.runs && run in f.runs ==> run !in d.spent && f.runs[run].partial == "" && !e.DeltaAppended?)
      && (e.DeltaAppended? && e.run == run ==> run in d.runs && run in f.runs)
  {
    hide Live, Newest, KeepMessages, FinishedMessages, SetStatus, ActiveIn, KeyUsed, WithoutGuests, Cascade, RevokeSessions;
  }

  // ── Answers and trimming ───────────────────────────────────────────────────

  /** An assistant message appears only when a run completes with text: one message, that text. */
  lemma AnswersAreCompletions(d: Db, e: Event, m: string)
    requires Enabled(d, e) && m in Apply(d, e).messages
    ensures m in d.messages ==> Apply(d, e).messages[m] == d.messages[m]
    ensures m !in d.messages && Apply(d, e).messages[m].role == Assistant ==>
      && e.RunFinished? && e.status == Completed && m == e.message && d.runs[e.run].partial != ""
      && Apply(d, e).messages[m].text == d.runs[e.run].partial && Apply(d, e).messages[m].room == d.runs[e.run].room
  {
    hide Live, Newest, KeepRuns, FinishedRuns, SetStatus, ActiveIn, KeyUsed, WithoutGuests, Cascade, RevokeSessions;
  }

  /** The room's messages when a run finishes, before trimming: the answer joins them iff it completed with text. */
  function WithAnswer(d: Db, e: Event): Rows
    requires e.RunFinished? && e.run in d.runs
  {
    var messages := MessagesOf(d.messages, d.runs[e.run].room);
    if e.status == Completed && d.runs[e.run].partial != "" then messages[e.message := e.now] else messages
  }

  /** Finishing a run keeps exactly the newest 100 runs of its room. */
  lemma FinishRetainsNewestRuns(d: Db, e: Event)
    requires e.RunFinished? && Enabled(d, e)
    ensures var runs := RunsOf(Apply(d, e).runs, d.runs[e.run].room);
      runs.Keys == Newest(RunsOf(d.runs, d.runs[e.run].room), MAX_RETAINED_RUNS) && |runs| <= MAX_RETAINED_RUNS
  {
    hide Newest, KeepRuns, KeepMessages, FinishedMessages, SetStatus, ActiveIn;
    var room := d.runs[e.run].room;
    var runs := FinishedRuns(d, e.run, e.status, e.errorCode, e.errorMessage);
    assert RunsOf(runs, room) == RunsOf(d.runs, room);
    NewestMeans(RunsOf(runs, room), MAX_RETAINED_RUNS);
    KeptKeys(runs, room, Newest(RunsOf(runs, room), MAX_RETAINED_RUNS));
  }

  /** And exactly the newest 40 of its messages, the answer included. */
  lemma FinishRetainsNewestMessages(d: Db, e: Event)
    requires e.RunFinished? && Enabled(d, e)
    ensures var messages := MessagesOf(Apply(d, e).messages, d.runs[e.run].room);
      messages.Keys == Newest(WithAnswer(d, e), MAX_HISTORY_MESSAGES) && |messages| <= MAX_HISTORY_MESSAGES
  {
    hide Newest, KeepRuns, KeepMessages, FinishedRuns, SetStatus, ActiveIn;
    var room := d.runs[e.run].room;
    var messages := FinishedMessages(d, e.run, e.message, e.status, e.now);
    assert MessagesOf(messages, room) == WithAnswer(d, e);
    NewestMeans(MessagesOf(messages, room), MAX_HISTORY_MESSAGES);
    KeptMessageKeys(messages, room, Newest(MessagesOf(messages, room), MAX_HISTORY_MESSAGES));
  }

  /** Finishing a run deletes no active run, and touches no other room. */
  lemma FinishSparesOthers(d: Db, e: Event)
    requires e.RunFinished? && Enabled(d, e) && RunsOk(d.rooms, d.runs)
    ensures forall r :: r in d.runs && r != e.run && (Active(d.runs[r]) || d.runs[r].room != d.runs[e.run].room) ==>
      r in Apply(d, e).runs && Apply(d, e).runs[r] == d.runs[r]
    ensures forall m :: m in d.messages && d.messages[m].room != d.runs[e.run].room ==>
      m in Apply(d, e).messages && Apply(d, e).messages[m] == d.messages[m]
  {
    hide Newest, RunsOk, SetStatus, ActiveIn;
    OneActiveHere(d.rooms, d.runs, e.run);
  }

  lemma OneActiveHere(rooms: map<string, Room>, runs: map<string, RoomRun>, run: string)
    requires RunsOk(rooms, runs) && run in runs && Active(runs[run])
    ensures forall r :: r in runs && Active(runs[r]) && r != run ==> runs[r].room != runs[run].room
  {
  }

  lemma KeptKeys(runs: map<string, RoomRun>, room: string, kept: set<string>)
    requires kept <= RunsOf(runs, room).Keys
    ensures RunsOf(KeepRuns(runs, room, kept), room).Keys == kept && |RunsOf(KeepRuns(runs, room, kept), room)| == |kept|
  {
    assert RunsOf(KeepRuns(runs, room, kept), room).Keys == kept;
  }

  lemma KeptMessageKeys(messages: map<string, RoomMessage>, room: string, kept: set<string>)
    requires kept <= MessagesOf(messages, room).Keys
    ensures MessagesOf(KeepMessages(messages, room, kept), room).Keys == kept && |MessagesOf(KeepMessages(messages, room, kept), room)| == |kept|
  {
    assert MessagesOf(KeepMessages(messages, room, kept), room).Keys == kept;
  }

  // ── Sessions a crash leaves behind ─────────────────────────────────────────

  /** One store operation with its arguments. */
  datatype StoreOp =
    | OpCreate(model: string, origin: string, room: string, host: string, secret: string, now: nat)
    | OpExchange(raw: string, name: string, participant: string, secret: string, now: nat)
    | OpIssue(room: string, secret: string, now: nat)
    | OpRevoke(room: string)
    | OpClose(room: string)
    | OpTurn(session: RoomSession, text: string, key: Option<string>, run: string, message: string, now: nat)
    | OpDelta(room: string, run: string, delta: string)
    | OpFinish(room: string, run: string, terminal: RunTerminal, message: string, now: nat)
    | OpStop(room: string, run: string)
    | OpRecover

  predicate Timely(op: StoreOp, clock: nat) {
    match op
    case OpCreate(_, _, _, _, _, now) => now >= clock
    case OpExchange(_, _, _, _, now) => now >= clock
    case OpIssue(_, _, now) => now >= clock
    case OpTurn(_, _, _, _, _, now) => now >= clock
    case OpFinish(_, _, terminal, _, now) => now >= clock && Terminal(terminal.status)
    case _ => true
  }

  method Perform(store: RoomStore, op: StoreOp)
    requires store.Valid() && Timely(op, store.db.clock)
    modifies store`db, store`log, store`calls
    ensures store.Valid() && old(store.log) <= store.log
    ensures forall s :: Orphaned(old(store.db), s) ==>
      forall i :: |old(store.log)| <= i < |store.log| ==> !Frees(store.log[i], old(store.db).sessions[s].room)
  {
    hide Healthy, Possible, After, Steady, Settled, Live, ActiveIn, Recovered, Interrupts;
    hide TurnStored, InSnapshot, Shown, GuestsOut, GuestsGone, FinishedAs, Answered, NewestCurrent, KeyUsed, HoldsSession, Usable, Streaming;
    match op {
      case OpCreate(model, origin, room, host, secret, now) => var r := store.CreateRoom(model, origin, room, host, secret, now);
      case OpExchange(raw, name, participant, secret, now) => var r := store.ExchangeInvite(raw, name, participant, secret, now);
      case OpIssue(room, secret, now) => var r := store.IssueInvite(room, secret, now);
      case OpRevoke(room) => var r := store.RevokeInvite(room);
      case OpClose(room) => var r := store.CloseRoom(room);
      case OpTurn(session, text, key, run, message, now) => var r := store.AppendUserTurn(session, text, key, run, message, now);
      case OpDelta(room, run, delta) => var r := store.AppendDelta(room, run, delta);
      case OpFinish(room, run, terminal, message, now) => var r := store.FinishRun(room, run, terminal, message, now);
      case OpStop(room, run) => var r := store.StopRun(room, run);
      case OpRecover => var r := store.RecoverRunning();
    }
  }

  /**
    An operation can still revoke a session exactly when it is not orphaned: taking
    the invite back if that stands, else closing the room if that is open. (That no
    operation revokes an orphan is KeepsOrphan.)
   */
  method RevokeIfPossible(store: RoomStore, s: Digest)
    requires store.Valid() && store.Reliable() && s in store.db.sessions && !store.db.sessions[s].revoked
    modifies store`db, store`log, store`calls
    ensures store.Valid()
    ensures (s in store.db.sessions && !store.db.sessions[s].revoked) <==> Orphaned(old(store.db), s)
    ensures Orphaned(old(store.db), s) ==> store.db == old(store.db)
  {
    hide Healthy, Possible, After, Steady, Settled, RunsOk, RoomStore.Reliable;
    store.Sound();
    var room := store.db.sessions[s].room;
    SessionHasRoom(store.db, s);
    if !store.db.invites[room].revoked {
      var r := store.RevokeInvite(room);
    } else {
      var r := store.CloseRoom(room);
    }
  }

  lemma SessionHasRoom(d: Db, s: Digest)
    requires Healthy(d) && s in d.sessions && !d.sessions[s].revoked
    ensures d.sessions[s].room in d.rooms && d.sessions[s].room in d.invites && d.sessions[s].participant in d.participants
  {
    hide RunsOk, Live;
  }

  /**
    A crash inside `close_room`, after its second statement, leaves guests whose
    sessions nothing revokes any more: closing again and revoking the invite both
    answer NotFound, issuing a new one answers Closed, and every other operation
    leaves the session alone. It is accepted until it expires. (When a cut closing
    does that, exactly, is CutClosingOrphansIff.)
   */
  method InterruptedCloseLeavesSession(digest: string -> Digest, writable: bool, opens: string -> bool, validOrigin: string -> bool, disk: nat -> bool,
                                       d: Db, room: string, s: Digest, ops: seq<StoreOp>)
    returns (store: RoomStore, ghost before: Db)
    requires Healthy(d) && room in d.rooms && d.rooms[room].status != RoomClosed
    requires s in d.sessions && d.sessions[s].room == room && !d.sessions[s].revoked
    ensures Possible(d, Closing(room)[..2]) && before == After(d, Closing(room)[..2])
    ensures store.Valid() && store.initial == d && Closing(room)[..2] <= store.log
    ensures s in store.db.sessions && store.db.sessions[s] == d.sessions[s] && Orphaned(store.db, s)
  {
    hide RunsOk, GuestsOk, Live, Newest;
    hide Possible, After;
    var shut := d.(rooms := d.rooms[room := Room(RoomClosed)]);
    var left := shut.(invites := shut.invites[room := shut.invites[room].(revoked := true)]);
    CutClosingOrphansIff(d, room, s, 2);
    TwoEvents(d, RoomShut(room), InviteRevoked(room));
    assert Closing(room)[..2] == [RoomShut(room), InviteRevoked(room)];
    before := left;
    store := new RoomStore(digest, writable, opens, validOrigin, disk, left, d, Closing(room)[..2]);
    KeepsOrphan(store, ops, s);
  }

  lemma TwoEvents(d: Db, first: Event, second: Event)
    requires Enabled(d, first) && Enabled(Apply(d, first), second)
    ensures Possible(d, [first, second]) && After(d, [first, second]) == Apply(Apply(d, first), second)
  {
    hide Enabled, Apply;
    var one := [first];
    assert one[..0] == [];
    assert Possible(d, one[..0]) && After(d, one[..0]) == d;
    assert Possible(d, one) && After(d, one) == Apply(d, first);
    assert [first, second][..1] == one;
  }

  /** Run operations one after another; those whose time runs backwards are left out. */
  method KeepsOrphan(store: RoomStore, ops: seq<StoreOp>, ghost s: Digest)
    requires store.Valid() && Orphaned(store.db, s)
    modifies store`db, store`log, store`calls
    ensures store.Valid() && Orphaned(store.db, s) && store.db.sessions[s] == old(store.db).sessions[s]
    ensures store.initial == old(store.initial) && old(store.log) <= store.log
  {
    hide Healthy, Possible, After, Orphaned, Frees;
    OrphanIsSession(store.db, s);
    for n := 0 to |ops|
      invariant store.initial == old(store.initial) && old(store.log) <= store.log
      invariant store.Valid() && Orphaned(store.db, s) && s in store.db.sessions && store.db.sessions[s] == old(store.db).sessions[s]
    {
      if Timely(ops[n], store.db.clock) {
        ghost var start, log := store.db, store.log;
        store.Sound();
        Perform(store, ops[n]);
        AfterSplit(store.initial, store.log, |log|);
        assert store.log[..|log|] == log;
        OrphanStaysAlong(start, store.log[|log|..], s);
        OrphanIsSession(store.db, s);
      }
    }
  }
}
