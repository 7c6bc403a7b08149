/**
  The Rooms database and every statement or transaction the store commits to it.
  A crash leaves the database after some number of committed events; the next
  process goes on from there. So what every event keeps holds over every
  interleaving of operations, crashes and restarts.
 */
module RoomEvents {
  import opened Wrappers
  import opened Recency

  const INVITE_TTL_SECS := 10 * 60
  const SESSION_TTL_SECS := 12 * 60 * 60
  const MAX_PARTICIPANTS := 8
  const MAX_HISTORY_MESSAGES := 40
  const MAX_RETAINED_RUNS := 100
  const MAX_MESSAGE_CHARS := 32000

  datatype RoomStatus = Idle | RoomRunning | RoomFailed | RoomClosed
  datatype RunStatus = Queued | Running | Completed | Failed | Canceled
  datatype MessageRole = User | Assistant
  datatype ParticipantRole = Host | Guest | Viewer

  /** A token's digest. */
  type Digest = string

  datatype Room = Room(status: RoomStatus)
  datatype RoomRun = RoomRun(room: string, key: Option<string>, input: string, status: RunStatus, partial: string,
                             errorCode: Option<string>, errorMessage: Option<string>, createdAt: nat)
  datatype RoomMessage = RoomMessage(room: string, role: MessageRole, text: string, author: Option<string>, createdAt: nat)
  datatype Invite = Invite(digest: Digest, expiresAt: nat, revoked: bool)
  datatype Participant = Participant(room: string, role: ParticipantRole, online: bool)
  /** `invite` is the invite the session was exchanged for; no statement reads it. */
  datatype Session = Session(room: string, participant: string, invite: Digest, expiresAt: nat, revoked: bool)

  /** `spent` are the run ids ever used, which are never used again; `clock` the latest time written. */
  datatype Db = Db(rooms: map<string, Room>, runs: map<string, RoomRun>, messages: map<string, RoomMessage>,
                   invites: map<string, Invite>, participants: map<string, Participant>, sessions: map<Digest, Session>,
                   spent: set<string>, clock: nat)

  predicate Active(r: RoomRun) {
    r.status == Queued || r.status == Running
  }

  predicate Terminal(s: RunStatus) {
    s == Completed || s == Failed || s == Canceled
  }

  predicate ActiveIn(runs: map<string, RoomRun>, room: string) {
    exists r :: r in runs && runs[r].room == room && Active(runs[r])
  }

  predicate KeyUsed(runs: map<string, RoomRun>, room: string, key: Option<string>) {
    key.Some? && exists r :: r in runs && runs[r].room == room && runs[r].key == key
  }

  predicate LiveSession(s: Session, now: nat) {
    !s.revoked && s.expiresAt > now
  }

  /** The host, and the guests with a live session. */
  function Live(d: Db, room: string, now: nat): set<string> {
    set p | p in d.participants && d.participants[p].room == room
            && (d.participants[p].role == Host || exists s :: s in d.sessions && d.sessions[s].participant == p && LiveSession(d.sessions[s], now))
  }

  // ── Committed events ───────────────────────────────────────────────────────

  datatype Event =
    | RoomCreated(room: string, host: string, invite: Digest, now: nat)
    | InviteExchanged(room: string, participant: string, session: Digest, now: nat)
    | InviteIssued(room: string, invite: Digest, now: nat)
    | InviteRevoked(room: string)
    | SessionsRevoked(room: string)
    | GuestsDropped(room: string)
    | GuestsOffline(room: string)
    | RoomShut(room: string)
    | TurnTaken(room: string, run: string, message: string, key: Option<string>, text: string, author: string, now: nat)
    | DeltaAppended(run: string, delta: string)
    | RunFinished(run: string, message: string, status: RunStatus, errorCode: Option<string>, errorMessage: Option<string>, now: nat)
    | RunCanceled(run: string, reason: string)
    | RoomIdled(room: string)
    | RunInterrupted(run: string, errorMessage: Option<string>)
    | RoomsInterrupted

  function SetStatus(rooms: map<string, Room>, room: string, status: RoomStatus): map<string, Room> {
    if room in rooms then rooms[room := Room(if rooms[room].status == RoomClosed then RoomClosed else status)] else rooms
  }

  function RevokeSessions(sessions: map<Digest, Session>, room: string): map<Digest, Session> {
    map s | s in sessions :: if sessions[s].room == room then sessions[s].(revoked := true) else sessions[s]
  }

  function WithoutGuests(participants: map<string, Participant>, room: string): map<string, Participant> {
    map p | p in participants && !(participants[p].room == room && participants[p].role == Guest) :: participants[p]
  }

  function TakenOffline(participants: map<string, Participant>, room: string): map<string, Participant> {
    map p | p in participants :: if participants[p].room == room then participants[p].(online := false) else participants[p]
  }

  /** Deleting participants deletes their sessions. */
  function Cascade(sessions: map<Digest, Session>, participants: map<string, Participant>): map<Digest, Session> {
    map s | s in sessions && sessions[s].participant in participants :: sessions[s]
  }

  function RunsOf(runs: map<string, RoomRun>, room: string): Rows {
    map r | r in runs && runs[r].room == room :: runs[r].createdAt
  }

  function MessagesOf(messages: map<string, RoomMessage>, room: string): Rows {
    map m | m in messages && messages[m].room == room :: messages[m].createdAt
  }

  function KeepRuns(runs: map<string, RoomRun>, room: string, kept: set<string>): map<string, RoomRun> {
    map r | r in runs && (runs[r].room == room ==> r in kept) :: runs[r]
  }

  function KeepMessages(messages: map<string, RoomMessage>, room: string, kept: set<string>): map<string, RoomMessage> {
    map m | m in messages && (messages[m].room == room ==> m in kept) :: messages[m]
  }

  /** A finished run: its row, its room, and the answer as a message if it completed with text. */
  function FinishedMessages(d: Db, run: string, message: string, status: RunStatus, now: nat): map<string, RoomMessage>
    requires run in d.runs
  {
    var r := d.runs[run];
    if status == Completed && r.partial != "" then d.messages[message := RoomMessage(r.room, Assistant, r.partial, None, now)] else d.messages
  }

  function FinishedRuns(d: Db, run: string, status: RunStatus, errorCode: Option<string>, errorMessage: Option<string>): map<string, RoomRun>
    requires run in d.runs
  {
    d.runs[run := d.runs[run].(status := status, errorCode := errorCode, errorMessage := errorMessage)]
  }

  /** What each event does. */
  ghost function Apply(d: Db, e: Event): Db
    requires Enabled(d, e)
  {
    match e
    case RoomCreated(room, host, invite, now) =>
      d.(rooms := d.rooms[room := Room(Idle)], invites := d.invites[room := Invite(invite, now + INVITE_TTL_SECS, false)],
         participants := d.participants[host := Participant(room, Host, true)], clock := now)
    case InviteExchanged(room, participant, session, now) =>
      d.(participants := d.participants[participant := Participant(room, Guest, true)],
         sessions := d.sessions[session := Session(room, participant, d.invites[room].digest, now + SESSION_TTL_SECS, false)], clock := now)
    case InviteIssued(room, invite, now) =>
      d.(invites := d.invites[room := Invite(invite, now + INVITE_TTL_SECS, false)], participants := WithoutGuests(d.participants, room),
         sessions := Cascade(RevokeSessions(d.sessions, room), WithoutGuests(d.participants, room)), clock := now)
    case InviteRevoked(room) =>
      if room in d.invites then d.(invites := d.invites[room := d.invites[room].(revoked := true)]) else d
    case SessionsRevoked(room) => d.(sessions := RevokeSessions(d.sessions, room))
    case GuestsDropped(room) =>
      d.(participants := WithoutGuests(d.participants, room), sessions := Cascade(d.sessions, WithoutGuests(d.participants, room)))
    case GuestsOffline(room) =>
      d.(participants := TakenOffline(d.participants, room))
    case RoomShut(room) => d.(rooms := d.rooms[room := Room(RoomClosed)])
    case TurnTaken(room, run, message, key, text, author, now) =>
      d.(rooms := SetStatus(d.rooms, room, RoomRunning), runs := d.runs[run := RoomRun(room, key, text, Running, "", None, None, now)],
         messages := d.messages[message := RoomMessage(room, User, text, Some(author), now)], spent := d.spent + {run}, clock := now)
    case DeltaAppended(run, delta) => d.(runs := d.runs[run := d.runs[run].(partial := d.runs[run].partial + delta)])
    case RunFinished(run, message, status, errorCode, errorMessage, now) =>
      var room := d.runs[run].room;
      var runs := FinishedRuns(d, run, status, errorCode, errorMessage);
      var messages := FinishedMessages(d, run, message, status, now);
      d.(rooms := SetStatus(d.rooms, room, if status == Failed then RoomFailed else Idle),
         runs := KeepRuns(runs, room, Newest(RunsOf(runs, room), MAX_RETAINED_RUNS)),
         messages := KeepMessages(messages, room, Newest(MessagesOf(messages, room), MAX_HISTORY_MESSAGES)), clock := now)
    case RunCanceled(run, reason) =>
      d.(runs := FinishedRuns(d, run, Canceled, Some("canceled"), Some(reason)))
    case RoomIdled(room) => d.(rooms := SetStatus(d.rooms, room, Idle))
    case RunInterrupted(run, errorMessage) =>
      d.(runs := FinishedRuns(d, run, Failed, Some("nodeRestarted"), errorMessage))
    case RoomsInterrupted =>
      d.(rooms := map r | r in d.rooms :: if d.rooms[r].status == RoomRunning then Room(RoomFailed) else d.rooms[r])
  }

  /** When an event may happen: what the code has checked, under its lock, before it commits. */
  ghost predicate Enabled(d: Db, e: Event) {
    match e
    case RoomCreated(room, host, _, now) => room !in d.rooms && host !in d.participants && now >= d.clock
    case InviteExchanged(room, participant, session, now) =>
      && room in d.rooms && d.rooms[room].status != RoomClosed
      && room in d.invites && !d.invites[room].revoked && d.invites[room].expiresAt > now && now >= d.clock
      && |Live(d, room, now)| < MAX_PARTICIPANTS && participant !in d.participants && session !in d.sessions
    case InviteIssued(room, _, now) => room in d.rooms && d.rooms[room].status != RoomClosed && room in d.invites && now >= d.clock
    case RoomShut(room) => room in d.rooms && d.rooms[room].status != RoomClosed
    case TurnTaken(room, run, message, key, _, _, now) =>
      && room in d.rooms && d.rooms[room].status != RoomClosed && !ActiveIn(d.runs, room) && !KeyUsed(d.runs, room, key)
      && run !in d.runs && run !in d.spent && message !in d.messages && now >= d.clock
    case DeltaAppended(run, delta) => run in d.runs && d.runs[run].status == Running && |d.runs[run].partial| + |delta| <= MAX_MESSAGE_CHARS
    case RunFinished(run, message, status, _, _, now) =>
      run in d.runs && Active(d.runs[run]) && message !in d.messages && Terminal(status) && now >= d.clock
    case RunCanceled(run, _) => run in d.runs && Active(d.runs[run])
    case RoomIdled(room) => !ActiveIn(d.runs, room)
    case RunInterrupted(run, _) => run in d.runs && Active(d.runs[run])
    case RoomsInterrupted => forall r :: r in d.runs ==> !Active(d.runs[r])
    case _ => true
  }

  // ── What holds at every committed state ────────────────────────────────────

  /** One active run per room, in a running (or closed) room; bounded text; idempotency keys unique. */
  ghost predicate RunsOk(rooms: map<string, Room>, runs: map<string, RoomRun>) {
    && (forall r :: r in runs ==> runs[r].room in rooms && |runs[r].partial| <= MAX_MESSAGE_CHARS)
    && (forall q, r :: q in runs && r in runs && runs[q].room == runs[r].room && Active(runs[q]) && Active(runs[r]) ==> q == r)
    && (forall r :: r in runs && Active(runs[r]) ==> rooms[runs[r].room].status == RoomRunning || rooms[runs[r].room].status == RoomClosed)
    && (forall q, r :: q in runs && r in runs && runs[q].room == runs[r].room && runs[q].key.Some? && runs[q].key == runs[r].key ==> q == r)
  }

  /** A session belongs to a guest of its room; unless revoked, it was minted from the room's present invite. */
  ghost predicate SessionsOk(d: Db) {
    && (forall s :: s in d.sessions ==>
          && d.sessions[s].participant in d.participants
          && d.participants[d.sessions[s].participant].room == d.sessions[s].room
          && d.participants[d.sessions[s].participant].role == Guest)
    && (forall s :: s in d.sessions && !d.sessions[s].revoked ==>
          d.sessions[s].room in d.invites && d.sessions[s].invite == d.invites[d.sessions[s].room].digest)
  }

  /** The room a participant hosts. */
  function HostOf(d: Db, p: string): Option<string>
    requires p in d.participants
  {
    if d.participants[p].role == Host then Some(d.participants[p].room) else None
  }

  /** Everything refers to a room that exists, one host each, never more than eight live participants. */
  ghost predicate GuestsOk(d: Db) {
    && (forall p :: p in d.participants ==> d.participants[p].room in d.rooms)
    && (forall p, q :: p in d.participants && q in d.participants && HostOf(d, p) == HostOf(d, q) && HostOf(d, p).Some? ==> p == q)
    && (forall room :: room in d.rooms ==> |Live(d, room, d.clock)| <= MAX_PARTICIPANTS)
  }

  ghost predicate Healthy(d: Db) {
    RunsOk(d.rooms, d.runs) && SessionsOk(d) && GuestsOk(d) && d.runs.Keys <= d.spent && d.invites.Keys <= d.rooms.Keys
  }

  /** Rooms stay, closed ones closed; terminal runs never change, and are only ever deleted; text only grows. */
  ghost predicate Evolves(d: Db, e: Db) {
    && (forall room :: room in d.rooms ==> room in e.rooms && (d.rooms[room].status == RoomClosed ==> e.rooms[room].status == RoomClosed))
    && d.spent <= e.spent && d.clock <= e.clock
    && (forall r :: r in d.spent && r !in d.runs ==> r !in e.runs)
    && (forall r :: r in d.runs && r in e.runs ==> RunEvolves(d.runs[r], e.runs[r]))
  }

  predicate RunEvolves(q: RoomRun, r: RoomRun) {
    && (!Active(q) ==> r == q)
    && r.room == q.room && r.key == q.key && r.input == q.input && r.createdAt == q.createdAt && q.partial <= r.partial
  }

  // ── Runs ───────────────────────────────────────────────────────────────────

  lemma TurnKeepsRuns(d: Db, e: Event)
    requires e.TurnTaken? && Enabled(d, e) && RunsOk(d.rooms, d.runs)
    ensures RunsOk(Apply(d, e).rooms, Apply(d, e).runs)
  {
    hide Live, Newest, KeepRuns, KeepMessages, FinishedRuns, FinishedMessages, WithoutGuests, Cascade, RevokeSessions;
    var after := Apply(d, e);
    assert forall r :: r in after.runs && Active(after.runs[r]) && after.runs[r].room == e.room ==> r == e.run;
    assert forall r :: r in after.runs && after.runs[r].room == e.room && e.key.Some? && after.runs[r].key == e.key ==> r == e.run;
  }

  /** One run's row changes, becoming terminal or growing; and then its room may change, if nothing in it is active. */
  lemma ChangeKeepsRuns(rooms: map<string, Room>, runs: map<string, RoomRun>, run: string, to: RoomRun)
    requires RunsOk(rooms, runs) && run in runs && to.room == runs[run].room && to.key == runs[run].key
    requires (Active(to) ==> Active(runs[run])) && |to.partial| <= MAX_MESSAGE_CHARS
    ensures RunsOk(rooms, runs[run := to])
  {
  }

  lemma FinishedIsQuiet(rooms: map<string, Room>, runs: map<string, RoomRun>, run: string, to: RoomRun)
    requires RunsOk(rooms, runs) && run in runs && Active(runs[run]) && to.room == runs[run].room && !Active(to)
    ensures !ActiveIn(runs[run := to], to.room)
  {
  }

  lemma FewerRunsOk(rooms: map<string, Room>, runs: map<string, RoomRun>, fewer: map<string, RoomRun>)
    requires RunsOk(rooms, runs) && forall r :: r in fewer ==> r in runs && fewer[r] == runs[r]
    ensures RunsOk(rooms, fewer)
  {
  }

  lemma StatusKeepsRuns(rooms: map<string, Room>, runs: map<string, RoomRun>, room: string, status: RoomStatus)
    requires RunsOk(rooms, runs) && !ActiveIn(runs, room)
    ensures RunsOk(SetStatus(rooms, room, status), runs)
  {
  }

  lemma QuietStays(runs: map<string, RoomRun>, room: string, kept: set<string>)
    requires !ActiveIn(runs, room)
    ensures !ActiveIn(KeepRuns(runs, room, kept), room)
  {
  }

  lemma FinishKeepsRuns(d: Db, e: Event)
    requires e.RunFinished? && Enabled(d, e) && RunsOk(d.rooms, d.runs)
    ensures RunsOk(Apply(d, e).rooms, Apply(d, e).runs)
    ensures !ActiveIn(Apply(d, e).runs, d.runs[e.run].room)
  {
    hide RunsOk, ActiveIn;
    var room := d.runs[e.run].room;
    var to := d.runs[e.run].(status := e.status, errorCode := e.errorCode, errorMessage := e.errorMessage);
    var runs := FinishedRuns(d, e.run, e.status, e.errorCode, e.errorMessage);
    var kept := KeepRuns(runs, room, Newest(RunsOf(runs, room), MAX_RETAINED_RUNS));
    BoundedPartial(d.rooms, d.runs, e.run);
    ChangeKeepsRuns(d.rooms, d.runs, e.run, to);
    FinishedIsQuiet(d.rooms, d.runs, e.run, to);
    FewerRunsOk(d.rooms, runs, kept);
    QuietStays(runs, room, Newest(RunsOf(runs, room), MAX_RETAINED_RUNS));
    StatusKeepsRuns(d.rooms, kept, room, if e.status == Failed then RoomFailed else Idle);
  }

  lemma BoundedPartial(rooms: map<string, Room>, runs: map<string, RoomRun>, run: string)
    requires RunsOk(rooms, runs) && run in runs
    ensures |runs[run].partial| <= MAX_MESSAGE_CHARS
  {
  }

  lemma RoomsGrowKeepsRuns(rooms: map<string, Room>, more: map<string, Room>, runs: map<string, RoomRun>)
    requires RunsOk(rooms, runs) && forall r :: r in rooms ==> r in more && (more[r] == rooms[r] || more[r].status == RoomClosed)
    ensures RunsOk(more, runs)
  {
  }

  lemma QuietRoomsKeepRuns(rooms: map<string, Room>, others: map<string, Room>, runs: map<string, RoomRun>)
    requires RunsOk(rooms, runs) && others.Keys == rooms.Keys && forall r :: r in runs ==> !Active(runs[r])
    ensures RunsOk(others, runs)
  {
  }

  lemma EventKeepsRuns(d: Db, e: Event)
    requires Enabled(d, e) && RunsOk(d.rooms, d.runs)
    ensures RunsOk(Apply(d, e).rooms, Apply(d, e).runs)
  {
    hide RunsOk, ActiveIn, Live, Newest, KeyUsed;
    match e {
      case TurnTaken(_, _, _, _, _, _, _) => TurnKeepsRuns(d, e);
      case RunFinished(_, _, _, _, _, _) => FinishKeepsRuns(d, e);
      case DeltaAppended(run, delta) => ChangeKeepsRuns(d.rooms, d.runs, run, d.runs[run].(partial := d.runs[run].partial + delta));
      case RunCanceled(run, reason) =>
        BoundedPartial(d.rooms, d.runs, run);
        ChangeKeepsRuns(d.rooms, d.runs, run, d.runs[run].(status := Canceled, errorCode := Some("canceled"), errorMessage := Some(reason)));
      case RunInterrupted(run, errorMessage) =>
        BoundedPartial(d.rooms, d.runs, run);
        ChangeKeepsRuns(d.rooms, d.runs, run, d.runs[run].(status := Failed, errorCode := Some("nodeRestarted"), errorMessage := errorMessage));
      case RoomIdled(room) => StatusKeepsRuns(d.rooms, d.runs, room, Idle);
      case RoomsInterrupted => QuietRoomsKeepRuns(d.rooms, Apply(d, e).rooms, d.runs);
      case _ => RoomsGrowKeepsRuns(d.rooms, Apply(d, e).rooms, d.runs);
    }
  }

  /** Trimming, and every other event, never deletes an active run. */
  lemma ActiveRunsStay(d: Db, e: Event, run: string)
    requires Enabled(d, e) && RunsOk(d.rooms, d.runs) && run in d.runs && Active(d.runs[run])
    ensures run in Apply(d, e).runs || (e.RunFinished? && e.run == run)
  {
    hide Live, Newest;
    if e.RunFinished? && e.run != run {
      assert d.runs[e.run].room != d.runs[run].room;
    }
  }

  lemma RoomsEvolve(d: Db, e: Event)
    requires Enabled(d, e)
    ensures forall room :: room in d.rooms ==> room in Apply(d, e).rooms && (d.rooms[room].status == RoomClosed ==> Apply(d, e).rooms[room].status == RoomClosed)
    ensures d.spent <= Apply(d, e).spent && d.clock <= Apply(d, e).clock
  {
    hide Live, Newest, KeepRuns, KeepMessages, FinishedMessages, FinishedRuns, WithoutGuests, Cascade, RevokeSessions;
  }

  lemma RunsEvolve(d: Db, e: Event)
    requires Enabled(d, e) && d.runs.Keys <= d.spent
    ensures Apply(d, e).runs.Keys <= Apply(d, e).spent
    ensures forall r :: r in d.spent && r !in d.runs ==> r !in Apply(d, e).runs
    ensures forall r :: r in d.runs && r in Apply(d, e).runs ==> RunEvolves(d.runs[r], Apply(d, e).runs[r])
  {
    hide Live, Newest, KeepMessages, FinishedMessages, WithoutGuests, Cascade, RevokeSessions, SetStatus;
    match e {
      case TurnTaken(_, _, _, _, _, _, _) =>
      case RunFinished(_, _, _, _, _, _) =>
      case _ => assert Apply(d, e).spent == d.spent;
    }
  }

  lemma EventEvolves(d: Db, e: Event)
    requires Enabled(d, e) && d.runs.Keys <= d.spent
    ensures Evolves(d, Apply(d, e)) && Apply(d, e).runs.Keys <= Apply(d, e).spent
  {
    hide Enabled, RunEvolves;
    RoomsEvolve(d, e);
    RunsEvolve(d, e);
  }

  lemma EvolvesTransitive(x: Db, y: Db, z: Db)
    requires Evolves(x, y) && Evolves(y, z) && x.runs.Keys <= x.spent
    ensures Evolves(x, z)
  {
    forall r | r in x.runs && r in z.runs ensures RunEvolves(x.runs[r], z.runs[r]) {
      assert r in y.runs;
    }
  }
}
