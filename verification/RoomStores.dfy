/** The Rooms store: each operation, and the statements it commits one by one. */
module RoomStores {
  import opened Wrappers
  import opened Recency
  import opened RoomEvents
  import opened RoomGuests
  import opened RoomSessions
  import opened RoomSteadiness
  import Text

  const MAX_MODEL_ID_CHARS := 256
  const MAX_PROMPT_CHARS := 16000
  const MAX_DELTA_CHARS := 4096
  const MAX_DISPLAY_NAME_CHARS := 80
  const MAX_IDEMPOTENCY_KEY_CHARS := 128
  const MAX_TOKEN_BYTES := 128

  datatype StoreError = Database | Invalid | NotFound | RoomBusy | Closed | Forbidden | InviteUnavailable | Conflict | Seal

  datatype RoomSession = RoomSession(room: string, participant: string, role: ParticipantRole)

  datatype RunTerminal = RunTerminal(status: RunStatus, errorCode: Option<string>, errorMessage: Option<string>)

  /** The run an accepted turn answers with, and whether the turn made a new one. */
  datatype AcceptedRun = AcceptedRun(run: string, isNew: bool)

  predicate IsControl(c: char) {
    c as int < 0x20 || 0x7F <= c as int <= 0x9F
  }

  function ValidateNonEmpty(value: string, max: nat): Option<string> {
    var trimmed := Text.Trim(value);
    if trimmed == "" || |trimmed| > max || exists i :: 0 <= i < |trimmed| && IsControl(trimmed[i]) then None else Some(trimmed)
  }

  /** What a validated text is: trimmed, not empty, not too long, free of control characters. */
  lemma ValidatesIff(value: string, max: nat, text: string)
    ensures ValidateNonEmpty(value, max) == Some(text)
       <==> text == Text.Trim(value) && 0 < |text| <= max && forall c :: c in text ==> !(c as int < 32) && !(127 <= c as int <= 159)
  {
    assert forall c :: c in Text.Trim(value) ==> exists i :: 0 <= i < |Text.Trim(value)| && Text.Trim(value)[i] == c;
    assert forall i :: 0 <= i < |Text.Trim(value)| ==> Text.Trim(value)[i] in Text.Trim(value);
  }

  predicate ValidDelta(delta: string) {
    delta != "" && |delta| <= MAX_DELTA_CHARS
    && forall i :: 0 <= i < |delta| ==> !IsControl(delta[i]) || delta[i] == '\n' || delta[i] == '\r' || delta[i] == '\t'
  }

  /** `log` goes on by some first part of `events`. */
  predicate Continues(log: seq<Event>, more: seq<Event>, events: seq<Event>) {
    log <= more <= log + events
  }

  predicate ValidToken(token: string) {
    token != "" && Text.ByteLength(token) <= MAX_TOKEN_BYTES && forall i :: 0 <= i < |token| ==> !IsControl(token[i])
  }

  /** The participant has a session that is not revoked and not over. */
  predicate HoldsSession(d: Db, participant: string, now: nat) {
    exists s :: s in d.sessions && d.sessions[s].participant == participant && !d.sessions[s].revoked && now < d.sessions[s].expiresAt
  }

  /** The room's invite can be exchanged now. */
  predicate Usable(d: Db, room: string, now: nat) {
    && room in d.invites && !d.invites[room].revoked && d.invites[room].expiresAt > now
    && room in d.rooms && d.rooms[room].status != RoomClosed
  }

  predicate Streaming(d: Db, room: string, run: string) {
    run in d.runs && d.runs[run].room == room && d.runs[run].status == Running
  }

  class RoomStore {
    const digest: string -> Digest
    /** Whether this process holds the store's sealing key. */
    const writable: bool
    /** Whether a participant's sealed name opens. */
    const opens: string -> bool
    /** Whether a room's share origin is a valid one. */
    const validOrigin: string -> bool
    /** Whether the n-th statement, transaction or later read works. */
    const disk: nat -> bool
    var calls: nat
    var db: Db
    ghost var initial: Db
    /** Everything committed since `initial`, by this process and those before it. */
    ghost var log: seq<Event>

    ghost predicate Valid()
      reads this
    {
      Healthy(initial) && Possible(initial, log) && db == After(initial, log)
    }

    /** Every statement, transaction and read works. */
    ghost predicate Reliable() {
      forall n :: disk(n)
    }

    /** Open the store in whatever state its past left it. */
    constructor (digest: string -> Digest, writable: bool, opens: string -> bool, validOrigin: string -> bool, disk: nat -> bool,
                 db: Db, ghost first: Db, ghost past: seq<Event>)
      requires Healthy(first) && Possible(first, past) && db == After(first, past)
      ensures Valid() && this.db == db && initial == first && log == past
      ensures this.digest == digest && this.writable == writable && this.opens == opens && this.validOrigin == validOrigin && this.disk == disk
    {
      this.digest, this.writable, this.opens, this.validOrigin, this.disk := digest, writable, opens, validOrigin, disk;
      this.calls, this.db, this.initial, this.log := 0, db, first, past;
    }

    lemma Sound()
      requires Valid()
      ensures Healthy(db) && RunsOk(db.rooms, db.runs) && SessionsOk(db) && db.runs.Keys <= db.spent
    {
      hide RunsOk, SessionsOk, GuestsOk, Possible, After;
      AlwaysOk(initial, log);
    }

    /** One statement or transaction: it commits as a whole, or fails and leaves nothing. */
    method Commit(next: Db, ghost e: Event) returns (ok: bool)
      requires Valid() && Enabled(db, e) && next == Apply(db, e)
      modifies this`db, this`log, this`calls
      ensures Valid() && db == (if ok then next else old(db)) && log == old(log) + (if ok then [e] else [])
      ensures ok <==> disk(old(calls))
    {
      hide Healthy, Enabled, Apply;
      ok := disk(calls);
      calls := calls + 1;
      if ok {
        ghost var more := log + [e];
        assert more[..|more| - 1] == log;
        log := more;
        db := next;
      }
    }

    /** A read, or a statement that changes nothing modelled here. */
    method Attempt() returns (ok: bool)
      requires Valid()
      modifies this`calls
      ensures Valid() && (ok <==> disk(old(calls)))
    {
      hide Healthy, Possible, After;
      ok := disk(calls);
      calls := calls + 1;
    }

    // ── Rooms and guests ─────────────────────────────────────────────────────

    /** Create a room, in one transaction, and read it back; if only the reading fails, the room is there. */
    method CreateRoom(model: string, origin: string, room: string, host: string, secret: string, now: nat) returns (r: Result<string, StoreError>)
      requires Valid() && now >= db.clock
      modifies this`db, this`log, this`calls
      ensures Valid()
      ensures r.Ok? ==> r.value == secret && log == old(log) + [RoomCreated(room, host, digest(secret), now)]
      ensures (log == old(log) || log == old(log) + [RoomCreated(room, host, digest(secret), now)]) && (log == old(log) ==> db == old(db))
      ensures log != old(log) ==>
        db == old(db).(rooms := old(db).rooms[room := Room(Idle)], invites := old(db).invites[room := Invite(digest(secret), now + 600, false)],
                       participants := old(db).participants[host := Participant(room, Host, true)], clock := now)
      ensures r == Err(Invalid) <==> ValidateNonEmpty(model, MAX_MODEL_ID_CHARS).None? || !validOrigin(origin)
      ensures r.Err? ==> r.error in {Invalid, Seal, Database} && (r.error != Database ==> log == old(log))
      ensures r == Err(Seal) ==> !writable
      ensures r == Err(Database) ==> !Reliable() || room in old(db).rooms || host in old(db).participants
      ensures (Settled(old(db)) ==> Settled(db)) && (Steady(old(db)) ==> Steady(db))
    {
      hide Healthy, Possible, After, RunsOk, SessionsOk, ActiveIn, Settled, Steady, Apply, Enabled, Live;
      Sound();
      if ValidateNonEmpty(model, MAX_MODEL_ID_CHARS).None? || !validOrigin(origin) {
        return Err(Invalid);
      }
      if !writable {
        return Err(Seal);
      }
      if room in db.rooms || host in db.participants {
        return Err(Database);
      }
      var next := db.(rooms := db.rooms[room := Room(Idle)], invites := db.invites[room := Invite(digest(secret), now + INVITE_TTL_SECS, false)],
                      participants := db.participants[host := Participant(room, Host, true)], clock := now);
      ghost var e := RoomCreated(room, host, digest(secret), now);
      CreateEvent(db, next, e);
      EventSettles(db, e);
      EventSteadies(db, e);
      var ok := Commit(next, e);
      if !ok {
        return Err(Database);
      }
      var read := Attempt();
      r := if read then Ok(secret) else Err(Database);
    }

    method FindInvite(d: Digest) returns (r: Option<string>)
      ensures r.Some? ==> r.value in db.invites && db.invites[r.value].digest == d
      ensures r.None? ==> forall room :: room in db.invites ==> db.invites[room].digest != d
    {
      var rest := db.invites.Keys;
      while rest != {}
        invariant rest <= db.invites.Keys && forall room :: room in db.invites && room !in rest ==> db.invites[room].digest != d
      {
        var room :| room in rest;
        if db.invites[room].digest == d {
          return Some(room);
        }
        rest := rest - {room};
      }
      r := None;
    }

    /** The host plus the guests who still hold an unrevoked, unexpired session. */
    method LiveParticipants(room: string, now: nat) returns (live: set<string>)
      ensures live == Live(db, room, now)
      ensures live <= db.participants.Keys
      ensures forall p :: p in db.participants ==> (p in live <==> db.participants[p].room == room && (db.participants[p].role == Host || HoldsSession(db, p, now)))
    {
      live := {};
      var rest := db.participants.Keys;
      while rest != {}
        invariant rest <= db.participants.Keys && live == Live(db, room, now) - rest
      {
        var p :| p in rest;
        rest := rest - {p};
        if db.participants[p].room == room {
          var liveSession := exists s :: s in db.sessions && db.sessions[s].participant == p && LiveSession(db.sessions[s], now);
          if db.participants[p].role == Host || liveSession {
            live := live + {p};
          }
        }
      }
    }

    /** Exchange an invite for a guest session: one transaction, refused once eight participants are live. */
    method ExchangeInvite(raw: string, displayName: string, participant: string, secret: string, now: nat) returns (r: Result<RoomSession, StoreError>)
      requires Valid() && now >= db.clock
      modifies this`db, this`log, this`calls
      ensures Valid() && (Settled(old(db)) ==> Settled(db)) && (Steady(old(db)) ==> Steady(db))
      ensures r.Ok? ==>
        && Usable(old(db), r.value.room, now)
        && !old(db).invites[r.value.room].revoked && now < old(db).invites[r.value.room].expiresAt && old(db).rooms[r.value.room].status != RoomClosed
        && old(db).invites[r.value.room].digest == digest(Text.Trim(raw))
        && |Live(old(db), r.value.room, now)| < MAX_PARTICIPANTS
        && r.value == RoomSession(r.value.room, participant, Guest)
        && log == old(log) + [InviteExchanged(r.value.room, participant, digest(secret), now)]
        && db == old(db).(participants := old(db).participants[participant := Participant(r.value.room, Guest, true)], clock := now,
                          sessions := old(db).sessions[digest(secret) := Session(r.value.room, participant, digest(Text.Trim(raw)), now + 43200, false)])
      ensures r.Err? ==> db == old(db) && log == old(log)
      ensures r == Err(Invalid) <==> ValidateNonEmpty(displayName, MAX_DISPLAY_NAME_CHARS).None?
      ensures r == Err(InviteUnavailable) && ValidToken(Text.Trim(raw)) ==>
        || (forall room :: room in db.invites ==> db.invites[room].digest != digest(Text.Trim(raw)))
        || (exists room :: room in db.invites && db.invites[room].digest == digest(Text.Trim(raw)) && !Usable(db, room, now))
      ensures r == Err(Seal) ==> !writable
      ensures r.Err? ==> r.error in {Invalid, InviteUnavailable, Seal, Conflict, Database}
      ensures r == Err(Database) ==> !Reliable() || participant in old(db).participants || digest(secret) in old(db).sessions
      ensures r == Err(Conflict) ==> exists room :: room in db.invites && db.invites[room].digest == digest(Text.Trim(raw)) && |Live(db, room, now)| >= MAX_PARTICIPANTS
    {
      hide Possible, After, Live, RunsOk, SessionsOk, Healthy, Steady, Settled, Apply, Enabled;
      if ValidateNonEmpty(displayName, MAX_DISPLAY_NAME_CHARS).None? {
        return Err(Invalid);
      }
      var token := Text.Trim(raw);
      if !ValidToken(token) {
        return Err(InviteUnavailable);
      }
      if !writable {
        return Err(Seal);
      }
      var found := FindInvite(digest(token));
      if found.None? {
        return Err(InviteUnavailable);
      }
      var room := found.value;
      Sound();
      InviteHasRoom(db, room);
      if !Usable(db, room, now) {
        return Err(InviteUnavailable);
      }
      var live := LiveParticipants(room, now);
      if |live| >= MAX_PARTICIPANTS {
        return Err(Conflict);
      }
      var session := digest(secret);
      if participant in db.participants || session in db.sessions {
        return Err(Database);
      }
      var next := db.(participants := db.participants[participant := Participant(room, Guest, true)],
                      sessions := db.sessions[session := Session(room, participant, db.invites[room].digest, now + SESSION_TTL_SECS, false)], clock := now);
      Sound();
      AdmitEvent(db, next, room, participant, session, now);
      SameSteady(db, next);
      var ok := Commit(next, InviteExchanged(room, participant, session, now));
      r := if ok then Ok(RoomSession(room, participant, Guest)) else Err(Database);
    }

    /** Rotate the invite: one transaction that also revokes and drops every guest of the old one. */
    method IssueInvite(room: string, secret: string, now: nat) returns (r: Result<string, StoreError>)
      requires Valid() && now >= db.clock
      modifies this`db, this`log, this`calls
      ensures Valid() && (Settled(old(db)) ==> Settled(db)) && (Steady(old(db)) ==> Steady(db))
      ensures r.Ok? ==> r.value == secret && log == old(log) + [InviteIssued(room, digest(secret), now)]
      ensures r.Err? ==> db == old(db) && log == old(log)
      ensures room !in old(db).rooms ==> r == Err(NotFound)
      ensures r == Err(NotFound) ==> room !in old(db).rooms || room !in old(db).invites
      ensures r == Err(Closed) ==> room in old(db).rooms && old(db).rooms[room].status == RoomClosed
      ensures r.Err? ==> r.error in {NotFound, Closed, Database} && (r.error == Database ==> !Reliable())
      ensures room in old(db).rooms && old(db).rooms[room].status == RoomClosed ==> r == Err(Closed)
      ensures r.Ok? ==> db == old(db).(invites := old(db).invites[room := Invite(digest(secret), now + 600, false)],
                                       participants := db.participants, sessions := db.sessions, clock := now)
      ensures r.Ok? ==> GuestsGone(old(db), db, room) && forall s :: s in db.sessions && db.sessions[s].room == room ==> db.sessions[s].revoked
    {
      hide Possible, After, RunsOk, SessionsOk, Healthy, ActiveIn, Settled, Steady, Apply, Enabled, Live;
      if room !in db.rooms {
        return Err(NotFound);
      }
      if db.rooms[room].status == RoomClosed {
        return Err(Closed);
      }
      if room !in db.invites {
        return Err(NotFound);
      }
      var guests := WithoutGuests(db.participants, room);
      var next := db.(invites := db.invites[room := Invite(digest(secret), now + INVITE_TTL_SECS, false)], participants := guests,
                      sessions := Cascade(RevokeSessions(db.sessions, room), guests), clock := now);
      ghost var e := InviteIssued(room, digest(secret), now);
      IssueEvent(db, next, e);
      Sound();
      EventSettles(db, e);
      SameSteady(db, next);
      var ok := Commit(next, e);
      r := if ok then Ok(secret) else Err(Database);
    }

    /** The token is that of a session not revoked and not expired. */
    predicate Accepts(raw: string, now: nat)
      reads this`db
    {
      var token := Text.Trim(raw);
      token != "" && Text.ByteLength(token) <= 128 && digest(token) in db.sessions
      && !db.sessions[digest(token)].revoked && now < db.sessions[digest(token)].expiresAt
    }

    /**
      The session a raw token names, if it is still accepted. It was minted from
      the room's present invite. The room is open and that invite unrevoked if and
      only if every closing and revoking in the room's past was made good.
     */
    method ResolveSession(raw: string, now: nat) returns (r: Result<Option<RoomSession>, StoreError>)
      requires Valid()
      modifies this`calls
      ensures Valid()
      ensures r.Ok? ==> (r.value.Some? <==> Accepts(raw, now))
      ensures r == Err(Seal) ==> Accepts(raw, now) && !opens(db.sessions[digest(Text.Trim(raw))].participant)
      ensures r.Err? ==> r.error == Seal || (r.error == Database && !Reliable())
      ensures r.Ok? && r.value.Some? ==> var s := db.sessions[digest(Text.Trim(raw))];
        r.value.value == RoomSession(s.room, s.participant, Guest) && s.room in db.invites && s.invite == db.invites[s.room].digest && opens(s.participant)
      ensures r.Ok? && r.value.Some? && SettledIn(initial, r.value.value.room) ==>
        (Inviting(db, r.value.value.room) <==> MadeGood(initial, log, r.value.value.room))
    {
      hide Possible, After, RunsOk, Healthy, MadeGood, Inviting;
      Sound();
      var token := Text.Trim(raw);
      if token == "" || Text.ByteLength(token) > MAX_TOKEN_BYTES {
        return Ok(None);
      }
      var read := Attempt();
      if !read {
        return Err(Database);
      }
      var s := digest(token);
      if s !in db.sessions || db.sessions[s].participant !in db.participants {
        return Ok(None);
      }
      var session := db.sessions[s];
      if session.revoked || session.expiresAt <= now {
        return Ok(None);
      }
      if !opens(session.participant) {
        return Err(Seal);
      }
      assert HasSession(db, session.room);
      if SettledIn(initial, session.room) {
        SettledIff(initial, log, session.room);
      }
      r := Ok(Some(RoomSession(session.room, session.participant, db.participants[session.participant].role)));
    }

    /** Take the invite back: three statements, each committed on its own. */
    method RevokeInvite(room: string) returns (r: Result<bool, StoreError>)
      requires Valid()
      modifies this`db, this`log, this`calls
      ensures Valid() && (Steady(old(db)) ==> Steady(db))
      ensures (room !in old(db).invites || old(db).invites[room].revoked) <==> r == Err(NotFound)
      ensures r == Err(NotFound) ==> db == old(db) && log == old(log)
      ensures Continues(old(log), log, Revoking(room))
      ensures r.Ok? ==> log == old(log) + Revoking(room) && (Settled(old(db)) ==> Settled(db))
      ensures r.Ok? ==> GuestsGone(old(db), db, room) && db == old(db).(
        invites := old(db).invites[room := old(db).invites[room].(revoked := true)], participants := db.participants, sessions := db.sessions)
      ensures r.Err? ==> r.error == NotFound || (r.error == Database && !Reliable())
      ensures r.Ok? ==> forall s :: s in db.sessions && !db.sessions[s].revoked ==> s in old(db).sessions && db.sessions[s] == old(db).sessions[s] && db.sessions[s].room != room
    {
      hide Possible, After, RunsOk, SessionsOk, Healthy, ActiveIn, Settled, Steady, RevokeSessions, WithoutGuests, Cascade, GuestsGone, Apply, Enabled;
      NoneLeft(db.sessions, room);
      if room !in db.invites || db.invites[room].revoked {
        return Err(NotFound);
      }
      ghost var start := db;
      RevokeEvents(db, room);
      var ok := Commit(db.(invites := db.invites[room := db.invites[room].(revoked := true)]), InviteRevoked(room));
      SameSteady(start, db);
      if !ok {
        return Err(Database);
      }
      RevokeEvents(db, room);
      ok := Commit(db.(sessions := RevokeSessions(db.sessions, room)), SessionsRevoked(room));
      SameSteady(start, db);
      if !ok {
        return Err(Database);
      }
      RevokeEvents(db, room);
      var guests := WithoutGuests(db.participants, room);
      FewerSessions(db.sessions, guests);
      ok := Commit(db.(participants := guests, sessions := Cascade(db.sessions, guests)), GuestsDropped(room));
      SameSteady(start, db);
      if !ok {
        return Err(Database);
      }
      RevokedSettles(start, db, room);
      GoneWhenDropped(start, db, room);
      r := Ok(true);
    }

    /** Close the room for good: four statements, each committed on its own. */
    method CloseRoom(room: string) returns (r: Result<bool, StoreError>)
      requires Valid()
      modifies this`db, this`log, this`calls
      ensures Valid() && (Steady(old(db)) ==> Steady(db))
      ensures (room !in old(db).rooms || old(db).rooms[room].status == RoomClosed) <==> r == Err(NotFound)
      ensures r == Err(NotFound) ==> db == old(db) && log == old(log)
      ensures Continues(old(log), log, Closing(room))
      ensures r.Ok? ==> log == old(log) + Closing(room) && (Settled(old(db)) ==> Settled(db))
      ensures r.Ok? ==> GuestsOut(old(db), db, room) && db == old(db).(
        rooms := old(db).rooms[room := Room(RoomClosed)], invites := db.invites, participants := db.participants, sessions := db.sessions)
      ensures db.runs == old(db).runs
      ensures r.Err? ==> r.error == NotFound || (r.error == Database && !Reliable())
      ensures r.Ok? ==> forall s :: s in db.sessions && !db.sessions[s].revoked ==> s in old(db).sessions && db.sessions[s] == old(db).sessions[s] && db.sessions[s].room != room
    {
      hide Possible, After, RunsOk, SessionsOk, Healthy, ActiveIn, Steady, Settled;
      if room !in db.rooms || db.rooms[room].status == RoomClosed {
        return Err(NotFound);
      }
      ghost var start := db;
      Sound();
      EventSteadies(db, RoomShut(room));
      var ok := Commit(db.(rooms := db.rooms[room := Room(RoomClosed)]), RoomShut(room));
      if !ok {
        return Err(Database);
      }
      ghost var shut := db;
      ok := RevokeGuests(room);
      SameSteady(shut, db);
      if !ok {
        return Err(Database);
      }
      ClosedSettles(start, db, room);
      r := Ok(true);
    }

    /** The rest of a closing: the invite, the sessions, the participants, each in its own statement. */
    method RevokeGuests(room: string) returns (ok: bool)
      requires Valid()
      modifies this`db, this`log, this`calls
      ensures Valid() && db == old(db).(invites := db.invites, participants := db.participants, sessions := db.sessions)
      ensures ok ==> GuestsOut(old(db), db, room)
      ensures Continues(old(log), log, [InviteRevoked(room), SessionsRevoked(room), GuestsOffline(room)]) && (!ok ==> !Reliable())
      ensures ok ==> log == old(log) + [InviteRevoked(room), SessionsRevoked(room), GuestsOffline(room)]
      ensures ok ==> db.invites.Keys == old(db).invites.Keys && forall r :: r in db.invites && r != room ==> db.invites[r] == old(db).invites[r]
      ensures ok ==> forall s :: s in db.sessions && !db.sessions[s].revoked ==>
        s in old(db).sessions && db.sessions[s] == old(db).sessions[s] && db.sessions[s].room != room
    {
      hide Possible, After, Healthy, Apply, Enabled, RevokeSessions, TakenOffline, GuestsOut;
      ghost var start := db;
      RevokeEvents(db, room);
      NoneLeft(db.sessions, room);
      ok := Commit(if room in db.invites then db.(invites := db.invites[room := db.invites[room].(revoked := true)]) else db, InviteRevoked(room));
      if !ok {
        return;
      }
      RevokeEvents(db, room);
      ok := Commit(db.(sessions := RevokeSessions(db.sessions, room)), SessionsRevoked(room));
      if !ok {
        return;
      }
      RevokeEvents(db, room);
      ok := Commit(db.(participants := TakenOffline(db.participants, room)), GuestsOffline(room));
      if ok {
        OutWhenRevoked(start, db, room);
      }
    }

    // ── Turns and runs ───────────────────────────────────────────────────────

    /** The run a room's idempotency key names. */
    method FindKey(room: string, key: string) returns (r: Option<string>)
      ensures r.Some? ==> r.value in db.runs && db.runs[r.value].room == room && db.runs[r.value].key == Some(key)
      ensures r.None? ==> !KeyUsed(db.runs, room, Some(key))
    {
      var rest := db.runs.Keys;
      while rest != {}
        invariant rest <= db.runs.Keys && forall q :: q in db.runs && q !in rest ==> !(db.runs[q].room == room && db.runs[q].key == Some(key))
      {
        var q :| q in rest;
        if db.runs[q].room == room && db.runs[q].key == Some(key) {
          return Some(q);
        }
        rest := rest - {q};
      }
      r := None;
    }

    /**
      Accept a user turn. A repeated idempotency key answers the run it made
      before, if the text is the same, and changes nothing; a new turn is refused
      while the room has an active run. What is answered is read back after the
      commit: if that fails, the turn is taken all the same.
     */
    method AppendUserTurn(session: RoomSession, input: string, key: Option<string>, run: string, message: string, now: nat) returns (r: Result<AcceptedRun, StoreError>)
      requires Valid() && now >= db.clock
      modifies this`db, this`log, this`calls
      ensures Valid() && (Steady(old(db)) ==> Steady(db)) && (Settled(old(db)) ==> Settled(db))
      ensures log == old(log) ==> db == old(db)
      ensures log != old(log) ==>
        && ValidTurn(input, key) && run !in old(db).spent && !ActiveIn(old(db).runs, session.room) && !KeyUsed(old(db).runs, session.room, CleanKey(key))
        && log == old(log) + [TurnTaken(session.room, run, message, CleanKey(key), Text.Trim(input), session.participant, now)]
        && TurnStored(old(db), db, session.room, run, message, CleanKey(key), Text.Trim(input), session.participant, now)
      ensures old(Takes(session, input, key, run, message)) && Reliable() ==>
        log != old(log) && if InSnapshot(db, session.room, message) then r.Ok? && r.value.isNew else r == Err(NotFound)
      ensures old(Repeats(session, input, key)) && Reliable() ==>
        log == old(log) && if Shown(db, session.room, Text.Trim(input)) then r.Ok? && !r.value.isNew else r == Err(NotFound)
      ensures r.Ok? ==> (r.value.isNew <==> log != old(log))
      ensures r.Ok? ==> ValidTurn(input, key) && Answered(db, session.room, ValidateNonEmpty(input, MAX_PROMPT_CHARS).value, if r.value.isNew then Some(message) else None)
      ensures r.Ok? && r.value.isNew ==>
        && IsLatest(CurrentRuns(db.runs, session.room), r.value.run)
        && ((forall q :: q in old(db).runs && old(db).runs[q].room == session.room ==> old(db).runs[q].createdAt < now) ==> r.value.run == run)
        && NewestCurrent(db, session.room, r.value.run)
      ensures r.Ok? && !r.value.isNew ==>
        && key.Some? && r.value.run in db.runs && db.runs[r.value.run].room == session.room && db.runs[r.value.run].key == CleanKey(key)
        && db.runs[r.value.run].input == ValidateNonEmpty(input, MAX_PROMPT_CHARS).value
      ensures r == Err(Forbidden) <==> session.role == Viewer
      ensures r == Err(Invalid) <==> session.role != Viewer && !ValidTurn(input, key)
      ensures session.role != Viewer && ValidTurn(input, key) && session.room !in old(db).rooms ==> r == Err(NotFound)
      ensures r == Err(NotFound) && session.room in old(db).rooms ==>
        !Answered(db, session.room, ValidateNonEmpty(input, MAX_PROMPT_CHARS).value, if log != old(log) then Some(message) else None)
      ensures r == Err(Closed) <==>
        session.role != Viewer && ValidTurn(input, key) && session.room in old(db).rooms && old(db).rooms[session.room].status == RoomClosed
      ensures r == Err(RoomBusy) ==> ActiveIn(db.runs, session.room) && !KeyUsed(db.runs, session.room, CleanKey(key))
      ensures r == Err(Conflict) ==> exists q :: q in db.runs && db.runs[q].room == session.room && CleanKey(key).Some? && db.runs[q].key == CleanKey(key)
                                       && db.runs[q].input != ValidateNonEmpty(input, MAX_PROMPT_CHARS).value
      ensures r == Err(Seal) ==> !writable
      ensures r == Err(Database) ==> !Reliable() || run in old(db).runs || run in old(db).spent || message in old(db).messages
      ensures r.Err? && log != old(log) ==> r.error == NotFound || (r.error == Database && !Reliable())
    {
      hide Possible, After, RunsOk, SessionsOk, Healthy, Live, Steady, Settled, Newest, Later, Apply, Enabled, Answered, InSnapshot, Shown, IsLatest, CurrentRuns, NewestCurrent;
      Sound();
      if session.role == Viewer {
        return Err(Forbidden);
      }
      var text := ValidateNonEmpty(input, MAX_PROMPT_CHARS);
      if text.None? {
        return Err(Invalid);
      }
      if key.Some? && ValidateNonEmpty(key.value, MAX_IDEMPOTENCY_KEY_CHARS).None? {
        return Err(Invalid);
      }
      var clean := CleanKey(key);
      if session.room !in db.rooms {
        return Err(NotFound);
      }
      if db.rooms[session.room].status == RoomClosed {
        return Err(Closed);
      }
      if clean.Some? {
        var existing := FindKey(session.room, clean.value);
        if existing.Some? {
          if db.runs[existing.value].input != text.value {
            return Err(Conflict);
          }
          ShownIff(db, session.room, text.value);
          r := ReadTurn(session.room, text.value, existing.value, None);
          return;
        }
      }
      if ActiveIn(db.runs, session.room) {
        return Err(RoomBusy);
      }
      if !writable {
        return Err(Seal);
      }
      if run in db.runs || run in db.spent || message in db.messages {
        return Err(Database);
      }
      TurnEvent(db, session.room, run, message, clean, text.value, session.participant, now);
      ghost var before := db.runs;
      var taken := TakeTurn(session, text.value, clean, run, message, now);
      if !taken {
        return Err(Database);
      }
      r := ReadTurn(session.room, text.value, run, Some(message));
      AnsweredIff(db, session.room, text.value, message);
      if r.Ok? {
        LatestIsNewest(db, session.room, r.value.run);
        NewestIsNew(before, db.runs, session.room, run, r.value.run, now);
      }
    }

    /** Read back what a turn is answered with: a new run is the room's current one. */
    method ReadTurn(room: string, text: string, run: string, message: Option<string>) returns (r: Result<AcceptedRun, StoreError>)
      requires Valid() && run in db.runs && db.runs[run].room == room && (message.Some? ==> Active(db.runs[run]))
      modifies this`calls
      ensures Valid()
      ensures r.Ok? ==> (r.value.isNew <==> message.Some?) && Answered(db, room, text, message)
      ensures r.Ok? ==> if message.None? then r.value.run == run else IsLatest(CurrentRuns(db.runs, room), r.value.run)
      ensures r.Err? ==> (r.error == NotFound && !Answered(db, room, text, message)) || (r.error == Database && !Reliable())
    {
      hide Possible, After, RunsOk, SessionsOk, Healthy, Newest, Later, Answered;
      var read := Attempt();
      if !read {
        return Err(Database);
      }
      var current := run;
      if message.Some? {
        assert run in CurrentRuns(db.runs, room);
        current := Latest(CurrentRuns(db.runs, room));
      }
      var found := FindMessage(room, text, message);
      r := if found then Ok(AcceptedRun(current, message.Some?)) else Err(NotFound);
    }

    /** The user message a turn is answered with, among the messages of the snapshot. */
    method FindMessage(room: string, text: string, id: Option<string>) returns (found: bool)
      ensures found <==> Answered(db, room, text, id)
    {
      hide Newest;
      var rest := KeepNewest(MessagesOf(db.messages, room), MAX_HISTORY_MESSAGES);
      NewestMeans(MessagesOf(db.messages, room), MAX_HISTORY_MESSAGES);
      while rest != {}
        invariant rest <= Newest(MessagesOf(db.messages, room), MAX_HISTORY_MESSAGES)
        invariant forall m :: m in Newest(MessagesOf(db.messages, room), MAX_HISTORY_MESSAGES) && m in db.messages && m !in rest ==> !IsAnswer(db.messages[m], m, text, id)
      {
        var m :| m in rest;
        if IsAnswer(db.messages[m], m, text, id) {
          return true;
        }
        rest := rest - {m};
      }
      found := false;
    }

    /** Nothing the store checks keeps a new turn from being taken. */
    predicate Takes(session: RoomSession, input: string, key: Option<string>, run: string, message: string)
      reads this`db
    {
      && session.role != Viewer && ValidTurn(input, key) && writable
      && session.room in db.rooms && db.rooms[session.room].status != RoomClosed && !ActiveIn(db.runs, session.room)
      && !KeyUsed(db.runs, session.room, CleanKey(key)) && run !in db.runs && run !in db.spent && message !in db.messages
    }

    /** The key names a turn of this room already taken, with the same text. */
    predicate Repeats(session: RoomSession, input: string, key: Option<string>)
      reads this`db
    {
      && session.role != Viewer && ValidTurn(input, key) && CleanKey(key).Some?
      && session.room in db.rooms && db.rooms[session.room].status != RoomClosed && KeyUsed(db.runs, session.room, CleanKey(key))
      && forall q :: q in db.runs && db.runs[q].room == session.room && db.runs[q].key == CleanKey(key) ==> db.runs[q].input == Text.Trim(input)
    }

    method TakeTurn(session: RoomSession, text: string, key: Option<string>, run: string, message: string, now: nat) returns (ok: bool)
      requires Valid() && Enabled(db, TurnTaken(session.room, run, message, key, text, session.participant, now))
      modifies this`db, this`log, this`calls
      ensures Valid() && (Steady(old(db)) ==> Steady(db)) && (Settled(old(db)) ==> Settled(db))
      ensures !ok ==> !Reliable() && db == old(db) && log == old(log)
      ensures ok ==> log == old(log) + [TurnTaken(session.room, run, message, key, text, session.participant, now)]
      ensures ok ==> TurnStored(old(db), db, session.room, run, message, key, text, session.participant, now)
    {
      hide Possible, After, RunsOk, SessionsOk, Healthy, Live, KeyUsed, Steady, Settled;
      var next := db.(rooms := SetStatus(db.rooms, session.room, RoomRunning),
                      runs := db.runs[run := RoomRun(session.room, key, text, Running, "", None, None, now)],
                      messages := db.messages[message := RoomMessage(session.room, User, text, Some(session.participant), now)],
                      spent := db.spent + {run}, clock := now);
      ghost var e := TurnTaken(session.room, run, message, key, text, session.participant, now);
      assert next == Apply(db, e);
      Sound();
      EventSettles(db, e);
      EventSteadies(db, e);
      ok := Commit(next, e);
    }

    /** Extend a running run's streamed text, up to its limit, and then the room's time: two statements, each committed on its own. */
    method AppendDelta(room: string, run: string, delta: string) returns (r: Result<bool, StoreError>)
      requires Valid()
      modifies this`db, this`log, this`calls
      ensures Valid() && (Steady(old(db)) ==> Steady(db)) && (Settled(old(db)) ==> Settled(db))
      ensures (log == old(log) || log == old(log) + [DeltaAppended(run, delta)]) && (log == old(log) ==> db == old(db))
      ensures r.Ok? ==> log == old(log) + [DeltaAppended(run, delta)]
      ensures log != old(log) ==> ValidDelta(delta) && Streaming(old(db), room, run)
      ensures log != old(log) ==> run in old(db).runs && old(db).runs[run].room == room && old(db).runs[run].status == Running
      ensures log != old(log) ==> db == old(db).(runs := old(db).runs[run := old(db).runs[run].(partial := old(db).runs[run].partial + delta)])
      ensures r.Err? ==> r.error in {NotFound, Invalid, Seal, Database} && (r.error != Database ==> log == old(log))
      ensures db.clock == old(db).clock
      ensures r == Err(NotFound) <==> ValidDelta(delta) && !Streaming(old(db), room, run)
      ensures r == Err(Invalid) <==> !ValidDelta(delta) || (Streaming(old(db), room, run) && |old(db).runs[run].partial| + |delta| > MAX_MESSAGE_CHARS)
      ensures r == Err(Seal) ==> !writable
      ensures r == Err(Database) ==> !Reliable()
    {
      hide Possible, After, RunsOk, SessionsOk, Healthy, ActiveIn, Steady, Settled;
      if !ValidDelta(delta) {
        return Err(Invalid);
      }
      if !Streaming(db, room, run) {
        return Err(NotFound);
      }
      if |db.runs[run].partial + delta| > MAX_MESSAGE_CHARS {
        return Err(Invalid);
      }
      if !writable {
        return Err(Seal);
      }
      var next := db.(runs := db.runs[run := db.runs[run].(partial := db.runs[run].partial + delta)]);
      ghost var e := DeltaAppended(run, delta);
      assert next == Apply(db, e);
      Sound();
      EventSettles(db, e);
      EventSteadies(db, e);
      var ok := Commit(next, e);
      if !ok {
        return Err(Database);
      }
      // The room's `updated_at`, which nothing here reads.
      var touched := Attempt();
      r := if touched then Ok(true) else Err(Database);
    }

    /**
      End an active run and trim its room, in one transaction; a run already ended
      is left as it is. Then read the room back: if that fails, the run has ended
      all the same.
     */
    method FinishRun(room: string, run: string, terminal: RunTerminal, message: string, now: nat) returns (r: Result<bool, StoreError>)
      requires Valid() && now >= db.clock && Terminal(terminal.status)
      modifies this`db, this`log, this`calls
      ensures Valid() && (Steady(old(db)) ==> Steady(db)) && (Settled(old(db)) ==> Settled(db))
      ensures r == Err(NotFound) <==> !(run in old(db).runs && old(db).runs[run].room == room)
      ensures (log == old(log) || log == old(log) + [RunFinished(run, message, terminal.status, terminal.errorCode, terminal.errorMessage, now)])
      ensures log == old(log) ==> db == old(db)
      ensures log != old(log) ==> run in old(db).runs && old(db).runs[run].room == room && Active(old(db).runs[run])
      ensures log != old(log) ==> !(run in db.runs && Active(db.runs[run])) && db.clock <= now
      ensures log != old(log) ==> room in old(db).rooms && FinishedAs(old(db), db, room, run, terminal, message, now)
      ensures r.Ok? ==> (r.value <==> log != old(log)) && (r.value <==> Active(old(db).runs[run]))
      ensures r == Err(Seal) ==> !writable && log == old(log)
      ensures r.Err? ==> r.error in {NotFound, Seal, Database}
      ensures r != Err(NotFound) ==> room in db.rooms
      ensures r == Err(Database) ==> !Reliable() || message in old(db).messages
    {
      hide Possible, After, RunsOk, SessionsOk, Healthy, ActiveIn, Newest, FinishedMessages, FinishedRuns, KeepRuns, KeepMessages, FinishedAs, Steady, Settled;
      Sound();
      if !(run in db.runs && db.runs[run].room == room) {
        return Err(NotFound);
      }
      RunHasRoom(db, run);
      var wasActive := Active(db.runs[run]);
      if wasActive {
        if !writable && ((terminal.status == Completed && db.runs[run].partial != "") || terminal.errorMessage.Some?) {
          return Err(Seal);
        }
        if message in db.messages {
          return Err(Database);
        }
        var runs := FinishedRuns(db, run, terminal.status, terminal.errorCode, terminal.errorMessage);
        var messages := FinishedMessages(db, run, message, terminal.status, now);
        var keptRuns := KeepNewest(RunsOf(runs, room), MAX_RETAINED_RUNS);
        var keptMessages := KeepNewest(MessagesOf(messages, room), MAX_HISTORY_MESSAGES);
        var next := db.(rooms := SetStatus(db.rooms, room, if terminal.status == Failed then RoomFailed else Idle),
                        runs := KeepRuns(runs, room, keptRuns), messages := KeepMessages(messages, room, keptMessages), clock := now);
        ghost var e := RunFinished(run, message, terminal.status, terminal.errorCode, terminal.errorMessage, now);
        assert next == Apply(db, e);
        EventSettles(db, e);
        EventSteadies(db, e);
        HasEnded(db, e);
        FinishesAs(db, next, room, run, terminal, message, now, keptRuns, keptMessages);
        var ok := Commit(next, e);
        if !ok {
          return Err(Database);
        }
      }
      // Rooms are never deleted, so the read finds this one.
      var read := Attempt();
      r := if read then Ok(wasActive) else Err(Database);
    }

    /** Cancel an active run: two statements, each committed on its own. */
    method StopRun(room: string, run: string) returns (r: Result<bool, StoreError>)
      requires Valid()
      modifies this`db, this`log, this`calls
      ensures Valid() && (Settled(old(db)) ==> Settled(db))
      ensures r == Err(NotFound) || r == Err(Seal) ==> db == old(db) && log == old(log)
      ensures r == Err(Seal) <==> !writable
      ensures r == Err(NotFound) <==> writable && !(run in old(db).runs && old(db).runs[run].room == room && Active(old(db).runs[run]))
      ensures Continues(old(log), log, Stopping(room, run, "generation stopped"))
      ensures r.Ok? ==>
        && run in old(db).runs && old(db).runs[run].room == room && Active(old(db).runs[run])
        && log == old(log) + Stopping(room, run, "generation stopped") && (Steady(old(db)) ==> Steady(db)) && !ActiveIn(db.runs, room)
        && db.runs == old(db).runs[run := old(db).runs[run].(status := Canceled, errorCode := Some("canceled"), errorMessage := Some("generation stopped"))]
        && room in old(db).rooms && db == old(db).(runs := db.runs, rooms :=
             if old(db).rooms[room].status == RoomClosed then old(db).rooms else old(db).rooms[room := Room(Idle)])
      ensures log == old(log) ==> db == old(db)
      ensures r.Err? ==> r.error == NotFound || r.error == Seal || (r.error == Database && !Reliable())
    {
      hide Possible, After, RunsOk, SessionsOk, Healthy, ActiveIn, Live, Apply, Enabled, Steady, Settled;
      if !writable {
        return Err(Seal);
      }
      if !(run in db.runs && db.runs[run].room == room && Active(db.runs[run])) {
        return Err(NotFound);
      }
      Sound();
      RunHasRoom(db, run);
      StopSteadies(db, room, run, "generation stopped");
      CancelEvents(db, room, run, "generation stopped");
      var ok := Commit(db.(runs := FinishedRuns(db, run, Canceled, Some("canceled"), Some("generation stopped"))), RunCanceled(run, "generation stopped"));
      if !ok {
        return Err(Database);
      }
      CancelEvents(db, room, run, "generation stopped");
      ok := Commit(db.(rooms := SetStatus(db.rooms, room, Idle)), RoomIdled(room));
      if !ok {
        return Err(Database);
      }
      r := Ok(true);
    }

    /** After a restart: fail every run left active, one statement each, then every room left running. */
    method RecoverRunning() returns (r: Result<nat, StoreError>)
      requires Valid()
      modifies this`db, this`log, this`calls
      ensures Valid() && (Settled(old(db)) ==> Settled(db)) && old(log) <= log
      ensures Interrupts(old(db).runs, db.runs) && db.rooms.Keys == old(db).rooms.Keys
      ensures forall i :: |old(log)| <= i < |log| ==> log[i].RunInterrupted? || log[i].RoomsInterrupted?
      ensures r.Ok? ==> Recovered(db) && r.value == |set q | q in old(db).runs && Active(old(db).runs[q])|
      ensures r.Ok? ==> db == old(db).(runs := db.runs, rooms := db.rooms) && forall room :: room in db.rooms ==>
        db.rooms[room] == if old(db).rooms[room].status == RoomRunning then Room(RoomFailed) else old(db).rooms[room]
      ensures r.Err? ==> r.error == Database && !Reliable()
    {
      hide Possible, After, RunsOk, SessionsOk, Healthy, Live, Steady, Settled, ActiveIn, Interrupts;
      ghost var start := db;
      var changed := FailActive();
      ghost var failed := db;
      StillSettled(start, failed);
      if changed.None? {
        return Err(Database);
      }
      var rooms := map room | room in db.rooms :: if db.rooms[room].status == RoomRunning then Room(RoomFailed) else db.rooms[room];
      var ok := Commit(db.(rooms := rooms), RoomsInterrupted);
      StillSettled(failed, db);
      if !ok {
        return Err(Database);
      }
      NowRecovered(db);
      r := Ok(changed.value);
    }

    method FailActive() returns (changed: Option<nat>)
      requires Valid()
      modifies this`db, this`log, this`calls
      ensures Valid() && old(log) <= log && db == old(db).(runs := db.runs) && Interrupts(old(db).runs, db.runs)
      ensures forall i :: |old(log)| <= i < |log| ==> log[i].RunInterrupted?
      ensures changed.None? ==> !Reliable()
      ensures changed.Some? ==> forall q :: q in db.runs ==> !Active(db.runs[q])
      ensures changed.Some? ==> changed.value == |set q | q in old(db).runs && Active(old(db).runs[q])|
    {
      hide Possible, After, Healthy, Live, Apply, Enabled;
      ghost var start := db;
      var rest := set q | q in db.runs && Active(db.runs[q]);
      var count := 0;
      while rest != {}
        invariant Valid() && old(log) <= log && db == start.(runs := db.runs) && Interrupts(start.runs, db.runs)
        invariant forall i :: |old(log)| <= i < |log| ==> log[i].RunInterrupted?
        invariant forall q :: q in rest <==> q in db.runs && Active(db.runs[q])
        invariant count + |rest| == |set q | q in start.runs && Active(start.runs[q])|
      {
        var q :| q in rest;
        rest := rest - {q};
        var message := if writable then Some("generation interrupted by node restart") else None;
        InterruptEvent(db, q, message);
        var ok := Commit(db.(runs := FinishedRuns(db, q, Failed, Some("nodeRestarted"), message)), RunInterrupted(q, message));
        if !ok {
          return None;
        }
        count := count + 1;
      }
      changed := Some(count);
    }
  }

  lemma AdmitEvent(d: Db, next: Db, room: string, participant: string, session: Digest, now: nat)
    requires Healthy(d) && Usable(d, room, now) && now >= d.clock && |Live(d, room, now)| < MAX_PARTICIPANTS
    requires participant !in d.participants && session !in d.sessions
    requires next == d.(participants := d.participants[participant := Participant(room, Guest, true)],
                        sessions := d.sessions[session := Session(room, participant, d.invites[room].digest, now + SESSION_TTL_SECS, false)], clock := now)
    ensures var e := InviteExchanged(room, participant, session, now); Enabled(d, e) && next == Apply(d, e)
    ensures Settled(d) ==> Settled(next)
  {
    hide Live, Settled, Healthy;
    EventSettles(d, InviteExchanged(room, participant, session, now));
  }

  /** A turn as it is stored: the user's message and the running run, the room running, nothing else. */
  predicate TurnStored(before: Db, after: Db, room: string, run: string, message: string, key: Option<string>, text: string, author: string, now: nat) {
    && after.messages == before.messages[message := RoomMessage(room, User, text, Some(author), now)]
    && after.runs == before.runs[run := RoomRun(room, key, text, Running, "", None, None, now)]
    && room in before.rooms && after.rooms == before.rooms[room := Room(RoomRunning)]
    && after == before.(messages := after.messages, runs := after.runs, rooms := after.rooms, spent := before.spent + {run}, clock := now)
  }

  /** The message is in its room's snapshot: fewer than 40 messages of the room are later. */
  ghost predicate InSnapshot(d: Db, room: string, message: string) {
    message in d.messages && d.messages[message].room == room && |LaterMessages(d, room, message)| < 40
  }

  /** A user message with this text is in the snapshot. */
  ghost predicate Shown(d: Db, room: string, text: string) {
    exists m :: InSnapshot(d, room, m) && d.messages[m].role == User && d.messages[m].text == text
  }

  lemma ShownIff(d: Db, room: string, text: string)
    ensures Answered(d, room, text, None) <==> Shown(d, room, text)
  {
    hide Newest, InSnapshot;
    NewestMeans(MessagesOf(d.messages, room), MAX_HISTORY_MESSAGES);
    forall m | m in d.messages && d.messages[m].room == room ensures m in Newest(MessagesOf(d.messages, room), MAX_HISTORY_MESSAGES) <==> InSnapshot(d, room, m) {
      NewestSnapshot(d, room, m);
    }
    assert forall m :: InSnapshot(d, room, m) ==> m in d.messages && d.messages[m].room == room by {
      InSnapshotIsThere(d, room);
    }
  }

  lemma InSnapshotIsThere(d: Db, room: string)
    ensures forall m :: InSnapshot(d, room, m) ==> m in d.messages && d.messages[m].room == room
  {
  }

  lemma NewestSnapshot(d: Db, room: string, message: string)
    requires message in d.messages && d.messages[message].room == room
    ensures message in Newest(MessagesOf(d.messages, room), MAX_HISTORY_MESSAGES) <==> InSnapshot(d, room, message)
  {
    hide Newest, Later;
    var rows := MessagesOf(d.messages, room);
    NewestIff(rows, MAX_HISTORY_MESSAGES, message);
    assert (set b | b in rows && Later(rows, b, message)) == LaterMessages(d, room, message);
  }

  lemma AnsweredIff(d: Db, room: string, text: string, message: string)
    requires message in d.messages && d.messages[message].room == room && d.messages[message].role == User && d.messages[message].text == text
    ensures Answered(d, room, text, Some(message)) <==> InSnapshot(d, room, message)
  {
    hide Newest, InSnapshot;
    NewestSnapshot(d, room, message);
  }

  ghost function LaterMessages(d: Db, room: string, message: string): set<string>
    requires message in d.messages && d.messages[message].room == room
  {
    set m | m in d.messages && d.messages[m].room == room && Later(MessagesOf(d.messages, room), m, message)
  }

  /** The room's invite and sessions are revoked and its participants offline, everyone else is untouched. */
  ghost predicate GuestsOut(before: Db, after: Db, room: string) {
    && after.invites == (if room in before.invites then before.invites[room := before.invites[room].(revoked := true)] else before.invites)
    && after.participants.Keys == before.participants.Keys && after.sessions.Keys == before.sessions.Keys
    && (forall p :: p in before.participants ==>
          after.participants[p] == if before.participants[p].room == room then before.participants[p].(online := false) else before.participants[p])
    && (forall s :: s in before.sessions ==>
          after.sessions[s] == if before.sessions[s].room == room then before.sessions[s].(revoked := true) else before.sessions[s])
  }

  lemma OutWhenRevoked(before: Db, after: Db, room: string)
    requires after.invites == if room in before.invites then before.invites[room := before.invites[room].(revoked := true)] else before.invites
    requires after.sessions == RevokeSessions(before.sessions, room) && after.participants == TakenOffline(before.participants, room)
    ensures GuestsOut(before, after, room)
  {
  }

  lemma GoneWhenDropped(before: Db, after: Db, room: string)
    requires after.participants == WithoutGuests(before.participants, room)
    requires after.sessions == Cascade(RevokeSessions(before.sessions, room), after.participants)
    ensures GuestsGone(before, after, room)
  {
  }

  /** Guests of the room and their sessions are gone, everyone else is untouched. */
  ghost predicate GuestsGone(before: Db, after: Db, room: string) {
    && (forall p :: p in after.participants <==> p in before.participants && !(before.participants[p].room == room && before.participants[p].role == Guest))
    && (forall p :: p in after.participants ==> after.participants[p] == before.participants[p])
    && (forall s :: s in after.sessions <==> s in before.sessions && before.sessions[s].participant in after.participants)
    && (forall s :: s in after.sessions ==> after.sessions[s] == if before.sessions[s].room == room then before.sessions[s].(revoked := true) else before.sessions[s])
  }

  /** An ended run: its row says how, its room is failed or idle, its text is a message if it completed with any; rows may be trimmed, no other row changes. */
  ghost predicate FinishedAs(before: Db, after: Db, room: string, run: string, terminal: RunTerminal, message: string, now: nat)
    requires run in before.runs && room in before.rooms
  {
    && after == before.(rooms := after.rooms, runs := after.runs, messages := after.messages, clock := now)
    && after.rooms == (if before.rooms[room].status == RoomClosed then before.rooms
                       else before.rooms[room := Room(if terminal.status == Failed then RoomFailed else Idle)])
    && (forall q :: q in after.runs ==>
          q in before.runs && after.runs[q] == if q == run then EndedAsRun(before.runs[q], terminal) else before.runs[q])
    && (forall m :: m in after.messages ==>
          if m == message && terminal.status == Completed && before.runs[run].partial != ""
          then after.messages[m] == RoomMessage(room, Assistant, before.runs[run].partial, None, now)
          else m in before.messages && after.messages[m] == before.messages[m])
  }

  function EndedAsRun(r: RoomRun, terminal: RunTerminal): RoomRun {
    r.(status := terminal.status, errorCode := terminal.errorCode, errorMessage := terminal.errorMessage)
  }

  lemma FinishesAs(before: Db, after: Db, room: string, run: string, terminal: RunTerminal, message: string, now: nat, runs: set<string>, messages: set<string>)
    requires run in before.runs && before.runs[run].room == room && room in before.rooms && message !in before.messages
    requires after == before.(rooms := SetStatus(before.rooms, room, if terminal.status == Failed then RoomFailed else Idle),
      runs := KeepRuns(FinishedRuns(before, run, terminal.status, terminal.errorCode, terminal.errorMessage), room, runs),
      messages := KeepMessages(FinishedMessages(before, run, message, terminal.status, now), room, messages), clock := now)
    ensures FinishedAs(before, after, room, run, terminal, message, now)
  {
    assert before.rooms[room].status == RoomClosed ==> before.rooms[room := Room(RoomClosed)] == before.rooms;
  }

  /** The runs a snapshot may show as the current one. */
  function CurrentRuns(runs: map<string, RoomRun>, room: string): Rows {
    map r | r in runs && runs[r].room == room && (Active(runs[r]) || runs[r].status == Failed) :: runs[r].createdAt
  }

  /** The newest of the room's runs that are queued, running or failed. */
  predicate NewestCurrent(d: Db, room: string, run: string) {
    && run in d.runs && d.runs[run].room == room && d.runs[run].status in {Queued, Running, RunStatus.Failed}
    && forall q :: q in d.runs && d.runs[q].room == room && d.runs[q].status in {Queued, Running, RunStatus.Failed} ==>
         d.runs[q].createdAt <= d.runs[run].createdAt
  }

  lemma LatestIsNewest(d: Db, room: string, run: string)
    requires IsLatest(CurrentRuns(d.runs, room), run)
    ensures NewestCurrent(d, room, run)
  {
    var rows := CurrentRuns(d.runs, room);
    forall q | q in d.runs && d.runs[q].room == room && d.runs[q].status in {Queued, Running, RunStatus.Failed}
      ensures d.runs[q].createdAt <= d.runs[run].createdAt
    {
      assert q in rows;
    }
  }

  predicate IsAnswer(m: RoomMessage, id: string, text: string, wanted: Option<string>) {
    m.role == User && m.text == text && (wanted.Some? ==> id == wanted.value)
  }

  /** Among the room's newest messages is the user's, with this text (and this id). */
  ghost predicate Answered(d: Db, room: string, text: string, wanted: Option<string>) {
    exists m :: m in Newest(MessagesOf(d.messages, room), MAX_HISTORY_MESSAGES) && m in d.messages && IsAnswer(d.messages[m], m, text, wanted)
  }

  lemma NewestIsNew(before: map<string, RoomRun>, after: map<string, RoomRun>, room: string, run: string, current: string, now: nat)
    requires IsLatest(CurrentRuns(after, room), current) && run in after && after == before[run := after[run]]
    requires after[run].room == room && after[run].status == Running && after[run].createdAt == now
    ensures (forall q :: q in before && before[q].room == room ==> before[q].createdAt < now) ==> current == run
  {
    var rows := CurrentRuns(after, room);
    assert run in rows && rows[run] == now;
    assert current != run ==> Later(rows, current, run);
  }

  lemma TurnEvent(d: Db, room: string, run: string, message: string, key: Option<string>, text: string, author: string, now: nat)
    requires room in d.rooms && d.rooms[room].status != RoomClosed && !ActiveIn(d.runs, room) && !KeyUsed(d.runs, room, key)
    requires run !in d.runs && run !in d.spent && message !in d.messages && now >= d.clock
    ensures Enabled(d, TurnTaken(room, run, message, key, text, author, now))
  {
    hide ActiveIn, KeyUsed;
  }

  lemma RunHasRoom(d: Db, run: string)
    requires RunsOk(d.rooms, d.runs) && run in d.runs
    ensures d.runs[run].room in d.rooms
  {
  }

  lemma HasEnded(d: Db, e: Event)
    requires e.RunFinished? && Enabled(d, e)
    ensures !(e.run in Apply(d, e).runs && Active(Apply(d, e).runs[e.run])) && Apply(d, e).clock == e.now
  {
    hide Newest, FinishedMessages, KeepMessages;
  }

  lemma CreateEvent(d: Db, next: Db, e: Event)
    requires Healthy(d) && e.RoomCreated? && e.room !in d.rooms && e.host !in d.participants && e.now >= d.clock
    requires next == d.(rooms := d.rooms[e.room := Room(Idle)], invites := d.invites[e.room := Invite(e.invite, e.now + INVITE_TTL_SECS, false)],
                        participants := d.participants[e.host := Participant(e.room, Host, true)], clock := e.now)
    ensures Enabled(d, e) && next == Apply(d, e)
  {
    hide Live, SessionsOk, GuestsOk;
    assert forall q :: q in d.runs ==> d.runs[q].room in d.rooms;
  }

  lemma IssueEvent(d: Db, next: Db, e: Event)
    requires e.InviteIssued? && e.room in d.rooms && d.rooms[e.room].status != RoomClosed && e.room in d.invites && e.now >= d.clock
    requires next == d.(invites := d.invites[e.room := Invite(e.invite, e.now + INVITE_TTL_SECS, false)], participants := WithoutGuests(d.participants, e.room),
                        sessions := Cascade(RevokeSessions(d.sessions, e.room), WithoutGuests(d.participants, e.room)), clock := e.now)
    ensures Enabled(d, e) && next == Apply(d, e)
  {
    hide WithoutGuests, Cascade, RevokeSessions;
  }

  lemma FewerSessions(sessions: map<Digest, Session>, participants: map<string, Participant>)
    ensures forall s :: s in Cascade(sessions, participants) ==> s in sessions && Cascade(sessions, participants)[s] == sessions[s]
  {
  }

  lemma NoneLeft(sessions: map<Digest, Session>, room: string)
    ensures forall s :: s in RevokeSessions(sessions, room) && !RevokeSessions(sessions, room)[s].revoked ==>
      s in sessions && RevokeSessions(sessions, room)[s] == sessions[s] && sessions[s].room != room
  {
  }

  lemma RevokeEvents(d: Db, room: string)
    ensures Enabled(d, InviteRevoked(room)) && Enabled(d, SessionsRevoked(room)) && Enabled(d, GuestsOffline(room)) && Enabled(d, GuestsDropped(room))
    ensures Apply(d, InviteRevoked(room)) == if room in d.invites then d.(invites := d.invites[room := d.invites[room].(revoked := true)]) else d
    ensures Apply(d, SessionsRevoked(room)) == d.(sessions := RevokeSessions(d.sessions, room))
    ensures Apply(d, GuestsDropped(room)) == d.(participants := WithoutGuests(d.participants, room), sessions := Cascade(d.sessions, WithoutGuests(d.participants, room)))
    ensures Apply(d, GuestsOffline(room)) == d.(participants := TakenOffline(d.participants, room))
  {
    hide RevokeSessions, WithoutGuests, Cascade, TakenOffline;
  }

  lemma CancelEvents(d: Db, room: string, run: string, reason: string)
    ensures run in d.runs && Active(d.runs[run]) ==>
      Enabled(d, RunCanceled(run, reason)) && Apply(d, RunCanceled(run, reason)) == d.(runs := FinishedRuns(d, run, Canceled, Some("canceled"), Some(reason)))
    ensures !ActiveIn(d.runs, room) ==> Enabled(d, RoomIdled(room)) && Apply(d, RoomIdled(room)) == d.(rooms := SetStatus(d.rooms, room, Idle))
  {
    hide ActiveIn, FinishedRuns, SetStatus;
  }

  lemma InterruptEvent(d: Db, q: string, message: Option<string>)
    requires q in d.runs && Active(d.runs[q])
    ensures Enabled(d, RunInterrupted(q, message))
    ensures Apply(d, RunInterrupted(q, message)) == d.(runs := FinishedRuns(d, q, Failed, Some("nodeRestarted"), message))
  {
    hide FinishedRuns;
  }

  /** Active runs fail as interrupted or stay active; nothing else about any run changes. */
  ghost predicate Interrupts(before: map<string, RoomRun>, after: map<string, RoomRun>) {
    && after.Keys == before.Keys
    && forall q :: q in before ==>
         after[q] == before[q]
         || (Active(before[q]) && after[q] == before[q].(status := Failed, errorCode := Some("nodeRestarted"), errorMessage := after[q].errorMessage))
  }

  lemma NowRecovered(d: Db)
    requires forall q :: q in d.runs ==> !Active(d.runs[q])
    requires forall room :: room in d.rooms ==> d.rooms[room].status != RoomRunning
    ensures Recovered(d)
  {
  }

  lemma SameSteady(before: Db, after: Db)
    requires after.rooms == before.rooms && after.runs == before.runs
    ensures Steady(before) <==> Steady(after)
  {
    hide ActiveIn;
    assert forall room :: SteadyIn(before, room) <==> SteadyIn(after, room);
  }

  lemma InviteHasRoom(d: Db, room: string)
    requires Healthy(d) && room in d.invites
    ensures room in d.rooms
  {
    hide RunsOk, SessionsOk, GuestsOk;
  }

  predicate ValidTurn(input: string, key: Option<string>) {
    ValidateNonEmpty(input, MAX_PROMPT_CHARS).Some? && (key.Some? ==> CleanKey(key).Some?)
  }

  function CleanKey(key: Option<string>): Option<string> {
    match key
    case None => None
    case Some(k) => ValidateNonEmpty(k, MAX_IDEMPOTENCY_KEY_CHARS)
  }

  /** Nothing is left running. */
  ghost predicate Recovered(d: Db) {
    && (forall q :: q in d.runs ==> !Active(d.runs[q]))
    && (forall room :: room in d.rooms ==> d.rooms[room].status != RoomRunning)
    && Steady(d)
  }

  lemma RevokedSettles(before: Db, after: Db, room: string)
    requires after.rooms == before.rooms
    requires after.invites.Keys == before.invites.Keys && forall r :: r in before.invites && r != room ==> after.invites[r] == before.invites[r]
    requires forall s :: s in after.sessions && !after.sessions[s].revoked ==> s in before.sessions && after.sessions[s] == before.sessions[s] && after.sessions[s].room != room
    ensures Settled(before) ==> Settled(after)
  {
    if Settled(before) {
      forall other | HasSession(after, other) ensures Inviting(after, other) {
        var s :| s in after.sessions && after.sessions[s].room == other && !after.sessions[s].revoked;
        assert HasSession(before, other) && SettledIn(before, other);
      }
    }
  }

  lemma ClosedSettles(before: Db, after: Db, room: string)
    requires after.rooms.Keys == before.rooms.Keys && forall r :: r in before.rooms && r != room ==> after.rooms[r] == before.rooms[r]
    requires after.invites.Keys == before.invites.Keys && forall r :: r in before.invites && r != room ==> after.invites[r] == before.invites[r]
    requires forall s :: s in after.sessions && !after.sessions[s].revoked ==> s in before.sessions && after.sessions[s] == before.sessions[s] && after.sessions[s].room != room
    ensures Settled(before) ==> Settled(after)
  {
    if Settled(before) {
      forall other | HasSession(after, other) ensures Inviting(after, other) {
        var s :| s in after.sessions && after.sessions[s].room == other && !after.sessions[s].revoked;
        assert HasSession(before, other) && SettledIn(before, other);
      }
    }
  }

  lemma StillSettled(before: Db, after: Db)
    requires after.sessions == before.sessions && after.invites == before.invites && after.rooms.Keys == before.rooms.Keys
    requires forall room :: room in before.rooms ==> (after.rooms[room].status == RoomClosed <==> before.rooms[room].status == RoomClosed)
    ensures Settled(before) ==> Settled(after)
  {
    if Settled(before) {
      forall other | HasSession(after, other) ensures Inviting(after, other) {
        var s :| s in after.sessions && after.sessions[s].room == other && !after.sessions[s].revoked;
        assert HasSession(before, other) && SettledIn(before, other);
      }
    }
  }

  /** A run canceled, and then its room set idle. */
  lemma StopSteadies(d: Db, room: string, run: string, reason: string)
    requires Healthy(d) && run in d.runs && d.runs[run].room == room && Active(d.runs[run])
    ensures Enabled(d, RunCanceled(run, reason)) && Healthy(Apply(d, RunCanceled(run, reason))) && !ActiveIn(Apply(d, RunCanceled(run, reason)).runs, room)
    ensures var mid := Apply(d, RunCanceled(run, reason));
      && Enabled(mid, RoomIdled(room))
      && (Steady(d) ==> Steady(Apply(mid, RoomIdled(room))))
      && (Settled(d) ==> Settled(mid) && Settled(Apply(mid, RoomIdled(room))))
  {
    hide Apply, SessionsOk, GuestsOk, RunsOk, Settled, SteadyIn, ActiveIn;
    var first, second := RunCanceled(run, reason), RoomIdled(room);
    CancelEvents(d, room, run, reason);
    FinishedIsQuiet(d.rooms, d.runs, run, d.runs[run].(status := Canceled, errorCode := Some("canceled"), errorMessage := Some(reason)));
    EventKeepsOk(d, first);
    var mid := Apply(d, first);
    EventSettles(d, first);
    EventSettles(mid, second);
    if Steady(d) {
      forall other ensures SteadyIn(Apply(mid, second), other) {
        if other == room {
          MendingSteadies(mid, second, room);
        } else {
          OtherEventsKeepSteadiness(d, first, other);
          OtherEventsKeepSteadiness(mid, second, other);
        }
      }
    }
  }
}
