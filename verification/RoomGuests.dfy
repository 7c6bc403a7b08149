/** Invites, sessions and the participant cap, at every committed state; and whole runs of events. */
module RoomGuests {
  import opened Recency
  import opened RoomEvents

  lemma {:induction false} SubsetNoLarger<T>(a: set<T>, b: set<T>)
    requires a <= b
    ensures |a| <= |b|
  {
    assert b == a + (b - a);
  }

  // ── The cap on live participants ───────────────────────────────────────────

  /** Fewer participants or sessions, or a later time: no one new is live. */
  lemma LiveShrinks(d: Db, e: Db, room: string, now: nat, later: nat)
    requires now <= later
    requires forall p :: p in e.participants ==> p in d.participants && e.participants[p].room == d.participants[p].room && e.participants[p].role == d.participants[p].role
    requires forall s :: s in e.sessions ==>
      s in d.sessions && e.sessions[s].participant == d.sessions[s].participant && e.sessions[s].expiresAt == d.sessions[s].expiresAt
      && (d.sessions[s].revoked ==> e.sessions[s].revoked)
    ensures |Live(e, room, later)| <= |Live(d, room, now)|
  {
    forall p | p in Live(e, room, later) ensures p in Live(d, room, now) {
      if e.participants[p].role != Host {
        var s :| s in e.sessions && e.sessions[s].participant == p && LiveSession(e.sessions[s], later);
        assert LiveSession(d.sessions[s], now);
      }
    }
    SubsetNoLarger(Live(e, room, later), Live(d, room, now));
  }

  lemma ExchangeKeepsCap(d: Db, e: Event, room: string)
    requires e.InviteExchanged? && Enabled(d, e) && SessionsOk(d)
    ensures |Live(Apply(d, e), room, e.now)| <= |Live(d, room, e.now)| + (if room == e.room then 1 else 0)
  {
    var after := Apply(d, e);
    forall p | p in Live(after, room, e.now) ensures p in Live(d, room, e.now) || (p == e.participant && room == e.room) {
      if p != e.participant && after.participants[p].role != Host {
        var s :| s in after.sessions && after.sessions[s].participant == p && LiveSession(after.sessions[s], e.now);
        assert s in d.sessions && LiveSession(d.sessions[s], e.now);
      }
    }
    if room == e.room {
      SubsetNoLarger(Live(after, room, e.now), Live(d, room, e.now) + {e.participant});
    } else {
      SubsetNoLarger(Live(after, room, e.now), Live(d, room, e.now));
    }
  }

  lemma CreateKeepsCap(d: Db, e: Event, room: string)
    requires e.RoomCreated? && Enabled(d, e) && SessionsOk(d) && GuestsOk(d)
    ensures |Live(Apply(d, e), room, e.now)| <= if room == e.room then 1 else |Live(d, room, d.clock)|
  {
    var after := Apply(d, e);
    if room == e.room {
      assert forall p :: p in d.participants ==> d.participants[p].room != room;
      SubsetNoLarger(Live(after, room, e.now), {e.host});
    } else {
      forall p | p in Live(after, room, e.now) ensures p in Live(d, room, d.clock) {
        if after.participants[p].role != Host {
          var s :| s in after.sessions && after.sessions[s].participant == p && LiveSession(after.sessions[s], e.now);
          assert LiveSession(d.sessions[s], d.clock);
        }
      }
      SubsetNoLarger(Live(after, room, e.now), Live(d, room, d.clock));
    }
  }

  // ── Events that touch guests, and those that do not ────────────────────────

  /** The same guests or fewer, under the same rooms, no earlier. */
  ghost predicate NoNewGuests(d: Db, e: Db) {
    && e.rooms.Keys == d.rooms.Keys && e.clock >= d.clock
    && (forall p :: p in e.participants ==> p in d.participants && e.participants[p].room == d.participants[p].room && e.participants[p].role == d.participants[p].role)
    && (forall s :: s in e.sessions ==>
          && s in d.sessions && e.sessions[s].participant == d.sessions[s].participant && e.sessions[s].expiresAt == d.sessions[s].expiresAt
          && (d.sessions[s].revoked ==> e.sessions[s].revoked))
  }

  lemma NoNewGuestsOk(d: Db, e: Db)
    requires GuestsOk(d) && NoNewGuests(d, e)
    ensures GuestsOk(e)
  {
    hide Live;
    forall room | room in e.rooms ensures |Live(e, room, e.clock)| <= MAX_PARTICIPANTS {
      LiveShrinks(d, e, room, d.clock, e.clock);
    }
  }

  predicate TouchesGuests(e: Event) {
    e.RoomCreated? || e.InviteExchanged? || e.InviteIssued? || e.InviteRevoked? || e.SessionsRevoked? || e.GuestsDropped? || e.GuestsOffline?
  }

  lemma OthersLeaveGuests(d: Db, e: Event)
    requires Enabled(d, e) && !TouchesGuests(e)
    ensures var f := Apply(d, e);
      f.participants == d.participants && f.sessions == d.sessions && f.invites == d.invites && f.rooms.Keys == d.rooms.Keys && f.clock >= d.clock
  {
    hide Live, Newest, FinishedMessages, FinishedRuns, KeepRuns, KeepMessages, ActiveIn, KeyUsed;
  }

  lemma EventAddsGuestsRarely(d: Db, e: Event)
    requires Enabled(d, e) && !e.RoomCreated? && !e.InviteExchanged?
    ensures NoNewGuests(d, Apply(d, e))
  {
    hide Live, Newest, FinishedMessages, FinishedRuns, KeepRuns, KeepMessages, ActiveIn, KeyUsed, SetStatus;
    if !TouchesGuests(e) {
      OthersLeaveGuests(d, e);
    }
  }

  lemma CreateKeepsGuests(d: Db, e: Event)
    requires e.RoomCreated? && Enabled(d, e) && SessionsOk(d) && GuestsOk(d)
    ensures GuestsOk(Apply(d, e))
  {
    hide Live, SessionsOk;
    forall room | room in Apply(d, e).rooms ensures |Live(Apply(d, e), room, Apply(d, e).clock)| <= MAX_PARTICIPANTS {
      CreateKeepsCap(d, e, room);
    }
  }

  lemma ExchangeKeepsGuests(d: Db, e: Event)
    requires e.InviteExchanged? && Enabled(d, e) && SessionsOk(d) && GuestsOk(d)
    ensures GuestsOk(Apply(d, e))
  {
    hide Live, SessionsOk;
    forall room | room in Apply(d, e).rooms ensures |Live(Apply(d, e), room, Apply(d, e).clock)| <= MAX_PARTICIPANTS {
      ExchangeKeepsCap(d, e, room);
      LiveShrinks(d, d, room, d.clock, e.now);
    }
  }

  lemma EventKeepsGuests(d: Db, e: Event)
    requires Enabled(d, e) && SessionsOk(d) && GuestsOk(d)
    ensures GuestsOk(Apply(d, e))
  {
    hide SessionsOk, GuestsOk, Enabled, Apply, NoNewGuests;
    match e {
      case RoomCreated(_, _, _, _) => CreateKeepsGuests(d, e);
      case InviteExchanged(_, _, _, _) => ExchangeKeepsGuests(d, e);
      case _ =>
        EventAddsGuestsRarely(d, e);
        NoNewGuestsOk(d, Apply(d, e));
    }
  }

  /** Fewer guests, and among the sessions left either all are revoked or the invites stand. */
  lemma FewerSessionsOk(d: Db, e: Db)
    requires SessionsOk(d)
    requires forall s :: s in e.sessions ==>
      && s in d.sessions && (e.sessions[s] == d.sessions[s] || e.sessions[s] == d.sessions[s].(revoked := true))
      && d.sessions[s].participant in e.participants
    requires forall p :: p in e.participants ==> p in d.participants && e.participants[p].room == d.participants[p].room && e.participants[p].role == d.participants[p].role
    requires forall s :: s in e.sessions && !e.sessions[s].revoked && e.sessions[s].room in d.invites ==>
      e.sessions[s].room in e.invites && e.invites[e.sessions[s].room].digest == d.invites[e.sessions[s].room].digest
    ensures SessionsOk(e)
  {
  }

  lemma CreateKeepsSessions(d: Db, e: Event)
    requires e.RoomCreated? && Enabled(d, e) && SessionsOk(d) && GuestsOk(d)
    ensures SessionsOk(Apply(d, e))
  {
    hide Live;
    assert forall s :: s in d.sessions ==> d.sessions[s].room in d.rooms;
  }

  lemma ExchangeKeepsSessions(d: Db, e: Event)
    requires e.InviteExchanged? && Enabled(d, e) && SessionsOk(d)
    ensures SessionsOk(Apply(d, e))
  {
    hide Live;
  }

  lemma IssueKeepsSessions(d: Db, e: Event)
    requires e.InviteIssued? && Enabled(d, e) && SessionsOk(d)
    ensures SessionsOk(Apply(d, e))
  {
    hide SessionsOk;
    SessionsRefer(d);
    FewerSessionsOk(d, Apply(d, e));
  }

  lemma RevokeKeepsSessions(d: Db, e: Event)
    requires (e.InviteRevoked? || e.SessionsRevoked? || e.GuestsDropped? || e.GuestsOffline?) && Enabled(d, e) && SessionsOk(d)
    ensures SessionsOk(Apply(d, e))
  {
    hide SessionsOk;
    SessionsRefer(d);
    FewerSessionsOk(d, Apply(d, e));
  }

  lemma InvitesHaveRooms(d: Db, e: Event)
    requires Enabled(d, e) && d.invites.Keys <= d.rooms.Keys
    ensures Apply(d, e).invites.Keys <= Apply(d, e).rooms.Keys
  {
    hide Live, Newest, FinishedMessages, FinishedRuns, KeepRuns, KeepMessages, ActiveIn, KeyUsed, RevokeSessions, Cascade, WithoutGuests;
  }

  lemma EventKeepsSessions(d: Db, e: Event)
    requires Enabled(d, e) && SessionsOk(d) && GuestsOk(d)
    ensures SessionsOk(Apply(d, e))
  {
    hide GuestsOk, Enabled, Apply, SessionsOk;
    match e {
      case RoomCreated(_, _, _, _) => CreateKeepsSessions(d, e);
      case InviteExchanged(_, _, _, _) => ExchangeKeepsSessions(d, e);
      case InviteIssued(_, _, _) => IssueKeepsSessions(d, e);
      case InviteRevoked(_) => RevokeKeepsSessions(d, e);
      case SessionsRevoked(_) => RevokeKeepsSessions(d, e);
      case GuestsDropped(_) => RevokeKeepsSessions(d, e);
      case GuestsOffline(_) => RevokeKeepsSessions(d, e);
      case _ =>
        OthersLeaveGuests(d, e);
        SessionsRefer(d);
        FewerSessionsOk(d, Apply(d, e));
    }
  }

  lemma SessionsRefer(d: Db)
    requires SessionsOk(d)
    ensures forall s :: s in d.sessions ==> d.sessions[s].participant in d.participants
  {
  }

  // ── Every run of events ────────────────────────────────────────────────────

  lemma EventKeepsOk(d: Db, e: Event)
    requires Enabled(d, e) && Healthy(d)
    ensures Healthy(Apply(d, e)) && Evolves(d, Apply(d, e))
  {
    hide Enabled, RunsOk, SessionsOk, GuestsOk, Evolves;
    EventKeepsRuns(d, e);
    EventKeepsGuests(d, e);
    EventKeepsSessions(d, e);
    InvitesHaveRooms(d, e);
    EventEvolves(d, e);
  }

  /** Events that can follow one another from `d`. */
  ghost predicate Possible(d: Db, events: seq<Event>)
    decreases |events|, 0
  {
    events == [] || (Possible(d, events[..|events| - 1]) && Enabled(After(d, events[..|events| - 1]), events[|events| - 1]))
  }

  ghost function After(d: Db, events: seq<Event>): Db
    requires Possible(d, events)
    decreases |events|, 1
  {
    if events == [] then d else Apply(After(d, events[..|events| - 1]), events[|events| - 1])
  }

  lemma NothingDone(d: Db)
    ensures Possible(d, []) && After(d, []) == d
  {
  }

  lemma OneMorePossible(d: Db, events: seq<Event>, e: Event)
    requires Possible(d, events) && Enabled(After(d, events), e)
    ensures Possible(d, events + [e]) && After(d, events + [e]) == Apply(After(d, events), e)
  {
    hide Enabled, Apply;
    assert (events + [e])[..|events|] == events;
  }

  lemma {:induction false} PossiblePrefix(d: Db, events: seq<Event>, k: nat)
    requires Possible(d, events) && k <= |events|
    ensures Possible(d, events[..k])
  {
    if k < |events| {
      assert events[..|events| - 1][..k] == events[..k];
      PossiblePrefix(d, events[..|events| - 1], k);
    } else {
      assert events[..k] == events;
    }
  }

  /**
    At every committed state of every run (any interleaving of operations, any
    crash, any restart): one active run per room, in a running or closed room;
    at most eight live participants; every unrevoked session minted from its
    room's present invite.
   */
  lemma {:induction false} AlwaysOk(d: Db, events: seq<Event>)
    requires Healthy(d) && Possible(d, events)
    ensures Healthy(After(d, events)) && Evolves(d, After(d, events))
  {
    hide Healthy, Evolves, Apply, Enabled;
    if events == [] {
      EvolvesReflexive(d);
    } else {
      var init := events[..|events| - 1];
      AlwaysOk(d, init);
      EventKeepsOk(After(d, init), events[|events| - 1]);
      SpentHolds(d);
      EvolvesTransitive(d, After(d, init), After(d, events));
    }
  }

  lemma EvolvesReflexive(d: Db)
    requires Healthy(d)
    ensures Evolves(d, d)
  {
  }

  lemma SpentHolds(d: Db)
    requires Healthy(d)
    ensures d.runs.Keys <= d.spent
  {
  }

  lemma {:induction false} AfterSplit(d: Db, events: seq<Event>, k: nat)
    requires Possible(d, events) && k <= |events|
    ensures Possible(d, events[..k]) && Possible(After(d, events[..k]), events[k..])
    ensures After(After(d, events[..k]), events[k..]) == After(d, events)
    decreases |events|
  {
    hide Apply, Enabled;
    PossiblePrefix(d, events, k);
    if k == |events| {
      assert events[..k] == events && events[k..] == [];
    } else {
      var init := events[..|events| - 1];
      AfterSplit(d, init, k);
      assert init[..k] == events[..k];
      assert events[k..][..|events| - k - 1] == init[k..];
    }
  }

  /**
    Between any two moments of any run: a closed room stays closed; a terminal
    run's status, text and error never change while it exists, and once deleted
    it never returns; a run's streamed text only grows.
   */
  lemma HistoryEvolves(d: Db, events: seq<Event>, i: nat, j: nat)
    requires Healthy(d) && Possible(d, events) && i <= j <= |events|
    ensures Possible(d, events[..i]) && Possible(d, events[..j]) && Evolves(After(d, events[..i]), After(d, events[..j]))
  {
    hide Healthy, Evolves, Apply, Enabled, Possible;
    PossiblePrefix(d, events, j);
    AfterSplit(d, events[..j], i);
    assert events[..j][..i] == events[..i];
    AlwaysOk(d, events[..i]);
    AlwaysOk(After(d, events[..i]), events[..j][i..]);
  }
}
