/**
  When a guest session outlives its room or its invite. Closing a room and
  revoking an invite are several statements; a crash between them may leave
  sessions that are still accepted. What the log of committed events says about
  that, exactly.
 */
module RoomSessions {
  import opened Recency
  import opened RoomEvents
  import opened RoomGuests

  /** The room still has a session that is not revoked. */
  predicate HasSession(d: Db, room: string) {
    exists s :: s in d.sessions && d.sessions[s].room == room && !d.sessions[s].revoked
  }

  /** The room is open and its invite stands. */
  predicate Inviting(d: Db, room: string) {
    room in d.rooms && room in d.invites && d.rooms[room].status != RoomClosed && !d.invites[room].revoked
  }

  /** No session of the room contradicts its status or its invite. */
  predicate SettledIn(d: Db, room: string) {
    HasSession(d, room) ==> Inviting(d, room)
  }

  /** A closed room, or one whose invite is revoked, has no session left that is not revoked. */
  ghost predicate Settled(d: Db) {
    forall room :: SettledIn(d, room)
  }

  /** The event closes the room or revokes its invite. */
  predicate Withdraws(e: Event, room: string) {
    (e.RoomShut? || e.InviteRevoked?) && e.room == room
  }

  /** The event revokes or deletes guests of this room. */
  predicate Frees(e: Event, room: string) {
    (e.SessionsRevoked? || e.GuestsDropped? || e.InviteIssued?) && e.room == room
  }

  /** Every closing or revoking that found a session was followed by an event that revokes or deletes the room's guests. */
  ghost predicate MadeGood(d: Db, events: seq<Event>, room: string) {
    forall i :: 0 <= i < |events| && Withdraws(events[i], room) && Possible(d, events[..i]) && HasSession(After(d, events[..i]), room) ==>
      exists j :: i < j < |events| && Frees(events[j], room)
  }

  // ── One event ──────────────────────────────────────────────────────────────

  lemma FreesLeaveNone(d: Db, e: Event, room: string)
    requires Healthy(d) && Enabled(d, e) && Frees(e, room)
    ensures !HasSession(Apply(d, e), room)
  {
    hide RunsOk, GuestsOk, Live, Newest, KeepRuns, KeepMessages;
  }

  lemma WithdrawalUnsettles(d: Db, e: Event, room: string)
    requires Healthy(d) && Enabled(d, e) && Withdraws(e, room)
    ensures SettledIn(Apply(d, e), room) <==> !HasSession(d, room)
    ensures HasSession(Apply(d, e), room) <==> HasSession(d, room)
  {
    hide RunsOk, GuestsOk, Live, Newest, KeepRuns, KeepMessages;
    assert Apply(d, e).sessions == d.sessions;
  }

  lemma StatusStays(d: Db, e: Event, room: string)
    requires Enabled(d, e) && !Withdraws(e, room) && !e.RoomCreated?
    ensures Apply(d, e).rooms.Keys == d.rooms.Keys
    ensures room in d.rooms ==> (Apply(d, e).rooms[room].status == RoomClosed <==> d.rooms[room].status == RoomClosed)
  {
    hide Live, Newest, KeepRuns, KeepMessages, FinishedRuns, FinishedMessages, WithoutGuests, Cascade, RevokeSessions, ActiveIn, KeyUsed;
  }

  lemma OtherEventsSettleNothing(d: Db, e: Event, room: string)
    requires Healthy(d) && Enabled(d, e) && !Withdraws(e, room) && !Frees(e, room)
    ensures SettledIn(Apply(d, e), room) <==> SettledIn(d, room)
  {
    hide RunsOk, Live, Newest, KeepRuns, KeepMessages, FinishedRuns, FinishedMessages;
    match e {
      case RoomCreated(_, _, _, _) => CreationSettlesNothing(d, e, room);
      case InviteExchanged(other, _, session, _) => ExchangeSettlesNothing(d, e, room);
      case _ =>
        StatusStays(d, e, room);
        SameSessions(d, e, room);
    }
  }

  lemma CreationSettlesNothing(d: Db, e: Event, room: string)
    requires Healthy(d) && Enabled(d, e) && e.RoomCreated?
    ensures SettledIn(Apply(d, e), room) <==> SettledIn(d, room)
  {
    hide RunsOk, Live;
    var f := Apply(d, e);
    assert f.sessions == d.sessions;
    assert HasSession(d, room) ==> room in d.rooms;
  }

  lemma ExchangeSettlesNothing(d: Db, e: Event, room: string)
    requires Healthy(d) && Enabled(d, e) && e.InviteExchanged?
    ensures SettledIn(Apply(d, e), room) <==> SettledIn(d, room)
  {
    hide RunsOk, GuestsOk, Live;
    var f := Apply(d, e);
    if room != e.room {
      assert forall s :: s in d.sessions ==> s in f.sessions && f.sessions[s] == d.sessions[s];
      assert HasSession(f, room) <==> HasSession(d, room);
    }
  }

  lemma SameSessions(d: Db, e: Event, room: string)
    requires Healthy(d) && Enabled(d, e) && !Withdraws(e, room) && !Frees(e, room) && !e.RoomCreated? && !e.InviteExchanged?
    ensures HasSession(Apply(d, e), room) <==> HasSession(d, room)
    ensures room in d.invites <==> room in Apply(d, e).invites
    ensures room in d.invites ==> Apply(d, e).invites[room] == d.invites[room]
  {
    hide RunsOk, GuestsOk, Live, Newest, KeepRuns, KeepMessages, FinishedRuns, FinishedMessages;
    if TouchesGuests(e) {
      var f := Apply(d, e);
      assert forall s :: s in d.sessions && d.sessions[s].room == room ==> s in f.sessions && f.sessions[s] == d.sessions[s];
    } else {
      OthersLeaveGuests(d, e);
    }
  }

  /** Only closing and revoking may unsettle a room. */
  lemma EventSettles(d: Db, e: Event)
    requires Healthy(d) && Enabled(d, e) && !e.RoomShut? && !e.InviteRevoked?
    ensures Settled(d) ==> Settled(Apply(d, e))
  {
    hide Healthy, Apply, Enabled, SettledIn, HasSession;
    if Settled(d) {
      forall room ensures SettledIn(Apply(d, e), room) {
        if Frees(e, room) {
          FreesLeaveNone(d, e, room);
          NoneIsSettled(Apply(d, e), room);
        } else {
          OtherEventsSettleNothing(d, e, room);
        }
      }
    }
  }

  // ── Every history ──────────────────────────────────────────────────────────

  lemma MadeGoodStep(d: Db, events: seq<Event>, room: string)
    requires Possible(d, events) && events != []
    ensures var init, e := events[..|events| - 1], events[|events| - 1];
      MadeGood(d, events, room) <==> Frees(e, room) || (MadeGood(d, init, room) && (Withdraws(e, room) ==> !HasSession(After(d, init), room)))
  {
    hide Apply, Enabled, HasSession, Possible, After;
    var n := |events| - 1;
    var init, e := events[..n], events[n];
    PossiblePrefix(d, events, n);
    assert forall i :: 0 <= i <= n ==> init[..i] == events[..i];
    if Frees(e, room) {
      forall i | 0 <= i < |events| && Withdraws(events[i], room) ensures exists j :: i < j < |events| && Frees(events[j], room) {
        assert i < n && Frees(events[n], room);
      }
    } else {
      if MadeGood(d, events, room) {
        forall i | 0 <= i < n && Withdraws(init[i], room) && Possible(d, init[..i]) && HasSession(After(d, init[..i]), room)
          ensures exists j :: i < j < n && Frees(init[j], room)
        {
          assert Withdraws(events[i], room) && Possible(d, events[..i]) && HasSession(After(d, events[..i]), room);
          var j :| i < j < |events| && Frees(events[j], room);
          assert Frees(init[j], room);
        }
      }
      if MadeGood(d, init, room) && (Withdraws(e, room) ==> !HasSession(After(d, init), room)) {
        forall i | 0 <= i < |events| && Withdraws(events[i], room) && Possible(d, events[..i]) && HasSession(After(d, events[..i]), room)
          ensures exists j :: i < j < |events| && Frees(events[j], room)
        {
          assert i < n && Withdraws(init[i], room) && Possible(d, init[..i]) && HasSession(After(d, init[..i]), room);
          var j :| i < j < n && Frees(init[j], room);
          assert Frees(events[j], room);
        }
      }
    }
  }

  /**
    From a state in which no session of the room contradicts it, after any run of
    operations, crashes and restarts: none does, if and only if every closing of
    the room and every revoking of its invite that found a session was made good.
   */
  lemma {:induction false} SettledIff(d: Db, events: seq<Event>, room: string)
    requires Healthy(d) && Possible(d, events) && SettledIn(d, room)
    ensures SettledIn(After(d, events), room) <==> MadeGood(d, events, room)
  {
    hide Healthy, Apply, Enabled, SettledIn, MadeGood, Evolves;
    if events == [] {
      NothingToMakeGood(d, room);
    } else {
      var init, e := events[..|events| - 1], events[|events| - 1];
      var before := After(d, init);
      AlwaysOk(d, init);
      SettledIff(d, init, room);
      MadeGoodStep(d, events, room);
      if Frees(e, room) {
        FreesLeaveNone(before, e, room);
        NoneIsSettled(After(d, events), room);
      } else if Withdraws(e, room) {
        WithdrawalUnsettles(before, e, room);
        NoneIsSettled(before, room);
      } else {
        OtherEventsSettleNothing(before, e, room);
      }
    }
  }

  lemma NothingToMakeGood(d: Db, room: string)
    ensures MadeGood(d, [], room)
  {
  }

  lemma NoneIsSettled(d: Db, room: string)
    ensures !HasSession(d, room) ==> SettledIn(d, room)
  {
  }

  const NO_ROOMS := Db(map[], map[], map[], map[], map[], map[], {}, 0)

  /** In particular for every history that starts with an empty database. */
  lemma SettledFromNothingIff(events: seq<Event>, room: string)
    requires Possible(NO_ROOMS, events)
    ensures Healthy(After(NO_ROOMS, events))
    ensures SettledIn(After(NO_ROOMS, events), room) <==> MadeGood(NO_ROOMS, events, room)
  {
    hide Possible, After, MadeGood;
    assert forall r :: Live(NO_ROOMS, r, 0) == {};
    AlwaysOk(NO_ROOMS, events);
    SettledIff(NO_ROOMS, events, room);
  }

  // ── How far a closing or a revoking came ───────────────────────────────────

  /** The statements of `close_room`. */
  function Closing(room: string): seq<Event> {
    [RoomShut(room), InviteRevoked(room), SessionsRevoked(room), GuestsOffline(room)]
  }

  /** The statements of `revoke_invite`. */
  function Revoking(room: string): seq<Event> {
    [InviteRevoked(room), SessionsRevoked(room), GuestsDropped(room)]
  }

  /** The first statements of a closing can all be committed. */
  lemma ClosingPossible(d: Db, room: string, k: nat)
    requires room in d.rooms && d.rooms[room].status != RoomClosed && k <= 4
    ensures Possible(d, Closing(room)[..k])
    ensures k > 0 ==> Possible(d, Closing(room)[..k - 1]) && After(d, Closing(room)[..k]) == Apply(After(d, Closing(room)[..k - 1]), Closing(room)[k - 1])
  {
    hide Apply, Possible, After;
    if k == 0 {
      assert Possible(d, []) by { NothingDone(d); }
    } else {
      ClosingPossible(d, room, k - 1);
      NothingDone(d);
      assert Closing(room)[..k] == Closing(room)[..k - 1] + [Closing(room)[k - 1]];
      OneMorePossible(d, Closing(room)[..k - 1], Closing(room)[k - 1]);
    }
  }

  lemma RevokingPossible(d: Db, room: string, k: nat)
    requires k <= 3
    ensures Possible(d, Revoking(room)[..k])
    ensures k > 0 ==> Possible(d, Revoking(room)[..k - 1]) && After(d, Revoking(room)[..k]) == Apply(After(d, Revoking(room)[..k - 1]), Revoking(room)[k - 1])
  {
    hide Apply, Possible, After;
    if k == 0 {
      NothingDone(d);
    } else {
      RevokingPossible(d, room, k - 1);
      assert Revoking(room)[..k] == Revoking(room)[..k - 1] + [Revoking(room)[k - 1]];
      OneMorePossible(d, Revoking(room)[..k - 1], Revoking(room)[k - 1]);
    }
  }

  lemma NoneComesBack(d: Db, e: Event, room: string)
    requires Healthy(d) && Enabled(d, e) && (e.InviteExchanged? ==> e.room != room) && !HasSession(d, room)
    ensures !HasSession(Apply(d, e), room)
  {
    hide RunsOk, GuestsOk, Live, Newest, KeepRuns, KeepMessages, FinishedRuns, FinishedMessages;
    if !TouchesGuests(e) {
      OthersLeaveGuests(d, e);
    }
  }

  /** After the first `k` statements of a closing, a session is left exactly when there was one and the third is missing. */
  lemma {:induction false} ClosingSessions(d: Db, room: string, k: nat)
    requires Healthy(d) && room in d.rooms && d.rooms[room].status != RoomClosed && k <= 4
    ensures Possible(d, Closing(room)[..k])
    ensures HasSession(After(d, Closing(room)[..k]), room) <==> HasSession(d, room) && k < 3
  {
    hide Healthy, HasSession, Apply, Enabled, Possible, After;
    ClosingPossible(d, room, k);
    AlwaysOk(d, Closing(room)[..k]);
    if k == 0 {
      NothingDone(d);
    } else {
      ClosingSessions(d, room, k - 1);
      var before, e := After(d, Closing(room)[..k - 1]), Closing(room)[k - 1];
      ClosingPossible(d, room, k - 1);
      AlwaysOk(d, Closing(room)[..k - 1]);
      assert Enabled(before, e) by { ClosingEnabled(d, room, k - 1); }
      if k < 3 {
        WithdrawalUnsettles(before, e, room);
      } else if k == 3 {
        FreesLeaveNone(before, e, room);
      } else {
        NoneComesBack(before, e, room);
      }
    }
  }

  lemma ClosingEnabled(d: Db, room: string, k: nat)
    requires room in d.rooms && d.rooms[room].status != RoomClosed && k < 4
    requires Possible(d, Closing(room)[..k])
    ensures Enabled(After(d, Closing(room)[..k]), Closing(room)[k])
  {
    hide Apply, Possible, After;
    NothingDone(d);
  }

  /** A closing that a crash or a failing statement cuts after `k` statements leaves the room settled exactly then. */
  lemma CutClosingSettlesIff(d: Db, room: string, k: nat)
    requires Healthy(d) && SettledIn(d, room) && room in d.rooms && d.rooms[room].status != RoomClosed && k <= 4
    ensures Possible(d, Closing(room)[..k])
    ensures SettledIn(After(d, Closing(room)[..k]), room) <==> k == 0 || k >= 3 || !HasSession(d, room)
  {
    hide Healthy, HasSession, Apply, Enabled, Possible, After, MadeGood;
    ClosingSessions(d, room, k);
    NothingDone(d);
    if 0 < k < 3 {
      ClosingPossible(d, room, k);
      ClosingSessions(d, room, k - 1);
      AlwaysOk(d, Closing(room)[..k - 1]);
      ClosingEnabled(d, room, k - 1);
      WithdrawalUnsettles(After(d, Closing(room)[..k - 1]), Closing(room)[k - 1], room);
    }
  }

  /** And a revoking. */
  lemma CutRevokingSettlesIff(d: Db, room: string, k: nat)
    requires Healthy(d) && SettledIn(d, room) && k <= 3
    ensures Possible(d, Revoking(room)[..k])
    ensures SettledIn(After(d, Revoking(room)[..k]), room) <==> k != 1 || !HasSession(d, room)
  {
    hide Healthy, HasSession, Apply, Enabled, Possible, After, MadeGood;
    RevokingPossible(d, room, k);
    NothingDone(d);
    if k > 0 {
      RevokingPossible(d, room, 1);
      AlwaysOk(d, Revoking(room)[..1]);
      AnyRevokingEnabled(d, room);
      WithdrawalUnsettles(d, InviteRevoked(room), room);
    }
    if k > 1 {
      RevokingPossible(d, room, 2);
      AnyRevokingEnabled(After(d, Revoking(room)[..1]), room);
      AlwaysOk(d, Revoking(room)[..2]);
      FreesLeaveNone(After(d, Revoking(room)[..1]), SessionsRevoked(room), room);
      AnyRevokingEnabled(After(d, Revoking(room)[..2]), room);
      if k == 3 {
        NoneComesBack(After(d, Revoking(room)[..2]), GuestsDropped(room), room);
      }
    }
  }

  lemma AnyRevokingEnabled(d: Db, room: string)
    ensures Enabled(d, InviteRevoked(room)) && Enabled(d, SessionsRevoked(room)) && Enabled(d, GuestsDropped(room))
  {
  }

  // ── Sessions nothing revokes any more ──────────────────────────────────────

  /** A session still accepted, of a closed room whose invite is already revoked. */
  predicate Orphaned(d: Db, s: Digest) {
    && s in d.sessions && !d.sessions[s].revoked && d.sessions[s].participant in d.participants
    && d.sessions[s].room in d.rooms && d.rooms[d.sessions[s].room].status == RoomClosed
    && d.sessions[s].room in d.invites && d.invites[d.sessions[s].room].revoked
  }

  lemma OrphanStays(d: Db, e: Event, s: Digest)
    requires Healthy(d) && Enabled(d, e) && Orphaned(d, s) && !Frees(e, d.sessions[s].room)
    ensures Orphaned(Apply(d, e), s) && Apply(d, e).sessions[s] == d.sessions[s]
  {
    hide Live, Newest, KeepRuns, KeepMessages, FinishedRuns, FinishedMessages, RunsOk, GuestsOk, ActiveIn, KeyUsed;
    if !TouchesGuests(e) {
      OthersLeaveGuests(d, e);
      RoomsEvolve(d, e);
    }
  }

  lemma {:induction false} OrphanStaysAlong(d: Db, events: seq<Event>, s: Digest)
    requires Healthy(d) && Possible(d, events) && Orphaned(d, s)
    requires forall i :: 0 <= i < |events| ==> !Frees(events[i], d.sessions[s].room)
    ensures Orphaned(After(d, events), s) && After(d, events).sessions[s] == d.sessions[s]
  {
    hide Healthy, Apply, Enabled, Orphaned, Frees;
    OrphanIsSession(d, s);
    if events != [] {
      var init := events[..|events| - 1];
      OrphanStaysAlong(d, init, s);
      OrphanIsSession(After(d, init), s);
      AlwaysOk(d, init);
      OrphanStays(After(d, init), events[|events| - 1], s);
    }
  }

  /**
    What a cut closing leaves behind for good: after its second statement every
    session of the room, and after its first those whose invite was revoked before.
   */
  lemma CutClosingOrphansIff(d: Db, room: string, s: Digest, k: nat)
    requires Healthy(d) && room in d.rooms && d.rooms[room].status != RoomClosed && k <= 4
    requires s in d.sessions && d.sessions[s].room == room && !d.sessions[s].revoked
    ensures Possible(d, Closing(room)[..k]) && room in d.invites
    ensures Orphaned(After(d, Closing(room)[..k]), s) <==> k == 2 || (k == 1 && d.invites[room].revoked)
  {
    hide RunsOk, GuestsOk, Live, Newest, Possible, After;
    ClosingSessions(d, room, k);
    NothingDone(d);
    ClosingPossible(d, room, k);
    if k == 2 {
      ClosingPossible(d, room, 1);
    }
    ClosingKeepsRoom(d, room, s, k);
  }

  lemma {:induction false} ClosingKeepsRoom(d: Db, room: string, s: Digest, k: nat)
    requires room in d.rooms && d.rooms[room].status != RoomClosed && k <= 4 && Possible(d, Closing(room)[..k])
    requires s in d.sessions && d.sessions[s].room == room
    ensures s in After(d, Closing(room)[..k]).sessions ==> After(d, Closing(room)[..k]).sessions[s].room == room
  {
    hide Possible, After;
    ClosingPossible(d, room, k);
    NothingDone(d);
    if k > 0 {
      ClosingKeepsRoom(d, room, s, k - 1);
    }
  }

  lemma OrphanIsSession(d: Db, s: Digest)
    requires Orphaned(d, s)
    ensures s in d.sessions
  {
  }
}
