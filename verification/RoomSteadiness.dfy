/**
  When a room's status agrees with its runs. Stopping a run and recovering after
  a restart are several statements; a crash between them may leave a room running
  without an active run. What the log of committed events says about that, exactly.
 */
module RoomSteadiness {
  import opened Recency
  import opened RoomEvents
  import opened RoomGuests

  /** Unless closed, the room is running exactly when it has an active run. */
  ghost predicate SteadyIn(d: Db, room: string) {
    room in d.rooms && d.rooms[room].status != RoomClosed ==> (d.rooms[room].status == RoomRunning <==> ActiveIn(d.runs, room))
  }

  ghost predicate Steady(d: Db) {
    forall room :: SteadyIn(d, room)
  }

  /** The event ends an active run of a room that is not closed, and leaves the room's status to a later statement. */
  predicate EndsAlone(d: Db, e: Event, room: string) {
    (e.RunCanceled? || e.RunInterrupted?) && e.run in d.runs && d.runs[e.run].room == room && room in d.rooms && d.rooms[room].status != RoomClosed
  }

  /** The event sets the room's status to what its runs say, or closes it. */
  predicate Mends(e: Event, room: string) {
    e.RoomsInterrupted? || ((e.RoomIdled? || e.TurnTaken? || e.RoomShut?) && e.room == room)
  }

  /** Every run ended alone was followed by an event that mends the room. */
  ghost predicate Mended(d: Db, events: seq<Event>, room: string) {
    forall i :: 0 <= i < |events| && Possible(d, events[..i]) && EndsAlone(After(d, events[..i]), events[i], room) ==>
      exists j :: i < j < |events| && Mends(events[j], room)
  }

  // ── One event ──────────────────────────────────────────────────────────────

  lemma EndingUnsteadies(d: Db, e: Event, room: string)
    requires Healthy(d) && Enabled(d, e) && EndsAlone(d, e, room)
    ensures !SteadyIn(Apply(d, e), room)
  {
    hide SessionsOk, GuestsOk, Apply, Enabled;
    var after := Apply(d, e);
    OneRunEnds(d, e);
    FinishedIsQuiet(d.rooms, d.runs, e.run, after.runs[e.run]);
    assert d.rooms[room].status == RoomRunning;
  }

  lemma MendingSteadies(d: Db, e: Event, room: string)
    requires Enabled(d, e) && Mends(e, room)
    ensures SteadyIn(Apply(d, e), room)
  {
    hide Live, Newest, KeyUsed;
    if e.TurnTaken? {
      var after := Apply(d, e);
      assert e.run in after.runs && after.runs[e.run].room == room && Active(after.runs[e.run]);
    }
  }

  /** The room's runs that count are the same ones. */
  lemma SameActive(before: map<string, RoomRun>, after: map<string, RoomRun>, room: string)
    requires forall r :: r in after && after[r].room == room && Active(after[r]) ==> r in before && before[r].room == room && Active(before[r])
    requires forall r :: r in before && before[r].room == room && Active(before[r]) ==> r in after && after[r].room == room && Active(after[r])
    ensures ActiveIn(after, room) <==> ActiveIn(before, room)
  {
  }

  lemma FinishingIsSteady(d: Db, e: Event, room: string)
    requires Healthy(d) && Enabled(d, e) && e.RunFinished?
    ensures SteadyIn(Apply(d, e), room) <==> SteadyIn(d, room)
  {
    hide SessionsOk, GuestsOk, RunsOk, ActiveIn, Apply, Enabled;
    FinishedRooms(d, e);
    var own := d.runs[e.run].room;
    if room == own {
      FinishKeepsRuns(d, e);
      FinishedWasSteady(d, e);
    } else {
      SameActive(d.runs, Apply(d, e).runs, room);
    }
  }

  /** What finishing a run does to rooms, and to the runs of other rooms. */
  lemma FinishedRooms(d: Db, e: Event)
    requires Enabled(d, e) && e.RunFinished?
    ensures e.run in d.runs
    ensures var own := d.runs[e.run].room; var after := Apply(d, e);
      && after.rooms == SetStatus(d.rooms, own, if e.status == Failed then RoomFailed else Idle)
      && (forall r :: r in after.runs && after.runs[r].room != own ==> r in d.runs && after.runs[r] == d.runs[r])
      && (forall r :: r in d.runs && d.runs[r].room != own ==> r in after.runs && after.runs[r] == d.runs[r])
  {
    hide Newest, KeepMessages, FinishedMessages, SetStatus;
  }

  lemma FinishedWasSteady(d: Db, e: Event)
    requires Healthy(d) && Enabled(d, e) && e.RunFinished?
    ensures SteadyIn(d, d.runs[e.run].room)
  {
    hide SessionsOk, GuestsOk, Live, Newest, Apply;
    assert ActiveIn(d.runs, d.runs[e.run].room);
  }

  lemma OtherEventsKeepSteadiness(d: Db, e: Event, room: string)
    requires Healthy(d) && Enabled(d, e) && !EndsAlone(d, e, room) && !Mends(e, room)
    ensures SteadyIn(Apply(d, e), room) <==> SteadyIn(d, room)
  {
    hide Healthy, Apply, Enabled, SteadyIn;
    match e {
      case RunFinished(_, _, _, _, _, _) => FinishingIsSteady(d, e, room);
      case RunCanceled(_, _) => SameActiveElsewhere(d, e, room);
      case RunInterrupted(_, _) => SameActiveElsewhere(d, e, room);
      case TurnTaken(_, _, _, _, _, _, _) => StreamingKeepsSteadiness(d, e, room);
      case DeltaAppended(_, _) => StreamingKeepsSteadiness(d, e, room);
      case _ => RunsUntouched(d, e, room);
    }
  }

  lemma StreamingKeepsSteadiness(d: Db, e: Event, room: string)
    requires Enabled(d, e) && (e.DeltaAppended? || (e.TurnTaken? && e.room != room))
    ensures SteadyIn(Apply(d, e), room) <==> SteadyIn(d, room)
  {
    hide KeyUsed, ActiveIn;
    SameActive(d.runs, Apply(d, e).runs, room);
  }

  lemma RunsUntouched(d: Db, e: Event, room: string)
    requires Healthy(d) && Enabled(d, e) && !Mends(e, room)
    requires !e.RunFinished? && !e.RunCanceled? && !e.RunInterrupted? && !e.TurnTaken? && !e.DeltaAppended?
    ensures SteadyIn(Apply(d, e), room) <==> SteadyIn(d, room)
  {
    hide Healthy, Live, ActiveIn, WithoutGuests, Cascade, RevokeSessions, TakenOffline;
    if e.RoomCreated? {
      NoRunYet(d, e.room);
    }
  }

  lemma NoRunYet(d: Db, room: string)
    requires Healthy(d) && room !in d.rooms
    ensures !ActiveIn(d.runs, room)
  {
    hide SessionsOk, GuestsOk;
  }

  lemma OneRunEnds(d: Db, e: Event)
    requires Enabled(d, e) && (e.RunCanceled? || e.RunInterrupted?)
    ensures e.run in d.runs && Active(d.runs[e.run])
    ensures var after := Apply(d, e);
      && after.rooms == d.rooms && e.run in after.runs && after.runs == d.runs[e.run := after.runs[e.run]]
      && after.runs[e.run].room == d.runs[e.run].room && !Active(after.runs[e.run])
  {
  }

  /** A run ended in another room, or in a closed one. */
  lemma SameActiveElsewhere(d: Db, e: Event, room: string)
    requires Healthy(d) && Enabled(d, e) && (e.RunCanceled? || e.RunInterrupted?) && !EndsAlone(d, e, room)
    ensures SteadyIn(Apply(d, e), room) <==> SteadyIn(d, room)
  {
    hide SessionsOk, GuestsOk, RunsOk, ActiveIn, Apply, Enabled;
    OneRunEnds(d, e);
    if d.runs[e.run].room != room {
      SameActive(d.runs, Apply(d, e).runs, room);
    }
  }

  /** Only stopping and recovering may leave a room out of step with its runs. */
  lemma EventSteadies(d: Db, e: Event)
    requires Healthy(d) && Enabled(d, e) && !e.RunCanceled? && !e.RunInterrupted?
    ensures Steady(d) ==> Steady(Apply(d, e))
  {
    hide Healthy, Apply, Enabled, SteadyIn;
    if Steady(d) {
      forall room ensures SteadyIn(Apply(d, e), room) {
        if Mends(e, room) {
          MendingSteadies(d, e, room);
        } else {
          OtherEventsKeepSteadiness(d, e, room);
        }
      }
    }
  }

  // ── Every history ──────────────────────────────────────────────────────────

  lemma MendedStep(d: Db, events: seq<Event>, room: string)
    requires Possible(d, events) && events != []
    ensures var init, e := events[..|events| - 1], events[|events| - 1];
      Mended(d, events, room) <==> Mends(e, room) || (Mended(d, init, room) && !EndsAlone(After(d, init), e, room))
  {
    hide Apply, Enabled, Possible, After, EndsAlone;
    var n := |events| - 1;
    var init, e := events[..n], events[n];
    PossiblePrefix(d, events, n);
    assert forall i :: 0 <= i <= n ==> init[..i] == events[..i];
    if Mends(e, room) {
      EndingDoesNotMend(d, init, e, room);
      forall i | 0 <= i < |events| && Possible(d, events[..i]) && EndsAlone(After(d, events[..i]), events[i], room)
        ensures exists j :: i < j < |events| && Mends(events[j], room)
      {
        assert i < n && Mends(events[n], room);
      }
    } else {
      if Mended(d, events, room) {
        forall i | 0 <= i < n && Possible(d, init[..i]) && EndsAlone(After(d, init[..i]), init[i], room)
          ensures exists j :: i < j < n && Mends(init[j], room)
        {
          assert Possible(d, events[..i]) && EndsAlone(After(d, events[..i]), events[i], room);
          var j :| i < j < |events| && Mends(events[j], room);
          assert Mends(init[j], room);
        }
      }
      if Mended(d, init, room) && !EndsAlone(After(d, init), e, room) {
        forall i | 0 <= i < |events| && Possible(d, events[..i]) && EndsAlone(After(d, events[..i]), events[i], room)
          ensures exists j :: i < j < |events| && Mends(events[j], room)
        {
          assert i < n && Possible(d, init[..i]) && EndsAlone(After(d, init[..i]), init[i], room);
          var j :| i < j < n && Mends(init[j], room);
          assert Mends(events[j], room);
        }
      }
    }
  }

  lemma EndingDoesNotMend(d: Db, events: seq<Event>, e: Event, room: string)
    requires Possible(d, events) && Mends(e, room)
    ensures !EndsAlone(After(d, events), e, room)
  {
    hide Possible, After;
  }

  /**
    From a state in which the room's status agrees with its runs, after any run of
    operations, crashes and restarts: it does, if and only if every run that a
    stopping or a recovery ended was followed by the statement that sets the
    room's status, by a new turn, or by the closing of the room.
   */
  lemma {:induction false} SteadyIff(d: Db, events: seq<Event>, room: string)
    requires Healthy(d) && Possible(d, events) && SteadyIn(d, room)
    ensures SteadyIn(After(d, events), room) <==> Mended(d, events, room)
  {
    hide Healthy, Apply, Enabled, SteadyIn, Mended, Evolves, EndsAlone, Mends;
    if events == [] {
      NothingToMend(d, room);
    } else {
      var init, e := events[..|events| - 1], events[|events| - 1];
      var before := After(d, init);
      AlwaysOk(d, init);
      SteadyIff(d, init, room);
      MendedStep(d, events, room);
      if Mends(e, room) {
        MendingSteadies(before, e, room);
      } else if EndsAlone(before, e, room) {
        EndingUnsteadies(before, e, room);
      } else {
        OtherEventsKeepSteadiness(before, e, room);
      }
    }
  }

  lemma NothingToMend(d: Db, room: string)
    ensures Mended(d, [], room)
  {
  }

  /** The statements of `stop_run`. */
  function Stopping(room: string, run: string, reason: string): seq<Event> {
    [RunCanceled(run, reason), RoomIdled(room)]
  }

  /** A stopping in an open room leaves it steady unless it is cut after its first statement. */
  lemma CutStoppingSteadyIff(d: Db, room: string, run: string, reason: string, k: nat)
    requires Healthy(d) && SteadyIn(d, room) && room in d.rooms && d.rooms[room].status != RoomClosed && k <= 2
    requires run in d.runs && d.runs[run].room == room && Active(d.runs[run])
    ensures Possible(d, Stopping(room, run, reason)[..k])
    ensures SteadyIn(After(d, Stopping(room, run, reason)[..k]), room) <==> k != 1
  {
    hide SessionsOk, GuestsOk, Live, Newest, Possible, After;
    var e := RunCanceled(run, reason);
    NothingDone(d);
    if k > 0 {
      OneMorePossible(d, [], e);
      assert [] + [e] == [e] == Stopping(room, run, reason)[..1];
      EndingUnsteadies(d, e, room);
    }
    if k == 2 {
      FinishedIsQuiet(d.rooms, d.runs, run, Apply(d, e).runs[run]);
      OneMorePossible(d, [e], RoomIdled(room));
      assert [e] + [RoomIdled(room)] == Stopping(room, run, reason)[..2];
      MendingSteadies(Apply(d, e), RoomIdled(room), room);
    }
  }
}
