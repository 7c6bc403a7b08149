/**
  Generation workers over the Rooms store. Tasks (submitting a turn, stopping a
  run, closing a room, the worker of a run) interleave at every await; what each
  does between awaits is one step.
 */
module RoomRuntimes {
  import opened Wrappers
  import opened RoomEvents
  import opened RoomGuests
  import opened RoomSessions
  import opened RoomSteadiness
  import opened RoomStores

  /** A room's entry in the active map: its run, and the worker that holds the cancel channel's other end. */
  datatype ActiveRun = ActiveRun(run: string, worker: nat)

  datatype Worker = Worker(room: string, run: string)

  /** The store, the active map, accepted turns whose worker is not started yet, and the workers still alive. */
  datatype Runtime = Runtime(db: Db, active: map<string, ActiveRun>, pending: multiset<Worker>, workers: map<nat, Worker>, spawned: nat)

  datatype Step =
    /** Anything committed to the store, by anyone. */
    | Committed(e: Event)
    /** A turn was accepted, new or repeated, with a running run. */
    | TurnAccepted(room: string, run: string)
    /** `start_run` for an accepted turn: spawns a worker unless the room has one. */
    | RunStarted(room: string, run: string)
    /** `stop_run` after the store canceled the run: take the room's entry out if it is that run's. */
    | StopRemoves(room: string, run: string)
    /** `close_room` after the store closed the room: take the room's entry out, whatever it is. */
    | CloseRemoves(room: string)
    /** A worker's generation is over, and it takes its entry out. */
    | WorkerEnds(worker: nat)

  ghost predicate CanStep(r: Runtime, s: Step) {
    match s
    case Committed(e) => Enabled(r.db, e)
    case TurnAccepted(room, run) => run in r.db.runs && r.db.runs[run].room == room && r.db.runs[run].status == Running
    case RunStarted(room, run) => Worker(room, run) in r.pending
    case StopRemoves(room, run) => run in r.db.spent && !(run in r.db.runs && Active(r.db.runs[run]))
    case CloseRemoves(room) => room in r.db.rooms && r.db.rooms[room].status == RoomClosed
    case WorkerEnds(worker) => worker in r.workers
  }

  function RemoveActive(active: map<string, ActiveRun>, room: string, run: string): map<string, ActiveRun> {
    if room in active && active[room].run == run then active - {room} else active
  }

  ghost function Take(r: Runtime, s: Step): Runtime
    requires CanStep(r, s)
  {
    match s
    case Committed(e) => r.(db := Apply(r.db, e))
    case TurnAccepted(room, run) => r.(pending := r.pending + multiset{Worker(room, run)})
    case RunStarted(room, run) =>
      var rest := r.(pending := r.pending - multiset{Worker(room, run)});
      if room in r.active then rest
      else rest.(active := r.active[room := ActiveRun(run, r.spawned)], workers := r.workers[r.spawned := Worker(room, run)], spawned := r.spawned + 1)
    case StopRemoves(room, run) => r.(active := RemoveActive(r.active, room, run))
    case CloseRemoves(room) => r.(active := r.active - {room})
    case WorkerEnds(worker) =>
      r.(workers := r.workers - {worker}, active := RemoveActive(r.active, r.workers[worker].room, r.workers[worker].run))
  }

  /** The worker's run is active, in a room that is not closed. */
  predicate Working(r: Runtime, w: nat)
    requires w in r.workers
  {
    var worker := r.workers[w];
    && worker.run in r.db.runs && Active(r.db.runs[worker.run]) && r.db.runs[worker.run].room == worker.room
    && worker.room in r.db.rooms && r.db.rooms[worker.room].status != RoomClosed
  }

  /** Every worker on an active run of an open room is the one its room's entry names. */
  ghost predicate Owned(r: Runtime) {
    && Healthy(r.db)
    && (forall w :: w in r.workers ==> w < r.spawned && r.workers[w].run in r.db.spent)
    && (forall p :: p in r.pending ==> p.run in r.db.spent)
    && (forall w :: w in r.workers && Working(r, w) ==> r.workers[w].room in r.active && r.active[r.workers[w].room] == ActiveRun(r.workers[w].run, w))
  }

  /** No step makes an inactive run active again under a worker: run ids are never reused. */
  lemma WorkingBefore(d: Db, e: Event, run: string)
    requires Healthy(d) && Enabled(d, e) && run in d.spent
    requires run in Apply(d, e).runs && Active(Apply(d, e).runs[run])
    ensures run in d.runs && Active(d.runs[run]) && Apply(d, e).runs[run].room == d.runs[run].room
  {
    hide Apply, Enabled, RunsOk, SessionsOk, GuestsOk;
    EventEvolves(d, e);
  }

  lemma OpenBefore(d: Db, e: Event, room: string, run: string)
    requires Healthy(d) && Enabled(d, e) && run in d.runs && d.runs[run].room == room
    requires room in Apply(d, e).rooms && Apply(d, e).rooms[room].status != RoomClosed
    ensures room in d.rooms && d.rooms[room].status != RoomClosed
  {
    hide Apply, Enabled, SessionsOk, GuestsOk;
    EventEvolves(d, e);
  }

  lemma CommitKeepsOwned(r: Runtime, e: Event)
    requires Owned(r) && Enabled(r.db, e)
    ensures Owned(r.(db := Apply(r.db, e)))
  {
    hide Apply, Enabled, Healthy;
    EventKeepsOk(r.db, e);
    var t := r.(db := Apply(r.db, e));
    forall w | w in t.workers && Working(t, w) ensures Working(r, w) {
      WorkingBefore(r.db, e, r.workers[w].run);
      OpenBefore(r.db, e, r.workers[w].room, r.workers[w].run);
    }
  }

  /** A worker is added to a room that has no entry, so no worker on an active run of an open room is there. */
  lemma SpawnKeepsOwned(r: Runtime, room: string, run: string)
    requires Owned(r) && room !in r.active && run in r.db.spent
    ensures Owned(r.(active := r.active[room := ActiveRun(run, r.spawned)], workers := r.workers[r.spawned := Worker(room, run)], spawned := r.spawned + 1))
  {
    hide Healthy, Working;
    var t := r.(active := r.active[room := ActiveRun(run, r.spawned)], workers := r.workers[r.spawned := Worker(room, run)], spawned := r.spawned + 1);
    forall w | w in r.workers ensures w < r.spawned && w in t.workers && t.workers[w] == r.workers[w] && (Working(t, w) <==> Working(r, w)) {
      SameWorking(r, t, w);
    }
    forall w | w in t.workers && Working(t, w) ensures t.workers[w].room in t.active && t.active[t.workers[w].room] == ActiveRun(t.workers[w].run, w) {
      if w != r.spawned {
        assert w in r.workers;
      }
    }
  }

  lemma FewerPendingOwned(r: Runtime, pending: multiset<Worker>)
    requires Owned(r) && pending <= r.pending
    ensures Owned(r.(pending := pending))
  {
    hide Healthy, Working;
    forall w | w in r.workers ensures Working(r.(pending := pending), w) <==> Working(r, w) {
      SameWorking(r, r.(pending := pending), w);
    }
  }

  lemma StartKeepsOwned(r: Runtime, s: Step)
    requires Owned(r) && CanStep(r, s) && s.RunStarted?
    ensures Owned(Take(r, s))
  {
    hide Owned, Healthy;
    assert s.run in r.db.spent by { PendingSpent(r, Worker(s.room, s.run)); }
    var rest := r.pending - multiset{Worker(s.room, s.run)};
    FewerPendingOwned(r, rest);
    if s.room !in r.active {
      SpawnKeepsOwned(r.(pending := rest), s.room, s.run);
    }
  }

  lemma PendingSpent(r: Runtime, p: Worker)
    requires Owned(r) && p in r.pending
    ensures p.run in r.db.spent
  {
    hide Healthy, Working;
  }

  lemma SameWorking(r: Runtime, t: Runtime, w: nat)
    requires w in r.workers && w in t.workers && t.workers[w] == r.workers[w] && t.db == r.db
    ensures Working(t, w) <==> Working(r, w)
  {
  }

  /** Taking out an entry is safe when no worker on an active run of an open room owns it. */
  lemma RemovalKeepsOwned(r: Runtime, t: Runtime)
    requires Owned(r) && t.db == r.db && t.spawned == r.spawned && t.pending == r.pending
    requires forall w :: w in t.workers ==> w in r.workers && t.workers[w] == r.workers[w]
    requires forall room :: room in t.active ==> room in r.active && t.active[room] == r.active[room]
    requires forall w :: w in t.workers && Working(r, w) && t.workers[w].room in r.active && r.active[t.workers[w].room] == ActiveRun(t.workers[w].run, w) ==>
      t.workers[w].room in t.active
    ensures Owned(t)
  {
    hide Healthy;
    forall w | w in t.workers && Working(t, w) ensures t.workers[w].room in t.active && t.active[t.workers[w].room] == ActiveRun(t.workers[w].run, w) {
      assert Working(r, w);
    }
  }

  lemma StepKeepsOwned(r: Runtime, s: Step)
    requires Owned(r) && CanStep(r, s)
    ensures Owned(Take(r, s))
  {
    hide Healthy, Apply, Enabled, Owned;
    match s {
      case Committed(e) => CommitKeepsOwned(r, e);
      case TurnAccepted(room, run) => AcceptKeepsOwned(r, s);
      case RunStarted(room, run) => StartKeepsOwned(r, s);
      case StopRemoves(room, run) => RemovalKeepsOwned(r, Take(r, s));
      case CloseRemoves(room) => RemovalKeepsOwned(r, Take(r, s));
      case WorkerEnds(worker) =>
        OwnerIsUnique(r);
        RemovalKeepsOwned(r, Take(r, s));
    }
  }

  lemma AcceptKeepsOwned(r: Runtime, s: Step)
    requires Owned(r) && CanStep(r, s) && s.TurnAccepted?
    ensures Owned(Take(r, s))
  {
    hide Healthy;
    HealthySpent(r.db, s.run);
    assert forall w :: w in r.workers ==> (Working(Take(r, s), w) <==> Working(r, w));
  }

  lemma OwnerIsUnique(r: Runtime)
    requires Owned(r)
    ensures forall v, w :: v in r.workers && w in r.workers && Working(r, w) && r.workers[v].room == r.workers[w].room && r.workers[v].run == r.workers[w].run ==> Working(r, v) && v == w
  {
    hide Healthy;
    forall v, w | v in r.workers && w in r.workers && Working(r, w) && r.workers[v].room == r.workers[w].room && r.workers[v].run == r.workers[w].run
      ensures Working(r, v) && v == w
    {
      assert Working(r, v);
    }
  }

  lemma HealthySpent(d: Db, run: string)
    requires Healthy(d) && run in d.runs
    ensures run in d.spent
  {
    hide RunsOk, SessionsOk, GuestsOk;
  }

  ghost predicate Schedule(r: Runtime, steps: seq<Step>)
    decreases |steps|, 0
  {
    steps == [] || (Schedule(r, steps[..|steps| - 1]) && CanStep(Following(r, steps[..|steps| - 1]), steps[|steps| - 1]))
  }

  ghost function Following(r: Runtime, steps: seq<Step>): Runtime
    requires Schedule(r, steps)
    decreases |steps|, 1
  {
    if steps == [] then r else Take(Following(r, steps[..|steps| - 1]), steps[|steps| - 1])
  }

  /** Over every interleaving, no two workers work on the same active run of an open room, nor in the same room at once. */
  lemma {:induction false} OneWorkerPerRun(r: Runtime, steps: seq<Step>, v: nat, w: nat)
    requires Owned(r) && Schedule(r, steps)
    ensures Owned(Following(r, steps))
    ensures var now := Following(r, steps);
      v in now.workers && w in now.workers && now.workers[v].room == now.workers[w].room && Working(now, v) && Working(now, w) ==> v == w
  {
    hide Healthy, CanStep, Take, Working;
    if steps != [] {
      OneWorkerPerRun(r, steps[..|steps| - 1], v, w);
      StepKeepsOwned(Following(r, steps[..|steps| - 1]), steps[|steps| - 1]);
    }
  }

  /** Nothing a worker asks of the store changes anything once its run has ended: its deltas are refused, and ending it again does nothing. */
  method StaleWorkerIsHarmless(store: RoomStore, room: string, run: string, delta: string, terminal: RunTerminal, message: string, now: nat)
    returns (appended: Result<bool, StoreError>, finished: Result<bool, StoreError>)
    requires store.Valid() && now >= store.db.clock && Terminal(terminal.status)
    requires !(run in store.db.runs && Active(store.db.runs[run]))
    modifies store`db, store`log, store`calls
    ensures store.db == old(store.db) && store.log == old(store.log)
    ensures appended.Err? && finished != Ok(true)
  {
    hide Healthy, Possible, After, Steady, Settled;
    appended := store.AppendDelta(room, run, delta);
    finished := store.FinishRun(room, run, terminal, message, now);
  }

  // ── When two workers share a run ───────────────────────────────────────────

  /** A process that has just started: no workers, and any database a past may leave. */
  ghost predicate JustStarted(r: Runtime) {
    Healthy(r.db) && r == Runtime(r.db, map[], multiset{}, map[], 0)
  }

  predicate Busy(d: Db, run: string) {
    run in d.runs && Active(d.runs[run])
  }

  /** Step `j` starts worker `w` on a run of a room that has no entry. */
  ghost predicate Spawns(r: Runtime, steps: seq<Step>, j: nat, w: nat, room: string, run: string) {
    && j < |steps| && steps[j] == RunStarted(room, run) && Schedule(r, steps[..j])
    && room !in Following(r, steps[..j]).active && Following(r, steps[..j]).spawned == w
  }

  /** Step `i` is a closing that takes out the room's entry while it names a live worker on the run. */
  ghost predicate TakesOut(r: Runtime, steps: seq<Step>, i: nat, room: string, run: string) {
    i < |steps| && steps[i] == CloseRemoves(room) && Schedule(r, steps[..i]) && NamesLive(Following(r, steps[..i]), room, run)
  }

  /** The room's entry names a live worker on the run. */
  predicate NamesLive(now: Runtime, room: string, run: string) {
    && room in now.active && now.active[room].run == run
    && now.active[room].worker in now.workers && now.workers[now.active[room].worker] == Worker(room, run)
  }

  /** The worker was started on the run after a closing took out a live worker on it. */
  ghost predicate StartedAfterClose(r: Runtime, steps: seq<Step>, w: nat, room: string, run: string) {
    exists i: nat, j: nat :: i < j && TakesOut(r, steps, i, room, run) && Spawns(r, steps, j, w, room, run)
  }

  ghost predicate Started(r: Runtime, steps: seq<Step>, w: nat, room: string, run: string) {
    exists j: nat :: Spawns(r, steps, j, w, room, run)
  }

  ghost predicate TakenOut(r: Runtime, steps: seq<Step>, room: string, run: string) {
    exists i: nat :: TakesOut(r, steps, i, room, run)
  }

  ghost predicate EntriesLive(now: Runtime) {
    forall room :: room in now.active ==> NamesLive(now, room, now.active[room].run)
  }

  /** Every live worker was started on what it works on, and no worker id is used twice. */
  ghost predicate Traced(r: Runtime, steps: seq<Step>)
    requires Schedule(r, steps)
  {
    var now := Following(r, steps);
    && (forall w :: w in now.workers ==> Started(r, steps, w, now.workers[w].room, now.workers[w].run))
    && (forall j: nat, w: nat, room, run :: Spawns(r, steps, j, w, room, run) ==> w < now.spawned && (w in now.workers ==> now.workers[w] == Worker(room, run)))
  }

  /** A live worker on an active run is in sight of its room's entry, or a closing took the entry out. */
  ghost predicate InSightOrTakenOut(r: Runtime, steps: seq<Step>)
    requires Schedule(r, steps)
  {
    var now := Following(r, steps);
    forall w :: w in now.workers && Busy(now.db, now.workers[w].run) ==>
      || (now.workers[w].room in now.active && now.active[now.workers[w].room].run == now.workers[w].run)
      || TakenOut(r, steps, now.workers[w].room, now.workers[w].run)
  }

  ghost predicate TwinsExplained(r: Runtime, steps: seq<Step>)
    requires Schedule(r, steps)
  {
    var now := Following(r, steps);
    forall v, w :: v < w && v in now.workers && w in now.workers && now.workers[v] == now.workers[w] && Busy(now.db, now.workers[w].run) ==>
      StartedAfterClose(r, steps, w, now.workers[w].room, now.workers[w].run)
  }

  /** What one more step adds to what was started and taken out. */
  lemma OneMoreStep(r: Runtime, steps: seq<Step>)
    requires Schedule(r, steps) && steps != []
    ensures var n := |steps| - 1; var init, last := steps[..n], steps[n]; var before := Following(r, init);
      && (forall j: nat, w: nat, room, run :: Spawns(r, steps, j, w, room, run) <==>
            Spawns(r, init, j, w, room, run) || (j == n && last == RunStarted(room, run) && room !in before.active && before.spawned == w))
      && (forall i: nat, room, run :: TakesOut(r, steps, i, room, run) <==>
            TakesOut(r, init, i, room, run) || (i == n && last == CloseRemoves(room) && NamesLive(before, room, run)))
  {
    hide Schedule, Following, NamesLive;
    var n := |steps| - 1;
    var init := steps[..n];
    assert forall j :: 0 <= j <= n ==> init[..j] == steps[..j];
    LastStep(r, steps);
  }

  lemma LastStep(r: Runtime, steps: seq<Step>)
    requires Schedule(r, steps) && steps != []
    ensures var n := |steps| - 1;
      Schedule(r, steps[..n]) && CanStep(Following(r, steps[..n]), steps[n]) && Following(r, steps) == Take(Following(r, steps[..n]), steps[n])
  {
    hide CanStep, Take;
  }

  lemma StepKeepsEntries(now: Runtime, s: Step)
    requires Owned(now) && CanStep(now, s) && EntriesLive(now)
    ensures EntriesLive(Take(now, s))
  {
    hide Healthy, Working, Apply, Enabled;
    assert forall w :: w in now.workers ==> w < now.spawned;
  }

  predicate SpawnsNow(now: Runtime, s: Step) {
    s.RunStarted? && s.room !in now.active
  }

  lemma WorkersAfter(now: Runtime, s: Step)
    requires Owned(now) && CanStep(now, s)
    ensures forall w :: w in now.workers ==> w < now.spawned
    ensures s.WorkerEnds? ==> s.worker in now.workers
    ensures var t := Take(now, s);
      && (forall w :: w in t.workers <==> (w in now.workers && s != WorkerEnds(w)) || (SpawnsNow(now, s) && w == now.spawned))
      && (forall w :: w in t.workers && w in now.workers ==> t.workers[w] == now.workers[w])
      && (SpawnsNow(now, s) ==> t.workers[now.spawned] == Worker(s.room, s.run))
      && t.spawned == now.spawned + (if SpawnsNow(now, s) then 1 else 0)
  {
    hide Healthy, Working, Apply, Enabled;
  }

  lemma StepKeepsTraced(r: Runtime, steps: seq<Step>)
    requires Schedule(r, steps) && steps != [] && Traced(r, steps[..|steps| - 1]) && Owned(Following(r, steps[..|steps| - 1]))
    ensures Traced(r, steps)
  {
    hide Schedule, Following, Spawns, TakesOut, Owned, Take, CanStep;
    var n := |steps| - 1;
    var init, s := steps[..n], steps[n];
    LastStep(r, steps);
    OneMoreStep(r, steps);
    var before, now := Following(r, init), Following(r, steps);
    WorkersAfter(before, s);
    forall w | w in now.workers ensures Started(r, steps, w, now.workers[w].room, now.workers[w].run) {
      if w in before.workers {
        var j: nat :| Spawns(r, init, j, w, before.workers[w].room, before.workers[w].run);
        assert Spawns(r, steps, j, w, before.workers[w].room, before.workers[w].run);
      } else {
        assert Spawns(r, steps, n, w, s.room, s.run);
      }
    }
    forall j: nat, w: nat, room, run | Spawns(r, steps, j, w, room, run)
      ensures w < now.spawned && (w in now.workers ==> now.workers[w] == Worker(room, run))
    {
      if Spawns(r, init, j, w, room, run) {
        assert w < before.spawned;
      }
    }
  }

  lemma TakenOutStays(r: Runtime, steps: seq<Step>, room: string, run: string)
    requires Schedule(r, steps) && steps != []
    ensures TakenOut(r, steps[..|steps| - 1], room, run) ==> TakenOut(r, steps, room, run)
  {
    hide Schedule, Following, Spawns, TakesOut;
    OneMoreStep(r, steps);
    if TakenOut(r, steps[..|steps| - 1], room, run) {
      var i: nat :| TakesOut(r, steps[..|steps| - 1], i, room, run);
      assert TakesOut(r, steps, i, room, run);
    }
  }

  /** A run busy after a step was busy before it: run ids are never reused. */
  lemma BusyBefore(now: Runtime, s: Step, run: string)
    requires Owned(now) && CanStep(now, s) && run in now.db.spent && Busy(Take(now, s).db, run)
    ensures Busy(now.db, run)
  {
    hide Healthy, Working, Apply, Enabled;
    if s.Committed? {
      WorkingBefore(now.db, s.e, run);
    }
  }

  /** What happens to the entry of a live worker on an active run. */
  lemma EntryAfter(now: Runtime, s: Step, w: nat)
    requires Owned(now) && CanStep(now, s) && w in now.workers && s != WorkerEnds(w) && Busy(Take(now, s).db, now.workers[w].run)
    requires now.workers[w].room in now.active && now.active[now.workers[w].room].run == now.workers[w].run
    ensures
      || (now.workers[w].room in Take(now, s).active && Take(now, s).active[now.workers[w].room].run == now.workers[w].run)
      || s == CloseRemoves(now.workers[w].room)
      || (s.WorkerEnds? && now.workers[s.worker] == now.workers[w])
  {
    hide Healthy, Working, Apply, Enabled;
  }

  lemma StepKeepsInSight(r: Runtime, steps: seq<Step>)
    requires Schedule(r, steps) && steps != [] && Owned(Following(r, steps[..|steps| - 1])) && EntriesLive(Following(r, steps[..|steps| - 1]))
    requires InSightOrTakenOut(r, steps[..|steps| - 1]) && TwinsExplained(r, steps[..|steps| - 1])
    ensures InSightOrTakenOut(r, steps)
  {
    hide Schedule, Following, Spawns, TakesOut, Take, CanStep, Busy, TakenOut, StartedAfterClose, Healthy, Working;
    var n := |steps| - 1;
    var init, s := steps[..n], steps[n];
    LastStep(r, steps);
    OneMoreStep(r, steps);
    var before, now := Following(r, init), Following(r, steps);
    WorkersAfter(before, s);
    forall w | w in now.workers && Busy(now.db, now.workers[w].run)
      ensures (now.workers[w].room in now.active && now.active[now.workers[w].room].run == now.workers[w].run)
           || TakenOut(r, steps, now.workers[w].room, now.workers[w].run)
    {
      if w in before.workers {
        var room, run := before.workers[w].room, before.workers[w].run;
        BusyBefore(before, s, run);
        TakenOutStays(r, steps, room, run);
        if room in before.active && before.active[room].run == run {
          EntryAfter(before, s, w);
          if s == CloseRemoves(room) {
            NowTakenOut(r, steps, room, run);
          } else if s.WorkerEnds? && before.workers[s.worker] == before.workers[w] {
            var v, x := if s.worker < w then s.worker else w, if s.worker < w then w else s.worker;
            assert StartedAfterClose(r, init, x, before.workers[x].room, before.workers[x].run);
            ThenTakenOut(r, init, x, room, run);
          }
        }
      } else {
        EntryOfNew(before, s);
      }
    }
  }

  lemma EntryOfNew(now: Runtime, s: Step)
    requires CanStep(now, s) && SpawnsNow(now, s)
    ensures s.room in Take(now, s).active && Take(now, s).active[s.room].run == s.run
  {
  }

  lemma NowTakenOut(r: Runtime, steps: seq<Step>, room: string, run: string)
    requires Schedule(r, steps) && steps != [] && steps[|steps| - 1] == CloseRemoves(room)
    requires var before := Following(r, steps[..|steps| - 1]); EntriesLive(before) && room in before.active && before.active[room].run == run
    ensures TakenOut(r, steps, room, run)
  {
    hide Schedule, Following, Spawns, TakesOut;
    OneMoreStep(r, steps);
    assert TakesOut(r, steps, |steps| - 1, room, run);
  }

  lemma ThenTakenOut(r: Runtime, steps: seq<Step>, w: nat, room: string, run: string)
    requires StartedAfterClose(r, steps, w, room, run)
    ensures TakenOut(r, steps, room, run)
  {
    hide Spawns, TakesOut;
  }

  lemma StepKeepsTwins(r: Runtime, steps: seq<Step>)
    requires Schedule(r, steps) && steps != [] && Owned(Following(r, steps[..|steps| - 1]))
    requires InSightOrTakenOut(r, steps[..|steps| - 1]) && TwinsExplained(r, steps[..|steps| - 1])
    ensures TwinsExplained(r, steps)
  {
    hide Schedule, Following, Spawns, TakesOut, Take, CanStep, Busy, TakenOut, StartedAfterClose, Healthy, Working;
    var n := |steps| - 1;
    var init, s := steps[..n], steps[n];
    LastStep(r, steps);
    var before, now := Following(r, init), Following(r, steps);
    WorkersAfter(before, s);
    forall v, w | v < w && v in now.workers && w in now.workers && now.workers[v] == now.workers[w] && Busy(now.db, now.workers[w].run)
      ensures StartedAfterClose(r, steps, w, now.workers[w].room, now.workers[w].run)
    {
      var room, run := now.workers[v].room, now.workers[v].run;
      BusyBefore(before, s, run);
      if w in before.workers {
        StartedAfterCloseStays(r, steps, w, room, run);
      } else {
        assert TakenOut(r, init, room, run);
        StartsAfterClose(r, steps, room, run);
      }
    }
  }

  lemma StartedAfterCloseStays(r: Runtime, steps: seq<Step>, w: nat, room: string, run: string)
    requires Schedule(r, steps) && steps != []
    ensures StartedAfterClose(r, steps[..|steps| - 1], w, room, run) ==> StartedAfterClose(r, steps, w, room, run)
  {
    hide Schedule, Following, Spawns, TakesOut;
    OneMoreStep(r, steps);
    var init := steps[..|steps| - 1];
    if StartedAfterClose(r, init, w, room, run) {
      var i: nat, j: nat :| i < j && TakesOut(r, init, i, room, run) && Spawns(r, init, j, w, room, run);
      assert TakesOut(r, steps, i, room, run) && Spawns(r, steps, j, w, room, run);
    }
  }

  lemma StartsAfterClose(r: Runtime, steps: seq<Step>, room: string, run: string)
    requires Schedule(r, steps) && steps != [] && steps[|steps| - 1] == RunStarted(room, run)
    requires room !in Following(r, steps[..|steps| - 1]).active && TakenOut(r, steps[..|steps| - 1], room, run)
    ensures StartedAfterClose(r, steps, Following(r, steps[..|steps| - 1]).spawned, room, run)
  {
    hide Schedule, Following, Spawns;
    var n := |steps| - 1;
    LastStep(r, steps);
    OneMoreStep(r, steps);
    var i: nat :| TakesOut(r, steps[..n], i, room, run);
    assert TakesOut(r, steps, i, room, run) && Spawns(r, steps, n, Following(r, steps[..n]).spawned, room, run);
  }

  lemma {:induction false} WorkersTracked(r: Runtime, steps: seq<Step>)
    requires JustStarted(r) && Schedule(r, steps)
    ensures Owned(Following(r, steps)) && EntriesLive(Following(r, steps))
    ensures Traced(r, steps) && InSightOrTakenOut(r, steps) && TwinsExplained(r, steps)
  {
    hide Healthy, CanStep, Take, Owned, EntriesLive, Traced, InSightOrTakenOut, TwinsExplained;
    if steps == [] {
      NothingStarted(r);
    } else {
      var init := steps[..|steps| - 1];
      WorkersTracked(r, init);
      StepKeepsOwned(Following(r, init), steps[|steps| - 1]);
      StepKeepsEntries(Following(r, init), steps[|steps| - 1]);
      StepKeepsTraced(r, steps);
      StepKeepsInSight(r, steps);
      StepKeepsTwins(r, steps);
    }
  }

  lemma NothingStarted(r: Runtime)
    requires JustStarted(r)
    ensures Schedule(r, []) && Following(r, []) == r
    ensures Owned(r) && EntriesLive(r) && Traced(r, []) && InSightOrTakenOut(r, []) && TwinsExplained(r, [])
  {
    hide Healthy;
  }

  /**
    Over every schedule of a process: of two live workers, the later one on an
    active run, both work on that run if and only if the earlier one was started
    on it too, and the later one after a closing had taken out the room's entry
    while it named a live worker on that run.
   */
  lemma TwoWorkersIff(r: Runtime, steps: seq<Step>, v: nat, w: nat)
    requires JustStarted(r) && Schedule(r, steps) && v < w
    requires var now := Following(r, steps); v in now.workers && w in now.workers && Busy(now.db, now.workers[w].run)
    ensures var now := Following(r, steps);
      var room, run := now.workers[w].room, now.workers[w].run;
      now.workers[v] == now.workers[w] <==> Started(r, steps, v, room, run) && StartedAfterClose(r, steps, w, room, run)
  {
    hide Healthy, Schedule, Following, Spawns, TakesOut, Owned, EntriesLive, InSightOrTakenOut;
    WorkersTracked(r, steps);
  }

  /** Whenever two live workers share an active run, a closing has taken out the entry of a live worker on it. */
  lemma SharedMeansTakenOut(r: Runtime, steps: seq<Step>, v: nat, w: nat)
    requires JustStarted(r) && Schedule(r, steps) && v < w
    requires var now := Following(r, steps); v in now.workers && w in now.workers && now.workers[v] == now.workers[w] && Busy(now.db, now.workers[w].run)
    ensures var now := Following(r, steps); TakenOut(r, steps, now.workers[w].room, now.workers[w].run)
  {
    hide Healthy, Schedule, Following, Spawns, TakesOut, Owned, EntriesLive, InSightOrTakenOut, Traced;
    WorkersTracked(r, steps);
    ThenTakenOut(r, steps, w, Following(r, steps).workers[w].room, Following(r, steps).workers[w].run);
  }

  // ── A closed room ──────────────────────────────────────────────────────────

  /** A room closed while a repeated turn waits to start: its run goes on. */
  function TwoWorkers(room: string, run: string): seq<Step> {
    [TurnAccepted(room, run), TurnAccepted(room, run), RunStarted(room, run), Committed(RoomShut(room)), CloseRemoves(room), RunStarted(room, run)]
  }

  /**
    In a closed room two workers may stream into one active run: closing looks
    for a run to stop before the turn is taken, so it closes the room with the
    run active and takes the entry out; the repeated turn then starts a second
    worker.
   */
  lemma TwoWorkersAfterClose(d: Db, room: string, run: string)
    requires Healthy(d) && room in d.rooms && d.rooms[room].status == RoomRunning
    requires run in d.runs && d.runs[run].room == room && d.runs[run].status == Running
    ensures var r := Runtime(d, map[], multiset{}, map[], 0); var steps := TwoWorkers(room, run);
      && JustStarted(r) && Schedule(r, steps)
      && var end := Following(r, steps);
         && 0 in end.workers && 1 in end.workers && end.workers[0] == end.workers[1] == Worker(room, run)
         && Busy(end.db, run) && room in end.db.rooms && end.db.rooms[room].status == RoomClosed
  {
    hide Healthy, Schedule, Following, Enabled;
    var r := Runtime(d, map[], multiset{}, map[], 0);
    var early := [TurnAccepted(room, run), TurnAccepted(room, run), RunStarted(room, run)];
    var start, shut, close := RunStarted(room, run), Committed(RoomShut(room)), CloseRemoves(room);
    OneWorkerYet(d, room, run);
    CanShut(d, room);
    ScheduleMore(r, early, shut);
    ScheduleMore(r, early + [shut], close);
    ScheduleMore(r, early + [shut] + [close], start);
    assert TwoWorkers(room, run) == early + [shut] + [close] + [start];
  }

  lemma OneWorkerYet(d: Db, room: string, run: string)
    requires run in d.runs && d.runs[run].room == room && d.runs[run].status == Running
    ensures var r := Runtime(d, map[], multiset{}, map[], 0); var w := Worker(room, run);
      var early := [TurnAccepted(room, run), TurnAccepted(room, run), RunStarted(room, run)];
      Schedule(r, early) && Following(r, early) == Runtime(d, map[room := ActiveRun(run, 0)], multiset{w}, map[0 := w], 1)
  {
    hide Schedule, Following, Enabled;
    var w := Worker(room, run);
    var r := Runtime(d, map[], multiset{}, map[], 0);
    var turn, start := TurnAccepted(room, run), RunStarted(room, run);
    assert [] + [turn] == [turn] && [turn] + [turn] == [turn, turn] && [turn, turn] + [start] == [turn, turn, start];
    ScheduleStarts(r);
    ScheduleMore(r, [], turn);
    ScheduleMore(r, [turn], turn);
    ScheduleMore(r, [turn, turn], start);
    assert multiset{} + multiset{w} + multiset{w} - multiset{w} == multiset{w};
  }

  lemma CanShut(d: Db, room: string)
    requires room in d.rooms && d.rooms[room].status != RoomClosed
    ensures Enabled(d, RoomShut(room))
  {
  }

  lemma ScheduleStarts(r: Runtime)
    ensures Schedule(r, []) && Following(r, []) == r
  {
  }

  lemma ScheduleMore(r: Runtime, steps: seq<Step>, s: Step)
    requires Schedule(r, steps) && CanStep(Following(r, steps), s)
    ensures Schedule(r, steps + [s]) && Following(r, steps + [s]) == Take(Following(r, steps), s)
  {
    hide CanStep, Take;
    assert (steps + [s])[..|steps|] == steps;
  }
}
