/**
  Several processes resolving the key file at once. Each reads the file, chooses
  a key when there is none, publishes it without replacing an existing file, and
  adopts the file's key if another process was first. One atomic file operation
  is one step; any interleaving, with processes stopping or failing anywhere, is
  a schedule.
 */
module KeyPublish {
  import opened KeySlots

  datatype Phase =
    | Reading
    | Publishing(key: Key)
    | LostRace
    | Finished(key: Key)
    | GaveUp

  datatype World = World(file: Slot, phases: seq<Phase>)

  /** Process `who` takes its next step; `chosen` is the key it would publish, `fails` an I/O failure. */
  datatype Event = Event(who: nat, chosen: Key, fails: bool)

  function ReadBack(file: Slot): Phase {
    match file
    case Holds(key) => Finished(key)
    case _ => GaveUp
  }

  function Next(w: World, e: Event): World {
    if e.who >= |w.phases| then w
    else match w.phases[e.who]
      case Reading =>
        w.(phases := w.phases[e.who := if w.file.Nothing? then Publishing(e.chosen) else ReadBack(w.file)])
      case Publishing(key) =>
        if e.fails then w.(phases := w.phases[e.who := GaveUp])
        else if w.file.Nothing? then World(Holds(key), w.phases[e.who := Finished(key)])
        else w.(phases := w.phases[e.who := LostRace])
      case LostRace => w.(phases := w.phases[e.who := ReadBack(w.file)])
      case _ => w
  }

  function Run(w: World, schedule: seq<Event>): World {
    if schedule == [] then w else Next(Run(w, schedule[..|schedule| - 1]), schedule[|schedule| - 1])
  }

  /** Whoever has finished holds the file's key; whoever lost a race lost it to a file that is there. */
  predicate Agreed(w: World) {
    && (forall p :: 0 <= p < |w.phases| && w.phases[p].Finished? ==> w.file == Holds(w.phases[p].key))
    && (forall p :: 0 <= p < |w.phases| && w.phases[p].LostRace? ==> w.file != Nothing)
  }

  /**
    Over every schedule: processes that finish hold the same key, the one in the
    file; and the file, once there, never changes.
   */
  lemma {:induction false} AllAgree(w: World, schedule: seq<Event>)
    requires forall p :: 0 <= p < |w.phases| ==> w.phases[p] == Reading
    ensures Agreed(Run(w, schedule)) && |Run(w, schedule).phases| == |w.phases|
    ensures forall n :: 0 <= n <= |schedule| && Run(w, schedule[..n]).file != Nothing ==> Run(w, schedule).file == Run(w, schedule[..n]).file
    ensures Run(w, schedule).file.Holds? ==> w.file == Run(w, schedule).file || exists n :: 0 <= n < |schedule| && schedule[n].chosen == Run(w, schedule).file.key
  {
    InvariantAlong(w, schedule);
    FileIsStable(w, schedule);
  }

  /** Every key about to be published was chosen by an event of the schedule. */
  predicate Chosen(w: World, initial: Slot, schedule: seq<Event>) {
    && (forall p :: 0 <= p < |w.phases| && w.phases[p].Publishing? ==> exists n :: 0 <= n < |schedule| && schedule[n].chosen == w.phases[p].key)
    && (w.file == initial || (w.file.Holds? && exists n :: 0 <= n < |schedule| && schedule[n].chosen == w.file.key))
  }

  lemma {:induction false} InvariantAlong(w: World, schedule: seq<Event>)
    requires forall p :: 0 <= p < |w.phases| ==> w.phases[p] == Reading
    ensures var now := Run(w, schedule); Agreed(now) && |now.phases| == |w.phases| && Chosen(now, w.file, schedule)
  {
    if schedule != [] {
      var init := schedule[..|schedule| - 1];
      InvariantAlong(w, init);
      assert forall n :: 0 <= n < |init| ==> init[n] == schedule[n];
      var before := Run(w, init);
      var e := schedule[|schedule| - 1];
      var now := Next(before, e);
      forall p | 0 <= p < |now.phases| && now.phases[p].Publishing? ensures exists n :: 0 <= n < |schedule| && schedule[n].chosen == now.phases[p].key {
        if now.phases[p] != before.phases[p] {
          assert schedule[|schedule| - 1].chosen == now.phases[p].key;
        }
      }
    }
  }

  lemma {:induction false} FileIsStable(w: World, schedule: seq<Event>)
    ensures forall n :: 0 <= n <= |schedule| && Run(w, schedule[..n]).file != Nothing ==> Run(w, schedule).file == Run(w, schedule[..n]).file
  {
    if schedule == [] {
      assert schedule[..0] == schedule;
    } else {
      var init := schedule[..|schedule| - 1];
      FileIsStable(w, init);
      forall n | 0 <= n <= |schedule| && Run(w, schedule[..n]).file != Nothing ensures Run(w, schedule).file == Run(w, schedule[..n]).file {
        if n < |schedule| {
          assert init[..n] == schedule[..n];
        } else {
          assert schedule[..n] == schedule;
        }
      }
    }
  }

  function StepsOf(who: nat, schedule: seq<Event>): nat {
    if schedule == [] then 0
    else StepsOf(who, schedule[..|schedule| - 1]) + (if schedule[|schedule| - 1].who == who then 1 else 0)
  }

  function Rank(p: Phase): nat {
    match p
    case Reading => 0
    case Publishing(_) => 1
    case LostRace => 2
    case _ => 3
  }

  /** Three steps of its own, among any number of others', are enough: with no I/O failure and no garbled file every process finishes. */
  lemma {:induction false} ThreeStepsFinish(w: World, schedule: seq<Event>, who: nat)
    requires forall p :: 0 <= p < |w.phases| ==> w.phases[p] == Reading
    requires who < |w.phases| && !w.file.Garbled? && forall n :: 0 <= n < |schedule| ==> !schedule[n].fails
    ensures var now := Run(w, schedule);
            && !now.file.Garbled? && |now.phases| == |w.phases| && now.phases[who] != GaveUp
            && Rank(now.phases[who]) >= (if StepsOf(who, schedule) < 3 then StepsOf(who, schedule) else 3)
    ensures StepsOf(who, schedule) >= 3 ==> Run(w, schedule).phases[who].Finished?
  {
    if schedule != [] {
      var init := schedule[..|schedule| - 1];
      InvariantAlong(w, init);
      ThreeStepsFinish(w, init, who);
    }
  }
}
