/** The loop of one generation worker: it streams the model's answer into its run, and ends the run once. */
module Generations {
  import opened Wrappers
  import opened RoomEvents
  import opened RoomGuests
  import opened RoomSessions
  import opened RoomSteadiness
  import opened RoomStores

  /** What the model stream yields; it may also just end. */
  datatype StreamItem =
    | TextDelta(requestId: string, delta: string)
    | StreamCompleted(requestId: string)
    | StreamFailed(requestId: string)
    | StreamBroken(code: string)

  /** What the worker knows of the ending: canceled by its user, ended in the store, or the store did not say so. */
  datatype Outcome = WasCanceled | EndedAs(status: RunStatus) | NotEnded

  function DeltaEvents(run: string, deltas: seq<string>): seq<Event> {
    seq(|deltas|, i requires 0 <= i < |deltas| => DeltaAppended(run, deltas[i]))
  }

  /** The texts of the deltas, empty ones left out. */
  function Texts(items: seq<StreamItem>): seq<string> {
    if items == [] then []
    else
      var before := Texts(items[..|items| - 1]);
      var last := items[|items| - 1];
      if last.TextDelta? && last.delta != "" then before + [last.delta] else before
  }

  function Join(texts: seq<string>): string {
    if texts == [] then "" else Join(texts[..|texts| - 1]) + texts[|texts| - 1]
  }

  /** Deltas of this request only. */
  predicate OnlyDeltas(items: seq<StreamItem>, requestId: string) {
    forall i :: 0 <= i < |items| ==> items[i].TextDelta? && items[i].requestId == requestId
  }

  /** The worker's log: the stored deltas, in order, then at most one ending of its run. */
  ghost predicate Logged(before: seq<Event>, after: seq<Event>, run: string, stored: seq<string>, ending: Option<RunStatus>) {
    match ending
    case Some(status) =>
      && |after| == |before| + |stored| + 1 && after[..|after| - 1] == before + DeltaEvents(run, stored)
      && after[|after| - 1].RunFinished? && after[|after| - 1].run == run && after[|after| - 1].status == status
    case None => after == before + DeltaEvents(run, stored)
  }

  /** The run has ended if the log says so. */
  ghost predicate EndedIn(d: Db, run: string, ending: Option<RunStatus>) {
    ending.Some? ==> !(run in d.runs && Active(d.runs[run]))
  }

  // ── What becomes of a stream ───────────────────────────────────────────────

  /** The item at which a worker that nobody cancels fails the run, and the code it gives: another request's, a failure, or a delta the store rejects. */
  function FailureCode(item: StreamItem, requestId: string): Option<string> {
    match item
    case TextDelta(id, _) => if id != requestId then Some("modelProtocol") else None
    case StreamCompleted(id) => if id != requestId then Some("modelProtocol") else None
    case StreamFailed(id) => if id != requestId then Some("modelProtocol") else Some("modelFailed")
    case StreamBroken(code) => Some(code)
  }

  /** The store takes each of these texts, one after the other, after `partial`. */
  predicate Accepted(partial: string, texts: seq<string>) {
    (forall i :: 0 <= i < |texts| ==> ValidDelta(texts[i])) && |partial + Join(texts)| <= 32000
  }

  /** Nothing stands in the way: the store works and can write, the run is running in the room, its answer's id is new, nobody cancels. */
  ghost predicate Unhindered(store: RoomStore, room: string, run: string, message: string, canceled: nat -> bool)
    reads store
  {
    store.Reliable() && store.writable && Streaming(store.db, room, run) && message !in store.db.messages && forall k :: !canceled(k)
  }

  /** The first `n` items are deltas of this request that the store takes. */
  predicate StreamsWell(partial: string, items: seq<StreamItem>, requestId: string, n: nat) {
    n <= |items| && OnlyDeltas(items[..n], requestId) && Accepted(partial, Texts(items[..n]))
  }

  datatype Fate = Completes | FailsWith(code: string)

  /** The stream goes well up to item `n`, and there completes or fails. */
  predicate FateAt(partial: string, items: seq<StreamItem>, requestId: string, n: nat, fate: Fate) {
    StreamsWell(partial, items, requestId, n) &&
    if n == |items| then fate == FailsWith("modelStreamEnded")
    else if items[n] == StreamCompleted(requestId) then fate == Completes
    else if FailureCode(items[n], requestId).Some? then fate == FailsWith(FailureCode(items[n], requestId).value)
    else !StreamsWell(partial, items, requestId, n + 1) && fate == FailsWith("outputRejected")
  }

  lemma {:induction false} WellBefore(partial: string, items: seq<StreamItem>, requestId: string, m: nat, n: nat)
    requires StreamsWell(partial, items, requestId, n) && m <= n
    ensures StreamsWell(partial, items, requestId, m)
    ensures m < n ==> items[m].TextDelta? && items[m].requestId == requestId && StreamsWell(partial, items, requestId, m + 1)
    decreases n - m
  {
    if m < n {
      var k := n - 1;
      assert items[..n] == items[..k] + [items[k]];
      MoreTexts(items[..k], items[k]);
      var before := Texts(items[..k]);
      if items[k].delta != "" {
        JoinMore(before, items[k].delta);
        assert forall i :: 0 <= i < |before| ==> before[i] == Texts(items[..n])[i];
      }
      assert forall i :: 0 <= i < k ==> items[..k][i] == items[..n][i];
      assert items[..n][k] == items[k];
      WellBefore(partial, items, requestId, m, k);
    }
  }

  /** Every stream has exactly one fate. */
  lemma OneFate(partial: string, items: seq<StreamItem>, requestId: string, n: nat, fate: Fate)
    requires FateAt(partial, items, requestId, n, fate)
    ensures forall m: nat, other :: FateAt(partial, items, requestId, m, other) ==> m == n && other == fate
  {
    hide Accepted, Texts;
    forall m: nat, other | FateAt(partial, items, requestId, m, other) ensures m == n && other == fate {
      if m < n {
        WellBefore(partial, items, requestId, m, n);
      } else if n < m {
        WellBefore(partial, items, requestId, n, m);
      }
    }
  }

  lemma SomeFate(partial: string, items: seq<StreamItem>, requestId: string) returns (n: nat, fate: Fate)
    requires |partial| <= 32000
    ensures FateAt(partial, items, requestId, n, fate)
  {
    hide Accepted, Texts;
    n := 0;
    NothingStreamed(partial, items, requestId);
    while n < |items| && items[n].TextDelta? && items[n].requestId == requestId && StreamsWell(partial, items, requestId, n + 1)
      invariant StreamsWell(partial, items, requestId, n)
    {
      n := n + 1;
    }
    fate := if n == |items| then FailsWith("modelStreamEnded")
      else if items[n] == StreamCompleted(requestId) then Completes
      else if FailureCode(items[n], requestId).Some? then FailsWith(FailureCode(items[n], requestId).value)
      else FailsWith("outputRejected");
  }

  lemma NothingStreamed(partial: string, items: seq<StreamItem>, requestId: string)
    requires |partial| <= 32000
    ensures StreamsWell(partial, items, requestId, 0)
  {
    assert partial + "" == partial;
  }

  /** The last entry of a log says how the run failed. */
  ghost predicate FailedWith(log: seq<Event>, run: string, code: string) {
    log != [] && log[|log| - 1].RunFinished? && log[|log| - 1].run == run && log[|log| - 1].status == Failed && log[|log| - 1].errorCode == Some(code)
  }

  lemma {:induction false} JoinMore(texts: seq<string>, text: string)
    ensures Join(texts + [text]) == Join(texts) + text
  {
    assert (texts + [text])[..|texts|] == texts;
  }

  /** One more delta: the store takes it exactly if the stream still goes well. */
  lemma StreamsOn(partial: string, items: seq<StreamItem>, requestId: string, n: nat)
    requires n < |items| && StreamsWell(partial, items, requestId, n) && items[n].TextDelta? && items[n].requestId == requestId
    ensures StreamsWell(partial, items, requestId, n + 1)
       <==> items[n].delta == "" || (ValidDelta(items[n].delta) && |partial + Join(Texts(items[..n]))| + |items[n].delta| <= 32000)
  {
    var before := Texts(items[..n]);
    assert items[..n + 1] == items[..n] + [items[n]];
    MoreTexts(items[..n], items[n]);
    if items[n].delta != "" {
      var after := before + [items[n].delta];
      JoinMore(before, items[n].delta);
      assert partial + Join(after) == (partial + Join(before)) + items[n].delta;
      assert forall i :: 0 <= i < |before| ==> after[i] == before[i];
      assert after[|before|] == items[n].delta;
    }
  }

  lemma OneMoreDelta(before: seq<Event>, run: string, accepted: seq<string>, delta: string)
    ensures before + DeltaEvents(run, accepted + [delta]) == before + DeltaEvents(run, accepted) + [DeltaAppended(run, delta)]
    ensures Join(accepted + [delta]) == Join(accepted) + delta
  {
    assert (accepted + [delta])[..|accepted|] == accepted;
  }

  lemma EndsLog(before: seq<Event>, after: seq<Event>, run: string, stored: seq<string>, e: Event)
    requires Logged(before, after, run, stored, None) && e.RunFinished? && e.run == run
    ensures Logged(before, after + [e], run, stored, Some(e.status))
  {
    assert (after + [e])[..|after + [e]| - 1] == after;
  }

  /** End the run as failed; a run already ended stays as it is. */
  method FailGeneration(store: RoomStore, room: string, run: string, code: string, message: string, now: nat,
                        ghost before: seq<Event>, ghost stored: seq<string>, ghost soFar: Option<RunStatus>)
    returns (outcome: Outcome, ghost ending: Option<RunStatus>)
    requires store.Valid() && now >= store.db.clock && Logged(before, store.log, run, stored, soFar) && EndedIn(store.db, run, soFar)
    modifies store`db, store`log, store`calls
    ensures store.Valid() && Logged(before, store.log, run, stored, ending)
    ensures if soFar.Some? then ending == soFar else ending in {None, Some(Failed)}
    ensures outcome == NotEnded || (outcome == EndedAs(Failed) && ending == Some(Failed))
    ensures soFar.None? && ending == Some(Failed) ==> FailedWith(store.log, run, code)
    ensures soFar.None? && store.Reliable() && store.writable && old(Streaming(store.db, room, run)) && old(message !in store.db.messages) ==>
      outcome == EndedAs(Failed) && ending == Some(Failed)
  {
    hide Healthy, Possible, After, Steady, Settled, DeltaEvents, Logged;
    ghost var e := RunFinished(run, message, Failed, Some(code), Some("the local model could not complete this turn"), now);
    if soFar.None? {
      EndsLog(before, store.log, run, stored, e);
    }
    ghost var was := store.log;
    var ended := store.FinishRun(room, run, RunTerminal(Failed, Some(code), Some("the local model could not complete this turn")), message, now);
    ending := if store.log == was then soFar else Some(Failed);
    outcome := if ended == Ok(true) then EndedAs(Failed) else NotEnded;
  }

  /** The worker can go on: the store works, the run is running with what was streamed so far, its answer's id is new. */
  ghost predicate Going(store: RoomStore, room: string, run: string, message: string, partial: string)
    reads store
  {
    && store.Reliable() && store.writable && Streaming(store.db, room, run) && message !in store.db.messages
    && store.db.runs[run].partial == partial
  }

  /** Store one delta. It may be stored although the store answers an error. */
  method StoreDelta(store: RoomStore, room: string, run: string, message: string, delta: string, ghost before: seq<Event>, ghost already: seq<string>, ghost partial: string)
    returns (ok: bool, ghost stored: seq<string>)
    requires store.Valid() && Logged(before, store.log, run, already, None)
    modifies store`db, store`log, store`calls
    ensures store.Valid() && store.db.clock == old(store.db).clock && Logged(before, store.log, run, stored, None)
    ensures stored == already + [delta] || (!ok && stored == already)
    ensures old(Going(store, room, run, message, partial)) ==> (ok <==> ValidDelta(delta) && |partial| + |delta| <= 32000)
    ensures old(Going(store, room, run, message, partial)) ==> if ok then Going(store, room, run, message, partial + delta)
      else stored == already && Going(store, room, run, message, partial)
  {
    hide Healthy, Possible, After, Steady, Settled, DeltaEvents, Logged;
    ghost var was := store.log;
    var appended := store.AppendDelta(room, run, delta);
    stored := already;
    if store.log != was {
      OneMoreLogged(before, was, run, already, delta);
      stored := already + [delta];
    }
    ok := appended.Ok?;
  }

  /** End the run as completed; if the store errs, as failed, unless it has ended all the same. */
  method CompleteGeneration(store: RoomStore, room: string, run: string, message: string, now: nat, ghost before: seq<Event>, ghost stored: seq<string>)
    returns (outcome: Outcome, ghost ending: Option<RunStatus>)
    requires store.Valid() && now >= store.db.clock && Logged(before, store.log, run, stored, None)
    modifies store`db, store`log, store`calls
    ensures store.Valid() && Logged(before, store.log, run, stored, ending)
    ensures ending in {None, Some(Completed), Some(Failed)} && outcome != WasCanceled && (outcome.EndedAs? ==> ending == Some(outcome.status))
    ensures forall partial :: old(Going(store, room, run, message, partial)) ==> outcome == EndedAs(Completed) && ending == Some(Completed)
  {
    hide Healthy, Possible, After, Steady, Settled, DeltaEvents, Logged;
    EndsLog(before, store.log, run, stored, RunFinished(run, message, Completed, None, None, now));
    ghost var was := store.log;
    var ended := store.FinishRun(room, run, RunTerminal(Completed, None, None), message, now);
    ending := if store.log == was then None else Some(Completed);
    outcome := if ended == Ok(true) then EndedAs(Completed) else NotEnded;
    if ended.Err? {
      outcome, ending := FailGeneration(store, room, run, "storeUnavailable", message, now, before, stored, ending);
    }
  }

  /**
    Stream a generation into its run. A user may cancel at any moment: `canceled`
    answers each look at the cancel channel. Whatever the stream and the store do, the
    worker commits the deltas it was given, in order, and ends its run at most
    once; it completes the run only when the stream held nothing but deltas of
    its own request up to a matching completion, and all of them were stored. The
    store may answer an error although it stored the last delta, or ended the run.
    And if nothing hinders it, it does what the stream's fate asks.
   */
  method RunGeneration(store: RoomStore, room: string, run: string, requestId: string, items: seq<StreamItem>, canceled: nat -> bool, message: string, now: nat)
    returns (outcome: Outcome, ghost stored: seq<string>, ghost ending: Option<RunStatus>)
    requires store.Valid() && now >= store.db.clock
    modifies store`db, store`log, store`calls
    ensures store.Valid() && Logged(old(store.log), store.log, run, stored, ending)
    ensures exists n :: 0 <= n <= |items| && OnlyDeltas(items[..n], requestId) && stored == Texts(items[..n])
    ensures ending == Some(Completed) ==>
      exists n :: 0 <= n < |items| && OnlyDeltas(items[..n], requestId) && items[n] == StreamCompleted(requestId) && stored == Texts(items[..n])
    ensures ending in {None, Some(Completed), Some(Failed)}
    ensures outcome.EndedAs? ==> ending == Some(outcome.status)
    ensures outcome == WasCanceled ==> exists k :: canceled(k)
    ensures old(Unhindered(store, room, run, message, canceled)) ==>
      Fulfilled(old(store.db).runs[run].partial, items, requestId, run, outcome, stored, ending, store.log)
  {
    hide Healthy, Possible, After, Steady, Settled, DeltaEvents, Texts, Logged, Accepted, StreamsWell, FateAt, TheFate, Fulfilled, FailedWith, Going;
    ghost var free, start := Unhindered(store, room, run, message, canceled), if run in store.db.runs then store.db.runs[run].partial else "";
    if free {
      StartsWell(store, room, run, message, items, requestId);
    }
    var partial := "";
    stored, ending := [], None;
    assert items[..0] == [];
    NoTexts(store.log, run);
    ghost var before := store.log;
    var looks := 0;
    for n := 0 to |items|
      invariant store.Valid() && store.db.clock <= now && Logged(before, store.log, run, stored, None) && ending.None?
      invariant OnlyDeltas(items[..n], requestId) && stored == Texts(items[..n]) && partial == Join(stored)
      invariant free ==> Going(store, room, run, message, start + partial) && StreamsWell(start, items, requestId, n)
    {
      assert items[..n + 1] == items[..n] + [items[n]] && items[..n + 1][..n] == items[..n];
      if free {
        FateHere(start, items, requestId, n);
      }
      var stopped := canceled(looks);
      looks := looks + 1;
      if stopped {
        return WasCanceled, stored, None;
      }
      match items[n] {
        case TextDelta(id, delta) =>
          if id != requestId {
            outcome, ending := FailHere(store, room, run, "modelProtocol", message, now, before, stored, free, start, items, requestId, n);
            return;
          }
          MoreTexts(items[..n], items[n]);
          if delta != "" {
            var ok: bool;
            ghost var already := stored;
            ok, stored := StoreDelta(store, room, run, message, delta, before, stored, start + partial);
            assert start + (partial + delta) == start + partial + delta;
            partial := partial + delta;
            if !ok {
              assert stored == Texts(items[..n]) || stored == Texts(items[..n + 1]);
              outcome := WasCanceled;
              if !canceled(looks) {
                outcome, ending := FailHere(store, room, run, "outputRejected", message, now, before, stored, free, start, items, requestId, n);
              }
              return;
            }
            JoinMore(already, delta);
          }
        case StreamCompleted(id) =>
          if id != requestId {
            outcome, ending := FailHere(store, room, run, "modelProtocol", message, now, before, stored, free, start, items, requestId, n);
            return;
          }
          if canceled(looks) {
            return WasCanceled, stored, None;
          }
          outcome, ending := CompleteGeneration(store, room, run, message, now, before, stored);
          if free {
            Fulfils(start, items, requestId, run, n, Completes, stored, store.log);
          }
          return;
        case StreamFailed(id) =>
          outcome := WasCanceled;
          if id != requestId {
            outcome, ending := FailHere(store, room, run, "modelProtocol", message, now, before, stored, free, start, items, requestId, n);
          } else if !canceled(looks) {
            outcome, ending := FailHere(store, room, run, "modelFailed", message, now, before, stored, free, start, items, requestId, n);
          }
          return;
        case StreamBroken(code) =>
          outcome := WasCanceled;
          if !canceled(looks) {
            outcome, ending := FailHere(store, room, run, code, message, now, before, stored, free, start, items, requestId, n);
          }
          return;
      }
    }
    assert items[..|items|] == items;
    if free {
      FateHere(start, items, requestId, |items|);
    }
    outcome, ending := FailHere(store, room, run, "modelStreamEnded", message, now, before, stored, free, start, items, requestId, |items|);
  }

  /** Fail the run at item `n`. If nothing hinders it and that is the stream's fate, it is fulfilled. */
  method FailHere(store: RoomStore, room: string, run: string, code: string, message: string, now: nat, ghost before: seq<Event>, ghost stored: seq<string>,
                  ghost free: bool, ghost start: string, ghost items: seq<StreamItem>, ghost requestId: string, ghost n: nat)
    returns (outcome: Outcome, ghost ending: Option<RunStatus>)
    requires store.Valid() && now >= store.db.clock && Logged(before, store.log, run, stored, None) && n <= |items|
    requires free ==> stored == Texts(items[..n]) && TheFate(start, items, requestId, n, FailsWith(code)) && exists partial :: Going(store, room, run, message, partial)
    modifies store`db, store`log, store`calls
    ensures store.Valid() && Logged(before, store.log, run, stored, ending) && ending in {None, Some(Failed)}
    ensures outcome == NotEnded || (outcome == EndedAs(Failed) && ending == Some(Failed))
    ensures free ==> Fulfilled(start, items, requestId, run, outcome, stored, ending, store.log)
  {
    hide Healthy, Possible, After, Steady, Settled, DeltaEvents, Logged, Texts, TheFate, Fulfilled, FailedWith;
    outcome, ending := FailGeneration(store, room, run, code, message, now, before, stored, None);
    if free {
      Fulfils(start, items, requestId, run, n, FailsWith(code), stored, store.log);
    }
  }

  lemma StartsWell(store: RoomStore, room: string, run: string, message: string, items: seq<StreamItem>, requestId: string)
    requires store.Valid() && store.Reliable() && store.writable && Streaming(store.db, room, run) && message !in store.db.messages
    ensures var partial := store.db.runs[run].partial;
      Going(store, room, run, message, partial + "") && StreamsWell(partial, items, requestId, 0)
  {
    hide Healthy, Possible, After, SessionsOk, StreamsWell;
    store.Sound();
    assert store.db.runs[run].partial + "" == store.db.runs[run].partial;
    NothingStreamed(store.db.runs[run].partial, items, requestId);
  }

  /** The worker did what the stream's fate asks: the deltas before it are stored, and the run is completed or failed for that reason. */
  ghost predicate Fulfilled(partial: string, items: seq<StreamItem>, requestId: string, run: string, outcome: Outcome, stored: seq<string>, ending: Option<RunStatus>, log: seq<Event>) {
    forall n: nat, fate :: FateAt(partial, items, requestId, n, fate) ==>
      stored == Texts(items[..n]) &&
      match fate
      case Completes => outcome == EndedAs(Completed) && ending == Some(Completed)
      case FailsWith(code) => outcome == EndedAs(Failed) && ending == Some(Failed) && FailedWith(log, run, code)
  }

  lemma Fulfils(partial: string, items: seq<StreamItem>, requestId: string, run: string, n: nat, fate: Fate, stored: seq<string>, log: seq<Event>)
    requires n <= |items| && TheFate(partial, items, requestId, n, fate) && stored == Texts(items[..n])
    ensures fate == Completes ==> Fulfilled(partial, items, requestId, run, EndedAs(Completed), stored, Some(Completed), log)
    ensures fate.FailsWith? && FailedWith(log, run, fate.code) ==> Fulfilled(partial, items, requestId, run, EndedAs(Failed), stored, Some(Failed), log)
  {
    hide FateAt, FailedWith, Texts;
  }

  /** What the item to come says of the stream's fate. */
  lemma FateHere(partial: string, items: seq<StreamItem>, requestId: string, n: nat)
    requires StreamsWell(partial, items, requestId, n)
    ensures n == |items| ==> TheFate(partial, items, requestId, n, FailsWith("modelStreamEnded"))
    ensures n < |items| && items[n] == StreamCompleted(requestId) ==> TheFate(partial, items, requestId, n, Completes)
    ensures n < |items| && FailureCode(items[n], requestId).Some? ==>
      TheFate(partial, items, requestId, n, FailsWith(FailureCode(items[n], requestId).value))
    ensures n < |items| && items[n].TextDelta? && items[n].requestId == requestId ==>
      if items[n].delta == "" || (ValidDelta(items[n].delta) && |partial + Join(Texts(items[..n]))| + |items[n].delta| <= 32000)
      then StreamsWell(partial, items, requestId, n + 1) else TheFate(partial, items, requestId, n, FailsWith("outputRejected"))
  {
    hide StreamsWell;
    if n < |items| && items[n].TextDelta? && items[n].requestId == requestId {
      StreamsOn(partial, items, requestId, n);
    }
    forall fate | FateAt(partial, items, requestId, n, fate) ensures TheFate(partial, items, requestId, n, fate) {
      OneFate(partial, items, requestId, n, fate);
    }
  }

  /** The stream has this fate there, and no other anywhere. */
  ghost predicate TheFate(partial: string, items: seq<StreamItem>, requestId: string, n: nat, fate: Fate) {
    forall m: nat, other :: FateAt(partial, items, requestId, m, other) ==> m == n && other == fate
  }

  lemma OneMoreLogged(before: seq<Event>, after: seq<Event>, run: string, stored: seq<string>, delta: string)
    requires Logged(before, after, run, stored, None)
    ensures Logged(before, after + [DeltaAppended(run, delta)], run, stored + [delta], None)
    ensures Join(stored + [delta]) == Join(stored) + delta
  {
    OneMoreDelta(before, run, stored, delta);
  }

  lemma NoTexts(before: seq<Event>, run: string)
    ensures Texts([]) == [] && DeltaEvents(run, []) == [] && Logged(before, before, run, [], None)
  {
  }

  lemma MoreTexts(items: seq<StreamItem>, item: StreamItem)
    ensures Texts(items + [item]) == if item.TextDelta? && item.delta != "" then Texts(items) + [item.delta] else Texts(items)
  {
    assert (items + [item])[..|items|] == items;
  }
}
