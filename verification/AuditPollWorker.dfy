/** `createAuditPollWorker` as the object it is.  Each method is one stretch of
    code between awaits and is proved to be a step of the `AuditPoll` machine. */
module AuditPollWorker {
  import opened Prelude
  import A = AuditPoll

  class Worker {
    const intervalMs: int
    var watermarkMs: Option<int>
    var timer: bool
    var inFlight: bool
    var table: seq<A.Row>     // routing_observations
    ghost var state: A.State  // what the object stands for

    ghost predicate Valid()
      reads this
    {
      && state.watermark == watermarkMs && state.timer == timer && state.inFlight == inFlight
      && table == A.Observations(state.mirrored)
    }

    constructor (intervalMs: int)
      ensures Valid() && this.intervalMs == intervalMs && state == A.Init()
    {
      this.intervalMs := intervalMs;
      watermarkMs, timer, inFlight, table := None, false, false, [];
      state := A.Init();
    }

    method Start()
      requires Valid()
      modifies this
      ensures Valid() && state == A.Step(old(state), intervalMs, A.Start)
      ensures timer == (old(timer) || intervalMs > 0)
      ensures inFlight == old(inFlight) && watermarkMs == old(watermarkMs) && table == old(table)
    {
      state := A.Step(state, intervalMs, A.Start);
      if timer { return; }
      if intervalMs <= 0 { return; }
      timer := true;
    }

    method Stop()
      requires Valid()
      modifies this
      ensures Valid() && state == A.Step(old(state), intervalMs, A.Stop)
      ensures !timer && inFlight == old(inFlight) && watermarkMs == old(watermarkMs) && table == old(table)
    {
      state := A.Step(state, intervalMs, A.Stop);
      if !timer { return; }
      timer := false;
    }

    /** `tick` up to its first await, for a timer firing and for `runOnce` alike;
        `ask` is the `since` of the request, or nothing when the guard held. */
    method Tick() returns (admitted: bool, ask: Option<int>)
      requires Valid()
      modifies this
      ensures Valid() && state == A.Step(old(state), intervalMs, A.RunOnce)
      ensures inFlight && watermarkMs == old(watermarkMs) && table == old(table)
      ensures admitted == !old(inFlight) && (admitted ==> ask == old(watermarkMs))
    {
      ask := None;
      admitted := !inFlight;
      state := A.Call(state);
      if !admitted { return; }
      inFlight := true;
      ask := watermarkMs;
    }

    /** Lines 60-67: the rows to insert and the newest timestamp among them. */
    method Collect(events: seq<A.LogEvent>) returns (rows: seq<A.Row>, maxAt: int)
      requires Valid()
      ensures rows == A.Observations(A.Kept(events))
      ensures maxAt == A.MaxAt(A.Floor(watermarkMs), events)
    {
      rows := [];
      maxAt := if watermarkMs.Some? then watermarkMs.value else -1;
      for i := 0 to |events|
        invariant rows == A.Observations(A.Kept(events[..i]))
        invariant maxAt == A.MaxAt(A.Floor(watermarkMs), events[..i])
      {
        var e := events[i];
        assert events[..i + 1][..i] == events[..i];
        if e.orchAddress.None? || e.orchAddress.value == "" { continue; }
        if e.occurredAt <= 0 { continue; }
        rows := rows + [A.EventToObservation(e)];
        if e.occurredAt > maxAt { maxAt := e.occurredAt; }
      }
      assert events[..|events|] == events;
    }

    /** The answer arrives.  A batch with nothing to mirror ends the tick here;
        otherwise the tick is suspended on its insert, which a failure leaves
        without a trace, and resumes later. */
    method OnAnswer(tick: nat, events: seq<A.LogEvent>, insertOk: bool) returns (maxAt: int)
      requires Valid() && A.Enabled(state, A.Answer(tick, events, insertOk))
      modifies this
      ensures Valid() && state == A.Step(old(state), intervalMs, A.Answer(tick, events, insertOk))
      ensures tick in state.active && state.active[tick].Inserted? ==> state.active[tick].maxAt == maxAt
      ensures A.Kept(events) == [] ==> !inFlight && table == old(table)
      ensures A.Kept(events) != [] ==> inFlight == old(inFlight) && watermarkMs == old(watermarkMs)
      ensures A.Kept(events) != [] ==>
                table == old(table) + (if insertOk then A.Observations(A.Kept(events)) else [])
    {
      var rows;
      rows, maxAt := Collect(events);
      ghost var before := state;
      state := A.Step(state, intervalMs, A.Answer(tick, events, insertOk));
      if |rows| > 0 {
        if !insertOk { return; }
        table := table + rows;
        assert table == A.Observations(before.mirrored + A.Kept(events));
        return;
      }
      if maxAt > (if watermarkMs.Some? then watermarkMs.value else -1) {
        watermarkMs := Some(maxAt + 1);
      }
      inFlight := false;
    }

    method OnRefused(tick: nat)
      requires Valid() && A.Enabled(state, A.Refuse(tick))
      modifies this
      ensures Valid() && state == A.Step(old(state), intervalMs, A.Refuse(tick))
      ensures !inFlight && table == old(table) && watermarkMs == old(watermarkMs)
    {
      state := A.Step(state, intervalMs, A.Refuse(tick));
      inFlight := false;
    }

    /** The tick resumes after its insert. */
    method OnResume(tick: nat, maxAt: int)
      requires Valid() && A.Enabled(state, A.Resume(tick))
      requires state.active[tick].Inserted? && state.active[tick].maxAt == maxAt
      modifies this
      ensures Valid() && state == A.Step(old(state), intervalMs, A.Resume(tick))
      ensures !inFlight && table == old(table)
      ensures watermarkMs == if maxAt > (if old(watermarkMs).Some? then old(watermarkMs).value else -1)
                             then Some(maxAt + 1) else old(watermarkMs)
    {
      state := A.Step(state, intervalMs, A.Resume(tick));
      if maxAt > (if watermarkMs.Some? then watermarkMs.value else -1) {
        watermarkMs := Some(maxAt + 1);
      }
      inFlight := false;
    }

    /** The tick resumes after its insert threw: the error is logged and thrown on. */
    method OnInsertFailed(tick: nat)
      requires Valid() && A.Enabled(state, A.Resume(tick)) && state.active[tick].InsertFailed?
      modifies this
      ensures Valid() && state == A.Step(old(state), intervalMs, A.Resume(tick))
      ensures table == old(table) && watermarkMs == old(watermarkMs) && !inFlight
    {
      state := A.Step(state, intervalMs, A.Resume(tick));
      inFlight := false;
    }
  }
}
