/** The audit-poll worker: a step machine whose activations of `tick` interleave
    at their awaits, and the serial ticks it is proved equivalent to. */
module AuditPoll {
  import opened Prelude

  /** An entry of the resolver's audit log.  `serial` tells apart entries that are
      equal in everything the worker can see. */
  datatype LogEvent = LogEvent(
    serial: nat, occurredAt: int, orchAddress: Option<string>, kind: string, mode: string, detail: string)

  datatype Details = Details(kind: string, mode: string, detail: string)

  /** A row of `routing_observations`; the columns the worker leaves null are
      omitted, and a row's id is its position in the table. */
  datatype Row = Row(observedAt: int, orchAddress: string, details: Details)

  function EventToObservation(e: LogEvent): Row {
    Row(e.occurredAt, ToLower(if e.orchAddress.Some? then e.orchAddress.value else ""),
        Details(e.kind, e.mode, e.detail))
  }

  function Observations(es: seq<LogEvent>): seq<Row> {
    seq(|es|, i requires 0 <= i < |es| => EventToObservation(es[i]))
  }

  /** Orch-bearing and dated: the events a tick mirrors. */
  predicate Mirrorable(e: LogEvent) {
    e.orchAddress.Some? && e.orchAddress.value != "" && e.occurredAt > 0
  }

  function Kept(es: seq<LogEvent>): seq<LogEvent> {
    if es == [] then []
    else Kept(es[..|es| - 1]) + if Mirrorable(es[|es| - 1]) then [es[|es| - 1]] else []
  }

  function MaxAt(floor: int, es: seq<LogEvent>): int {
    if es == [] then floor
    else var m := MaxAt(floor, es[..|es| - 1]);
         if Mirrorable(es[|es| - 1]) && es[|es| - 1].occurredAt > m then es[|es| - 1].occurredAt else m
  }

  /** `watermarkMs ?? -1`. */
  function Floor(w: Option<int>): int {
    if w.Some? then w.value else -1
  }

  /** Lines 72-74: a newer event moves the watermark just past itself. */
  function Advanced(w: Option<int>, maxAt: int): Option<int> {
    if maxAt > Floor(w) then Some(maxAt + 1) else w
  }

  // ------------------------------------------------------------- serial ticks

  /** How one tick ended: with an answer that was mirrored, or with an error. */
  datatype Outcome = Completed(batch: seq<LogEvent>) | Aborted

  datatype Ended = Ended(tick: nat, since: Option<int>, outcome: Outcome)

  datatype Mirror = Mirror(watermark: Option<int>, mirrored: seq<LogEvent>)

  function SerialTick(m: Mirror, o: Outcome): Mirror {
    match o
    case Aborted => m
    case Completed(batch) =>
      Mirror(Advanced(m.watermark, MaxAt(Floor(m.watermark), batch)), m.mirrored + Kept(batch))
  }

  /** Running whole ticks one after another from a fresh process. */
  function Serial(h: seq<Ended>): Mirror {
    if h == [] then Mirror(None, []) else SerialTick(Serial(h[..|h| - 1]), h[|h| - 1].outcome)
  }

  // ------------------------------------------------------- interleaved machine

  /** Where an activation of `tick` that got past the guard is suspended: waiting
      for the log, or on the insert, which has already happened or failed. */
  datatype Phase =
    | Asking(since: Option<int>)
    | Inserted(since: Option<int>, batch: seq<LogEvent>, maxAt: int)
    | InsertFailed(since: Option<int>)

  /** `watermark`, `inFlight` and `timer` are the worker's variables, `mirrored`
      the events behind the table's rows, `calls` the number of `tick` calls so
      far; `admitted` and `history` only record what happened. */
  datatype State = State(
    watermark: Option<int>, inFlight: bool, timer: bool, mirrored: seq<LogEvent>,
    active: map<nat, Phase>, calls: nat, admitted: seq<nat>, history: seq<Ended>)

  datatype Event =
    | Start
    | Stop
    | Fire
    | RunOnce
    | Answer(tick: nat, batch: seq<LogEvent>, insertOk: bool)
    | Refuse(tick: nat)
    | Resume(tick: nat)

  function Init(): State {
    State(None, false, false, [], map[], 0, [], [])
  }

  predicate Enabled(s: State, e: Event) {
    match e
    case Fire => s.timer
    case Answer(t, _, _) => t in s.active && s.active[t].Asking?
    case Refuse(t) => t in s.active && s.active[t].Asking?
    case Resume(t) => t in s.active && !s.active[t].Asking?
    case _ => true
  }

  /** A call of `tick` up to its first await. */
  function Call(s: State): State {
    if s.inFlight then s.(calls := s.calls + 1)
    else s.(inFlight := true, active := s.active[s.calls := Asking(s.watermark)],
            admitted := s.admitted + [s.calls], calls := s.calls + 1)
  }

  /** The `finally` block, with the outcome noted. */
  function End(s: State, tick: nat, o: Outcome): State
    requires tick in s.active
  {
    s.(inFlight := false, active := s.active - {tick},
       history := s.history + [Ended(tick, s.active[tick].since, o)])
  }

  function Step(s: State, interval: int, e: Event): State
    requires Enabled(s, e)
  {
    match e
    case Start => if s.timer || interval <= 0 then s else s.(timer := true)
    case Stop => s.(timer := false)
    case Fire => Call(s)
    case RunOnce => Call(s)
    case Refuse(t) => End(s, t, Aborted)
    case Answer(t, batch, insertOk) =>
      var maxAt := MaxAt(Floor(s.watermark), batch);
      if Kept(batch) == [] then End(s.(watermark := Advanced(s.watermark, maxAt)), t, Completed(batch))
      else if !insertOk then s.(active := s.active[t := InsertFailed(s.active[t].since)])
      else s.(mirrored := s.mirrored + Kept(batch),
              active := s.active[t := Inserted(s.active[t].since, batch, maxAt)])
    case Resume(t) =>
      match s.active[t]
      case Inserted(_, batch, maxAt) =>
        End(s.(watermark := Advanced(s.watermark, maxAt)), t, Completed(batch))
      case InsertFailed(_) => End(s, t, Aborted)
  }

  predicate Runs(s: State, interval: int, es: seq<Event>)
    decreases |es|
  {
    es == [] || (Enabled(s, es[0]) && Runs(Step(s, interval, es[0]), interval, es[1..]))
  }

  function Run(s: State, interval: int, es: seq<Event>): State
    requires Runs(s, interval, es)
    decreases |es|
  {
    if es == [] then s else Run(Step(s, interval, es[0]), interval, es[1..])
  }

  // ------------------------------------------------------- serial equivalence

  /** The rows of a suspended tick that are already in the table. */
  function Ahead(p: Phase): seq<LogEvent> {
    if p.Inserted? then Kept(p.batch) else []
  }

  function Ticks(h: seq<Ended>): seq<nat> {
    seq(|h|, i requires 0 <= i < |h| => h[i].tick)
  }

  /** Every ended tick asked from the watermark that the ticks before it left. */
  ghost predicate AsksFromWatermark(h: seq<Ended>) {
    forall k :: 0 <= k < |h| ==> h[k].since == Serial(h[..k]).watermark
  }

  /** At most one tick is past the guard, and the shared state is that of the ended
      ticks run one after another, plus the rows the suspended tick inserted. */
  ghost predicate SerialSoFar(s: State) {
    && s.watermark == Serial(s.history).watermark
    && AsksFromWatermark(s.history)
    && (s.inFlight <==> s.active != map[])
    && (s.active == map[] ==> s.mirrored == Serial(s.history).mirrored && s.admitted == Ticks(s.history))
    && (forall t :: t in s.active ==>
          && s.active.Keys == {t} && t < s.calls
          && s.admitted == Ticks(s.history) + [t]
          && s.active[t].since == s.watermark
          && s.mirrored == Serial(s.history).mirrored + Ahead(s.active[t])
          && (s.active[t].Inserted? ==> s.active[t].maxAt == MaxAt(Floor(s.watermark), s.active[t].batch)))
  }

  lemma SerialSnoc(h: seq<Ended>, e: Ended)
    ensures Serial(h + [e]) == SerialTick(Serial(h), e.outcome)
    ensures Ticks(h + [e]) == Ticks(h) + [e.tick]
    ensures AsksFromWatermark(h) && e.since == Serial(h).watermark ==> AsksFromWatermark(h + [e])
  {
    assert (h + [e])[..|h|] == h;
    forall k | 0 <= k < |h + [e]|
      ensures (h + [e])[..k] == if k < |h| then h[..k] else h
    {
    }
  }

  lemma EndKeepsSerial(s: State, t: nat, o: Outcome, w: Option<int>)
    requires SerialSoFar(s) && t in s.active
    requires s.mirrored == SerialTick(Serial(s.history), o).mirrored
    requires w == SerialTick(Serial(s.history), o).watermark
    ensures SerialSoFar(End(s.(watermark := w), t, o))
  {
    SerialSnoc(s.history, Ended(t, s.active[t].since, o));
    assert (s.active - {t}).Keys == {};
  }

  lemma StepKeepsSerial(s: State, interval: int, e: Event)
    requires SerialSoFar(s) && Enabled(s, e)
    ensures SerialSoFar(Step(s, interval, e))
  {
    hide Serial, Kept, MaxAt, AsksFromWatermark;
    match e
    case Refuse(t) => EndKeepsSerial(s, t, Aborted, s.watermark);
    case Answer(t, batch, insertOk) =>
      assert s.mirrored == Serial(s.history).mirrored;
      if Kept(batch) == [] {
        EndKeepsSerial(s, t, Completed(batch), Advanced(s.watermark, MaxAt(Floor(s.watermark), batch)));
      }
    case Resume(t) =>
      if s.active[t].Inserted? {
        EndKeepsSerial(s, t, Completed(s.active[t].batch), Advanced(s.watermark, s.active[t].maxAt));
      } else {
        EndKeepsSerial(s, t, Aborted, s.watermark);
      }
    case Start =>
    case Stop =>
    case Fire =>
    case RunOnce =>
  }

  /** In every interleaving of timer firings, manual runs, starts and stops,
      answers and failures, at most one tick is past the guard, and the worker's
      state is that of the admitted ticks run one after another, failed ones
      changing nothing. */
  lemma {:induction false} SerialEquivalence(s: State, interval: int, es: seq<Event>)
    requires SerialSoFar(s) && Runs(s, interval, es)
    ensures SerialSoFar(Run(s, interval, es))
    decreases |es|
  {
    if es != [] {
      StepKeepsSerial(s, interval, es[0]);
      SerialEquivalence(Step(s, interval, es[0]), interval, es[1..]);
    }
  }

  lemma InitIsSerial()
    ensures SerialSoFar(Init())
  {
  }

  // ------------------------------------------------------------ every tick ends

  /** An event that frees the guard: the waiting tick is refused or answered with nothing
      that bears an orch and a date, or the suspended tick resumes. */
  predicate Finishes(e: Event) {
    || e.Refuse? || e.Resume?
    || (e.Answer? && forall x :: x in e.batch ==>
          x.orchAddress == None || x.orchAddress == Some("") || x.occurredAt <= 0)
  }

  /** In every run such an event ends the tick past the guard, and the next call, by hand
      or by the timer, is admitted and asks from the watermark in force. */
  lemma TickEnds(interval: int, es: seq<Event>, e: Event)
    requires Runs(Init(), interval, es) && Enabled(Run(Init(), interval, es), e) && Finishes(e)
    ensures var t := Step(Run(Init(), interval, es), interval, e);
            && !t.inFlight && t.active == map[]
            && AdmitsNext(t, Step(t, interval, RunOnce))
            && (t.timer ==> AdmitsNext(t, Step(t, interval, Fire)))
  {
    hide Serial, MaxAt, AsksFromWatermark, Kept;
    InitIsSerial();
    SerialEquivalence(Init(), interval, es);
    var s := Run(Init(), interval, es);
    if e.Answer? {
      NothingKept(e.batch);
    }
    var t := Step(s, interval, e);
    StepKeepsSerial(s, interval, e);
    assert s.active.Keys == {e.tick};
    assert t.active.Keys == {};
  }

  /** From `t` to `u` one tick gets past the guard and asks from the watermark. */
  ghost predicate AdmitsNext(t: State, u: State) {
    && u == t.(inFlight := true, active := map[t.calls := Asking(t.watermark)],
               admitted := t.admitted + [t.calls], calls := t.calls + 1)
  }

  lemma {:induction false} NothingKept(batch: seq<LogEvent>)
    requires forall x :: x in batch ==> x.orchAddress == None || x.orchAddress == Some("") || x.occurredAt <= 0
    ensures Kept(batch) == []
    decreases |batch|
  {
    if batch != [] {
      NothingKept(batch[..|batch| - 1]);
    }
  }

  /** While a tick is past the guard, another call is turned away and changes nothing
      else. */
  lemma GuardTurnsAway(interval: int, es: seq<Event>)
    requires Runs(Init(), interval, es)
    ensures var s := Run(Init(), interval, es);
            && (s.active != map[] ==> Step(s, interval, RunOnce) == s.(calls := s.calls + 1))
            && (s.active != map[] && s.timer ==> Step(s, interval, Fire) == s.(calls := s.calls + 1))
  {
    hide Serial, MaxAt, AsksFromWatermark, Kept;
    InitIsSerial();
    SerialEquivalence(Init(), interval, es);
  }

  /** The worker never gets stuck: at every moment of every run a single event brings the
      guard down. */
  lemma GuardComesDown(interval: int, es: seq<Event>) returns (fs: seq<Event>)
    requires Runs(Init(), interval, es)
    ensures |fs| <= 1 && Runs(Run(Init(), interval, es), interval, fs)
    ensures !Run(Run(Init(), interval, es), interval, fs).inFlight
  {
    hide Serial, MaxAt, AsksFromWatermark, Kept;
    InitIsSerial();
    SerialEquivalence(Init(), interval, es);
    var s := Run(Init(), interval, es);
    fs := [];
    if s.active != map[] {
      var t :| t in s.active;
      fs := [if s.active[t].Asking? then Refuse(t) else Resume(t)];
      assert fs[1..] == [];
      TickEnds(interval, es, fs[0]);
    }
  }

  /** An answer with something to mirror is inserted, and only the resumed tick ends. */
  lemma AnswerIsInserted(interval: int, es: seq<Event>, tick: nat, batch: seq<LogEvent>)
    requires Runs(Init(), interval, es)
    requires Enabled(Run(Init(), interval, es), Answer(tick, batch, true)) && !Finishes(Answer(tick, batch, true))
    ensures var s := Run(Init(), interval, es); var t := Step(s, interval, Answer(tick, batch, true));
            && s.mirrored < t.mirrored
            && (forall x :: x in t.mirrored[|s.mirrored|..] <==>
                  x in batch && x.orchAddress.Some? && x.orchAddress.value != "" && x.occurredAt > 0)
            && t.inFlight && t.watermark == s.watermark && Enabled(t, Resume(tick))
  {
    hide Serial, MaxAt, AsksFromWatermark, Kept;
    InitIsSerial();
    SerialEquivalence(Init(), interval, es);
    var s := Run(Init(), interval, es);
    var t := Step(s, interval, Answer(tick, batch, true));
    var x :| x in batch && Mirrorable(x);
    KeptAre(batch, x);
    assert t.mirrored == s.mirrored + Kept(batch);
    assert t.mirrored[|s.mirrored|..] == Kept(batch);
    forall y
      ensures y in Kept(batch) <==> y in batch && Mirrorable(y)
    {
      KeptAre(batch, y);
    }
  }

  /** A failed insert, and the resumption that follows it, leave table and watermark as
      they were; in between the guard holds. */
  lemma FailedInsertLeavesNoTrace(interval: int, es: seq<Event>, tick: nat, batch: seq<LogEvent>)
    requires Runs(Init(), interval, es)
    requires Enabled(Run(Init(), interval, es), Answer(tick, batch, false)) && !Finishes(Answer(tick, batch, false))
    ensures var s := Run(Init(), interval, es); var t := Step(s, interval, Answer(tick, batch, false));
            && t.mirrored == s.mirrored && t.watermark == s.watermark && t.inFlight && Enabled(t, Resume(tick))
            && var u := Step(t, interval, Resume(tick));
               u.mirrored == s.mirrored && u.watermark == s.watermark && !u.inFlight
  {
    hide Serial, MaxAt, AsksFromWatermark, Kept;
    InitIsSerial();
    SerialEquivalence(Init(), interval, es);
    var x :| x in batch && Mirrorable(x);
    KeptAre(batch, x);
  }

  /** Rows are kept in the order of the answer, and nothing mirrored is ever removed. */
  lemma {:induction false} TableOnlyGrows(s: State, interval: int, es: seq<Event>)
    requires Runs(s, interval, es)
    ensures s.mirrored <= Run(s, interval, es).mirrored
    decreases |es|
  {
    if es != [] {
      TableOnlyGrows(Step(s, interval, es[0]), interval, es[1..]);
    }
  }

  lemma {:induction false} KeptConcat(a: seq<LogEvent>, b: seq<LogEvent>)
    ensures Kept(a + b) == Kept(a) + Kept(b)
    decreases |b|
  {
    if b == [] {
      assert a + b == a;
    } else {
      assert (a + b)[..|a + b| - 1] == a + b[..|b| - 1];
      KeptConcat(a, b[..|b| - 1]);
    }
  }

  // ------------------------------------------------------------------ the timer

  /** `start` is what makes the timer fire, and only with a positive interval; without
      it, or after `stop`, no firing is possible until the next `start`. */
  lemma {:induction false} FiresOnlyAfterStart(s: State, interval: int, es: seq<Event>)
    requires !s.timer && Runs(s, interval, es)
    requires interval <= 0 || Start !in es
    ensures !Enabled(Run(s, interval, es), Fire)
    ensures interval > 0 ==> Enabled(Step(s, interval, Start), Fire)
    decreases |es|
  {
    if es != [] {
      assert es[0] in es;
      FiresOnlyAfterStart(Step(s, interval, es[0]), interval, es[1..]);
    }
  }

  /** In every state a stop makes firing impossible, a firing is a call of `tick` like
      any other, and neither start nor stop touches a tick. */
  lemma TimerOnlyCalls(s: State, interval: int)
    ensures !Enabled(Step(s, interval, Stop), Fire)
    ensures Step(s, interval, Stop) == s.(timer := Step(s, interval, Stop).timer)
    ensures Step(s, interval, Start) == s.(timer := Step(s, interval, Start).timer)
    ensures Enabled(Step(s, interval, Start), Fire) <==> Enabled(s, Fire) || interval > 0
    ensures Enabled(s, Fire) ==> Step(s, interval, Fire) == Step(s, interval, RunOnce)
  {
  }

  // --------------------------------------------------------------- one answer

  /** The answer holds every event of `log` from `since` on. */
  ghost predicate CompleteFrom(log: set<LogEvent>, since: Option<int>, batch: seq<LogEvent>) {
    forall e :: e in batch <==> e in log && (since.Some? ==> e.occurredAt >= since.value)
  }

  lemma {:induction false} KeptAre(es: seq<LogEvent>, e: LogEvent)
    ensures e in Kept(es) <==> e in es && Mirrorable(e)
    decreases |es|
  {
    if es != [] {
      var init, last := es[..|es| - 1], es[|es| - 1];
      KeptAre(init, e);
      assert es == init + [last];
    }
  }

  /** The running maximum bounds the floor and every kept event, and is one of them. */
  lemma {:induction false} MaxAtBounds(floor: int, es: seq<LogEvent>)
    ensures MaxAt(floor, es) >= floor
    ensures forall e :: e in Kept(es) ==> e.occurredAt <= MaxAt(floor, es)
    ensures MaxAt(floor, es) == floor || exists e :: e in Kept(es) && e.occurredAt == MaxAt(floor, es)
    decreases |es|
  {
    if es != [] {
      var init, last := es[..|es| - 1], es[|es| - 1];
      MaxAtBounds(floor, init);
      if Mirrorable(last) {
        assert last in Kept(es);
      }
      assert forall e :: e in Kept(init) ==> e in Kept(es);
    }
  }

  lemma WatermarkMonotone(m: Mirror, o: Outcome)
    ensures Floor(m.watermark) <= Floor(SerialTick(m, o).watermark)
    ensures m.watermark.Some? ==> SerialTick(m, o).watermark.Some?
  {
  }

  lemma {:induction false} WatermarkNeverFalls(h: seq<Ended>, a: nat, b: nat)
    requires a <= b <= |h|
    ensures Floor(Serial(h[..a]).watermark) <= Floor(Serial(h[..b]).watermark)
    ensures Serial(h[..a]).watermark.Some? ==> Serial(h[..b]).watermark.Some?
    decreases b
  {
    if a < b {
      WatermarkNeverFalls(h, a, b - 1);
      SerialNext(h, b - 1);
      WatermarkMonotone(Serial(h[..b - 1]), h[b - 1].outcome);
    }
  }

  lemma SerialNext(h: seq<Ended>, k: nat)
    requires k < |h|
    ensures Serial(h[..k + 1]) == SerialTick(Serial(h[..k]), h[k].outcome)
  {
    assert h[..k + 1][..k] == h[..k];
  }

  lemma SingleBatch(e: LogEvent, floor: int)
    requires Mirrorable(e)
    ensures Kept([e]) == [e] && MaxAt(floor, [e]) == if e.occurredAt > floor then e.occurredAt else floor
  {
    assert [e][..0] == [];
    assert Kept([e]) == Kept([]) + [e];
  }

  lemma {:induction false} MirroredAreMirrorable(h: seq<Ended>, e: LogEvent)
    requires e in Serial(h).mirrored
    ensures Mirrorable(e)
    decreases |h|
  {
    if h != [] {
      var init, last := h[..|h| - 1], h[|h| - 1];
      if e in Serial(init).mirrored {
        MirroredAreMirrorable(init, e);
      } else if last.outcome.Completed? {
        KeptAre(last.outcome.batch, e);
      }
    }
  }

  /** No mirrored event is newer than the watermark. */
  lemma {:induction false} MirroredUpToWatermark(h: seq<Ended>, e: LogEvent)
    requires e in Serial(h).mirrored
    ensures Serial(h).watermark.Some? && e.occurredAt <= Serial(h).watermark.value
    decreases |h|
  {
    MirroredAreMirrorable(h, e);
    if h != [] {
      var init, last := h[..|h| - 1], h[|h| - 1];
      WatermarkMonotone(Serial(init), last.outcome);
      if e in Serial(init).mirrored {
        MirroredUpToWatermark(init, e);
      } else if last.outcome.Completed? {
        MaxAtBounds(Floor(Serial(init).watermark), last.outcome.batch);
      }
    }
  }

  // ------------------------------------------------- states with a suspended tick

  /** The ended ticks and, if one is suspended after its insert, that tick: everything
      that has written to the table. */
  ghost function Recorded(s: State): seq<Ended> {
    if exists t :: t in s.active && s.active[t].Inserted? then
      var t :| t in s.active && s.active[t].Inserted?;
      s.history + [Ended(t, s.active[t].since, Completed(s.active[t].batch))]
    else s.history
  }

  /** At every moment of every run the table holds what the recorded ticks mirror one
      after another. */
  lemma RecordedIsSerial(s: State)
    requires SerialSoFar(s)
    ensures AsksFromWatermark(Recorded(s)) && s.mirrored == Serial(Recorded(s)).mirrored
  {
    if exists t :: t in s.active && s.active[t].Inserted? {
      var t :| t in s.active && Recorded(s) == s.history + [Ended(t, s.active[t].since, Completed(s.active[t].batch))];
      SerialSnoc(s.history, Ended(t, s.active[t].since, Completed(s.active[t].batch)));
    }
  }

  lemma {:induction false} RunConcat(s: State, interval: int, es: seq<Event>, fs: seq<Event>)
    requires Runs(s, interval, es) && Runs(Run(s, interval, es), interval, fs)
    ensures Runs(s, interval, es + fs)
    ensures Run(s, interval, es + fs) == Run(Run(s, interval, es), interval, fs)
    decreases |es|
  {
    if es == [] {
      assert es + fs == fs;
    } else {
      assert (es + fs)[1..] == es[1..] + fs;
      RunConcat(Step(s, interval, es[0]), interval, es[1..], fs);
    }
  }

  // ------------------------------------------------------------ a whole quiet tick

  /** One tick with nothing else going on, answered with just `x`. */
  function TickEvents(tick: nat, x: LogEvent): seq<Event> {
    [RunOnce, Answer(tick, [x], true), Resume(tick)]
  }

  predicate Quiet(s: State) {
    !s.inFlight && s.active == map[]
  }

  lemma QuietTick(s: State, interval: int, x: LogEvent)
    requires Quiet(s) && Mirrorable(x)
    ensures var es := TickEvents(s.calls, x);
            && Runs(s, interval, es)
            && var t := Run(s, interval, es);
               && Quiet(t) && t.calls == s.calls + 1
               && t.mirrored == s.mirrored + [x]
               && t.watermark == (if x.occurredAt > Floor(s.watermark) then Some(x.occurredAt + 1) else s.watermark)
               && t.history == s.history + [Ended(s.calls, s.watermark, Completed([x]))]
  {
    hide Kept, MaxAt;
    SingleBatch(x, Floor(s.watermark));
    var es := TickEvents(s.calls, x);
    var s1 := Step(s, interval, es[0]);
    var s2 := Step(s1, interval, es[1]);
    var s3 := Step(s2, interval, es[2]);
    assert s2.active.Keys == {s.calls} && s3.active.Keys == {};
    assert es[1..] == [es[1], es[2]] && es[1..][1..] == [es[2]] && es[1..][1..][1..] == [];
    assert Runs(s3, interval, []) && Runs(s2, interval, [es[2]]) && Runs(s1, interval, es[1..]);
    assert Run(s, interval, es) == Run(s1, interval, es[1..]) == Run(s2, interval, [es[2]]) == s3;
  }
}
