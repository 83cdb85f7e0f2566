/** What the audit-poll worker misses. */
module MirrorLoss {
  import opened Prelude
  import opened AuditPoll

  ghost function MirrorableOf(log: set<LogEvent>): set<LogEvent> {
    set e | e in log && Mirrorable(e)
  }

  ghost function SetOf(es: seq<LogEvent>): set<LogEvent> {
    set e | e in es
  }

  /** Exactly when a complete answer leaves nothing out: when every mirrorable event
      not mirrored yet is stamped at or after the watermark. */
  lemma NothingLostExactly(m: Mirror, log: set<LogEvent>, batch: seq<LogEvent>)
    requires CompleteFrom(log, m.watermark, batch)
    ensures MirrorableOf(log) <= SetOf(SerialTick(m, Completed(batch)).mirrored)
            <==> forall e :: e in MirrorableOf(log) && e !in m.mirrored && m.watermark.Some? ==>
                   e.occurredAt >= m.watermark.value
  {
    var after := SerialTick(m, Completed(batch)).mirrored;
    forall e | e in MirrorableOf(log)
      ensures e in after <==> e in m.mirrored || (m.watermark.Some? ==> e.occurredAt >= m.watermark.value)
    {
      KeptAre(batch, e);
    }
    if MirrorableOf(log) <= SetOf(after) {
      forall e | e in MirrorableOf(log) && e !in m.mirrored && m.watermark.Some?
        ensures e.occurredAt >= m.watermark.value
      {
        assert e in SetOf(after);
      }
    }
  }

  /** What only `after` holds is stamped later than everything in `before`. */
  ghost predicate StampedLater(before: set<LogEvent>, after: set<LogEvent>) {
    forall e, f :: e in before && f in after && f !in before ==> e.occurredAt < f.occurredAt
  }

  /** `logs[k]` is the log as tick `k` found it: it only grows, answers are complete,
      and what is logged after a completed read is stamped later than all of it. */
  ghost predicate OrderlyLog(h: seq<Ended>, logs: seq<set<LogEvent>>) {
    && |logs| == |h|
    && (forall k :: 0 <= k < |h| && h[k].outcome.Completed? ==>
          CompleteFrom(logs[k], h[k].since, h[k].outcome.batch))
    && (forall j, k :: 0 <= j < k < |h| ==> logs[j] <= logs[k])
    && (forall j, k :: 0 <= j < k < |h| && h[j].outcome.Completed? ==> StampedLater(logs[j], logs[k]))
  }

  /** The log as the last completed tick found it. */
  ghost function LastRead(h: seq<Ended>, logs: seq<set<LogEvent>>): set<LogEvent>
    requires |logs| == |h|
  {
    if h == [] then {}
    else if h[|h| - 1].outcome.Completed? then logs[|h| - 1]
    else LastRead(h[..|h| - 1], logs[..|h| - 1])
  }

  /** The watermark stands at, or one past, the newest mirrored event. */
  ghost predicate AtNewest(w: Option<int>, mirrored: set<LogEvent>) {
    match w
    case None => mirrored == {}
    case Some(v) =>
      && (forall e :: e in mirrored ==> e.occurredAt <= v)
      && exists e :: e in mirrored && v <= e.occurredAt + 1
  }

  lemma {:induction false} LastReadFrom(h: seq<Ended>, logs: seq<set<LogEvent>>, j: nat, k: nat)
    requires OrderlyLog(h, logs) && j <= k < |h|
    ensures LastRead(h[..j], logs[..j]) <= logs[k]
    ensures StampedLater(LastRead(h[..j], logs[..j]), logs[k])
    decreases j
  {
    if j > 0 {
      assert h[..j][..j - 1] == h[..j - 1] && logs[..j][..j - 1] == logs[..j - 1];
      if !h[j - 1].outcome.Completed? {
        LastReadFrom(h, logs, j - 1, k);
      }
    }
  }

  lemma TickKeepsNewest(m: Mirror, known: set<LogEvent>, log: set<LogEvent>, batch: seq<LogEvent>)
    requires SetOf(m.mirrored) == MirrorableOf(known) && AtNewest(m.watermark, MirrorableOf(known))
    requires known <= log && CompleteFrom(log, m.watermark, batch)
    requires StampedLater(known, log)
    ensures var m' := SerialTick(m, Completed(batch));
            SetOf(m'.mirrored) == MirrorableOf(log) && AtNewest(m'.watermark, MirrorableOf(log))
  {
    var m' := SerialTick(m, Completed(batch));
    forall e
      ensures e in Kept(batch) <==> e in MirrorableOf(log) && (m.watermark.Some? ==> e.occurredAt >= m.watermark.value)
    {
      KeptAre(batch, e);
    }
    forall e | e in MirrorableOf(log) && e !in known && m.watermark.Some?
      ensures e.occurredAt >= m.watermark.value
    {
      var newest :| newest in MirrorableOf(known) && m.watermark.value <= newest.occurredAt + 1;
    }
    assert forall e :: e in SetOf(m'.mirrored) <==> e in SetOf(m.mirrored) || e in Kept(batch);
    assert SetOf(m'.mirrored) == MirrorableOf(log);
    NewestAfter(m, MirrorableOf(known), batch);
    assert MirrorableOf(known) + SetOf(Kept(batch)) == MirrorableOf(log);
  }

  lemma NewestAfter(m: Mirror, before: set<LogEvent>, batch: seq<LogEvent>)
    requires AtNewest(m.watermark, before)
    ensures AtNewest(SerialTick(m, Completed(batch)).watermark, before + SetOf(Kept(batch)))
  {
    MaxAtBounds(Floor(m.watermark), batch);
    var after := before + SetOf(Kept(batch));
    if MaxAt(Floor(m.watermark), batch) > Floor(m.watermark) {
      var e :| e in Kept(batch) && e.occurredAt == MaxAt(Floor(m.watermark), batch);
      assert e in after;
    } else if m.watermark.None? {
      forall e | e in Kept(batch) ensures false {
        KeptAre(batch, e);
      }
    } else {
      var e :| e in before && m.watermark.value <= e.occurredAt + 1;
      assert e in after;
    }
  }

  /** After every successful tick the mirrored events are exactly the orch-bearing,
      dated events of the log as that tick read it. */
  lemma {:induction false} NoLoss(h: seq<Ended>, logs: seq<set<LogEvent>>, n: nat)
    requires AsksFromWatermark(h) && OrderlyLog(h, logs) && n <= |h|
    ensures SetOf(Serial(h[..n]).mirrored) == MirrorableOf(LastRead(h[..n], logs[..n]))
    ensures AtNewest(Serial(h[..n]).watermark, MirrorableOf(LastRead(h[..n], logs[..n])))
    ensures n > 0 && h[n - 1].outcome.Completed? ==> SetOf(Serial(h[..n]).mirrored) == MirrorableOf(logs[n - 1])
    decreases n
  {
    if n > 0 {
      NoLoss(h, logs, n - 1);
      assert h[..n][..n - 1] == h[..n - 1] && logs[..n][..n - 1] == logs[..n - 1];
      SerialNext(h, n - 1);
      if h[n - 1].outcome.Completed? {
        LastReadFrom(h, logs, n - 1, n - 1);
        TickKeepsNewest(Serial(h[..n - 1]), LastRead(h[..n - 1], logs[..n - 1]), logs[n - 1], h[n - 1].outcome.batch);
      }
    }
  }

  /** The same at every moment of every run: the mirrored events are the orch-bearing,
      dated events of the log as the last tick that wrote to the table read it. */
  lemma NoLossInRuns(interval: int, es: seq<Event>, logs: seq<set<LogEvent>>)
    requires Runs(Init(), interval, es) && OrderlyLog(Recorded(Run(Init(), interval, es)), logs)
    ensures var s := Run(Init(), interval, es);
            SetOf(s.mirrored) == MirrorableOf(LastRead(Recorded(s), logs))
  {
    hide Recorded, Serial;
    InitIsSerial();
    SerialEquivalence(Init(), interval, es);
    var s := Run(Init(), interval, es);
    RecordedIsSerial(s);
    var h := Recorded(s);
    NoLoss(h, logs, |h|);
    assert h[..|h|] == h && logs[..|h|] == logs;
  }

  // ------------------------------------------------------- when an event is lost

  ghost predicate Passed(w: Option<int>, x: LogEvent) {
    w.Some? && x.occurredAt < w.value
  }

  /** The table does not hold `x` and the watermark is past its timestamp. */
  ghost predicate Missed(s: State, x: LogEvent) {
    x !in s.mirrored && Passed(s.watermark, x)
  }

  /** An answer that leaves `x` out, because it was logged late or cut off, and has an
      event to mirror that is stamped no earlier than `x` and past the watermark. */
  ghost predicate Overtakes(w: Option<int>, batch: seq<LogEvent>, x: LogEvent) {
    && x !in batch
    && exists e :: e in Kept(batch) && e.occurredAt >= x.occurredAt && e.occurredAt > Floor(w)
  }

  /** Exactly when a tick loses an event that it still could have mirrored. */
  lemma TickLosesExactly(m: Mirror, batch: seq<LogEvent>, x: LogEvent)
    requires Mirrorable(x) && x !in m.mirrored && !Passed(m.watermark, x)
    ensures var m' := SerialTick(m, Completed(batch));
            x !in m'.mirrored && Passed(m'.watermark, x) <==> Overtakes(m.watermark, batch, x)
  {
    hide Kept, MaxAt;
    KeptAre(batch, x);
    MaxAtBounds(Floor(m.watermark), batch);
  }

  /** The same for the worker in any run, with its waiting tick answered by `batch`,
      complete or not. */
  lemma AnswerLosesExactly(interval: int, es: seq<Event>, tick: nat, batch: seq<LogEvent>, x: LogEvent)
    requires Runs(Init(), interval, es)
    requires var s := Run(Init(), interval, es);
             && tick in s.active && s.active[tick].Asking?
             && Mirrorable(x) && x !in s.mirrored && !Missed(s, x)
    ensures var s := Run(Init(), interval, es);
            var fs := [Answer(tick, batch, true)] + if Kept(batch) == [] then [] else [Resume(tick)];
            && Runs(s, interval, fs)
            && (Missed(Run(s, interval, fs), x) <==> Overtakes(s.watermark, batch, x))
  {
    hide Serial, Kept, MaxAt, Overtakes, AsksFromWatermark;
    InitIsSerial();
    SerialEquivalence(Init(), interval, es);
    var s := Run(Init(), interval, es);
    TickLosesExactly(Serial(s.history), batch, x);
    var s1 := Step(s, interval, Answer(tick, batch, true));
    assert Runs(s1, interval, []);
    if Kept(batch) != [] {
      var s2 := Step(s1, interval, Resume(tick));
      assert Runs(s2, interval, []) && Runs(s1, interval, [Resume(tick)]);
      var fs := [Answer(tick, batch, true)] + [Resume(tick)];
      assert fs[1..] == [Resume(tick)] && fs[1..][1..] == [];
      assert Run(s, interval, fs) == Run(s1, interval, [Resume(tick)]) == s2;
    } else {
      assert [Answer(tick, batch, true)] + [] == [Answer(tick, batch, true)];
    }
  }

  // ------------------------------------------------------------- loss is permanent

  /** The answer holds only events at or after `since`; it may leave some out. */
  ghost predicate OnlyFrom(since: Option<int>, batch: seq<LogEvent>) {
    forall e :: e in batch && since.Some? ==> e.occurredAt >= since.value
  }

  ghost predicate AnswersOnlyFrom(s: State, interval: int, es: seq<Event>)
    requires Runs(s, interval, es)
    decreases |es|
  {
    es != [] ==>
      && (es[0].Answer? ==> OnlyFrom(s.active[es[0].tick].since, es[0].batch))
      && AnswersOnlyFrom(Step(s, interval, es[0]), interval, es[1..])
  }

  lemma StaysMissed(s: State, interval: int, e: Event, x: LogEvent)
    requires SerialSoFar(s) && Enabled(s, e) && Missed(s, x)
    requires e.Answer? ==> OnlyFrom(s.active[e.tick].since, e.batch)
    ensures Missed(Step(s, interval, e), x)
  {
    hide Serial, Kept, MaxAt, AsksFromWatermark;
    if e.Answer? {
      KeptAre(e.batch, x);
    }
  }

  /** A missed event is not mirrored in any later run whose answers respect `since`. */
  lemma {:induction false} LossIsPermanent(s: State, interval: int, es: seq<Event>, x: LogEvent)
    requires SerialSoFar(s) && Runs(s, interval, es) && AnswersOnlyFrom(s, interval, es) && Missed(s, x)
    ensures Missed(Run(s, interval, es), x)
    decreases |es|
  {
    if es != [] {
      StaysMissed(s, interval, es[0], x);
      StepKeepsSerial(s, interval, es[0]);
      LossIsPermanent(Step(s, interval, es[0]), interval, es[1..], x);
    }
  }

  /** A first tick answered with just `e` loses `x` exactly when `x` is stamped no later,
      and then for good.  The answer may be complete, `x` being logged after it with the
      same timestamp, or cut off after one event. */
  lemma FirstTickLosesExactly(interval: int, e: LogEvent, x: LogEvent, es: seq<Event>)
    requires Mirrorable(e) && Mirrorable(x) && e != x
    ensures CompleteFrom({e}, None, [e])
    ensures Runs(Init(), interval, TickEvents(0, e))
    ensures var s := Run(Init(), interval, TickEvents(0, e));
            && (Missed(s, x) <==> x.occurredAt <= e.occurredAt)
            && (x.occurredAt <= e.occurredAt && Runs(s, interval, es) && AnswersOnlyFrom(s, interval, es) ==>
                  x !in Run(s, interval, es).mirrored)
  {
    hide TickEvents, Run, Runs, AnswersOnlyFrom;
    InitIsSerial();
    QuietTick(Init(), interval, e);
    SerialEquivalence(Init(), interval, TickEvents(0, e));
    var s := Run(Init(), interval, TickEvents(0, e));
    if x.occurredAt <= e.occurredAt && Runs(s, interval, es) && AnswersOnlyFrom(s, interval, es) {
      LossIsPermanent(s, interval, es, x);
    }
  }

  // ------------------------------------------------- what a whole run has lost

  ghost predicate HistoryOnlyFrom(h: seq<Ended>) {
    forall k :: 0 <= k < |h| && h[k].outcome.Completed? ==> OnlyFrom(h[k].since, h[k].outcome.batch)
  }

  ghost predicate OnlyFromSoFar(s: State) {
    && HistoryOnlyFrom(s.history)
    && forall t :: t in s.active && s.active[t].Inserted? ==> OnlyFrom(s.active[t].since, s.active[t].batch)
  }

  lemma StepStaysOnlyFrom(s: State, interval: int, e: Event)
    requires OnlyFromSoFar(s) && Enabled(s, e)
    requires e.Answer? ==> OnlyFrom(s.active[e.tick].since, e.batch)
    ensures OnlyFromSoFar(Step(s, interval, e))
  {
    hide Kept, MaxAt, OnlyFrom;
  }

  lemma {:induction false} RunStaysOnlyFrom(s: State, interval: int, es: seq<Event>)
    requires OnlyFromSoFar(s) && Runs(s, interval, es) && AnswersOnlyFrom(s, interval, es)
    ensures OnlyFromSoFar(Run(s, interval, es))
    decreases |es|
  {
    hide OnlyFromSoFar, OnlyFrom;
    if es != [] {
      StepStaysOnlyFrom(s, interval, es[0]);
      RunStaysOnlyFrom(Step(s, interval, es[0]), interval, es[1..]);
    }
  }

  /** Tick `k` found `x` not mirrored and was answered past it. */
  ghost predicate LosesAt(h: seq<Ended>, k: nat, x: LogEvent) {
    && k < |h| && h[k].outcome.Completed?
    && x !in Serial(h[..k]).mirrored
    && Overtakes(Serial(h[..k]).watermark, h[k].outcome.batch, x)
  }

  ghost predicate SomeTickLoses(h: seq<Ended>, x: LogEvent) {
    exists k: nat :: LosesAt(h, k, x)
  }

  ghost predicate Lost(h: seq<Ended>, x: LogEvent) {
    x !in Serial(h).mirrored && Passed(Serial(h).watermark, x)
  }

  lemma ButLast(h: seq<Ended>, x: LogEvent)
    requires h != [] && AsksFromWatermark(h) && HistoryOnlyFrom(h)
    ensures AsksFromWatermark(h[..|h| - 1]) && HistoryOnlyFrom(h[..|h| - 1])
    ensures SomeTickLoses(h, x) <==> LosesAt(h, |h| - 1, x) || SomeTickLoses(h[..|h| - 1], x)
  {
    hide Serial, Kept, Overtakes, OnlyFrom;
    var init := h[..|h| - 1];
    assert forall k: nat :: k <= |init| ==> init[..k] == h[..k];
    assert forall k: nat :: k < |init| ==> init[k] == h[k];
    assert forall k: nat :: k < |init| ==> LosesAt(init, k, x) == LosesAt(h, k, x);
  }

  lemma LastTickLoses(h: seq<Ended>, x: LogEvent)
    requires h != [] && AsksFromWatermark(h) && HistoryOnlyFrom(h) && Mirrorable(x)
    ensures Lost(h, x) <==> Lost(h[..|h| - 1], x) || LosesAt(h, |h| - 1, x)
  {
    hide Kept, MaxAt;
    var m, last := Serial(h[..|h| - 1]), h[|h| - 1];
    assert last.since == m.watermark;
    if last.outcome.Completed? {
      assert OnlyFrom(last.since, last.outcome.batch);
      KeptAre(last.outcome.batch, x);
      MaxAtBounds(Floor(m.watermark), last.outcome.batch);
    }
  }

  lemma {:induction false} LostExactly(h: seq<Ended>, x: LogEvent)
    requires AsksFromWatermark(h) && HistoryOnlyFrom(h) && Mirrorable(x)
    ensures Lost(h, x) <==> SomeTickLoses(h, x)
    decreases |h|
  {
    if h != [] {
      hide *;
      ButLast(h, x);
      LastTickLoses(h, x);
      LostExactly(h[..|h| - 1], x);
    }
  }

  /** At every moment of every run, the orch-bearing, dated events that the worker has
      missed are exactly those that some tick found not mirrored and was answered past. */
  lemma LostInRunsExactly(interval: int, es: seq<Event>, x: LogEvent)
    requires Runs(Init(), interval, es) && AnswersOnlyFrom(Init(), interval, es) && Mirrorable(x)
    ensures var s := Run(Init(), interval, es);
            Missed(s, x) <==> SomeTickLoses(s.history, x)
  {
    hide Serial, Kept, MaxAt, SomeTickLoses;
    InitIsSerial();
    SerialEquivalence(Init(), interval, es);
    RunStaysOnlyFrom(Init(), interval, es);
    var s := Run(Init(), interval, es);
    LostExactly(s.history, x);
    forall t | t in s.active && s.active[t].Inserted?
      ensures x in Ahead(s.active[t]) ==> !Passed(s.watermark, x)
    {
      KeptAre(s.active[t].batch, x);
    }
  }
}
