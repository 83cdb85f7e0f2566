/** How often the audit-poll worker mirrors one event. */
module MirrorOnce {
  import opened Prelude
  import opened AuditPoll

  /** The daemon answers only with events at or after `since`, none repeated. */
  ghost predicate Honest(e: Ended) {
    e.outcome.Completed? ==>
      && (forall x :: x in e.outcome.batch && e.since.Some? ==> x.occurredAt >= e.since.value)
      && (forall i, j :: 0 <= i < j < |e.outcome.batch| ==> e.outcome.batch[i] != e.outcome.batch[j])
  }

  ghost predicate HonestLog(h: seq<Ended>) {
    forall k :: 0 <= k < |h| ==> Honest(h[k])
  }

  /** Tick `k` put event `x` into the table. */
  predicate MirrorsAt(h: seq<Ended>, k: nat, x: LogEvent) {
    k < |h| && h[k].outcome.Completed? && x in Kept(h[k].outcome.batch)
  }

  /** After a tick the watermark is past every event it mirrored, unless all of
      those were stamped exactly with a watermark that did not move. */
  lemma PastOrAtWatermark(m: Mirror, batch: seq<LogEvent>, x: LogEvent)
    requires x in Kept(batch)
    requires forall e :: e in batch && m.watermark.Some? ==> e.occurredAt >= m.watermark.value
    ensures var w := SerialTick(m, Completed(batch)).watermark;
            w.Some? && (w.value > x.occurredAt || m.watermark == w == Some(x.occurredAt))
  {
    KeptAre(batch, x);
    MaxAtBounds(Floor(m.watermark), batch);
  }

  /** An event enters at two ticks only if it is stamped exactly with the
      watermark in force at both. */
  lemma TwiceOnlyAtWatermark(h: seq<Ended>, a: nat, b: nat, x: LogEvent)
    requires AsksFromWatermark(h) && HonestLog(h) && a < b
    requires MirrorsAt(h, a, x) && MirrorsAt(h, b, x)
    ensures h[a].since == h[b].since == Some(x.occurredAt)
  {
    assert Honest(h[a]) && Honest(h[b]);
    assert h[a].since == Serial(h[..a]).watermark && h[b].since == Serial(h[..b]).watermark;
    PastOrAtWatermark(Serial(h[..a]), h[a].outcome.batch, x);
    SerialNext(h, a);
    WatermarkNeverFalls(h, a + 1, b);
    KeptAre(h[b].outcome.batch, x);
  }

  /** The number of ticks that mirrored `x`. */
  function Sightings(h: seq<Ended>, x: LogEvent): nat {
    if h == [] then 0
    else Sightings(h[..|h| - 1], x) + if MirrorsAt(h, |h| - 1, x) then 1 else 0
  }

  lemma {:induction false} KeptOnce(es: seq<LogEvent>, x: LogEvent)
    requires forall i, j :: 0 <= i < j < |es| ==> es[i] != es[j]
    ensures multiset(Kept(es))[x] == if x in Kept(es) then 1 else 0
    decreases |es|
  {
    if es != [] {
      var init, last := es[..|es| - 1], es[|es| - 1];
      KeptOnce(init, x);
      KeptAre(init, last);
    }
  }

  /** The table holds an event once per tick that mirrored it. */
  lemma {:induction false} CountIsSightings(h: seq<Ended>, x: LogEvent)
    requires HonestLog(h)
    ensures multiset(Serial(h).mirrored)[x] == Sightings(h, x)
    decreases |h|
  {
    if h != [] {
      var init, last := h[..|h| - 1], h[|h| - 1];
      CountIsSightings(init, x);
      assert Honest(last);
      if last.outcome.Completed? {
        KeptOnce(last.outcome.batch, x);
      }
    }
  }

  lemma {:induction false} SightedTwice(h: seq<Ended>, x: LogEvent)
    ensures Sightings(h, x) > 0 <==> exists a :: 0 <= a < |h| && MirrorsAt(h, a, x)
    ensures Sightings(h, x) > 1 <==> exists a, b :: 0 <= a < b < |h| && MirrorsAt(h, a, x) && MirrorsAt(h, b, x)
    decreases |h|
  {
    if h != [] {
      var n := |h| - 1;
      var init := h[..n];
      SightedTwice(init, x);
      assert forall a: nat :: a < n ==> MirrorsAt(init, a, x) == MirrorsAt(h, a, x);
    }
  }

  /** Under honest answers, the events in the table more than once were mirrored by two
      ticks that both asked from their own timestamp. */
  lemma {:induction false} DuplicatesAskTwice(h: seq<Ended>, x: LogEvent)
    requires AsksFromWatermark(h) && HonestLog(h)
    ensures multiset(Serial(h).mirrored)[x] > 1 <==>
      exists a, b :: 0 <= a < b < |h| && MirrorsAt(h, a, x) && MirrorsAt(h, b, x)
        && h[a].since == h[b].since == Some(x.occurredAt)
  {
    CountIsSightings(h, x);
    SightedTwice(h, x);
    if Sightings(h, x) > 1 {
      var a, b :| 0 <= a < b < |h| && MirrorsAt(h, a, x) && MirrorsAt(h, b, x);
      TwiceOnlyAtWatermark(h, a, b, x);
    }
  }

  // ----------------------------------------- what decides it before a tick is made

  /** A complete answer brings back an already mirrored event exactly when the watermark
      the tick asks from is that event's own timestamp. */
  lemma ReinsertedExactly(h: seq<Ended>, log: set<LogEvent>, batch: seq<LogEvent>, x: LogEvent)
    requires x in Serial(h).mirrored && x in log && CompleteFrom(log, Serial(h).watermark, batch)
    ensures x in Kept(batch) <==> Serial(h).watermark == Some(x.occurredAt)
  {
    hide Serial, Kept;
    KeptAre(batch, x);
    MirroredUpToWatermark(h, x);
    MirroredAreMirrorable(h, x);
  }

  /** `logs[k]` is the log as tick `k` read it, and every answer was complete. */
  ghost predicate CompleteLog(h: seq<Ended>, logs: seq<set<LogEvent>>) {
    && |logs| == |h|
    && forall k :: 0 <= k < |h| && h[k].outcome.Completed? ==>
         CompleteFrom(logs[k], h[k].since, h[k].outcome.batch)
  }

  /** Before tick `b`, `x` is mirrored, the log still holds it, and the watermark stands
      on its timestamp. */
  ghost predicate StandsOn(h: seq<Ended>, logs: seq<set<LogEvent>>, b: nat, x: LogEvent)
    requires |logs| == |h|
  {
    && b < |h| && h[b].outcome.Completed? && x in logs[b]
    && x in Serial(h[..b]).mirrored && Serial(h[..b]).watermark == Some(x.occurredAt)
  }

  lemma {:induction false} MirroredSince(h: seq<Ended>, a: nat, b: nat, x: LogEvent)
    requires MirrorsAt(h, a, x) && a < b <= |h|
    ensures x in Serial(h[..b]).mirrored
    decreases b
  {
    SerialNext(h, b - 1);
    if a < b - 1 {
      MirroredSince(h, a, b - 1, x);
    }
  }

  lemma {:induction false} MirroredBySome(h: seq<Ended>, b: nat, x: LogEvent) returns (a: nat)
    requires b <= |h| && x in Serial(h[..b]).mirrored
    ensures a < b && MirrorsAt(h, a, x)
    decreases b
  {
    SerialNext(h, b - 1);
    if x in Serial(h[..b - 1]).mirrored {
      a := MirroredBySome(h, b - 1, x);
    } else {
      a := b - 1;
    }
  }

  /** Under complete answers, an event is in the table more than once exactly when some
      completed tick found it mirrored, still logged, and the watermark standing on
      its timestamp. */
  lemma DuplicatesExactly(h: seq<Ended>, logs: seq<set<LogEvent>>, x: LogEvent)
    requires AsksFromWatermark(h) && HonestLog(h) && CompleteLog(h, logs)
    ensures multiset(Serial(h).mirrored)[x] > 1 <==> exists b: nat :: StandsOn(h, logs, b, x)
  {
    hide Serial, Kept;
    DuplicatesAskTwice(h, x);
    if multiset(Serial(h).mirrored)[x] > 1 {
      var a, b :| 0 <= a < b < |h| && MirrorsAt(h, a, x) && MirrorsAt(h, b, x) && h[b].since == Some(x.occurredAt);
      MirroredSince(h, a, b, x);
      KeptAre(h[b].outcome.batch, x);
      assert StandsOn(h, logs, b, x);
    }
    if exists b: nat :: StandsOn(h, logs, b, x) {
      var b: nat :| StandsOn(h, logs, b, x);
      var a := MirroredBySome(h, b, x);
      assert h[b].since == Serial(h[..b]).watermark;
      ReinsertedExactly(h[..b], logs[b], h[b].outcome.batch, x);
      TwiceOnlyAtWatermark(h, a, b, x);
    }
  }

  // ------------------------------------------------- every run of the worker

  ghost predicate HonestAnswer(s: State, e: Event)
    requires Enabled(s, e)
  {
    e.Answer? ==> Honest(Ended(e.tick, s.active[e.tick].since, Completed(e.batch)))
  }

  ghost predicate HonestRun(s: State, interval: int, es: seq<Event>)
    requires Runs(s, interval, es)
    decreases |es|
  {
    es != [] ==> HonestAnswer(s, es[0]) && HonestRun(Step(s, interval, es[0]), interval, es[1..])
  }

  ghost predicate HonestSoFar(s: State) {
    && HonestLog(s.history)
    && forall t :: t in s.active && s.active[t].Inserted? ==>
         Honest(Ended(t, s.active[t].since, Completed(s.active[t].batch)))
  }

  lemma StepStaysHonest(s: State, interval: int, e: Event)
    requires HonestSoFar(s) && Enabled(s, e) && HonestAnswer(s, e)
    ensures HonestSoFar(Step(s, interval, e))
  {
    hide Kept, MaxAt;
  }

  lemma {:induction false} RunStaysHonest(s: State, interval: int, es: seq<Event>)
    requires HonestSoFar(s) && Runs(s, interval, es) && HonestRun(s, interval, es)
    ensures HonestSoFar(Run(s, interval, es))
    decreases |es|
  {
    if es != [] {
      StepStaysHonest(s, interval, es[0]);
      RunStaysHonest(Step(s, interval, es[0]), interval, es[1..]);
    }
  }

  lemma RecordedIsHonest(s: State)
    requires HonestSoFar(s)
    ensures HonestLog(Recorded(s))
  {
  }

  /** At-most-once mirroring at every moment of every run with honest answers. */
  lemma AtMostOnceInRuns(interval: int, es: seq<Event>, x: LogEvent)
    requires Runs(Init(), interval, es) && HonestRun(Init(), interval, es)
    ensures var s := Run(Init(), interval, es); var h := Recorded(s);
            multiset(s.mirrored)[x] > 1 <==>
              exists a, b :: 0 <= a < b < |h| && MirrorsAt(h, a, x) && MirrorsAt(h, b, x)
                && h[a].since == h[b].since == Some(x.occurredAt)
  {
    hide Recorded, Serial, HonestLog, AsksFromWatermark;
    InitIsSerial();
    InitIsHonest();
    SerialEquivalence(Init(), interval, es);
    RunStaysHonest(Init(), interval, es);
    var s := Run(Init(), interval, es);
    RecordedIsSerial(s);
    RecordedIsHonest(s);
    DuplicatesAskTwice(Recorded(s), x);
  }

  lemma InitIsHonest()
    ensures HonestSoFar(Init())
  {
  }

  /** At every moment of every run with complete answers, an event is in the table more
      than once exactly when some tick found it mirrored, still logged, and the
      watermark standing on its timestamp. */
  lemma DuplicatesInRunsExactly(interval: int, es: seq<Event>, logs: seq<set<LogEvent>>, x: LogEvent)
    requires Runs(Init(), interval, es) && HonestRun(Init(), interval, es)
    requires CompleteLog(Recorded(Run(Init(), interval, es)), logs)
    ensures var s := Run(Init(), interval, es);
            multiset(s.mirrored)[x] > 1 <==> exists b: nat :: StandsOn(Recorded(s), logs, b, x)
  {
    hide Recorded, Serial, HonestLog, AsksFromWatermark, StandsOn, CompleteLog;
    InitIsSerial();
    InitIsHonest();
    SerialEquivalence(Init(), interval, es);
    RunStaysHonest(Init(), interval, es);
    var s := Run(Init(), interval, es);
    RecordedIsSerial(s);
    RecordedIsHonest(s);
    DuplicatesExactly(Recorded(s), logs, x);
  }

  /** The guard as the worker meets it: with a tick waiting for its answer, a complete
      answer inserts an already mirrored event again exactly when the watermark stands
      on its timestamp. */
  lemma AnswerReinsertsExactly(
      interval: int, es: seq<Event>, tick: nat, log: set<LogEvent>, batch: seq<LogEvent>, x: LogEvent)
    requires Runs(Init(), interval, es)
    requires var s := Run(Init(), interval, es);
             && tick in s.active && s.active[tick].Asking?
             && x in s.mirrored && x in log && CompleteFrom(log, s.active[tick].since, batch)
    ensures var s := Run(Init(), interval, es);
            x in Kept(batch) <==> s.watermark == Some(x.occurredAt)
  {
    hide Serial, Kept;
    InitIsSerial();
    SerialEquivalence(Init(), interval, es);
    ReinsertedExactly(Run(Init(), interval, es).history, log, batch, x);
  }

  // -------------------------------------------------------- a run that repeats one

  /** A tick answered with `e`, then `n` ticks answered with `x`. */
  function RepeatingRun(e: LogEvent, x: LogEvent, n: nat): seq<Event> {
    if n == 0 then TickEvents(0, e) else RepeatingRun(e, x, n - 1) + TickEvents(n, x)
  }

  function RepeatingHistory(e: LogEvent, x: LogEvent, n: nat): seq<Ended> {
    if n == 0 then [Ended(0, None, Completed([e]))]
    else RepeatingHistory(e, x, n - 1) + [Ended(n, Some(x.occurredAt), Completed([x]))]
  }

  /** The worker can mirror one event any number of times: an event stamped one past the
      first tick's newest is inserted by every later tick, each answered completely
      from the two-event log, and the watermark never moves past it. */
  lemma {:induction false} WatermarkEventRepeats(interval: int, e: LogEvent, x: LogEvent, n: nat)
    requires Mirrorable(e) && Mirrorable(x) && x.occurredAt == e.occurredAt + 1
    ensures CompleteFrom({e, x}, Some(x.occurredAt), [x])
    ensures var es := RepeatingRun(e, x, n);
            && Runs(Init(), interval, es)
            && var s := Run(Init(), interval, es);
               && Quiet(s) && s.calls == n + 1 && s.history == RepeatingHistory(e, x, n)
               && s.watermark == Some(x.occurredAt)
               && multiset(s.mirrored)[x] == n
    decreases n
  {
    hide Run, Runs, TickEvents;
    if n == 0 {
      QuietTick(Init(), interval, e);
    } else {
      WatermarkEventRepeats(interval, e, x, n - 1);
      var s := Run(Init(), interval, RepeatingRun(e, x, n - 1));
      QuietTick(s, interval, x);
      RunConcat(Init(), interval, RepeatingRun(e, x, n - 1), TickEvents(n, x));
    }
  }
}
