/** What the per-orch drilldown reads back from the mirror table. */
module MirrorRead {
  import opened Prelude
  import opened AuditPoll

  // ------------------------------------------------------- listRecentForOrch

  /** A row as the query returns it, with its id. */
  datatype Stored = Stored(id: nat, row: Row)

  ghost predicate InTable(table: seq<Row>, x: Stored) {
    x.id < |table| && table[x.id] == x.row
  }

  function InsertByDate(rows: seq<Stored>, x: Stored): seq<Stored> {
    if rows == [] || x.row.observedAt >= rows[0].row.observedAt then [x] + rows
    else [rows[0]] + InsertByDate(rows[1..], x)
  }

  /** `where orch_address = orch order by observed_at desc`, on the first `n` rows. */
  function Matching(table: seq<Row>, orch: string, n: nat): seq<Stored>
    requires n <= |table|
  {
    if n == 0 then []
    else if table[n - 1].orchAddress == orch then
      InsertByDate(Matching(table, orch, n - 1), Stored(n - 1, table[n - 1]))
    else Matching(table, orch, n - 1)
  }

  function ListRecentForOrch(table: seq<Row>, orch: string, limit: nat): seq<Stored> {
    var all := Matching(table, orch, |table|);
    if |all| <= limit then all else all[..limit]
  }

  ghost predicate NewestFirst(rows: seq<Stored>) {
    forall i, j :: 0 <= i < j < |rows| ==>
      rows[i].row.observedAt >= rows[j].row.observedAt && rows[i] != rows[j]
  }

  /** What the query promises: distinct rows of `orch`, newest first, as many as the
      limit allows, none left out while an older one is listed.  Rows of equal
      date may come in any order. */
  ghost predicate IsListing(table: seq<Row>, orch: string, limit: nat, rows: seq<Stored>) {
    && |rows| <= limit && NewestFirst(rows)
    && (forall x :: x in rows ==> InTable(table, x) && x.row.orchAddress == orch)
    && (forall x :: InTable(table, x) && x.row.orchAddress == orch && x !in rows ==>
          |rows| == limit && forall y :: y in rows ==> y.row.observedAt >= x.row.observedAt)
  }

  lemma {:induction false} InsertKeepsOrder(rows: seq<Stored>, x: Stored)
    requires NewestFirst(rows) && x !in rows
    ensures NewestFirst(InsertByDate(rows, x))
    ensures forall y :: y in InsertByDate(rows, x) <==> y in rows || y == x
    decreases |rows|
  {
    if rows != [] && x.row.observedAt < rows[0].row.observedAt {
      var rest := InsertByDate(rows[1..], x);
      assert rows == [rows[0]] + rows[1..];
      InsertKeepsOrder(rows[1..], x);
      forall j | 0 <= j < |rest|
        ensures rows[0].row.observedAt >= rest[j].row.observedAt && rest[j] != rows[0]
      {
        assert rest[j] in rest;
      }
    }
  }

  lemma {:induction false} MatchingIsOrdered(table: seq<Row>, orch: string, n: nat)
    requires n <= |table|
    ensures NewestFirst(Matching(table, orch, n))
    ensures forall x :: x in Matching(table, orch, n)
              <==> x.id < n && InTable(table, x) && x.row.orchAddress == orch
    decreases n
  {
    if n > 0 {
      MatchingIsOrdered(table, orch, n - 1);
      if table[n - 1].orchAddress == orch {
        InsertKeepsOrder(Matching(table, orch, n - 1), Stored(n - 1, table[n - 1]));
      }
    }
  }

  lemma FirstOfOrdered(all: seq<Stored>, limit: nat)
    requires NewestFirst(all) && limit < |all|
    ensures NewestFirst(all[..limit])
    ensures forall x :: x in all[..limit] ==> x in all
    ensures forall x, y :: x in all && x !in all[..limit] && y in all[..limit] ==> y.row.observedAt >= x.row.observedAt
  {
    forall x, y | x in all && x !in all[..limit] && y in all[..limit]
      ensures y.row.observedAt >= x.row.observedAt
    {
      var j :| 0 <= j < |all| && all[j] == x;
      var i :| 0 <= i < limit && all[..limit][i] == y;
    }
  }

  lemma ListRecentIsListing(table: seq<Row>, orch: string, limit: nat)
    ensures IsListing(table, orch, limit, ListRecentForOrch(table, orch, limit))
  {
    MatchingIsOrdered(table, orch, |table|);
    var all := Matching(table, orch, |table|);
    if limit < |all| {
      FirstOfOrdered(all, limit);
    }
  }

  // ---------------------------------------------------------- lastObservedAt

  /** `recentObservations[0]?.observedAt ?? null`. */
  function LastObservedAt(rows: seq<Stored>): Option<int> {
    if rows == [] then None else Some(rows[0].row.observedAt)
  }

  lemma FirstListedIsGreatest(table: seq<Row>, orch: string, limit: nat, rows: seq<Stored>, k: nat)
    requires limit > 0 && IsListing(table, orch, limit, rows) && k < |table| && table[k].orchAddress == orch
    ensures rows != [] && table[k].observedAt <= rows[0].row.observedAt
  {
    var x := Stored(k, table[k]);
    assert InTable(table, x);
    if x in rows {
      var j :| 0 <= j < |rows| && rows[j] == x;
    } else {
      assert rows[0] in rows;
    }
  }

  /** The greatest timestamp ever mirrored for the orch that `orch` spells in lower case. */
  ghost predicate GreatestMirrored(mirrored: seq<LogEvent>, orch: string, at: Option<int>) {
    match at
    case None => forall e :: e in mirrored ==> !For(e, orch)
    case Some(m) =>
      && (exists e :: e in mirrored && For(e, orch) && e.occurredAt == m)
      && (forall e :: e in mirrored && For(e, orch) ==> e.occurredAt <= m)
  }

  predicate For(e: LogEvent, orch: string) {
    e.orchAddress.Some? && ToLower(e.orchAddress.value) == orch
  }

  /** Row `x` shows event `e` in full. */
  ghost predicate Shows(x: Stored, e: LogEvent) {
    && x.row.observedAt == e.occurredAt
    && e.orchAddress.Some? && x.row.orchAddress == ToLower(e.orchAddress.value)
    && x.row.details.kind == e.kind && x.row.details.mode == e.mode && x.row.details.detail == e.detail
  }

  /** Over every run a listing shows mirrored events of the orch, each under its own id,
      and leaves one out only if the limit is reached with rows at least as new. */
  lemma ListingShowsTheEvents(interval: int, es: seq<Event>, orch: string, limit: nat, rows: seq<Stored>)
    requires Runs(Init(), interval, es)
    requires IsListing(Observations(Run(Init(), interval, es).mirrored), orch, limit, rows)
    ensures var mirrored := Run(Init(), interval, es).mirrored;
            && (forall x :: x in rows ==> x.id < |mirrored| && Shows(x, mirrored[x.id]) && For(mirrored[x.id], orch))
            && (forall i :: 0 <= i < |mirrored| && For(mirrored[i], orch) ==>
                  || (exists x :: x in rows && x.id == i)
                  || (|rows| == limit && forall y :: y in rows ==> y.row.observedAt >= mirrored[i].occurredAt))
  {
    hide Serial, Kept, MaxAt, AsksFromWatermark, NewestFirst;
    InitIsSerial();
    SerialEquivalence(Init(), interval, es);
    var s := Run(Init(), interval, es);
    forall x | x in rows
      ensures x.id < |s.mirrored| && Shows(x, s.mirrored[x.id]) && For(s.mirrored[x.id], orch)
    {
      assert InTable(Observations(s.mirrored), x);
      AllMirrorable(s, x.id);
    }
    forall i | 0 <= i < |s.mirrored| && For(s.mirrored[i], orch)
      ensures || (exists x :: x in rows && x.id == i)
              || (|rows| == limit && forall y :: y in rows ==> y.row.observedAt >= s.mirrored[i].occurredAt)
    {
      assert InTable(Observations(s.mirrored), Stored(i, Observations(s.mirrored)[i]));
    }
  }

  /** Over every run of the worker from an empty table: for a lower-case address the
      `lastObservedAt` of `getOrch` is the greatest timestamp ever mirrored for that
      orch, although the query is limited, and while no tick is between its insert
      and its end it does not exceed the watermark. */
  lemma LastObservedIsGreatest(interval: int, es: seq<Event>, orch: string, limit: nat, rows: seq<Stored>)
    requires Runs(Init(), interval, es) && limit > 0
    requires IsListing(Observations(Run(Init(), interval, es).mirrored), orch, limit, rows)
    ensures var s := Run(Init(), interval, es); var at := LastObservedAt(rows);
            && GreatestMirrored(s.mirrored, orch, at)
            && (at.Some? && (forall t :: t in s.active ==> !s.active[t].Inserted?) ==>
                  s.watermark.Some? && at.value <= s.watermark.value)
  {
    InitIsSerial();
    SerialEquivalence(Init(), interval, es);
    var s := Run(Init(), interval, es);
    var table := Observations(s.mirrored);
    forall e | e in s.mirrored && For(e, orch)
      ensures rows != [] && e.occurredAt <= rows[0].row.observedAt
    {
      var k :| 0 <= k < |s.mirrored| && s.mirrored[k] == e;
      FirstListedIsGreatest(table, orch, limit, rows, k);
    }
    if rows != [] {
      assert rows[0] in rows && InTable(table, rows[0]);
      var e := s.mirrored[rows[0].id];
      AllMirrorable(s, rows[0].id);
      assert e in s.mirrored && For(e, orch) && e.occurredAt == rows[0].row.observedAt;
      if forall t :: t in s.active ==> !s.active[t].Inserted? {
        assert s.mirrored == Serial(s.history).mirrored;
        MirroredUpToWatermark(s.history, e);
      }
    }
  }

  /** Exactly when it exceeds the watermark: when a tick is suspended after inserting an
      event of that orch that is newer than the watermark. */
  lemma ExceedsWatermarkExactly(interval: int, es: seq<Event>, orch: string, limit: nat, rows: seq<Stored>)
    requires Runs(Init(), interval, es) && limit > 0
    requires IsListing(Observations(Run(Init(), interval, es).mirrored), orch, limit, rows)
    ensures var s := Run(Init(), interval, es); var at := LastObservedAt(rows);
            (at.Some? && at.value > Floor(s.watermark)) <==>
              exists t, e :: t in s.active && s.active[t].Inserted? && e in Kept(s.active[t].batch)
                && For(e, orch) && e.occurredAt > Floor(s.watermark)
  {
    hide Serial, Kept, MaxAt, AsksFromWatermark, IsListing;
    InitIsSerial();
    SerialEquivalence(Init(), interval, es);
    LastObservedIsGreatest(interval, es, orch, limit, rows);
    var s := Run(Init(), interval, es);
    var at := LastObservedAt(rows);
    if at.Some? && at.value > Floor(s.watermark) {
      var e :| e in s.mirrored && For(e, orch) && e.occurredAt == at.value;
      if e in Serial(s.history).mirrored {
        MirroredUpToWatermark(s.history, e);
        assert false;
      }
      var t :| t in s.active;
      assert e in Ahead(s.active[t]);
    }
  }

  /** A run in which it does, with a watermark already in force: a second tick has
      inserted `x` and not yet ended. */
  lemma InsertRunsAhead(interval: int, e: LogEvent, x: LogEvent, limit: nat, rows: seq<Stored>)
    requires Mirrorable(e) && Mirrorable(x) && x.occurredAt > e.occurredAt + 1 && limit > 0
    requires IsListing(Observations([e, x]), ToLower(x.orchAddress.value), limit, rows)
    ensures var es := TickEvents(0, e) + [RunOnce, Answer(1, [x], true)];
            && Runs(Init(), interval, es)
            && var s := Run(Init(), interval, es);
               && s.mirrored == [e, x] && s.watermark == Some(e.occurredAt + 1)
               && LastObservedAt(rows) == Some(x.occurredAt)
               && LastObservedAt(rows).value > s.watermark.value
  {
    hide IsListing;
    AheadRun(interval, e, x);
    var orch := ToLower(x.orchAddress.value);
    var es := TickEvents(0, e) + [RunOnce, Answer(1, [x], true)];
    LastObservedIsGreatest(interval, es, orch, limit, rows);
    assert [e, x][1] == x && For(x, orch);
    assert forall y :: y in [e, x] ==> y.occurredAt <= x.occurredAt;
  }

  lemma AheadRun(interval: int, e: LogEvent, x: LogEvent)
    requires Mirrorable(e) && Mirrorable(x) && x.occurredAt > e.occurredAt + 1
    ensures var es := TickEvents(0, e) + [RunOnce, Answer(1, [x], true)];
            && Runs(Init(), interval, es)
            && Run(Init(), interval, es).mirrored == [e, x]
            && Run(Init(), interval, es).watermark == Some(e.occurredAt + 1)
  {
    hide Kept, MaxAt, TickEvents;
    QuietTick(Init(), interval, e);
    SingleBatch(x, e.occurredAt + 1);
    var s := Run(Init(), interval, TickEvents(0, e));
    var fs := [RunOnce, Answer(1, [x], true)];
    var s1 := Step(s, interval, fs[0]);
    var s2 := Step(s1, interval, fs[1]);
    assert fs[1..] == [fs[1]] && fs[1..][1..] == [];
    assert Runs(s2, interval, []) && Runs(s1, interval, fs[1..]) && Runs(s, interval, fs);
    assert Run(s, interval, fs) == Run(s1, interval, fs[1..]) == s2;
    RunConcat(Init(), interval, TickEvents(0, e), fs);
    assert s2.mirrored == [] + [e] + [x] == [e, x];
  }

  lemma AheadIsMirrorable(p: Phase, e: LogEvent)
    requires e in Ahead(p)
    ensures Mirrorable(e)
  {
    KeptAre(p.batch, e);
  }

  lemma AllMirrorable(s: State, k: nat)
    requires SerialSoFar(s) && k < |s.mirrored|
    ensures Mirrorable(s.mirrored[k])
  {
    hide Serial, Kept, MaxAt, AsksFromWatermark, Ahead, Mirrorable;
    var m := Serial(s.history).mirrored;
    if s.mirrored[k] in m {
      MirroredAreMirrorable(s.history, s.mirrored[k]);
    } else {
      var t :| t in s.active;
      assert s.mirrored[k] in m + Ahead(s.active[t]);
      AheadIsMirrorable(s.active[t], s.mirrored[k]);
    }
  }

  /** Over every run, the drilldown of an address in any spelling finds that orch's newest
      mirrored event exactly when the address is in lower case or there is none. */
  lemma DrilldownFindsExactly(interval: int, es: seq<Event>, orch: string, limit: nat, rows: seq<Stored>)
    requires Runs(Init(), interval, es) && limit > 0
    requires IsListing(Observations(Run(Init(), interval, es).mirrored), orch, limit, rows)
    ensures var mirrored := Run(Init(), interval, es).mirrored; var own := ToLower(orch);
            GreatestMirrored(mirrored, own, LastObservedAt(rows))
            <==> own == orch || forall e :: e in mirrored ==> !For(e, own)
  {
    hide IsListing, Run, For;
    if ToLower(orch) == orch {
      LastObservedIsGreatest(interval, es, orch, limit, rows);
    } else {
      MixedCaseFindsNothing(Run(Init(), interval, es).mirrored, orch, limit, rows);
    }
  }

  /** The query compares addresses exactly and the mirror stores them in lower case,
      so an address with any capital letter finds nothing. */
  lemma MixedCaseFindsNothing(mirrored: seq<LogEvent>, orch: string, limit: nat, rows: seq<Stored>)
    requires ToLower(orch) != orch && IsListing(Observations(mirrored), orch, limit, rows)
    ensures rows == []
  {
    if rows != [] {
      assert rows[0] in rows && InTable(Observations(mirrored), rows[0]);
      var e := mirrored[rows[0].id];
      ToLowerIdempotent(if e.orchAddress.Some? then e.orchAddress.value else "");
      assert false;
    }
  }
}
