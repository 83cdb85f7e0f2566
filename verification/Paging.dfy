/** The console's audit log: an append-only table read page by page through an id
    cursor, while rows keep being appended. */
module Paging {
  import opened Prelude

  datatype Row = Row(id: nat, body: string)

  const PAGE_SIZE: nat := 50

  // --------------------------------------------------------------- the table

  /** Ids are handed out in increasing order, so the table is kept in id order. */
  ghost predicate Ascending(table: seq<Row>) {
    forall i, j :: 0 <= i < j < |table| ==> table[i].id < table[j].id
  }

  /** `where id < before`. */
  function Below(table: seq<Row>, before: nat): seq<Row> {
    if table == [] then []
    else Below(table[..|table| - 1], before)
         + if table[|table| - 1].id < before then [table[|table| - 1]] else []
  }

  /** `order by id desc` of a table in id order. */
  function Newest(table: seq<Row>): seq<Row> {
    seq(|table|, i requires 0 <= i < |table| => table[|table| - 1 - i])
  }

  function Take(rows: seq<Row>, limit: nat): seq<Row> {
    if |rows| <= limit then rows else rows[..limit]
  }

  function ListRecent(table: seq<Row>, before: Option<nat>, limit: nat): seq<Row> {
    Take(Newest(if before.Some? then Below(table, before.value) else table), limit)
  }

  // ---------------------------------------------------------------- the page

  /** The component's state. */
  datatype View = View(events: seq<Row>, cursor: Option<nat>, loading: bool, failed: bool)

  function LastId(rows: seq<Row>): Option<nat> {
    if rows == [] then None else Some(rows[|rows| - 1].id)
  }

  function Begin(v: View): View {
    v.(loading := true, failed := false)
  }

  function FirstPageArrives(v: View, rows: seq<Row>): View {
    v.(events := rows, cursor := LastId(rows), loading := false)
  }

  function OlderPageArrives(v: View, rows: seq<Row>): View {
    v.(events := v.events + rows, cursor := LastId(rows), loading := false)
  }

  function LoadFails(v: View): View {
    v.(loading := false, failed := true)
  }

  // ------------------------------------------------- page, server and appenders

  /** A load under way: sent, or answered from the table as the server found it. */
  datatype Pending =
    | Idle
    | Sent(older: bool, before: Option<nat>)
    | Answered(older: bool, before: Option<nat>, rows: seq<Row>, read: seq<Row>)

  /** `snapshot` is the table as the first page now shown was read from it. */
  datatype State = State(table: seq<Row>, view: View, pending: Pending, snapshot: Option<seq<Row>>)

  datatype Event =
    | Append(row: Row)
    | Click(older: bool)
    | ServerReads
    | Deliver
    | Fail

  function Init(table: seq<Row>): State {
    State(table, View([], None, false, false), Idle, None)
  }

  predicate Enabled(s: State, e: Event) {
    match e
    case Append(row) => |s.table| > 0 ==> s.table[|s.table| - 1].id < row.id
    case Click(_) => !s.view.loading
    case ServerReads => s.pending.Sent?
    case Deliver => s.pending.Answered?
    case Fail => !s.pending.Idle?
  }

  function Step(s: State, e: Event): State
    requires Enabled(s, e)
  {
    match e
    case Append(row) => s.(table := s.table + [row])
    case Click(older) =>
      if older && s.view.cursor.None? then s
      else s.(view := Begin(s.view), pending := Sent(older, if older then s.view.cursor else None))
    case ServerReads =>
      s.(pending := Answered(s.pending.older, s.pending.before,
                             ListRecent(s.table, s.pending.before, PAGE_SIZE), s.table))
    case Deliver =>
      if s.pending.older then s.(view := OlderPageArrives(s.view, s.pending.rows), pending := Idle)
      else s.(view := FirstPageArrives(s.view, s.pending.rows), pending := Idle,
              snapshot := Some(s.pending.read))
    case Fail => s.(view := LoadFails(s.view), pending := Idle)
  }

  predicate Runs(s: State, es: seq<Event>)
    decreases |es|
  {
    es == [] || (Enabled(s, es[0]) && Runs(Step(s, es[0]), es[1..]))
  }

  function Run(s: State, es: seq<Event>): State
    requires Runs(s, es)
    decreases |es|
  {
    if es == [] then s else Run(Step(s, es[0]), es[1..])
  }

  // ------------------------------------------------------------- what is shown

  /** The shown rows are the newest rows of the snapshot, newest first, without gap
      or repeat, and the cursor is the last of them; with no cursor, or with too
      few rows for the "Older" button, they are the whole snapshot. */
  ghost predicate ShowsSnapshot(s: State) {
    match s.snapshot
    case None => s.view.events == [] && s.view.cursor == None
    case Some(snap) =>
      && snap <= s.table
      && |s.view.events| <= |snap|
      && s.view.events == Newest(snap)[..|s.view.events|]
      && (s.view.cursor.Some? ==> s.view.cursor == LastId(s.view.events))
      && (s.view.cursor.None? || |s.view.events| < PAGE_SIZE ==> s.view.events == Newest(snap))
  }

  ghost predicate Inv(s: State) {
    && Ascending(s.table)
    && ShowsSnapshot(s)
    && (s.view.loading <==> !s.pending.Idle?)
    && (!s.pending.Idle? ==> s.pending.before == if s.pending.older then s.view.cursor else None)
    && (!s.pending.Idle? && s.pending.older ==> s.pending.before.Some?)
    && (s.pending.Answered? ==>
          s.pending.read <= s.table && s.pending.rows == ListRecent(s.pending.read, s.pending.before, PAGE_SIZE)
          && (s.pending.older ==> s.snapshot.Some? && s.snapshot.value <= s.pending.read))
  }

  lemma {:induction false} BelowIsPrefix(table: seq<Row>, k: nat)
    requires Ascending(table) && k < |table|
    ensures Below(table, table[k].id) == table[..k]
    decreases |table|
  {
    var n := |table| - 1;
    var init := table[..n];
    if k < n {
      assert init[k] == table[k];
      BelowIsPrefix(init, k);
      assert init[..k] == table[..k];
    } else {
      BelowAll(init, table[n].id);
    }
  }

  lemma {:induction false} BelowAll(table: seq<Row>, before: nat)
    requires forall i :: 0 <= i < |table| ==> table[i].id < before
    ensures Below(table, before) == table
    decreases |table|
  {
    if table != [] {
      BelowAll(table[..|table| - 1], before);
    }
  }

  /** The page after `n` shown rows of a snapshot, read from any longer table, is the
      next stretch of that snapshot. */
  lemma NextStretch(snap: seq<Row>, table: seq<Row>, n: nat, limit: nat)
    requires Ascending(table) && snap <= table && 0 < n <= |snap|
    ensures var more := ListRecent(table, Some(Newest(snap)[n - 1].id), limit);
            && |more| == (if |snap| - n <= limit then |snap| - n else limit)
            && Newest(snap)[..n] + more == Newest(snap)[..n + |more|]
  {
    var k := |snap| - n;
    assert Newest(snap)[n - 1] == table[k];
    BelowIsPrefix(table, k);
    assert table[..k] == snap[..k];
    NewestSplit(snap, n);
  }

  lemma NewestSplit(snap: seq<Row>, n: nat)
    requires n <= |snap|
    ensures Newest(snap)[n..] == Newest(snap[..|snap| - n])
    ensures forall m: nat :: n + m <= |snap| ==> Newest(snap)[..n] + Newest(snap)[n..][..m] == Newest(snap)[..n + m]
  {
  }

  lemma FirstPageShows(snap: seq<Row>, limit: nat)
    ensures var rows := ListRecent(snap, None, limit);
            && |rows| == (if |snap| <= limit then |snap| else limit)
            && rows == Newest(snap)[..|rows|]
  {
  }

  lemma OlderPageKeepsInv(s: State)
    requires Inv(s) && s.pending.Answered? && s.pending.older
    ensures Inv(Step(s, Deliver))
  {
    var snap, n := s.snapshot.value, |s.view.events|;
    assert s.view.cursor == Some(Newest(snap)[n - 1].id);
    NextStretch(snap, s.pending.read, n, PAGE_SIZE);
    assert Newest(snap)[..|snap|] == Newest(snap);
  }

  lemma FirstPageKeepsInv(s: State)
    requires Inv(s) && s.pending.Answered? && !s.pending.older
    ensures Inv(Step(s, Deliver))
  {
    FirstPageShows(s.pending.read, PAGE_SIZE);
    assert Newest(s.pending.read)[..|s.pending.read|] == Newest(s.pending.read);
  }

  lemma StepKeepsInv(s: State, e: Event)
    requires Inv(s) && Enabled(s, e)
    ensures Inv(Step(s, e))
  {
    if e.Deliver? {
      if s.pending.older {
        OlderPageKeepsInv(s);
      } else {
        FirstPageKeepsInv(s);
      }
    }
  }

  /** For any interleaving of appends, failed loads and page loads that do not
      overlap, the page shows what `ShowsSnapshot` says. */
  lemma {:induction false} PagesNeverSkipOrRepeat(s: State, es: seq<Event>)
    requires Inv(s) && Runs(s, es)
    ensures Inv(Run(s, es))
    decreases |es|
  {
    if es != [] {
      StepKeepsInv(s, es[0]);
      PagesNeverSkipOrRepeat(Step(s, es[0]), es[1..]);
    }
  }

  lemma InitShowsNothing(table: seq<Row>)
    requires Ascending(table)
    ensures Inv(Init(table))
  {
  }

  /** From a fresh page on, in every run: the shown rows are rows of one snapshot of
      the table, in strictly falling id order, and every row of that snapshot at or
      above the last shown id is among them. */
  lemma ShownFromTheStart(table: seq<Row>, es: seq<Event>)
    requires Ascending(table) && Runs(Init(table), es)
    ensures var s := Run(Init(table), es); var shown := s.view.events;
            && (forall i, j :: 0 <= i < j < |shown| ==> shown[i].id > shown[j].id)
            && (shown != [] ==>
                  && s.snapshot.Some? && s.snapshot.value <= s.table
                  && forall r :: r in shown <==> r in s.snapshot.value && r.id >= shown[|shown| - 1].id)
  {
    InitShowsNothing(table);
    PagesNeverSkipOrRepeat(Init(table), es);
    var s := Run(Init(table), es);
    if s.snapshot.Some? {
      StretchHolds(s.snapshot.value, s.table, |s.view.events|);
    }
  }

  lemma StretchHolds(snap: seq<Row>, table: seq<Row>, n: nat)
    requires Ascending(table) && snap <= table && n <= |snap|
    ensures var shown := Newest(snap)[..n];
            && (forall i, j :: 0 <= i < j < n ==> shown[i].id > shown[j].id)
            && (n > 0 ==> forall r :: r in shown <==> r in snap && r.id >= shown[n - 1].id)
  {
    var shown := Newest(snap)[..n];
    assert forall i :: 0 <= i < n ==> shown[i] == table[|snap| - 1 - i];
    if n > 0 {
      assert forall i :: 0 <= i < |snap| ==> snap[i] == table[i];
      forall r
        ensures r in shown <==> r in snap && r.id >= shown[n - 1].id
      {
        StretchHoldsRow(snap, shown, r);
      }
    }
  }

  lemma StretchHoldsRow(snap: seq<Row>, shown: seq<Row>, r: Row)
    requires Ascending(snap) && 0 < |shown| <= |snap|
    requires forall i :: 0 <= i < |shown| ==> shown[i] == snap[|snap| - 1 - i]
    ensures r in shown <==> r in snap && r.id >= shown[|shown| - 1].id
  {
    if r in shown {
      var i :| 0 <= i < |shown| && shown[i] == r;
      assert snap[|snap| - 1 - i] == r;
    }
    if r in snap && r.id >= shown[|shown| - 1].id {
      var k :| 0 <= k < |snap| && snap[k] == r;
      assert shown[|snap| - 1 - k] == r;
    }
  }

  /** A first page that arrives shows the newest rows of the table as the server read it,
      fifty of them or all, whatever was shown before. */
  lemma FirstPageProgress(s: State)
    requires Inv(s) && s.pending.Answered? && !s.pending.older
    ensures var t := Step(s, Deliver); var n := |s.pending.read|;
            && t.snapshot == Some(s.pending.read)
            && |t.view.events| == (if n <= 50 then n else 50)
            && (forall i :: 0 <= i < |t.view.events| ==> t.view.events[i] == s.pending.read[n - 1 - i])
            && t.view.cursor == (if n == 0 then None else Some(t.view.events[|t.view.events| - 1].id))
  {
    FirstPageShows(s.pending.read, PAGE_SIZE);
  }

  /** A click asks for what it says, once; the server answers from the table it then has. */
  lemma LoadReadsTheTable(s: State, older: bool)
    requires Inv(s) && Enabled(s, Click(older))
    ensures var t := Step(s, Click(older));
            if older && s.view.cursor.None? then t == s
            else
              && t.view == s.view.(loading := true, failed := false) && t.table == s.table
              && t.pending == Sent(older, if older then s.view.cursor else None)
              && var u := Step(t, ServerReads); u.pending.Answered? && u.pending.older == older && u.pending.read == s.table
  {
  }

  /** A failed load leaves everything but its mark, and the page may be clicked again. */
  lemma FailureOnlyMarks(s: State, older: bool)
    requires Inv(s) && Enabled(s, Fail)
    ensures Step(s, Fail) == s.(view := s.view.(loading := false, failed := true), pending := Idle)
    ensures Enabled(Step(s, Fail), Click(older))
  {
  }

  /** Every older page that arrives extends the list by a full page, or to the end of
      the snapshot; once there, the next one clears the cursor. */
  lemma OlderPageProgress(s: State)
    requires Inv(s) && s.pending.Answered? && s.pending.older
    ensures var t := Step(s, Deliver); var left := |s.snapshot.value| - |s.view.events|;
            && t.snapshot == s.snapshot
            && |t.view.events| == |s.view.events| + (if left <= 50 then left else 50)
            && s.view.events <= t.view.events
            && (t.view.cursor.None? <==> left == 0)
  {
    var snap, n := s.snapshot.value, |s.view.events|;
    assert s.view.cursor == Some(Newest(snap)[n - 1].id);
    NextStretch(snap, s.pending.read, n, PAGE_SIZE);
  }

  // --------------------------------------------------------------- the component

  /** The component, with the machine state it stands for as long as its loads do not
      overlap and the server answers what it read. */
  class AuditPage {
    var events: seq<Row>
    var cursor: Option<nat>
    var loading: bool
    var failed: bool
    ghost var state: State

    ghost function Seen(): View
      reads this
    {
      View(events, cursor, loading, failed)
    }

    ghost predicate Valid()
      reads this
    {
      state.view == Seen() && Inv(state)
    }

    constructor (ghost table: seq<Row>)
      requires Ascending(table)
      ensures Valid() && state == Init(table)
    {
      events, cursor, loading, failed := [], None, false, false;
      state := Init(table);
      new;
      InitShowsNothing(table);
    }

    /** What happens around the component: a row is appended, or the server reads. */
    ghost method Outside(e: Event)
      requires Valid() && Enabled(state, e) && (e.Append? || e.ServerReads?)
      modifies this`state
      ensures Valid() && state == Step(old(state), e)
    {
      StepKeepsInv(state, e);
      state := Step(state, e);
    }

    /** `_loadFirstPage` and `_loadOlder` up to the request; no request is sent when
        an older page is asked for without a cursor. */
    method Load(older: bool) returns (sent: bool, before: Option<nat>)
      modifies this
      ensures sent == !(older && old(cursor).None?)
      ensures Seen() == if sent then Begin(old(Seen())) else old(Seen())
      ensures sent ==> loading && !failed && events == old(events) && cursor == old(cursor)
      ensures sent ==> before == if older then old(cursor) else None
      ensures old(Valid() && !loading) ==> Valid() && state == Step(old(state), Click(older))
    {
      ghost var s := state;
      if Valid() && !loading {
        StepKeepsInv(s, Click(older));
        state := Step(s, Click(older));
      }
      before := None;
      sent := true;
      if older {
        if cursor.None? {
          return false, None;
        }
        before := cursor;
      }
      loading := true;
      failed := false;
    }

    /** `rows` is what the server answered to the load under way. */
    ghost predicate Awaits(older: bool, rows: seq<Row>)
      reads this
    {
      Valid() && state.pending.Answered? && state.pending.older == older && state.pending.rows == rows
    }

    method Arrived(older: bool, rows: seq<Row>)
      modifies this
      ensures Seen() == if older then OlderPageArrives(old(Seen()), rows) else FirstPageArrives(old(Seen()), rows)
      ensures events == (if older then old(events) else []) + rows && !loading && failed == old(failed)
      ensures cursor == if rows == [] then None else Some(rows[|rows| - 1].id)
      ensures old(Awaits(older, rows)) ==> Valid() && state == Step(old(state), Deliver)
    {
      if Awaits(older, rows) {
        StepKeepsInv(state, Deliver);
        state := Step(state, Deliver);
      }
      if older {
        events := events + rows;
        cursor := if |rows| > 0 then Some(rows[|rows| - 1].id) else None;
      } else {
        events := rows;
        cursor := if |events| > 0 then Some(events[|events| - 1].id) else None;
      }
      loading := false;
    }

    method Failed()
      modifies this
      ensures Seen() == LoadFails(old(Seen()))
      ensures failed && !loading && events == old(events) && cursor == old(cursor)
      ensures old(Valid() && loading) ==> Valid() && state == Step(old(state), Fail)
    {
      if Valid() && loading {
        StepKeepsInv(state, Fail);
        state := Step(state, Fail);
      }
      failed := true;
      loading := false;
    }
  }
}
