/** The single-flight TTL cache as a step machine over a clock, a store and
    the loads ever started.  A load stands for one entry object together with
    its promise; its expiry is fixed at `begun + ttl`.

    A failing load removes whatever its key maps to, which need not be its own
    entry; a succeeding load writes only to itself. */
module CacheMachine {

  datatype Status<+V> = Loading | Loaded(value: V) | Failed

  datatype Load<+V> = Load(key: string, begun: int, status: Status<V>)

  datatype State<+V> = State(now: int, store: map<string, nat>, loads: seq<Load<V>>)

  datatype Event<+V> =
    | Call(key: string)
    | Succeed(id: nat, value: V)
    | Fail(id: nat)
    | Advance(elapsed: nat)

  function Init<V>(now: int): State<V> {
    State(now, map[], [])
  }

  // ---------------------------------------------------------------- one step

  predicate Fresh<V>(s: State<V>, ttl: int, id: nat)
    requires id < |s.loads|
  {
    s.loads[id].begun + ttl > s.now
  }

  /** The store answers a call for `k` without starting a load. */
  predicate Hit<V>(s: State<V>, ttl: int, k: string) {
    k in s.store && s.store[k] < |s.loads| && Fresh(s, ttl, s.store[k])
  }

  /** The load whose outcome a call for `k` made in `s` will hand back. */
  function Served<V>(s: State<V>, ttl: int, k: string): nat {
    if Hit(s, ttl, k) then s.store[k] else |s.loads|
  }

  function Begin<V>(s: State<V>, ttl: int, k: string): State<V> {
    if Hit(s, ttl, k) then s
    else s.(store := s.store[k := |s.loads|], loads := s.loads + [Load(k, s.now, Loading)])
  }

  predicate Pending<V>(s: State<V>, id: nat) {
    id < |s.loads| && s.loads[id].status.Loading?
  }

  predicate Enabled<V>(s: State<V>, e: Event<V>) {
    match e
    case Succeed(id, _) => Pending(s, id)
    case Fail(id) => Pending(s, id)
    case _ => true
  }

  function Settle<V>(s: State<V>, id: nat, status: Status<V>): State<V>
    requires id < |s.loads|
  {
    s.(loads := s.loads[id := s.loads[id].(status := status)])
  }

  function Step<V>(s: State<V>, ttl: int, e: Event<V>): State<V>
    requires Enabled(s, e)
  {
    match e
    case Call(k) => Begin(s, ttl, k)
    case Succeed(id, v) => Settle(s, id, Loaded(v))
    case Fail(id) => Settle(s, id, Failed).(store := s.store - {s.loads[id].key})
    case Advance(elapsed) => s.(now := s.now + elapsed)
  }

  // -------------------------------------------------------------------- runs

  predicate Runs<V>(s: State<V>, ttl: int, es: seq<Event<V>>)
    decreases |es|
  {
    es == [] || (Enabled(s, es[0]) && Runs(Step(s, ttl, es[0]), ttl, es[1..]))
  }

  function Run<V>(s: State<V>, ttl: int, es: seq<Event<V>>): State<V>
    requires Runs(s, ttl, es)
    decreases |es|
  {
    if es == [] then s else Run(Step(s, ttl, es[0]), ttl, es[1..])
  }

  // -------------------------------------------- what every reachable state keeps

  ghost predicate OwnsEntry<V>(s: State<V>, k: string, id: nat) {
    && id < |s.loads|
    && s.loads[id].key == k
    && !s.loads[id].status.Failed?
    && forall j :: id < j < |s.loads| ==> s.loads[j].key != k
  }

  /** Every stored entry belongs to the newest load of its key, which is still
      loading or holds its own value; no load begins in the future. */
  ghost predicate Valid<V>(s: State<V>) {
    && (forall k :: k in s.store ==> OwnsEntry(s, k, s.store[k]))
    && (forall i :: 0 <= i < |s.loads| ==> s.loads[i].begun <= s.now)
  }

  /** The empty cache meets every condition that the run results start from. */
  lemma InitIsSound<V>(now: int, ttl: int)
    ensures Valid(Init<V>(now)) && Exclusive(Init<V>(now)) && FreshIsStored(Init<V>(now), ttl)
  {
  }

  lemma StepKeepsValid<V>(s: State<V>, ttl: int, e: Event<V>)
    requires Valid(s) && Enabled(s, e)
    ensures Valid(Step(s, ttl, e))
  {
    var s' := Step(s, ttl, e);
    forall k | k in s'.store
      ensures OwnsEntry(s', k, s'.store[k])
    {
      if k in s.store {
        assert OwnsEntry(s, k, s.store[k]);
      }
    }
  }

  lemma {:induction false} RunKeepsValid<V>(s: State<V>, ttl: int, es: seq<Event<V>>)
    requires Valid(s) && Runs(s, ttl, es)
    ensures Valid(Run(s, ttl, es))
    decreases |es|
  {
    if es != [] {
      StepKeepsValid(s, ttl, es[0]);
      RunKeepsValid(Step(s, ttl, es[0]), ttl, es[1..]);
    }
  }

  /** `t` is `s` some steps later: the clock has not gone back, no load has been
      forgotten or re-dated, and no settled load has changed its outcome. */
  ghost predicate Later<V>(s: State<V>, t: State<V>) {
    && s.now <= t.now
    && |s.loads| <= |t.loads|
    && forall i :: 0 <= i < |s.loads| ==>
         && t.loads[i].key == s.loads[i].key
         && t.loads[i].begun == s.loads[i].begun
         && (!s.loads[i].status.Loading? ==> t.loads[i].status == s.loads[i].status)
  }

  lemma {:induction false} RunIsLater<V>(s: State<V>, ttl: int, es: seq<Event<V>>)
    requires Runs(s, ttl, es)
    ensures Later(s, Run(s, ttl, es))
    decreases |es|
  {
    if es != [] {
      RunIsLater(Step(s, ttl, es[0]), ttl, es[1..]);
    }
  }

  // ---------------------------------------------------- what a caller is handed

  lemma {:induction false} RunSnoc<V>(s: State<V>, ttl: int, es: seq<Event<V>>)
    requires Runs(s, ttl, es) && es != []
    ensures Runs(s, ttl, es[..|es| - 1])
    ensures var t := Run(s, ttl, es[..|es| - 1]);
            Enabled(t, es[|es| - 1]) && Run(s, ttl, es) == Step(t, ttl, es[|es| - 1])
    decreases |es|
  {
    var rest := es[1..];
    if rest != [] {
      RunSnoc(Step(s, ttl, es[0]), ttl, rest);
      assert es[..|es| - 1][1..] == rest[..|rest| - 1];
      assert rest[|rest| - 1] == es[|es| - 1];
    } else {
      assert es[..|es| - 1] == [] && rest == [];
    }
  }

  /** In every run from the empty cache a load has exactly the outcome that its loader
      had, whatever the store maps its key to: the value once it succeeded, failure once
      it threw, and none before. */
  lemma {:induction false} OutcomeExactly<V>(now: int, ttl: int, es: seq<Event<V>>, id: nat)
    requires Runs(Init<V>(now), ttl, es) && id < |Run(Init<V>(now), ttl, es).loads|
    ensures var status := Run(Init<V>(now), ttl, es).loads[id].status;
            && (forall v :: status == Loaded(v) <==> Succeed(id, v) in es)
            && (status == Failed <==> Fail(id) in es)
            && (status == Loading <==> Fail(id) !in es && forall v :: Succeed(id, v) !in es)
    decreases |es|
  {
    if es != [] {
      var n := |es| - 1;
      var init, e := es[..n], es[n];
      RunSnoc(Init<V>(now), ttl, es);
      assert forall x :: x in es <==> x in init || x == e;
      if id < |Run(Init<V>(now), ttl, init).loads| {
        hide Runs, Run;
        OutcomeExactly(now, ttl, init, id);
      } else {
        NotYetSettled(now, ttl, init, id);
      }
    }
  }

  /** Only a load that was started settles. */
  lemma {:induction false} NotYetSettled<V>(now: int, ttl: int, es: seq<Event<V>>, id: nat)
    requires Runs(Init<V>(now), ttl, es) && id >= |Run(Init<V>(now), ttl, es).loads|
    ensures Fail(id) !in es && forall v :: Succeed(id, v) !in es
    decreases |es|
  {
    if es != [] {
      var n := |es| - 1;
      RunSnoc(Init<V>(now), ttl, es);
      NotYetSettled(now, ttl, es[..n], id);
      assert forall x :: x in es <==> x in es[..n] || x == es[n];
    }
  }

  /** So every caller gets its answer: a call made after `es` is handed, at any point
      after it, exactly the value that the load serving it has returned by then. */
  lemma CallerIsAnswered<V>(now: int, ttl: int, es: seq<Event<V>>, k: string, fs: seq<Event<V>>)
    requires Runs(Init<V>(now), ttl, es) && Runs(Begin(Run(Init<V>(now), ttl, es), ttl, k), ttl, fs)
    ensures var s := Run(Init<V>(now), ttl, es); var t := Run(Begin(s, ttl, k), ttl, fs);
            var id := Served(s, ttl, k);
            && id < |t.loads| && t.loads[id].key == k
            && (forall v :: t.loads[id].status == Loaded(v) <==> Succeed(id, v) in es + fs)
            && (t.loads[id].status == Failed <==> Fail(id) in fs)
  {
    var s, id := Run(Init<V>(now), ttl, es), Served(Run(Init<V>(now), ttl, es), ttl, k);
    var all := es + ([Call(k)] + fs);
    assert ([Call(k)] + fs)[1..] == fs;
    RunConcat(Init<V>(now), ttl, es, [Call(k)] + fs);
    InitIsSound<V>(now, ttl);
    RunKeepsValid(Init<V>(now), ttl, es);
    ServedIsRecent(s, ttl, k);
    RunIsLater(Begin(s, ttl, k), ttl, fs);
    OutcomeExactly(now, ttl, all, id);
    assert forall x :: x in all <==> x in es || x == Call(k) || x in fs;
    if id < |s.loads| {
      OutcomeExactly(now, ttl, es, id);
    } else {
      NotYetSettled(now, ttl, es, id);
    }
  }

  lemma {:induction false} RunConcat<V>(s: State<V>, ttl: int, es: seq<Event<V>>, fs: seq<Event<V>>)
    requires Runs(s, ttl, es) && Runs(Run(s, ttl, es), ttl, fs)
    ensures Runs(s, ttl, es + fs) && Run(s, ttl, es + fs) == Run(Run(s, ttl, es), ttl, fs)
    decreases |es|
  {
    if es == [] {
      assert es + fs == fs;
    } else {
      assert (es + fs)[1..] == es[1..] + fs;
      RunConcat(Step(s, ttl, es[0]), ttl, es[1..], fs);
    }
  }

  // --------------------------------------------------------------- staleness

  /** A call is served by a load of its own key begun this instant, or begun
      before and not yet `ttl` old. */
  lemma ServedIsRecent<V>(s: State<V>, ttl: int, k: string)
    requires Valid(s)
    ensures var t := Begin(s, ttl, k); var id := Served(s, ttl, k);
            && Valid(t) && id < |t.loads| && t.loads[id].key == k
            && !t.loads[id].status.Failed?
            && t.loads[id].begun <= s.now
            && (t.loads[id].begun == s.now || s.now < t.loads[id].begun + ttl)
  {
    StepKeepsValid(s, ttl, Call(k));
    if k in s.store {
      assert OwnsEntry(s, k, s.store[k]);
    }
  }

  /** Whatever value the call at `s` ends up with, at any later point of any
      run, came from a load of its key begun at the call or less than `ttl`
      before it. */
  lemma ValueIsRecent<V>(s: State<V>, ttl: int, k: string, es: seq<Event<V>>)
    requires Valid(s) && Runs(Begin(s, ttl, k), ttl, es)
    ensures var id := Served(s, ttl, k); var t := Run(Begin(s, ttl, k), ttl, es);
            && id < |t.loads| && t.loads[id].key == k
            && (t.loads[id].begun == s.now
                || (t.loads[id].begun <= s.now < t.loads[id].begun + ttl))
  {
    ServedIsRecent(s, ttl, k);
    RunIsLater(Begin(s, ttl, k), ttl, es);
  }

  // ------------------------------------------------------------- load budget

  ghost function Starts<V>(s: State<V>, ttl: int, es: seq<Event<V>>, k: string): nat
    requires Runs(s, ttl, es)
    decreases |es|
  {
    if es == [] then 0
    else (if es[0] == Call(k) && !Hit(s, ttl, k) then 1 else 0)
         + Starts(Step(s, ttl, es[0]), ttl, es[1..], k)
  }

  ghost function Failures<V>(s: State<V>, ttl: int, es: seq<Event<V>>, k: string): nat
    requires Runs(s, ttl, es)
    decreases |es|
  {
    if es == [] then 0
    else (if es[0].Fail? && s.loads[es[0].id].key == k then 1 else 0)
         + Failures(Step(s, ttl, es[0]), ttl, es[1..], k)
  }

  function Max(a: int, b: int): int { if a < b then b else a }

  /** The account kept for `k` since time `from`: `n` starts and `f` failures. */
  ghost predicate Account<V>(s: State<V>, ttl: int, k: string, from: int, n: int, f: int) {
    && from <= s.now
    && if k in s.store then
         s.store[k] < |s.loads| && (n - 1 - f) * ttl <= Max(s.loads[s.store[k]].begun - from, -ttl)
       else (n - f) * ttl <= s.now - from
  }

  lemma StepKeepsAccount<V>(s: State<V>, ttl: int, e: Event<V>, k: string, from: int, n: int, f: int)
    requires Valid(s) && Enabled(s, e) && 0 < ttl && Account(s, ttl, k, from, n, f)
    ensures Account(Step(s, ttl, e), ttl, k, from,
                    n + (if e == Call(k) && !Hit(s, ttl, k) then 1 else 0),
                    f + (if e.Fail? && s.loads[e.id].key == k then 1 else 0))
  {
    if k in s.store {
      assert OwnsEntry(s, k, s.store[k]);
    }
    assert (n - f) * ttl == (n - 1 - f) * ttl + ttl;
    assert (n - 1 - f) * ttl == (n - 1 - (f + 1)) * ttl + ttl;
  }

  lemma {:induction false} RunKeepsAccount<V>(
      s: State<V>, ttl: int, es: seq<Event<V>>, k: string, from: int, n: int, f: int)
    requires Valid(s) && Runs(s, ttl, es) && 0 < ttl && Account(s, ttl, k, from, n, f)
    ensures Account(Run(s, ttl, es), ttl, k, from, n + Starts(s, ttl, es, k), f + Failures(s, ttl, es, k))
    decreases |es|
  {
    if es != [] {
      var e := es[0];
      StepKeepsValid(s, ttl, e);
      StepKeepsAccount(s, ttl, e, k, from, n, f);
      RunKeepsAccount(Step(s, ttl, e), ttl, es[1..], k, from,
                      n + (if e == Call(k) && !Hit(s, ttl, k) then 1 else 0),
                      f + (if e.Fail? && s.loads[e.id].key == k then 1 else 0));
    }
  }

  lemma QuotientBound(q: int, d: int, ttl: int)
    requires 0 < ttl && q * ttl <= d
    ensures q <= d / ttl
  {
    assert d < (d / ttl + 1) * ttl;
  }

  /** Over any stretch of any run, however late loads settle, a key is loaded at
      most once, plus once per elapsed `ttl`, plus once per failure. */
  lemma LoadBudget<V>(s: State<V>, ttl: int, es: seq<Event<V>>, k: string)
    requires Valid(s) && Runs(s, ttl, es) && 0 < ttl
    ensures s.now <= Run(s, ttl, es).now
    ensures Starts(s, ttl, es, k)
            <= 1 + (Run(s, ttl, es).now - s.now) / ttl + Failures(s, ttl, es, k)
  {
    var t := Run(s, ttl, es);
    var n, f := Starts(s, ttl, es, k), Failures(s, ttl, es, k);
    if k in s.store {
      assert OwnsEntry(s, k, s.store[k]);
      assert (0 - 1 - 0) * ttl == -ttl;
    }
    RunKeepsAccount(s, ttl, es, k, s.now, 0, 0);
    RunKeepsValid(s, ttl, es);
    if k in t.store {
      assert OwnsEntry(t, k, t.store[k]);
    }
    assert (n - f) * ttl == (n - 1 - f) * ttl + ttl;
    assert (n - 1 - f) * ttl <= t.now - s.now;
    QuotientBound(n - 1 - f, t.now - s.now, ttl);
  }

  /** A caller who comes back every `ttl`, `n` more times. */
  function SteadyCaller<V>(k: string, ttl: nat, n: nat): seq<Event<V>> {
    [Call(k)] + if n == 0 then [] else [Advance(ttl)] + SteadyCaller(k, ttl, n - 1)
  }

  lemma RunCons<V>(s: State<V>, ttl: int, e: Event<V>, es: seq<Event<V>>, k: string)
    requires Enabled(s, e) && Runs(Step(s, ttl, e), ttl, es)
    ensures Runs(s, ttl, [e] + es) && Run(s, ttl, [e] + es) == Run(Step(s, ttl, e), ttl, es)
    ensures Starts(s, ttl, [e] + es, k)
            == (if e == Call(k) && !Hit(s, ttl, k) then 1 else 0) + Starts(Step(s, ttl, e), ttl, es, k)
    ensures !e.Fail? ==> Failures(s, ttl, [e] + es, k) == Failures(Step(s, ttl, e), ttl, es, k)
  {
    assert ([e] + es)[1..] == es;
  }

  /** The budget is attained: such a caller starts `n + 1` loads in `n * ttl` of time. */
  lemma {:induction false} BudgetIsTight<V>(s: State<V>, ttl: nat, k: string, n: nat)
    requires !Hit(s, ttl, k)
    ensures var es := SteadyCaller<V>(k, ttl, n);
            && Runs(s, ttl, es) && Run(s, ttl, es).now - s.now == n * ttl
            && Failures(s, ttl, es, k) == 0
            && Starts(s, ttl, es, k) == n + 1
    decreases n
  {
    var s1 := Step(s, ttl, Call(k));
    if n == 0 {
      RunCons(s, ttl, Call(k), [], k);
    } else {
      var rest := SteadyCaller<V>(k, ttl, n - 1);
      BudgetIsTight(Step(s1, ttl, Advance(ttl)), ttl, k, n - 1);
      RunCons(s1, ttl, Advance(ttl), rest, k);
      RunCons(s, ttl, Call(k), [Advance(ttl)] + rest, k);
      assert n * ttl == (n - 1) * ttl + ttl;
    }
  }

  // ----------------------------------------------------------- single flight

  /** `es` from `s` never lets a load reach its expiry unsettled. */
  ghost predicate Prompt<V>(s: State<V>, ttl: int, es: seq<Event<V>>)
    requires Runs(s, ttl, es)
    decreases |es|
  {
    && (forall i :: 0 <= i < |s.loads| && Pending(s, i) ==> Fresh(s, ttl, i))
    && (es != [] ==> Prompt(Step(s, ttl, es[0]), ttl, es[1..]))
  }

  /** Every load still in flight is the one its key maps to. */
  ghost predicate Exclusive<V>(s: State<V>) {
    forall i :: 0 <= i < |s.loads| && Pending(s, i) ==>
      s.loads[i].key in s.store && s.store[s.loads[i].key] == i
  }

  ghost predicate TwoInFlight<V>(s: State<V>) {
    exists i, j :: 0 <= i < j < |s.loads| && s.loads[i].key == s.loads[j].key && Pending(s, i) && Pending(s, j)
  }

  /** When every load settles before its own expiry, no key ever has two loads
      in flight. */
  lemma {:induction false} SingleFlight<V>(s: State<V>, ttl: int, es: seq<Event<V>>)
    requires Valid(s) && Exclusive(s) && Runs(s, ttl, es) && Prompt(s, ttl, es)
    ensures Exclusive(Run(s, ttl, es))
    ensures !TwoInFlight(Run(s, ttl, es))
    decreases |es|
  {
    if es != [] {
      StepKeepsValid(s, ttl, es[0]);
      SingleFlight(Step(s, ttl, es[0]), ttl, es[1..]);
    }
  }

  /** No later call can reach load `id` any more. */
  ghost predicate Retired<V>(s: State<V>, ttl: int, id: nat) {
    && id < |s.loads|
    && (!Fresh(s, ttl, id) || s.loads[id].key !in s.store || s.store[s.loads[id].key] != id)
  }

  /** Retirement is final: no call of any later run is served by a retired load. */
  lemma {:induction false} RetiredIsNeverServed<V>(
      s: State<V>, ttl: int, id: nat, es: seq<Event<V>>, k: string)
    requires Valid(s) && Retired(s, ttl, id) && Runs(s, ttl, es)
    ensures Retired(Run(s, ttl, es), ttl, id)
    ensures Served(Run(s, ttl, es), ttl, k) != id
    decreases |es|
  {
    if es == [] {
      if k in s.store {
        assert OwnsEntry(s, k, s.store[k]);
      }
    } else {
      StepKeepsValid(s, ttl, es[0]);
      StaysRetired(s, ttl, id, es[0]);
      RetiredIsNeverServed(Step(s, ttl, es[0]), ttl, id, es[1..], k);
    }
  }

  /** Agreement on everything a caller can see, apart from the outcome of `id`. */
  ghost predicate AgreeBut<V>(s: State<V>, t: State<V>, id: nat) {
    && s.now == t.now && s.store == t.store && |s.loads| == |t.loads|
    && forall i :: 0 <= i < |s.loads| ==>
         && s.loads[i].key == t.loads[i].key && s.loads[i].begun == t.loads[i].begun
         && (i != id ==> s.loads[i] == t.loads[i])
  }

  lemma StepsAgree<V>(s: State<V>, t: State<V>, ttl: int, id: nat, e: Event<V>)
    requires AgreeBut(s, t, id) && Enabled(s, e)
    requires !(e.Succeed? && e.id == id) && !(e.Fail? && e.id == id)
    ensures Enabled(t, e) && AgreeBut(Step(s, ttl, e), Step(t, ttl, e), id)
  {
  }

  lemma StaysRetired<V>(s: State<V>, ttl: int, id: nat, e: Event<V>)
    requires Valid(s) && Retired(s, ttl, id) && Enabled(s, e)
    ensures Retired(Step(s, ttl, e), ttl, id)
  {
  }

  /** States that differ only in the outcome of a retired load run alike. */
  lemma {:induction false} RetiredOutcomeIsInvisible<V>(
      s: State<V>, t: State<V>, ttl: int, id: nat, es: seq<Event<V>>, k: string)
    requires Valid(s) && Valid(t) && AgreeBut(s, t, id) && Retired(s, ttl, id)
    requires Runs(s, ttl, es)
    requires forall e :: e in es ==> !(e.Succeed? && e.id == id) && !(e.Fail? && e.id == id)
    ensures Runs(t, ttl, es)
    ensures AgreeBut(Run(s, ttl, es), Run(t, ttl, es), id)
    ensures Served(Run(s, ttl, es), ttl, k) == Served(Run(t, ttl, es), ttl, k) != id
    decreases |es|
  {
    if es == [] {
      RetiredIsNeverServed(s, ttl, id, [], k);
    } else {
      var e := es[0];
      assert e in es;
      StepsAgree(s, t, ttl, id, e);
      StaysRetired(s, ttl, id, e);
      StepKeepsValid(s, ttl, e);
      StepKeepsValid(t, ttl, e);
      RetiredOutcomeIsInvisible(Step(s, ttl, e), Step(t, ttl, e), ttl, id, es[1..], k);
    }
  }

  /** A success that arrives after its load was retired changes nothing a later
      caller can see: every run that was possible without it plays out the same,
      and each of its calls is served by the same other load with the same
      status. */
  lemma LateSuccessIsInvisible<V>(s: State<V>, ttl: int, id: nat, v: V, es: seq<Event<V>>, k: string)
    requires Valid(s) && Pending(s, id) && Retired(s, ttl, id) && Runs(s, ttl, es)
    requires forall e :: e in es ==> !(e.Succeed? && e.id == id) && !(e.Fail? && e.id == id)
    ensures var late := Step(s, ttl, Succeed(id, v));
            && Runs(late, ttl, es)
            && AgreeBut(Run(s, ttl, es), Run(late, ttl, es), id)
            && Served(Run(s, ttl, es), ttl, k) == Served(Run(late, ttl, es), ttl, k) != id
  {
    StepKeepsValid(s, ttl, Succeed(id, v));
    RetiredOutcomeIsInvisible(s, Step(s, ttl, Succeed(id, v)), ttl, id, es, k);
  }

  /** Two loads of one key in flight, both before their expiry. */
  ghost predicate Overlap<V>(s: State<V>, ttl: int, k: string) {
    exists i, j :: 0 <= i < j < |s.loads| && s.loads[i].key == k && s.loads[j].key == k
      && Pending(s, i) && Pending(s, j) && Fresh(s, ttl, i) && Fresh(s, ttl, j)
  }

  /** Of the loads in flight, only the stored one of its key is unexpired. */
  ghost predicate FreshIsStored<V>(s: State<V>, ttl: int) {
    forall i :: 0 <= i < |s.loads| && Pending(s, i) && Fresh(s, ttl, i) ==>
      s.loads[i].key in s.store && s.store[s.loads[i].key] == i
  }

  /** The failure of `id` would take away another load's entry. */
  predicate Steals<V>(s: State<V>, id: nat)
    requires id < |s.loads|
  {
    s.loads[id].key in s.store && s.store[s.loads[id].key] != id
  }

  /** Some load of `id`'s key other than `id` is in flight and not yet expired. */
  ghost predicate OtherUnexpired<V>(s: State<V>, ttl: int, id: nat)
    requires id < |s.loads|
  {
    exists i :: 0 <= i < |s.loads| && i != id && s.loads[i].key == s.loads[id].key
      && Pending(s, i) && Fresh(s, ttl, i)
  }

  /** Exactly when a failing load lets the next call for its key overlap an unexpired
      load: when another load of that key is in flight and not yet expired. */
  lemma LateFailureOverlaps<V>(s: State<V>, ttl: int, id: nat)
    requires Pending(s, id) && 0 < ttl
    ensures var k := s.loads[id].key;
            Overlap(Begin(Step(s, ttl, Fail(id)), ttl, k), ttl, k) <==> OtherUnexpired(s, ttl, id)
  {
    var k, n := s.loads[id].key, |s.loads|;
    var u := Begin(Step(s, ttl, Fail(id)), ttl, k);
    assert Pending(u, n) && Fresh(u, ttl, n) && u.loads[n].key == k;
    assert forall i :: 0 <= i < n && i != id ==> u.loads[i] == s.loads[i];
    if i :| 0 <= i < n && i != id && s.loads[i].key == k && Pending(s, i) && Fresh(s, ttl, i) {
      assert Pending(u, i) && Fresh(u, ttl, i);
    }
  }

  /** While every unexpired load in flight is the stored one of its key, as in every run
      without theft so far, a look at the store decides: the failure must take away
      another load's entry, and that load must be in flight and not yet expired. */
  lemma FirstOverlapIsTheft<V>(s: State<V>, ttl: int, id: nat)
    requires Valid(s) && FreshIsStored(s, ttl) && Pending(s, id) && 0 < ttl
    ensures var k := s.loads[id].key;
            Overlap(Begin(Step(s, ttl, Fail(id)), ttl, k), ttl, k)
            <==> Steals(s, id) && Pending(s, s.store[k]) && Fresh(s, ttl, s.store[k])
  {
    LateFailureOverlaps(s, ttl, id);
    if Steals(s, id) {
      assert OwnsEntry(s, s.loads[id].key, s.store[s.loads[id].key]);
    }
  }

  /** No failure in the run takes away another load's entry. */
  ghost predicate NoTheft<V>(s: State<V>, ttl: int, es: seq<Event<V>>)
    requires Runs(s, ttl, es)
    decreases |es|
  {
    es != [] ==>
      && (es[0].Fail? ==> !Steals(s, es[0].id))
      && NoTheft(Step(s, ttl, es[0]), ttl, es[1..])
  }

  /** However late loads settle, unexpired loads of one key overlap only if some
      failure took away another load's entry. */
  lemma {:induction false} NoOverlapWithoutTheft<V>(s: State<V>, ttl: int, es: seq<Event<V>>, k: string)
    requires Valid(s) && FreshIsStored(s, ttl) && Runs(s, ttl, es) && NoTheft(s, ttl, es)
    ensures FreshIsStored(Run(s, ttl, es), ttl)
    ensures !Overlap(Run(s, ttl, es), ttl, k)
    decreases |es|
  {
    if es != [] {
      StepKeepsValid(s, ttl, es[0]);
      assert FreshIsStored(Step(s, ttl, es[0]), ttl);
      NoOverlapWithoutTheft(Step(s, ttl, es[0]), ttl, es[1..], k);
    }
  }

  /** From the empty cache on: entries always belong to the newest load of their key,
      prompt settling keeps every key to one load in flight, and without theft
      unexpired loads never overlap. */
  lemma FromTheEmptyCache<V>(now: int, ttl: int, es: seq<Event<V>>, k: string)
    requires Runs(Init<V>(now), ttl, es)
    ensures var s, t := Init<V>(now), Run(Init<V>(now), ttl, es);
            && Valid(t)
            && (Prompt(s, ttl, es) ==> !TwoInFlight(t))
            && (NoTheft(s, ttl, es) ==> !Overlap(t, ttl, k))
  {
    var s := Init<V>(now);
    InitIsSound<V>(now, ttl);
    RunKeepsValid(s, ttl, es);
    hide Valid, Overlap, TwoInFlight, Run, Runs;
    if Prompt(s, ttl, es) {
      SingleFlight(s, ttl, es);
    }
    if NoTheft(s, ttl, es) {
      NoOverlapWithoutTheft(s, ttl, es, k);
    }
  }

  /** A run from the empty cache in which a late failure makes two unexpired
      loads of one key overlap. */
  lemma LateFailureRun(k: string) returns (es: seq<Event<int>>)
    ensures Runs(Init<int>(0), 10, es)
    ensures Overlap(Run(Init<int>(0), 10, es), 10, k)
  {
    es := [Call(k), Advance(10), Call(k), Fail(0), Call(k)];
    var s0 := Init<int>(0);
    var s1 := Step(s0, 10, es[0]);
    var s2 := Step(s1, 10, es[1]);
    var s3 := Step(s2, 10, es[2]);
    var s4 := Step(s3, 10, es[3]);
    var s5 := Step(s4, 10, es[4]);
    assert es[1..][1..] == es[2..] && es[2..][1..] == es[3..] && es[3..][1..] == es[4..] && es[4..][1..] == [];
    assert Runs(s5, 10, es[4..][1..]);
    assert Runs(s4, 10, es[4..]) && Runs(s3, 10, es[3..]) && Runs(s2, 10, es[2..]);
    assert Run(s0, 10, es) == Run(s1, 10, es[1..]) == Run(s2, 10, es[2..]) == Run(s3, 10, es[3..])
        == Run(s4, 10, es[4..]) == s5;
    assert Pending(s5, 1) && Pending(s5, 2) && Fresh(s5, 10, 1) && Fresh(s5, 10, 2);
  }

  // ------------------------------------------------------------ no poisoning

  /** After a failure the key stays out of the store until somebody calls for
      it, so the first caller starts a fresh load. */
  lemma {:induction false} FailureIsNotCached<V>(s: State<V>, ttl: int, id: nat, es: seq<Event<V>>)
    requires Pending(s, id) && Runs(Step(s, ttl, Fail(id)), ttl, es)
    requires forall e :: e in es ==> e != Call(s.loads[id].key)
    ensures var t := Run(Step(s, ttl, Fail(id)), ttl, es); var k := s.loads[id].key;
            && !Hit(t, ttl, k)
            && Served(t, ttl, k) == |t.loads|
            && Begin(t, ttl, k).loads == t.loads + [Load(k, t.now, Loading)]
  {
    StaysAbsent(Step(s, ttl, Fail(id)), ttl, s.loads[id].key, es);
  }

  lemma {:induction false} StaysAbsent<V>(s: State<V>, ttl: int, k: string, es: seq<Event<V>>)
    requires k !in s.store && Runs(s, ttl, es) && forall e :: e in es ==> e != Call(k)
    ensures k !in Run(s, ttl, es).store
    decreases |es|
  {
    if es != [] {
      assert es[0] in es && forall e :: e in es[1..] ==> e in es;
      StaysAbsent(Step(s, ttl, es[0]), ttl, k, es[1..]);
    }
  }
}
