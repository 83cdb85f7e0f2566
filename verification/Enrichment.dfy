/** The chain enrichment of the routing service: four cached getters, two of
    which are loaders that themselves go through the cache.  A service state is
    the cache together with, for every load, the closure that performs it. */
module Enrichment {
  import opened Prelude
  import C = CacheMachine

  type Address = string

  datatype Value =
    | AddressV(address: Address)
    | StakesV(stakes: map<string, string>)
    | UriV(uri: Option<string>)

  /** A loader closure; a nested one remembers the load it awaits. */
  datatype Loader =
    | ManagerLoader
    | RegistryLoader
    | PoolLoader(inner: nat)
    | UriLoader(orch: Address, inner: nat)

  datatype Service = Service(cache: C.State<Value>, loaders: seq<Loader>)

  /** The two getters that the roster calls. */
  datatype Request = Pool | Uri(orch: Address)

  function Key(r: Request): string {
    match r
    case Pool => "poolStakeMap"
    case Uri(orch) => "serviceUri:" + ToLower(orch)
  }

  function InnerKey(r: Request): string {
    if r.Pool? then "bondingManager" else "serviceRegistry"
  }

  function Outer(r: Request, inner: nat): Loader {
    match r
    case Pool => PoolLoader(inner)
    case Uri(orch) => UriLoader(orch, inner)
  }

  function Inner(r: Request): Loader {
    if r.Pool? then ManagerLoader else RegistryLoader
  }

  function KeyOf(l: Loader): string {
    match l
    case ManagerLoader => InnerKey(Pool)
    case RegistryLoader => InnerKey(Uri(""))
    case PoolLoader(_) => Key(Pool)
    case UriLoader(orch, _) => Key(Uri(orch))
  }

  predicate Nested(l: Loader) {
    l.PoolLoader? || l.UriLoader?
  }

  /** The key under which a nested loader looks up what it awaits. */
  function AwaitedKey(l: Loader): string
    requires Nested(l)
  {
    if l.PoolLoader? then InnerKey(Pool) else InnerKey(Uri(""))
  }

  // ------------------------------------------------------------------- steps

  datatype Event =
    | Tick(elapsed: nat)
    | Ask(request: Request, lag: nat)
    | Settle(id: nat, outcome: Option<Value>)

  function Init(now: int): Service {
    Service(C.Init(now), [])
  }

  /** `getPoolStakeMap` or `getServiceUri`: on a miss the new loader runs up to its
      own cached getter before anything else can happen; `lag` is the time the
      clock moved between the two readings. */
  function AskStep(s: Service, ttl: int, r: Request, lag: nat): Service {
    if C.Hit(s.cache, ttl, Key(r)) then s
    else
      var c := C.Begin(s.cache, ttl, Key(r));
      var d := c.(now := c.now + lag);
      Service(C.Begin(d, ttl, InnerKey(r)),
              s.loaders + [Outer(r, C.Served(d, ttl, InnerKey(r)))]
              + if C.Hit(d, ttl, InnerKey(r)) then [] else [Inner(r)])
  }

  /** How a loader can end: a nested one ends after the load it awaits and fails
      with it; after that a service-URI loader always yields a value, because it
      catches the read's error. */
  predicate CanSettle(s: Service, id: nat, outcome: Option<Value>) {
    && C.Pending(s.cache, id) && id < |s.loaders|
    && match s.loaders[id]
       case ManagerLoader => outcome.Some? ==> outcome.value.AddressV?
       case RegistryLoader => outcome.Some? ==> outcome.value.AddressV?
       case PoolLoader(d) =>
         && d < |s.cache.loads| && !C.Pending(s.cache, d)
         && (s.cache.loads[d].status.Failed? ==> outcome.None?)
         && (outcome.Some? ==> outcome.value.StakesV?)
       case UriLoader(_, d) =>
         && d < |s.cache.loads| && !C.Pending(s.cache, d)
         && (s.cache.loads[d].status.Failed? <==> outcome.None?)
         && (outcome.Some? ==> outcome.value.UriV?)
  }

  predicate Enabled(s: Service, e: Event) {
    e.Settle? ==> CanSettle(s, e.id, e.outcome)
  }

  function Step(s: Service, ttl: int, e: Event): Service
    requires Enabled(s, e)
  {
    match e
    case Tick(elapsed) => s.(cache := C.Step(s.cache, ttl, C.Advance(elapsed)))
    case Ask(r, lag) => AskStep(s, ttl, r, lag)
    case Settle(id, Some(v)) => s.(cache := C.Step(s.cache, ttl, C.Succeed(id, v)))
    case Settle(id, None) => s.(cache := C.Step(s.cache, ttl, C.Fail(id)))
  }

  predicate Runs(s: Service, ttl: int, es: seq<Event>)
    decreases |es|
  {
    es == [] || (Enabled(s, es[0]) && Runs(Step(s, ttl, es[0]), ttl, es[1..]))
  }

  function Run(s: Service, ttl: int, es: seq<Event>): Service
    requires Runs(s, ttl, es)
    decreases |es|
  {
    if es == [] then s else Run(Step(s, ttl, es[0]), ttl, es[1..])
  }

  // --------------------------------------------------- the getters use the cache

  /** The cache steps one service step consists of. */
  function CacheSteps(s: Service, ttl: int, e: Event): seq<C.Event<Value>> {
    match e
    case Tick(elapsed) => [C.Advance(elapsed)]
    case Settle(id, Some(v)) => [C.Succeed(id, v)]
    case Settle(id, None) => [C.Fail(id)]
    case Ask(r, lag) =>
      if C.Hit(s.cache, ttl, Key(r)) then [C.Call(Key(r))]
      else [C.Call(Key(r)), C.Advance(lag), C.Call(InnerKey(r))]
  }

  /** Every service step is a run of the cache, so whatever holds of all cache
      runs holds of the service. */
  lemma StepIsCacheRun(s: Service, ttl: int, e: Event)
    requires Enabled(s, e)
    ensures C.Runs(s.cache, ttl, CacheSteps(s, ttl, e))
    ensures C.Run(s.cache, ttl, CacheSteps(s, ttl, e)) == Step(s, ttl, e).cache
  {
    var cs := CacheSteps(s, ttl, e);
    var c1 := C.Step(s.cache, ttl, cs[0]);
    if |cs| == 1 {
      assert cs[1..] == [];
      assert C.Runs(c1, ttl, cs[1..]);
    } else {
      var c2 := C.Step(c1, ttl, cs[1]);
      var c3 := C.Step(c2, ttl, cs[2]);
      assert cs[1..][1..] == cs[2..] && cs[2..][1..] == [];
      assert C.Runs(c3, ttl, cs[2..][1..]) && C.Runs(c2, ttl, cs[2..]) && C.Runs(c1, ttl, cs[1..]);
      assert C.Run(c1, ttl, cs[1..]) == C.Run(c2, ttl, cs[2..]) == c3;
    }
  }

  // ------------------------------------------------------ what a load is told

  /** Along any run a load that was started has the outcome it had, or the one its loader
      had in the run: nothing is dropped, whatever the store holds by then. */
  lemma {:induction false} OutcomeFollows(s: Service, ttl: int, es: seq<Event>, id: nat)
    requires Runs(s, ttl, es) && id < |s.cache.loads|
    ensures var t := Run(s, ttl, es); var before := s.cache.loads[id].status;
            && id < |t.cache.loads|
            && (forall v :: t.cache.loads[id].status == C.Loaded(v) <==> before == C.Loaded(v) || Settle(id, Some(v)) in es)
            && (t.cache.loads[id].status == C.Failed <==> before == C.Failed || Settle(id, None) in es)
    decreases |es|
  {
    if es != [] {
      var s1 := Step(s, ttl, es[0]);
      OutcomeOfStep(s, ttl, es[0], id);
      OutcomeFollows(s1, ttl, es[1..], id);
      assert forall x :: x in es <==> x == es[0] || x in es[1..];
      hide Runs, Run, Step;
    }
  }

  lemma OutcomeOfStep(s: Service, ttl: int, e: Event, id: nat)
    requires Enabled(s, e) && id < |s.cache.loads|
    ensures var t := Step(s, ttl, e); var before := s.cache.loads[id].status;
            && id < |t.cache.loads|
            && t.cache.loads[id].status ==
                 (if e.Settle? && e.id == id then
                    (match e.outcome case Some(v) => C.Loaded(v) case None => C.Failed)
                  else before)
            && (e.Settle? && e.id == id ==> before == C.Loading)
  {
    hide Key, InnerKey;
  }

  /** How loads may end: any of them by failing, except a service-URI read, which yields a
      value once it has its registry; a nested one only after the load it awaits, and with
      a failed one it fails. */
  lemma LoadersEnd(s: Service, id: nat, v: Value)
    requires C.Pending(s.cache, id) && |s.loaders| == |s.cache.loads|
    requires Nested(s.loaders[id]) ==> s.loaders[id].inner < |s.cache.loads|
    ensures var l := s.loaders[id];
            && (!Nested(l) ==> Enabled(s, Settle(id, None)) && (v.AddressV? <==> Enabled(s, Settle(id, Some(v)))))
            && (Nested(l) ==>
                  match s.cache.loads[l.inner].status
                  case Loading => !Enabled(s, Settle(id, None)) && !Enabled(s, Settle(id, Some(v)))
                  case Failed => Enabled(s, Settle(id, None)) && !Enabled(s, Settle(id, Some(v)))
                  case Loaded(_) =>
                    && (Enabled(s, Settle(id, None)) <==> l.PoolLoader?)
                    && (Enabled(s, Settle(id, Some(v))) <==> if l.PoolLoader? then v.StakesV? else v.UriV?))
  {
  }

  // --------------------------------------------------------------- staleness

  /** Every load is performed by a loader of its key, and what a nested loader
      awaits is a load of the right key that was not older than `ttl` when the
      nested loader began. */
  ghost predicate WellAwaited(s: Service, ttl: int, i: nat)
    requires i < |s.cache.loads| == |s.loaders|
  {
    && s.cache.loads[i].key == KeyOf(s.loaders[i])
    && (Nested(s.loaders[i]) ==>
          var d := s.loaders[i].inner;
          && d < |s.cache.loads|
          && s.cache.loads[d].key == AwaitedKey(s.loaders[i])
          && (s.cache.loads[i].begun <= s.cache.loads[d].begun
              || s.cache.loads[i].begun < s.cache.loads[d].begun + ttl))
  }

  ghost predicate Inv(s: Service, ttl: int) {
    && C.Valid(s.cache)
    && |s.loaders| == |s.cache.loads|
    && forall i :: 0 <= i < |s.loaders| ==> WellAwaited(s, ttl, i)
  }

  /** `t` is `s` some steps later. */
  ghost predicate Later(s: Service, t: Service) {
    C.Later(s.cache, t.cache) && s.loaders <= t.loaders
  }

  lemma StepIsLater(s: Service, ttl: int, e: Event)
    requires Enabled(s, e)
    ensures Later(s, Step(s, ttl, e))
  {
    StepIsCacheRun(s, ttl, e);
    C.RunIsLater(s.cache, ttl, CacheSteps(s, ttl, e));
  }

  lemma LaterKeepsAwaited(s: Service, t: Service, ttl: int, i: nat)
    requires |s.loaders| == |s.cache.loads| && |t.loaders| == |t.cache.loads| && i < |s.loaders|
    requires Later(s, t) && WellAwaited(s, ttl, i)
    ensures WellAwaited(t, ttl, i)
  {
    assert s.loaders[i] == t.loaders[i];
  }

  /** A miss under `k` followed, `lag` later, by a call for `ik`. */
  lemma NestedCall(c0: C.State<Value>, ttl: int, k: string, lag: nat, ik: string)
    requires C.Valid(c0) && !C.Hit(c0, ttl, k)
    ensures var c := C.Begin(c0, ttl, k); var d := c.(now := c.now + lag); var e := C.Begin(d, ttl, ik);
            var n := |c0.loads|; var id := C.Served(d, ttl, ik);
            && |e.loads| == n + 1 + (if C.Hit(d, ttl, ik) then 0 else 1)
            && e.loads[n].key == k && e.loads[n].begun == c0.now
            && id < |e.loads| && e.loads[id].key == ik
            && (n + 1 < |e.loads| ==> id == n + 1)
            && (c0.now <= e.loads[id].begun || c0.now < e.loads[id].begun + ttl)
  {
    var c := C.Begin(c0, ttl, k);
    C.StepKeepsValid(c0, ttl, C.Call(k));
    C.StepKeepsValid(c, ttl, C.Advance(lag));
    C.ServedIsRecent(c.(now := c.now + lag), ttl, ik);
  }

  lemma LoaderKeys(r: Request, id: nat)
    ensures KeyOf(Outer(r, id)) == Key(r) && KeyOf(Inner(r)) == InnerKey(r)
    ensures Nested(Outer(r, id)) && Outer(r, id).inner == id && !Nested(Inner(r))
    ensures AwaitedKey(Outer(r, id)) == InnerKey(r)
  {
  }

  lemma BeginKeepsNow(c: C.State<Value>, ttl: int, k: string)
    ensures C.Begin(c, ttl, k).now == c.now
  {
  }

  /** The load a getter starts awaits one that was recent when it began. */
  lemma AskMissAwaits(s: Service, ttl: int, r: Request, lag: nat)
    requires C.Valid(s.cache) && |s.loaders| == |s.cache.loads| && !C.Hit(s.cache, ttl, Key(r))
    ensures var t := AskStep(s, ttl, r, lag);
            && |t.loaders| == |t.cache.loads|
            && forall i :: |s.loaders| <= i < |t.loaders| ==> WellAwaited(t, ttl, i)
  {
    hide C.Valid, C.Begin, C.Served, C.Hit, Key, InnerKey, KeyOf, AwaitedKey, Nested, Outer, Inner;
    NestedCall(s.cache, ttl, Key(r), lag, InnerKey(r));
    var t := AskStep(s, ttl, r, lag);
    LoaderKeys(r, C.Served(C.Begin(s.cache, ttl, Key(r)).(now := s.cache.now + lag), ttl, InnerKey(r)));
    BeginKeepsNow(s.cache, ttl, Key(r));
    assert WellAwaited(t, ttl, |s.loaders|);
  }

  lemma StepKeepsAwaited(s: Service, ttl: int, e: Event)
    requires Inv(s, ttl) && Enabled(s, e)
    ensures var t := Step(s, ttl, e);
            |t.loaders| == |t.cache.loads| && forall i :: 0 <= i < |t.loaders| ==> WellAwaited(t, ttl, i)
  {
    var t := Step(s, ttl, e);
    StepIsLater(s, ttl, e);
    if e.Ask? && !C.Hit(s.cache, ttl, Key(e.request)) {
      AskMissAwaits(s, ttl, e.request, e.lag);
    }
    forall i | 0 <= i < |s.loaders|
      ensures WellAwaited(t, ttl, i)
    {
      LaterKeepsAwaited(s, t, ttl, i);
    }
  }

  lemma StepKeepsInv(s: Service, ttl: int, e: Event)
    requires Inv(s, ttl) && Enabled(s, e)
    ensures Inv(Step(s, ttl, e), ttl)
  {
    StepKeepsAwaited(s, ttl, e);
    StepIsCacheRun(s, ttl, e);
    C.RunKeepsValid(s.cache, ttl, CacheSteps(s, ttl, e));
  }

  lemma {:induction false} RunKeepsInv(s: Service, ttl: int, es: seq<Event>)
    requires Inv(s, ttl) && Runs(s, ttl, es)
    ensures Inv(Run(s, ttl, es), ttl) && Later(s, Run(s, ttl, es))
    decreases |es|
  {
    if es != [] {
      StepKeepsInv(s, ttl, es[0]);
      StepIsLater(s, ttl, es[0]);
      RunKeepsInv(Step(s, ttl, es[0]), ttl, es[1..]);
    }
  }

  /** Staleness composes, for every `ttl`, zero included.  The stake map (or service
      URI) that a call ends up with was loaded by a load begun at the call or less than
      `ttl` before it, and the address behind it by one begun at the call or later, or
      less than twice `ttl` before it. */
  lemma StalenessComposes(s: Service, ttl: int, r: Request, lag: nat, es: seq<Event>)
    requires Inv(s, ttl) && Runs(AskStep(s, ttl, r, lag), ttl, es)
    ensures var t := Run(AskStep(s, ttl, r, lag), ttl, es); var id := C.Served(s.cache, ttl, Key(r));
            && id < |t.cache.loads| == |t.loaders|
            && t.cache.loads[id].key == Key(r)
            && (t.cache.loads[id].begun == s.cache.now
                || s.cache.now - ttl < t.cache.loads[id].begun < s.cache.now)
            && Nested(t.loaders[id])
            && var d := t.loaders[id].inner;
               && d < |t.cache.loads| && t.cache.loads[d].key == InnerKey(r)
               && (s.cache.now <= t.cache.loads[d].begun || s.cache.now - 2 * ttl < t.cache.loads[d].begun)
  {
    var u := AskStep(s, ttl, r, lag);
    var id := C.Served(s.cache, ttl, Key(r));
    C.ServedIsRecent(s.cache, ttl, Key(r));
    assert u == Step(s, ttl, Ask(r, lag));
    StepKeepsInv(s, ttl, Ask(r, lag));
    StepIsLater(s, ttl, Ask(r, lag));
    RunKeepsInv(u, ttl, es);
    assert WellAwaited(u, ttl, id);
    KeysAreDistinct(u.loaders[id], r);
    assert WellAwaited(Run(u, ttl, es), ttl, id);
  }

  /** A loader stored under a getter's key is a loader of that getter. */
  lemma KeysAreDistinct(l: Loader, r: Request)
    requires KeyOf(l) == Key(r)
    ensures Nested(l) && AwaitedKey(l) == InnerKey(r)
    ensures r.Pool? ==> l.PoolLoader?
    ensures r.Uri? ==> l.UriLoader? && ToLower(l.orch) == ToLower(r.orch)
  {
    assert Key(Pool)[0] == 'p' && InnerKey(Pool)[0] == 'b' && InnerKey(Uri(""))[7] == 'R';
    assert r.Uri? ==> Key(r)[0] == 's' && Key(r)[7] == 'U' && Key(r)[11..] == ToLower(r.orch);
    assert l.UriLoader? ==> KeyOf(l)[0] == 's' && KeyOf(l)[11..] == ToLower(l.orch);
  }
}
