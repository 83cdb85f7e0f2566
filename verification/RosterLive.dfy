/** `listOrchs` comes back: every load it waits for hands it what its loader was told. */
module RosterLive {
  import opened Prelude
  import opened Enrichment
  import opened Roster
  import C = CacheMachine

  /** The load has its value, or is told it in `es`. */
  ghost predicate Told(s: Service, id: nat, es: seq<Event>) {
    id < |s.cache.loads| && (s.cache.loads[id].status.Loaded? || exists v :: Settle(id, Some(v)) in es)
  }

  /** At any `ttl` and whatever else happens, the roster returns exactly once each load
      that serves it has been told a value. */
  lemma RosterReturnsExactly(
      ch: Chain, ttl: int, start: int, before: seq<Event>,
      known: seq<Known>, lag: nat, lags: seq<(nat, nat)>, after: seq<Event>)
    requires |lags| == |known|
    requires ChainRuns(ch, Init(start), ttl, before) && Runs(Init(start), ttl, before)
    requires var s := Run(Init(start), ttl, before);
             var t := AskUris(Step(s, ttl, Ask(Pool, lag)), ttl, known, lags).0;
             ChainRuns(ch, t, ttl, after) && Runs(t, ttl, after)
    ensures var s := Run(Init(start), ttl, before);
            var (t, uris) := AskUris(Step(s, ttl, Ask(Pool, lag)), ttl, known, lags);
            var pool := C.Served(s.cache, ttl, Key(Pool));
            && |uris| == |known|
            && (Returned(Run(t, ttl, after), pool, uris)
                <==> Told(t, pool, after) && forall i :: 0 <= i < |known| ==> Told(t, uris[i], after))
  {
    hide AskUris, Key, ChainRuns, Runs, Run, Step, Inv, HoldsPlain, Told, HasUri, HasStakes;
    InitIsAgreed(ch, ttl, start);
    RunKeepsAgreed(ch, Init(start), ttl, before);
    var s := Run(Init(start), ttl, before);
    AskServes(ch, s, ttl, Pool, lag);
    var s1 := Step(s, ttl, Ask(Pool, lag));
    AskUrisServes(ch, s1, ttl, known, lags);
    var (t, uris) := AskUris(s1, ttl, known, lags);
    var pool := C.Served(s.cache, ttl, Key(Pool));
    StakesArrive(ch, t, ttl, pool, after);
    forall i | 0 <= i < |known|
      ensures HasUri(Run(t, ttl, after), uris[i]) <==> Told(t, uris[i], after)
    {
      assert ServesUri(t, ttl, uris[i], known[i].address);
      UriArrives(ch, t, ttl, uris[i], after);
    }
  }

  lemma StakesArrive(ch: Chain, t: Service, ttl: int, id: nat, es: seq<Event>)
    requires Agreed(ch, t, ttl) && ChainRuns(ch, t, ttl, es) && Runs(t, ttl, es)
    requires id < |t.loaders| && t.loaders[id].PoolLoader?
    ensures HasStakes(Run(t, ttl, es), id) <==> Told(t, id, es)
  {
    hide ChainRuns, Runs, Run, ReadStakes, WellAwaited;
    RunKeepsAgreed(ch, t, ttl, es);
    OutcomeFollows(t, ttl, es, id);
    assert HoldsPlain(ch, Run(t, ttl, es), id);
  }

  lemma UriArrives(ch: Chain, t: Service, ttl: int, id: nat, es: seq<Event>)
    requires Agreed(ch, t, ttl) && ChainRuns(ch, t, ttl, es) && Runs(t, ttl, es)
    requires id < |t.loaders| && t.loaders[id].UriLoader?
    ensures HasUri(Run(t, ttl, es), id) <==> Told(t, id, es)
  {
    hide ChainRuns, Runs, Run, ReadUri, WellAwaited;
    RunKeepsAgreed(ch, t, ttl, es);
    OutcomeFollows(t, ttl, es, id);
    assert HoldsPlain(ch, Run(t, ttl, es), id);
  }

  // --------------------------------------------------------- a run that settles all

  /** The load has not failed and, while in flight, does not await a failed one. */
  ghost predicate Hopeful(s: Service, i: nat) {
    && i < |s.cache.loads| == |s.loaders| && !s.cache.loads[i].status.Failed?
    && (C.Pending(s.cache, i) && Nested(s.loaders[i]) ==>
          && s.loaders[i].inner < |s.cache.loads|
          && !s.cache.loads[s.loaders[i].inner].status.Failed?)
  }

  ghost predicate AllHopeful(s: Service) {
    forall i: nat :: C.Pending(s.cache, i) ==> Hopeful(s, i)
  }

  predicate HasValue(s: Service, i: nat) {
    i < |s.cache.loads| && s.cache.loads[i].status.Loaded?
  }

  ghost function InFlight(s: Service): set<nat> {
    set i: nat | i < |s.cache.loads| && C.Pending(s.cache, i)
  }

  /** Some load in flight awaits nothing in flight. */
  lemma NextToSettle(s: Service, ttl: int) returns (id: nat)
    requires Inv(s, ttl) && InFlight(s) != {}
    ensures id in InFlight(s) && (Nested(s.loaders[id]) ==> s.loaders[id].inner !in InFlight(s))
  {
    id :| id in InFlight(s);
    if Nested(s.loaders[id]) && s.loaders[id].inner in InFlight(s) {
      var d := s.loaders[id].inner;
      assert WellAwaited(s, ttl, id) && WellAwaited(s, ttl, d);
      InnerKeysAreDistinct(s.loaders[d], s.loaders[id]);
      id := d;
    }
  }

  /** It can settle: with what the chain answers, unless what it awaited failed. */
  lemma SettleOne(ch: Chain, s: Service, ttl: int) returns (e: Event)
    requires Agreed(ch, s, ttl) && InFlight(s) != {} && ReadStakes(ch, ch.manager).Some?
    ensures e.Settle? && Enabled(s, e) && (e.outcome.Some? ==> e.outcome == Answer(ch, s, e.id))
    ensures e.id in InFlight(s) && (Hopeful(s, e.id) || !Nested(s.loaders[e.id]) ==> e.outcome.Some?)
  {
    var id := NextToSettle(s, ttl);
    if Nested(s.loaders[id]) {
      AwaitedIsPlain(ch, s, ttl, id);
    }
    e := Settle(id, if Hopeful(s, id) then Answer(ch, s, id) else None);
  }

  /** Settling so leaves the other loads as hopeful as they were. */
  lemma SettlingKeepsHope(ch: Chain, s: Service, ttl: int, e: Event)
    requires Agreed(ch, s, ttl) && e.Settle? && Enabled(s, e) && e.id in InFlight(s)
    requires e.outcome.Some? ==> e.outcome == Answer(ch, s, e.id)
    requires Hopeful(s, e.id) || !Nested(s.loaders[e.id]) ==> e.outcome.Some?
    ensures var t := Step(s, ttl, e);
            && Agreed(ch, t, ttl) && InFlight(t) == InFlight(s) - {e.id}
            && forall i: nat :: Hopeful(s, i) ==> Hopeful(t, i)
  {
    StepKeepsAgreed(ch, s, ttl, e);
    var t := Step(s, ttl, e);
    forall i: nat | Hopeful(s, i)
      ensures Hopeful(t, i)
    {
      if C.Pending(s.cache, i) && Nested(s.loaders[i]) {
        var d := s.loaders[i].inner;
        assert WellAwaited(s, ttl, i) && WellAwaited(s, ttl, d);
        InnerKeysAreDistinct(s.loaders[d], s.loaders[i]);
      }
    }
  }

  /** From any reachable state the loads in flight can all settle, and then every hopeful
      one has its value. */
  lemma {:induction false} SettleAll(ch: Chain, s: Service, ttl: int) returns (es: seq<Event>)
    requires Agreed(ch, s, ttl) && ReadStakes(ch, ch.manager).Some?
    ensures ChainRuns(ch, s, ttl, es) && Runs(s, ttl, es)
    ensures InFlight(Run(s, ttl, es)) == {}
    ensures forall i: nat :: Hopeful(s, i) ==> HasValue(Run(s, ttl, es), i)
    decreases |InFlight(s)|
  {
    if InFlight(s) == {} {
      es := [];
      forall i: nat | Hopeful(s, i)
        ensures HasValue(s, i)
      {
        assert i !in InFlight(s);
      }
    } else {
      hide Agreed, Hopeful, InFlight, Answer, ReadStakes, Enabled, Step;
      var e := SettleOne(ch, s, ttl);
      SettlingKeepsHope(ch, s, ttl, e);
      var rest := SettleAll(ch, Step(s, ttl, e), ttl);
      es := [e] + rest;
      assert es[1..] == rest;
    }
  }

  // -------------------------------------------------- the loads a roster waits for

  lemma BothCallsGrow(c0: C.State<Value>, ttl: int, k: string, lag: nat, ik: string)
    requires C.Valid(c0) && !C.Hit(c0, ttl, k)
    ensures var c := C.Begin(c0, ttl, k); var d := c.(now := c.now + lag); var e := C.Begin(d, ttl, ik);
            var n := |c0.loads|;
            && C.Served(c0, ttl, k) == n && c0.loads <= e.loads
            && n < |e.loads| == n + 1 + (if C.Hit(d, ttl, ik) then 0 else 1)
            && e.loads[n].status.Loading?
            && (n + 1 < |e.loads| ==> e.loads[n + 1].status.Loading?)
            && C.Served(d, ttl, ik) < |e.loads| && !e.loads[C.Served(d, ttl, ik)].status.Failed?
  {
    var c := C.Begin(c0, ttl, k);
    C.StepKeepsValid(c0, ttl, C.Call(k));
    C.StepKeepsValid(c, ttl, C.Advance(lag));
    C.ServedIsRecent(c.(now := c.now + lag), ttl, ik);
  }

  /** What a miss adds: a load that awaits one that has not failed, and that one if it is
      new. */
  lemma MissAdds(s: Service, ttl: int, r: Request, lag: nat)
    requires Inv(s, ttl) && !C.Hit(s.cache, ttl, Key(r))
    ensures var t := Step(s, ttl, Ask(r, lag)); var n := |s.cache.loads|;
            && C.Served(s.cache, ttl, Key(r)) == n < |t.cache.loads| == |t.loaders| <= n + 2
            && s.cache.loads <= t.cache.loads && s.loaders <= t.loaders
            && Nested(t.loaders[n]) && t.loaders[n].inner < |t.cache.loads|
            && !t.cache.loads[t.loaders[n].inner].status.Failed?
            && t.cache.loads[n].status.Loading?
            && (n + 1 < |t.loaders| ==> !Nested(t.loaders[n + 1]) && t.cache.loads[n + 1].status.Loading?)
  {
    hide C.Valid, Key, InnerKey, WellAwaited, C.Begin, C.Served, C.Hit, Outer, Inner, Nested;
    var d := C.Begin(s.cache, ttl, Key(r)).(now := C.Begin(s.cache, ttl, Key(r)).now + lag);
    BothCallsGrow(s.cache, ttl, Key(r), lag, InnerKey(r));
    LoaderKeys(r, C.Served(d, ttl, InnerKey(r)));
  }

  lemma HopeOfGrown(s: Service, t: Service, i: nat)
    requires |s.cache.loads| == |s.loaders| && |t.cache.loads| == |t.loaders|
    requires s.cache.loads <= t.cache.loads && s.loaders <= t.loaders
    requires Hopeful(s, i)
    ensures Hopeful(t, i)
  {
  }

  lemma AskKeepsHope(ch: Chain, s: Service, ttl: int, r: Request, lag: nat)
    requires Agreed(ch, s, ttl) && (ttl <= 0 || AllHopeful(s))
    ensures var t := Step(s, ttl, Ask(r, lag));
            && Agreed(ch, t, ttl) && (ttl <= 0 || AllHopeful(t))
            && (forall i: nat :: Hopeful(s, i) ==> Hopeful(t, i))
            && Hopeful(t, C.Served(s.cache, ttl, Key(r)))
  {
    hide C.Valid, Key, WellAwaited, HoldsPlain, C.Begin;
    StepKeepsAgreed(ch, s, ttl, Ask(r, lag));
    if C.Hit(s.cache, ttl, Key(r)) {
      hide Hopeful;
      HitIsHopeful(s, ttl, Key(r));
      assert Step(s, ttl, Ask(r, lag)) == s;
    } else {
      var t, n := Step(s, ttl, Ask(r, lag)), |s.cache.loads|;
      MissAdds(s, ttl, r, lag);
      hide Step, C.Served, C.Hit;
      assert Hopeful(t, n);
      forall i: nat
        ensures Hopeful(s, i) ==> Hopeful(t, i)
        ensures AllHopeful(s) && C.Pending(t.cache, i) ==> Hopeful(t, i)
      {
        if Hopeful(s, i) {
          HopeOfGrown(s, t, i);
        }
        if i < n && C.Pending(t.cache, i) {
          assert C.Pending(s.cache, i);
        }
      }
    }
  }

  lemma HitIsHopeful(s: Service, ttl: int, k: string)
    requires Inv(s, ttl) && (ttl <= 0 || AllHopeful(s)) && C.Hit(s.cache, ttl, k)
    ensures Hopeful(s, C.Served(s.cache, ttl, k))
  {
    assert C.OwnsEntry(s.cache, k, s.cache.store[k]);
  }

  lemma {:induction false} AskUrisKeepsHope(
      ch: Chain, s: Service, ttl: int, known: seq<Known>, lags: seq<(nat, nat)>)
    requires Agreed(ch, s, ttl) && (ttl <= 0 || AllHopeful(s)) && |lags| == |known|
    ensures var (t, ids) := AskUris(s, ttl, known, lags);
            && Agreed(ch, t, ttl) && |ids| == |known|
            && (forall i: nat :: Hopeful(s, i) ==> Hopeful(t, i))
            && (forall i :: 0 <= i < |known| ==> Hopeful(t, ids[i]))
    decreases |known|
  {
    hide Agreed, Key, Hopeful, AllHopeful, Step;
    if known != [] {
      var t := Step(s, ttl, Tick(lags[0].0));
      TickKeepsHope(ch, s, ttl, lags[0].0);
      AskKeepsHope(ch, t, ttl, Uri(known[0].address), lags[0].1);
      AskUrisKeepsHope(ch, Step(t, ttl, Ask(Uri(known[0].address), lags[0].1)), ttl, known[1..], lags[1..]);
    }
  }

  lemma TickKeepsHope(ch: Chain, s: Service, ttl: int, elapsed: nat)
    requires Agreed(ch, s, ttl)
    ensures var t := Step(s, ttl, Tick(elapsed));
            && Agreed(ch, t, ttl) && (AllHopeful(s) ==> AllHopeful(t))
            && forall i: nat :: Hopeful(s, i) ==> Hopeful(t, i)
  {
    StepKeepsAgreed(ch, s, ttl, Tick(elapsed));
    var t := Step(s, ttl, Tick(elapsed));
    assert t.cache.loads == s.cache.loads && t.loaders == s.loaders;
    assert forall i: nat :: Hopeful(s, i) <==> Hopeful(t, i);
    assert forall i: nat :: C.Pending(s.cache, i) <==> C.Pending(t.cache, i);
  }

  /** Against a chain whose pool walk ends within the limit, every call of `listOrchs`
      can return: with nothing cached from any reachable state, and with a cache from
      every one in which no load in flight awaits a failed one. */
  lemma RosterCanReturn(
      ch: Chain, ttl: int, start: int, before: seq<Event>,
      known: seq<Known>, lag: nat, lags: seq<(nat, nat)>) returns (after: seq<Event>)
    requires |lags| == |known| && ReadStakes(ch, ch.manager).Some?
    requires ChainRuns(ch, Init(start), ttl, before) && Runs(Init(start), ttl, before)
    requires ttl <= 0 || AllHopeful(Run(Init(start), ttl, before))
    ensures var s := Run(Init(start), ttl, before);
            var (t, uris) := AskUris(Step(s, ttl, Ask(Pool, lag)), ttl, known, lags);
            && ChainRuns(ch, t, ttl, after) && Runs(t, ttl, after)
            && |uris| == |known|
            && Returned(Run(t, ttl, after), C.Served(s.cache, ttl, Key(Pool)), uris)
  {
    hide AskUris, Key, ChainRuns, Runs, Run, Step, Agreed, Hopeful, AllHopeful, HasUri, HasStakes, ReadStakes, Told;
    InitIsAgreed(ch, ttl, start);
    RunKeepsAgreed(ch, Init(start), ttl, before);
    var s := Run(Init(start), ttl, before);
    AskKeepsHope(ch, s, ttl, Pool, lag);
    var s1 := Step(s, ttl, Ask(Pool, lag));
    AskUrisKeepsHope(ch, s1, ttl, known, lags);
    var (t, uris) := AskUris(s1, ttl, known, lags);
    after := SettleAll(ch, t, ttl);
    RosterReturnsExactly(ch, ttl, start, before, known, lag, lags, after);
    forall id: nat | Hopeful(t, id)
      ensures Told(t, id, after)
    {
      LoadedWasTold(t, ttl, id, after);
    }
  }

  lemma LoadedWasTold(t: Service, ttl: int, id: nat, es: seq<Event>)
    requires Hopeful(t, id) && Runs(t, ttl, es) && HasValue(Run(t, ttl, es), id)
    ensures Told(t, id, es)
  {
    hide Runs, Run;
    OutcomeFollows(t, ttl, es, id);
    var v := Run(t, ttl, es).cache.loads[id].status.value;
    assert Run(t, ttl, es).cache.loads[id].status == C.Loaded(v);
  }
}
