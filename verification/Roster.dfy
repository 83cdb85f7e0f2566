/** `listOrchs` against a chain whose reads are fixed: the cached roster is the
    roster computed without a cache. */
module Roster {
  import opened Prelude
  import opened Enrichment
  import C = CacheMachine
  import P = PoolWalk
  import opened Digits

  // -------------------------------------------------------------- the stake map

  /** Stakes by lower-case address; a later entry overrides an earlier one. */
  function StakeMap(entries: seq<P.PoolEntry>): map<string, string> {
    if entries == [] then map[]
    else var e := entries[|entries| - 1];
         StakeMap(entries[..|entries| - 1])[ToLower(e.address) := e.totalStakeWei]
  }

  method PoolEntriesToStakeMap(entries: seq<P.PoolEntry>) returns (m: map<string, string>)
    ensures m == StakeMap(entries)
  {
    m := map[];
    for i := 0 to |entries|
      invariant m == StakeMap(entries[..i])
    {
      assert entries[..i + 1][..i] == entries[..i];
      m := m[ToLower(entries[i].address) := entries[i].totalStakeWei];
    }
    assert entries[..|entries|] == entries;
  }

  ghost predicate OnList(entries: seq<P.PoolEntry>, a: Address) {
    exists i :: 0 <= i < |entries| && ToLower(entries[i].address) == ToLower(a)
  }

  ghost predicate LastSpelling(entries: seq<P.PoolEntry>, i: nat, a: Address)
    requires i < |entries|
  {
    && ToLower(entries[i].address) == ToLower(a)
    && forall j :: i < j < |entries| ==> ToLower(entries[j].address) != ToLower(a)
  }

  ghost predicate OneSpelling(entries: seq<P.PoolEntry>) {
    forall i, j :: 0 <= i < j < |entries| ==> ToLower(entries[i].address) != ToLower(entries[j].address)
  }

  /** An address is in the map exactly when it is on the list ignoring case, and then
      with the stake of the last such entry; if no address is listed twice, that is its
      own entry. */
  lemma StakeMapMeans(entries: seq<P.PoolEntry>, a: Address)
    ensures ToLower(a) in StakeMap(entries) <==> OnList(entries, a)
    ensures forall i :: 0 <= i < |entries| && LastSpelling(entries, i, a) ==>
              ToLower(a) in StakeMap(entries) && StakeMap(entries)[ToLower(a)] == entries[i].totalStakeWei
    ensures OneSpelling(entries) ==>
      forall i :: 0 <= i < |entries| && ToLower(entries[i].address) == ToLower(a) ==>
        ToLower(a) in StakeMap(entries) && StakeMap(entries)[ToLower(a)] == entries[i].totalStakeWei
  {
    hide StakeMap, ToLower;
    forall i: nat | i < |entries| && LastSpelling(entries, i, a)
      ensures ToLower(a) in StakeMap(entries) && StakeMap(entries)[ToLower(a)] == entries[i].totalStakeWei
    {
      LastEntryWins(entries, i, a);
    }
    if OneSpelling(entries) {
      assert forall i :: 0 <= i < |entries| && ToLower(entries[i].address) == ToLower(a) ==> LastSpelling(entries, i, a);
    }
    StakeMapHolds(entries, a);
  }

  lemma {:induction false} StakeMapHolds(entries: seq<P.PoolEntry>, a: Address)
    ensures ToLower(a) in StakeMap(entries) <==> OnList(entries, a)
    decreases |entries|
  {
    hide ToLower;
    if entries != [] {
      var n := |entries| - 1;
      var init := entries[..n];
      StakeMapHolds(init, a);
      assert forall i :: 0 <= i < n ==> init[i] == entries[i];
    }
  }

  lemma {:induction false} LastEntryWins(entries: seq<P.PoolEntry>, i: nat, a: Address)
    requires i < |entries| && LastSpelling(entries, i, a)
    ensures ToLower(a) in StakeMap(entries) && StakeMap(entries)[ToLower(a)] == entries[i].totalStakeWei
    decreases |entries|
  {
    hide ToLower;
    var n := |entries| - 1;
    if i < n {
      assert ToLower(entries[n].address) != ToLower(a);
      LastEntryWins(entries[..n], i, a);
    }
  }

  // ------------------------------------------------------------------- the chain

  /** Everything the service reads from the chain; `uri` is `None` where the
      contract reverts. */
  datatype Chain = Chain(
    manager: Address, registry: Address, configured: Option<Address>,
    pool: Address -> P.Pool, uri: (Address, Address) -> Option<string>)

  function Registry(ch: Chain): Address {
    if ch.configured.Some? && ch.configured.value != "" then ch.configured.value else ch.registry
  }

  /** `uri || null`, with a reverting read caught. */
  function ReadUri(ch: Chain, registry: Address, orch: Address): Option<string> {
    match ch.uri(registry, orch)
    case None => None
    case Some(u) => if u == "" then None else Some(u)
  }

  ghost function ReadStakes(ch: Chain, manager: Address): Option<map<string, string>> {
    match P.Walk(ch.pool(manager))
    case None => None
    case Some(entries) => Some(StakeMap(entries))
  }

  /** What a loader's chain reads give it, from the address it awaited. */
  ghost function Answer(ch: Chain, s: Service, id: nat): Option<Value>
    requires id < |s.loaders|
  {
    match s.loaders[id]
    case ManagerLoader => Some(AddressV(ch.manager))
    case RegistryLoader => Some(AddressV(Registry(ch)))
    case PoolLoader(d) =>
      if d < |s.cache.loads| && s.cache.loads[d].status.Loaded? && s.cache.loads[d].status.value.AddressV? then
        match ReadStakes(ch, s.cache.loads[d].status.value.address)
        case None => None
        case Some(m) => Some(StakesV(m))
      else None
    case UriLoader(orch, d) =>
      if d < |s.cache.loads| && s.cache.loads[d].status.Loaded? && s.cache.loads[d].status.value.AddressV? then
        Some(UriV(ReadUri(ch, s.cache.loads[d].status.value.address, orch)))
      else None
  }

  /** A run against this chain: a load that succeeds yields what the chain
      answers.  Any other read may still fail at any time. */
  ghost predicate ChainRuns(ch: Chain, s: Service, ttl: int, es: seq<Event>)
    decreases |es|
  {
    es == [] ||
    (&& Enabled(s, es[0])
     && (es[0].Settle? && es[0].outcome.Some? ==> es[0].outcome == Answer(ch, s, es[0].id))
     && ChainRuns(ch, Step(s, ttl, es[0]), ttl, es[1..]))
  }

  lemma {:induction false} ChainRunsAreRuns(ch: Chain, s: Service, ttl: int, es: seq<Event>)
    requires ChainRuns(ch, s, ttl, es)
    ensures Runs(s, ttl, es)
    decreases |es|
  {
    if es != [] {
      ChainRunsAreRuns(ch, Step(s, ttl, es[0]), ttl, es[1..]);
    }
  }

  // --------------------------------------------- cached values are the plain ones

  /** What a loader would compute with no cache in between. */
  ghost function Plain(ch: Chain, l: Loader): Option<Value> {
    match l
    case ManagerLoader => Some(AddressV(ch.manager))
    case RegistryLoader => Some(AddressV(Registry(ch)))
    case PoolLoader(_) =>
      (match ReadStakes(ch, ch.manager)
       case None => None
       case Some(m) => Some(StakesV(m)))
    case UriLoader(orch, _) => Some(UriV(ReadUri(ch, Registry(ch), orch)))
  }

  ghost predicate HoldsPlain(ch: Chain, s: Service, i: nat)
    requires i < |s.cache.loads| == |s.loaders|
  {
    s.cache.loads[i].status.Loaded? ==> Plain(ch, s.loaders[i]) == Some(s.cache.loads[i].status.value)
  }

  ghost predicate Agreed(ch: Chain, s: Service, ttl: int) {
    Inv(s, ttl) && forall i :: 0 <= i < |s.loaders| ==> HoldsPlain(ch, s, i)
  }

  /** The address a nested loader awaited is the plain one. */
  lemma AwaitedIsPlain(ch: Chain, s: Service, ttl: int, id: nat)
    requires Agreed(ch, s, ttl) && id < |s.loaders| && Nested(s.loaders[id])
    ensures var d := s.loaders[id].inner;
            && d < |s.cache.loads|
            && (s.cache.loads[d].status.Loaded? ==>
                  s.cache.loads[d].status.value
                  == AddressV(if s.loaders[id].PoolLoader? then ch.manager else Registry(ch)))
  {
    assert WellAwaited(s, ttl, id);
    var d := s.loaders[id].inner;
    assert WellAwaited(s, ttl, d);
    InnerKeysAreDistinct(s.loaders[d], s.loaders[id]);
    assert HoldsPlain(ch, s, d);
  }

  lemma InnerKeysAreDistinct(l: Loader, outer: Loader)
    requires Nested(outer) && KeyOf(l) == AwaitedKey(outer)
    ensures l == if outer.PoolLoader? then ManagerLoader else RegistryLoader
  {
    assert Key(Pool)[0] == 'p' && InnerKey(Pool)[0] == 'b' && InnerKey(Uri(""))[0] == 's';
    assert InnerKey(Uri(""))[7] == 'R';
    UriKeyStart(if l.UriLoader? then l.orch else "");
  }

  lemma UriKeyStart(orch: Address)
    ensures |Key(Uri(orch))| > 7 && Key(Uri(orch))[0] == 's' && Key(Uri(orch))[7] == 'U'
  {
  }

  lemma StepKeepsAgreed(ch: Chain, s: Service, ttl: int, e: Event)
    requires Agreed(ch, s, ttl) && Enabled(s, e)
    requires e.Settle? && e.outcome.Some? ==> e.outcome == Answer(ch, s, e.id)
    ensures Agreed(ch, Step(s, ttl, e), ttl)
  {
    StepKeepsInv(s, ttl, e);
    StepIsLater(s, ttl, e);
    hide ReadStakes, ReadUri, Registry, KeyOf, Key, InnerKey, AwaitedKey;
    var t := Step(s, ttl, e);
    forall i | 0 <= i < |t.loaders|
      ensures HoldsPlain(ch, t, i)
    {
      if i < |s.loaders| {
        assert HoldsPlain(ch, s, i);
        if e.Settle? && e.id == i && Nested(s.loaders[i]) {
          AwaitedIsPlain(ch, s, ttl, i);
        }
      }
    }
  }

  lemma {:induction false} RunKeepsAgreed(ch: Chain, s: Service, ttl: int, es: seq<Event>)
    requires Agreed(ch, s, ttl) && ChainRuns(ch, s, ttl, es)
    ensures Runs(s, ttl, es)
    ensures Agreed(ch, Run(s, ttl, es), ttl) && Later(s, Run(s, ttl, es))
    decreases |es|
  {
    ChainRunsAreRuns(ch, s, ttl, es);
    if es != [] {
      StepKeepsAgreed(ch, s, ttl, es[0]);
      StepIsLater(s, ttl, es[0]);
      RunKeepsAgreed(ch, Step(s, ttl, es[0]), ttl, es[1..]);
    }
  }

  // ------------------------------------------------------------------ the roster

  datatype Known = Known(address: Address, freshnessStatus: string)

  datatype Row = Row(
    address: Address, serviceUri: Option<string>, capabilities: seq<string>, offerings: seq<string>,
    signatureStatus: string, freshnessStatus: string, activePoolMember: bool,
    totalStakeWei: Option<string>, lastObservedAt: Option<int>)

  function NarrowFreshness(status: string): string {
    if status == "fresh" then "fresh"
    else if status == "stale-recoverable" || status == "stale-failing" then "stale"
    else "unknown"
  }

  function RowOf(k: Known, stakes: map<string, string>, uri: Option<string>): Row {
    var member := ToLower(k.address) in stakes;
    Row(k.address, uri, [], [], "unknown", NarrowFreshness(k.freshnessStatus), member,
        if member then Some(stakes[ToLower(k.address)]) else None, None)
  }

  /** The per-row calls of `listOrchs`, one after another; `lags[i]` gives the time
      that passed before the call and inside it.  The ids are the loads whose
      values the rows will use. */
  function AskUris(s: Service, ttl: int, known: seq<Known>, lags: seq<(nat, nat)>): (Service, seq<nat>)
    requires |lags| == |known|
    decreases |known|
  {
    if known == [] then (s, [])
    else
      var t := Step(s, ttl, Tick(lags[0].0));
      var r := Uri(known[0].address);
      var rest := AskUris(Step(t, ttl, Ask(r, lags[0].1)), ttl, known[1..], lags[1..]);
      (rest.0, [C.Served(t.cache, ttl, Key(r))] + rest.1)
  }

  predicate HasUri(s: Service, id: nat) {
    id < |s.cache.loads| && s.cache.loads[id].status.Loaded? && s.cache.loads[id].status.value.UriV?
  }

  predicate HasStakes(s: Service, id: nat) {
    id < |s.cache.loads| && s.cache.loads[id].status.Loaded? && s.cache.loads[id].status.value.StakesV?
  }

  /** `listOrchs` returns: every awaited load has its value. */
  predicate Returned(s: Service, pool: nat, uris: seq<nat>) {
    HasStakes(s, pool) && forall i :: 0 <= i < |uris| ==> HasUri(s, uris[i])
  }

  function Rows(s: Service, known: seq<Known>, pool: nat, uris: seq<nat>): seq<Row>
    requires |uris| == |known| && Returned(s, pool, uris)
  {
    seq(|known|, i requires 0 <= i < |known| =>
      RowOf(known[i], s.cache.loads[pool].status.value.stakes, s.cache.loads[uris[i]].status.value.uri))
  }

  /** The roster with no cache: one walk, then one service-URI read per row. */
  ghost function PlainRows(ch: Chain, known: seq<Known>): Option<seq<Row>> {
    match ReadStakes(ch, ch.manager)
    case None => None
    case Some(m) =>
      Some(seq(|known|, i requires 0 <= i < |known| =>
        RowOf(known[i], m, ReadUri(ch, Registry(ch), known[i].address))))
  }

  /** Service-URI reads do not tell apart two spellings of one address. */
  ghost predicate CaseBlindUris(ch: Chain) {
    forall a, b :: ToLower(a) == ToLower(b) ==> ReadUri(ch, Registry(ch), a) == ReadUri(ch, Registry(ch), b)
  }

  /** Asking at an agreed state: the load served belongs to the getter asked, and with
      nothing cached to the very spelling. */
  lemma AskServes(ch: Chain, s: Service, ttl: int, r: Request, lag: nat)
    requires Agreed(ch, s, ttl)
    ensures var t := Step(s, ttl, Ask(r, lag)); var id := C.Served(s.cache, ttl, Key(r));
            && Agreed(ch, t, ttl) && Later(s, t) && id < |t.loaders|
            && (r.Pool? ==> t.loaders[id].PoolLoader?)
            && (r.Uri? ==> t.loaders[id].UriLoader? && ToLower(t.loaders[id].orch) == ToLower(r.orch))
            && (r.Uri? && ttl <= 0 ==> t.loaders[id].orch == r.orch)
  {
    var t := Step(s, ttl, Ask(r, lag));
    var id := C.Served(s.cache, ttl, Key(r));
    StepKeepsAgreed(ch, s, ttl, Ask(r, lag));
    StepIsLater(s, ttl, Ask(r, lag));
    C.ServedIsRecent(s.cache, ttl, Key(r));
    assert t.cache.loads[id].key == Key(r);
    assert WellAwaited(t, ttl, id);
    KeysAreDistinct(t.loaders[id], r);
  }

  ghost predicate ServesUri(s: Service, ttl: int, id: nat, orch: Address) {
    && id < |s.loaders| && s.loaders[id].UriLoader?
    && ToLower(s.loaders[id].orch) == ToLower(orch)
    && (ttl <= 0 ==> s.loaders[id].orch == orch)
  }

  lemma {:induction false} AskUrisServes(ch: Chain, s: Service, ttl: int, known: seq<Known>, lags: seq<(nat, nat)>)
    requires Agreed(ch, s, ttl) && |lags| == |known|
    ensures var (t, ids) := AskUris(s, ttl, known, lags);
            && Agreed(ch, t, ttl) && Later(s, t) && |ids| == |known|
            && forall i :: 0 <= i < |known| ==> ServesUri(t, ttl, ids[i], known[i].address)
    decreases |known|
  {
    hide Step, Agreed, Key;
    if known != [] {
      var r := Uri(known[0].address);
      var t := Step(s, ttl, Tick(lags[0].0));
      StepKeepsAgreed(ch, s, ttl, Tick(lags[0].0));
      StepIsLater(s, ttl, Tick(lags[0].0));
      AskServes(ch, t, ttl, r, lags[0].1);
      var u := Step(t, ttl, Ask(r, lags[0].1));
      AskUrisServes(ch, u, ttl, known[1..], lags[1..]);
      var (v, ids) := AskUris(s, ttl, known, lags);
      forall i | 0 <= i < |known|
        ensures ServesUri(v, ttl, ids[i], known[i].address)
      {
        if i == 0 {
          assert ServesUri(u, ttl, ids[0], known[0].address);
        } else {
          assert known[i] == known[1..][i - 1];
        }
      }
    }
  }

  /** From any reachable cache state, with anything else going on in between,
      `listOrchs` returns, when it returns, exactly the rows of the uncached
      computation, in `listKnown` order. */
  lemma CachedRosterIsPlain(
      ch: Chain, ttl: int, start: int, before: seq<Event>,
      known: seq<Known>, lag: nat, lags: seq<(nat, nat)>, after: seq<Event>)
    requires (ttl <= 0 || CaseBlindUris(ch)) && |lags| == |known|
    requires ChainRuns(ch, Init(start), ttl, before) && Runs(Init(start), ttl, before)
    requires var s := Run(Init(start), ttl, before);
             var t := AskUris(Step(s, ttl, Ask(Pool, lag)), ttl, known, lags).0;
             ChainRuns(ch, t, ttl, after) && Runs(t, ttl, after)
    ensures var s := Run(Init(start), ttl, before);
            var (t, uris) := AskUris(Step(s, ttl, Ask(Pool, lag)), ttl, known, lags);
            var pool := C.Served(s.cache, ttl, Key(Pool));
            var u := Run(t, ttl, after);
            && |uris| == |known|
            && (Returned(u, pool, uris) ==> PlainRows(ch, known) == Some(Rows(u, known, pool, uris)))
  {
    hide AskUris, Key, ChainRuns, Runs, Run, Step, Rows, PlainRows, CaseBlindUris, Inv, HoldsPlain;
    InitIsAgreed(ch, ttl, start);
    RunKeepsAgreed(ch, Init(start), ttl, before);
    var s := Run(Init(start), ttl, before);
    AskServes(ch, s, ttl, Pool, lag);
    var s1 := Step(s, ttl, Ask(Pool, lag));
    AskUrisServes(ch, s1, ttl, known, lags);
    var (t, uris) := AskUris(s1, ttl, known, lags);
    RunKeepsAgreed(ch, t, ttl, after);
    var u := Run(t, ttl, after);
    var pool := C.Served(s.cache, ttl, Key(Pool));
    forall i | 0 <= i < |known|
      ensures ServesUri(u, ttl, uris[i], known[i].address)
    {
      assert ServesUri(t, ttl, uris[i], known[i].address);
    }
    if Returned(u, pool, uris) {
      RowsArePlain(ch, u, ttl, known, pool, uris);
    }
  }

  lemma RowsArePlain(ch: Chain, u: Service, ttl: int, known: seq<Known>, pool: nat, uris: seq<nat>)
    requires Agreed(ch, u, ttl) && (ttl <= 0 || CaseBlindUris(ch)) && |uris| == |known| && Returned(u, pool, uris)
    requires u.loaders[pool].PoolLoader?
    requires forall i :: 0 <= i < |known| ==> ServesUri(u, ttl, uris[i], known[i].address)
    ensures PlainRows(ch, known) == Some(Rows(u, known, pool, uris))
  {
    assert HoldsPlain(ch, u, pool);
    forall i | 0 <= i < |known|
      ensures u.cache.loads[uris[i]].status.value.uri == ReadUri(ch, Registry(ch), known[i].address)
    {
      assert ServesUri(u, ttl, uris[i], known[i].address);
      assert HoldsPlain(ch, u, uris[i]);
    }
    assert PlainRows(ch, known).value == Rows(u, known, pool, uris);
  }

  ghost predicate OnPath(path: seq<Address>, a: Address) {
    exists j :: 0 <= j < |path| && ToLower(path[j]) == ToLower(a)
  }

  ghost predicate LastOnPath(path: seq<Address>, j: nat, a: Address) {
    && j < |path| && ToLower(path[j]) == ToLower(a)
    && forall l :: j < l < |path| ==> ToLower(path[l]) != ToLower(a)
  }

  /** A row is active exactly when its address is, ignoring case, on the contract's path,
      and then shows the amount delegated to the last such address. */
  ghost predicate StakeTells(ch: Chain, path: seq<Address>, row: Row) {
    && (row.activePoolMember <==> OnPath(path, row.address))
    && (row.activePoolMember <==> row.totalStakeWei.Some?)
    && (forall j: nat :: LastOnPath(path, j, row.address) ==>
          && row.totalStakeWei.Some?
          && ParseBigInt(row.totalStakeWei.value) == Some(ch.pool(ch.manager).delegated(path[j])))
  }

  /** Its service URI is the one read for the row's own spelling at the configured
      registry, or at the controller's where none is configured. */
  ghost predicate UriTells(ch: Chain, row: Row) {
    && (ch.configured.Some? && ch.configured.value != "" ==>
          ShowsRead(row.serviceUri, ch.uri(ch.configured.value, row.address)))
    && (ch.configured == None || ch.configured == Some("") ==>
          ShowsRead(row.serviceUri, ch.uri(ch.registry, row.address)))
  }

  /** Nothing else is known of the orch but how fresh the resolver calls it. */
  ghost predicate RestTells(k: Known, row: Row) {
    && row.address == k.address
    && (row.freshnessStatus == "fresh" <==> k.freshnessStatus == "fresh")
    && (row.freshnessStatus == "stale" <==> k.freshnessStatus in {"stale-recoverable", "stale-failing"})
    && row.freshnessStatus in {"fresh", "stale", "unknown"}
    && row.capabilities == [] && row.offerings == [] && row.signatureStatus == "unknown"
    && row.lastObservedAt == None
  }

  ghost predicate RowTells(ch: Chain, k: Known, path: seq<Address>, row: Row) {
    StakeTells(ch, path, row) && UriTells(ch, row) && RestTells(k, row)
  }

  /** A reverting or empty read is shown as nothing. */
  ghost predicate ShowsRead(shown: Option<string>, read: Option<string>) {
    match shown
    case None => read == None || read == Some("")
    case Some(u) => u != "" && read == Some(u)
  }

  /** The plain rows are there exactly when the contract's path ends within 1000 entries;
      they are one per known orch, in order, and tell the truth. */
  lemma PlainRowsMean(ch: Chain, known: seq<Known>)
    ensures PlainRows(ch, known).Some? <==> exists path :: P.IsPath(ch.pool(ch.manager), path) && |path| <= 1000
    ensures PlainRows(ch, known).Some? ==>
      var rows := PlainRows(ch, known).value;
      && |rows| == |known|
      && exists path :: P.IsPath(ch.pool(ch.manager), path)
           && forall i :: 0 <= i < |known| ==> RowTells(ch, known[i], path, rows[i])
  {
    hide RowTells, P.IsPath;
    var pool := ch.pool(ch.manager);
    P.WalkIsThePath(pool);
    if PlainRows(ch, known).Some? {
      var entries := P.Walk(pool).value;
      var path := P.Addresses(entries);
      forall i | 0 <= i < |known|
        ensures RowTells(ch, known[i], path, PlainRows(ch, known).value[i])
      {
        PlainRowTells(ch, known, entries, i);
      }
      assert P.IsPath(pool, path);
    }
  }

  /** So a roster returned from the cache tells the truth too. */
  lemma CachedRosterTells(
      ch: Chain, ttl: int, start: int, before: seq<Event>,
      known: seq<Known>, lag: nat, lags: seq<(nat, nat)>, after: seq<Event>)
    requires (ttl <= 0 || CaseBlindUris(ch)) && |lags| == |known|
    requires ChainRuns(ch, Init(start), ttl, before) && Runs(Init(start), ttl, before)
    requires var s := Run(Init(start), ttl, before);
             var t := AskUris(Step(s, ttl, Ask(Pool, lag)), ttl, known, lags).0;
             ChainRuns(ch, t, ttl, after) && Runs(t, ttl, after)
    ensures var s := Run(Init(start), ttl, before);
            var (t, uris) := AskUris(Step(s, ttl, Ask(Pool, lag)), ttl, known, lags);
            var pool := C.Served(s.cache, ttl, Key(Pool));
            var u := Run(t, ttl, after);
            && |uris| == |known|
            && (Returned(u, pool, uris) ==>
                  exists path :: P.IsPath(ch.pool(ch.manager), path)
                    && forall i :: 0 <= i < |known| ==> RowTells(ch, known[i], path, Rows(u, known, pool, uris)[i]))
  {
    hide AskUris, Key, ChainRuns, Runs, Run, Step, Rows, PlainRows, CaseBlindUris, RowTells, P.IsPath, Returned;
    CachedRosterIsPlain(ch, ttl, start, before, known, lag, lags, after);
    PlainRowsMean(ch, known);
  }

  lemma PlainRowTells(ch: Chain, known: seq<Known>, entries: seq<P.PoolEntry>, i: nat)
    requires P.Walk(ch.pool(ch.manager)) == Some(entries) && i < |known|
    ensures RowTells(ch, known[i], P.Addresses(entries), PlainRows(ch, known).value[i])
  {
    hide P.Walk, P.IsPath, StakeMap, StakeTells, UriTells, RestTells;
    var uri := ReadUri(ch, Registry(ch), known[i].address);
    assert PlainRows(ch, known).value[i] == RowOf(known[i], StakeMap(entries), uri);
    hide PlainRows, RowOf, ReadUri, Registry;
    RowOfTells(known[i], StakeMap(entries), uri);
    RowUriTells(ch, known[i], StakeMap(entries));
    RowStakeTells(ch, known[i], entries, uri);
  }

  lemma RowOfTells(k: Known, stakes: map<string, string>, uri: Option<string>)
    ensures RestTells(k, RowOf(k, stakes, uri))
  {
  }

  lemma RowUriTells(ch: Chain, k: Known, stakes: map<string, string>)
    ensures UriTells(ch, RowOf(k, stakes, ReadUri(ch, Registry(ch), k.address)))
  {
  }

  lemma WalkStakes(p: P.Pool, entries: seq<P.PoolEntry>)
    requires P.Walk(p) == Some(entries)
    ensures forall i :: 0 <= i < |entries| ==>
              ParseBigInt(entries[i].totalStakeWei) == Some(p.delegated(entries[i].address))
  {
    hide *;
    P.WalkIsThePath(p);
  }

  lemma RowStakeTells(ch: Chain, k: Known, entries: seq<P.PoolEntry>, uri: Option<string>)
    requires P.Walk(ch.pool(ch.manager)) == Some(entries)
    ensures StakeTells(ch, P.Addresses(entries), RowOf(k, StakeMap(entries), uri))
  {
    hide P.Walk, StakeMap, ToLower, NarrowFreshness, ParseBigInt, OneSpelling;
    var path := P.Addresses(entries);
    WalkStakes(ch.pool(ch.manager), entries);
    StakeMapMeans(entries, k.address);
    assert forall j :: 0 <= j < |path| ==> path[j] == entries[j].address;
    assert OnList(entries, k.address) <==> OnPath(path, k.address);
    assert forall j: nat :: LastOnPath(path, j, k.address) ==> LastSpelling(entries, j, k.address);
  }

  /** With a positive `ttl` the condition on spellings cannot be dropped: a call for `b`
      right after a call for another spelling `a` of the same address is handed `a`'s
      read. */
  lemma SpellingsShareOneRead(ch: Chain, ttl: int, a: Address, b: Address) returns (es: seq<Event>)
    requires 0 < ttl && ToLower(a) == ToLower(b)
    ensures ChainRuns(ch, Init(0), ttl, es) && Runs(Init(0), ttl, es)
    ensures var s := Run(Init(0), ttl, es); var id := C.Served(s.cache, ttl, Key(Uri(b)));
            HasUri(s, id) && s.cache.loads[id].status.value == UriV(ReadUri(ch, Registry(ch), a))
  {
    var r := Uri(a);
    var e0, e1, e2 := Ask(r, 0), Settle(1, Some(AddressV(Registry(ch)))),
                      Settle(0, Some(UriV(ReadUri(ch, Registry(ch), a))));
    es := [e0, e1, e2];
    assert Key(r) != InnerKey(r) by {
      assert Key(r)[7] == 'U' && InnerKey(r)[7] == 'R';
    }
    var s0 := Init(0);
    var s1 := Step(s0, ttl, e0);
    assert s1.cache.loads == [C.Load(Key(r), 0, C.Loading), C.Load(InnerKey(r), 0, C.Loading)];
    assert s1.loaders == [UriLoader(a, 1), RegistryLoader];
    assert s1.cache.store[Key(r)] == 0;
    var s2 := Step(s1, ttl, e1);
    var s3 := Step(s2, ttl, e2);
    assert es[1..] == [e1, e2] && es[1..][1..] == [e2] && es[1..][1..][1..] == [];
    assert ChainRuns(ch, s3, ttl, []) && ChainRuns(ch, s2, ttl, [e2]) && ChainRuns(ch, s1, ttl, [e1, e2]);
    ChainRunsAreRuns(ch, s0, ttl, es);
    assert Run(s0, ttl, es) == Run(s1, ttl, [e1, e2]) == Run(s2, ttl, [e2]) == s3;
  }

  /** If the call for `orch` made after `es` has its service URI by the end of `fs`, it is
      the one read for the caller's own spelling. */
  ghost predicate OwnAnswer(ch: Chain, ttl: int, start: int, es: seq<Event>, orch: Address, lag: nat, fs: seq<Event>) {
    ChainRuns(ch, Init(start), ttl, es) && Runs(Init(start), ttl, es) ==>
      var s := Run(Init(start), ttl, es);
      var t := Step(s, ttl, Ask(Uri(orch), lag));
      ChainRuns(ch, t, ttl, fs) && Runs(t, ttl, fs) ==>
        var u, id := Run(t, ttl, fs), C.Served(s.cache, ttl, Key(Uri(orch)));
        HasUri(u, id) ==> u.cache.loads[id].status.value.uri == ReadUri(ch, Registry(ch), orch)
  }

  /** In every run, every caller is answered with the read of its own spelling. */
  ghost predicate UrisAreOwn(ch: Chain, ttl: int) {
    forall start, es, orch, lag, fs :: OwnAnswer(ch, ttl, start, es, orch, lag, fs)
  }

  /** That holds exactly when nothing is cached or the chain's read does not tell
      spellings apart. */
  lemma UrisAreOwnExactly(ch: Chain, ttl: int)
    ensures UrisAreOwn(ch, ttl) <==> ttl <= 0 || CaseBlindUris(ch)
  {
    if ttl <= 0 || CaseBlindUris(ch) {
      forall start, es, orch, lag, fs
        ensures OwnAnswer(ch, ttl, start, es, orch, lag, fs)
      {
        OwnWhenBlind(ch, ttl, start, es, orch, lag, fs);
      }
    }
    if UrisAreOwn(ch, ttl) && 0 < ttl {
      forall a, b | ToLower(a) == ToLower(b)
        ensures ReadUri(ch, Registry(ch), a) == ReadUri(ch, Registry(ch), b)
      {
        SharedReadIsOwn(ch, ttl, a, b);
      }
    }
  }

  lemma OwnWhenBlind(ch: Chain, ttl: int, start: int, es: seq<Event>, orch: Address, lag: nat, fs: seq<Event>)
    requires ttl <= 0 || CaseBlindUris(ch)
    ensures OwnAnswer(ch, ttl, start, es, orch, lag, fs)
  {
    hide Step, WellAwaited, Key, ReadUri, Registry, ChainRuns, Runs, Run;
    if ChainRuns(ch, Init(start), ttl, es) && Runs(Init(start), ttl, es) {
      InitIsAgreed(ch, ttl, start);
      RunKeepsAgreed(ch, Init(start), ttl, es);
      var s := Run(Init(start), ttl, es);
      AskServes(ch, s, ttl, Uri(orch), lag);
      var t, id := Step(s, ttl, Ask(Uri(orch), lag)), C.Served(s.cache, ttl, Key(Uri(orch)));
      if ChainRuns(ch, t, ttl, fs) && Runs(t, ttl, fs) {
        RunKeepsAgreed(ch, t, ttl, fs);
        var u := Run(t, ttl, fs);
        if HasUri(u, id) {
          assert HoldsPlain(ch, u, id) && u.loaders[id] == t.loaders[id];
        }
      }
    }
  }

  lemma InitIsAgreed(ch: Chain, ttl: int, start: int)
    ensures Agreed(ch, Init(start), ttl)
  {
  }

  lemma SharedReadIsOwn(ch: Chain, ttl: int, a: Address, b: Address)
    requires 0 < ttl && ToLower(a) == ToLower(b) && UrisAreOwn(ch, ttl)
    ensures ReadUri(ch, Registry(ch), a) == ReadUri(ch, Registry(ch), b)
  {
    var es := SpellingsShareOneRead(ch, ttl, a, b);
    assert OwnAnswer(ch, ttl, 0, es, b, 0, []);
    var s := Run(Init(0), ttl, es);
    assert C.Hit(s.cache, ttl, Key(Uri(b)));
    assert Step(s, ttl, Ask(Uri(b), 0)) == s;
    assert ChainRuns(ch, s, ttl, []) && Run(s, ttl, []) == s;
  }
}
