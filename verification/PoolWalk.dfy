/** The BondingManager pool walk: a linked list read one link at a time, with a
    limit on the number of entries. */
module PoolWalk {
  import opened Prelude
  import opened Digits

  type Address = string

  const POOL_WALK_SAFETY_LIMIT: nat := 1000

  datatype PoolEntry = PoolEntry(address: Address, totalStakeWei: string)

  /** The contract's answers, fixed while the walk lasts. */
  datatype Pool = Pool(first: Address, next: Address -> Address, delegated: Address -> nat)

  /** "0x" and forty zeros. */
  function ZeroAddress(): Address {
    "0x" + seq(40, i => '0')
  }

  predicate IsZero(a: Address) {
    ToLower(a) == ZeroAddress()
  }

  /** The address reached from the first one over `n` links. */
  function Nth(p: Pool, n: nat): Address {
    if n == 0 then p.first else p.next(Nth(p, n - 1))
  }

  function EntryAt(p: Pool, n: nat): PoolEntry {
    PoolEntry(Nth(p, n), ToDecimal(p.delegated(Nth(p, n))))
  }

  /** The zero address is met for the first time after `n` entries. */
  ghost predicate EndsAfter(p: Pool, n: nat) {
    IsZero(Nth(p, n)) && forall i: nat :: i < n ==> !IsZero(Nth(p, i))
  }

  /** What the walk is for: the path from the first address to the zero address,
      or nothing when that path is longer than the limit or never ends. */
  ghost function Walk(p: Pool): Option<seq<PoolEntry>> {
    if exists n: nat :: n <= POOL_WALK_SAFETY_LIMIT && EndsAfter(p, n) then
      var n: nat :| n <= POOL_WALK_SAFETY_LIMIT && EndsAfter(p, n);
      Some(seq(n, i requires 0 <= i < n => EntryAt(p, i)))
    else None
  }

  /** `out` lists the first entries of the path, none of them the zero address. */
  ghost predicate Follows(p: Pool, out: seq<PoolEntry>) {
    forall i :: 0 <= i < |out| ==> out[i] == EntryAt(p, i) && !IsZero(out[i].address)
  }

  /** `bondingManagerListPool`; `None` is the thrown error. */
  method ListPool(p: Pool) returns (r: Option<seq<PoolEntry>>)
    ensures r == Walk(p)
  {
    var out: seq<PoolEntry> := [];
    var addr := p.first;
    var steps := 0;
    while !IsZero(addr)
      invariant steps == |out| <= POOL_WALK_SAFETY_LIMIT
      invariant addr == Nth(p, steps)
      invariant Follows(p, out)
      decreases POOL_WALK_SAFETY_LIMIT - steps
    {
      steps := steps + 1;
      if steps > POOL_WALK_SAFETY_LIMIT {
        TooLong(p, out);
        return None;
      }
      FollowsOn(p, out);
      out := out + [PoolEntry(addr, ToDecimal(p.delegated(addr)))];
      addr := p.next(addr);
    }
    ReachedTheEnd(p, out);
    r := Some(out);
  }

  lemma FollowsOn(p: Pool, out: seq<PoolEntry>)
    requires Follows(p, out) && !IsZero(Nth(p, |out|))
    ensures Follows(p, out + [EntryAt(p, |out|)])
  {
  }

  lemma TooLong(p: Pool, out: seq<PoolEntry>)
    requires Follows(p, out) && |out| == POOL_WALK_SAFETY_LIMIT && !IsZero(Nth(p, |out|))
    ensures Walk(p) == None
  {
    forall n: nat | n <= POOL_WALK_SAFETY_LIMIT
      ensures !IsZero(Nth(p, n))
    {
      assert n < |out| ==> out[n] == EntryAt(p, n);
    }
  }

  lemma ReachedTheEnd(p: Pool, out: seq<PoolEntry>)
    requires Follows(p, out) && |out| <= POOL_WALK_SAFETY_LIMIT && IsZero(Nth(p, |out|))
    ensures Walk(p) == Some(out)
  {
    forall n: nat | n < |out|
      ensures !IsZero(Nth(p, n))
    {
      assert out[n] == EntryAt(p, n);
    }
    EndIsUnique(p, |out|);
    assert out == seq(|out|, i requires 0 <= i < |out| => EntryAt(p, i));
  }

  lemma EndIsUnique(p: Pool, n: nat)
    requires EndsAfter(p, n)
    ensures forall m: nat :: EndsAfter(p, m) ==> m == n
  {
    forall m: nat | EndsAfter(p, m)
      ensures m == n
    {
      assert m < n ==> !IsZero(Nth(p, m));
      assert n < m ==> !IsZero(Nth(p, n));
    }
  }

  lemma {:induction false} SamePathAfter(p: Pool, i: nat, j: nat, k: nat)
    requires Nth(p, i) == Nth(p, j)
    ensures Nth(p, i + k) == Nth(p, j + k)
    decreases k
  {
    if k > 0 {
      SamePathAfter(p, i, j, k - 1);
    }
  }

  /** `next` does not tell apart two spellings of one address. */
  ghost predicate CaseBlind(p: Pool) {
    forall a, b :: ToLower(a) == ToLower(b) ==> p.next(a) == p.next(b)
  }

  /** A path that ends visits no address twice. */
  lemma NoRepeats(p: Pool, n: nat, i: nat, j: nat)
    requires EndsAfter(p, n) && i < j <= n
    ensures Nth(p, i) != Nth(p, j)
  {
    if Nth(p, i) == Nth(p, j) {
      SamePathAfter(p, i, j, n - j);
      assert false;
    }
  }

  /** If spellings do not matter to the contract, not even in another spelling. */
  lemma NoRespellings(p: Pool, n: nat, i: nat, j: nat)
    requires EndsAfter(p, n) && i < j < n && CaseBlind(p)
    ensures ToLower(Nth(p, i)) != ToLower(Nth(p, j))
  {
    hide EndsAfter, ToLower;
    var a, b := Nth(p, i), Nth(p, j);
    assert p.next(a) == Nth(p, i + 1) && p.next(b) == Nth(p, j + 1);
    NoRepeats(p, n, i + 1, j + 1);
  }

  /** The contract's links followed from the first address, up to the zero address. */
  ghost predicate IsPath(p: Pool, path: seq<Address>) {
    && ToLower(if path == [] then p.first else p.next(path[|path| - 1])) == "0x0000000000000000000000000000000000000000"
    && (path != [] ==> path[0] == p.first)
    && (forall i :: 0 <= i < |path| - 1 ==> path[i + 1] == p.next(path[i]))
    && (forall i :: 0 <= i < |path| ==> ToLower(path[i]) != "0x0000000000000000000000000000000000000000")
  }

  lemma ZeroIs()
    ensures ZeroAddress() == "0x0000000000000000000000000000000000000000"
  {
  }

  lemma {:induction false} NthOfPath(p: Pool, path: seq<Address>, i: nat)
    requires IsPath(p, path) && i <= |path|
    ensures i < |path| ==> Nth(p, i) == path[i] && !IsZero(path[i])
    ensures i == |path| ==> IsZero(Nth(p, i))
    decreases i
  {
    ZeroIs();
    hide ToLower, ZeroAddress;
    if i > 0 {
      NthOfPath(p, path, i - 1);
      assert i < |path| ==> path[(i - 1) + 1] == p.next(path[i - 1]);
    }
  }

  lemma PathEnds(p: Pool, path: seq<Address>)
    requires IsPath(p, path)
    ensures EndsAfter(p, |path|)
  {
    hide IsPath, IsZero;
    forall i: nat | i <= |path|
      ensures IsZero(Nth(p, i)) <==> i == |path|
    {
      NthOfPath(p, path, i);
    }
  }

  function Addresses(out: seq<PoolEntry>): seq<Address> {
    seq(|out|, i requires 0 <= i < |out| => out[i].address)
  }

  lemma EntriesArePath(p: Pool, out: seq<PoolEntry>)
    requires EndsAfter(p, |out|) && forall i :: 0 <= i < |out| ==> out[i] == EntryAt(p, i)
    ensures IsPath(p, Addresses(out))
  {
    ZeroIs();
    hide ToLower, ZeroAddress;
    var path := Addresses(out);
    assert forall i :: 0 <= i < |out| ==> path[i] == Nth(p, i) && !IsZero(Nth(p, i));
    forall i | 0 <= i < |out| - 1
      ensures path[i + 1] == p.next(path[i])
    {
      assert Nth(p, i + 1) == p.next(Nth(p, i));
    }
    if out != [] {
      assert Nth(p, |out|) == p.next(Nth(p, |out| - 1));
    }
  }

  /** The walk succeeds exactly when the contract's links lead to the zero address
      within 1000 entries, and then yields those addresses in order, pairwise distinct,
      each with its own delegated amount. */
  lemma WalkIsThePath(p: Pool)
    ensures Walk(p).Some? <==> exists path :: IsPath(p, path) && |path| <= 1000
    ensures Walk(p).Some? <==> exists n: nat :: n <= POOL_WALK_SAFETY_LIMIT && EndsAfter(p, n)
    ensures Walk(p).Some? ==>
      var out := Walk(p).value;
      && |out| <= 1000 && IsPath(p, Addresses(out))
      && (forall i :: 0 <= i < |out| ==>
            && out[i].totalStakeWei == ToDecimal(p.delegated(out[i].address))
            && ParseBigInt(out[i].totalStakeWei) == Some(p.delegated(out[i].address)))
      && EndsAfter(p, |out|)
      && (forall i :: 0 <= i < |out| ==> out[i] == EntryAt(p, i))
      && (forall i, j :: 0 <= i < j < |out| ==> out[i].address != out[j].address)
      && (CaseBlind(p) ==>
            forall i, j :: 0 <= i < j < |out| ==> ToLower(out[i].address) != ToLower(out[j].address))
  {
    hide IsPath, EndsAfter, EntryAt, IsZero, CaseBlind, Addresses, ToLower;
    WalkIsSome(p);
    if Walk(p).Some? {
      var out := Walk(p).value;
      WalkLists(p, out);
      forall i | 0 <= i < |out|
        ensures out[i].totalStakeWei == ToDecimal(p.delegated(out[i].address))
        ensures ParseBigInt(out[i].totalStakeWei) == Some(p.delegated(out[i].address))
      {
        EntryShows(p, i);
      }
      EntriesArePath(p, out);
      AddressesAreDistinct(p, out);
    }
  }

  lemma WalkIsSome(p: Pool)
    ensures Walk(p).Some? <==> exists n: nat :: n <= POOL_WALK_SAFETY_LIMIT && EndsAfter(p, n)
    ensures Walk(p).Some? <==> exists path :: IsPath(p, path) && |path| <= 1000
  {
    hide IsPath, EndsAfter, EntryAt;
    if Walk(p).Some? {
      var out := Walk(p).value;
      WalkLists(p, out);
      EntriesArePath(p, out);
      assert |Addresses(out)| <= 1000;
    }
    if path :| IsPath(p, path) && |path| <= 1000 {
      PathEnds(p, path);
    }
  }

  lemma WalkLists(p: Pool, out: seq<PoolEntry>)
    requires Walk(p) == Some(out)
    ensures |out| <= 1000 && EndsAfter(p, |out|)
    ensures forall i :: 0 <= i < |out| ==> out[i] == EntryAt(p, i)
  {
    hide EndsAfter, EntryAt;
  }

  lemma EntryShows(p: Pool, n: nat)
    ensures var e := EntryAt(p, n);
            && e.totalStakeWei == ToDecimal(p.delegated(e.address))
            && ParseBigInt(e.totalStakeWei) == Some(p.delegated(e.address))
  {
    hide ParseBigInt, ToDecimal;
    ParsePrinted(p.delegated(Nth(p, n)));
  }

  lemma AddressesAreDistinct(p: Pool, out: seq<PoolEntry>)
    requires EndsAfter(p, |out|) && forall i :: 0 <= i < |out| ==> out[i] == EntryAt(p, i)
    ensures forall i, j :: 0 <= i < j < |out| ==> out[i].address != out[j].address
    ensures CaseBlind(p) ==>
              forall i, j :: 0 <= i < j < |out| ==> ToLower(out[i].address) != ToLower(out[j].address)
  {
    hide EndsAfter, CaseBlind, ToLower, ToDecimal, Nth;
    forall i, j | 0 <= i < j < |out|
      ensures out[i].address != out[j].address
      ensures CaseBlind(p) ==> ToLower(out[i].address) != ToLower(out[j].address)
    {
      NoRepeats(p, |out|, i, j);
      if CaseBlind(p) {
        NoRespellings(p, |out|, i, j);
      }
    }
  }

  /** Any cycle among non-zero addresses makes the walk throw. */
  lemma CycleThrows(p: Pool, i: nat, j: nat)
    requires i < j && Nth(p, i) == Nth(p, j)
    requires forall k: nat :: k < j ==> !IsZero(Nth(p, k))
    ensures Walk(p) == None
  {
    forall n: nat
      ensures !EndsAfter(p, n)
    {
      NeverZero(p, i, j, n);
    }
  }

  lemma {:induction false} NeverZero(p: Pool, i: nat, j: nat, n: nat)
    requires i < j && Nth(p, i) == Nth(p, j)
    requires forall k: nat :: k < j ==> !IsZero(Nth(p, k))
    ensures !IsZero(Nth(p, n))
    decreases n
  {
    if n >= j {
      SamePathAfter(p, i, j, n - j);
      NeverZero(p, i, j, n - (j - i));
    }
  }
}
