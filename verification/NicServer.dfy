/** The server: bootstrap, rank, propose, and activate resolvers. */
module NicServer {
  import opened Sequences
  import opened Resolvers
  import opened ResolverPools
  import opened ResolvConf
  import opened QtText

  /** The first `k` of a list, or all of it. */
  function Top(rs: seq<Resolver>, k: nat): (top: seq<Resolver>)
    ensures top <= rs && |top| == if k <= |rs| then k else |rs|
  {
    rs[..Min(k, |rs|)]
  }

  lemma TopIs(rs: seq<Resolver>, k: nat)
    ensures Top(rs, k) == rs[..if k <= |rs| then k else |rs|]
  {
  }

  function Hosts(rs: seq<Resolver>): (hosts: seq<string>)
    ensures |hosts| == |rs|
    ensures forall i :: 0 <= i < |rs| ==> hosts[i] == rs[i].host
  {
    seq(|rs|, i requires 0 <= i < |rs| => rs[i].host)
  }

  function In(r: Resolver, rs: seq<Resolver>): nat {
    if r in rs then 1 else 0
  }

  /** Every resolver held by one of three live pools has at least as many references as pools hold
      it, and is not scheduled for deletion. */
  ghost predicate RefsSafe(a: seq<Resolver>, b: seq<Resolver>, c: seq<Resolver>)
    reads a`refCount, a`doomed, b`refCount, b`doomed, c`refCount, c`doomed
  {
    && (forall r :: r in a ==> !r.doomed && r.refCount >= 1 + In(r, b) + In(r, c))
    && (forall r :: r in b ==> !r.doomed && r.refCount >= In(r, a) + 1 + In(r, c))
    && (forall r :: r in c ==> !r.doomed && r.refCount >= In(r, a) + In(r, b) + 1)
  }

  ghost function Histories(rs: seq<Resolver>): (hs: seq<seq<Query>>)
    reads rs`queries
    ensures |hs| == |rs|
    ensures forall i :: 0 <= i < |rs| ==> hs[i] == rs[i].queries
  {
    if rs == [] then [] else Histories(rs[..|rs| - 1]) + [rs[|rs| - 1].queries]
  }

  /** The greatest mean latency of a list of histories. */
  ghost function GreatestMean(hs: seq<seq<Query>>): real {
    MaxOf(seq(|hs|, i requires 0 <= i < |hs| => MeanLatency(hs[i])))
  }

  lemma GreatestOfMeans(rs: seq<Resolver>, hs: seq<seq<Query>>)
    requires |hs| == |rs| && forall i :: 0 <= i < |rs| ==> hs[i] == rs[i].queries
    ensures GreatestMean(hs) == MaxOf(Means(rs))
  {
    assert Means(rs) == seq(|hs|, i requires 0 <= i < |hs| => MeanLatency(hs[i]));
  }

  /** Every resolver has the score that its history gives it among all histories. */
  ghost predicate Rescored(rs: seq<Resolver>, hs: seq<seq<Query>>)
    reads rs`score
  {
    |hs| == |rs| && forall i :: 0 <= i < |rs| ==> rs[i].score == ScoreFrom(rs[i].kind, hs[i], GreatestMean(hs))
  }

  lemma RescoredBy(rs: seq<Resolver>, hs: seq<seq<Query>>, max: real)
    requires |hs| == |rs| && max == GreatestMean(hs) && ScoredAgainst(rs, max)
    requires forall i :: 0 <= i < |rs| ==> hs[i] == rs[i].queries
    ensures Rescored(rs, hs)
  {
    forall i | 0 <= i < |rs| ensures rs[i].score == ScoreFrom(rs[i].kind, hs[i], max) {
      assert rs[i] in rs && rs[i].score == ScoreFor(rs[i], max);
    }
  }

  // ---------------------------------------------------------------- the replacement decision

  /** How many of the proposed resolvers are not active. */
  ghost function Differences(proposed: seq<Resolver>, active: seq<Resolver>): (n: nat)
    ensures n <= |proposed|
  {
    if proposed == [] then 0
    else Differences(proposed[..|proposed| - 1], active)
         + if HasHost(active, proposed[|proposed| - 1].host) then 0 else 1
  }

  /** The decision of `shouldReplaceWithProposed`, the single-resolver case as it is coded. */
  ghost predicate Replaces(proposed: seq<Resolver>, active: seq<Resolver>) {
    if |proposed| >= 2 && |proposed| == |active| then Differences(proposed, active) >= |active| / 2
    else if |proposed| == 1 && |active| == 1 then proposed[0] == active[0]
    else true
  }

  ghost function Common(a: seq<Resolver>, b: seq<Resolver>): set<Resolver> {
    set r | r in a && r in b
  }

  /** With distinct hosts, the resolvers both lists share and the differences make up the proposal. */
  lemma {:induction false} DifferencesCount(proposed: seq<Resolver>, active: seq<Resolver>, pool: seq<Resolver>)
    requires DistinctHosts(pool) && DistinctHosts(proposed)
    requires forall r :: r in proposed || r in active ==> r in pool
    ensures |Common(proposed, active)| + Differences(proposed, active) == |proposed|
    decreases |proposed|
  {
    if proposed == [] {
      assert Common(proposed, active) == {};
    } else {
      var n := |proposed| - 1;
      var front, last := proposed[..n], proposed[n];
      assert proposed == front + [last];
      DifferencesCount(front, active, pool);
      SameHostSame(pool, active, last);
      assert last !in front;
      if last in active {
        assert Common(proposed, active) == Common(front, active) + {last};
      } else {
        assert Common(proposed, active) == Common(front, active);
      }
    }
  }

  lemma SameHostSame(pool: seq<Resolver>, active: seq<Resolver>, r: Resolver)
    requires DistinctHosts(pool) && r in pool
    requires forall x :: x in active ==> x in pool
    ensures HasHost(active, r.host) <==> r in active
  {
  }

  /** A declined proposal of two or more shares a strict majority of the active list. */
  lemma DeclinedSharesMajority(proposed: seq<Resolver>, active: seq<Resolver>, pool: seq<Resolver>)
    requires DistinctHosts(pool) && DistinctHosts(proposed)
    requires forall r :: r in proposed || r in active ==> r in pool
    requires |proposed| >= 2 && !Replaces(proposed, active)
    ensures 2 * |Common(proposed, active)| > |active| == |proposed|
  {
    DifferencesCount(proposed, active, pool);
  }

  /** The decision, in terms of what is shared: a proposal of two or more and as long as the active list is
      accepted if and only if the two share no more than half of it, rounded up; one of another length
      always is, and a single one if and only if it is the active one. */
  lemma ReplacesIff(proposed: seq<Resolver>, active: seq<Resolver>, pool: seq<Resolver>)
    requires DistinctHosts(pool) && DistinctHosts(proposed)
    requires forall r :: r in proposed || r in active ==> r in pool
    ensures Replaces(proposed, active) <==>
            || |proposed| != |active|
            || proposed == active == []
            || (|active| == 1 && proposed == active)
            || (|active| >= 2 && 2 * |Common(proposed, active)| <= |active| + 1)
  {
    DifferencesCount(proposed, active, pool);
  }

  lemma {:induction false} CommonWithSelf(rs: seq<Resolver>)
    requires DistinctHosts(rs)
    ensures |Common(rs, rs)| == |rs|
  {
    DifferencesCount(rs, rs, rs);
    NoDifferences(rs, rs);
  }

  lemma {:induction false} NoDifferences(a: seq<Resolver>, b: seq<Resolver>)
    requires forall r :: r in a ==> r in b
    ensures Differences(a, b) == 0
  {
    if a != [] {
      NoDifferences(a[..|a| - 1], b);
      assert a[|a| - 1] in b;
    }
  }

  /** Hysteresis: whether a proposal of two or more is accepted or declined, afterwards a strict
      majority of the active list is in the proposed top. */
  lemma HysteresisBound(top: seq<Resolver>, before: seq<Resolver>, after: seq<Resolver>, pool: seq<Resolver>)
    requires DistinctHosts(pool) && DistinctHosts(top) && |top| >= 2
    requires forall r :: r in top || r in before ==> r in pool
    requires after == if Replaces(top, before) then top else before
    ensures 2 * |Common(top, after)| > |after|
  {
    if Replaces(top, before) {
      CommonWithSelf(top);
    } else {
      DeclinedSharesMajority(top, before, pool);
    }
  }

  /** The single-resolver case as coded, which replaces on equality: one active resolver is never
      exchanged for a single different one. */
  lemma SingleResolverStays(top: seq<Resolver>, before: seq<Resolver>)
    requires |top| == 1 && |before| == 1
    ensures (if Replaces(top, before) then top else before) == before
  {
    if Replaces(top, before) {
      assert top == [top[0]] && before == [before[0]];
    }
  }

  lemma InsideEmpty(a: seq<Resolver>, b: seq<Resolver>)
    requires forall r :: r in a ==> r in b
    ensures b == [] ==> a == []
  {
    if a != [] {
      assert a[0] in b;
    }
  }

  lemma TopRanked(rs: seq<Resolver>, k: nat)
    requires Ranked(rs)
    ensures Ranked(Top(rs, k))
  {
  }

  // ---------------------------------------------------------------- the bootstrap

  /** The first of five fetches that gives anything, or nothing. */
  function FirstFetched(fetch: nat -> seq<string>, n: nat := 0): (list: seq<string>)
    requires n <= 5
    ensures (forall i :: n <= i < 5 ==> fetch(i) == []) ==> list == []
    ensures forall i :: n <= i < 5 && fetch(i) != [] && (forall j :: n <= j < i ==> fetch(j) == []) ==> list == fetch(i)
    decreases 5 - n
  {
    if n == 5 then [] else if fetch(n) != [] then fetch(n) else FirstFetched(fetch, n + 1)
  }

  /** The hosts of the pool are exactly the addresses of both lists; those of the first are of kind T1, all
      others of kind T2. */
  ghost predicate Gathered(rs: seq<Resolver>, t1: seq<string>, t2: seq<string>, address: string -> string) {
    && (forall r :: r in rs ==> if Listed(t1, |t1|, address, r.host) then r.kind == "T1"
                                else r.kind == "T2" && Listed(t2, |t2|, address, r.host))
    && (forall i :: 0 <= i < |t1| && Trimmed(t1[i]) != [] ==> HasHost(rs, address(Trimmed(t1[i]))))
    && (forall i :: 0 <= i < |t2| && Trimmed(t2[i]) != [] ==> HasHost(rs, address(Trimmed(t2[i]))))
  }

  lemma GatheredInTwo(first: seq<Resolver>, rs: seq<Resolver>, t1: seq<string>, t2: seq<string>,
                      address: string -> string)
    requires DistinctHosts(rs)
    requires Joined([], first, t1, |t1|, "T1", address) && Joined(first, rs, t2, |t2|, "T2", address)
    ensures Gathered(rs, t1, t2, address)
  {
    forall r | r in rs && Listed(t1, |t1|, address, r.host) ensures r in first {
      var i :| 0 <= i < |t1| && Trimmed(t1[i]) != [] && address(Trimmed(t1[i])) == r.host;
      var x :| x in first && x.host == r.host;
      assert x in rs;
    }
    forall i | 0 <= i < |t1| && Trimmed(t1[i]) != [] ensures HasHost(rs, address(Trimmed(t1[i]))) {
      var x :| x in first && x.host == address(Trimmed(t1[i]));
      assert x in rs;
    }
  }

  /** An active list drawn from a pool of T1 resolvers. */
  lemma ListedHosts(pool: seq<Resolver>, active: seq<Resolver>, t1: seq<string>, address: string -> string)
    requires Joined([], pool, t1, |t1|, "T1", address)
    requires forall r :: r in active ==> r in pool
    ensures forall h :: h in Hosts(active) ==> Listed(t1, |t1|, address, h)
    ensures pool != [] <==> exists i :: 0 <= i < |t1| && Trimmed(t1[i]) != []
  {
    forall h | h in Hosts(active) ensures Listed(t1, |t1|, address, h) {
      var i :| 0 <= i < |active| && Hosts(active)[i] == h;
      assert active[i] in active && active[i] in pool;
    }
    if pool != [] {
      assert pool[0] in pool && Listed(t1, |t1|, address, pool[0].host);
    }
  }

  /** What the file holds when the second choice could not be written: the first, if that was. */
  ghost predicate T1Written(t1: seq<string>, address: string -> string, size: nat, openOk: bool,
                            before: string, after: string)
  {
    if openOk && size > 0 && exists i :: 0 <= i < |t1| && Trimmed(t1[i]) != [] then
      exists hosts: seq<string> :: 0 < |hosts| <= size && after == Rendered(hosts)
                                   && forall h :: h in hosts ==> Listed(t1, |t1|, address, h)
    else after == before
  }

  lemma ChoiceWritten(pool: seq<Resolver>, active: seq<Resolver>, t1: seq<string>, address: string -> string,
                      size: nat, openOk: bool, before: string, after: string)
    requires Joined([], pool, t1, |t1|, "T1", address)
    requires (forall r :: r in active ==> r in pool) && |active| == Min(size, |pool|)
    requires after == if openOk && active != [] then Rendered(Hosts(active)) else before
    ensures T1Written(t1, address, size, openOk, before, after)
  {
    ListedHosts(pool, active, t1, address);
    assert |Hosts(active)| == |active|;
  }

  lemma GatheredAny(rs: seq<Resolver>, t1: seq<string>, t2: seq<string>, address: string -> string)
    requires Gathered(rs, t1, t2, address)
    ensures rs != [] <==> exists host :: Listed(t1, |t1|, address, host) || Listed(t2, |t2|, address, host)
  {
    if rs != [] {
      assert rs[0] in rs;
      assert Listed(t1, |t1|, address, rs[0].host) || Listed(t2, |t2|, address, rs[0].host);
    }
  }

  // ---------------------------------------------------------------- the server object

  /** What one bootstrap attempt gets from outside: the bootstrap file, the fetches, the library's
      reading of addresses, time, test domains, random numbers, and two openings of the file. */
  datatype BootInput = BootInput(t1: seq<string>, t2: nat -> seq<string>, address: string -> string, now: int,
                                 service: nat -> string, rnd: nat -> nat, openOk1: bool, openOk2: bool)

  /** An attempt that starts a server with an active list of up to `size`: there is an address at all, and the
      file can be opened the second time. */
  ghost predicate Succeeds(b: BootInput, size: nat) {
    var t2 := FirstFetched(b.t2);
    && size > 0 && b.openOk2
    && exists host :: Listed(b.t1, |b.t1|, b.address, host) || Listed(t2, |t2|, b.address, host)
  }

  /** One of the first `n` attempts succeeds. */
  ghost predicate SomeSucceeds(attempts: seq<BootInput>, n: nat, size: nat)
    requires n <= |attempts|
  {
    exists i :: 0 <= i < n && Succeeds(attempts[i], size)
  }

  lemma NextSucceeds(attempts: seq<BootInput>, n: nat, size: nat)
    requires n < |attempts|
    ensures SomeSucceeds(attempts, n + 1, size) <==> SomeSucceeds(attempts, n, size) || Succeeds(attempts[n], size)
  {
  }

  /** The pool, the active list, the file's text, and the histories in the pool. */
  datatype Snapshot = Snapshot(pool: seq<Resolver>, active: seq<Resolver>, conf: string, histories: seq<seq<Query>>)

  datatype ServerStep =
    | Resize(size: int, openOk: bool)
    | Refresh(force: bool, attempts: seq<BootInput>, openOk: bool)
    | Learn(index: nat, queries: seq<Query>)

  /** The limit after some steps: the last size set that was not negative. */
  function SizeAfter(size: nat, steps: seq<ServerStep>): nat {
    if steps == [] then size
    else
      var before, last := SizeAfter(size, steps[..|steps| - 1]), steps[|steps| - 1];
      if last.Resize? && last.size >= 0 then last.size else before
  }

  /** Is the server started after some steps: only a refresh starts it, if one of its attempts succeeds. */
  ghost predicate StartedAfter(started: bool, size: nat, steps: seq<ServerStep>) {
    if steps == [] then started
    else
      var front, last := steps[..|steps| - 1], steps[|steps| - 1];
      || StartedAfter(started, size, front)
      || (last.Refresh? && exists i :: 0 <= i < |last.attempts| && Succeeds(last.attempts[i], SizeAfter(size, front)))
  }

  lemma OneStepMore(started: bool, size: nat, steps: seq<ServerStep>, n: nat)
    requires n < |steps|
    ensures SizeAfter(size, steps[..n + 1]) == SizeAfter(SizeAfter(size, steps[..n]), [steps[n]])
    ensures StartedAfter(started, size, steps[..n + 1])
            <==> StartedAfter(StartedAfter(started, size, steps[..n]), SizeAfter(size, steps[..n]), [steps[n]])
  {
    assert steps[..n + 1][..n] == steps[..n] && [steps[n]][..0] == [];
  }

  class Server {
    const pool: ResolverPool
    const cache: ResolverPool
    const system: LinuxSystem
    var cacheSize: nat
    var initialized: bool
    var updating: bool

    /** Between steps the lists are in order and the active one is no longer than its limit. */
    ghost predicate Valid()
      reads this, pool, cache, pool.resolvers, cache.resolvers
    {
      Lists() && !updating && |cache.resolvers| <= cacheSize
    }

    constructor (system: LinuxSystem, cacheSize: nat)
      ensures Valid() && this.system == system && this.cacheSize == cacheSize
      ensures fresh(pool) && fresh(cache) && pool.resolvers == [] && cache.resolvers == [] && !initialized
    {
      pool := new ResolverPool();
      cache := new ResolverPool();
      this.system, this.cacheSize := system, cacheSize;
      initialized, updating := false, false;
    }

    /** Appends the pool's first `k` resolvers to an empty proposal. */
    method Propose(proposed: ResolverPool, k: nat)
      requires proposed != pool && proposed.resolvers == [] && DistinctHosts(pool.resolvers)
      modifies proposed`resolvers, pool.resolvers`refCount, pool.resolvers`doomed
      ensures proposed.resolvers == Top(pool.resolvers, k) && DistinctHosts(proposed.resolvers)
      ensures forall r :: r in pool.resolvers ==> r.refCount == old(r.refCount) + In(r, proposed.resolvers)
      ensures forall r :: r in pool.resolvers ==> r.doomed == old(r.doomed)
    {
      var n := 0;
      while n < |pool.resolvers| && n < k
        invariant 0 <= n <= Min(k, |pool.resolvers|)
        invariant proposed.resolvers == pool.resolvers[..n]
        invariant forall r :: r in pool.resolvers ==> r.refCount == old(r.refCount) + In(r, proposed.resolvers)
        invariant forall r :: r in pool.resolvers ==> r.doomed == old(r.doomed)
      {
        assert pool.resolvers[n] !in pool.resolvers[..n];
        var added := proposed.Append(pool.resolvers[n]);
        n := n + 1;
      }
    }

    method ShouldReplaceWithProposed(proposed: ResolverPool) returns (replace: bool)
      ensures replace == Replaces(proposed.resolvers, cache.resolvers)
    {
      var p, c := proposed.resolvers, cache.resolvers;
      if |p| >= 2 && |p| == |c| {
        var diffCount := 0;
        for n := 0 to |p|
          invariant diffCount == Differences(p[..n], c)
        {
          assert p[..n + 1][..n] == p[..n];
          var i := cache.IndexOf(p[n].host);
          if i < 0 {
            diffCount := diffCount + 1;
          }
        }
        assert p[..|p|] == p;
        return diffCount >= |c| / 2;
      } else if |p| == 1 && |c| == 1 {
        return p[0] == c[0];
      }
      return true;
    }

    /** The proposal, ranked, becomes the active list; the file follows if it can be opened. */
    method ReplaceActiveResolvers(proposed: ResolverPool, openOk: bool) returns (applied: bool)
      requires proposed != cache && DistinctHosts(proposed.resolvers)
      modifies cache`resolvers, proposed`resolvers, proposed.resolvers`refCount, proposed.resolvers`doomed, system
      ensures Permuted(proposed.resolvers, old(proposed.resolvers)) && Ranked(proposed.resolvers)
      ensures old(Ranked(proposed.resolvers)) ==> proposed.resolvers == old(proposed.resolvers)
      ensures DistinctHosts(proposed.resolvers) && cache.resolvers == proposed.resolvers
      ensures forall r :: r in old(proposed.resolvers) ==>
                r.refCount == old(r.refCount) + 1 && r.doomed == old(r.doomed)
      ensures applied == (proposed.resolvers == [] || openOk)
      ensures system.conf == if applied && cache.resolvers != [] then Rendered(Hosts(cache.resolvers))
                             else old(system.conf)
    {
      ghost var before := proposed.resolvers;
      cache.Clear();
      proposed.Sort();
      assert forall i :: 0 <= i < |proposed.resolvers| ==> proposed.resolvers[i] in before;
      applied := Commit(proposed, openOk);
    }

    method Commit(proposed: ResolverPool, openOk: bool) returns (applied: bool)
      requires proposed != cache && DistinctHosts(proposed.resolvers) && cache.resolvers == []
      modifies cache`resolvers, proposed.resolvers`refCount, proposed.resolvers`doomed, system
      ensures cache.resolvers == proposed.resolvers
      ensures forall r :: r in proposed.resolvers ==> r.refCount == old(r.refCount) + 1 && r.doomed == old(r.doomed)
      ensures applied == (proposed.resolvers == [] || openOk)
      ensures system.conf == if applied && cache.resolvers != [] then Rendered(Hosts(cache.resolvers))
                             else old(system.conf)
    {
      applied := system.BeginUpdateResolvers();
      if applied {
        ActivateEach(proposed);
        applied := system.EndUpdateResolvers(openOk);
      }
    }

    method ActivateEach(proposed: ResolverPool)
      requires proposed != cache && DistinctHosts(proposed.resolvers)
      requires cache.resolvers == [] && system.resolvers == []
      modifies cache`resolvers, proposed.resolvers`refCount, proposed.resolvers`doomed, system`resolvers
      ensures cache.resolvers == proposed.resolvers && system.resolvers == Hosts(proposed.resolvers)
      ensures forall r :: r in proposed.resolvers ==> r.refCount == old(r.refCount) + 1 && r.doomed == old(r.doomed)
    {
      var p := proposed.resolvers;
      for n := 0 to |p|
        invariant cache.resolvers == p[..n] && system.resolvers == Hosts(p)[..n]
        invariant forall i :: 0 <= i < |p| ==> p[i].refCount == old(p[i].refCount) + (if i < n then 1 else 0)
        invariant forall i :: 0 <= i < |p| ==> p[i].doomed == old(p[i].doomed)
      {
        var ok := system.UpdateResolver(p[n].host);
        if ok {
          assert forall x :: x in p[..n] ==> x.host != p[n].host;
          var added := cache.Append(p[n]);
        }
      }
    }

    method ScorePool(ghost hs: seq<seq<Query>>)
      requires Lists() && |hs| == |pool.resolvers|
      requires forall i :: 0 <= i < |hs| ==> pool.resolvers[i].queries == hs[i]
      modifies pool.resolvers`score
      ensures Lists() && ScoredAgainst(pool.resolvers, GreatestMean(hs)) && Rescored(pool.resolvers, hs)
    {
      GreatestOfMeans(pool.resolvers, hs);
      pool.Score();
      RescoredBy(pool.resolvers, hs, GreatestMean(hs));
    }

    method SortPool()
      requires Lists()
      modifies pool`resolvers
      ensures Lists()
      ensures Permuted(pool.resolvers, old(pool.resolvers)) && Ranked(pool.resolvers)
      ensures forall r :: r in pool.resolvers <==> r in old(pool.resolvers)
    {
      pool.Sort();
    }

    /** Scores and sorts the pool: of two resolvers alike in kind, status and network, the faster one
        then comes strictly first. */
    method RankPool(ghost hs: seq<seq<Query>>)
      requires Lists() && |hs| == |pool.resolvers|
      requires forall i :: 0 <= i < |hs| ==> pool.resolvers[i].queries == hs[i]
      modifies pool`resolvers, pool.resolvers`score
      ensures Lists() && Permuted(pool.resolvers, old(pool.resolvers)) && Ranked(pool.resolvers)
      ensures forall r :: r in pool.resolvers <==> r in old(pool.resolvers)
      ensures Rescored(old(pool.resolvers), hs)
      ensures FasterFirst(pool.resolvers, GreatestMean(hs))
    {
      ScorePool(hs);
      SortPool();
      RankedFasterFirst(pool.resolvers, GreatestMean(hs));
    }

    /** Activating a proposal drawn from the pool keeps every reference safe. */
    method Activate(proposed: ResolverPool, openOk: bool) returns (applied: bool)
      requires proposed != pool && proposed != cache && pool != cache && DistinctHosts(proposed.resolvers)
      requires forall r :: r in proposed.resolvers ==> r in pool.resolvers
      requires RefsSafe(pool.resolvers, cache.resolvers, proposed.resolvers)
      modifies cache`resolvers, proposed`resolvers, proposed.resolvers`refCount, proposed.resolvers`doomed, system
      ensures forall r :: r in proposed.resolvers <==> r in old(proposed.resolvers)
      ensures RefsSafe(pool.resolvers, cache.resolvers, proposed.resolvers)
      ensures DistinctHosts(proposed.resolvers) && cache.resolvers == proposed.resolvers
      ensures |proposed.resolvers| == old(|proposed.resolvers|)
      ensures old(Ranked(proposed.resolvers)) ==> proposed.resolvers == old(proposed.resolvers)
      ensures forall r :: r in old(proposed.resolvers) ==> r.refCount == old(r.refCount) + 1
      ensures applied == (proposed.resolvers == [] || openOk)
      ensures system.conf == if applied && cache.resolvers != [] then Rendered(Hosts(cache.resolvers))
                             else old(system.conf)
    {
      ghost var before := proposed.resolvers;
      applied := ReplaceActiveResolvers(proposed, openOk);
      PermutedMembers(proposed.resolvers, before);
    }

    /** The proposal goes out of scope. */
    method Dispose(proposed: ResolverPool)
      requires proposed != pool && proposed != cache && DistinctHosts(proposed.resolvers)
      requires forall r :: r in proposed.resolvers ==> r in pool.resolvers
      requires RefsSafe(pool.resolvers, cache.resolvers, proposed.resolvers)
      modifies proposed`resolvers, proposed.resolvers`refCount, proposed.resolvers`doomed
      ensures RefsSafe(pool.resolvers, cache.resolvers, []) && proposed.resolvers == []
      ensures forall r :: r in old(proposed.resolvers) ==> r.refCount == old(r.refCount) - 1
    {
      proposed.Destroy();
    }

    /** The proposal is a third live pool. */
    method ProposeTop(proposed: ResolverPool, k: nat)
      requires proposed != pool && proposed != cache && proposed.resolvers == []
      requires DistinctHosts(pool.resolvers) && RefsSafe(pool.resolvers, cache.resolvers, [])
      modifies proposed`resolvers, pool.resolvers`refCount, pool.resolvers`doomed
      ensures proposed.resolvers == Top(pool.resolvers, k) && DistinctHosts(proposed.resolvers)
      ensures forall r :: r in proposed.resolvers ==> r in pool.resolvers
      ensures Ranked(pool.resolvers) ==> Ranked(proposed.resolvers)
      ensures RefsSafe(pool.resolvers, cache.resolvers, proposed.resolvers)
    {
      ProposeSafe(proposed, k);
      if Ranked(pool.resolvers) {
        TopRanked(pool.resolvers, k);
      }
    }

    method ProposeSafe(proposed: ResolverPool, k: nat)
      requires proposed != pool && proposed != cache && proposed.resolvers == []
      requires DistinctHosts(pool.resolvers) && RefsSafe(pool.resolvers, cache.resolvers, [])
      modifies proposed`resolvers, pool.resolvers`refCount, pool.resolvers`doomed
      ensures proposed.resolvers == Top(pool.resolvers, k) && DistinctHosts(proposed.resolvers)
      ensures RefsSafe(pool.resolvers, cache.resolvers, proposed.resolvers)
    {
      Propose(proposed, k);
      assert forall r :: r in proposed.resolvers ==> r in pool.resolvers;
      forall r | r in cache.resolvers
        ensures !r.doomed && r.refCount >= In(r, pool.resolvers) + 1 + In(r, proposed.resolvers)
      {
        assert r !in pool.resolvers ==> r.refCount == old(r.refCount) && r.doomed == old(r.doomed);
      }
    }

    /** Activates a ranked proposal drawn from the pool if it differs enough. */
    method ReplaceWith(proposed: ResolverPool, openOk: bool) returns (rc: nat)
      requires proposed != pool && proposed != cache && pool != cache
      requires DistinctHosts(proposed.resolvers) && Ranked(proposed.resolvers)
      requires forall r :: r in proposed.resolvers ==> r in pool.resolvers
      requires RefsSafe(pool.resolvers, cache.resolvers, proposed.resolvers)
      modifies cache`resolvers, proposed`resolvers, proposed.resolvers`refCount, proposed.resolvers`doomed, system
      ensures proposed.resolvers == old(proposed.resolvers)
      ensures RefsSafe(pool.resolvers, cache.resolvers, proposed.resolvers)
      ensures forall r :: r in proposed.resolvers ==>
                r.refCount == old(r.refCount) + if Replaces(proposed.resolvers, old(cache.resolvers)) then 1 else 0
      ensures Replaces(proposed.resolvers, old(cache.resolvers)) ==>
                cache.resolvers == proposed.resolvers && rc == |cache.resolvers|
                && system.conf == if openOk && cache.resolvers != [] then Rendered(Hosts(cache.resolvers))
                                  else old(system.conf)
      ensures !Replaces(proposed.resolvers, old(cache.resolvers)) ==>
                cache.resolvers == old(cache.resolvers) && rc == 0 && system.conf == old(system.conf)
    {
      rc := 0;
      var replace := ShouldReplaceWithProposed(proposed);
      if replace {
        var applied := Activate(proposed, openOk);
        rc := |cache.resolvers|;
      }
    }

    /** The references of the proposal are given back; those of a new active list stay. */
    method ReplaceAndDispose(proposed: ResolverPool, openOk: bool) returns (rc: nat)
      requires proposed != pool && proposed != cache && pool != cache
      requires DistinctHosts(proposed.resolvers) && Ranked(proposed.resolvers)
      requires forall r :: r in proposed.resolvers ==> r in pool.resolvers
      requires RefsSafe(pool.resolvers, cache.resolvers, proposed.resolvers)
      modifies cache`resolvers, proposed`resolvers, proposed.resolvers`refCount, proposed.resolvers`doomed, system
      ensures RefsSafe(pool.resolvers, cache.resolvers, [])
      ensures forall r :: r in old(proposed.resolvers) ==>
                r.refCount == old(r.refCount) - if old(Replaces(proposed.resolvers, cache.resolvers)) then 0 else 1
      ensures old(Replaces(proposed.resolvers, cache.resolvers)) ==>
                cache.resolvers == old(proposed.resolvers) && rc == |cache.resolvers|
                && system.conf == if openOk && cache.resolvers != [] then Rendered(Hosts(cache.resolvers))
                                  else old(system.conf)
      ensures !old(Replaces(proposed.resolvers, cache.resolvers)) ==>
                cache.resolvers == old(cache.resolvers) && rc == 0 && system.conf == old(system.conf)
    {
      rc := ReplaceWith(proposed, openOk);
      Dispose(proposed);
    }

    /** Proposes the first `k` of a ranked pool and replaces the active list with it if it differs enough. */
    method ProposeAndReplace(k: nat, openOk: bool) returns (rc: nat)
      requires pool != cache && DistinctHosts(pool.resolvers) && DistinctHosts(cache.resolvers)
      requires forall r :: r in cache.resolvers ==> r in pool.resolvers
      requires RefsSafe(pool.resolvers, cache.resolvers, []) && Ranked(pool.resolvers)
      modifies cache`resolvers, pool.resolvers`refCount, pool.resolvers`doomed, system
      ensures RefsSafe(pool.resolvers, cache.resolvers, [])
      ensures Replaces(Top(pool.resolvers, k), old(cache.resolvers)) ==>
                cache.resolvers == Top(pool.resolvers, k) && rc == |cache.resolvers|
                && system.conf == if openOk && cache.resolvers != [] then Rendered(Hosts(cache.resolvers))
                                  else old(system.conf)
      ensures !Replaces(Top(pool.resolvers, k), old(cache.resolvers)) ==>
                cache.resolvers == old(cache.resolvers) && rc == 0 && system.conf == old(system.conf)
    {
      var proposed := new ResolverPool();
      ProposeTop(proposed, k);
      assert forall i :: 0 <= i < |proposed.resolvers| ==> proposed.resolvers[i] in pool.resolvers;
      rc := ReplaceAndDispose(proposed, openOk);
    }

    /** What is asked of the lists around one update: both without repeated hosts, the active one
        inside the pool, references safe. */
    ghost predicate Lists()
      reads pool`resolvers, cache`resolvers, pool.resolvers`refCount, pool.resolvers`doomed,
            cache.resolvers`refCount, cache.resolvers`doomed
    {
      && pool != cache
      && DistinctHosts(pool.resolvers) && DistinctHosts(cache.resolvers)
      && (forall r :: r in cache.resolvers ==> r in pool.resolvers)
      && RefsSafe(pool.resolvers, cache.resolvers, [])
    }

    /** A proposal of two or more leaves a strict majority of the active list among the first of the pool. */
    ghost predicate MajorityInTop(count: nat)
      reads pool`resolvers, cache`resolvers
    {
      var n := if count <= |pool.resolvers| then count else |pool.resolvers|;
      n >= 2 ==> 2 * |Common(pool.resolvers[..n], cache.resolvers)| > |cache.resolvers|
    }

    /** What an update starts from. */
    ghost function Now(): (was: Snapshot)
      reads pool`resolvers, cache`resolvers, system`conf, pool.resolvers`queries
      ensures IsNow(was)
    {
      Snapshot(pool.resolvers, cache.resolvers, system.conf, Histories(pool.resolvers))
    }

    ghost predicate IsNow(was: Snapshot)
      reads pool`resolvers, cache`resolvers, system`conf, pool.resolvers`queries
    {
      && was.pool == pool.resolvers && was.active == cache.resolvers && was.conf == system.conf
      && |was.histories| == |was.pool|
      && forall i :: 0 <= i < |was.pool| ==> was.pool[i].queries == was.histories[i]
    }

    /** The outcome of an update, decided on the ranked pool's top: either that top is active now
        and, if the file could be opened, written to it, or nothing changed. */
    ghost predicate Outcome(active: seq<Resolver>, conf: string, count: nat, openOk: bool, rc: nat)
      reads pool`resolvers, cache`resolvers, system`conf
    {
      var top := Top(pool.resolvers, count);
      if pool.resolvers != [] && Replaces(top, active) then
        && cache.resolvers == top && rc == |top|
        && system.conf == if openOk && top != [] then Rendered(Hosts(top)) else conf
      else
        cache.resolvers == active && rc == 0 && system.conf == conf
    }

    /** The whole effect of an update: the same resolvers, scored by their histories, and ranked; an active
        list no longer than asked for, as `Outcome` says, and mostly in the top. */
    ghost predicate Updated(was: Snapshot, count: nat, openOk: bool, rc: nat)
      reads pool`resolvers, cache`resolvers, pool.resolvers`score, system`conf, was.pool`score
    {
      && |cache.resolvers| <= count
      && Permuted(pool.resolvers, was.pool) && Ranked(pool.resolvers) && Rescored(was.pool, was.histories)
      && Outcome(was.active, was.conf, count, openOk, rc) && MajorityInTop(count)
    }

    /** After an update, of two resolvers alike in kind, status and network the faster one comes first. */
    lemma UpdatedFasterFirst(was: Snapshot, count: nat, openOk: bool, rc: nat)
      requires Updated(was, count, openOk, rc)
      requires forall i :: 0 <= i < |was.histories| ==> was.pool[i].queries == was.histories[i]
      ensures FasterFirst(pool.resolvers, GreatestMean(was.histories))
    {
      PermutedMembers(pool.resolvers, was.pool);
      RankedFasterFirst(pool.resolvers, GreatestMean(was.histories));
    }

    /** An update that accepts its proposal makes the best of the pool active: as many as asked for or as there
        are, in the order of the pool, each with a score at least that of everyone left out; and an update
        that declines changes neither the active list nor the file. */
    lemma BestActive(was: Snapshot, count: nat, openOk: bool, rc: nat)
      requires Updated(was, count, openOk, rc)
      ensures var n := if count <= |pool.resolvers| then count else |pool.resolvers|;
              if pool.resolvers != [] && Replaces(pool.resolvers[..n], was.active) then
                && cache.resolvers <= pool.resolvers && |cache.resolvers| == n == rc
                && (forall i, j :: 0 <= i < n <= j < |pool.resolvers| ==>
                                     cache.resolvers[i].score >= pool.resolvers[j].score)
                && system.conf == if openOk && n > 0 then Rendered(Hosts(pool.resolvers[..n])) else was.conf
              else cache.resolvers == was.active && system.conf == was.conf && rc == 0
    {
      TopIs(pool.resolvers, count);
      assert Ranked(pool.resolvers);
    }

    twostate predicate Untouched()
      reads pool`resolvers, cache`resolvers, pool.resolvers`score, system`conf
    {
      && pool.resolvers == old(pool.resolvers) && cache.resolvers == old(cache.resolvers)
      && system.conf == old(system.conf)
      && (forall r :: r in pool.resolvers ==> r.score == old(r.score))
    }

    method ReplaceOrKeep(count: nat, openOk: bool) returns (rc: nat)
      requires Lists() && pool.resolvers != [] && Ranked(pool.resolvers)
      modifies cache`resolvers, pool.resolvers`refCount, pool.resolvers`doomed, system
      ensures Lists() && |cache.resolvers| <= count
      ensures Outcome(old(cache.resolvers), old(system.conf), count, openOk, rc) && MajorityInTop(count)
    {
      ghost var before := cache.resolvers;
      rc := ProposeAndReplace(count, openOk);
      if |Top(pool.resolvers, count)| >= 2 {
        HysteresisBound(Top(pool.resolvers, count), before, cache.resolvers, pool.resolvers);
      }
    }

    /** The body of `updateDNS`: score, rank, propose, and replace if the proposal differs enough. */
    method RankAndReplace(count: nat, openOk: bool, ghost was: Snapshot) returns (rc: nat)
      requires Lists() && pool.resolvers != [] && IsNow(was)
      modifies pool`resolvers, cache`resolvers, pool.resolvers`score,
               pool.resolvers`refCount, pool.resolvers`doomed, system
      ensures Lists()
      ensures forall r :: r in pool.resolvers <==> r in old(pool.resolvers)
      ensures Updated(was, count, openOk, rc)
    {
      RankPool(was.histories);
      assert forall i :: 0 <= i < |pool.resolvers| ==> pool.resolvers[i] in old(pool.resolvers);
      rc := ProposeRanked(count, openOk, was);
    }

    /** The update from the ranked pool on. */
    method ProposeRanked(count: nat, openOk: bool, ghost was: Snapshot) returns (rc: nat)
      requires Lists() && pool.resolvers != [] && Ranked(pool.resolvers)
      requires Permuted(pool.resolvers, was.pool) && Rescored(was.pool, was.histories)
      requires was.active == cache.resolvers && was.conf == system.conf
      modifies cache`resolvers, pool.resolvers`refCount, pool.resolvers`doomed, system
      ensures Lists()
      ensures Updated(was, count, openOk, rc)
    {
      rc := ReplaceOrKeep(count, openOk);
      assert Ranked(pool.resolvers);
      assert Rescored(was.pool, was.histories);
    }

    /** The update of any pool; an empty one changes nothing. */
    method UpdateAny(count: nat, openOk: bool, ghost was: Snapshot) returns (rc: nat)
      requires Lists() && IsNow(was) && updating
      modifies pool`resolvers, cache`resolvers, pool.resolvers`score,
               pool.resolvers`refCount, pool.resolvers`doomed, system
      ensures Lists()
      ensures forall r :: r in pool.resolvers <==> r in old(pool.resolvers)
      ensures Updated(was, count, openOk, rc)
    {
      rc := 0;
      if |pool.resolvers| > 0 {
        rc := RankAndReplace(count, openOk, was);
      } else {
        InsideEmpty(cache.resolvers, pool.resolvers);
      }
    }

    /** The guard against a second update goes up. */
    method RaiseGuard(ghost was: Snapshot)
      requires Lists() && IsNow(was)
      modifies this`updating
      ensures updating && Lists() && IsNow(was)
    {
      updating := true;
    }

    method LowerGuard(ghost was: Snapshot, ghost count: nat, ghost openOk: bool, ghost rc: nat)
      requires Lists() && Updated(was, count, openOk, rc)
      modifies this`updating
      ensures !updating && Lists() && Updated(was, count, openOk, rc)
    {
      updating := false;
    }

    method UpdateGuarded(count: nat, openOk: bool) returns (rc: nat)
      requires Lists()
      modifies this`updating, pool`resolvers, cache`resolvers, pool.resolvers`score,
               pool.resolvers`refCount, pool.resolvers`doomed, system
      ensures Lists() && !updating
      ensures forall r :: r in pool.resolvers <==> r in old(pool.resolvers)
      ensures Updated(old(Now()), count, openOk, rc)
    {
      ghost var was := Now();
      RaiseGuard(was);
      rc := UpdateAny(count, openOk, was);
      LowerGuard(was, count, openOk, rc);
    }

    /** `updateDNS`. While one update is under way, a second one does nothing. Histories, which the
        scores come from, never change. */
    method UpdateDns(count: nat, openOk: bool) returns (rc: nat)
      requires Lists()
      modifies this`updating, pool`resolvers, cache`resolvers, pool.resolvers`score,
               pool.resolvers`refCount, pool.resolvers`doomed, system
      ensures Lists() && updating == old(updating)
      ensures forall r :: r in pool.resolvers <==> r in old(pool.resolvers)
      ensures old(updating) ==> rc == 0 && Untouched()
      ensures !old(updating) ==> Updated(old(Now()), count, openOk, rc)
    {
      rc := 0;
      if !updating {
        rc := UpdateGuarded(count, openOk);
      }
    }

    method SetResolverCacheSize(size: int, openOk: bool)
      requires Valid()
      modifies this`cacheSize, this`updating, pool`resolvers, cache`resolvers, pool.resolvers, system
      ensures Valid() && cacheSize == if size >= 0 then size else old(cacheSize)
      ensures forall r :: r in pool.resolvers <==> r in old(pool.resolvers)
      ensures size < 0 || size == old(cacheSize) ==> Untouched()
      ensures size >= 0 && size != old(cacheSize) ==> exists rc :: Updated(old(Now()), size, openOk, rc)
    {
      if cacheSize != size && size >= 0 {
        cacheSize := size;
        var rc := UpdateDns(cacheSize, openOk);
      }
    }

    /** New resolvers from a list of addresses, the pool reshuffled, and its first ones proposed. */
    method FetchAndPropose(items: seq<string>, kind: string, address: string -> string, now: int,
                           service: nat -> string, rnd: nat -> nat, proposed: ResolverPool)
      requires pool != cache && proposed != pool && proposed != cache && proposed.resolvers == []
      requires DistinctHosts(pool.resolvers) && RefsSafe(pool.resolvers, cache.resolvers, [])
      modifies pool`resolvers, proposed`resolvers, pool.resolvers`refCount, pool.resolvers`doomed
      ensures DistinctHosts(pool.resolvers) && DistinctHosts(proposed.resolvers)
      ensures Joined(old(pool.resolvers), pool.resolvers, items, |items|, kind, address)
      ensures forall r :: r in pool.resolvers ==> r in old(pool.resolvers) || fresh(r)
      ensures forall r :: r in proposed.resolvers ==> r in pool.resolvers
      ensures |proposed.resolvers| == Min(cacheSize, |pool.resolvers|)
      ensures RefsSafe(pool.resolvers, cache.resolvers, proposed.resolvers)
    {
      Enlarge(items, kind, address, now, service, rnd);
      assert forall i :: 0 <= i < |pool.resolvers| ==>
                             pool.resolvers[i] in old(pool.resolvers) || fresh(pool.resolvers[i]);
      ProposeTop(proposed, cacheSize);
    }

    method Enlarge(items: seq<string>, kind: string, address: string -> string, now: int,
                   service: nat -> string, rnd: nat -> nat)
      requires pool != cache && DistinctHosts(pool.resolvers) && RefsSafe(pool.resolvers, cache.resolvers, [])
      modifies pool`resolvers
      ensures DistinctHosts(pool.resolvers) && RefsSafe(pool.resolvers, cache.resolvers, [])
      ensures Joined(old(pool.resolvers), pool.resolvers, items, |items|, kind, address)
      ensures forall r :: r in pool.resolvers ==> r in old(pool.resolvers) || fresh(r)
    {
      pool.FromIPList(items, kind, address, now, service, rnd);
      ghost var listed := pool.resolvers;
      ghost var swaps := pool.Randomize();
      PermutedMembers(pool.resolvers, listed);
      JoinedMembers(old(pool.resolvers), listed, pool.resolvers, items, |items|, kind, address);
    }

    /** Bootstrap: a pool of T1 resolvers, a random choice of them active, then T2 resolvers added
        and a new choice made. `t2` gives the results of successive fetches. Afterwards the pool holds exactly
        the addresses of both lists. It succeeds if and only if there is an address at all, the active list may
        hold one, and the file can be opened; if that fails, the choice of T1 resolvers is what was written. */
    method BootstrapResolvers(t1: seq<string>, t2: nat -> seq<string>, address: string -> string, now: int,
                              service: nat -> string, rnd: nat -> nat, openOk1: bool, openOk2: bool) returns (rc: nat)
      requires Valid()
      modifies this`initialized, pool`resolvers, cache`resolvers, system
      ensures Valid() && forall r :: r in pool.resolvers ==> fresh(r)
      ensures Gathered(pool.resolvers, t1, FirstFetched(t2), address)
      ensures initialized <==> pool.resolvers != [] && cacheSize > 0 && openOk2
      ensures rc == if !initialized then 0 else if cacheSize <= |pool.resolvers| then cacheSize else |pool.resolvers|
      ensures initialized ==> |cache.resolvers| == rc && system.conf == Rendered(Hosts(cache.resolvers))
      ensures !initialized ==> T1Written(t1, address, cacheSize, openOk1, old(system.conf), system.conf)
    {
      ghost var first;
      rc, first := BootstrapInTwo(t1, t2, address, now, service, rnd, openOk1, openOk2);
      GatheredInTwo(first, pool.resolvers, t1, FirstFetched(t2), address);
    }

    /** The two stages, with the pool between them. */
    method BootstrapInTwo(t1: seq<string>, t2: nat -> seq<string>, address: string -> string, now: int,
                          service: nat -> string, rnd: nat -> nat, openOk1: bool, openOk2: bool)
      returns (rc: nat, ghost first: seq<Resolver>)
      requires Valid()
      modifies this`initialized, pool`resolvers, cache`resolvers, system
      ensures Valid() && forall r :: r in pool.resolvers ==> fresh(r)
      ensures Joined([], first, t1, |t1|, "T1", address)
      ensures Joined(first, pool.resolvers, FirstFetched(t2), |FirstFetched(t2)|, "T2", address)
      ensures initialized <==> cacheSize > 0 && pool.resolvers != [] && openOk2
      ensures rc == if initialized then Min(cacheSize, |pool.resolvers|) else 0
      ensures initialized ==> |cache.resolvers| == rc && system.conf == Rendered(Hosts(cache.resolvers))
      ensures !initialized ==> T1Written(t1, address, cacheSize, openOk1, old(system.conf), system.conf)
    {
      var proposed := BootstrapT1(t1, address, now, service, rnd, openOk1);
      first := pool.resolvers;
      assert forall i :: 0 <= i < |first| ==> first[i] in first;
      var list := FetchT2(t2);
      rc := BootstrapT2(proposed, list, address, now, service, rnd, openOk2);
    }

    /** The fetch is tried five times. */
    static method FetchT2(t2: nat -> seq<string>) returns (list: seq<string>)
      ensures list == FirstFetched(t2)
    {
      list := [];
      var tries := 0;
      while list == [] && tries < 5
        invariant 0 <= tries <= 5
        invariant if list == [] then FirstFetched(t2) == FirstFetched(t2, tries) else list == FirstFetched(t2)
        decreases 5 - tries
      {
        list := t2(tries);
        tries := tries + 1;
      }
    }

    /** An empty pool, and an empty proposal. */
    method StartOver() returns (proposed: ResolverPool)
      requires Lists()
      modifies pool`resolvers
      ensures fresh(proposed) && proposed.resolvers == [] && pool.resolvers == []
      ensures RefsSafe(pool.resolvers, cache.resolvers, [])
    {
      proposed := new ResolverPool();
      pool.Clear();
    }

    method BootstrapT1(t1: seq<string>, address: string -> string, now: int, service: nat -> string,
                       rnd: nat -> nat, openOk: bool) returns (proposed: ResolverPool)
      requires Valid()
      modifies this`initialized, pool`resolvers, cache`resolvers, system
      ensures Lists() && |cache.resolvers| <= cacheSize && !initialized && !updating
      ensures fresh(proposed) && forall r :: r in pool.resolvers ==> fresh(r)
      ensures RefsSafe(pool.resolvers, cache.resolvers, proposed.resolvers)
      ensures Joined([], pool.resolvers, t1, |t1|, "T1", address)
      ensures T1Written(t1, address, cacheSize, openOk, old(system.conf), system.conf)
    {
      initialized := false;
      proposed := StartOver();
      FetchAndPropose(t1, "T1", address, now, service, rnd, proposed);
      assert forall i :: 0 <= i < |proposed.resolvers| ==> proposed.resolvers[i] in pool.resolvers;
      var applied := ActivateShuffled(proposed, openOk);
      ChoiceWritten(pool.resolvers, cache.resolvers, t1, address, cacheSize, openOk, old(system.conf), system.conf);
    }

    method BootstrapT2(proposed: ResolverPool, list: seq<string>, address: string -> string, now: int,
                       service: nat -> string, rnd: nat -> nat, openOk: bool) returns (rc: nat)
      requires Lists() && |cache.resolvers| <= cacheSize && !initialized
      requires proposed != pool && proposed != cache
      modifies this`initialized, proposed`resolvers, pool`resolvers, cache`resolvers, system,
               pool.resolvers`refCount, pool.resolvers`doomed
      ensures Lists() && |cache.resolvers| <= cacheSize
      ensures forall r :: r in pool.resolvers ==> r in old(pool.resolvers) || fresh(r)
      ensures Joined(old(pool.resolvers), pool.resolvers, list, |list|, "T2", address)
      ensures initialized <==> cacheSize > 0 && pool.resolvers != [] && openOk
      ensures initialized ==> rc == |cache.resolvers| == Min(cacheSize, |pool.resolvers|)
                              && system.conf == Rendered(Hosts(cache.resolvers))
      ensures !initialized ==> rc == 0 && system.conf == old(system.conf)
    {
      proposed.Clear();
      FetchAndPropose(list, "T2", address, now, service, rnd, proposed);
      assert forall i :: 0 <= i < |proposed.resolvers| ==>
                           proposed.resolvers[i] in old(pool.resolvers) || fresh(proposed.resolvers[i]);
      rc := ActivateFetched(proposed, openOk);
    }

    /** The end of the bootstrap; without T2 or T1 resolvers the active list stays as it is. */
    method ActivateFetched(proposed: ResolverPool, openOk: bool) returns (rc: nat)
      requires proposed != pool && proposed != cache && pool != cache && !initialized
      requires DistinctHosts(pool.resolvers) && DistinctHosts(cache.resolvers) && DistinctHosts(proposed.resolvers)
      requires forall r :: r in cache.resolvers ==> r in pool.resolvers
      requires forall r :: r in proposed.resolvers ==> r in pool.resolvers
      requires RefsSafe(pool.resolvers, cache.resolvers, proposed.resolvers)
      modifies this`initialized, proposed`resolvers, cache`resolvers, system,
               proposed.resolvers`refCount, proposed.resolvers`doomed
      ensures Lists() && forall r :: r in pool.resolvers ==> r.refCount == old(r.refCount)
      ensures cache.resolvers == old(cache.resolvers) || |cache.resolvers| == old(|proposed.resolvers|)
      ensures initialized <==> old(proposed.resolvers) != [] && openOk
      ensures initialized ==> rc == |cache.resolvers| == old(|proposed.resolvers|)
                              && system.conf == Rendered(Hosts(cache.resolvers))
      ensures !initialized ==> rc == 0 && system.conf == old(system.conf)
    {
      ghost var before := proposed.resolvers;
      if |proposed.resolvers| > 0 {
        initialized := Activate(proposed, openOk);
      }
      rc := if initialized then |proposed.resolvers| else 0;
      assert forall i :: 0 <= i < |proposed.resolvers| ==> proposed.resolvers[i] in before;
      Dispose(proposed);
    }

    /** Is every active resolver alive, that is, are its two newest queries not both dead? */
    method TestResolverCache() returns (ok: bool)
      ensures ok <==> forall r :: r in cache.resolvers ==> !GivenUp(r.queries)
    {
      for n := 0 to |cache.resolvers|
        invariant forall r :: r in cache.resolvers[..n] ==> !GivenUp(r.queries)
      {
        var alive := cache.resolvers[n].Alive();
        if !alive {
          return false;
        }
      }
      assert cache.resolvers[..|cache.resolvers|] == cache.resolvers;
      return true;
    }

    /** Cold boot if needed, then an update if forced, if the active list is short, or if one of its
        resolvers does not respond. The cold boot retries until it succeeds; `attempts` are the
        tries made so far. */
    method RefreshResolvers(force: bool, attempts: seq<BootInput>, openOk: bool)
      requires Valid()
      modifies this`initialized, this`updating, pool`resolvers, cache`resolvers, pool.resolvers, system
      ensures Valid() && cacheSize == old(cacheSize)
      ensures forall r :: r in pool.resolvers ==> r in old(pool.resolvers) || fresh(r)
      ensures old(initialized && !UpdateDue(force)) ==> Untouched()
      ensures old(initialized && UpdateDue(force)) ==> exists rc :: Updated(old(Now()), cacheSize, openOk, rc)
      ensures initialized <==> old(initialized) || exists i :: 0 <= i < |attempts| && Succeeds(attempts[i], cacheSize)
      ensures initialized && force ==> exists was, rc :: Updated(was, cacheSize, openOk, rc)
    {
      if !initialized {
        ColdBoot(attempts);
        assert forall i :: 0 <= i < |pool.resolvers| ==>
                             pool.resolvers[i] in old(pool.resolvers) || fresh(pool.resolvers[i]);
      }
      if initialized {
        var rc := UpdateIfDue(force, openOk);
      }
    }

    method UpdateIfDue(force: bool, openOk: bool) returns (rc: nat)
      requires Valid()
      modifies this`updating, pool`resolvers, cache`resolvers, pool.resolvers`score,
               pool.resolvers`refCount, pool.resolvers`doomed, system
      ensures Lists() && !updating && |cache.resolvers| <= cacheSize
      ensures forall r :: r in pool.resolvers <==> r in old(pool.resolvers)
      ensures old(!UpdateDue(force)) ==> Untouched()
      ensures old(UpdateDue(force)) ==> Updated(old(Now()), cacheSize, openOk, rc)
    {
      var update := IsUpdateDue(force);
      rc := 0;
      if update {
        rc := UpdateDns(cacheSize, openOk);
      }
    }

    method IsUpdateDue(force: bool) returns (due: bool)
      ensures due <==> UpdateDue(force)
    {
      due := force || |cache.resolvers| == 0 || |cache.resolvers| < cacheSize;
      if !due {
        var ok := TestResolverCache();
        due := !ok;
      }
    }

    /** A started server updates if forced, if the active list is empty or short, or if an active
        resolver does not respond. */
    ghost predicate UpdateDue(force: bool)
      reads this`cacheSize, cache`resolvers, cache.resolvers`queries
    {
      || force || cache.resolvers == [] || |cache.resolvers| < cacheSize
      || exists r :: r in cache.resolvers && GivenUp(r.queries)
    }

    /** Tries until one succeeds: the server is started if and only if it was, or one of the attempts can. */
    method ColdBoot(attempts: seq<BootInput>)
      requires Valid()
      modifies this`initialized, pool`resolvers, cache`resolvers, system
      ensures Valid() && cacheSize == old(cacheSize)
      ensures forall r :: r in pool.resolvers ==> r in old(pool.resolvers) || fresh(r)
      ensures initialized <==> old(initialized) || exists i :: 0 <= i < |attempts| && Succeeds(attempts[i], cacheSize)
      ensures old(initialized) ==> pool.resolvers == old(pool.resolvers) && cache.resolvers == old(cache.resolvers)
                                   && system.conf == old(system.conf)
    {
      var n := 0;
      while !initialized && n < |attempts|
        invariant n <= |attempts| && Valid()
        invariant forall r :: r in pool.resolvers ==> r in old(pool.resolvers) || fresh(r)
        invariant initialized <==> old(initialized) || SomeSucceeds(attempts, n, cacheSize)
        invariant old(initialized) ==> pool.resolvers == old(pool.resolvers) && cache.resolvers == old(cache.resolvers)
                                       && system.conf == old(system.conf)
        decreases |attempts| - n
      {
        NextSucceeds(attempts, n, cacheSize);
        Attempt(attempts[n]);
        n := n + 1;
      }
    }

    method Attempt(b: BootInput)
      requires Valid()
      modifies this`initialized, pool`resolvers, cache`resolvers, system
      ensures Valid() && forall r :: r in pool.resolvers ==> fresh(r)
      ensures initialized <==> Succeeds(b, cacheSize)
    {
      var rc := BootstrapResolvers(b.t1, b.t2, b.address, b.now, b.service, b.rnd, b.openOk1, b.openOk2);
      GatheredAny(pool.resolvers, b.t1, FirstFetched(b.t2), b.address);
    }

    /** One step; the histories of resolvers change from outside. */
    method Do(step: ServerStep)
      requires Valid()
      modifies this`cacheSize, this`initialized, this`updating, pool`resolvers, cache`resolvers, pool.resolvers, system
      ensures Valid() && forall r :: r in pool.resolvers ==> r in old(pool.resolvers) || fresh(r)
      ensures cacheSize == SizeAfter(old(cacheSize), [step])
      ensures initialized <==> StartedAfter(old(initialized), old(cacheSize), [step])
      ensures step.Refresh? && step.force && initialized ==> exists was, rc :: Updated(was, cacheSize, step.openOk, rc)
      ensures step.Learn? && step.index < |pool.resolvers| ==> pool.resolvers[step.index].queries == step.queries
    {
      assert [step][..0] == [];
      match step
      case Resize(size, openOk) =>
        SetResolverCacheSize(size, openOk);
      case Refresh(force, attempts, openOk) =>
        RefreshResolvers(force, attempts, openOk);
      case Learn(index, queries) =>
        if index < |pool.resolvers| {
          pool.resolvers[index].queries := queries;
        }
    }

    /** Any sequence of server steps. */
    method Run(steps: seq<ServerStep>)
      requires Valid()
      modifies this`cacheSize, this`initialized, this`updating, pool`resolvers, cache`resolvers, pool.resolvers, system
      ensures Valid() && cacheSize == SizeAfter(old(cacheSize), steps)
      ensures initialized <==> StartedAfter(old(initialized), old(cacheSize), steps)
    {
      for n := 0 to |steps|
        invariant Valid() && cacheSize == SizeAfter(old(cacheSize), steps[..n])
        invariant initialized <==> StartedAfter(old(initialized), old(cacheSize), steps[..n])
        invariant forall r :: r in pool.resolvers ==> r in old(pool.resolvers) || fresh(r)
      {
        assert forall i :: 0 <= i < |pool.resolvers| ==>
                             pool.resolvers[i] in old(pool.resolvers) || fresh(pool.resolvers[i]);
        OneStepMore(old(initialized), old(cacheSize), steps, n);
        Do(steps[n]);
      }
      assert steps[..|steps|] == steps;
    }

    method ActivateShuffled(proposed: ResolverPool, openOk: bool) returns (applied: bool)
      requires proposed != pool && proposed != cache && pool != cache && DistinctHosts(proposed.resolvers)
      requires forall r :: r in proposed.resolvers ==> r in pool.resolvers
      requires RefsSafe(pool.resolvers, cache.resolvers, proposed.resolvers)
      modifies cache`resolvers, proposed`resolvers, proposed.resolvers`refCount, proposed.resolvers`doomed, system
      ensures RefsSafe(pool.resolvers, cache.resolvers, proposed.resolvers)
      ensures DistinctHosts(cache.resolvers) && |cache.resolvers| == old(|proposed.resolvers|)
      ensures forall r :: r in cache.resolvers ==> r in pool.resolvers
      ensures system.conf == if openOk && cache.resolvers != [] then Rendered(Hosts(cache.resolvers))
                             else old(system.conf)
    {
      ghost var before := proposed.resolvers;
      ShuffleProposal(proposed);
      assert forall i :: 0 <= i < |proposed.resolvers| ==> proposed.resolvers[i] in before;
      applied := Activate(proposed, openOk);
    }

    method ShuffleProposal(proposed: ResolverPool)
      requires proposed != pool && proposed != cache && DistinctHosts(proposed.resolvers)
      requires RefsSafe(pool.resolvers, cache.resolvers, proposed.resolvers)
      modifies proposed`resolvers
      ensures DistinctHosts(proposed.resolvers) && |proposed.resolvers| == old(|proposed.resolvers|)
      ensures forall r :: r in proposed.resolvers <==> r in old(proposed.resolvers)
      ensures RefsSafe(pool.resolvers, cache.resolvers, proposed.resolvers)
    {
      ghost var swaps := proposed.Randomize();
      PermutedMembers(proposed.resolvers, old(proposed.resolvers));
    }
  }

  /** Activation and the system's own report agree: the addresses read back from the file written for
      the active list are that list, in its order, if and only if all of them are dotted IPv4 text. */
  lemma ActiveReadBackIff(active: seq<Resolver>)
    requires forall r :: r in active ==> NoSpace(r.host)
    ensures Parsed(Rendered(Hosts(active))) == Hosts(active) <==> forall r :: r in active ==> DotsAndDigits(r.host)
  {
    var hosts := Hosts(active);
    assert forall i :: 0 <= i < |active| ==> active[i] in active && hosts[i] in hosts;
    ParseInvertsRenderIff(hosts);
  }
}
