/** A pool of resolvers: membership by host, reference counts, scoring, ranking. */
module ResolverPools {
  import opened Resolvers
  import opened QtText

  ghost predicate DistinctHosts(rs: seq<Resolver>) {
    forall i, j :: 0 <= i < j < |rs| ==> rs[i].host != rs[j].host
  }

  ghost predicate HasHost(rs: seq<Resolver>, host: string) {
    exists r :: r in rs && r.host == host
  }

  /** Non-increasing scores. */
  ghost predicate Ranked(rs: seq<Resolver>)
    reads rs`score
  {
    forall i, j :: 0 <= i < j < |rs| ==> rs[i].score >= rs[j].score
  }

  /** The first `a` are in their final places. */
  ghost predicate RankedTo(rs: seq<Resolver>, a: nat)
    reads rs`score
  {
    forall i, j :: 0 <= i < a && i < j < |rs| ==> rs[i].score >= rs[j].score
  }

  ghost predicate Permuted(a: seq<Resolver>, b: seq<Resolver>) {
    multiset(a) == multiset(b) && |a| == |b|
  }

  lemma PermutedMembers(a: seq<Resolver>, b: seq<Resolver>)
    requires Permuted(a, b)
    ensures forall r :: r in a <==> r in b
  {
    forall r ensures r in a <==> r in b {
      assert r in a <==> r in multiset(a);
      assert r in b <==> r in multiset(b);
    }
  }

  /** Pairs of different places in a list of `n`. */
  ghost predicate Exchanges(swaps: seq<(nat, nat)>, n: nat) {
    forall i :: 0 <= i < |swaps| ==> swaps[i].0 < n && swaps[i].1 < n && swaps[i].0 != swaps[i].1
  }

  /** The list after exchanging these places one pair after the other. */
  ghost function Swapped<T>(s: seq<T>, swaps: seq<(nat, nat)>): (r: seq<T>)
    requires Exchanges(swaps, |s|)
    ensures |r| == |s|
  {
    if swaps == [] then s
    else
      var r, (a, b) := Swapped(s, swaps[..|swaps| - 1]), swaps[|swaps| - 1];
      r[a := r[b]][b := r[a]]
  }

  lemma OneSwapMore<T>(s: seq<T>, swaps: seq<(nat, nat)>, a: nat, b: nat)
    requires Exchanges(swaps, |s|) && a < |s| && b < |s| && a != b
    ensures Exchanges(swaps + [(a, b)], |s|)
    ensures var r := Swapped(s, swaps); Swapped(s, swaps + [(a, b)]) == r[a := r[b]][b := r[a]]
  {
    assert (swaps + [(a, b)])[..|swaps|] == swaps;
  }

  /** As many exchanges as entries leave a list of two as it was: it is never shuffled. */
  lemma TwoNeverShuffled<T>(s: seq<T>, swaps: seq<(nat, nat)>)
    requires |s| == 2 && |swaps| == 2 && Exchanges(swaps, 2)
    ensures Swapped(s, swaps) == s
  {
    var first := swaps[..1];
    assert first[..0] == [] && Swapped(s, []) == s;
    assert Swapped(s, first) == [s[1], s[0]];
  }

  lemma SwapPermutes(s: seq<Resolver>, a: nat, b: nat)
    requires a < |s| && b < |s|
    ensures Permuted(s, s[a := s[b]][b := s[a]])
    ensures DistinctHosts(s) ==> DistinctHosts(s[a := s[b]][b := s[a]])
  {
  }

  // ---------------------------------------------------------------- scoring

  /** Latency counted for the score: the mean, or the pool's worst for a resolver without history. */
  function EffectiveLatency(mean: real, max: real): real {
    if mean < 0.0 then max else mean
  }

  /** The product of the bonuses and penalties. */
  function Factor(kind: string, nic: bool, status: Status): (f: real)
    ensures 0.0 < f <= 2.625
  {
    var byKind := if kind == "T1" then 0.6666 else if kind == "T2" then 1.5 else 1.0;
    var byNic := if nic then 1.75 else 1.0;
    var byStatus := match status case Red => 0.5 case Yellow => 0.75 case Green => 1.0;
    byKind * byNic * byStatus
  }

  /** The weights: a T2 resolver counts one and a half times, a T1 resolver two thirds; one that resolves the
      network 1.75 times; a red one half, a yellow one three quarters. */
  lemma FactorWeights(kind: string, nic: bool, status: Status)
    ensures Factor("", false, Green) == 1.0
    ensures kind == "T2" ==> Factor(kind, nic, status) == 1.5 * Factor("", nic, status)
    ensures kind == "T1" ==> Factor(kind, nic, status) == 0.6666 * Factor("", nic, status)
    ensures kind != "T1" && kind != "T2" ==> Factor(kind, nic, status) == Factor("", nic, status)
    ensures Factor(kind, true, status) == 1.75 * Factor(kind, false, status)
    ensures Factor(kind, nic, Red) == 0.5 * Factor(kind, nic, Green)
    ensures Factor(kind, nic, Yellow) == 0.75 * Factor(kind, nic, Green)
  {
  }

  function Scored(mean: real, max: real, factor: real): real {
    (max - EffectiveLatency(mean, max)) * factor
  }

  /** The score of a resolver of this kind with this history. */
  ghost function ScoreFrom(kind: string, queries: seq<Query>, max: real): real {
    Scored(MeanLatency(queries), max, Factor(kind, Resolves(queries, "opennic"), StatusOf(queries)))
  }

  ghost function ScoreFor(r: Resolver, max: real): real
    reads r`queries
  {
    ScoreFrom(r.kind, r.queries, max)
  }

  /** The score by the record: nothing without a history, else what the mean latency falls short of the pool's
      greatest, weighted. */
  lemma ScoreIs(kind: string, queries: seq<Query>, max: real)
    ensures queries == [] ==> ScoreFrom(kind, queries, max) == 0.0
    ensures queries != [] ==> ScoreFrom(kind, queries, max)
                              == (max - MeanLatency(queries))
                                 * Factor(kind, Resolves(queries, "opennic"), StatusOf(queries))
  {
  }

  lemma ProductBounds(x: real, y: real, b: real)
    requires x >= 0.0 && 0.0 < y <= b
    ensures 0.0 <= x * y <= x * b
  {
  }

  lemma StrictProduct(x: real, x': real, y: real)
    requires x < x' && y > 0.0
    ensures x * y < x' * y
  {
  }

  /** Every score lies between zero and 2.625 times the pool's latency spread. */
  lemma ScoreBounds(mean: real, min: real, max: real, kind: string, nic: bool, status: Status)
    requires min <= mean <= max
    ensures 0.0 <= Scored(mean, max, Factor(kind, nic, status)) <= 2.625 * (max - min)
  {
    var spread := max - EffectiveLatency(mean, max);
    ProductBounds(spread, Factor(kind, nic, status), 2.625);
    assert spread <= max - min;
  }

  /** The same for every resolver of a scored pool. */
  lemma PoolScoreBounds(rs: seq<Resolver>, r: Resolver)
    requires r in rs && r.score == ScoreFor(r, MaxOf(Means(rs)))
    ensures 0.0 <= r.score <= 2.625 * (MaxOf(Means(rs)) - MinOf(Means(rs)))
  {
    var xs := Means(rs);
    Bounded(xs);
    var i :| 0 <= i < |rs| && rs[i] == r;
    assert xs[i] == MeanLatency(r.queries);
    ScoreBounds(xs[i], MinOf(xs), MaxOf(xs), r.kind, Resolves(r.queries, "opennic"), StatusOf(r.queries));
  }

  /** Same kind, NIC flag and status, and a lower effective latency. */
  ghost predicate Outranks(r: Resolver, s: Resolver, max: real)
    reads r`queries, s`queries
  {
    && r.kind == s.kind && StatusOf(r.queries) == StatusOf(s.queries)
    && Resolves(r.queries, "opennic") == Resolves(s.queries, "opennic")
    && EffectiveLatency(MeanLatency(r.queries), max) < EffectiveLatency(MeanLatency(s.queries), max)
  }

  lemma OutranksScores(r: Resolver, s: Resolver, max: real)
    requires Outranks(r, s, max)
    ensures ScoreFor(r, max) > ScoreFor(s, max)
  {
    StrictProduct(max - EffectiveLatency(MeanLatency(s.queries), max),
                  max - EffectiveLatency(MeanLatency(r.queries), max),
                  Factor(r.kind, Resolves(r.queries, "opennic"), StatusOf(r.queries)));
  }

  /** Every score is the one the resolver's history gives it against the latency `max`. */
  ghost predicate ScoredAgainst(rs: seq<Resolver>, max: real)
    reads rs`score, rs`queries
  {
    forall r :: r in rs ==> r.score == ScoreFor(r, max)
  }

  /** The ranking is faithful: in a pool scored against `max` and then ranked, of two resolvers of
      the same kind, NIC flag and status the one with the lower effective latency comes first. */
  lemma RankFidelity(rs: seq<Resolver>, max: real, i: nat, j: nat)
    requires Ranked(rs) && i < |rs| && j < |rs| && ScoredAgainst(rs, max)
    requires Outranks(rs[i], rs[j], max)
    ensures i < j
  {
    OutranksScores(rs[i], rs[j], max);
    assert rs[i] in rs && rs[j] in rs;
  }

  /** Of two resolvers of the same effective latency below the pool's greatest, alike in NIC flag and status,
      a T2 resolver comes before any other, and any other before a T1 resolver. */
  lemma BetterKindFirst(rs: seq<Resolver>, max: real, i: nat, j: nat)
    requires Ranked(rs) && i < |rs| && j < |rs| && ScoredAgainst(rs, max)
    requires StatusOf(rs[i].queries) == StatusOf(rs[j].queries)
    requires Resolves(rs[i].queries, "opennic") == Resolves(rs[j].queries, "opennic")
    requires EffectiveLatency(MeanLatency(rs[i].queries), max) < max
    requires EffectiveLatency(MeanLatency(rs[i].queries), max) == EffectiveLatency(MeanLatency(rs[j].queries), max)
    requires (rs[i].kind == "T2" && rs[j].kind != "T2") || (rs[i].kind != "T1" && rs[j].kind == "T1")
    ensures i < j
  {
    var r, s := rs[i], rs[j];
    var nic, status := Resolves(r.queries, "opennic"), StatusOf(r.queries);
    StrictProduct(Factor(s.kind, nic, status), Factor(r.kind, nic, status),
                  max - EffectiveLatency(MeanLatency(r.queries), max));
    assert r in rs && s in rs && r.score > s.score;
  }

  ghost predicate FasterFirst(rs: seq<Resolver>, max: real)
    reads rs`queries
  {
    forall i, j :: 0 <= i < |rs| && 0 <= j < |rs| && Outranks(rs[i], rs[j], max) ==> i < j
  }

  lemma RankedFasterFirst(rs: seq<Resolver>, max: real)
    requires Ranked(rs) && ScoredAgainst(rs, max)
    ensures FasterFirst(rs, max)
  {
    forall i, j | 0 <= i < |rs| && 0 <= j < |rs| && Outranks(rs[i], rs[j], max) ensures i < j {
      RankFidelity(rs, max, i, j);
    }
  }

  // ---------------------------------------------------------------- latency of a pool

  function MinOf(xs: seq<real>): real {
    if xs == [] then 0.0
    else if |xs| == 1 then xs[0]
    else
      var m, last := MinOf(xs[..|xs| - 1]), xs[|xs| - 1];
      if last < m then last else m
  }

  function MaxOf(xs: seq<real>): real {
    if xs == [] then 0.0
    else if |xs| == 1 then xs[0]
    else
      var m, last := MaxOf(xs[..|xs| - 1]), xs[|xs| - 1];
      if last > m then last else m
  }

  function SumOf(xs: seq<real>): real {
    if xs == [] then 0.0 else SumOf(xs[..|xs| - 1]) + xs[|xs| - 1]
  }

  lemma {:induction false} Bounded(xs: seq<real>)
    ensures forall i :: 0 <= i < |xs| ==> MinOf(xs) <= xs[i] <= MaxOf(xs)
    ensures xs != [] ==> MinOf(xs) in xs && MaxOf(xs) in xs
  {
    if |xs| > 1 {
      Bounded(xs[..|xs| - 1]);
      assert forall i :: 0 <= i < |xs| - 1 ==> xs[i] == xs[..|xs| - 1][i];
    }
  }

  lemma {:induction false} SumBounded(xs: seq<real>, low: real, high: real)
    requires forall i :: 0 <= i < |xs| ==> low <= xs[i] <= high
    ensures low * |xs| as real <= SumOf(xs) <= high * |xs| as real
  {
    if xs != [] {
      var n := |xs| - 1;
      SumBounded(xs[..n], low, high);
      OneMore(low, n);
      OneMore(high, n);
    }
  }

  lemma OneMore(a: real, n: nat)
    ensures a * (n + 1) as real == a * n as real + a
  {
  }

  lemma MeanOf(sum: real, low: real, high: real, n: nat)
    requires n > 0 && low * n as real <= sum <= high * n as real
    ensures low <= sum / n as real <= high
  {
    if sum / n as real < low {
      StrictProduct(sum / n as real, low, n as real);
    }
    if sum / n as real > high {
      StrictProduct(high, sum / n as real, n as real);
    }
  }

  lemma NextPrefix(xs: seq<real>, n: nat)
    requires n < |xs|
    ensures SumOf(xs[..n + 1]) == SumOf(xs[..n]) + xs[n]
    ensures n == 0 ==> MinOf(xs[..n + 1]) == MaxOf(xs[..n + 1]) == xs[n]
    ensures n > 0 ==> MinOf(xs[..n + 1]) == if xs[n] < MinOf(xs[..n]) then xs[n] else MinOf(xs[..n])
    ensures n > 0 ==> MaxOf(xs[..n + 1]) == if xs[n] > MaxOf(xs[..n]) then xs[n] else MaxOf(xs[..n])
  {
    assert xs[..n + 1][..n] == xs[..n];
  }

  lemma MeanBetween(xs: seq<real>)
    requires xs != []
    ensures MinOf(xs) <= SumOf(xs) / |xs| as real <= MaxOf(xs)
  {
    Bounded(xs);
    SumBounded(xs, MinOf(xs), MaxOf(xs));
    MeanOf(SumOf(xs), MinOf(xs), MaxOf(xs), |xs|);
  }

  ghost function Means(rs: seq<Resolver>): (xs: seq<real>)
    reads rs`queries
    ensures |xs| == |rs|
    ensures forall i :: 0 <= i < |rs| ==> xs[i] == MeanLatency(rs[i].queries)
  {
    if rs == [] then [] else Means(rs[..|rs| - 1]) + [MeanLatency(rs[|rs| - 1].queries)]
  }

  // ---------------------------------------------------------------- lists of addresses

  /** The host is the address of one of the first `n` items, and that item is not blank. `address` is the
      library's reading of an address text. */
  ghost predicate Listed(items: seq<string>, n: nat, address: string -> string, host: string)
    requires n <= |items|
  {
    exists i :: 0 <= i < n && Trimmed(items[i]) != [] && address(Trimmed(items[i])) == host
  }

  /** The pool `after` is the pool `before` and, for every host listed and not yet known, one resolver of that
      host and kind. */
  ghost predicate Joined(before: seq<Resolver>, after: seq<Resolver>, items: seq<string>, n: nat, kind: string,
                         address: string -> string)
    requires n <= |items|
  {
    && (forall r :: r in before ==> r in after)
    && (forall r :: r in after && r !in before ==> r.kind == kind && Listed(items, n, address, r.host))
    && (forall i :: 0 <= i < n && Trimmed(items[i]) != [] ==> HasHost(after, address(Trimmed(items[i]))))
  }

  lemma JoinedMembers(before: seq<Resolver>, after: seq<Resolver>, after': seq<Resolver>,
                      items: seq<string>, n: nat, kind: string, address: string -> string)
    requires n <= |items| && Joined(before, after, items, n, kind, address)
    requires forall r :: r in after' <==> r in after
    ensures Joined(before, after', items, n, kind, address)
  {
  }

  lemma JoinedBlank(before: seq<Resolver>, after: seq<Resolver>,
                    items: seq<string>, n: nat, kind: string, address: string -> string)
    requires n < |items| && Joined(before, after, items, n, kind, address) && Trimmed(items[n]) == []
    ensures Joined(before, after, items, n + 1, kind, address)
  {
  }

  lemma JoinedNext(before: seq<Resolver>, after: seq<Resolver>, after': seq<Resolver>, r: Resolver,
                   items: seq<string>, n: nat, kind: string, address: string -> string)
    requires n < |items| && Joined(before, after, items, n, kind, address) && Trimmed(items[n]) != []
    requires r.kind == kind && r.host == address(Trimmed(items[n])) && HasHost(after', r.host)
    requires forall x :: x in after' <==> x in after || (x == r && r in after')
    ensures Joined(before, after', items, n + 1, kind, address)
  {
    forall x | x in after' && x !in before ensures x.kind == kind && Listed(items, n + 1, address, x.host) {
      if x in after {
        assert Listed(items, n, address, x.host);
      } else {
        assert x == r && Trimmed(items[n]) != [];
      }
    }
  }

  // ---------------------------------------------------------------- the pool

  class ResolverPool {
    var resolvers: seq<Resolver>

    constructor ()
      ensures resolvers == []
    {
      resolvers := [];
    }

    method IndexOf(host: string) returns (n: int)
      ensures -1 <= n < |resolvers|
      ensures n >= 0 ==> resolvers[n].host == host
      ensures forall i :: 0 <= i < n ==> resolvers[i].host != host
      ensures n == -1 <==> !HasHost(resolvers, host)
    {
      for i := 0 to |resolvers|
        invariant forall k :: 0 <= k < i ==> resolvers[k].host != host
      {
        if host == resolvers[i].host {
          return i;
        }
      }
      return -1;
    }

    /** Takes a reference, and gives it back when the pool already has the host. A rejected resolver
        that nothing else refers to is scheduled for deletion. */
    method Append(r: Resolver) returns (added: bool)
      modifies this`resolvers, r`refCount, r`doomed
      ensures added == !HasHost(old(resolvers), r.host)
      ensures resolvers == if added then old(resolvers) + [r] else old(resolvers)
      ensures r.refCount == old(r.refCount) + (if added then 1 else 0)
      ensures r.doomed == (old(r.doomed) || (!added && old(r.refCount) <= 0))
    {
      r.IncRef();
      var n := IndexOf(r.host);
      if n < 0 {
        resolvers := resolvers + [r];
        return true;
      }
      r.DecRef();
      return false;
    }

    method Insort(r: Resolver) returns (added: bool)
      modifies this`resolvers, r`refCount, r`doomed
      ensures added == !HasHost(old(resolvers), r.host)
      ensures Permuted(resolvers, if added then old(resolvers) + [r] else old(resolvers))
      ensures added ==> Ranked(resolvers)
      ensures !added ==> resolvers == old(resolvers)
      ensures old(DistinctHosts(resolvers)) ==> DistinctHosts(resolvers)
      ensures r.refCount == old(r.refCount) + (if added then 1 else 0)
      ensures r.doomed == (old(r.doomed) || (!added && old(r.refCount) <= 0))
    {
      added := Append(r);
      if added {
        Sort();
      }
    }

    method Swap(a: nat, b: nat)
      requires a < |resolvers| && b < |resolvers|
      modifies this`resolvers
      ensures resolvers == old(resolvers)[a := old(resolvers[b])][b := old(resolvers[a])]
    {
      var t := resolvers[a];
      resolvers := resolvers[a := resolvers[b]];
      resolvers := resolvers[b := t];
    }

    /** The place of the first highest score from `a` on. */
    method BestFrom(a: nat) returns (best: nat)
      requires a < |resolvers|
      ensures a <= best < |resolvers|
      ensures forall k :: a <= k < |resolvers| ==> resolvers[best].score >= resolvers[k].score
      ensures forall k :: a <= k < best ==> resolvers[k].score < resolvers[best].score
    {
      best := a;
      for b := a + 1 to |resolvers|
        invariant a <= best < b
        invariant forall k :: a <= k < b ==> resolvers[best].score >= resolvers[k].score
        invariant forall k :: a <= k < best ==> resolvers[k].score < resolvers[best].score
      {
        if resolvers[best].score < resolvers[b].score {
          best := b;
        }
      }
    }

    /** Selection sort by falling score. A ranked pool stays exactly as it is. */
    method Sort()
      modifies this`resolvers
      ensures Ranked(resolvers) && Permuted(resolvers, old(resolvers))
      ensures forall r :: r in resolvers <==> r in old(resolvers)
      ensures old(DistinctHosts(resolvers)) ==> DistinctHosts(resolvers)
      ensures old(Ranked(resolvers)) ==> resolvers == old(resolvers)
    {
      SortLoop();
      PermutedMembers(resolvers, old(resolvers));
    }

    method SortLoop()
      modifies this`resolvers
      ensures Ranked(resolvers) && Permuted(resolvers, old(resolvers))
      ensures old(DistinctHosts(resolvers)) ==> DistinctHosts(resolvers)
      ensures old(Ranked(resolvers)) ==> resolvers == old(resolvers)
    {
      if |resolvers| >= 2 {
        var a := 0;
        while a < |resolvers| - 1
          invariant 0 <= a < |resolvers| && Permuted(resolvers, old(resolvers))
          invariant old(DistinctHosts(resolvers)) ==> DistinctHosts(resolvers)
          invariant old(Ranked(resolvers)) ==> resolvers == old(resolvers)
          invariant RankedTo(resolvers, a)
        {
          PlaceBest(a);
          a := a + 1;
        }
      }
    }

    /** One round of the sort: the best of the rest goes to place `a`. */
    method PlaceBest(a: nat)
      requires a < |resolvers| && RankedTo(resolvers, a)
      modifies this`resolvers
      ensures RankedTo(resolvers, a + 1) && Permuted(resolvers, old(resolvers))
      ensures old(DistinctHosts(resolvers)) ==> DistinctHosts(resolvers)
      ensures old(Ranked(resolvers)) ==> resolvers == old(resolvers)
    {
      var best := BestFrom(a);
      SwapPermutes(resolvers, a, best);
      Swap(a, best);
    }

    /** Random transpositions, as many as there are resolvers: the generator is asked until its two places
        differ. Told are the places. */
    method Randomize() returns (ghost swaps: seq<(nat, nat)>)
      modifies this`resolvers
      ensures Permuted(resolvers, old(resolvers))
      ensures old(DistinctHosts(resolvers)) ==> DistinctHosts(resolvers)
      ensures |swaps| == if |resolvers| >= 2 then |resolvers| else 0
      ensures Exchanges(swaps, |old(resolvers)|) && resolvers == Swapped(old(resolvers), swaps)
    {
      swaps := [];
      if |resolvers| >= 2 {
        for n := 0 to |resolvers|
          invariant Permuted(resolvers, old(resolvers)) && |swaps| == n
          invariant old(DistinctHosts(resolvers)) ==> DistinctHosts(resolvers)
          invariant Exchanges(swaps, |old(resolvers)|) && resolvers == Swapped(old(resolvers), swaps)
        {
          assert 0 < |resolvers| && 1 < |resolvers|;
          var a: nat, b: nat := PickTwo(|resolvers|);
          SwapPermutes(resolvers, a, b);
          OneSwapMore(old(resolvers), swaps, a, b);
          Swap(a, b);
          swaps := swaps + [(a, b)];
        }
      }
    }

    static method PickTwo(n: nat) returns (a: nat, b: nat)
      requires n >= 2
      ensures a < n && b < n && a != b
    {
      a :| a < n;
      assert (if a == 0 then 1 else 0) < n;
      b :| b < n && b != a;
    }

    /** A new resolver for every address that is not blank, unless the pool has its host already. */
    method FromIPList(items: seq<string>, kind: string, address: string -> string,
                      now: int, service: nat -> string, rnd: nat -> nat)
      modifies this`resolvers
      ensures old(DistinctHosts(resolvers)) ==> DistinctHosts(resolvers)
      ensures Joined(old(resolvers), resolvers, items, |items|, kind, address)
      ensures forall r :: r in resolvers && r !in old(resolvers) ==> fresh(r) && r.refCount == 1 && !r.doomed
    {
      for n := 0 to |items|
        invariant old(DistinctHosts(resolvers)) ==> DistinctHosts(resolvers)
        invariant Joined(old(resolvers), resolvers, items, n, kind, address)
        invariant forall r :: r in resolvers && r !in old(resolvers) ==> fresh(r) && r.refCount == 1 && !r.doomed
      {
        ghost var before := resolvers;
        if Trimmed(items[n]) != [] {
          var added, r := InsortNew(address(Trimmed(items[n])), kind, now, service(n), rnd(n));
          JoinedNext(old(resolvers), before, resolvers, r, items, n, kind, address);
        } else {
          JoinedBlank(old(resolvers), before, items, n, kind, address);
        }
      }
    }

    method InsortNew(host: string, kind: string, now: int, service: string, rnd: nat)
      returns (added: bool, r: Resolver)
      modifies this`resolvers
      ensures fresh(r) && r.host == host && r.kind == kind
      ensures added == !HasHost(old(resolvers), host)
      ensures added ==> r.refCount == 1 && !r.doomed
      ensures !added ==> r.refCount == 0 && r.doomed && resolvers == old(resolvers)
      ensures forall x :: x in resolvers <==> x in old(resolvers) || (added && x == r)
      ensures HasHost(resolvers, host)
      ensures old(DistinctHosts(resolvers)) ==> DistinctHosts(resolvers)
    {
      r := new Resolver(host, kind, now, service, rnd);
      added := Insort(r);
      if added {
        PermutedMembers(resolvers, old(resolvers) + [r]);
        assert r in resolvers;
      }
    }

    /** Mean, least and greatest of the resolvers' mean latencies. */
    method Latency() returns (mean: real, min: real, max: real)
      ensures min == MinOf(Means(resolvers)) && max == MaxOf(Means(resolvers))
      ensures min <= mean <= max
      ensures resolvers != [] ==> mean == SumOf(Means(resolvers)) / |resolvers| as real
      ensures resolvers == [] ==> mean == min == max == 0.0
    {
      mean, min, max := 0.0, 0.0, 0.0;
      if |resolvers| > 0 {
        ghost var xs := Means(resolvers);
        var total := 0.0;
        for n := 0 to |resolvers|
          invariant total == SumOf(xs[..n]) && min == MinOf(xs[..n]) && max == MaxOf(xs[..n])
        {
          NextPrefix(xs, n);
          var average := resolvers[n].AverageLatency();
          total := total + average;
          if n == 0 {
            min, max := average, average;
          } else {
            if average < min {
              min := average;
            }
            if average > max {
              max := average;
            }
          }
        }
        assert xs[..|resolvers|] == xs;
        mean := total / |resolvers| as real;
        MeanBetween(xs);
      }
    }

    method ScoreResolverInternal(r: Resolver, max: real) returns (score: real)
      ensures score == ScoreFor(r, max)
    {
      var average := r.AverageLatency();
      if average < 0.0 {
        average := max;
      }
      score := max - average;
      if r.kind == "T1" {
        score := score * 0.6666;
      }
      if r.kind == "T2" {
        score := score * 1.5;
      }
      var nic := r.ResolvesNic("opennic");
      if nic {
        score := score * 1.75;
      }
      var status := r.Status();
      if status == Red {
        score := score * 0.5;
      }
      if status == Yellow {
        score := score * 0.75;
      }
    }

    method Score()
      modifies resolvers`score
      ensures ScoredAgainst(resolvers, old(MaxOf(Means(resolvers))))
    {
      if |resolvers| > 0 {
        var mean, min, max := Latency();
        ApplyScores(max);
      }
    }

    method ApplyScores(max: real)
      modifies resolvers`score
      ensures ScoredAgainst(resolvers, max)
    {
      for n := 0 to |resolvers|
        invariant forall i :: 0 <= i < n ==> resolvers[i].score == ScoreFor(resolvers[i], max)
      {
        var score := ScoreResolverInternal(resolvers[n], max);
        resolvers[n].score := score;
      }
    }

    /** The list is emptied; no reference is given back. */
    method Clear()
      modifies this`resolvers
      ensures resolvers == []
    {
      resolvers := [];
    }

    twostate predicate Released(r: Resolver)
      reads r`refCount, r`doomed
    {
      r.refCount == old(r.refCount) - 1 && r.doomed == (old(r.doomed) || r.refCount <= 0)
    }

    twostate predicate Held(r: Resolver)
      reads r`refCount, r`doomed
    {
      r.refCount == old(r.refCount) && r.doomed == old(r.doomed)
    }

    /** The destructor: one reference of every member is given back. */
    method Destroy()
      requires DistinctHosts(resolvers)
      modifies this`resolvers, resolvers`refCount, resolvers`doomed
      ensures resolvers == []
      ensures forall r :: r in old(resolvers) ==>
                r.refCount == old(r.refCount) - 1 && r.doomed == (old(r.doomed) || r.refCount <= 0)
    {
      var rs := resolvers;
      for n := 0 to |rs|
        invariant forall i :: 0 <= i < n ==> Released(rs[i])
        invariant forall i :: n <= i < |rs| ==> Held(rs[i])
      {
        assert forall i :: 0 <= i < |rs| && i != n ==> rs[i].host != rs[n].host;
        rs[n].DecRef();
      }
      resolvers := [];
    }
  }
}
