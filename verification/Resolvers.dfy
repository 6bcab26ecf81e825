/** One DNS resolver: reference count, score, and the history of its test queries. */
module Resolvers {
  import opened QueryLife
  import H = QueryHistory

  datatype Status = Red | Yellow | Green

  /** A test query as its resolver sees it; `end` is set when it has ended. */
  datatype Query = Query(service: string, start: int, end: QueryEnd, error: DnsError)
  datatype QueryEnd = Running | EndedAt(time: int)

  function Latency(q: Query): (ms: nat) {
    if q.end.EndedAt? && q.end.time > q.start then q.end.time - q.start else 0
  }

  function TotalLatency(qs: seq<Query>): (ms: nat) {
    if qs == [] then 0 else TotalLatency(qs[..|qs| - 1]) + Latency(qs[|qs| - 1])
  }

  /** The mean latency on record, or -1 without a record. */
  function MeanLatency(qs: seq<Query>): (ms: real)
    ensures qs == [] ==> ms == -1.0
    ensures qs != [] ==> ms >= 0.0
  {
    if qs == [] then -1.0 else TotalLatency(qs) as real / |qs| as real
  }

  predicate Failed(q: Query) {
    q.error != DnsOk
  }

  predicate Dead(q: Query) {
    q.error == DnsTimeout || q.error == DnsFailed
  }

  /** The two newest queries timed out or failed. */
  ghost predicate GivenUp(qs: seq<Query>) {
    |qs| >= 2 && forall i :: 0 <= i < 2 ==> qs[i].error in [DnsTimeout, DnsFailed]
  }

  function Failures(qs: seq<Query>): (n: nat)
    ensures n <= |qs|
  {
    if qs == [] then 0 else Failures(qs[..|qs| - 1]) + if Failed(qs[|qs| - 1]) then 1 else 0
  }

  /** Green: a history, and none of the newest three failed. Yellow: exactly one of three failed. */
  function StatusOf(qs: seq<Query>): Status {
    var newest := H.Pruned(qs, 3);
    if qs != [] && Failures(newest) == 0 then Green
    else if |newest| == 3 && Failures(newest) == 1 then Yellow
    else Red
  }

  /** The colours, query by query: green if and only if there is a history and the newest three of it, or all
      of a shorter one, are without error; yellow if and only if exactly one of the newest three is not. */
  lemma StatusIff(qs: seq<Query>)
    ensures StatusOf(qs) == Green <==> qs != [] && forall i :: 0 <= i < |qs| && i < 3 ==> qs[i].error == DnsOk
    ensures StatusOf(qs) == Yellow <==>
            |qs| >= 3 && (if qs[0].error == DnsOk then 0 else 1) + (if qs[1].error == DnsOk then 0 else 1)
                         + (if qs[2].error == DnsOk then 0 else 1) == 1
  {
    var newest := H.Pruned(qs, 3);
    FailuresUpTo(newest);
    if |qs| >= 3 {
      assert newest == [qs[0], qs[1], qs[2]];
    }
  }

  /** Failures of up to three queries, one by one. */
  lemma FailuresUpTo(qs: seq<Query>)
    requires |qs| <= 3
    ensures Failures(qs) == (if |qs| > 0 && qs[0].error != DnsOk then 1 else 0)
                            + (if |qs| > 1 && qs[1].error != DnsOk then 1 else 0)
                            + (if |qs| > 2 && qs[2].error != DnsOk then 1 else 0)
  {
    if |qs| == 3 {
      assert qs[..2][..1] == qs[..1];
    }
  }

  /** The latency of a query that has ended is the time from its start to its end, of any other zero; and the
      mean over a history is their sum through their number. */
  lemma LatencyIs(service: string, start: int, end: int, error: DnsError)
    ensures Latency(Query(service, start, Running, error)) == 0
    ensures start <= end ==> Latency(Query(service, start, EndedAt(end), error)) == end - start
    ensures end <= start ==> Latency(Query(service, start, EndedAt(end), error)) == 0
  {
  }

  /** One more query in front of a history: the sum of the latencies grows by its own. */
  lemma {:induction false} TotalCons(q: Query, qs: seq<Query>)
    ensures TotalLatency([]) == 0 && TotalLatency([q] + qs) == Latency(q) + TotalLatency(qs)
  {
    if qs == [] {
      assert [q] + qs == [q] && [q][..0] == [];
    } else {
      var n := |qs| - 1;
      assert ([q] + qs)[..n + 1] == [q] + qs[..n];
      TotalCons(q, qs[..n]);
    }
  }

  /** Mean and sum. */
  lemma MeanIs(qs: seq<Query>)
    requires qs != []
    ensures MeanLatency(qs) * |qs| as real == TotalLatency(qs) as real
  {
  }

  ghost predicate Resolves(qs: seq<Query>, nic: string) {
    exists i :: 0 <= i < |qs| && qs[i].service == nic && qs[i].error == DnsOk
  }

  function Starts(qs: seq<Query>): (starts: seq<int>)
    ensures |starts| == |qs|
    ensures forall i :: 0 <= i < |qs| ==> starts[i] == qs[i].start
  {
    seq(|qs|, i requires 0 <= i < |qs| => qs[i].start)
  }

  lemma StartsPruned(qs: seq<Query>, depth: nat)
    ensures Starts(H.Pruned(qs, depth)) == H.Pruned(Starts(qs), depth)
  {
  }

  lemma StartsCons(q: Query, qs: seq<Query>)
    ensures Starts([q] + qs) == [q.start] + Starts(qs)
  {
  }

  class Resolver {
    const host: string
    const kind: string
    var refCount: int
    var doomed: bool         // scheduled for deletion
    var score: real
    var queries: seq<Query>
    var maxDepth: nat
    var nextTest: int        // when the interval timer fires
    var bootstrapTicks: nat

    /** The history as seen at `now`. */
    function View(now: int): H.History
      reads this
    {
      H.History(Starts(queries), maxDepth, nextTest, bootstrapTicks, now)
    }

    constructor (host: string, kind: string, now: int, service: string, rnd: nat)
      ensures this.host == host && this.kind == kind
      ensures refCount == 0 && !doomed && score == 0.0
      ensures View(now) == H.Fresh(now, rnd)
      ensures queries == [Query(service, now, Running, DnsOk)]
    {
      this.host, this.kind := host, kind;
      refCount, doomed, score := 0, false, 0.0;
      queries, maxDepth, nextTest, bootstrapTicks := [], H.MAX_QUERY_DEPTH, now, 0;
      new;
      Test(now, service, rnd);
    }

    method IncRef()
      modifies this`refCount
      ensures refCount == old(refCount) + 1
    {
      refCount := refCount + 1;
    }

    method DecRef()
      modifies this`refCount, this`doomed
      ensures refCount == old(refCount) - 1
      ensures doomed == (old(doomed) || refCount <= 0)
    {
      refCount := refCount - 1;
      if refCount <= 0 {
        doomed := true;
      }
    }

    method PruneQueries()
      modifies this`queries
      ensures queries == H.Pruned(old(queries), maxDepth)
    {
      while |queries| > 0 && |queries| > maxDepth
        invariant queries <= old(queries)
        invariant H.Pruned(queries, maxDepth) == H.Pruned(old(queries), maxDepth)
        decreases |queries|
      {
        queries := queries[..|queries| - 1];
      }
    }

    method AddToQueries(q: Query)
      modifies this`queries
      ensures queries == H.Pruned([q] + old(queries), maxDepth)
    {
      queries := [q] + queries;
      PruneQueries();
    }

    method SetMaxQueryDepth(depth: int, now: int)
      modifies this`queries, this`maxDepth
      ensures View(now) == H.Step(old(View(now)), H.SetDepth(now, depth))
      ensures queries == H.Pruned(old(queries), maxDepth)
    {
      if depth >= 1 {
        maxDepth := depth;
      }
      StartsPruned(queries, maxDepth);
      PruneQueries();
    }

    /** Starts a new query and rearms the interval timer. */
    method Test(now: int, service: string, rnd: nat)
      modifies this`queries, this`nextTest, this`bootstrapTicks
      ensures View(now) == H.Step(old(View(now)), H.Test(now, rnd))
      ensures queries == H.Pruned([Query(service, now, Running, DnsOk)] + old(queries), maxDepth)
    {
      var q := Query(service, now, Running, DnsOk);
      StartsCons(q, queries);
      StartsPruned([q] + queries, maxDepth);
      AddToQueries(q);
      ResetQueryTimer(now, rnd);
    }

    method ResetQueryTimer(now: int, rnd: nat)
      modifies this`nextTest, this`bootstrapTicks
      ensures nextTest == now + H.Interval(old(bootstrapTicks), rnd)
      ensures bootstrapTicks == old(bootstrapTicks) + 1
    {
      var ticks := bootstrapTicks;
      bootstrapTicks := bootstrapTicks + 1;
      if ticks < H.BOOTSTRAP_TIMER_TICKS {
        nextTest := now + H.Random(rnd, H.RANDOM_INTERVAL_MIN / 4, H.RANDOM_INTERVAL_MAX / 8);
      } else {
        nextTest := now + H.Random(rnd, H.RANDOM_INTERVAL_MIN, H.RANDOM_INTERVAL_MAX);
      }
    }

    method AverageLatency() returns (ms: real)
      ensures ms == MeanLatency(queries)
    {
      if |queries| == 0 {
        return -1.0;
      }
      var total := 0.0;
      for n := 0 to |queries|
        invariant total == TotalLatency(queries[..n]) as real
      {
        assert queries[..n + 1][..n] == queries[..n];
        total := total + Latency(queries[n]) as real;
      }
      assert queries[..|queries|] == queries;
      ms := total / |queries| as real;
    }

    /** Counting over the newest three, and the verdict drawn from the counts. */
    method Status() returns (status: Status)
      ensures status == StatusOf(queries)
    {
      if |queries| > 0 {
        var failures, successes := 0, 0;
        var count := if |queries| <= 3 then |queries| else 3;
        var newest := queries[..count];
        for n := 0 to count
          invariant failures == Failures(newest[..n]) && successes == n - failures
        {
          assert newest[..n + 1][..n] == newest[..n];
          if queries[n].error == DnsOk {
            successes := successes + 1;
          } else {
            failures := failures + 1;
          }
        }
        assert newest[..count] == newest == H.Pruned(queries, 3);
        if failures == 0 && successes > 0 {
          return Green;
        }
        if successes - failures >= 1 {
          return Yellow;
        }
      }
      return Red;
    }

    /** Not alive exactly when the two newest queries timed out or failed to be sent. */
    method Alive() returns (alive: bool)
      ensures alive <==> !GivenUp(queries)
    {
      var deadCount := 0;
      var n := 0;
      while n < |queries| && Dead(queries[n])
        invariant n == deadCount <= |queries|
        invariant forall i :: 0 <= i < n ==> Dead(queries[i])
      {
        deadCount := deadCount + 1;
        n := n + 1;
      }
      alive := !(deadCount >= 2);
    }

    method ResolvesNic(nic: string) returns (found: bool)
      ensures found <==> exists i :: 0 <= i < |queries| && queries[i].service == nic && queries[i].error == DnsOk
    {
      found := false;
      for n := 0 to |queries|
        invariant !exists i :: 0 <= i < n && queries[i].service == nic && queries[i].error == DnsOk
      {
        if queries[n].service == nic && queries[n].error == DnsOk {
          return true;
        }
      }
    }
  }
}
