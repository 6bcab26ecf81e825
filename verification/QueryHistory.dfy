/** The newest-first history of a resolver's test queries, in time. */
module QueryHistory {

  const RANDOM_INTERVAL_MIN: nat := 10 * 1000
  const RANDOM_INTERVAL_MAX: nat := 10 * 60 * 1000
  const MAX_TIMEOUT: nat := 10 * 1000
  const BOOTSTRAP_TIMER_TICKS: nat := 3
  const MAX_QUERY_DEPTH: nat := 10

  /** `random`: a value of the generator brought into [low, high]. */
  function Random(rnd: nat, low: nat, high: nat): (r: nat)
    requires low <= high
    ensures low <= r <= high
  {
    rnd % ((high + 1) - low) + low
  }

  /** Every value between the bounds comes up. */
  lemma RandomReaches(value: nat, low: nat, high: nat)
    requires low <= value <= high
    ensures Random(value - low, low, high) == value
  {
    var span := high + 1 - low;
    assert (value - low) % span == value - low by {
      assert value - low < span;
    }
  }

  /** The interval to the next test: short ones for the first ticks. */
  function Interval(ticks: nat, rnd: nat): (i: nat)
    ensures i >= RANDOM_INTERVAL_MIN / 4
  {
    if ticks < BOOTSTRAP_TIMER_TICKS then Random(rnd, RANDOM_INTERVAL_MIN / 4, RANDOM_INTERVAL_MAX / 8)
    else Random(rnd, RANDOM_INTERVAL_MIN, RANDOM_INTERVAL_MAX)
  }

  /** The first three intervals take every value from 2.5 to 75 seconds and no other, all later ones every value
      from 10 seconds to 10 minutes. */
  lemma IntervalRange(ticks: nat, i: nat)
    ensures (exists rnd :: Interval(ticks, rnd) == i) <==>
            if ticks < 3 then 2500 <= i <= 75000 else 10000 <= i <= 600000
  {
    if ticks < 3 && 2500 <= i <= 75000 {
      RandomReaches(i, 2500, 75000);
      assert Interval(ticks, i - 2500) == i;
    }
    if ticks >= 3 && 10000 <= i <= 600000 {
      RandomReaches(i, 10000, 600000);
      assert Interval(ticks, i - 10000) == i;
    }
  }

  /** Start times of the queries on record, newest first; the depth limit; when the interval timer
      fires; how many tests were started; and the time of the last event. */
  datatype History = History(starts: seq<int>, depth: nat, nextTest: int, ticks: nat, clock: int)

  datatype Event = Test(now: int, rnd: nat) | SetDepth(now: int, depth: int)

  function Pruned<T>(list: seq<T>, depth: nat): (r: seq<T>)
    ensures r <= list && |r| == if |list| <= depth then |list| else depth
  {
    if |list| <= depth then list else list[..depth]
  }

  /** The list an event prunes. */
  function Candidates(h: History, e: Event): seq<int> {
    if e.Test? then [e.now] + h.starts else h.starts
  }

  function DepthAfter(h: History, e: Event): nat {
    if e.SetDepth? && e.depth >= 1 then e.depth else h.depth
  }

  function Step(h: History, e: Event): History {
    var starts := Pruned(Candidates(h, e), DepthAfter(h, e));
    match e
    case Test(now, rnd) => History(starts, h.depth, now + Interval(h.ticks, rnd), h.ticks + 1, now)
    case SetDepth(now, _) => h.(starts := starts, depth := DepthAfter(h, e), clock := now)
  }

  /** A resolver is created with its first test. */
  function Fresh(now: int, rnd: nat): History {
    Step(History([], MAX_QUERY_DEPTH, now, 0, now), Test(now, rnd))
  }

  /** Timers never fire early, and time does not run backwards. */
  predicate Legal(h: History, e: Event) {
    h.clock <= e.now && (e.Test? ==> h.nextTest <= e.now)
  }

  predicate LegalRun(h: History, events: seq<Event>)
    decreases |events|
  {
    events == [] || (Legal(h, events[0]) && LegalRun(Step(h, events[0]), events[1..]))
  }

  function Run(h: History, events: seq<Event>): History
    decreases |events|
  {
    if events == [] then h else Run(Step(h, events[0]), events[1..])
  }

  /** The query started at `start` has passed its deadline. */
  predicate Expired(start: int, now: int) {
    start + MAX_TIMEOUT <= now
  }

  /** The queries an event drops from the history. */
  function Dropped(h: History, e: Event): (d: seq<int>)
  {
    Candidates(h, e)[|Step(h, e).starts|..]
  }

  function Unexpired(starts: seq<int>, now: int): (n: nat)
  {
    if starts == [] then 0
    else (if Expired(starts[0], now) then 0 else 1) + Unexpired(starts[1..], now)
  }

  /** The i-th newest query started at least i quarter-intervals before the newest. */
  ghost predicate Spaced(h: History) {
    && |h.starts| <= h.depth && h.depth >= 1
    && (forall i :: 0 <= i < |h.starts| ==> h.starts[i] + 2500 * i + 2500 <= h.nextTest)
    && (forall i :: 0 <= i < |h.starts| ==> h.starts[i] + 2500 * i <= h.clock)
  }

  lemma SpacedStep(h: History, e: Event)
    requires Spaced(h) && Legal(h, e)
    ensures Spaced(Step(h, e))
    ensures forall i :: 0 <= i < |Candidates(h, e)| ==> Candidates(h, e)[i] + 2500 * i <= e.now
  {
    var c := Candidates(h, e);
    forall i | 0 <= i < |c| ensures c[i] + 2500 * i <= e.now {
      if e.Test? && i > 0 {
        assert c[i] == h.starts[i - 1];
      }
    }
  }

  lemma {:induction false} SpacedRun(h: History, events: seq<Event>)
    requires Spaced(h) && LegalRun(h, events)
    ensures Spaced(Run(h, events))
    decreases |events|
  {
    if events != [] {
      SpacedStep(h, events[0]);
      SpacedRun(Step(h, events[0]), events[1..]);
    }
  }

  lemma {:induction false} OnlyFirstUnexpired(starts: seq<int>, now: int, k: nat)
    requires forall i :: k <= i < |starts| ==> Expired(starts[i], now)
    ensures Unexpired(starts, now) <= k
    decreases |starts|
  {
    if starts != [] {
      OnlyFirstUnexpired(starts[1..], now, if k == 0 then 0 else k - 1);
    }
  }

  /** In every run, just after any event at most four queries of a resolver are unexpired. */
  lemma AtMostFourInFlight(now0: int, rnd0: nat, events: seq<Event>, e: Event)
    requires LegalRun(Fresh(now0, rnd0), events) && Legal(Run(Fresh(now0, rnd0), events), e)
    ensures Unexpired(Step(Run(Fresh(now0, rnd0), events), e).starts, e.now) <= 4
  {
    SpacedRun(Fresh(now0, rnd0), events);
    SpacedStep(Run(Fresh(now0, rnd0), events), e);
    OnlyFirstUnexpired(Step(Run(Fresh(now0, rnd0), events), e).starts, e.now, 4);
  }

  /** Every query the event drops has passed its deadline. */
  ghost predicate DropsExpired(h: History, e: Event) {
    forall x :: x in Dropped(h, e) ==> x + 10000 <= e.now
  }

  /** The event may follow the run, and leaves a depth limit of `d`. */
  ghost predicate Reaches(now0: int, rnd0: nat, events: seq<Event>, e: Event, d: nat) {
    && LegalRun(Fresh(now0, rnd0), events) && Legal(Run(Fresh(now0, rnd0), events), e)
    && DepthAfter(Run(Fresh(now0, rnd0), events), e) == d
  }

  /** Every query an event drops while the depth limit is at least four has passed its deadline. */
  lemma DropsOnlyExpired(now0: int, rnd0: nat, events: seq<Event>, e: Event, d: nat)
    requires Reaches(now0, rnd0, events, e, d) && d >= 4
    ensures DropsExpired(Run(Fresh(now0, rnd0), events), e)
  {
    var h := Run(Fresh(now0, rnd0), events);
    SpacedRun(Fresh(now0, rnd0), events);
    SpacedStep(h, e);
    LateOnesExpired(Candidates(h, e), |Step(h, e).starts|, e.now);
  }

  lemma LateOnesExpired(starts: seq<int>, from: nat, now: int)
    requires forall i :: 0 <= i < |starts| ==> starts[i] + 2500 * i <= now
    requires from <= |starts| && (from >= 4 || from == |starts|)
    ensures forall x :: x in starts[from..] ==> Expired(x, now)
  {
    forall x | x in starts[from..] ensures Expired(x, now) {
      var i :| 0 <= i < |starts[from..]| && starts[from..][i] == x;
      assert starts[from + i] == x;
    }
  }

  /** A limit of `d` never drops a query in flight, whatever the timing, if and only if d is at
      least four: below that, the first short test intervals already suffice. */
  lemma DepthIsSafeIff(d: nat)
    requires d >= 1
    ensures (forall now0: int, rnd0: nat, events: seq<Event>, e: Event ::
               Reaches(now0, rnd0, events, e, d) ==> DropsExpired(Run(Fresh(now0, rnd0), events), e))
            <==> d >= 4
  {
    if d >= 4 {
      forall now0: int, rnd0: nat, events: seq<Event>, e: Event | Reaches(now0, rnd0, events, e, d)
        ensures DropsExpired(Run(Fresh(now0, rnd0), events), e)
      {
        DropsOnlyExpired(now0, rnd0, events, e, d);
      }
    } else {
      var events, e := BurstDropsInFlight(d);
      assert Reaches(0, 0, events, e, d);
    }
  }

  lemma BurstDropsInFlight(d: nat) returns (events: seq<Event>, e: Event)
    requires 1 <= d <= 3
    ensures Reaches(0, 0, events, e, d) && !DropsExpired(Run(Fresh(0, 0), events), e)
  {
    events := ShortestIntervals();
    e := SetDepth(7500, d);
    var h := History([7500, 5000, 2500, 0], 10, 17500, 4, 7500);
    assert Run(Fresh(0, 0), events) == h;
    assert Step(h, e).starts == h.starts[..d];
    assert Dropped(h, e)[3 - d] == 0;
    assert 0 in Dropped(h, e) && !Expired(0, e.now);
  }

  /** Three tests after the first, each as early as the timer allows. */
  lemma ShortestIntervals() returns (events: seq<Event>)
    ensures LegalRun(Fresh(0, 0), events)
    ensures Run(Fresh(0, 0), events) == History([7500, 5000, 2500, 0], 10, 17500, 4, 7500)
  {
    var t1, t2, t3 := Test(2500, 0), Test(5000, 0), Test(7500, 0);
    var h0 := History([0], 10, 2500, 1, 0);
    var h1 := History([2500, 0], 10, 5000, 2, 2500);
    var h2 := History([5000, 2500, 0], 10, 7500, 3, 5000);
    var h3 := History([7500, 5000, 2500, 0], 10, 17500, 4, 7500);
    assert Fresh(0, 0) == h0;
    assert Step(h0, t1) == h1;
    assert Step(h1, t2) == h2;
    assert Step(h2, t3) == h3;
    RunOne(h2, t3, []);
    RunOne(h1, t2, [t3]);
    RunOne(h0, t1, [t2, t3]);
    events := [t1, t2, t3];
    assert [t1] + [t2, t3] == events && [t2] + [t3] == [t2, t3] && [t3] + [] == [t3];
  }

  lemma RunOne(h: History, e: Event, rest: seq<Event>)
    ensures Run(h, [e] + rest) == Run(Step(h, e), rest)
    ensures LegalRun(h, [e] + rest) == (Legal(h, e) && LegalRun(Step(h, e), rest))
  {
    assert ([e] + rest)[1..] == rest;
  }
}
