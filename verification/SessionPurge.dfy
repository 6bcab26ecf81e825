/** The periodic removal of closed client sessions. */
module SessionPurge {

  /** What one pass keeps: after a removal the loop steps over the session that moved up. */
  function Kept<T>(sessions: seq<T>, live: T -> bool): seq<T>
    decreases |sessions|
  {
    if sessions == [] then []
    else if live(sessions[0]) then [sessions[0]] + Kept(sessions[1..], live)
    else if |sessions| == 1 then []
    else [sessions[1]] + Kept(sessions[2..], live)
  }

  class Sessions<T> {
    var sessions: seq<T>

    /** `n` advances on every round, so the loop skips the element behind each removed one. */
    method PurgeDeadSessions(live: T -> bool)
      modifies this
      ensures sessions == Kept(old(sessions), live)
    {
      var n := 0;
      assert Ahead(sessions, 0, live) == Kept(sessions, live);
      while n < |sessions|
        invariant 0 <= n
        invariant Ahead(sessions, n, live) == Kept(old(sessions), live)
        decreases |sessions| - n
      {
        Round(sessions, n, live);
        if !live(sessions[n]) {
          sessions := sessions[..n] + sessions[n + 1..];
        }
        n := n + 1;
      }
    }
  }

  /** What the pass makes of a list when it has come to `n`. */
  function Ahead<T>(sessions: seq<T>, n: nat, live: T -> bool): seq<T> {
    if n >= |sessions| then sessions else sessions[..n] + Kept(sessions[n..], live)
  }

  lemma Round<T>(sessions: seq<T>, n: nat, live: T -> bool)
    requires n < |sessions|
    ensures live(sessions[n]) ==> Ahead(sessions, n + 1, live) == Ahead(sessions, n, live)
    ensures !live(sessions[n]) ==>
              Ahead(sessions[..n] + sessions[n + 1..], n + 1, live) == Ahead(sessions, n, live)
  {
    if live(sessions[n]) {
      Taken(sessions, n);
      RoundLive(sessions[..n], sessions[n], sessions[n + 1..], live);
    } else if n + 1 == |sessions| {
      assert sessions[n..] == [sessions[n]];
      assert sessions[..n] + sessions[n + 1..] == sessions[..n];
    } else {
      Skipped(sessions, n, live);
    }
  }

  lemma Taken<T>(s: seq<T>, n: nat)
    requires n < |s|
    ensures s[n..] == [s[n]] + s[n + 1..] && s[..n + 1] == s[..n] + [s[n]]
  {
  }

  lemma RoundLive<T>(front: seq<T>, x: T, back: seq<T>, live: T -> bool)
    requires live(x)
    ensures front + Kept([x] + back, live) == front + [x] + Kept(back, live)
  {
    assert ([x] + back)[1..] == back;
  }

  lemma Skipped<T>(s: seq<T>, n: nat, live: T -> bool)
    requires n + 1 < |s| && !live(s[n])
    ensures Ahead(s[..n] + s[n + 1..], n + 1, live) == Ahead(s, n, live)
  {
    var front, x, y, back := s[..n], s[n], s[n + 1], s[n + 2..];
    assert s[n..] == [x, y] + back && s[..n] + s[n + 1..] == front + [y] + back;
    SkippedIn(front, x, y, back, live);
    var rest := front + [y] + back;
    assert rest[..n + 1] == front + [y] && rest[n + 1..] == back;
    assert back == [] ==> rest == front + [y] + Kept(back, live);
  }

  lemma SkippedIn<T>(front: seq<T>, x: T, y: T, back: seq<T>, live: T -> bool)
    requires !live(x)
    ensures front + Kept([x, y] + back, live) == front + [y] + Kept(back, live)
  {
    var s := [x, y] + back;
    assert s[1] == y && s[2..] == back;
    assert Kept(s, live) == [y] + Kept(back, live);
  }

  function LiveOnes<T>(sessions: seq<T>, live: T -> bool): seq<T> {
    if sessions == [] then []
    else (if live(sessions[0]) then [sessions[0]] else []) + LiveOnes(sessions[1..], live)
  }

  function Dead<T>(sessions: seq<T>, live: T -> bool): (n: nat)
    ensures n <= |sessions| && (n == |sessions| <==> forall s :: s in sessions ==> !live(s))
  {
    if sessions == [] then 0 else (if live(sessions[0]) then 0 else 1) + Dead(sessions[1..], live)
  }

  /** One pass drops no live session, keeps their order, and removes at least half of the dead. */
  lemma {:induction false} OnePass<T>(sessions: seq<T>, live: T -> bool)
    ensures LiveOnes(Kept(sessions, live), live) == LiveOnes(sessions, live)
    ensures 2 * Dead(Kept(sessions, live), live) <= Dead(sessions, live)
    decreases |sessions|
  {
    if sessions != [] {
      if live(sessions[0]) {
        OnePass(sessions[1..], live);
        assert Kept(sessions, live)[1..] == Kept(sessions[1..], live);
      } else if |sessions| > 1 {
        OnePass(sessions[2..], live);
        assert Kept(sessions, live)[1..] == Kept(sessions[2..], live);
        assert sessions[1..][1..] == sessions[2..];
      }
    }
  }

  predicate TwoDeadInARow<T>(sessions: seq<T>, live: T -> bool) {
    exists i :: 0 <= i < |sessions| - 1 && !live(sessions[i]) && !live(sessions[i + 1])
  }

  /** One pass removes every dead session if and only if no two of them stand side by side. */
  lemma {:induction false} OnePassSufficesIff<T>(sessions: seq<T>, live: T -> bool)
    ensures Dead(Kept(sessions, live), live) == 0 <==> !TwoDeadInARow(sessions, live)
    decreases |sessions|
  {
    if |sessions| > 1 {
      if live(sessions[0]) {
        OnePassSufficesIff(sessions[1..], live);
        assert Kept(sessions, live)[1..] == Kept(sessions[1..], live);
        SkipOne(sessions, live, 1);
      } else {
        OnePassSufficesIff(sessions[2..], live);
        assert Kept(sessions, live)[1..] == Kept(sessions[2..], live);
        if live(sessions[1]) {
          SkipOne(sessions, live, 2);
        }
      }
    }
  }

  /** Side-by-side dead sessions lie behind a start without any. */
  lemma SkipOne<T>(sessions: seq<T>, live: T -> bool, n: nat)
    requires 1 <= n <= 2 && n <= |sessions|
    requires live(sessions[n - 1])
    ensures TwoDeadInARow(sessions, live) <==> TwoDeadInARow(sessions[n..], live)
  {
    if i :| 0 <= i < |sessions| - 1 && !live(sessions[i]) && !live(sessions[i + 1]) {
      assert i >= n;
      assert !live(sessions[n..][i - n]) && !live(sessions[n..][i - n + 1]);
    }
    if i :| 0 <= i < |sessions[n..]| - 1 && !live(sessions[n..][i]) && !live(sessions[n..][i + 1]) {
      assert !live(sessions[i + n]) && !live(sessions[i + n + 1]);
    }
  }

  function Passes<T>(sessions: seq<T>, live: T -> bool, k: nat): seq<T>
    decreases k
  {
    if k == 0 then sessions else Passes(Kept(sessions, live), live, k - 1)
  }

  function Power2(k: nat): (p: nat)
    ensures p >= 1
  {
    if k == 0 then 1 else 2 * Power2(k - 1)
  }

  /** With fixed liveness, k passes leave at most a 2^k-th part of the dead, and every live session. */
  lemma {:induction false} ManyPasses<T>(sessions: seq<T>, live: T -> bool, k: nat)
    ensures LiveOnes(Passes(sessions, live, k), live) == LiveOnes(sessions, live)
    ensures Power2(k) * Dead(Passes(sessions, live, k), live) <= Dead(sessions, live)
    decreases k
  {
    if k > 0 {
      OnePass(sessions, live);
      ManyPasses(Kept(sessions, live), live, k - 1);
      Doubled(Power2(k - 1), Dead(Passes(sessions, live, k), live));
    }
  }

  lemma Doubled(p: nat, n: nat)
    ensures (2 * p) * n == 2 * (p * n)
  {
  }
}
