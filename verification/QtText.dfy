/** The string functions of Qt the program relies on, for characters of the Latin-1 range. */
module QtText {

  predicate IsSpace(c: char) {
    c == ' ' || c == '\t' || c == '\n' || c == '\r' || c as int in {0x0B, 0x0C, 0x85, 0xA0}
  }

  lemma SpaceIff(c: char)
    ensures IsSpace(c) <==> 9 <= c as int <= 13 || c as int in {32, 133, 160}
  {
  }

  predicate NoSpace(s: string) {
    forall i :: 0 <= i < |s| ==> !IsSpace(s[i])
  }

  function TrimmedRight(s: string): (t: string)
    ensures t <= s
    ensures t != [] ==> !IsSpace(t[|t| - 1])
  {
    if s == [] || !IsSpace(s[|s| - 1]) then s else TrimmedRight(s[..|s| - 1])
  }

  function TrimmedLeft(s: string): (t: string)
    ensures t != [] ==> !IsSpace(t[0])
  {
    if s == [] || !IsSpace(s[0]) then s else TrimmedLeft(s[1..])
  }

  function Trimmed(s: string): string {
    TrimmedRight(TrimmedLeft(s))
  }

  /** Runs of white space become one blank. */
  function Collapsed(s: string): string {
    if s == [] then []
    else
      var front, c := Collapsed(s[..|s| - 1]), s[|s| - 1];
      if !IsSpace(c) then front + [c]
      else if front != [] && front[|front| - 1] == ' ' then front
      else front + [' ']
  }

  function Simplified(s: string): string {
    Trimmed(Collapsed(s))
  }

  function IndexOfChar(s: string, c: char, from: nat := 0): (i: int)
    requires from <= |s|
    ensures -1 <= i < |s|
    ensures i == -1 ==> forall j :: from <= j < |s| ==> s[j] != c
    ensures i >= 0 ==> from <= i && s[i] == c && forall j :: from <= j < i ==> s[j] != c
    decreases |s| - from
  {
    if from == |s| then -1 else if s[from] == c then from else IndexOfChar(s, c, from + 1)
  }

  /** `split('\n')`: always at least one piece. */
  function SplitLines(s: string): (lines: seq<string>)
    ensures |lines| >= 1
    decreases |s|
  {
    var i := IndexOfChar(s, '\n');
    if i < 0 then [s] else [s[..i]] + SplitLines(s[i + 1..])
  }

  /** Each line followed by a line feed. */
  function Terminated(lines: seq<string>): string {
    if lines == [] then [] else lines[0] + ['\n'] + Terminated(lines[1..])
  }

  /** `join('\n')`. */
  function JoinLines(lines: seq<string>): string {
    if lines == [] then []
    else if |lines| == 1 then lines[0]
    else lines[0] + ['\n'] + JoinLines(lines[1..])
  }

  lemma {:induction false} JoinTerminates(lines: seq<string>)
    requires lines != []
    ensures JoinLines(lines) + ['\n'] == Terminated(lines)
  {
    if |lines| == 1 {
      assert Terminated(lines[1..]) == [];
    } else {
      JoinTerminates(lines[1..]);
      assert JoinLines(lines) + ['\n'] == lines[0] + ['\n'] + (JoinLines(lines[1..]) + ['\n']);
    }
  }

  lemma IndexBehind(line: string, c: char, rest: string)
    requires c !in line
    ensures IndexOfChar(line + [c] + rest, c) == |line|
  {
    var s := line + [c] + rest;
    assert s[|line|] == c;
    forall j | 0 <= j < |line| ensures s[j] != c {
      assert s[j] == line[j];
    }
  }

  lemma SplitAt(s: string, line: string, rest: string)
    requires IndexOfChar(s, '\n') == |line| && s[..|line|] == line && s[|line| + 1..] == rest
    ensures SplitLines(s) == [line] + SplitLines(rest)
  {
  }

  lemma SplitFirst(line: string, rest: string)
    requires '\n' !in line
    ensures SplitLines(line + ['\n'] + rest) == [line] + SplitLines(rest)
  {
    IndexBehind(line, '\n', rest);
    SplitAt(line + ['\n'] + rest, line, rest);
  }

  lemma TerminatedCons(first: string, rest: seq<string>)
    ensures Terminated([first] + rest) == first + ['\n'] + Terminated(rest)
  {
    assert ([first] + rest)[1..] == rest;
  }

  lemma {:induction false} SplitTerminated(lines: seq<string>)
    requires forall i :: 0 <= i < |lines| ==> '\n' !in lines[i]
    ensures SplitLines(Terminated(lines)) == lines + [""]
  {
    if lines != [] {
      var first, rest := lines[0], lines[1..];
      SplitTerminated(rest);
      SplitFirst(first, Terminated(rest));
      TerminatedCons(first, rest);
      assert lines == [first] + rest;
      assert [first] + (rest + [""]) == lines + [""];
    }
  }

  lemma {:induction false} CollapsedSame(s: string)
    requires forall i :: 0 <= i < |s| && IsSpace(s[i]) ==> s[i] == ' ' && i > 0 && s[i - 1] != ' '
    ensures Collapsed(s) == s
  {
    if s != [] {
      var front, c := s[..|s| - 1], s[|s| - 1];
      forall i | 0 <= i < |front| && IsSpace(front[i]) ensures front[i] == ' ' && i > 0 && front[i - 1] != ' ' {
        assert front[i] == s[i] && (i > 0 ==> front[i - 1] == s[i - 1]);
      }
      CollapsedSame(front);
      assert s == front + [c];
    }
  }

  /** The first character of a text that is no white space is at `i`. */
  predicate FirstInk(s: string, i: int) {
    0 <= i < |s| && !IsSpace(s[i]) && forall j :: 0 <= j < i ==> IsSpace(s[j])
  }

  lemma {:induction false} BlankCollapsed(s: string)
    requires forall j :: 0 <= j < |s| ==> IsSpace(s[j])
    ensures Collapsed(s) == if s == [] then [] else " "
  {
    if s != [] {
      BlankCollapsed(s[..|s| - 1]);
    }
  }

  lemma {:induction false} TrimmedLeftKeeps(a: string, b: string)
    requires TrimmedLeft(a) != []
    ensures TrimmedLeft(a + b) == TrimmedLeft(a) + b
  {
    if IsSpace(a[0]) {
      assert (a + b)[1..] == a[1..] + b;
      TrimmedLeftKeeps(a[1..], b);
    }
  }

  lemma {:induction false} TrimmedRightFront(s: string)
    requires s != [] && !IsSpace(s[0])
    ensures TrimmedRight(s) != [] && TrimmedRight(s)[0] == s[0]
  {
    if IsSpace(s[|s| - 1]) {
      TrimmedRightFront(s[..|s| - 1]);
    }
  }

  lemma {:induction false} CollapsedFront(s: string, i: nat)
    requires FirstInk(s, i)
    ensures TrimmedLeft(Collapsed(s)) != [] && TrimmedLeft(Collapsed(s))[0] == s[i]
  {
    var n := |s| - 1;
    var front, c := s[..n], s[n];
    if i == n {
      BlankCollapsed(front);
      assert Collapsed(s) == Collapsed(front) + [c];
      assert (" " + [c])[1..] == [c] && [] + [c] == [c];
    } else {
      CollapsedFront(front, i);
      if Collapsed(s) != Collapsed(front) {
        TrimmedLeftKeeps(Collapsed(front), [if IsSpace(c) then ' ' else c]);
      }
    }
  }

  /** The clean-up of a line, which is trimmed twice over, starts with the first character that is no white
      space. */
  lemma SimplifiedFront(s: string, i: nat)
    requires FirstInk(s, i)
    ensures Trimmed(Simplified(s)) != [] && Trimmed(Simplified(s))[0] == s[i]
  {
    CollapsedFront(s, i);
    TrimmedRightFront(TrimmedLeft(Collapsed(s)));
    var t := Simplified(s);
    assert TrimmedLeft(t) == t;
    TrimmedRightFront(t);
  }

  lemma {:induction false} InTrimmedRight(s: string, c: char)
    requires !IsSpace(c)
    ensures c in TrimmedRight(s) <==> c in s
  {
    if s != [] && IsSpace(s[|s| - 1]) {
      InTrimmedRight(s[..|s| - 1], c);
      assert s == s[..|s| - 1] + [s[|s| - 1]];
    }
  }

  lemma {:induction false} InTrimmedLeft(s: string, c: char)
    requires !IsSpace(c)
    ensures c in TrimmedLeft(s) <==> c in s
  {
    if s != [] && IsSpace(s[0]) {
      InTrimmedLeft(s[1..], c);
      assert s == [s[0]] + s[1..];
    }
  }

  lemma {:induction false} InCollapsed(s: string, c: char)
    requires !IsSpace(c)
    ensures c in Collapsed(s) <==> c in s
  {
    if s != [] {
      InCollapsed(s[..|s| - 1], c);
      assert s == s[..|s| - 1] + [s[|s| - 1]];
    }
  }

  /** And it loses nothing but white space. */
  lemma InSimplified(s: string, c: char)
    requires !IsSpace(c)
    ensures c in Trimmed(Simplified(s)) <==> c in s
  {
    InCollapsed(s, c);
    InTrimmedLeft(Collapsed(s), c);
    InTrimmedRight(TrimmedLeft(Collapsed(s)), c);
    InTrimmedLeft(Simplified(s), c);
    InTrimmedRight(TrimmedLeft(Simplified(s)), c);
  }
}
