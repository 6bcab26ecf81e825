/** The resolver file of the Linux host: written line by line, and parsed back. */
module ResolvConf {
  import opened QtText

  const PREFIX: string := "nameserver "

  predicate Kept(c: char) {
    c == '\n' || c == '\t' || c == ' ' || c == '.' || '0' <= c <= '9'
  }

  function Filtered(s: string): (t: string)
    ensures forall i :: 0 <= i < |t| ==> Kept(t[i])
    ensures |t| <= |s|
  {
    if s == [] then []
    else Filtered(s[..|s| - 1]) + if Kept(s[|s| - 1]) then [s[|s| - 1]] else []
  }

  /** What one line of text adds to the list of addresses. */
  function ParsedLine(raw: string): seq<string> {
    var line := Trimmed(Simplified(raw));
    if line != [] && line[0] != '#' && line[0] != ';' && IndexOfChar(line, '.') > 0
    then [Trimmed(Filtered(line))]
    else []
  }

  /** Which lines hold an address: those that are not blank, whose first character that is no white space is
      neither '#' nor ';' nor a dot, and that have a dot. */
  lemma AddressLineIff(raw: string)
    ensures ParsedLine(raw) != [] <==>
            '.' in raw && exists i :: FirstInk(raw, i) && raw[i] != '#' && raw[i] != ';' && raw[i] != '.'
    ensures |ParsedLine(raw)| <= 1
  {
    var line := Trimmed(Simplified(raw));
    InSimplified(raw, '.');
    if '.' in raw {
      var i := InkOf(raw);
      SimplifiedFront(raw, i);
      forall k | FirstInk(raw, k) ensures k == i {
      }
      var d := IndexOfChar(line, '.');
      assert d >= 0 && (d == 0 <==> line[0] == '.');
    }
  }

  lemma {:induction false} InkOf(s: string) returns (i: nat)
    requires '.' in s
    ensures FirstInk(s, i)
  {
    if !IsSpace(s[0]) {
      i := 0;
    } else {
      i := InkOf(s[1..]);
      assert s[i + 1] == s[1..][i] && forall j :: 1 <= j < i + 1 ==> s[j] == s[1..][j - 1];
      i := i + 1;
    }
  }

  function ParsedLines(lines: seq<string>): seq<string> {
    if lines == [] then [] else ParsedLines(lines[..|lines| - 1]) + ParsedLine(lines[|lines| - 1])
  }

  function Parsed(text: string): seq<string> {
    ParsedLines(SplitLines(text))
  }

  /** The inner loop: the characters an address is made of. */
  method KeepAddress(line: string) returns (temp: string)
    ensures temp == Filtered(line)
  {
    temp := [];
    for x := 0 to |line|
      invariant temp == Filtered(line[..x])
    {
      assert line[..x + 1][..x] == line[..x];
      var ch := line[x];
      if ch == '\n' || ch == '\t' || ch == ' ' || ch == '.' || '0' <= ch <= '9' {
        temp := temp + [ch];
      }
    }
    assert line[..|line|] == line;
  }

  method ParseIPV4Strings(input: string) returns (result: seq<string>)
    ensures result == Parsed(input)
  {
    result := [];
    var lines := SplitLines(input);
    for y := 0 to |lines|
      invariant result == ParsedLines(lines[..y])
    {
      assert lines[..y + 1][..y] == lines[..y];
      var line := Trimmed(Simplified(lines[y]));
      if line != [] && line[0] != '#' && line[0] != ';' && IndexOfChar(line, '.') > 0 {
        var temp := KeepAddress(line);
        result := result + [Trimmed(temp)];
      }
    }
    assert lines[..|lines|] == lines;
  }

  function Prefixed(hosts: seq<string>): (lines: seq<string>)
    ensures |lines| == |hosts|
    ensures forall i :: 0 <= i < |hosts| ==> lines[i] == PREFIX + hosts[i]
  {
    seq(|hosts|, i requires 0 <= i < |hosts| => PREFIX + hosts[i])
  }

  /** The text of the file for a list of host addresses. */
  function Rendered(hosts: seq<string>): string {
    Terminated(Prefixed(hosts))
  }

  class LinuxSystem {
    var resolvers: seq<string>
    var conf: string             // the resolver file

    constructor (conf: string)
      ensures resolvers == [] && this.conf == conf
    {
      this.resolvers, this.conf := [], conf;
    }

    method BeginUpdateResolvers() returns (ok: bool)
      modifies this`resolvers
      ensures ok && resolvers == []
    {
      resolvers := [];
      ok := true;
    }

    method UpdateResolver(host: string) returns (ok: bool)
      modifies this`resolvers
      ensures ok && resolvers == old(resolvers) + [host]
    {
      resolvers := resolvers + [host];
      ok := true;
    }

    /** Nothing is written for an empty list; `openOk` says whether the file can be opened. */
    method EndUpdateResolvers(openOk: bool) returns (ok: bool)
      modifies this
      ensures ok == (old(resolvers) == [] || openOk)
      ensures old(resolvers) != [] && openOk ==> conf == Rendered(old(resolvers))
      ensures old(resolvers) == [] || !openOk ==> conf == old(conf)
    {
      if |resolvers| > 0 {
        if openOk {
          var y := 0;
          while y < |resolvers|
            invariant 0 <= y <= |resolvers| == |old(resolvers)|
            invariant resolvers == Prefixed(old(resolvers))[..y] + old(resolvers)[y..]
          {
            resolvers := resolvers[y := PREFIX + resolvers[y]];
            y := y + 1;
          }
          assert resolvers == Prefixed(old(resolvers));
          JoinTerminates(resolvers);
          conf := JoinLines(resolvers) + ['\n'];
        } else {
          return false;
        }
      }
      return true;
    }

    method GetSystemResolverList(openOk: bool) returns (list: seq<string>)
      ensures openOk ==> list == Parsed(conf)
      ensures !openOk ==> list == ["Could not obtain system resolver list."]
    {
      if openOk {
        list := ParseIPV4Strings(conf);
      } else {
        list := ["Could not obtain system resolver list."];
      }
    }
  }

  // ---------------------------------------------------------------- print and parse

  /** Digits and dots only, with at least one dot: what dotted IPv4 text is made of. */
  predicate DotsAndDigits(host: string) {
    '.' in host && forall i :: 0 <= i < |host| ==> host[i] == '.' || '0' <= host[i] <= '9'
  }

  lemma {:induction false} FilteredConcat(a: string, b: string)
    ensures Filtered(a + b) == Filtered(a) + Filtered(b)
    decreases |b|
  {
    if b == [] {
      assert a + b == a;
    } else {
      var n := |b| - 1;
      FilteredConcat(a, b[..n]);
      assert (a + b)[..|a + b| - 1] == a + b[..n];
    }
  }

  lemma {:induction false} FilteredSameIff(s: string)
    ensures Filtered(s) == s <==> forall i :: 0 <= i < |s| ==> Kept(s[i])
  {
    if s != [] {
      var n := |s| - 1;
      FilteredSameIff(s[..n]);
      assert s == s[..n] + [s[n]];
    }
  }

  lemma {:induction false} FilteredNoSpace(s: string)
    requires NoSpace(s)
    ensures NoSpace(Filtered(s))
  {
    if s != [] {
      FilteredNoSpace(s[..|s| - 1]);
    }
  }

  lemma PrefixFiltered()
    ensures Filtered(PREFIX) == " "
  {
    assert PREFIX == "nameserver" + " ";
    FilteredConcat("nameserver", " ");
    FilteredNone("nameserver");
    assert Filtered(" ") == " ";
  }

  lemma {:induction false} FilteredNone(s: string)
    requires forall i :: 0 <= i < |s| ==> !Kept(s[i])
    ensures Filtered(s) == []
  {
    if s != [] {
      FilteredNone(s[..|s| - 1]);
    }
  }

  /** A prefixed host comes through the white space clean-up unchanged. */
  lemma LineSame(host: string)
    requires NoSpace(host) && host != []
    ensures Trimmed(Simplified(PREFIX + host)) == PREFIX + host
  {
    var line := PREFIX + host;
    assert forall i :: 0 <= i < |PREFIX| ==> line[i] == PREFIX[i];
    assert forall i :: |PREFIX| <= i < |line| ==> line[i] == host[i - |PREFIX|];
    CollapsedSame(line);
  }

  lemma LineEmpty()
    ensures Trimmed(Simplified(PREFIX)) == "nameserver"
  {
    assert forall i :: 0 <= i < |PREFIX| && IsSpace(PREFIX[i]) ==> i == 10;
    CollapsedSame(PREFIX);
    assert PREFIX[..|PREFIX| - 1] == "nameserver";
    assert TrimmedLeft(PREFIX) == PREFIX;
    assert TrimmedRight(PREFIX) == "nameserver";
  }

  lemma BlankTrimmed(s: string)
    requires NoSpace(s) && s != []
    ensures Trimmed(" " + s) == s
  {
    assert (" " + s)[1..] == s && TrimmedLeft(s) == s;
  }

  lemma DottedLine(host: string)
    requires NoSpace(host) && '.' in host
    ensures Trimmed(Filtered(PREFIX + host)) == Filtered(host)
    ensures IndexOfChar(PREFIX + host, '.') > 0
  {
    var line := PREFIX + host;
    assert line[0] == 'n';
    var i :| 0 <= i < |host| && host[i] == '.';
    assert line[|PREFIX| + i] == '.';
    FilteredConcat(PREFIX, host);
    PrefixFiltered();
    FilteredNoSpace(host);
    DotKept(host, i);
    BlankTrimmed(Filtered(host));
  }

  lemma UndottedLine(host: string)
    requires '.' !in host
    ensures IndexOfChar(PREFIX + host, '.') == -1
  {
    var line := PREFIX + host;
    forall i | 0 <= i < |line| ensures line[i] != '.' {
      assert line[i] == if i < |PREFIX| then PREFIX[i] else host[i - |PREFIX|];
    }
  }

  lemma CleanLine(raw: string, line: string)
    requires Trimmed(Simplified(raw)) == line && line != [] && line[0] == 'n'
    ensures ParsedLine(raw) == if IndexOfChar(line, '.') > 0 then [Trimmed(Filtered(line))] else []
  {
  }

  lemma ParsedNothing()
    ensures ParsedLine(PREFIX) == []
  {
    LineEmpty();
    NoAddress(PREFIX, "nameserver");
  }

  lemma NoAddress(raw: string, line: string)
    requires Trimmed(Simplified(raw)) == line && line != [] && line[0] == 'n' && '.' !in line
    ensures ParsedLine(raw) == []
  {
    CleanLine(raw, line);
  }

  lemma ParsedHost(host: string)
    requires NoSpace(host)
    ensures ParsedLine(PREFIX + host) == if '.' in host then [Filtered(host)] else []
  {
    var line := PREFIX + host;
    if host == [] {
      assert line == PREFIX;
      ParsedNothing();
    } else {
      LineSame(host);
      assert line[0] == 'n';
      CleanLine(line, line);
      if '.' in host {
        DottedLine(host);
      } else {
        UndottedLine(host);
      }
    }
  }

  lemma {:induction false} DotKept(s: string, i: nat)
    requires i < |s| && s[i] == '.'
    ensures Filtered(s) != []
  {
    if i < |s| - 1 {
      DotKept(s[..|s| - 1], i);
    }
  }

  /** What is read back for a list of hosts. */
  function ReadBack(hosts: seq<string>): (list: seq<string>)
    ensures |list| <= |hosts|
  {
    if hosts == [] then []
    else
      var last := hosts[|hosts| - 1];
      ReadBack(hosts[..|hosts| - 1]) + if '.' in last then [Filtered(last)] else []
  }

  lemma {:induction false} ParsedPrefixed(hosts: seq<string>)
    requires forall h :: h in hosts ==> NoSpace(h)
    ensures ParsedLines(Prefixed(hosts)) == ReadBack(hosts)
  {
    if hosts != [] {
      var n := |hosts| - 1;
      ParsedPrefixed(hosts[..n]);
      assert Prefixed(hosts)[..n] == Prefixed(hosts[..n]);
      assert hosts[n] in hosts;
      ParsedHost(hosts[n]);
    }
  }

  lemma {:induction false} ReadBackSameIff(hosts: seq<string>)
    requires forall h :: h in hosts ==> NoSpace(h)
    ensures ReadBack(hosts) == hosts <==> forall h :: h in hosts ==> DotsAndDigits(h)
  {
    if hosts != [] {
      var n := |hosts| - 1;
      var front, last := hosts[..n], hosts[n];
      assert hosts == front + [last] && last in hosts;
      ReadBackSameIff(front);
      LastReadBack(front, last, ReadBack(front));
      assert forall h :: h in hosts <==> h in front || h == last;
    }
  }

  lemma LastReadBack(front: seq<string>, last: string, read: seq<string>)
    requires NoSpace(last) && |read| <= |front|
    ensures (read + if '.' in last then [Filtered(last)] else []) == front + [last]
            <==> read == front && DotsAndDigits(last)
  {
    FilteredSameIff(last);
    var all := read + if '.' in last then [Filtered(last)] else [];
    if all == front + [last] {
      assert |all| == |front| + 1;
      assert all[..|front|] == read && all[|front|] == last;
    }
  }

  /** Print and parse agree: the addresses read back from the file written for a list of hosts are
      those hosts, in order, if and only if every host is dotted IPv4 text. */
  lemma ParseInvertsRenderIff(hosts: seq<string>)
    requires forall h :: h in hosts ==> NoSpace(h)
    ensures Parsed(Rendered(hosts)) == hosts <==> forall h :: h in hosts ==> DotsAndDigits(h)
  {
    var lines := Prefixed(hosts);
    forall i | 0 <= i < |lines| ensures '\n' !in lines[i] {
      assert hosts[i] in hosts;
    }
    SplitTerminated(lines);
    assert (lines + [""])[..|lines|] == lines;
    assert ParsedLine("") == [];
    ParsedPrefixed(hosts);
    ReadBackSameIff(hosts);
  }
}
