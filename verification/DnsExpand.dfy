/** Expansion of a possibly compressed name into dotted text: `fetch`. */
module DnsExpand {
  import opened Sequences
  import opened Wrappers
  import opened Octets
  import opened DomainNames

  /** The loop's state: where it reads, whether a label precedes (n > 0), and how much of the
      destination is left (dstlen - i). */
  datatype Cursor = Cursor(s: nat, sep: bool, room: nat)

  function Dot(c: Cursor): (d: seq<Byte>)
    ensures |d| == if c.sep then 1 else 0
  {
    if c.sep then [DOT] else []
  }

  predicate Done(m: Memory, c: Cursor) {
    m.At(c.s) == 0 || c.s >= |m.pkt|
  }

  /** The bytes written before the final zero byte, if the loop ends within `k` rounds. */
  function Text(m: Memory, c: Cursor, k: nat): (r: Option<seq<Byte>>)
    ensures r.Some? ==> |r.value| <= c.room + 1
    decreases k
  {
    if Done(m, c) then Some([])
    else if c.room <= |Dot(c)| then Some(Dot(c))
    else if k == 0 then None
    else
      var (bytes, next) := Round(m, c);
      match Text(m, next, k - 1)
      case None => None
      case Some(rest) => Some(bytes + rest)
  }

  /** One full round: the dot, then either a jump or as much of a label as fits. */
  function Round(m: Memory, c: Cursor): (r: (seq<Byte>, Cursor))
    requires !Done(m, c) && c.room > |Dot(c)|
    ensures |r.0| + r.1.room == c.room
  {
    var room := c.room - |Dot(c)|;
    if m.At(c.s) == COMPRESSION then
      (Dot(c), Cursor(m.At(c.s + 1), false, room))
    else
      var n := Min(m.At(c.s), room);
      (Dot(c) + m.Bytes(c.s + 1, n), Cursor(c.s + 1 + n, true, room - n))
  }

  lemma {:induction false} TextStable(m: Memory, c: Cursor, k: nat, k': nat)
    requires Text(m, c, k).Some? && k <= k'
    ensures Text(m, c, k') == Text(m, c, k)
    decreases k
  {
    if !Done(m, c) && c.room > |Dot(c)| {
      TextStable(m, Round(m, c).1, k - 1, k' - 1);
    }
  }

  lemma TextUnique(m: Memory, c: Cursor, k: nat, k': nat)
    requires Text(m, c, k).Some? && Text(m, c, k').Some?
    ensures Text(m, c, k') == Text(m, c, k)
  {
    TextStable(m, c, Min(k, k'), k);
    TextStable(m, c, Min(k, k'), k');
  }

  // ---------------------------------------------------------------- the loop itself

  lemma TextRound(m: Memory, c: Cursor, k: nat)
    requires Text(m, c, k).Some? && !Done(m, c) && c.room > |Dot(c)|
    ensures k > 0 && Text(m, Round(m, c).1, k - 1).Some?
    ensures Text(m, c, k).value == Round(m, c).0 + Text(m, Round(m, c).1, k - 1).value
  {
  }

  /** The loop at `c`, having written `sent`, ends with `full`. */
  ghost predicate Owed(m: Memory, c: Cursor, k: nat, sent: seq<Byte>, full: seq<Byte>) {
    Text(m, c, k).Some? && full == sent + Text(m, c, k).value
  }

  lemma OwedRound(m: Memory, c: Cursor, k: nat, sent: seq<Byte>, full: seq<Byte>)
    requires Owed(m, c, k, sent, full) && !Done(m, c)
    ensures c.room > |Dot(c)| ==> k > 0 && Owed(m, Round(m, c).1, k - 1, sent + Round(m, c).0, full)
    ensures c.room <= |Dot(c)| ==> full == sent + Dot(c)
    ensures |full| >= |sent| + |Dot(c)|
  {
    if c.room > |Dot(c)| {
      TextRound(m, c, k);
      assert sent + Round(m, c).0 + Text(m, Round(m, c).1, k - 1).value
          == sent + (Round(m, c).0 + Text(m, Round(m, c).1, k - 1).value);
    }
  }

  lemma OwedNothing(m: Memory, c: Cursor, k: nat, sent: seq<Byte>, full: seq<Byte>)
    requires Owed(m, c, k, sent, full) && Done(m, c)
    ensures full == sent
  {
    assert sent + [] == sent;
  }

  /** Writes the dot that separates a label from the one before it. */
  method PutDot(c: Cursor, dst: array<Byte>, i: nat) returns (i': nat)
    requires i < dst.Length
    modifies dst
    ensures i' == i + |Dot(c)|
    ensures dst[..i'] == old(dst[..i]) + Dot(c)
    ensures dst[i'..] == old(dst[i'..])
  {
    i' := i;
    if c.sep {
      dst[i'] := DOT;
      i' := i' + 1;
    }
  }

  /** The inner copy loop: at most `n` bytes, at most to the end of the destination. */
  method CopyLabel(m: Memory, s: nat, n: nat, dst: array<Byte>, i: nat, dstlen: nat) returns (s': nat, i': nat)
    requires i <= dstlen < dst.Length
    modifies dst
    ensures s' == s + Min(n, dstlen - i) && i' == i + Min(n, dstlen - i)
    ensures dst[..i'] == old(dst[..i]) + m.Bytes(s, Min(n, dstlen - i))
    ensures dst[i'..] == old(dst[i'..])
  {
    s', i' := s, i;
    var j := 0;
    while j < n && i' < dstlen
      invariant 0 <= j <= n && i' == i + j <= dstlen && s' == s + j
      invariant dst[..i'] == old(dst[..i]) + m.Bytes(s, j)
      invariant dst[i'..] == old(dst[i'..])
    {
      dst[i'] := m.At(s');
      i', s', j := i' + 1, s' + 1, j + 1;
    }
  }

  /** The body of the outer loop; `stop` is its `break`. */
  method FetchRound(m: Memory, c: Cursor, dst: array<Byte>, i: nat, dstlen: nat)
    returns (stop: bool, s: nat, n: nat, i': nat)
    requires !Done(m, c) && i + c.room == dstlen && dst.Length > dstlen && dst.Length > i + |Dot(c)|
    modifies dst
    ensures stop == (c.room <= |Dot(c)|)
    ensures stop ==> i' == i + |Dot(c)| && dst[..i'] == old(dst[..i]) + Dot(c)
    ensures !stop ==> i' <= dstlen && dst[..i'] == old(dst[..i]) + Round(m, c).0
                      && Cursor(s, n > 0, dstlen - i') == Round(m, c).1
    ensures dst[i'..] == old(dst[i'..])
  {
    ghost var sent := dst[..i];
    s, n := c.s, 0;
    i' := PutDot(c, dst, i);
    assert dst[..i'] == sent + Dot(c);
    ghost var at, rest := i', dst[i'..];
    stop := i' >= dstlen;
    if !stop {
      n := m.At(s);
      s := s + 1;
      if n == COMPRESSION {
        s := m.At(s);
        n := 0;
      } else {
        s, i' := CopyLabel(m, s, n, dst, i', dstlen);
        Assoc(sent, Dot(c), m.Bytes(c.s + 1, Min(n, c.room - |Dot(c)|)));
        assert dst[i'..] == rest[i' - at..];
      }
    }
  }

  /** The same round, seen from the whole text: `full` is what is written in the end. */
  method FetchStep(m: Memory, c: Cursor, dst: array<Byte>, i: nat, dstlen: nat, ghost k: nat, ghost full: seq<Byte>)
    returns (stop: bool, s: nat, n: nat, i': nat, ghost k': nat)
    requires !Done(m, c) && i + c.room == dstlen && i < dst.Length
    requires dstlen < dst.Length && |full| < dst.Length && Owed(m, c, k, dst[..i], full)
    modifies dst
    ensures i <= i' < dst.Length && dst[i'..] == old(dst[i'..])
    ensures stop ==> dst[..i'] == full && i' <= dstlen + 1
    ensures !stop ==> i' <= dstlen && k' < k && Owed(m, Cursor(s, n > 0, dstlen - i'), k', dst[..i'], full)
  {
    OwedRound(m, c, k, dst[..i], full);
    k' := if c.room > |Dot(c)| then k - 1 else k;
    stop, s, n, i' := FetchRound(m, c, dst, i, dstlen);
  }

  /** The loop over the destination buffer. `k` bounds its rounds and the text must leave a cell for
      the zero byte; the theorems below say when the loop ends and when the `dstlen + 1` cells that
      callers provide are enough. */
  method Fetch(m: Memory, start: nat, dst: array<Byte>, dstlen: nat, ghost k: nat) returns (i: nat)
    requires dst.Length > dstlen
    requires Text(m, Cursor(start, false, dstlen), k).Some?
    requires dst.Length > |Text(m, Cursor(start, false, dstlen), k).value|
    modifies dst
    ensures i <= dstlen + 1
    ensures dst[..i] == Text(m, Cursor(start, false, dstlen), k).value && dst[i] == 0
    ensures dst[i + 1..] == old(dst[i + 1..])
  {
    ghost var full := Text(m, Cursor(start, false, dstlen), k).value;
    ghost var left := k;
    var s: nat, n: nat := start, 0;
    i := 0;
    var stop := false;
    while !stop && m.At(s) != 0 && s < |m.pkt|
      invariant i <= dstlen + 1 && i < dst.Length && dst[i..] == old(dst[i..])
      invariant stop ==> dst[..i] == full
      invariant !stop ==> i <= dstlen && Owed(m, Cursor(s, n > 0, dstlen - i), left, dst[..i], full)
      decreases !stop, left
    {
      stop, s, n, i, left := FetchStep(m, Cursor(s, n > 0, dstlen - i), dst, i, dstlen, left, full);
    }
    if !stop {
      OwedNothing(m, Cursor(s, n > 0, dstlen - i), left, dst[..i], full);
    }
    dst[i] := 0;
  }

  // ---------------------------------------------------------------- meaning

  /** The text a decoded name expands to. A pointer straight to a zero byte leaves the dot that
      was already written in front of it. */
  function Dotted(d: Decoded): seq<Byte> {
    Join(d.labels) + if d.viaPointer && d.labels != [] then [DOT] else []
  }

  /** The same, read at a point where a label may precede. */
  function Tail(d: Decoded, sep: bool): seq<Byte> {
    if !sep then Dotted(d)
    else if d.labels == [] && !d.viaPointer then []
    else [DOT] + Dotted(d)
  }

  lemma DottedCons(first: Label, d: Decoded)
    ensures Dotted(Before(first, d)) == first + Tail(d, true)
  {
    assert ([first] + d.labels)[1..] == d.labels;
    Regroup(first, [DOT], Join(d.labels), if d.viaPointer then [DOT] else []);
  }

  lemma TailCons(first: Label, d: Decoded, sep: bool)
    ensures Tail(Before(first, d), sep) == (if sep then [DOT] else []) + first + Tail(d, true)
  {
    DottedCons(first, d);
    Regroup([], if sep then [DOT] else [], first, Tail(d, true));
  }

  lemma TailThroughPointer(target: nat, d: Decoded, sep: bool)
    ensures Tail(Through(target, d), sep) ==
              (if sep then [DOT] else []) + Dotted(d)
  {
  }

  /** Is `p` the offset of the first byte of a label in the dotted text of `labels`? */
  predicate StartsLabel(labels: seq<Label>, p: int) {
    labels != [] && (p == 0 || (p > |labels[0]| && StartsLabel(labels[1..], p - |labels[0]| - 1)))
  }

  /** What is written of `text` when `room` bytes are left: all of it, or what fits, and then one more
      dot unless the cut is before a label (`atLabel`) or a zero byte. */
  function Cut(text: seq<Byte>, room: nat, atLabel: bool): seq<Byte> {
    if |text| <= room then text
    else text[..room] + if atLabel || text[room] == 0 then [] else [DOT]
  }

  /** What the loop writes for a decoded name. */
  function Expansion(d: Decoded, sep: bool, room: nat): seq<Byte> {
    Cut(Tail(d, sep), room, StartsLabel(d.labels, if sep then room - 1 else room))
  }

  lemma CutBehind(front: seq<Byte>, text: seq<Byte>, room: nat, atLabel: bool)
    requires |front| <= room
    ensures Cut(front + text, room, atLabel) == front + Cut(text, room - |front|, atLabel)
  {
    if |front + text| > room {
      assert (front + text)[..room] == front + text[..room - |front|];
    }
  }

  lemma ExpansionLabel(c: Cursor, l: Label, d: Decoded)
    requires 1 <= |l| && |Dot(c)| + |l| <= c.room
    ensures Expansion(Before(l, d), c.sep, c.room)
            == Dot(c) + l + Expansion(d, true, AfterLabel(c, l).room)
  {
    var labels, p := [l] + d.labels, c.room - |Dot(c)|;
    assert labels[1..] == d.labels;
    assert StartsLabel(labels, p) == StartsLabel(d.labels, p - |l| - 1);
    TailCons(l, d, c.sep);
    CutBehind(Dot(c) + l, Tail(d, true), c.room, StartsLabel(labels, p));
  }

  lemma ExpansionPointer(c: Cursor, target: nat, d: Decoded)
    requires |Dot(c)| <= c.room
    ensures Expansion(Through(target, d), c.sep, c.room) == Dot(c) + Expansion(d, false, AfterPointer(c, target).room)
  {
    TailThroughPointer(target, d, c.sep);
    CutBehind(Dot(c), Dotted(d), c.room, StartsLabel(d.labels, c.room - |Dot(c)|));
  }

  lemma ExpansionCut(c: Cursor, l: Label, d: Decoded)
    requires |Dot(c)| < c.room < |Dot(c)| + |l|
    ensures var n := c.room - |Dot(c)|;
            Expansion(Before(l, d), c.sep, c.room)
            == Dot(c) + l[..n] + if l[n] == 0 then [] else [DOT]
  {
    var n := c.room - |Dot(c)|;
    TailCons(l, d, c.sep);
    assert !StartsLabel([l] + d.labels, n);
    var text := Dot(c) + l + Tail(d, true);
    assert text[..c.room] == Dot(c) + l[..n] && text[c.room] == l[n];
  }

  /** Where the loop stands behind a whole label, and behind a pointer. */
  function AfterLabel(c: Cursor, l: Label): Cursor
    requires |Dot(c)| + |l| <= c.room
  {
    Cursor(c.s + 1 + |l|, true, c.room - |Dot(c)| - |l|)
  }

  function AfterPointer(c: Cursor, target: nat): Cursor
    requires |Dot(c)| <= c.room
  {
    Cursor(target, false, c.room - |Dot(c)|)
  }

  lemma RoundMore(m: Memory, c: Cursor, k: nat)
    requires !Done(m, c) && c.room > |Dot(c)| && Text(m, Round(m, c).1, k).Some?
    ensures Text(m, c, k + 1) == Some(Round(m, c).0 + Text(m, Round(m, c).1, k).value)
  {
  }

  lemma WholeLabel(m: Memory, c: Cursor, l: Label)
    requires LabelAt(m.pkt, c.s, l) && |Dot(c)| + |l| <= c.room
    ensures !Done(m, c) && c.room > |Dot(c)|
    ensures Round(m, c) == (Dot(c) + l, AfterLabel(c, l))
  {
  }

  lemma TextLabel(m: Memory, c: Cursor, l: Label, k: nat)
    requires LabelAt(m.pkt, c.s, l) && |Dot(c)| + |l| <= c.room && Text(m, AfterLabel(c, l), k).Some?
    ensures Text(m, c, k + 1) == Some(Dot(c) + l + Text(m, AfterLabel(c, l), k).value)
  {
    WholeLabel(m, c, l);
    RoundMore(m, c, k);
  }

  lemma TextPointer(m: Memory, c: Cursor, target: nat, k: nat)
    requires c.s + 1 < |m.pkt| && m.pkt[c.s] == COMPRESSION && m.pkt[c.s + 1] == target && c.room > |Dot(c)|
    requires Text(m, AfterPointer(c, target), k).Some?
    ensures Text(m, c, k + 1) == Some(Dot(c) + Text(m, AfterPointer(c, target), k).value)
  {
    assert Round(m, c) == (Dot(c), AfterPointer(c, target));
    RoundMore(m, c, k);
  }

  /** A label that does not fit is cut; the byte behind the cut decides whether a dot follows. */
  lemma CutLabel(m: Memory, c: Cursor, l: Label)
    requires LabelAt(m.pkt, c.s, l) && |Dot(c)| < c.room < |Dot(c)| + |l|
    ensures var n := c.room - |Dot(c)|;
            Text(m, c, 1) == Some(Dot(c) + l[..n] + if l[n] == 0 then [] else [DOT])
  {
    var n := c.room - |Dot(c)|;
    var next := Cursor(c.s + 1 + n, true, 0);
    assert m.Bytes(c.s + 1, n) == l[..n];
    assert m.At(next.s) == m.pkt[c.s + 1..c.s + 1 + |l|][n];
    assert Round(m, c) == (Dot(c) + l[..n], next);
    assert Text(m, next, 0) == Some(if l[n] == 0 then [] else [DOT]);
    RoundMore(m, c, 0);
  }

  /** No room left: at most the dot is written. */
  lemma NoRoom(m: Memory, c: Cursor, d: Decoded)
    requires c.room <= |Dot(c)| && !Done(m, c)
    requires d.labels != [] || d.viaPointer
    requires forall l :: l in d.labels ==> |l| >= 1
    ensures Text(m, c, 0) == Some(Expansion(d, c.sep, c.room))
  {
    assert Text(m, c, 0) == Some(Dot(c));
    var text := Tail(d, c.sep);
    if d.labels == [] {
      assert text == Dot(c) && text[..0] + [DOT] == [DOT];
    } else {
      assert d.labels[0] in d.labels && |Join(d.labels)| >= |d.labels[0]|;
      assert |text| > c.room && text[..c.room] + Dot(c)[c.room..] == Dot(c);
      assert !StartsLabel(d.labels, -1) && StartsLabel(d.labels, 0);
    }
  }

  lemma {:induction false} PathLabels(pkt: seq<Byte>, s: nat, path: Path)
    requires Leads(pkt, s, path)
    ensures forall l :: l in NameOn(path).labels ==> |l| >= 1
    ensures pkt[s] != 0 ==> NameOn(path).labels != [] || NameOn(path).viaPointer
    decreases path
  {
    match path
    case End =>
    case Piece(l, next) => PathLabels(pkt, s + 1 + |l|, next);
    case Jump(target, next) => PathLabels(pkt, target, next);
  }

  /** The loop started at `c` ends within `k` rounds, having written the name. */
  ghost predicate Writes(m: Memory, c: Cursor, d: Decoded, k: nat) {
    Text(m, c, k) == Some(Expansion(d, c.sep, c.room))
  }

  lemma LabelWritten(m: Memory, c: Cursor, l: Label, d: Decoded, k: nat)
    requires LabelAt(m.pkt, c.s, l) && |Dot(c)| + |l| <= c.room && Writes(m, AfterLabel(c, l), d, k)
    ensures Writes(m, c, Before(l, d), k + 1)
  {
    TextLabel(m, c, l, k);
    ExpansionLabel(c, l, d);
  }

  lemma LabelCut(m: Memory, c: Cursor, l: Label, d: Decoded)
    requires LabelAt(m.pkt, c.s, l) && |Dot(c)| < c.room < |Dot(c)| + |l|
    ensures Writes(m, c, Before(l, d), 1)
  {
    CutLabel(m, c, l);
    ExpansionCut(c, l, d);
  }

  lemma PointerWritten(m: Memory, c: Cursor, target: nat, d: Decoded, k: nat)
    requires c.s + 1 < |m.pkt| && m.pkt[c.s] == COMPRESSION && m.pkt[c.s + 1] == target && c.room > |Dot(c)|
    requires Writes(m, AfterPointer(c, target), d, k)
    ensures Writes(m, c, Through(target, d), k + 1)
  {
    TextPointer(m, c, target, k);
    ExpansionPointer(c, target, d);
  }

  lemma NothingWritten(m: Memory, c: Cursor, path: Path)
    requires Leads(m.pkt, c.s, path) && (path.End? || c.room <= |Dot(c)|)
    ensures Writes(m, c, NameOn(path), 0)
  {
    if path.End? {
      assert Tail(NameOn(path), c.sep) == [];
    } else {
      PathLabels(m.pkt, c.s, path);
      NoRoom(m, c, NameOn(path));
    }
  }

  /** A pointer, or a label that fits. */
  predicate FirstFits(c: Cursor, path: Path) {
    !path.End? && c.room > |Dot(c)| && (path.Piece? ==> |Dot(c)| + |path.text| <= c.room)
  }

  function AfterFirst(c: Cursor, path: Path): Cursor
    requires FirstFits(c, path)
  {
    if path.Jump? then AfterPointer(c, path.target) else AfterLabel(c, path.text)
  }

  lemma FirstWritten(m: Memory, c: Cursor, path: Path, k: nat)
    requires Leads(m.pkt, c.s, path) && !NameOn(path).far && FirstFits(c, path)
    requires Writes(m, AfterFirst(c, path), NameOn(path.next), k)
    ensures Writes(m, c, NameOn(path), k + 1)
  {
    if path.Jump? {
      PointerWritten(m, c, path.target, NameOn(path.next), k);
    } else {
      LabelWritten(m, c, path.text, NameOn(path.next), k);
    }
  }

  lemma FirstLeads(m: Memory, c: Cursor, path: Path)
    requires Leads(m.pkt, c.s, path) && !NameOn(path).far && FirstFits(c, path)
    ensures Leads(m.pkt, AfterFirst(c, path).s, path.next) && !NameOn(path.next).far
  {
  }

  /** Along a path without far pointers the loop ends and writes the name met. */
  lemma {:induction false} ExpandPath(m: Memory, c: Cursor, path: Path) returns (k: nat)
    requires Leads(m.pkt, c.s, path) && !NameOn(path).far
    ensures Writes(m, c, NameOn(path), k)
    decreases path
  {
    if FirstFits(c, path) {
      FirstLeads(m, c, path);
      k := ExpandPath(m, AfterFirst(c, path), path.next);
      FirstWritten(m, c, path, k);
      k := k + 1;
    } else {
      k := LastWritten(m, c, path);
    }
  }

  lemma LastWritten(m: Memory, c: Cursor, path: Path) returns (k: nat)
    requires Leads(m.pkt, c.s, path) && !FirstFits(c, path)
    ensures Writes(m, c, NameOn(path), k)
  {
    if path.End? || c.room <= |Dot(c)| {
      NothingWritten(m, c, path);
      k := 0;
    } else {
      LabelCut(m, c, path.text, NameOn(path.next));
      k := 1;
    }
  }

  /** `fetch` is name decompression: when the name at `s` decompresses by section 4.1.4 of RFC 1035
      and its pointers stay below offset 256, the loop ends and writes the dotted name if that fits,
      and otherwise the part of it that does, cut as `Cut` says. */
  lemma ExpandDecoded(m: Memory, c: Cursor, budget: nat, d: Decoded) returns (k: nat)
    requires Decode(m.pkt, c.s, budget) == Some(d) && !d.far
    ensures Text(m, c, k) == Some(Expansion(d, c.sep, c.room))
  {
    var path := DecodedOnPath(m.pkt, c.s, budget);
    k := ExpandPath(m, c, path);
  }

  /** The same for a call of `fetch`. The text is the plain dotted name exactly when no dangling
      dot is left behind by a pointer to a zero byte. */
  lemma FetchDecompresses(m: Memory, start: nat, dstlen: nat, budget: nat, d: Decoded)
    requires Decode(m.pkt, start, budget) == Some(d) && !d.far
    ensures exists k: nat :: Text(m, Cursor(start, false, dstlen), k) == Some(Expansion(d, false, dstlen))
    ensures |Dotted(d)| <= dstlen ==> Expansion(d, false, dstlen) == Dotted(d)
    ensures Dotted(d) == Join(d.labels) <==> !(d.viaPointer && d.labels != [])
  {
    var k := ExpandDecoded(m, Cursor(start, false, dstlen), budget, d);
  }

  // ---------------------------------------------------------------- the end of the destination

  /** The dotted name is cut neither before a label nor before a zero byte. */
  predicate Overruns(d: Decoded, dstlen: nat) {
    |Dotted(d)| > dstlen && !StartsLabel(d.labels, dstlen) && Dotted(d)[dstlen] != 0
  }

  /** `fetch` stores a dot at `dst[dstlen]` and the zero byte behind it, one cell past the `dstlen + 1`
      its callers provide, if and only if the name is too long and the cut is not before a label or
      a zero byte. In every other case it stays inside. The name is any that is met on a path of labels of up
      to 255 bytes and pointers below 256, whether section 4.1.4 allows it or not. */
  lemma FetchOverrunsIff(m: Memory, start: nat, dstlen: nat, path: Path, k: nat)
    requires Leads(m.pkt, start, path) && !NameOn(path).far
    requires Text(m, Cursor(start, false, dstlen), k).Some?
    ensures |Text(m, Cursor(start, false, dstlen), k).value| == dstlen + 1 <==> Overruns(NameOn(path), dstlen)
    ensures |Text(m, Cursor(start, false, dstlen), k).value| <= dstlen <==> !Overruns(NameOn(path), dstlen)
  {
    var c := Cursor(start, false, dstlen);
    var k' := ExpandPath(m, c, path);
    TextUnique(m, c, k, k');
  }

  lemma {:induction false} PathLength(path: Path)
    ensures NameOn(path).labels != [] ==> |Join(NameOn(path).labels)| + 1 <= OctetsOn(path)
    decreases path
  {
    if !path.End? {
      PathLength(path.next);
    }
    if path.Piece? {
      assert NameOn(path).labels[1..] == NameOn(path.next).labels;
    }
  }

  /** A name within its `budget` of octets, 255 by section 3.1, never leaves a destination as long. */
  lemma ShortNamesStayInside(pkt: seq<Byte>, start: nat, dstlen: nat, budget: nat, d: Decoded)
    requires Decode(pkt, start, budget) == Some(d) && budget <= dstlen
    ensures |Dotted(d)| <= dstlen && !Overruns(d, dstlen)
  {
    var path := DecodedOnPath(pkt, start, budget);
    PathLength(path);
  }

  const LONG_LABEL: Label := seq(62, _ => 97)

  /** `n` times the same label. */
  function Repeated(l: Label, n: nat): (labels: seq<Label>)
    ensures |labels| == n && forall x :: x in labels ==> x == l
  {
    if n == 0 then [] else [l] + Repeated(l, n - 1)
  }

  lemma {:induction false} RepeatedText(n: nat, p: nat)
    requires n > 0
    ensures |Join(Repeated(LONG_LABEL, n))| == 63 * n - 1
    ensures p < 63 * n - 1 && p % 63 != 62 ==> Join(Repeated(LONG_LABEL, n))[p] == 97
    ensures p < 63 * n - 1 && p % 63 != 0 ==> !StartsLabel(Repeated(LONG_LABEL, n), p)
    decreases n
  {
    assert Repeated(LONG_LABEL, n)[1..] == Repeated(LONG_LABEL, n - 1);
    if n > 1 {
      RepeatedText(n - 1, if p >= 63 then p - 63 else 0);
    }
  }

  /** A packet whose name makes `fetch` leave the 1025 bytes of `processDatagram`. */
  lemma OverrunReached() returns (m: Memory, k: nat)
    ensures Text(m, Cursor(0, false, 1024), k).Some? && |Text(m, Cursor(0, false, 1024), k).value| == 1025
  {
    var labels := Repeated(LONG_LABEL, 17);
    var enc := EncodeLabels(labels);
    m := Memory(enc + [0], _ => 0);
    EncodedLength(labels);
    RepeatedText(17, 1024);
    assert m.pkt[0..0 + |enc|] == enc;
    var path := EncodedOnPath(m.pkt, 0, labels);
    k := ExpandPath(m, Cursor(0, false, 1024), path);
    FetchOverrunsIff(m, 0, 1024, path, k);
  }

  // ---------------------------------------------------------------- pointers from 256 on

  /** If the loop ends within `k` rounds, it writes at least 193 bytes. */
  ghost predicate WritesMuch(m: Memory, c: Cursor, k: nat) {
    Text(m, c, k).Some? ==> |Text(m, c, k).value| >= 193
  }

  lemma MuchFromHere(m: Memory, c: Cursor, k: nat)
    requires c.s < |m.pkt| && m.pkt[c.s] > COMPRESSION && c.room >= |Dot(c)| + 193
    ensures WritesMuch(m, c, k)
  {
    if Text(m, c, k).Some? {
      TextRound(m, c, k);
    }
  }

  lemma MuchAfterLabel(m: Memory, c: Cursor, l: Label, k: nat)
    requires LabelAt(m.pkt, c.s, l) && |Dot(c)| + |l| <= c.room
    requires k > 0 ==> WritesMuch(m, AfterLabel(c, l), k - 1)
    ensures WritesMuch(m, c, k)
  {
    if Text(m, c, k).Some? {
      WholeLabel(m, c, l);
      TextRound(m, c, k);
    }
  }

  lemma MuchAfterPointer(m: Memory, c: Cursor, target: nat, k: nat)
    requires c.s + 1 < |m.pkt| && m.pkt[c.s] == COMPRESSION && m.pkt[c.s + 1] == target && c.room > |Dot(c)|
    requires k > 0 ==> WritesMuch(m, AfterPointer(c, target), k - 1)
    ensures WritesMuch(m, c, k)
  {
    if Text(m, c, k).Some? {
      assert Round(m, c) == (Dot(c), AfterPointer(c, target));
      TextRound(m, c, k);
    }
  }

  /** A pointer from 256 on is read as a label of at least 193 bytes. */
  lemma {:induction false} FarPointerWrites(m: Memory, c: Cursor, path: Path, k: nat)
    requires Leads(m.pkt, c.s, path) && NameOn(path).far
    requires c.room >= OctetsOn(path) + |Dot(c)| + 193
    ensures WritesMuch(m, c, k)
    decreases path
  {
    if m.pkt[c.s] > COMPRESSION {
      MuchFromHere(m, c, k);
    } else if path.Jump? {
      if k > 0 {
        FarPointerWrites(m, AfterPointer(c, path.target), path.next, k - 1);
      }
      MuchAfterPointer(m, c, path.target, k);
    } else {
      if k > 0 {
        FarPointerWrites(m, AfterLabel(c, path.text), path.next, k - 1);
      }
      MuchAfterLabel(m, c, path.text, k);
    }
  }

  /** For names whose dotted text is shorter than 193 bytes, in a destination with that much to spare:
      `fetch` gives the dotted text if and only if no pointer leads to an offset of 256 or more. */
  lemma NearPointersIff(m: Memory, start: nat, dstlen: nat, budget: nat, d: Decoded)
    requires Decode(m.pkt, start, budget) == Some(d)
    requires |Dotted(d)| <= 192 && budget + 193 <= dstlen
    ensures (exists k: nat :: Text(m, Cursor(start, false, dstlen), k) == Some(Dotted(d))) <==> !d.far
  {
    var c := Cursor(start, false, dstlen);
    if d.far {
      forall k: nat ensures Text(m, c, k) != Some(Dotted(d)) {
        var path := DecodedOnPath(m.pkt, start, budget);
        FarPointerWrites(m, c, path, k);
      }
    } else {
      var k := ExpandDecoded(m, c, budget, d);
    }
  }

  /** A name that is a pointer to offset 256, where the label "a" stands, and is not expanded to it. */
  lemma FarPointerMisread() returns (m: Memory, d: Decoded)
    ensures Decode(m.pkt, 259, 255) == Some(d) && Dotted(d) == [97]
    ensures forall k: nat :: Text(m, Cursor(259, false, 1024), k) != Some(Dotted(d))
  {
    m := Memory(seq<Byte>(256, _ => 0) + [1, 97, 0, 0xC1, 0], _ => 0);
    assert m.pkt[257..258] == [97];
    DecodeLabel(m.pkt, 256, [97], 255);
    assert Decode(m.pkt, 256, 255) == Some(Decoded([[97]], false, false)) by { assert [[97]] + [] == [[97]]; }
    d := Decoded([[97]], true, false);
    assert U16(m.pkt[259] - 0xC0, m.pkt[260]) == 256;
    assert Decode(m.pkt, 259, 255) == Some(d);
    NearPointersIff(m, 259, 1024, 255, d);
  }

  // ---------------------------------------------------------------- termination

  predicate PointerAt(m: Memory, s: nat) {
    s < |m.pkt| && m.pkt[s] == COMPRESSION
  }

  /** Following pointers from `s` reaches something that is not a pointer within `f` hops. */
  predicate ChainEnds(m: Memory, s: nat, f: nat)
    decreases f
  {
    PointerAt(m, s) ==> f > 0 && ChainEnds(m, m.At(s + 1), f - 1)
  }

  predicate NoPointerLoop(m: Memory) {
    forall s :: 0 <= s < |m.pkt| ==> ChainEnds(m, s, |m.pkt|)
  }

  lemma {:induction false} ChainLonger(m: Memory, s: nat, f: nat)
    requires ChainEnds(m, s, f)
    ensures ChainEnds(m, s, f + 1)
    decreases f
  {
    if PointerAt(m, s) {
      ChainLonger(m, m.At(s + 1), f - 1);
    }
  }

  /** Without a pointer loop every expansion ends: each round either consumes destination space
      or follows one more pointer of a chain that ends. */
  lemma {:induction false} LoopFreeEnds(m: Memory, c: Cursor, f: nat) returns (k: nat)
    requires NoPointerLoop(m) && ChainEnds(m, c.s, f)
    ensures Text(m, c, k).Some?
    decreases c.room, f
  {
    k := 0;
    if !Done(m, c) && c.room > |Dot(c)| {
      var next := Round(m, c).1;
      if PointerAt(m, c.s) {
        k := LoopFreeEnds(m, next, f - 1);
      } else {
        k := LoopFreeEnds(m, next, |m.pkt|);
      }
      k := k + 1;
    }
  }

  function EndingWithin(m: Memory, f: nat): set<nat> {
    set s: nat | 0 <= s < |m.pkt| && ChainEnds(m, s, f)
  }

  lemma {:induction false} EndingGrows(m: Memory, f: nat)
    ensures EndingWithin(m, f + 1) == EndingWithin(m, f) || |EndingWithin(m, f)| >= f
    ensures EndingWithin(m, f) <= EndingWithin(m, f + 1)
  {
    forall s: nat | s in EndingWithin(m, f) ensures s in EndingWithin(m, f + 1) {
      ChainLonger(m, s, f);
    }
    if f > 0 {
      EndingGrows(m, f - 1);
      if EndingWithin(m, f) == EndingWithin(m, f - 1) {
        forall s: nat | s in EndingWithin(m, f + 1) ensures s in EndingWithin(m, f) {
          SameStep(m, s, f - 1);
        }
      } else {
        SmallerSet(EndingWithin(m, f - 1), EndingWithin(m, f));
      }
    }
  }

  lemma SmallerSet(a: set<nat>, b: set<nat>)
    requires a <= b && a != b
    ensures |a| < |b|
  {
    assert b == a + (b - a) && b - a != {};
  }

  /** Once a hop adds nothing, no further hop does. */
  lemma SameStep(m: Memory, s: nat, f: nat)
    requires EndingWithin(m, f + 1) == EndingWithin(m, f)
    requires s < |m.pkt| && ChainEnds(m, s, f + 2)
    ensures ChainEnds(m, s, f + 1)
  {
    if PointerAt(m, s) {
      var t: nat := m.At(s + 1);
      if t < |m.pkt| {
        assert t in EndingWithin(m, f + 1);
        assert t in EndingWithin(m, f);
      }
    }
  }

  lemma {:induction false} CardinalityBelow(s: set<nat>, n: nat)
    requires forall x :: x in s ==> x < n
    ensures |s| <= n
    ensures |s| == n ==> forall x: nat :: x < n ==> x in s
  {
    if n > 0 {
      CardinalityBelow(s - {n - 1}, n - 1);
    }
  }

  /** After as many hops as there are bytes, more hops end no more chains. */
  lemma {:induction false} EndingSettles(m: Memory, g: nat)
    requires g >= |m.pkt|
    ensures EndingWithin(m, g + 1) == EndingWithin(m, g)
  {
    EndingGrows(m, g);
    if g == |m.pkt| {
      CardinalityBelow(EndingWithin(m, g), g);
    } else {
      EndingSettles(m, g - 1);
      forall s: nat | s in EndingWithin(m, g + 1) ensures s in EndingWithin(m, g) {
        SameStep(m, s, g - 1);
      }
    }
  }

  lemma {:induction false} LoopStays(m: Memory, s: nat, f: nat)
    requires s < |m.pkt| && !ChainEnds(m, s, |m.pkt|)
    ensures !ChainEnds(m, s, f)
    decreases f
  {
    if f > |m.pkt| {
      LoopStays(m, s, f - 1);
      EndingSettles(m, f - 1);
      assert s !in EndingWithin(m, f - 1);
    } else if f < |m.pkt| && ChainEnds(m, s, f) {
      ChainMuchLonger(m, s, f, |m.pkt|);
    }
  }

  lemma {:induction false} ChainMuchLonger(m: Memory, s: nat, f: nat, g: nat)
    requires ChainEnds(m, s, f) && f <= g
    ensures ChainEnds(m, s, g)
    decreases g - f
  {
    if f < g {
      ChainLonger(m, s, f);
      ChainMuchLonger(m, s, f + 1, g);
    }
  }

  lemma {:induction false} LoopNeverEnds(m: Memory, s: nat, room: nat, k: nat)
    requires s < |m.pkt| && !ChainEnds(m, s, |m.pkt|) && room >= 1
    ensures Text(m, Cursor(s, false, room), k) == None
    decreases k
  {
    LoopStays(m, s, 0);
    LoopStays(m, s, |m.pkt| + 1);
    var t: nat := m.At(s + 1);
    assert !ChainEnds(m, t, |m.pkt|);
    LoopStays(m, s, 1);
    if k > 0 {
      LoopNeverEnds(m, t, room, k - 1);
    }
  }

  ghost predicate Ends(m: Memory, c: Cursor) {
    exists k: nat :: Text(m, c, k).Some?
  }

  /** For every destination size but zero: `fetch` ends from every offset if and only if no offset
      starts a chain of 0xC0 pointers that goes on for more hops than the packet has bytes. */
  lemma FetchEndsIff(m: Memory, room: nat)
    requires room >= 1
    ensures (forall s: nat :: Ends(m, Cursor(s, false, room))) <==> NoPointerLoop(m)
  {
    if NoPointerLoop(m) {
      forall s: nat ensures Ends(m, Cursor(s, false, room)) {
        LoopFreeReadable(m, s, room);
      }
    } else {
      var s: nat :| s < |m.pkt| && !ChainEnds(m, s, |m.pkt|);
      forall k: nat ensures Text(m, Cursor(s, false, room), k) == None {
        LoopNeverEnds(m, s, room, k);
      }
      assert !Ends(m, Cursor(s, false, room));
    }
  }

  lemma LoopFreeReadable(m: Memory, s: nat, room: nat)
    requires NoPointerLoop(m)
    ensures Ends(m, Cursor(s, false, room))
  {
    assert ChainEnds(m, s, |m.pkt|);
    var k := LoopFreeEnds(m, Cursor(s, false, room), |m.pkt|);
  }

  /** Pointers to strictly earlier offsets cannot loop. */
  lemma {:induction false} BackwardChainEnds(m: Memory, s: nat, f: nat)
    requires forall o: nat :: o < |m.pkt| && PointerAt(m, o) ==> m.At(o + 1) < o
    requires s <= f
    ensures ChainEnds(m, s, f)
    decreases f
  {
    if PointerAt(m, s) {
      BackwardChainEnds(m, m.At(s + 1), f - 1);
    }
  }

  lemma BackwardPointersEnd(m: Memory)
    requires forall o: nat :: o < |m.pkt| && PointerAt(m, o) ==> m.At(o + 1) < o
    ensures NoPointerLoop(m)
  {
    forall s: nat | s < |m.pkt| ensures ChainEnds(m, s, |m.pkt|) {
      BackwardChainEnds(m, s, |m.pkt|);
    }
  }
}
