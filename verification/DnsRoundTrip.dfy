/** What the query builder prints, the name expansion reads back. */
module DnsRoundTrip {
  import opened Sequences
  import opened Wrappers
  import opened Octets
  import opened DomainNames
  import opened DnsEncoder
  import opened DnsExpand

  /** A piece whose length fits a length byte other than zero. */
  predicate FitsByte(l: Label) {
    1 <= |l| <= 255
  }

  /** How many leading labels have a length that fits. */
  function LeadingFit(labels: seq<Label>): (j: nat)
    ensures j <= |labels|
    ensures forall i :: 0 <= i < j ==> FitsByte(labels[i])
    ensures j < |labels| ==> !FitsByte(labels[j])
  {
    if labels == [] || !FitsByte(labels[0]) then 0 else 1 + LeadingFit(labels[1..])
  }

  lemma {:induction false} JoinPrefixShorter(labels: seq<Label>, j: nat)
    requires j < |labels| && |labels| > 1
    ensures |Join(labels[..j])| < |Join(labels)|
  {
    if j > 0 {
      var rest := labels[1..];
      assert labels[..j][1..] == rest[..j - 1];
      if |rest| > 1 {
        JoinPrefixShorter(rest, j - 1);
      } else {
        assert labels[..j] == [labels[0]];
        assert Join(labels[..j]) == labels[0];
      }
    }
  }

  lemma ZeroBehind(front: seq<Byte>, back: seq<Byte>, end: seq<Byte>)
    requires |back + end| > 0 && (back + end)[0] == 0
    ensures var all := front + back + end;
            |front| < |all| && all[..|front|] == front && all[|front|] == 0
  {
    assert front + back + end == front + (back + end);
  }

  /** The labels before one whose length byte is zero, or all labels, are followed by a zero byte. */
  lemma FrontThenZero(labels: seq<Label>, end: seq<Byte>, j: nat)
    requires j <= |labels| && end != [] && end[0] == 0
    requires j < |labels| ==> |labels[j]| % 256 == 0
    ensures var front := EncodeLabels(labels[..j]);
            var all := EncodeLabels(labels) + end;
            |front| < |all| && all[..|front|] == front && all[|front|] == 0
  {
    EncodeConcat(labels[..j], labels[j..]);
    assert labels == labels[..j] + labels[j..];
    if j < |labels| {
      assert labels[j..] == [labels[j]] + labels[j + 1..];
      EncodeCons(labels[j], labels[j + 1..]);
    }
    ZeroBehind(EncodeLabels(labels[..j]), EncodeLabels(labels[j..]), end);
  }

  lemma DecodeBehind(header: seq<Byte>, all: seq<Byte>, labels: seq<Label>, budget: nat)
    requires forall l :: l in labels ==> ValidLabel(l)
    requires |EncodeLabels(labels)| < |all| && |EncodeLabels(labels)| <= budget
    requires all[..|EncodeLabels(labels)|] == EncodeLabels(labels) && all[|EncodeLabels(labels)|] == 0
    ensures Decode(header + all, |header|, budget) == Some(Decoded(labels, false, false))
  {
    var front := EncodeLabels(labels);
    assert (header + all)[|header|..|header| + |front|] == all[..|front|];
    DecodeEncoded(header + all, |header|, labels, budget);
  }

  /** In the packet for `name`, the bytes at offset 12 decompress to the labels before the first
      empty one. */
  lemma QueryDecodes(tid: nat, name: seq<Byte>, qtype: Byte, j: nat)
    requires tid < 0x10000
    requires forall l :: l in Split(name) ==> |l| <= 63
    requires j == LeadingFit(Split(name))
    ensures Decode(QueryPacket(tid, name, qtype), HEADER_LEN, |name| + 1)
            == Some(Decoded(Split(name)[..j], false, false))
  {
    QueryParts(tid, name, qtype);
    EncodedLength(Split(name));
    JoinSplit(name);
    PacketDecodes(QueryHeader(tid), Split(name), QuestionEnd(qtype), j, |name| + 1);
  }

  lemma PacketDecodes(header: seq<Byte>, labels: seq<Label>, end: seq<Byte>, j: nat, budget: nat)
    requires j == LeadingFit(labels) && forall l :: l in labels ==> |l| <= 63
    requires end != [] && end[0] == 0 && |EncodeLabels(labels)| <= budget
    ensures Decode(header + (EncodeLabels(labels) + end), |header|, budget) == Some(Decoded(labels[..j], false, false))
  {
    assert j < |labels| ==> labels[j] in labels && labels[j] == [];
    FrontThenZero(labels, end, j);
    FrontShorter(labels, j);
    FrontValid(labels, j);
    DecodeBehind(header, EncodeLabels(labels) + end, labels[..j], budget);
  }

  lemma QueryParts(tid: nat, name: seq<Byte>, qtype: Byte)
    requires tid < 0x10000
    ensures QueryPacket(tid, name, qtype) == QueryHeader(tid) + (EncodeLabels(Split(name)) + QuestionEnd(qtype))
  {
  }

  lemma FrontValid(labels: seq<Label>, j: nat)
    requires j == LeadingFit(labels)
    requires forall l :: l in labels ==> |l| <= 63
    ensures forall l :: l in labels[..j] ==> ValidLabel(l)
  {
  }

  lemma FrontShorter(labels: seq<Label>, j: nat)
    requires j <= |labels|
    ensures |EncodeLabels(labels[..j])| <= |EncodeLabels(labels)|
  {
    EncodeConcat(labels[..j], labels[j..]);
    assert labels == labels[..j] + labels[j..];
  }

  /** Pieces before one that does not fit are not the whole name, unless that is empty. */
  lemma FrontIsNameIff(name: seq<Byte>, j: nat)
    requires j == LeadingFit(Split(name))
    ensures Join(Split(name)[..j]) == name <==> name == [] || forall l :: l in Split(name) ==> FitsByte(l)
  {
    var labels := Split(name);
    JoinSplit(name);
    if j == |labels| {
      assert labels[..j] == labels;
    } else {
      assert labels[j] in labels && !FitsByte(labels[j]);
      if |labels| > 1 {
        JoinPrefixShorter(labels, j);
      } else {
        assert labels[..0] == [] && Join([]) == [];
      }
    }
  }

  /** No length byte is that of a pointer. */
  ghost predicate NoPointerLength(labels: seq<Label>) {
    forall l :: l in labels ==> |l| % 256 != COMPRESSION
  }

  /** The round trip: for a C string that fits the destination, without a piece of 192, 448, ... bytes, whose
      length reads as a pointer: `fetch` at offset 12 of the packet built by `lookup` ends and gives the
      name back, if and only if the name is empty or its pieces have 1 to 255 bytes. */
  lemma FetchInvertsLookup(tid: nat, name: seq<Byte>, qtype: Byte, beyond: int -> Byte, dstlen: nat)
    requires tid < 0x10000 && 0 !in name && NoPointerLength(Split(name)) && |name| <= dstlen
    ensures (exists k: nat :: Text(Memory(QueryPacket(tid, name, qtype), beyond),
                                   Cursor(HEADER_LEN, false, dstlen), k) == Some(name))
            <==> name == [] || forall l :: l in Split(name) ==> FitsByte(l)
  {
    var labels := Split(name);
    var j := LeadingFit(labels);
    var m, c := Memory(QueryPacket(tid, name, qtype), beyond), Cursor(HEADER_LEN, false, dstlen);
    FrontIsNameIff(name, j);
    if j < |labels| && |labels[j]| % 256 != 0 {
      JoinSplit(name);
      QueryParts(tid, name, qtype);
      assert labels[j] in labels;
      var i := LongPieceFound(m, QueryHeader(tid), name, labels, QuestionEnd(qtype), c, j);
      forall k: nat ensures Text(m, c, k) != Some(name) {
        LongPieceFails(m, c, labels[..j], labels[j], k, i, name);
      }
    } else {
      var k := FrontExpanded(tid, name, qtype, beyond, dstlen, j);
      OnlyText(m, c, k, name);
    }
  }

  /** Before a piece whose length byte is zero, or with all pieces fitting, `fetch` gives just those
      before. */
  lemma FrontExpanded(tid: nat, name: seq<Byte>, qtype: Byte, beyond: int -> Byte, dstlen: nat, j: nat)
    returns (k: nat)
    requires tid < 0x10000 && j == LeadingFit(Split(name)) && NoPointerLength(Split(name)) && |name| <= dstlen
    requires j < |Split(name)| ==> |Split(name)[j]| % 256 == 0
    ensures Text(Memory(QueryPacket(tid, name, qtype), beyond), Cursor(HEADER_LEN, false, dstlen), k)
            == Some(Join(Split(name)[..j]))
  {
    var m := Memory(QueryPacket(tid, name, qtype), beyond);
    var path := FrontOnPath(tid, name, qtype, j);
    FrontFits(name, j);
    k := ExpandPath(m, Cursor(HEADER_LEN, false, dstlen), path);
    WholeExpansion(Split(name)[..j], dstlen);
  }

  lemma WholeExpansion(labels: seq<Label>, room: nat)
    requires |Join(labels)| <= room
    ensures Expansion(Decoded(labels, false, false), false, room) == Join(labels)
  {
  }

  lemma FrontOnPath(tid: nat, name: seq<Byte>, qtype: Byte, j: nat) returns (path: Path)
    requires tid < 0x10000 && j == LeadingFit(Split(name)) && NoPointerLength(Split(name))
    requires j < |Split(name)| ==> |Split(name)[j]| % 256 == 0
    ensures Leads(QueryPacket(tid, name, qtype), HEADER_LEN, path)
    ensures NameOn(path) == Decoded(Split(name)[..j], false, false)
  {
    var labels := Split(name);
    var all := EncodeLabels(labels) + QuestionEnd(qtype);
    QueryParts(tid, name, qtype);
    FrontThenZero(labels, QuestionEnd(qtype), j);
    FrontCopied(labels, j);
    path := PathBehind(QueryHeader(tid), all, labels[..j]);
  }

  lemma FrontCopied(labels: seq<Label>, j: nat)
    requires j == LeadingFit(labels) && NoPointerLength(labels)
    ensures forall l :: l in labels[..j] ==> 1 <= |l| < 256 && |l| != COMPRESSION
  {
    forall l | l in labels[..j] ensures 1 <= |l| < 256 && |l| != COMPRESSION {
      var i :| 0 <= i < j && labels[i] == l;
      assert FitsByte(labels[i]) && l in labels;
    }
  }

  lemma PathBehind(header: seq<Byte>, all: seq<Byte>, labels: seq<Label>) returns (path: Path)
    requires forall l :: l in labels ==> 1 <= |l| < 256 && |l| != COMPRESSION
    requires |EncodeLabels(labels)| < |all|
    requires all[..|EncodeLabels(labels)|] == EncodeLabels(labels) && all[|EncodeLabels(labels)|] == 0
    ensures Leads(header + all, |header|, path) && NameOn(path) == Decoded(labels, false, false)
  {
    var front := EncodeLabels(labels);
    assert (header + all)[|header|..|header| + |front|] == all[..|front|];
    path := EncodedOnPath(header + all, |header|, labels);
  }

  // ---------------------------------------------------------------- pieces that are too long

  /** Labels, each behind a dot except the first one unless `sep`. */
  function Dots(labels: seq<Label>, sep: bool): seq<Byte>
  {
    if labels == [] then [] else (if sep then [DOT] else []) + labels[0] + Dots(labels[1..], true)
  }

  lemma {:induction false} DotsJoin(labels: seq<Label>, sep: bool)
    ensures Dots(labels, sep) == (if sep && labels != [] then [DOT] else []) + Join(labels)
    decreases |labels|
  {
    if |labels| > 1 {
      DotsJoin(labels[1..], true);
      Regroup(if sep then [DOT] else [], labels[0], [DOT], Join(labels[1..]));
    } else if |labels| == 1 {
      assert labels[1..] == [];
    }
  }

  /** A piece too long for its length byte, which is neither zero nor that of a pointer, lies at `s`. */
  ghost predicate LongAt(m: Memory, s: nat, l: Label) {
    LongPiece(l) && s + 1 + |l| < |m.pkt| && m.pkt[s] == |l| % 256 && m.pkt[s + 1..s + 1 + |l|] == l
  }

  ghost predicate LongPiece(l: Label) {
    |l| > 255 && |l| % 256 != 0 && |l| % 256 != COMPRESSION && DOT !in l && 0 !in l
  }

  /** The labels `front` lie at `s`, and the long piece behind them. */
  ghost predicate LongLies(m: Memory, s: nat, front: seq<Label>, l: Label)
    decreases |front|
  {
    if front == [] then LongAt(m, s, l)
    else LabelAt(m.pkt, s, front[0]) && LongLies(m, s + 1 + |front[0]|, front[1..], l)
  }

  lemma {:induction false} FrontLies(m: Memory, s: nat, e: nat, front: seq<Label>, l: Label)
    requires forall x :: x in front ==> 1 <= |x| < 256 && |x| != COMPRESSION
    requires e == s + |EncodeLabels(front)| < |m.pkt| && m.pkt[s..e] == EncodeLabels(front)
    requires LongAt(m, e, l)
    ensures LongLies(m, s, front, l)
    decreases |front|
  {
    if front != [] {
      assert front[0] in front;
      EncodedHead(m.pkt, s, front);
      FrontLies(m, s + 1 + |front[0]|, e, front[1..], l);
    }
  }

  lemma CutOfLong(m: Memory, s: nat, l: Label)
    requires LongAt(m, s, l)
    ensures LabelAt(m.pkt, s, l[..|l| % 256]) && m.At(s + 1 + |l| % 256) == l[|l| % 256]
  {
    var n := |l| % 256;
    assert m.pkt[s + 1..s + 1 + n] == m.pkt[s + 1..s + 1 + |l|][..n];
    assert m.pkt[s + 1 + n] == m.pkt[s + 1..s + 1 + |l|][n];
  }

  lemma TextAfterLabel(m: Memory, c: Cursor, l: Label, k: nat)
    requires LabelAt(m.pkt, c.s, l) && |Dot(c)| + |l| <= c.room && Text(m, c, k).Some?
    ensures k > 0 && Text(m, AfterLabel(c, l), k - 1).Some?
    ensures Text(m, c, k).value == Dot(c) + l + Text(m, AfterLabel(c, l), k - 1).value
  {
    WholeLabel(m, c, l);
    TextRound(m, c, k);
  }

  /** The loop's text has a dot at `i`, if the loop ends. */
  ghost predicate DotAt(m: Memory, c: Cursor, k: nat, i: nat) {
    Text(m, c, k).Some? ==> i < |Text(m, c, k).value| && Text(m, c, k).value[i] == DOT
  }

  lemma DotBehindLabel(m: Memory, c: Cursor, l: Label, k: nat, i: nat, j: nat)
    requires LabelAt(m.pkt, c.s, l) && |Dot(c)| + |l| <= c.room && j == |Dot(c)| + |l| + i
    requires k > 0 ==> DotAt(m, AfterLabel(c, l), k - 1, i)
    ensures DotAt(m, c, k, j)
  {
    if Text(m, c, k).Some? {
      TextAfterLabel(m, c, l, k);
    }
  }

  /** A long piece is cut by a dot where its length byte ends it. */
  lemma DotInLongPiece(m: Memory, c: Cursor, l: Label, k: nat, i: nat)
    requires LongAt(m, c.s, l) && |Dot(c)| + |l| <= c.room && i == |Dot(c)| + |l| % 256
    ensures DotAt(m, c, k, i)
  {
    var cut := l[..|l| % 256];
    CutOfLong(m, c.s, l);
    if k > 0 {
      SeparatorFirst(m, AfterLabel(c, cut), k - 1);
    }
    DotBehindLabel(m, c, cut, k, 0, i);
  }

  /** How far into the text byte `n` of the piece behind `front` comes. */
  function CutAt(front: seq<Label>, sep: bool, n: nat): nat {
    (if sep then 1 else 0) + if front == [] then n else |front[0]| + CutAt(front[1..], true, n)
  }

  /** From `c` on lie the labels `front` and then a long piece that is cut `i` bytes into the text. */
  ghost predicate LongBehind(m: Memory, c: Cursor, front: seq<Label>, l: Label, i: nat)
    decreases |front|
  {
    if front == [] then
      LongAt(m, c.s, l) && |Dot(c)| + |l| <= c.room && i == |Dot(c)| + |l| % 256
    else
      && LabelAt(m.pkt, c.s, front[0]) && |Dot(c)| + |front[0]| <= c.room && |Dot(c)| + |front[0]| <= i
      && LongBehind(m, AfterLabel(c, front[0]), front[1..], l, i - |Dot(c)| - |front[0]|)
  }

  lemma {:induction false} BehindFront(m: Memory, c: Cursor, front: seq<Label>, l: Label, i: nat)
    requires LongLies(m, c.s, front, l)
    requires CutAt(front, c.sep, |l|) <= c.room && i == CutAt(front, c.sep, |l| % 256)
    ensures LongBehind(m, c, front, l, i)
    decreases |front|
  {
    if front != [] {
      BehindFront(m, AfterLabel(c, front[0]), front[1..], l, i - |Dot(c)| - |front[0]|);
    }
  }

  /** The dot, `i` bytes into the text from `c` on. */
  lemma {:induction false} DotInText(m: Memory, c: Cursor, front: seq<Label>, l: Label, k: nat, i: nat)
    requires LongBehind(m, c, front, l, i)
    ensures DotAt(m, c, k, i)
    decreases |front|
  {
    if front == [] {
      DotInLongPiece(m, c, l, k, i);
    } else {
      var i' := i - |Dot(c)| - |front[0]|;
      if k > 0 {
        DotInText(m, AfterLabel(c, front[0]), front[1..], l, k - 1, i');
      }
      DotBehindLabel(m, c, front[0], k, i', i);
    }
  }

  /** Where the parts of the name lie in the packet. */
  lemma LongPieceAt(m: Memory, header: seq<Byte>, labels: seq<Label>, end: seq<Byte>, j: nat)
    requires m.pkt == header + (EncodeLabels(labels) + end) && end != [] && j < |labels|
    requires forall l :: l in labels[..j] ==> 1 <= |l| < 256 && |l| != COMPRESSION
    requires LongPiece(labels[j])
    ensures LongLies(m, |header|, labels[..j], labels[j])
  {
    var e := PiecesLie(m, header, labels, end, j);
    FrontLies(m, |header|, e, labels[..j], labels[j]);
  }

  lemma FirstLong(labels: seq<Label>, j: nat)
    requires NoPointerLength(labels) && j == LeadingFit(labels) < |labels| && |labels[j]| % 256 != 0
    requires DOT !in labels[j] && 0 !in labels[j]
    ensures LongPiece(labels[j])
    ensures forall l :: l in labels[..j] ==> 1 <= |l| < 256 && |l| != COMPRESSION
  {
    assert labels[j] in labels && !FitsByte(labels[j]);
    FrontCopied(labels, j);
  }

  lemma PiecesLie(m: Memory, header: seq<Byte>, labels: seq<Label>, end: seq<Byte>, j: nat) returns (e: nat)
    requires m.pkt == header + (EncodeLabels(labels) + end) && end != [] && j < |labels| && LongPiece(labels[j])
    ensures e == |header| + |EncodeLabels(labels[..j])| < |m.pkt|
    ensures m.pkt[|header|..e] == EncodeLabels(labels[..j]) && LongAt(m, e, labels[j])
  {
    e := |header| + |EncodeLabels(labels[..j])|;
    EncodedParts(labels, j);
    LongPieceLies(m.pkt, header, EncodeLabels(labels), EncodeLabels(labels[..j]), labels[j],
                  EncodeLabels(labels[j + 1..]), end);
  }

  lemma EncodedParts(labels: seq<Label>, j: nat)
    requires j < |labels|
    ensures EncodeLabels(labels)
            == EncodeLabels(labels[..j]) + ([|labels[j]| % 256] + labels[j] + EncodeLabels(labels[j + 1..]))
  {
    var l, back := labels[j], labels[j + 1..];
    assert labels[j..] == [l] + back && labels == labels[..j] + labels[j..];
    EncodeConcat(labels[..j], labels[j..]);
    EncodeCons(l, back);
  }

  lemma LongPieceLies(pkt: seq<Byte>, header: seq<Byte>, all: seq<Byte>, front: seq<Byte>, l: Label, back: seq<Byte>,
                      end: seq<Byte>)
    requires pkt == header + (all + end) && all == front + ([|l| % 256] + l + back) && end != []
    ensures var s := |header| + |front|;
            && pkt[|header|..s] == front && s + 1 + |l| < |pkt|
            && pkt[s] == |l| % 256 && pkt[s + 1..s + 1 + |l|] == l
  {
    var rest := [|l| % 256] + l + back;
    assert pkt == header + front + rest + end;
    assert rest[1..1 + |l|] == l;
  }

  lemma {:induction false} ZeroFree(name: seq<Byte>, labels: seq<Label>, l: Label)
    requires Join(labels) == name && 0 !in name && l in labels
    ensures 0 !in l
    decreases |labels|
  {
    if |labels| > 1 {
      assert forall i :: 0 <= i < |labels[0]| ==> name[i] == labels[0][i];
      if l != labels[0] {
        var rest := Join(labels[1..]);
        assert forall i :: 0 <= i < |rest| ==> name[|labels[0]| + 1 + i] == rest[i];
        ZeroFree(rest, labels[1..], l);
      }
    }
  }

  /** The byte of the name where the long piece is cut. */
  lemma {:induction false} ByteInPiece(labels: seq<Label>, sep: bool, j: nat, n: nat)
    requires j < |labels| && n < |labels[j]|
    ensures CutAt(labels[..j], sep, n) < |Dots(labels, sep)|
    ensures Dots(labels, sep)[CutAt(labels[..j], sep, n)] == labels[j][n]
    ensures CutAt(labels[..j], sep, |labels[j]|) <= |Dots(labels, sep)|
    decreases j
  {
    if j > 0 {
      ByteInPiece(labels[1..], true, j - 1, n);
      assert labels[..j][1..] == labels[1..][..j - 1] && labels[..j][0] == labels[0];
    }
  }

  /** The long piece is there, and the name has no dot where the text gets one. */
  lemma LongPieceFound(m: Memory, header: seq<Byte>, name: seq<Byte>, labels: seq<Label>, end: seq<Byte>,
                       c: Cursor, j: nat) returns (i: nat)
    requires m.pkt == header + (EncodeLabels(labels) + end) && end != [] && Join(labels) == name && 0 !in name
    requires NoPointerLength(labels) && j == LeadingFit(labels) < |labels| && |labels[j]| % 256 != 0
    requires DOT !in labels[j] && c.s == |header| && !c.sep && |name| <= c.room
    ensures LongBehind(m, c, labels[..j], labels[j], i) && i < |name| && name[i] != DOT
  {
    assert labels[j] in labels;
    ZeroFree(name, labels, labels[j]);
    FirstLong(labels, j);
    LongPieceAt(m, header, labels, end, j);
    i := CutAt(labels[..j], false, |labels[j]| % 256);
    DotsJoin(labels, false);
    ByteInPiece(labels, false, j, |labels[j]| % 256);
    BehindFront(m, c, labels[..j], labels[j], i);
  }

  lemma LongPieceFails(m: Memory, c: Cursor, front: seq<Label>, l: Label, k: nat, i: nat, name: seq<Byte>)
    requires LongBehind(m, c, front, l, i) && i < |name| && name[i] != DOT
    ensures Text(m, c, k) != Some(name)
  {
    DotInText(m, c, front, l, k, i);
  }

  lemma OnePiece(tid: nat, name: seq<Byte>, qtype: Byte)
    requires tid < 0x10000 && DOT !in name
    ensures QueryPacket(tid, name, qtype) == QueryHeader(tid) + ([|name| % 256] + name + QuestionEnd(qtype))
  {
    NoDot(name);
    EncodeCons(name, []);
    assert [name] + [] == [name];
    QueryParts(tid, name, qtype);
  }

  /** A piece of 192 bytes that does not come back: its length is followed as a pointer. */
  lemma PointerLengthFails(tid: nat, qtype: Byte, beyond: int -> Byte, dstlen: nat, k: nat)
    requires tid < 0x10000 && dstlen >= 192
    ensures var name := seq<Byte>(192, _ => 97);
            Text(Memory(QueryPacket(tid, name, qtype), beyond), Cursor(HEADER_LEN, false, dstlen), k) != Some(name)
  {
    var name := seq<Byte>(192, _ => 97);
    var m := Memory(QueryPacket(tid, name, qtype), beyond);
    var c := Cursor(HEADER_LEN, false, dstlen);
    OnePiece(tid, name, qtype);
    assert m.pkt[12] == COMPRESSION && forall i :: 13 <= i < 205 ==> m.pkt[i] == name[i - 13];
    if Text(m, c, k).Some? {
      var c1, c2 := Cursor(97, false, dstlen), Cursor(195, true, dstlen - 97);
      TextRound(m, c, k);
      assert Round(m, c) == ([], c1);
      WholeLabel(m, c1, m.pkt[98..195]);
      TextRound(m, c1, k - 1);
      SeparatorFirst(m, c2, k - 2);
      assert Text(m, c, k).value[97] == DOT && name[97] != DOT;
    }
  }

  lemma SeparatorFirst(m: Memory, c: Cursor, k: nat)
    requires !Done(m, c) && c.sep
    ensures DotAt(m, c, k, 0)
  {
    if Text(m, c, k).Some? && c.room > 1 {
      TextRound(m, c, k);
    }
  }

  // A name with a piece of 192 bytes that does come back: the pointer leads into that piece, which repeats
  // itself so that a label read there gives it again, and the next pieces up to a byte read as a pointer to the
  // last piece.

  function Pattern(i: nat): Byte {
    [17, 97, 4, 97, 197][i % 5]
  }

  const ECHO: Label := seq(192, i requires 0 <= i < 192 => Pattern(i))
  const SECOND: Label := [97, 197, 17, 97]
  const LAST: Label := SECOND + [192, 210] + seq<Byte>(40, _ => 97)
  const ECHO_NAME: seq<Byte> := ECHO + [DOT] + SECOND + [DOT] + LAST

  lemma EchoSplit()
    ensures Split(ECHO_NAME) == [ECHO, SECOND, LAST]
  {
    var labels := [ECHO, SECOND, LAST];
    assert labels[1..] == [SECOND, LAST] && [SECOND, LAST][1..] == [LAST];
    Regroup(ECHO + [DOT], SECOND, [DOT], LAST);
    Assoc(SECOND, [DOT], LAST);
    assert Join([SECOND, LAST]) == SECOND + [DOT] + LAST;
    assert Join(labels) == ECHO_NAME;
    assert forall i :: 0 <= i < 192 ==> ECHO[i] != DOT;
    SplitJoin(labels);
  }

  lemma EchoEncoded()
    ensures EncodeLabels([ECHO, SECOND, LAST]) == [192] + ECHO + ([4] + SECOND + ([46] + LAST))
  {
    EncodeCons(ECHO, [SECOND, LAST]);
    EncodeCons(SECOND, [LAST]);
    EncodeCons(LAST, []);
    assert [ECHO] + [SECOND, LAST] == [ECHO, SECOND, LAST] && [SECOND] + [LAST] == [SECOND, LAST];
    assert [LAST] + [] == [LAST] && [46] + LAST + [] == [46] + LAST;
  }

  lemma EchoPacket(m: Memory, tid: nat, qtype: Byte)
    requires tid < 0x10000 && m.pkt == QueryPacket(tid, ECHO_NAME, qtype)
    ensures m.pkt == QueryHeader(tid) + ([192] + ECHO + ([4] + SECOND + ([46] + LAST)) + QuestionEnd(qtype))
  {
    EchoSplit();
    EchoEncoded();
    QueryParts(tid, ECHO_NAME, qtype);
  }

  lemma EchoParts(m: Memory, tid: nat, qtype: Byte) returns (piece: Label)
    requires tid < 0x10000 && m.pkt == QueryPacket(tid, ECHO_NAME, qtype)
    ensures |m.pkt| == 262 && m.pkt[12] == 192 && m.pkt[13] == 17
    ensures LabelAt(m.pkt, 17, piece) && |piece| == 197 && piece + [DOT] + LAST == ECHO_NAME
    ensures m.pkt[215] == 192 && m.pkt[216] == 210 && LabelAt(m.pkt, 210, LAST) && m.pkt[257] == 0
  {
    EchoPacket(m, tid, qtype);
    piece := m.pkt[18..215];
    assert m.pkt[13..205] == ECHO && m.pkt[205] == 4 && m.pkt[206..210] == SECOND && m.pkt[210] == 46;
    assert m.pkt[211..257] == LAST && m.pkt[257] == 0;
    assert m.pkt[17] == ECHO[4];
    forall t | 0 <= t < 197 ensures piece[t] == (ECHO + [DOT] + SECOND)[t] {
      EchoByte(m, piece, t);
    }
    assert piece == ECHO + [DOT] + SECOND;
  }

  lemma EchoByte(m: Memory, piece: Label, t: nat)
    requires |m.pkt| == 262 && piece == m.pkt[18..215] && t < 197
    requires m.pkt[13..205] == ECHO && m.pkt[205] == 4 && m.pkt[206..210] == SECOND && m.pkt[210] == 46
    requires m.pkt[211..257] == LAST
    ensures piece[t] == (ECHO + [DOT] + SECOND)[t]
  {
    if t < 187 {
      assert piece[t] == m.pkt[13..205][t + 5];
    } else if 188 <= t < 192 {
      assert piece[t] == m.pkt[206..210][t - 188];
    } else if 193 <= t {
      assert piece[t] == m.pkt[211..257][t - 193];
    }
  }

  /** So at a length that reads as a pointer, whether a name comes back depends on its bytes. */
  lemma PointerLengthComesBack(tid: nat, qtype: Byte, beyond: int -> Byte, dstlen: nat) returns (k: nat)
    requires tid < 0x10000 && dstlen >= |ECHO_NAME|
    ensures |Split(ECHO_NAME)[0]| == 192
    ensures Text(Memory(QueryPacket(tid, ECHO_NAME, qtype), beyond), Cursor(HEADER_LEN, false, dstlen), k)
            == Some(ECHO_NAME)
  {
    var m := Memory(QueryPacket(tid, ECHO_NAME, qtype), beyond);
    EchoSplit();
    var piece := EchoParts(m, tid, qtype);
    var path := EchoPath(m.pkt, piece);
    k := ExpandPath(m, Cursor(HEADER_LEN, false, dstlen), path);
    WholeExpansion([piece, LAST], dstlen);
  }

  lemma EchoPath(pkt: seq<Byte>, piece: Label) returns (path: Path)
    requires |pkt| == 262 && pkt[12] == 192 && pkt[13] == 17 && LabelAt(pkt, 17, piece) && |piece| == 197
    requires pkt[215] == 192 && pkt[216] == 210 && LabelAt(pkt, 210, LAST) && pkt[257] == 0
    ensures Leads(pkt, 12, path) && NameOn(path) == Decoded([piece, LAST], false, false)
    ensures Join([piece, LAST]) == piece + [DOT] + LAST
  {
    var tail := Piece(LAST, End);
    var last := Jump(210, tail);
    assert [LAST] + [] == [LAST];
    assert NameOn(tail) == Before(LAST, NameOn(End)) == Decoded([LAST], false, false);
    assert NameOn(last) == Through(210, NameOn(tail)) == Decoded([LAST], false, false);
    assert Leads(pkt, 210, tail) && Leads(pkt, 215, last);
    path := Jump(17, Piece(piece, last));
    assert [piece] + [LAST] == [piece, LAST] && [piece, LAST][1..] == [LAST];
    assert NameOn(path) == Through(17, Before(piece, NameOn(last)));
  }

  /** A piece of 256 bytes that does not come back: its length byte is zero, the end of a name. */
  lemma ZeroLengthFails(tid: nat, qtype: Byte, beyond: int -> Byte, dstlen: nat, k: nat)
    requires tid < 0x10000
    ensures var name := seq<Byte>(256, _ => 97);
            Text(Memory(QueryPacket(tid, name, qtype), beyond), Cursor(HEADER_LEN, false, dstlen), k) == Some([])
  {
    OnePiece(tid, seq<Byte>(256, _ => 97), qtype);
  }

  lemma OnlyText(m: Memory, c: Cursor, k: nat, name: seq<Byte>)
    requires Text(m, c, k).Some?
    ensures (exists k': nat :: Text(m, c, k') == Some(name)) <==> Text(m, c, k) == Some(name)
  {
    forall k': nat | Text(m, c, k').Some? ensures Text(m, c, k') == Text(m, c, k) {
      TextUnique(m, c, k, k');
    }
  }

  lemma FrontFits(name: seq<Byte>, j: nat)
    requires j == LeadingFit(Split(name))
    ensures |Join(Split(name)[..j])| <= |name|
  {
    var labels := Split(name);
    JoinSplit(name);
    if j == |labels| {
      assert labels[..j] == labels;
    } else if |labels| > 1 {
      JoinPrefixShorter(labels, j);
    }
  }
}
