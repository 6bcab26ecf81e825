/** Domain names as text and as labels, and the wire format of sections 3.1 and 4.1.4 of RFC 1035. */
module DomainNames {
  import opened Wrappers
  import opened Sequences
  import opened Octets

  const DOT: Byte := 46
  const COMPRESSION: Byte := 0xC0

  type Label = seq<Byte>

  /** The offset of the first dot, or the length of the text: `strchr` with its NULL case. */
  function FirstDot(text: seq<Byte>, from: nat := 0): (k: nat)
    requires from <= |text|
    ensures from <= k <= |text|
    ensures forall j :: from <= j < k ==> text[j] != DOT
    ensures k < |text| ==> text[k] == DOT
    decreases |text| - from
  {
    if from == |text| || text[from] == DOT then from else FirstDot(text, from + 1)
  }

  /** The pieces of a text between its dots. */
  function Split(text: seq<Byte>): (labels: seq<Label>)
    ensures |labels| >= 1
    decreases |text|
  {
    var k := FirstDot(text);
    if k == |text| then [text] else [text[..k]] + Split(text[k + 1..])
  }

  /** The dotted text of a list of labels. */
  function Join(labels: seq<Label>): seq<Byte> {
    if labels == [] then []
    else if |labels| == 1 then labels[0]
    else labels[0] + [DOT] + Join(labels[1..])
  }

  lemma {:induction false} JoinSplit(text: seq<Byte>)
    ensures Join(Split(text)) == text
    ensures forall l :: l in Split(text) ==> DOT !in l
    decreases |text|
  {
    var k := FirstDot(text);
    if k < |text| {
      JoinSplit(text[k + 1..]);
      assert Split(text)[1..] == Split(text[k + 1..]);
      assert text == text[..k] + [DOT] + text[k + 1..];
    }
  }

  lemma {:induction false} FirstDotAfter(first: Label, rest: seq<Byte>)
    requires DOT !in first
    ensures FirstDot(first + [DOT] + rest) == |first|
  {
    var text := first + [DOT] + rest;
    var k := FirstDot(text);
    assert text[|first|] == DOT;
    assert forall j :: 0 <= j < |first| ==> text[j] == first[j];
  }

  lemma NoDot(l: Label)
    requires DOT !in l
    ensures FirstDot(l) == |l|
  {
  }

  lemma {:induction false} SplitJoin(labels: seq<Label>)
    requires labels != []
    requires forall l :: l in labels ==> DOT !in l
    ensures Split(Join(labels)) == labels
  {
    if |labels| == 1 {
      NoDot(labels[0]);
    } else {
      SplitJoin(labels[1..]);
      FirstDotAfter(labels[0], Join(labels[1..]));
      var text := Join(labels);
      assert text[..|labels[0]|] == labels[0];
      assert text[|labels[0]| + 1..] == Join(labels[1..]);
    }
  }

  /** Length-prefixed labels, without the final zero byte. The prefix is one byte wide. */
  function EncodeLabels(labels: seq<Label>): seq<Byte> {
    if labels == [] then [] else [|labels[0]| % 256] + labels[0] + EncodeLabels(labels[1..])
  }

  lemma EncodeCons(first: Label, rest: seq<Label>)
    ensures EncodeLabels([first] + rest) == [|first| % 256] + first + EncodeLabels(rest)
  {
    assert ([first] + rest)[1..] == rest;
  }

  lemma {:induction false} EncodedLength(labels: seq<Label>)
    ensures labels != [] ==> |EncodeLabels(labels)| == |Join(labels)| + 1
  {
    if |labels| > 1 {
      EncodedLength(labels[1..]);
    } else if |labels| == 1 {
      assert EncodeLabels(labels[1..]) == [];
    }
  }

  lemma {:induction false} EncodeConcat(a: seq<Label>, b: seq<Label>)
    ensures EncodeLabels(a + b) == EncodeLabels(a) + EncodeLabels(b)
  {
    if a == [] {
      assert a + b == b;
    } else {
      var l, tail := a[0], a[1..];
      assert a == [l] + tail && a + b == [l] + (tail + b);
      EncodeConcat(tail, b);
      EncodeCons(l, tail + b);
      EncodeCons(l, tail);
      Assoc([|l| % 256] + l, EncodeLabels(tail), EncodeLabels(b));
    }
  }

  /** A name read from a message: its labels, whether some pointer on the way had an offset of
      256 or more, and whether the final zero byte was reached directly through a pointer. */
  datatype Decoded = Decoded(labels: seq<Label>, far: bool, viaPointer: bool)

  /** Name decompression by section 4.1.4 of RFC 1035: labels of 1 to 63 octets, 14-bit pointers to
      a prior offset, the reserved 01 and 10 prefixes refused. `budget` bounds the octets the labels
      may take (section 3.1 allows 255); it also makes names that chase their own tail undefined. */
  function Decode(pkt: seq<Byte>, s: nat, budget: nat): Option<Decoded>
    decreases budget, s
  {
    if s >= |pkt| then None
    else if pkt[s] == 0 then Some(Decoded([], false, false))
    else if pkt[s] < 64 then
      var n: nat := pkt[s];
      if s + 1 + n > |pkt| || n + 1 > budget then None
      else match Decode(pkt, s + 1 + n, budget - (n + 1))
        case None => None
        case Some(d) => Some(d.(labels := [pkt[s + 1..s + 1 + n]] + d.labels))
    else if pkt[s] >= 0xC0 then
      if s + 1 >= |pkt| then None
      else
        var target := U16(pkt[s] - 0xC0, pkt[s + 1]);
        if target >= s then None
        else match Decode(pkt, target, budget)
          case None => None
          case Some(d) => Some(Decoded(d.labels, d.far || target >= 256, d.viaPointer || d.labels == []))
    else None
  }

  ghost predicate ValidLabel(l: Label) {
    1 <= |l| <= 63
  }

  /** The label `l` lies at `s`, its length byte being neither zero nor that of a pointer. */
  ghost predicate LabelAt(pkt: seq<Byte>, s: nat, l: Label) {
    1 <= |l| < 256 && |l| != COMPRESSION && s + 1 + |l| <= |pkt| && pkt[s] == |l| && pkt[s + 1..s + 1 + |l|] == l
  }

  /** The labels, of up to 255 bytes, and the pointers met on the way through a name. */
  datatype Path = End | Piece(text: Label, next: Path) | Jump(target: nat, next: Path)

  /** The path lies in the packet from `s` on. */
  ghost predicate Leads(pkt: seq<Byte>, s: nat, path: Path)
    decreases path
  {
    match path
    case End => s < |pkt| && pkt[s] == 0
    case Piece(l, next) =>
      LabelAt(pkt, s, l) && Leads(pkt, s + 1 + |l|, next)
    case Jump(target, next) =>
      && s + 1 < |pkt| && pkt[s] >= 0xC0 && target == U16(pkt[s] - 0xC0, pkt[s + 1])
      && Leads(pkt, target, next)
  }

  /** The name met on the way. */
  function NameOn(path: Path): Decoded {
    match path
    case End => Decoded([], false, false)
    case Piece(l, next) => Before(l, NameOn(next))
    case Jump(target, next) => Through(target, NameOn(next))
  }

  /** A name with one more label in front. */
  function Before(l: Label, d: Decoded): Decoded {
    d.(labels := [l] + d.labels)
  }

  /** A name reached through a pointer. */
  function Through(target: nat, d: Decoded): Decoded {
    Decoded(d.labels, d.far || target >= 256, d.viaPointer || d.labels == [])
  }

  /** The octets its labels take, the length bytes included. */
  function OctetsOn(path: Path): nat {
    match path
    case End => 0
    case Piece(l, next) => |l| + 1 + OctetsOn(next)
    case Jump(_, next) => OctetsOn(next)
  }

  /** Every name that decodes is met on a path within the budget. */
  lemma {:induction false} DecodedOnPath(pkt: seq<Byte>, s: nat, budget: nat) returns (path: Path)
    requires Decode(pkt, s, budget).Some?
    ensures Leads(pkt, s, path) && OctetsOn(path) <= budget
    ensures Decode(pkt, s, budget) == Some(NameOn(path))
    decreases budget, s
  {
    if pkt[s] == 0 {
      path := End;
    } else if pkt[s] < 64 {
      var n: nat := pkt[s];
      var next := DecodedOnPath(pkt, s + 1 + n, budget - (n + 1));
      path := Piece(pkt[s + 1..s + 1 + n], next);
    } else {
      var target := U16(pkt[s] - 0xC0, pkt[s + 1]);
      var next := DecodedOnPath(pkt, target, budget);
      path := Jump(target, next);
    }
  }

  lemma DecodeLabel(pkt: seq<Byte>, s: nat, l: Label, budget: nat)
    requires ValidLabel(l)
    requires s + 1 + |l| <= |pkt| && pkt[s] == |l| && pkt[s + 1..s + 1 + |l|] == l
    requires |l| + 1 <= budget
    requires Decode(pkt, s + 1 + |l|, budget - (|l| + 1)).Some?
    ensures var d := Decode(pkt, s + 1 + |l|, budget - (|l| + 1)).value;
            Decode(pkt, s, budget) == Some(d.(labels := [l] + d.labels))
  {
  }

  /** The pieces of an encoding, found where it lies in a packet. */
  lemma EncodedPieces(pkt: seq<Byte>, s: nat, l: Label, rest: seq<Byte>)
    requires s + 1 + |l| + |rest| <= |pkt|
    requires pkt[s..s + 1 + |l| + |rest|] == [|l| % 256] + l + rest
    ensures pkt[s] == |l| % 256
    ensures pkt[s + 1..s + 1 + |l|] == l
    ensures pkt[s + 1 + |l|..s + 1 + |l| + |rest|] == rest
  {
    var enc := [|l| % 256] + l + rest;
    assert pkt[s] == enc[0];
    forall i | 0 <= i < |l| ensures pkt[s + 1 + i] == l[i] {
      assert pkt[s + 1 + i] == enc[1 + i];
    }
    forall i | 0 <= i < |rest| ensures pkt[s + 1 + |l| + i] == rest[i] {
      assert pkt[s + 1 + |l| + i] == enc[1 + |l| + i];
    }
  }

  /** Encoded labels with a zero byte behind them are a path. */
  lemma {:induction false} EncodedOnPath(pkt: seq<Byte>, s: nat, labels: seq<Label>) returns (path: Path)
    requires forall l :: l in labels ==> 1 <= |l| < 256 && |l| != COMPRESSION
    requires s + |EncodeLabels(labels)| < |pkt|
    requires pkt[s..s + |EncodeLabels(labels)|] == EncodeLabels(labels) && pkt[s + |EncodeLabels(labels)|] == 0
    ensures Leads(pkt, s, path) && NameOn(path) == Decoded(labels, false, false)
    decreases |labels|
  {
    path := End;
    if labels != [] {
      assert labels[0] in labels;
      EncodedHead(pkt, s, labels);
      var next := EncodedOnPath(pkt, s + 1 + |labels[0]|, labels[1..]);
      PieceOnPath(pkt, s, labels, next);
      path := Piece(labels[0], next);
    }
  }

  lemma PieceOnPath(pkt: seq<Byte>, s: nat, labels: seq<Label>, next: Path)
    requires labels != [] && LabelAt(pkt, s, labels[0]) && Leads(pkt, s + 1 + |labels[0]|, next)
    requires NameOn(next) == Decoded(labels[1..], false, false)
    ensures Leads(pkt, s, Piece(labels[0], next))
    ensures NameOn(Piece(labels[0], next)) == Decoded(labels, false, false)
  {
    assert labels == [labels[0]] + labels[1..];
  }

  lemma EncodedHead(pkt: seq<Byte>, s: nat, labels: seq<Label>)
    requires labels != [] && 1 <= |labels[0]| < 256 && |labels[0]| != COMPRESSION
    requires s + |EncodeLabels(labels)| < |pkt| && pkt[s..s + |EncodeLabels(labels)|] == EncodeLabels(labels)
    ensures LabelAt(pkt, s, labels[0]) && |EncodeLabels(labels)| == 1 + |labels[0]| + |EncodeLabels(labels[1..])|
    ensures var t := s + 1 + |labels[0]|; pkt[t..t + |EncodeLabels(labels[1..])|] == EncodeLabels(labels[1..])
  {
    EncodedPieces(pkt, s, labels[0], EncodeLabels(labels[1..]));
  }

  /** What the encoding of section 3.1 writes, the decompression reads back. */
  lemma {:induction false} DecodeEncoded(pkt: seq<Byte>, s: nat, labels: seq<Label>, budget: nat)
    requires forall l :: l in labels ==> ValidLabel(l)
    requires |EncodeLabels(labels)| <= budget
    requires s + |EncodeLabels(labels)| < |pkt|
    requires pkt[s..s + |EncodeLabels(labels)|] == EncodeLabels(labels) && pkt[s + |EncodeLabels(labels)|] == 0
    ensures Decode(pkt, s, budget) == Some(Decoded(labels, false, false))
    decreases |labels|
  {
    if labels != [] {
      var l, tail := labels[0], labels[1..];
      assert ValidLabel(l) && labels == [l] + tail;
      EncodeCons(l, tail);
      EncodedPieces(pkt, s, l, EncodeLabels(tail));
      DecodeEncoded(pkt, s + 1 + |l|, tail, budget - (|l| + 1));
      DecodeLabel(pkt, s, l, budget);
    }
  }

  /** A pointer to `target`, its two high bits set. */
  ghost predicate PointerAt(pkt: seq<Byte>, s: nat, target: nat) {
    s + 2 <= |pkt| && target < 16384 && pkt[s] == 192 + target / 256 && pkt[s + 1] == target % 256
  }

  lemma DecodePointer(pkt: seq<Byte>, s: nat, target: nat, budget: nat, d: Decoded)
    requires PointerAt(pkt, s, target) && target < s && Decode(pkt, target, budget) == Some(d)
    ensures Decode(pkt, s, budget) == Some(Through(target, d))
  {
    assert U16(pkt[s] - 0xC0, pkt[s + 1]) == target;
  }

  /** The encoding of a label and others, found in a packet. */
  lemma HeadEncoded(pkt: seq<Byte>, p: nat, s: nat, l: Label, tail: seq<Label>)
    requires 1 <= |l| <= 63 && s == p + |EncodeLabels([l] + tail)| <= |pkt| && pkt[p..s] == EncodeLabels([l] + tail)
    ensures |EncodeLabels([l] + tail)| == 1 + |l| + |EncodeLabels(tail)|
    ensures pkt[p] == |l| && pkt[p + 1..p + 1 + |l|] == l && pkt[p + 1 + |l|..s] == EncodeLabels(tail)
  {
    EncodeCons(l, tail);
    EncodedPieces(pkt, p, l, EncodeLabels(tail));
  }

  /** Labels in front of a name that decodes. */
  lemma {:induction false} DecodeLabels(pkt: seq<Byte>, p: nat, s: nat, labels: seq<Label>, budget: nat, all: nat,
                                        d: Decoded)
    requires forall l :: l in labels ==> 1 <= |l| <= 63
    requires s == p + |EncodeLabels(labels)| <= |pkt| && pkt[p..s] == EncodeLabels(labels)
    requires Decode(pkt, s, budget) == Some(d) && all == |EncodeLabels(labels)| + budget
    ensures Decode(pkt, p, all) == Some(d.(labels := labels + d.labels))
    decreases |labels|
  {
    if labels == [] {
      assert labels + d.labels == d.labels;
    } else {
      var l, tail := labels[0], labels[1..];
      assert l in labels && labels == [l] + tail;
      var t, rest := SecondLabel(pkt, p, s, l, tail, budget, all);
      DecodeLabels(pkt, t, s, tail, budget, rest, d);
      Assoc([l], tail, d.labels);
      DecodeFront(pkt, p, t, l, rest, all, d.(labels := tail + d.labels));
    }
  }

  /** Where the second label lies, and the budget left for it. */
  lemma SecondLabel(pkt: seq<Byte>, p: nat, s: nat, l: Label, tail: seq<Label>, budget: nat, all: nat)
    returns (t: nat, rest: nat)
    requires 1 <= |l| <= 63 && s == p + |EncodeLabels([l] + tail)| <= |pkt| && pkt[p..s] == EncodeLabels([l] + tail)
    requires all == |EncodeLabels([l] + tail)| + budget
    ensures LabelAt(pkt, p, l) && t == p + 1 + |l| && s == t + |EncodeLabels(tail)|
    ensures pkt[t..s] == EncodeLabels(tail)
    ensures rest == |EncodeLabels(tail)| + budget && all == 1 + |l| + rest
  {
    HeadEncoded(pkt, p, s, l, tail);
    t, rest := p + 1 + |l|, |EncodeLabels(tail)| + budget;
  }

  lemma DecodeFront(pkt: seq<Byte>, s: nat, t: nat, l: Label, budget: nat, all: nat, d: Decoded)
    requires 1 <= |l| <= 63 && LabelAt(pkt, s, l) && t == s + 1 + |l|
    requires Decode(pkt, t, budget) == Some(d) && all == 1 + |l| + budget
    ensures Decode(pkt, s, all) == Some(d.(labels := [l] + d.labels))
  {
    DecodeLabel(pkt, s, l, all);
  }

  /** Compression: labels and then a pointer (section 4.1.4) to where another name decodes stand for the labels
      followed by that name's. */
  lemma DecodeCompressed(pkt: seq<Byte>, p: nat, s: nat, labels: seq<Label>, target: nat, budget: nat, all: nat,
                         d: Decoded)
    requires forall l :: l in labels ==> 1 <= |l| <= 63
    requires s == p + |EncodeLabels(labels)| <= |pkt| && pkt[p..s] == EncodeLabels(labels)
    requires PointerAt(pkt, s, target) && target < s && all == |EncodeLabels(labels)| + budget
    requires Decode(pkt, target, budget) == Some(d)
    ensures Decode(pkt, p, all) ==
              Some(Decoded(labels + d.labels, d.far || target >= 256, d.viaPointer || d.labels == []))
  {
    var e := Through(target, d);
    assert Decode(pkt, s, budget) == Some(e) by {
      DecodePointer(pkt, s, target, budget, d);
    }
    DecodeLabels(pkt, p, s, labels, budget, all, e);
  }

  /** No name starts behind the packet, at a byte from 64 to 191, or at a pointer that is cut off or leads
      nowhere earlier. */
  lemma DecodeRefuses(pkt: seq<Byte>, s: nat, budget: nat)
    ensures s >= |pkt| ==> Decode(pkt, s, budget) == None
    ensures s < |pkt| && 64 <= pkt[s] < 192 ==> Decode(pkt, s, budget) == None
    ensures s + 1 == |pkt| && pkt[s] >= 192 ==> Decode(pkt, s, budget) == None
    ensures s + 1 < |pkt| && pkt[s] >= 192 && (pkt[s] - 192) as int * 256 + pkt[s + 1] >= s ==>
              Decode(pkt, s, budget) == None
  {
  }
}
