/** Responses by section 4.1 of RFC 1035, and what the answer walk finds in them. */
module DnsMessage {
  import opened Sequences
  import opened Wrappers
  import opened Octets
  import opened DomainNames
  import opened DnsEncoder
  import opened DnsAnswer

  /** The owner name of a record: a compression pointer below offset 256, or labels in full. */
  datatype Owner = Compressed(target: Byte) | Plain(labels: seq<Label>)

  datatype Record = Record(owner: Owner, rtype: nat, rclass: nat, ttl: seq<Byte>, rdata: seq<Byte>)

  /** Labels the walk can skip: no length byte and no content byte is zero. */
  ghost predicate PlainName(labels: seq<Label>) {
    forall l :: l in labels ==> ValidLabel(l) && 0 !in l
  }

  ghost predicate ValidRecord(r: Record) {
    && (r.owner.Plain? ==> PlainName(r.owner.labels))
    && r.rtype < 0x10000 && r.rclass < 0x10000 && |r.ttl| == 4 && |r.rdata| < 0x10000
  }

  function OwnerBytes(o: Owner): (s: seq<Byte>)
    ensures |s| >= 1
  {
    match o
    case Compressed(target) => [COMPRESSION, target]
    case Plain(labels) => EncodeLabels(labels) + [0]
  }

  function Fields(r: Record): (s: seq<Byte>)
    requires r.rtype < 0x10000 && r.rclass < 0x10000 && |r.ttl| == 4 && |r.rdata| < 0x10000
    ensures |s| == 10
  {
    PutU16(r.rtype) + PutU16(r.rclass) + r.ttl + PutU16(|r.rdata|)
  }

  /** A resource record (section 4.1.3). */
  function RecordBytes(r: Record): (s: seq<Byte>)
    requires ValidRecord(r)
    ensures |s| == |OwnerBytes(r.owner)| + 10 + |r.rdata|
  {
    OwnerBytes(r.owner) + Fields(r) + r.rdata
  }

  ghost predicate ValidRecords(rs: seq<Record>) {
    forall r :: r in rs ==> ValidRecord(r)
  }

  function Records(rs: seq<Record>): seq<Byte>
    requires ValidRecords(rs)
  {
    if rs == [] then [] else RecordBytes(rs[0]) + Records(rs[1..])
  }

  /** The answer of a record that is no CNAME. */
  function Decided(p: nat, r: Record, qtype: Byte): Found {
    if r.rtype != qtype then Ignored
    else if qtype == MX_RECORD && |r.rdata| >= 3 then Exchange(p + |OwnerBytes(r.owner)| + 12)
    else if qtype == A_RECORD && |r.rdata| >= 4 then Address(r.rdata[..4])
    else Ignored
  }

  /** The answer a list of records gives, the first one lying at offset `p`: leading CNAMEs are
      followed, and the first other record decides. */
  function Answer(p: nat, rs: seq<Record>, qtype: Byte): Found
    requires ValidRecords(rs)
    decreases |rs|
  {
    if rs == [] then Ignored
    else if rs[0].rtype == CNAME_RECORD then Answer(p + |RecordBytes(rs[0])|, rs[1..], qtype)
    else Decided(p, rs[0], qtype)
  }

  /** How many bytes follow the fixed fields of the first record. */
  function Rest(rs: seq<Record>, trail: seq<Byte>): nat
    requires rs != [] && ValidRecords(rs)
  {
    |rs[0].rdata| + |Records(rs[1..]) + trail|
  }

  /** An exchange record too short for a preference and a name, that the walk still looks at. */
  predicate ShortExchange(r: Record, rest: nat) {
    r.rtype == MX_RECORD && |r.rdata| < 3 && rest > 0 && !(rest == 1 && |OwnerBytes(r.owner)| == 1)
  }

  /** A record without data at the end of the packet that reads as an exchange record one byte early. */
  predicate ShiftedExchange(r: Record, rest: nat)
    requires |r.ttl| == 4
  {
    rest == 0 && |OwnerBytes(r.owner)| > 2 && r.rtype / 256 == MX_RECORD && r.ttl[3] == 0
  }

  /** Where the walk sees the name of an exchange that `r` does not hold. */
  function MisreadIn(p: nat, r: Record, rest: nat): Option<nat>
    requires |r.ttl| == 4
  {
    if ShortExchange(r, rest) then Some(p + |OwnerBytes(r.owner)| + 12)
    else if ShiftedExchange(r, rest) then Some(p + |OwnerBytes(r.owner)| + 11)
    else None
  }

  /** The same in a list, where the first record that is no CNAME decides. */
  function Misread(p: nat, rs: seq<Record>, trail: seq<Byte>): Option<nat>
    requires ValidRecords(rs)
    decreases |rs|
  {
    if rs == [] then None
    else
      assert ValidRecord(rs[0]);
      if rs[0].rtype == CNAME_RECORD then Misread(p + |RecordBytes(rs[0])|, rs[1..], trail)
      else MisreadIn(p, rs[0], Rest(rs, trail))
  }

  function SeenIn(p: nat, r: Record, rest: nat, qtype: Byte): Found
    requires |r.ttl| == 4
  {
    if qtype == MX_RECORD && MisreadIn(p, r, rest).Some? then Exchange(MisreadIn(p, r, rest).value)
    else Decided(p, r, qtype)
  }

  /** What the walk sees in a list of records. */
  function Seen(p: nat, rs: seq<Record>, trail: seq<Byte>, qtype: Byte): Found
    requires ValidRecords(rs)
  {
    if qtype == MX_RECORD && Misread(p, rs, trail).Some? then Exchange(Misread(p, rs, trail).value)
    else Answer(p, rs, qtype)
  }

  lemma SeenHead(p: nat, rs: seq<Record>, trail: seq<Byte>, qtype: Byte)
    requires rs != [] && ValidRecords(rs) && ValidRecord(rs[0]) && rs[0].rtype != CNAME_RECORD
    ensures Seen(p, rs, trail, qtype) == SeenIn(p, rs[0], Rest(rs, trail), qtype)
  {
  }

  lemma SeenNothing(p: nat, rs: seq<Record>, trail: seq<Byte>, qtype: Byte)
    requires rs == []
    ensures Seen(p, rs, trail, qtype) == Ignored
  {
  }

  lemma SeenCname(p: nat, rs: seq<Record>, trail: seq<Byte>, qtype: Byte)
    requires rs != [] && ValidRecords(rs) && rs[0].rtype == CNAME_RECORD && ValidRecord(rs[0])
    ensures ValidRecords(rs[1..]) && Seen(p, rs, trail, qtype) == Seen(NextOf(p, rs[0]), rs[1..], trail, qtype)
  {
    AnswerCname(p, rs, qtype);
  }

  /** What is misread is never an answer. */
  lemma {:induction false} MisreadIsNoAnswer(p: nat, rs: seq<Record>, trail: seq<Byte>)
    requires ValidRecords(rs) && Misread(p, rs, trail).Some?
    ensures Answer(p, rs, MX_RECORD) == Ignored
    decreases |rs|
  {
    if rs[0].rtype == CNAME_RECORD {
      MisreadIsNoAnswer(p + |RecordBytes(rs[0])|, rs[1..], trail);
    }
  }

  /** The record `r` lies at offset `p`, and `rest` is all that follows it. */
  ghost predicate LiesAt(m: Memory, p: nat, r: Record, rest: seq<Byte>) {
    ValidRecord(r) && p <= |m.pkt| && m.pkt[p..] == RecordBytes(r) + rest
  }

  lemma RecordParts(m: Memory, p: nat, r: Record, rest: seq<Byte>)
    requires LiesAt(m, p, r, rest)
    ensures ValidRecord(r)
    ensures m.pkt[p..] == OwnerBytes(r.owner) + (Fields(r) + (r.rdata + rest))
  {
    Regroup(OwnerBytes(r.owner), Fields(r), r.rdata, rest);
  }

  lemma PartsBehind(pkt: seq<Byte>, p: nat, a: seq<Byte>, b: seq<Byte>, c: seq<Byte>, d: seq<Byte>)
    requires p <= |pkt| && pkt[p..] == a + (b + (c + d))
    ensures |pkt| == p + |a| + |b| + |c| + |d| && pkt[p..p + |a|] == a
    ensures pkt[p + |a|..p + |a| + |b|] == b && pkt[p + |a| + |b|..p + |a| + |b| + |c|] == c
    ensures pkt[p + |a| + |b| + |c|..] == d
  {
    var tail := pkt[p..];
    assert |tail| == |a| + |b| + |c| + |d| && tail[..|a|] == a && tail[|a|..|a| + |b|] == b;
    assert tail[|a| + |b|..|a| + |b| + |c|] == c && tail[|a| + |b| + |c|..] == d;
  }

  lemma FieldsAt(m: Memory, o: nat, r: Record)
    requires ValidRecord(r) && o + 10 <= |m.pkt| && m.pkt[o..o + 10] == Fields(r)
    ensures m.U16At(o) == r.rtype && m.U16At(o + 8) == |r.rdata|
    ensures m.At(o) == r.rtype / 256 && m.At(o + 7) == r.ttl[3] && m.At(o + 8) == |r.rdata| / 256
  {
    assert forall i :: 0 <= i < 10 ==> m.At(o + i) == m.pkt[o..o + 10][i] == Fields(r)[i];
    assert m.At(o + 0) == Fields(r)[0];
  }

  lemma FieldsRead(m: Memory, p: nat, r: Record, rest: seq<Byte>)
    requires LiesAt(m, p, r, rest)
    ensures var o := p + |OwnerBytes(r.owner)|;
            && o + 10 + |r.rdata| + |rest| == |m.pkt|
            && m.U16At(o) == r.rtype && m.U16At(o + 8) == |r.rdata|
            && m.pkt[o + 10..o + 10 + |r.rdata|] == r.rdata
            && m.pkt[o + 10 + |r.rdata|..] == rest
  {
    RecordParts(m, p, r, rest);
    PartsBehind(m.pkt, p, OwnerBytes(r.owner), Fields(r), r.rdata, rest);
    FieldsAt(m, p + |OwnerBytes(r.owner)|, r);
  }

  lemma OwnerRead(m: Memory, p: nat, r: Record, rest: seq<Byte>)
    requires LiesAt(m, p, r, rest)
    ensures p + |OwnerBytes(r.owner)| <= |m.pkt|
    ensures forall i :: 0 <= i < |OwnerBytes(r.owner)| ==> m.At(p + i) == OwnerBytes(r.owner)[i]
  {
    RecordParts(m, p, r, rest);
    PartsBehind(m.pkt, p, OwnerBytes(r.owner), Fields(r), r.rdata, rest);
    SliceRead(m, p, OwnerBytes(r.owner));
  }

  lemma SliceRead(m: Memory, p: nat, bytes: seq<Byte>)
    requires p + |bytes| <= |m.pkt| && m.pkt[p..p + |bytes|] == bytes
    ensures forall i :: 0 <= i < |bytes| ==> m.At(p + i) == bytes[i]
  {
    forall i | 0 <= i < |bytes| ensures m.At(p + i) == bytes[i] {
      assert m.pkt[p..p + |bytes|][i] == m.pkt[p + i];
    }
  }

  lemma {:induction false} NoZeroInside(labels: seq<Label>)
    requires PlainName(labels)
    ensures 0 !in EncodeLabels(labels)
    ensures labels != [] ==> |EncodeLabels(labels)| >= 2 && EncodeLabels(labels)[0] < 64
  {
    if labels != [] {
      assert labels[0] in labels && ValidLabel(labels[0]);
      NoZeroInside(labels[1..]);
    }
  }

  lemma {:induction false} NextZeroIs(m: Memory, p: nat, z: nat, limit: nat)
    requires p <= z <= limit
    requires forall j :: p <= j < z ==> m.At(j) != 0
    requires z == limit || m.At(z) == 0
    ensures NextZero(m, p, limit) == z
    decreases z - p
  {
    if p < z {
      NextZeroIs(m, p + 1, z, limit);
    }
  }

  /** The walk finds the record's layout, two bytes before its type, when at least one byte follows
      the fixed fields. */
  lemma OwnerSkipped(m: Memory, p: nat, r: Record, rest: seq<Byte>)
    requires LiesAt(m, p, r, rest) && 1 <= p && p + 12 < |m.pkt|
    requires |r.rdata| + |rest| > 0
    ensures RecordAt(m, p) == p + |OwnerBytes(r.owner)| - 2
  {
    FieldsRead(m, p, r, rest);
    OwnerRead(m, p, r, rest);
    assert m.At(p + 0) == OwnerBytes(r.owner)[0];
    if r.owner.Plain? {
      PlainOwnerEnds(m, p, r.owner);
    }
  }

  lemma PlainOwnerEnds(m: Memory, p: nat, owner: Owner)
    requires owner.Plain? && PlainName(owner.labels) && 1 <= p && p + 12 < |m.pkt|
    requires p + |OwnerBytes(owner)| + 11 <= |m.pkt|
    requires forall i :: 0 <= i < |OwnerBytes(owner)| ==> m.At(p + i) == OwnerBytes(owner)[i]
    ensures RecordAt(m, p) == p + |OwnerBytes(owner)| - 2
  {
    NoZeroInside(owner.labels);
    var z := p + |EncodeLabels(owner.labels)|;
    assert m.At(p + 0) == OwnerBytes(owner)[0] && m.At(p + (z - p)) == OwnerBytes(owner)[z - p];
    forall j | p <= j < z ensures m.At(j) != 0 {
      assert m.At(p + (j - p)) == OwnerBytes(owner)[j - p] == EncodeLabels(owner.labels)[j - p];
    }
    NextZeroIs(m, p, z, |m.pkt| - 12);
  }

  /** The skip over an uncompressed owner stops at `limit` if that comes first. */
  lemma PlainOwnerSkipped(m: Memory, p: nat, owner: Owner, limit: nat)
    requires owner.Plain? && PlainName(owner.labels) && 1 <= p < limit == |m.pkt| - 12
    requires limit < p + |OwnerBytes(owner)|
    requires forall i :: 0 <= i < |OwnerBytes(owner)| ==> m.At(p + i) == OwnerBytes(owner)[i]
    ensures RecordAt(m, p) == limit - 1
  {
    NoZeroInside(owner.labels);
    assert m.At(p + 0) == OwnerBytes(owner)[0];
    forall j | p <= j < limit ensures m.At(j) != 0 {
      assert m.At(p + (j - p)) == OwnerBytes(owner)[j - p] == EncodeLabels(owner.labels)[j - p];
    }
    NextZeroIs(m, p, limit, limit);
  }

  /** The bytes the walk reads of a record: its owner at `p`, the fixed fields from `o` on. */
  ghost predicate BytesAt(m: Memory, p: nat, o: nat, r: Record) {
    && ValidRecord(r) && o == p + |OwnerBytes(r.owner)|
    && (forall i :: 0 <= i < |OwnerBytes(r.owner)| ==> m.At(p + i) == OwnerBytes(r.owner)[i])
    && m.At(o) == r.rtype / 256 && m.At(o + 7) == r.ttl[3] && m.At(o + 8) == |r.rdata| / 256
  }

  lemma RecordBytesAt(m: Memory, p: nat, o: nat, r: Record)
    requires ValidRecord(r) && o == p + |OwnerBytes(r.owner)| && o + 10 <= |m.pkt|
    requires m.pkt[p..o] == OwnerBytes(r.owner) && m.pkt[o..o + 10] == Fields(r)
    ensures BytesAt(m, p, o, r)
  {
    SliceRead(m, p, OwnerBytes(r.owner));
    FieldsAt(m, o, r);
  }

  lemma RecordRead(m: Memory, p: nat, o: nat, r: Record, rest: seq<Byte>)
    requires LiesAt(m, p, r, rest) && o == p + |OwnerBytes(r.owner)|
    ensures o + 10 <= |m.pkt| && BytesAt(m, p, o, r)
  {
    RecordParts(m, p, r, rest);
    PartsBehind(m.pkt, p, OwnerBytes(r.owner), Fields(r), r.rdata, rest);
    RecordBytesAt(m, p, o, r);
  }

  /** An uncompressed owner whose record ends the packet without data: the walk stops one byte too
      early and reads shifted fields. */
  lemma ShiftedRecordScanned(m: Memory, p: nat, r: Record, o: nat, qtype: Byte)
    requires BytesAt(m, p, o, r) && r.rdata == [] && 1 <= p && p + 12 < |m.pkt| == o + 10
    ensures |OwnerBytes(r.owner)| > 2
    ensures Scan(m, p, qtype) == if qtype == MX_RECORD && ShiftedExchange(r, 0)
                                 then Exchange(p + |OwnerBytes(r.owner)| + 11) else Ignored
  {
    PlainOwnerSkipped(m, p, r.owner, o - 2);
    assert m.At(p + (o - 1 - p)) == OwnerBytes(r.owner)[o - 1 - p];
    assert m.U16At(o - 1) == r.rtype / 256 && m.U16At(o + 7) == U16(r.ttl[3], 0);
    ShiftedScan(m, p, o, qtype);
  }

  lemma ShiftedScan(m: Memory, p: nat, o: nat, qtype: Byte)
    requires 1 <= p && p + 12 < |m.pkt| == o + 10 && RecordAt(m, p) == o - 3 && m.U16At(o + 7) % 256 == 0
    ensures Scan(m, p, qtype) == if qtype == MX_RECORD && m.U16At(o - 1) == MX_RECORD && m.U16At(o + 7) == 0
                                 then Exchange(o + 11) else Ignored
  {
    ScanTurn(m, p, qtype);
    if m.U16At(o - 1) == CNAME_RECORD {
      ScanEnd(m, o + 9 + m.U16At(o + 7), qtype);
    }
  }

  /** A record with too little after it to be looked at: nothing is seen in it. */
  lemma LastSeen(p: nat, rs: seq<Record>, trail: seq<Byte>, qtype: Byte)
    requires rs != [] && ValidRecords(rs) && Rest(rs, trail) < 11 && ValidRecord(rs[0])
    requires |OwnerBytes(rs[0].owner)| + Rest(rs, trail) <= 2
    ensures Seen(p, rs, trail, qtype) == Ignored
  {
    OnlyRecord(rs, trail);
    if rs[0].rtype == CNAME_RECORD {
      SeenCname(p, rs, trail, qtype);
      SeenNothing(NextOf(p, rs[0]), rs[1..], trail, qtype);
    } else {
      SeenHead(p, rs, trail, qtype);
    }
  }

  lemma OnlyRecord(rs: seq<Record>, trail: seq<Byte>)
    requires rs != [] && ValidRecords(rs) && Rest(rs, trail) < 11
    ensures rs[1..] == []
  {
  }

  /** The walk has found the record `r` at `p`, its fixed fields starting at `o`. */
  ghost predicate Laid(m: Memory, p: nat, o: nat, r: Record) {
    && 1 <= p && p + 12 < |m.pkt| && 2 <= o && o + 10 + |r.rdata| <= |m.pkt|
    && RecordAt(m, p) == o - 2 && m.U16At(o) == r.rtype && m.U16At(o + 8) == |r.rdata|
    && m.pkt[o + 10..o + 10 + |r.rdata|] == r.rdata
  }

  lemma Locate(m: Memory, p: nat, r: Record, rest: seq<Byte>) returns (o: nat)
    requires LiesAt(m, p, r, rest) && 1 <= p && p + 12 < |m.pkt| && |r.rdata| + |rest| > 0
    ensures o == p + |OwnerBytes(r.owner)| && Laid(m, p, o, r) && m.pkt[o + 10 + |r.rdata|..] == rest
  {
    FieldsRead(m, p, r, rest);
    OwnerSkipped(m, p, r, rest);
    o := p + |OwnerBytes(r.owner)|;
  }

  lemma LaidTurn(m: Memory, p: nat, o: nat, r: Record, qtype: Byte)
    requires Laid(m, p, o, r) && r.rtype == CNAME_RECORD
    ensures TurnAt(m, p, qtype) == Follow(o + 10 + |r.rdata|)
  {
  }

  /** What the walk extracts from a record whose fixed fields start at `o`. */
  function FoundIn(o: nat, r: Record, qtype: Byte): Found {
    if r.rtype != qtype then Ignored
    else if qtype == MX_RECORD then Exchange(o + 12)
    else if qtype == A_RECORD && |r.rdata| >= 4 then Address(r.rdata[..4])
    else Ignored
  }

  lemma FoundLaid(m: Memory, p: nat, o: nat, r: Record, qtype: Byte)
    requires Laid(m, p, o, r) && r.rtype != CNAME_RECORD
    ensures Scan(m, p, qtype) == FoundIn(o, r, qtype)
  {
    LaidFound(m, p, o, r, qtype);
    ScanTurn(m, p, qtype);
  }

  lemma LaidFound(m: Memory, p: nat, o: nat, r: Record, qtype: Byte)
    requires Laid(m, p, o, r) && r.rtype != CNAME_RECORD
    ensures TurnAt(m, p, qtype) == Done(FoundIn(o, r, qtype))
  {
    if |r.rdata| >= 4 {
      FrontOfSlice(m.pkt, o + 10, |r.rdata|);
    }
  }

  lemma FrontOfSlice(pkt: seq<Byte>, a: nat, n: nat)
    requires a + n <= |pkt| && n >= 4
    ensures pkt[a..a + n][..4] == pkt[a..a + 4]
  {
  }

  lemma AnswerCname(p: nat, rs: seq<Record>, qtype: Byte)
    requires rs != [] && ValidRecords(rs) && rs[0].rtype == CNAME_RECORD && ValidRecord(rs[0])
    ensures ValidRecords(rs[1..]) && Answer(p, rs, qtype) == Answer(NextOf(p, rs[0]), rs[1..], qtype)
  {
  }

  lemma SplitRecords(rs: seq<Record>, trail: seq<Byte>)
    requires rs != [] && ValidRecords(rs)
    ensures ValidRecord(rs[0]) && ValidRecords(rs[1..])
    ensures Records(rs) + trail == RecordBytes(rs[0]) + (Records(rs[1..]) + trail)
  {
    assert rs[0] in rs && forall r :: r in rs[1..] ==> r in rs;
    Assoc(RecordBytes(rs[0]), Records(rs[1..]), trail);
  }

  lemma LaterRecord(rs: seq<Record>)
    requires rs != [] && rs[0].rtype == CNAME_RECORD
    requires exists r :: r in rs && r.rtype != CNAME_RECORD
    ensures exists r :: r in rs[1..] && r.rtype != CNAME_RECORD
  {
    var r :| r in rs && r.rtype != CNAME_RECORD;
    assert r in rs[1..];
  }

  ghost predicate Ended(rs: seq<Record>, trail: seq<Byte>) {
    trail == [] || exists r :: r in rs && r.rtype != CNAME_RECORD
  }

  /** Records `rs` and then `trail` are all there is from offset `p` on. */
  ghost predicate ListAt(m: Memory, p: nat, rs: seq<Record>, trail: seq<Byte>) {
    ValidRecords(rs) && 1 <= p <= |m.pkt| && m.pkt[p..] == Records(rs) + trail
  }

  /** The walk follows the first record: it is a CNAME with something behind its fixed fields. */
  ghost predicate Followed(m: Memory, p: nat, rs: seq<Record>, trail: seq<Byte>)
    requires rs != [] && ListAt(m, p, rs, trail)
  {
    p + 12 < |m.pkt| && |rs[0].rdata| + |Records(rs[1..]) + trail| > 0 && rs[0].rtype == CNAME_RECORD
  }

  lemma DatalessEnd(m: Memory, p: nat, o: nat, rs: seq<Record>, trail: seq<Byte>, qtype: Byte)
    requires rs != [] && ValidRecords(rs) && Rest(rs, trail) == 0 && rs[0].rdata == [] && rs[1..] == []
    requires 1 <= p && p + 12 < |m.pkt| == o + 10 && BytesAt(m, p, o, rs[0])
    ensures Scan(m, p, qtype) == Seen(p, rs, trail, qtype)
  {
    ShiftedRecordScanned(m, p, rs[0], o, qtype);
    DatalessSeen(p, rs, trail, qtype);
  }

  lemma DatalessRead(m: Memory, p: nat, o: nat, rs: seq<Record>, trail: seq<Byte>)
    requires rs != [] && ListAt(m, p, rs, trail) && Rest(rs, trail) == 0 && o == FieldsOf(p, rs[0])
    ensures |m.pkt| == o + 10 && BytesAt(m, p, o, rs[0]) && rs[0].rdata == [] && rs[1..] == []
  {
    SplitRecords(rs, trail);
    RestSeen(m, p, rs, trail);
    RecordRead(m, p, o, rs[0], Records(rs[1..]) + trail);
    OnlyRecord(rs, trail);
  }

  lemma DatalessSeen(p: nat, rs: seq<Record>, trail: seq<Byte>, qtype: Byte)
    requires rs != [] && ValidRecords(rs) && ValidRecord(rs[0]) && Rest(rs, trail) == 0 && rs[1..] == []
    ensures Seen(p, rs, trail, qtype) == if qtype == MX_RECORD && ShiftedExchange(rs[0], 0)
                                         then Exchange(p + |OwnerBytes(rs[0].owner)| + 11) else Ignored
  {
    if rs[0].rtype == CNAME_RECORD {
      SeenCname(p, rs, trail, qtype);
      SeenNothing(NextOf(p, rs[0]), rs[1..], trail, qtype);
    } else {
      SeenHead(p, rs, trail, qtype);
    }
  }

  /** The first record is no CNAME and has something behind its fixed fields. */
  lemma DecidedScan(m: Memory, p: nat, rs: seq<Record>, trail: seq<Byte>, qtype: Byte)
    requires rs != [] && ListAt(m, p, rs, trail) && p + 12 < |m.pkt| && Rest(rs, trail) > 0
    requires rs[0].rtype != CNAME_RECORD
    ensures Scan(m, p, qtype) == Seen(p, rs, trail, qtype)
  {
    LaidFirst(m, p, rs, trail);
    RestSeen(m, p, rs, trail);
    FoundLaid(m, p, FieldsOf(p, rs[0]), rs[0], qtype);
    LaidSeen(p, rs[0], Rest(rs, trail), qtype);
    SeenHead(p, rs, trail, qtype);
  }

  lemma RestSeen(m: Memory, p: nat, rs: seq<Record>, trail: seq<Byte>)
    requires rs != [] && ListAt(m, p, rs, trail)
    ensures ValidRecord(rs[0]) && |m.pkt| == FieldsOf(p, rs[0]) + 10 + Rest(rs, trail)
  {
    SplitRecords(rs, trail);
    FieldsRead(m, p, rs[0], Records(rs[1..]) + trail);
  }

  lemma LaidSeen(p: nat, r: Record, rest: nat, qtype: Byte)
    requires |r.ttl| == 4 && |r.rdata| <= rest && rest > 0 && |OwnerBytes(r.owner)| + rest > 2
    ensures SeenIn(p, r, rest, qtype) == FoundIn(FieldsOf(p, r), r, qtype)
  {
  }

  /** Where the fixed fields of the first record start, and where the second record does. */
  function FieldsOf(p: nat, r: Record): nat {
    p + |OwnerBytes(r.owner)|
  }

  function NextOf(p: nat, r: Record): nat {
    FieldsOf(p, r) + 10 + |r.rdata|
  }

  lemma LaidFirst(m: Memory, p: nat, rs: seq<Record>, trail: seq<Byte>)
    requires rs != [] && ListAt(m, p, rs, trail) && p + 12 < |m.pkt| && Rest(rs, trail) > 0
    ensures Laid(m, p, FieldsOf(p, rs[0]), rs[0])
  {
    SplitRecords(rs, trail);
    var o := Locate(m, p, rs[0], Records(rs[1..]) + trail);
  }

  lemma FollowedTurn(m: Memory, p: nat, rs: seq<Record>, trail: seq<Byte>, qtype: Byte)
    requires rs != [] && ListAt(m, p, rs, trail) && Followed(m, p, rs, trail)
    ensures TurnAt(m, p, qtype) == Follow(NextOf(p, rs[0]))
  {
    LaidFirst(m, p, rs, trail);
    LaidTurn(m, p, FieldsOf(p, rs[0]), rs[0], qtype);
  }

  lemma ListNext(m: Memory, p: nat, rs: seq<Record>, trail: seq<Byte>)
    requires rs != [] && ListAt(m, p, rs, trail)
    ensures ValidRecord(rs[0]) && ListAt(m, NextOf(p, rs[0]), rs[1..], trail)
  {
    SplitRecords(rs, trail);
    FieldsRead(m, p, rs[0], Records(rs[1..]) + trail);
  }

  /** The walk over any list of records in section 4.1.3 format, whatever bytes come after them, ends
      with what `Seen` says. When all records are CNAMEs, nothing may come after them. */
  lemma {:induction false} ScanRecords(m: Memory, p: nat, rs: seq<Record>, trail: seq<Byte>, qtype: Byte)
    requires ListAt(m, p, rs, trail) && Ended(rs, trail)
    ensures Scan(m, p, qtype) == Seen(p, rs, trail, qtype)
    decreases |rs|
  {
    if rs == [] {
      assert p == |m.pkt|;
    } else if Followed(m, p, rs, trail) {
      FollowedTurn(m, p, rs, trail, qtype);
      ListNext(m, p, rs, trail);
      SeenCname(p, rs, trail, qtype);
      TailReady(rs, trail);
      ScanRecords(m, NextOf(p, rs[0]), rs[1..], trail, qtype);
    } else if p + 12 >= |m.pkt| {
      RestSeen(m, p, rs, trail);
      ScanEnd(m, p, qtype);
      LastSeen(p, rs, trail, qtype);
    } else if Rest(rs, trail) == 0 {
      DatalessRead(m, p, FieldsOf(p, rs[0]), rs, trail);
      DatalessEnd(m, p, FieldsOf(p, rs[0]), rs, trail, qtype);
    } else {
      DecidedScan(m, p, rs, trail, qtype);
    }
  }

  /** The walk gives the answer of the list if and only if no exchange is misread. */
  lemma ScanIsAnswerIff(m: Memory, p: nat, rs: seq<Record>, trail: seq<Byte>, qtype: Byte)
    requires ListAt(m, p, rs, trail) && Ended(rs, trail)
    ensures Scan(m, p, qtype) == Answer(p, rs, qtype) <==> !(qtype == MX_RECORD && Misread(p, rs, trail).Some?)
  {
    ScanRecords(m, p, rs, trail, qtype);
    if Misread(p, rs, trail).Some? {
      MisreadIsNoAnswer(p, rs, trail);
    }
  }

  /** How many bytes follow the fixed fields of the record that decides, the first one that is no CNAME. */
  function DecidingRest(rs: seq<Record>, trail: seq<Byte>): nat
    requires ValidRecords(rs)
    decreases |rs|
  {
    if rs == [] then 0
    else if rs[0].rtype == CNAME_RECORD then DecidingRest(rs[1..], trail)
    else Rest(rs, trail)
  }

  lemma {:induction false} SeenAt(p: nat, rs: seq<Record>, trail: seq<Byte>)
    requires ValidRecords(rs) && Seen(p, rs, trail, MX_RECORD).Exchange?
    ensures Seen(p, rs, trail, MX_RECORD).at < p + |Records(rs) + trail| <==> DecidingRest(rs, trail) > 2
    decreases |rs|
  {
    SplitRecords(rs, trail);
    if rs[0].rtype == CNAME_RECORD {
      SeenCname(p, rs, trail, MX_RECORD);
      SeenAt(NextOf(p, rs[0]), rs[1..], trail);
    }
  }

  /** An exchange name the walk finds starts inside the packet if and only if more than two bytes follow
      the fixed fields of the deciding record. */
  lemma ExchangeInsideIff(m: Memory, p: nat, rs: seq<Record>, trail: seq<Byte>)
    requires ListAt(m, p, rs, trail) && Ended(rs, trail) && Scan(m, p, MX_RECORD).Exchange?
    ensures Scan(m, p, MX_RECORD).at < |m.pkt| <==> DecidingRest(rs, trail) > 2
  {
    ScanRecords(m, p, rs, trail, MX_RECORD);
    SeenAt(p, rs, trail);
  }

  lemma TailReady(rs: seq<Record>, trail: seq<Byte>)
    requires rs != [] && rs[0].rtype == CNAME_RECORD && Ended(rs, trail)
    ensures Ended(rs[1..], trail)
  {
    if trail != [] {
      LaterRecord(rs);
    }
  }

  /** A response (section 4.1): header counts, one question, records, and further bytes. */
  datatype Response = Response(id: seq<Byte>, ancount: nat, others: seq<Byte>,
                               qname: seq<Label>, qtype: Byte, qclass: nat,
                               records: seq<Record>, trail: seq<Byte>)

  ghost predicate ValidResponse(r: Response) {
    && |r.id| == 4 && r.ancount < 0x10000 && |r.others| == 4 && r.qclass < 0x10000
    && PlainName(r.qname) && ValidRecords(r.records)
    && Ended(r.records, r.trail)
  }

  function ResponseHead(r: Response): seq<Byte>
    requires ValidResponse(r)
  {
    r.id + PutU16(1) + PutU16(r.ancount) + r.others
  }

  function ResponseBytes(r: Response): seq<Byte>
    requires ValidResponse(r)
  {
    ResponseHead(r) + EncodeLabels(r.qname) + QuestionTail(r) + (Records(r.records) + r.trail)
  }

  /** Where the first record of a response lies. */
  function FirstRecord(r: Response): nat {
    HEADER_LEN + |EncodeLabels(r.qname)| + 5
  }

  lemma QuestionRead(m: Memory, r: Response)
    requires ValidResponse(r) && m.pkt == ResponseBytes(r)
    ensures m.U16At(4) == 1 && m.U16At(6) == r.ancount && |m.pkt| >= FirstRecord(r)
    ensures NextZero(m, HEADER_LEN, |m.pkt|) == FirstRecord(r) - 5
    ensures m.U16At(FirstRecord(r) - 4) == r.qtype
    ensures m.pkt[FirstRecord(r)..] == Records(r.records) + r.trail
  {
    QuestionParts(m, r);
    HeadRead(m, r);
    QuestionNameRead(m, r.qname, HEADER_LEN, HEADER_LEN + |EncodeLabels(r.qname)|);
    SliceRead(m, FirstRecord(r) - 5, QuestionTail(r));
    assert m.At(FirstRecord(r) - 5 + 1) == QuestionTail(r)[1] && m.At(FirstRecord(r) - 5 + 2) == QuestionTail(r)[2];
  }

  /** What follows the name of the question, up to the first record. */
  function QuestionTail(r: Response): (s: seq<Byte>)
    requires r.qclass < 0x10000
    ensures |s| == 5 && s[0] == 0 && U16(s[1], s[2]) == r.qtype
  {
    [0] + PutU16(r.qtype) + PutU16(r.qclass)
  }

  lemma QuestionParts(m: Memory, r: Response)
    requires ValidResponse(r) && m.pkt == ResponseBytes(r)
    ensures |m.pkt| >= FirstRecord(r) && m.pkt[0..HEADER_LEN] == ResponseHead(r)
    ensures m.pkt[HEADER_LEN..HEADER_LEN + |EncodeLabels(r.qname)|] == EncodeLabels(r.qname)
    ensures m.pkt[FirstRecord(r) - 5..FirstRecord(r)] == QuestionTail(r)
    ensures m.pkt[FirstRecord(r)..] == Records(r.records) + r.trail
  {
    Regroup(ResponseHead(r), EncodeLabels(r.qname), QuestionTail(r), Records(r.records) + r.trail);
    assert m.pkt[0..] == m.pkt;
    PartsBehind(m.pkt, 0, ResponseHead(r), EncodeLabels(r.qname), QuestionTail(r), Records(r.records) + r.trail);
  }

  lemma QuestionNameRead(m: Memory, labels: seq<Label>, p: nat, z: nat)
    requires PlainName(labels) && z == p + |EncodeLabels(labels)| < |m.pkt|
    requires m.pkt[p..z] == EncodeLabels(labels) && m.pkt[z] == 0
    ensures NextZero(m, p, |m.pkt|) == z
  {
    NoZeroInside(labels);
    SliceRead(m, p, EncodeLabels(labels));
    forall j | p <= j < z ensures m.At(j) != 0 {
      assert m.At(p + (j - p)) == EncodeLabels(labels)[j - p];
    }
    NextZeroIs(m, p, z, |m.pkt|);
  }

  lemma HeadRead(m: Memory, r: Response)
    requires ValidResponse(r) && |m.pkt| >= HEADER_LEN && m.pkt[0..HEADER_LEN] == ResponseHead(r)
    ensures m.U16At(4) == 1 && m.U16At(6) == r.ancount
  {
    SliceRead(m, 0, ResponseHead(r));
    assert m.At(0 + 4) == ResponseHead(r)[4] && m.At(0 + 5) == ResponseHead(r)[5];
    assert m.At(0 + 6) == ResponseHead(r)[6] && m.At(0 + 7) == ResponseHead(r)[7];
  }

  /** What the walk does before the records, on any datagram; `z` is where the name of the question ends. With
      a question count other than 1 nothing is told; then an answer count of 0 tells that the name does not
      exist; then again nothing is told when the packet ends inside the question, or when the type asked
      for is not the query's. */
  lemma QuestionChecked(m: Memory, z: nat, qtype: Byte)
    requires 12 <= z <= |m.pkt| && (z == |m.pkt| || m.pkt[z] == 0)
    requires forall j :: 12 <= j < z ==> m.pkt[j] != 0
    ensures FindAnswer(m, qtype) ==
              if m.pkt[4..6] != [0, 1] then Ignored
              else if m.pkt[6..8] == [0, 0] then NoSuchName
              else if z + 5 > |m.pkt| || m.pkt[z + 1..z + 3] != [0, qtype] then Ignored
              else Scan(m, z + 5, qtype)
  {
    assert m.pkt[4..6] == [m.At(4), m.At(5)] && m.pkt[6..8] == [m.At(6), m.At(7)];
    forall j | 12 <= j < z ensures m.At(j) != 0 {
      assert m.pkt[j] != 0;
    }
    NextZeroIs(m, 12, z, |m.pkt|);
    if z + 5 <= |m.pkt| {
      assert m.pkt[z + 1..z + 3] == [m.At(z + 1), m.At(z + 2)];
    }
  }

  /** A datagram without a whole header tells at most that there are no answers, and that only if the bytes
      in the places of the two counts say so. */
  lemma ShortDatagram(m: Memory, qtype: Byte)
    requires |m.pkt| < 12
    ensures FindAnswer(m, qtype) == if m.At(4) == 0 && m.At(5) == 1 && m.At(6) == 0 && m.At(7) == 0
                                    then NoSuchName else Ignored
  {
    assert m.U16At(4) == m.At(4) * 256 + m.At(5) && m.U16At(6) == m.At(6) * 256 + m.At(7);
  }

  /** Only queries for addresses and mail exchanges are ever answered by records. */
  lemma {:induction false} OtherQueries(m: Memory, p: nat, qtype: Byte)
    requires 1 <= p && qtype != 1 && qtype != 15
    ensures Scan(m, p, qtype) == Ignored
    decreases |m.pkt| - p
  {
    ScanTurn(m, p, qtype);
    if TurnAt(m, p, qtype).Follow? {
      OtherQueries(m, TurnAt(m, p, qtype).next, qtype);
    }
  }

  /** Answer-walk correctness: on every response to our question, the walk ends with what is seen in its
      records, which is their answer if and only if no exchange is misread; with no answers announced,
      it reports that the name does not exist. */
  lemma WalkIsAnswer(m: Memory, r: Response)
    requires ValidResponse(r) && m.pkt == ResponseBytes(r)
    ensures r.ancount == 0 ==> FindAnswer(m, r.qtype) == NoSuchName
    ensures r.ancount != 0 ==> FindAnswer(m, r.qtype) == Seen(FirstRecord(r), r.records, r.trail, r.qtype)
    ensures r.ancount != 0 ==>
              (FindAnswer(m, r.qtype) == Answer(FirstRecord(r), r.records, r.qtype)
               <==> !(r.qtype == MX_RECORD && Misread(FirstRecord(r), r.records, r.trail).Some?))
  {
    QuestionRead(m, r);
    ScanRecords(m, FirstRecord(r), r.records, r.trail, r.qtype);
    ScanIsAnswerIff(m, FirstRecord(r), r.records, r.trail, r.qtype);
  }

  /** A response to a mail exchange query about the root; its only record, of "a", has type 0x0F00 and
      no data. */
  const DATALESS: seq<Byte> := [0, 0, 0x81, 0x80, 0, 1, 0, 1, 0, 0, 0, 0, 0, 0, 15, 0, 1,
                                1, 97, 0, 15, 0, 0, 1, 0, 0, 0, 0, 0, 0]

  lemma DatalessBytes(m: Memory)
    requires m.pkt == DATALESS
    ensures |m.pkt| == 30 && m.U16At(4) == 1 && m.U16At(6) == 1 && m.At(12) == 0 && m.U16At(13) == 15
    ensures m.At(17) == 1 && m.At(18) == 97 && m.U16At(19) == 15 && m.U16At(27) == 0
  {
    assert m.pkt[4] == 0 && m.pkt[5] == 1 && m.pkt[6] == 0 && m.pkt[7] == 1;
    assert m.pkt[12] == 0 && m.pkt[13] == 0 && m.pkt[14] == 15;
    assert m.pkt[17] == 1 && m.pkt[18] == 97 && m.pkt[19] == 0 && m.pkt[20] == 15 && m.pkt[27] == 0 && m.pkt[28] == 0;
  }

  /** The record is taken for an exchange record, with its name behind the end of the packet. */
  lemma DatalessMisread(m: Memory)
    requires m.pkt == DATALESS
    ensures FindAnswer(m, 15) == Exchange(31)
  {
    DatalessBytes(m);
    NextZeroIs(m, 12, 12, 30);
    NextZeroIs(m, 17, 18, 18);
    ShiftedScan(m, 17, 20, MX_RECORD);
  }

  ghost predicate AllCnames(rs: seq<Record>) {
    forall r :: r in rs ==> r.rtype == 5
  }

  /** The offset behind a list of records. */
  function Behind(p: nat, rs: seq<Record>): nat
    requires ValidRecords(rs)
  {
    p + |Records(rs)|
  }

  lemma FirstCname(cnames: seq<Record>)
    requires cnames != [] && ValidRecords(cnames) && AllCnames(cnames)
    ensures ValidRecord(cnames[0]) && cnames[0].rtype == CNAME_RECORD
    ensures ValidRecords(cnames[1..]) && AllCnames(cnames[1..])
  {
    assert cnames[0] in cnames && forall r :: r in cnames[1..] ==> r in cnames;
  }

  lemma BehindNext(p: nat, rs: seq<Record>)
    requires rs != [] && ValidRecords(rs) && ValidRecord(rs[0]) && ValidRecords(rs[1..])
    ensures Behind(p, rs) == Behind(NextOf(p, rs[0]), rs[1..])
  {
    assert |RecordBytes(rs[0])| == |OwnerBytes(rs[0].owner)| + 10 + |rs[0].rdata|;
  }

  lemma AnswerOver(p: nat, cnames: seq<Record>, rest: seq<Record>, qtype: Byte)
    requires cnames != [] && ValidRecord(cnames[0]) && cnames[0].rtype == CNAME_RECORD && ValidRecords(cnames + rest)
    ensures ValidRecords(cnames[1..] + rest)
    ensures Answer(p, cnames + rest, qtype) == Answer(NextOf(p, cnames[0]), cnames[1..] + rest, qtype)
  {
    FrontOfSum(cnames, rest);
    AnswerCname(p, cnames + rest, qtype);
  }

  lemma FrontOfSum(a: seq<Record>, b: seq<Record>)
    requires a != []
    ensures (a + b)[0] == a[0] && (a + b)[1..] == a[1..] + b
  {
  }

  lemma {:induction false} AnswerBehindCnames(p: nat, cnames: seq<Record>, rest: seq<Record>, qtype: Byte)
    requires ValidRecords(cnames) && AllCnames(cnames) && ValidRecords(rest) && ValidRecords(cnames + rest)
    ensures Answer(p, cnames + rest, qtype) == Answer(Behind(p, cnames), rest, qtype)
    decreases |cnames|
  {
    if cnames == [] {
      assert cnames + rest == rest;
    } else {
      FirstCname(cnames);
      BehindNext(p, cnames);
      AnswerOver(p, cnames, rest, qtype);
      AnswerBehindCnames(NextOf(p, cnames[0]), cnames[1..], rest, qtype);
    }
  }

  /** A chain of CNAMEs (type 5) of any length, then any other record, then anything: a query for an
      address (type 1) gets the first four bytes of that record's data if it is an address record with
      four or more, and nothing otherwise. */
  lemma AddressBehindCnames(m: Memory, r: Response, cnames: seq<Record>, a: Record, more: seq<Record>)
    requires ValidResponse(r) && m.pkt == ResponseBytes(r) && r.qtype == 1 && r.ancount != 0
    requires r.records == cnames + ([a] + more) && AllCnames(cnames) && a.rtype != 5
    ensures FindAnswer(m, 1) == if a.rtype == 1 && |a.rdata| >= 4 then Address(a.rdata[..4]) else Ignored
  {
    WalkIsAnswer(m, r);
    AnswerBehindParts(FirstRecord(r), r.records, cnames, a, more, 1);
  }

  /** A chain of CNAMEs that leads to nothing tells nothing. */
  lemma NothingBehindCnames(m: Memory, r: Response)
    requires ValidResponse(r) && m.pkt == ResponseBytes(r) && r.ancount != 0 && AllCnames(r.records)
    ensures FindAnswer(m, r.qtype) == Ignored
  {
    WalkIsAnswer(m, r);
    assert r.records + [] == r.records;
    AnswerBehindCnames(FirstRecord(r), r.records, [], r.qtype);
    NoneMisread(FirstRecord(r), r.records, r.trail);
  }

  lemma {:induction false} NoneMisread(p: nat, cnames: seq<Record>, trail: seq<Byte>)
    requires ValidRecords(cnames) && AllCnames(cnames)
    ensures Misread(p, cnames, trail) == None
    decreases |cnames|
  {
    if cnames != [] {
      FirstCname(cnames);
      NoneMisread(p + |RecordBytes(cnames[0])|, cnames[1..], trail);
    }
  }

  /** What the walk finds in the reply to the query `lookup` sent for a name without an empty piece:
      the question section of that query, echoed, is the one it skips. */
  lemma AnswerToLookup(m: Memory, tid: nat, name: seq<Byte>, r: Response)
    requires tid < 0x10000 && ValidResponse(r)
    requires r.qname == Split(name) && r.qclass == 1
    requires m.pkt == ResponseHead(r) + QueryPacket(tid, name, r.qtype)[HEADER_LEN..] + (Records(r.records) + r.trail)
    ensures FindAnswer(m, r.qtype) ==
              if r.ancount == 0 then NoSuchName else Seen(FirstRecord(r), r.records, r.trail, r.qtype)
  {
    EchoedQuestion(tid, name, r.qtype);
    Regroup(ResponseHead(r), EncodeLabels(r.qname), QuestionEnd(r.qtype), Records(r.records) + r.trail);
    WalkIsAnswer(m, r);
  }

  lemma EchoedQuestion(tid: nat, name: seq<Byte>, qtype: Byte)
    requires tid < 0x10000
    ensures QueryPacket(tid, name, qtype)[HEADER_LEN..] == EncodeLabels(Split(name)) + QuestionEnd(qtype)
  {
  }

  /** A record on the wire whose owner is a pointer: the two bytes behind it are the type, bytes 10 and 11 the
      length of the data. Type 5 sends the walk behind the data, type 1 or 15 answers a query of that type,
      and any other record ends the walk. `front` is the record up to its data. */
  lemma RecordOnTheWire(m: Memory, p: nat, front: seq<Byte>, data: seq<Byte>, rest: seq<Byte>, qtype: Byte)
    requires 1 <= p <= |m.pkt| && m.pkt[p..] == front + data + rest && data + rest != []
    requires |front| == 12 && front[0] == 0xC0 && U16(front[10], front[11]) == |data|
    ensures Scan(m, p, qtype) ==
              if front[2..4] == [0, 5] then Scan(m, p + 12 + |data|, qtype)
              else if qtype == 1 && front[2..4] == [0, 1] && |data| >= 4 then Address(data[..4])
              else if qtype == 15 && front[2..4] == [0, 15] then Exchange(p + 14)
              else Ignored
  {
    WireRead(m, p, front, data, rest);
    WireScan(m, p, U16(front[2], front[3]), data, qtype);
    TypeIs(front, 1);
    TypeIs(front, 5);
    TypeIs(front, 15);
  }

  lemma TypeIs(front: seq<Byte>, n: Byte)
    requires |front| == 12
    ensures front[2..4] == [0, n] <==> U16(front[2], front[3]) == n
  {
    assert front[2..4] == [front[2], front[3]];
  }

  lemma WireScan(m: Memory, p: nat, rtype: nat, data: seq<Byte>, qtype: Byte)
    requires 1 <= p && m.At(p) == 0xC0 && p + 12 + |data| <= |m.pkt| && p + 12 < |m.pkt| && rtype == m.U16At(p + 2)
    requires m.U16At(p + 10) == |data| && m.pkt[p + 12..p + 12 + |data|] == data
    ensures Scan(m, p, qtype) == if rtype == 5 then Scan(m, p + 12 + |data|, qtype)
                                 else if qtype == 1 && rtype == 1 && |data| >= 4 then Address(data[..4])
                                 else if qtype == 15 && rtype == 15 then Exchange(p + 14)
                                 else Ignored
  {
    WireTurn(m, p, data, qtype);
    if m.U16At(p + 2) == 5 {
      ScanFollows(m, p, p + 12 + |data|, qtype);
    } else {
      ScanDone(m, p, TurnAt(m, p, qtype).found, qtype);
    }
  }

  lemma ScanFollows(m: Memory, p: nat, next: nat, qtype: Byte)
    requires 1 <= p && TurnAt(m, p, qtype) == Follow(next)
    ensures next > 0 && Scan(m, p, qtype) == Scan(m, next, qtype)
  {
  }

  lemma ScanDone(m: Memory, p: nat, found: Found, qtype: Byte)
    requires 1 <= p && TurnAt(m, p, qtype) == Done(found)
    ensures Scan(m, p, qtype) == found
  {
  }

  lemma WireTurn(m: Memory, p: nat, data: seq<Byte>, qtype: Byte)
    requires 1 <= p && m.At(p) == 0xC0 && p + 12 + |data| <= |m.pkt| && p + 12 < |m.pkt|
    requires m.U16At(p + 10) == |data| && m.pkt[p + 12..p + 12 + |data|] == data
    ensures var rtype := m.U16At(p + 2);
            TurnAt(m, p, qtype) == if rtype == 5 then Follow(p + 12 + |data|)
                                   else if qtype == 1 && rtype == 1 && |data| >= 4 then Done(Address(data[..4]))
                                   else if qtype == 15 && rtype == 15 then Done(Exchange(p + 14))
                                   else Done(Ignored)
  {
    if |data| >= 4 {
      FrontOfSlice(m.pkt, p + 12, |data|);
    }
  }

  lemma WireRead(m: Memory, p: nat, front: seq<Byte>, data: seq<Byte>, rest: seq<Byte>)
    requires p <= |m.pkt| && m.pkt[p..] == front + data + rest && |front| == 12
    ensures |m.pkt| == p + 12 + |data| + |rest| && m.pkt[p + 12..p + 12 + |data|] == data
    ensures forall i :: 0 <= i < 12 ==> m.At(p + i) == front[i]
    ensures m.At(p + 0) == front[0] && m.U16At(p + 2) == U16(front[2], front[3])
    ensures m.U16At(p + 10) == U16(front[10], front[11])
  {
    Assoc(front, data, rest);
    assert [] + (front + (data + rest)) == front + (data + rest);
    PartsBehind(m.pkt, p, [], front, data, rest);
    SliceRead(m, p, front);
  }

  /** Whatever bytes make up an owner: the walk skips it to the fixed fields if and only if it is a bare
      pointer, or starts otherwise and its first zero byte is its last byte. */
  lemma OwnerSkippedIff(m: Memory, p: nat, owner: seq<Byte>)
    requires owner != [] && 1 <= p && p + |owner| + 12 <= |m.pkt| && m.pkt[p..p + |owner|] == owner
    ensures RecordAt(m, p) == p + |owner| - 2 <==>
              if owner[0] == COMPRESSION then |owner| == 2
              else owner[|owner| - 1] == 0 && 0 !in owner[..|owner| - 1]
  {
    var z := p + |owner| - 1;
    SliceRead(m, p, owner);
    if owner[0] != COMPRESSION {
      if RecordAt(m, p) == z - 1 {
        assert forall i :: 0 <= i < |owner| - 1 ==> owner[i] == m.At(p + i) != 0;
      }
    }
  }

  /** An owner that starts with labels and ends in a pointer, as section 4.1.4 also allows: an address
      behind it is found if and only if the pointer leads to offset 0. Otherwise the high byte of the
      type is taken for the end of the owner. */
  lemma PartlyCompressedOwnerIff(m: Memory, p: nat, labels: seq<Label>, target: Byte, r: Record, rest: seq<Byte>)
    requires PlainName(labels) && labels != []
    requires r.rtype == 1 && r.rclass == 1 && |r.ttl| == 4 && |r.rdata| == 4
    requires 1 <= p <= |m.pkt|
    requires m.pkt[p..] == EncodeLabels(labels) + [COMPRESSION, target] + (Fields(r) + (r.rdata + rest))
    ensures Scan(m, p, 1) == if target == 0 then Address(r.rdata) else Ignored
  {
    var owner := EncodeLabels(labels) + [COMPRESSION, target];
    var z := p + |owner|;
    PartsBehind(m.pkt, p, owner, Fields(r), r.rdata, rest);
    PartlyCompressedAt(m, p, labels, target);
    AddressFields(m, z, r);
    AddressScanned(m, p, z, r.rdata);
  }

  lemma AddressFields(m: Memory, z: nat, r: Record)
    requires r.rtype == 1 && r.rclass == 1 && |r.ttl| == 4 && |r.rdata| == 4
    requires z + 10 <= |m.pkt| && m.pkt[z..z + 10] == Fields(r)
    ensures m.U16At(z) == 1 && m.U16At(z + 1) == 256 && m.U16At(z + 8) == 4
  {
    SliceRead(m, z, Fields(r));
    assert m.At(z + 0) == Fields(r)[0] == 0 && m.At(z + 1) == Fields(r)[1] == 1 && m.At(z + 2) == Fields(r)[2] == 0;
    assert m.At(z + 8) == Fields(r)[8] == 0 && m.At(z + 9) == Fields(r)[9] == 4;
  }

  lemma AddressScanned(m: Memory, p: nat, z: nat, rdata: seq<Byte>)
    requires 1 <= p && p + 4 <= z && z + 14 <= |m.pkt| && RecordAt(m, p) in {z - 2, z - 1}
    requires m.U16At(z) == 1 && m.U16At(z + 1) == 256 && m.U16At(z + 8) == 4 && m.pkt[z + 10..z + 14] == rdata
    ensures Scan(m, p, A_RECORD) == if RecordAt(m, p) == z - 2 then Address(rdata) else Ignored
  {
    ScanTurn(m, p, A_RECORD);
  }

  /** Where the walk goes from an owner of labels and a pointer. */
  lemma PartlyCompressedAt(m: Memory, p: nat, labels: seq<Label>, target: Byte)
    requires PlainName(labels) && labels != [] && 1 <= p
    requires var owner := EncodeLabels(labels) + [COMPRESSION, target];
             p + |owner| + 14 <= |m.pkt| && m.pkt[p..p + |owner|] == owner && m.At(p + |owner|) == 0
    ensures |EncodeLabels(labels)| >= 2
    ensures RecordAt(m, p) == p + |EncodeLabels(labels)| + if target == 0 then 0 else 1
  {
    var owner := EncodeLabels(labels) + [COMPRESSION, target];
    NoZeroInside(labels);
    SliceRead(m, p, owner);
    var z := p + |owner| - if target == 0 then 1 else 0;
    assert m.At(p + 0) == owner[0];
    forall j | p <= j < z ensures m.At(j) != 0 {
      assert m.At(p + (j - p)) == owner[j - p];
    }
    assert target == 0 ==> m.At(p + (|owner| - 1)) == 0;
    NextZeroIs(m, p, z, |m.pkt| - 12);
  }

  /** A chain of CNAMEs and then a mail exchange (type 15): the walk ends at the exchange's name, behind the
      two bytes of its preference. */
  lemma ExchangeBehindCnames(m: Memory, r: Response, cnames: seq<Record>, x: Record, more: seq<Record>)
    requires ValidResponse(r) && m.pkt == ResponseBytes(r) && r.qtype == 15 && r.ancount != 0
    requires r.records == cnames + ([x] + more) && AllCnames(cnames)
    requires x.rtype == 15 && |x.rdata| >= 3
    ensures ValidRecords(cnames)
    ensures var at := Behind(FirstRecord(r), cnames) + |OwnerBytes(x.owner)| + 12;
            && FindAnswer(m, 15) == Exchange(at)
            && at + |x.rdata| - 2 <= |m.pkt| && m.pkt[at..at + |x.rdata| - 2] == x.rdata[2..]
  {
    WalkIsAnswer(m, r);
    ExchangeSeen(FirstRecord(r), r.records, cnames, x, more, r.trail);
    ExchangeData(m, r, cnames, x, more);
  }

  lemma ExchangeData(m: Memory, r: Response, cnames: seq<Record>, x: Record, more: seq<Record>)
    requires ValidResponse(r) && m.pkt == ResponseBytes(r)
    requires r.records == cnames + ([x] + more) && |x.rdata| >= 2
    ensures ValidRecords(cnames)
    ensures var at := Behind(FirstRecord(r), cnames) + |OwnerBytes(x.owner)| + 12;
            at + |x.rdata| - 2 <= |m.pkt| && m.pkt[at..at + |x.rdata| - 2] == x.rdata[2..]
  {
    RecordBehind(m, r, cnames, x, more);
    DataBehindPreference(m, Behind(FirstRecord(r), cnames), x, Records(more) + r.trail);
  }

  lemma ExchangeSeen(p: nat, rs: seq<Record>, cnames: seq<Record>, x: Record, more: seq<Record>, trail: seq<Byte>)
    requires ValidRecords(rs) && rs == cnames + ([x] + more) && AllCnames(cnames)
    requires x.rtype == 15 && |x.rdata| >= 3
    ensures ValidRecords(cnames)
    ensures Seen(p, rs, trail, MX_RECORD) == Exchange(Behind(p, cnames) + |OwnerBytes(x.owner)| + 12)
  {
    AnswerBehindParts(p, rs, cnames, x, more, MX_RECORD);
    AnswerExchange(Behind(p, cnames), x, more);
    if Misread(p, rs, trail).Some? {
      MisreadIsNoAnswer(p, rs, trail);
    }
  }

  lemma AnswerExchange(p: nat, x: Record, more: seq<Record>)
    requires ValidRecords([x] + more) && x.rtype == 15 && |x.rdata| >= 3
    ensures Answer(p, [x] + more, MX_RECORD) == Exchange(p + |OwnerBytes(x.owner)| + 12)
  {
  }

  lemma DataBehindPreference(m: Memory, p: nat, r: Record, rest: seq<Byte>)
    requires LiesAt(m, p, r, rest) && |r.rdata| >= 2
    ensures var at := p + |OwnerBytes(r.owner)| + 12;
            at + |r.rdata| - 2 <= |m.pkt| && m.pkt[at..at + |r.rdata| - 2] == r.rdata[2..]
  {
    FieldsRead(m, p, r, rest);
    var o := p + |OwnerBytes(r.owner)|;
    assert m.pkt[o + 10..o + 10 + |r.rdata|][2..] == m.pkt[o + 12..o + 10 + |r.rdata|];
  }

  lemma PartsValid(rs: seq<Record>, cnames: seq<Record>, x: Record, more: seq<Record>)
    requires ValidRecords(rs) && rs == cnames + ([x] + more)
    ensures ValidRecords(cnames) && ValidRecords([x] + more) && ValidRecords(more) && ValidRecord(x)
    ensures x in rs
  {
    assert forall y :: y in cnames || y in [x] + more ==> y in rs;
    assert x in [x] + more;
  }

  lemma AnswerBehindParts(p: nat, rs: seq<Record>, cnames: seq<Record>, x: Record, more: seq<Record>, qtype: Byte)
    requires ValidRecords(rs) && rs == cnames + ([x] + more) && AllCnames(cnames)
    ensures ValidRecords(cnames) && ValidRecords([x] + more)
    ensures Answer(p, rs, qtype) == Answer(Behind(p, cnames), [x] + more, qtype)
  {
    PartsValid(rs, cnames, x, more);
    AnswerBehindCnames(p, cnames, [x] + more, qtype);
  }

  lemma RecordBehind(m: Memory, r: Response, cnames: seq<Record>, x: Record, more: seq<Record>)
    requires ValidResponse(r) && m.pkt == ResponseBytes(r)
    requires r.records == cnames + ([x] + more)
    ensures ValidRecords(cnames) && ValidRecords(more)
    ensures LiesAt(m, Behind(FirstRecord(r), cnames), x, Records(more) + r.trail)
  {
    PartsValid(r.records, cnames, x, more);
    QuestionRead(m, r);
    RecordsConcat(cnames, [x] + more);
    DropFront(m.pkt, FirstRecord(r), Records(cnames), Records([x] + more), r.trail);
    SplitRecords([x] + more, r.trail);
    assert ([x] + more)[1..] == more;
  }

  lemma DropFront(pkt: seq<Byte>, p: nat, a: seq<Byte>, b: seq<Byte>, c: seq<Byte>)
    requires p <= |pkt| && pkt[p..] == a + b + c
    ensures p + |a| <= |pkt| && pkt[p + |a|..] == b + c
  {
    assert pkt[p + |a|..] == pkt[p..][|a|..];
  }

  lemma {:induction false} RecordsConcat(a: seq<Record>, b: seq<Record>)
    requires ValidRecords(a) && ValidRecords(b) && ValidRecords(a + b)
    ensures Records(a + b) == Records(a) + Records(b)
    decreases |a|
  {
    if a == [] {
      assert a + b == b;
    } else {
      assert (a + b)[0] == a[0] && (a + b)[1..] == a[1..] + b;
      RecordsConcat(a[1..], b);
      Assoc(RecordBytes(a[0]), Records(a[1..]), Records(b));
    }
  }
}
