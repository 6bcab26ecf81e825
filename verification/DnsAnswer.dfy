/** The walk through a response datagram: question, CNAME chain, answer. */
module DnsAnswer {
  import opened Octets
  import opened DomainNames
  import opened DnsEncoder

  const A_RECORD: Byte := 1
  const CNAME_RECORD: Byte := 5
  const MX_RECORD: Byte := 15

  /** What a datagram tells the query: nothing, that there are no answers, an IPv4 address, or where
      in the packet the name of a mail exchange starts. */
  datatype Found = Ignored | NoSuchName | Address(octets: seq<Byte>) | Exchange(at: nat)

  /** The first zero byte from `p` on, or `limit`. */
  function NextZero(m: Memory, p: nat, limit: nat): (q: nat)
    requires p <= limit
    ensures p <= q <= limit
    ensures forall j :: p <= j < q ==> m.At(j) != 0
    ensures q < limit ==> m.At(q) == 0
    decreases limit - p
  {
    if p == limit || m.At(p) == 0 then p else NextZero(m, p + 1, limit)
  }

  /** Two bytes before the type field of the record whose owner starts at `p`: the owner itself when
      it is a pointer, else the byte before the zero byte that ends it. */
  function RecordAt(m: Memory, p: nat): (q: nat)
    requires 1 <= p && p + 12 < |m.pkt|
    ensures p - 1 <= q && q + 12 < |m.pkt|
  {
    if m.At(p) == COMPRESSION then p else NextZero(m, p, |m.pkt| - 12) - 1
  }

  /** The data of the record found at `q`. */
  function Extract(m: Memory, q: nat, qtype: Byte): Found
  {
    var dlen := m.U16At(q + 10);
    if q + 12 + dlen > |m.pkt| then Ignored
    else if qtype == MX_RECORD then Exchange(q + 14)
    else if qtype == A_RECORD && dlen >= 4 then Address(m.Bytes(q + 12, 4))
    else Ignored
  }

  /** What the record at `p` makes the walk do: end, or go on behind a CNAME. */
  datatype Turn = Done(found: Found) | Follow(next: nat)

  function TurnAt(m: Memory, p: nat, qtype: Byte): (t: Turn)
    requires 1 <= p
    ensures t.Follow? ==> t.next >= p + 11 && p < |m.pkt|
  {
    if p + 12 >= |m.pkt| then Done(Ignored)
    else
      var q := RecordAt(m, p);
      if m.U16At(q + 2) == CNAME_RECORD then Follow(q + 12 + m.U16At(q + 10))
      else if m.U16At(q + 2) == qtype then Done(Extract(m, q, qtype))
      else Done(Ignored)
  }

  function Scan(m: Memory, p: nat, qtype: Byte): Found
    requires 1 <= p
    decreases |m.pkt| - p
  {
    match TurnAt(m, p, qtype)
    case Done(found) => found
    case Follow(next) => Scan(m, next, qtype)
  }

  function FindAnswer(m: Memory, qtype: Byte): Found
  {
    if m.U16At(4) != 1 then Ignored
    else if m.U16At(6) == 0 then NoSuchName
    else if |m.pkt| < HEADER_LEN then Ignored
    else
      var p := NextZero(m, HEADER_LEN, |m.pkt|);
      if p + 5 > |m.pkt| || m.U16At(p + 1) != qtype as nat then Ignored
      else Scan(m, p + 5, qtype)
  }

  method SkipQuestionName(m: Memory) returns (p: nat)
    ensures |m.pkt| < HEADER_LEN ==> p == HEADER_LEN
    ensures |m.pkt| >= HEADER_LEN ==> p == NextZero(m, HEADER_LEN, |m.pkt|)
  {
    var e := |m.pkt|;
    p := HEADER_LEN;
    while p < e && m.At(p) != 0
      invariant p <= e || p == HEADER_LEN
      invariant HEADER_LEN <= p
      invariant HEADER_LEN <= e ==> NextZero(m, p, e) == NextZero(m, HEADER_LEN, e)
      decreases e - p
    {
      p := p + 1;
    }
  }

  method SkipOwner(m: Memory, start: nat) returns (p: nat)
    requires 1 <= start && start + 12 < |m.pkt|
    ensures p == RecordAt(m, start)
  {
    var e := |m.pkt|;
    p := start;
    if m.At(p) != COMPRESSION {
      while m.At(p) != 0 && p + 12 < e
        invariant start <= p && p + 12 <= e
        invariant NextZero(m, p, e - 12) == NextZero(m, start, e - 12)
        decreases e - p
      {
        p := p + 1;
      }
      p := p - 1;
    }
  }

  method ReadAnswer(m: Memory, q: nat, qtype: Byte) returns (found: Found)
    ensures found == Extract(m, q, qtype)
    ensures found.Exchange? && m.U16At(q + 10) >= 3 ==> found.at < |m.pkt|
  {
    found := Ignored;
    var dlen := m.U16At(q + 10);
    var p := q + 12;
    if p + dlen <= |m.pkt| {
      if qtype == MX_RECORD {
        found := Exchange(p + 2);
      } else if qtype == A_RECORD {
        if dlen >= 4 {
          found := Address(m.Bytes(p, 4));
        }
      }
    }
  }

  /** The body of the loop over the answers. */
  method LookAt(m: Memory, start: nat, qtype: Byte) returns (hit: bool, stop: bool, p: nat)
    requires 1 <= start && start + 12 < |m.pkt|
    ensures hit ==> stop && p + 12 < |m.pkt| && TurnAt(m, start, qtype) == Done(Extract(m, p, qtype))
    ensures stop && !hit ==> TurnAt(m, start, qtype) == Done(Ignored)
    ensures !stop ==> TurnAt(m, start, qtype) == Follow(p)
  {
    hit, stop := false, false;
    p := SkipOwner(m, start);
    var rtype := m.U16At(p + 2);
    if rtype == CNAME_RECORD {
      var dlen := m.U16At(p + 10);
      p := p + 12 + dlen;
    } else if rtype == qtype {
      hit, stop := true, true;
    } else {
      stop := true;
    }
  }

  lemma ScanTurn(m: Memory, p: nat, qtype: Byte)
    requires 1 <= p
    ensures Scan(m, p, qtype) == match TurnAt(m, p, qtype)
                                 case Done(found) => found
                                 case Follow(next) => Scan(m, next, qtype)
  {
  }

  lemma ScanEnd(m: Memory, p: nat, qtype: Byte)
    requires 1 <= p && p + 12 >= |m.pkt|
    ensures Scan(m, p, qtype) == Ignored
  {
  }

  /** The loop over the answers: every CNAME moves `p` forward by at least 11. */
  method FindRecord(m: Memory, start: nat, qtype: Byte) returns (hit: bool, p: nat)
    requires 1 <= start
    ensures !hit ==> Scan(m, start, qtype) == Ignored
    ensures hit ==> p + 12 < |m.pkt| && Scan(m, start, qtype) == Extract(m, p, qtype)
  {
    var stop := false;
    hit, p := false, start;
    ghost var at := start;       // the record looked at
    while !stop && p + 12 < |m.pkt|
      invariant 1 <= at && Scan(m, at, qtype) == Scan(m, start, qtype)
      invariant !stop ==> p == at && !hit
      invariant stop && !hit ==> Scan(m, at, qtype) == Ignored
      invariant hit ==> stop && p + 12 < |m.pkt| && Scan(m, at, qtype) == Extract(m, p, qtype)
      decreases !stop, |m.pkt| - p
    {
      ScanTurn(m, p, qtype);
      hit, stop, p := LookAt(m, p, qtype);
      at := if stop then at else p;
    }
    if !stop {
      ScanEnd(m, p, qtype);
    }
  }

  /** The loop over the answers, then the data of the record it stopped at. */
  method WalkAnswers(m: Memory, start: nat, qtype: Byte) returns (found: Found)
    requires 1 <= start
    ensures found == Scan(m, start, qtype)
  {
    found := Ignored;
    var hit, p := FindRecord(m, start, qtype);
    if hit && p + 12 < |m.pkt| {
      found := ReadAnswer(m, p, qtype);
    }
  }

  method Walk(m: Memory, qtype: Byte) returns (found: Found)
    ensures found == FindAnswer(m, qtype)
  {
    if m.U16At(4) != 1 {
      return Ignored;
    }
    if m.At(6) == 0 && m.At(7) == 0 {
      return NoSuchName;
    }
    var p := SkipQuestionName(m);
    if p + 5 > |m.pkt| || m.U16At(p + 1) != qtype {
      return Ignored;
    }
    found := WalkAnswers(m, p + 5, qtype);
  }

  // ---------------------------------------------------------------- reads stay inside

  lemma {:induction false} NextZeroInside(m: Memory, m': Memory, p: nat, limit: nat)
    requires m.pkt == m'.pkt && p <= limit <= |m.pkt|
    ensures NextZero(m, p, limit) == NextZero(m', p, limit)
    decreases limit - p
  {
    if p < limit && m.At(p) != 0 {
      NextZeroInside(m, m', p + 1, limit);
    }
  }

  lemma SameFields(m: Memory, m': Memory, q: nat)
    requires m.pkt == m'.pkt && q + 12 < |m.pkt|
    ensures m.U16At(q + 2) == m'.U16At(q + 2) && m.U16At(q + 10) == m'.U16At(q + 10)
    ensures forall qtype :: Extract(m, q, qtype) == Extract(m', q, qtype)
  {
    if q + 16 <= |m.pkt| {
      assert m.Bytes(q + 12, 4) == m'.Bytes(q + 12, 4);
    }
  }

  lemma SameRecord(m: Memory, m': Memory, p: nat)
    requires m.pkt == m'.pkt && 1 <= p && p + 12 < |m.pkt|
    ensures RecordAt(m, p) == RecordAt(m', p)
  {
    NextZeroInside(m, m', p, |m.pkt| - 12);
  }

  lemma SameTurn(m: Memory, m': Memory, p: nat, qtype: Byte)
    requires m.pkt == m'.pkt && 1 <= p
    ensures TurnAt(m, p, qtype) == TurnAt(m', p, qtype)
  {
    if p + 12 < |m.pkt| {
      SameRecord(m, m', p);
      SameFields(m, m', RecordAt(m, p));
    }
  }

  lemma {:induction false} ScanInside(m: Memory, m': Memory, p: nat, qtype: Byte)
    requires m.pkt == m'.pkt && 1 <= p
    ensures Scan(m, p, qtype) == Scan(m', p, qtype)
    decreases |m.pkt| - p
  {
    SameTurn(m, m', p, qtype);
    if TurnAt(m, p, qtype).Follow? {
      ScanInside(m, m', TurnAt(m, p, qtype).next, qtype);
    }
  }

  /** On every datagram of at least 12 bytes, the walk does not depend on a byte outside it. */
  lemma WalkReadsInside(pkt: seq<Byte>, beyond: int -> Byte, beyond': int -> Byte, qtype: Byte)
    requires |pkt| >= HEADER_LEN
    ensures FindAnswer(Memory(pkt, beyond), qtype) == FindAnswer(Memory(pkt, beyond'), qtype)
  {
    var m, m' := Memory(pkt, beyond), Memory(pkt, beyond');
    assert m.U16At(4) == m'.U16At(4) && m.U16At(6) == m'.U16At(6);
    NextZeroInside(m, m', HEADER_LEN, |pkt|);
    var p := NextZero(m, HEADER_LEN, |pkt|);
    if p + 5 <= |pkt| {
      assert m.U16At(p + 1) == m'.U16At(p + 1);
      ScanInside(m, m', p + 5, qtype);
    }
  }
}
