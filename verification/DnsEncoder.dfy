/** The query builder: a dotted name printed as length-prefixed labels behind a 12-byte header. */
module DnsEncoder {
  import opened Wrappers
  import opened Sequences
  import opened Octets
  import opened DomainNames

  const HEADER_LEN: nat := 12
  const DNS_PACKET_LEN: nat := 2048

  /** Flags 0x0100 (recursion desired), one question, nothing else (section 4.1.1 of RFC 1035). The
      transaction id is stored without byte swapping, low byte first on the hosts the program runs on. */
  function QueryHeader(tid: nat): (h: seq<Byte>)
    requires tid < 0x10000
    ensures |h| == HEADER_LEN
  {
    [tid % 256, tid / 256, 1, 0, 0, 1, 0, 0, 0, 0, 0, 0]
  }

  /** End of name, query type, class IN (section 4.1.2). */
  function QuestionEnd(qtype: Byte): (q: seq<Byte>)
    ensures |q| == 5
  {
    [0] + PutU16(qtype) + PutU16(1)
  }

  function QueryPacket(tid: nat, name: seq<Byte>, qtype: Byte): seq<Byte>
    requires tid < 0x10000
  {
    QueryHeader(tid) + EncodeLabels(Split(name)) + QuestionEnd(qtype)
  }

  lemma QueryPacketLength(tid: nat, name: seq<Byte>, qtype: Byte)
    requires tid < 0x10000
    ensures |QueryPacket(tid, name, qtype)| == |name| + 18
  {
    EncodedLength(Split(name));
    JoinSplit(name);
  }

  /** The packet on the wire: the id with its low byte first, recursion desired, one question and no records;
      the labels; the end of the name, the query's type, and class 1. */
  lemma QueryOnTheWire(tid: nat, name: seq<Byte>, qtype: Byte)
    requires tid < 0x10000
    ensures var pkt, z := QueryPacket(tid, name, qtype), |name| + 13;
            && |pkt| == z + 5 && U16(pkt[1], pkt[0]) == tid
            && pkt[2..12] == [1, 0, 0, 1, 0, 0, 0, 0, 0, 0]
            && pkt[12..z] == EncodeLabels(Split(name)) && pkt[z..] == [0, 0, qtype, 0, 1]
  {
    QueryPacketLength(tid, name, qtype);
    EncodedLength(Split(name));
    JoinSplit(name);
    var h, labels, end := QueryHeader(tid), EncodeLabels(Split(name)), QuestionEnd(qtype);
    Slices(h, labels, end);
    assert h[2..12] == [1, 0, 0, 1, 0, 0, 0, 0, 0, 0];
    assert (h + labels + end)[2..12] == h[2..12];
  }

  lemma Slices(a: seq<Byte>, b: seq<Byte>, c: seq<Byte>)
    ensures (a + b + c)[..|a|] == a && (a + b + c)[|a|..|a| + |b|] == b && (a + b + c)[|a| + |b|..] == c
  {
  }

  /** Stores `bytes` at offset `p` and returns the offset after them. */
  method Put(pkt: array<Byte>, p: nat, bytes: seq<Byte>) returns (q: nat)
    requires p + |bytes| <= pkt.Length
    modifies pkt
    ensures q == p + |bytes|
    ensures pkt[..q] == old(pkt[..p]) + bytes
  {
    q := p;
    for i := 0 to |bytes|
      invariant q == p + i
      invariant pkt[..q] == old(pkt[..p]) + bytes[..i]
    {
      pkt[q] := bytes[i];
      q := q + 1;
    }
  }

  /** One round of the label loop, on the specification side. */
  lemma LastPiece(rest: seq<Byte>)
    requires FirstDot(rest) == |rest|
    ensures EncodeLabels(Split(rest)) == [|rest| % 256] + rest
  {
    EncodeCons(rest, []);
    assert [rest] + [] == [rest];
  }

  lemma NextPiece(rest: seq<Byte>, n: nat)
    requires n == FirstDot(rest) < |rest|
    ensures EncodeLabels(Split(rest)) == [n % 256] + rest[..n] + EncodeLabels(Split(rest[n + 1..]))
  {
    EncodeCons(rest[..n], Split(rest[n + 1..]));
  }

  lemma EncodeRound(sent: seq<Byte>, rest: seq<Byte>, n: nat)
    requires n == FirstDot(rest)
    ensures sent + EncodeLabels(Split(rest)) ==
              if n == |rest| then sent + [n % 256] + rest[..n]
              else sent + [n % 256] + rest[..n] + EncodeLabels(Split(rest[n + 1..]))
  {
    if n < |rest| {
      NextPiece(rest, n);
      Regroup(sent, [n % 256], rest[..n], EncodeLabels(Split(rest[n + 1..])));
      Assoc([n % 256], rest[..n], EncodeLabels(Split(rest[n + 1..])));
    } else {
      LastPiece(rest);
      assert rest[..n] == rest;
      Assoc(sent, [n % 256], rest);
    }
  }

  /** One chunk: its length byte, then its bytes. */
  method PutChunk(pkt: array<Byte>, p: nat, chunk: seq<Byte>) returns (q: nat)
    requires p + 1 + |chunk| <= pkt.Length
    modifies pkt
    ensures q == p + 1 + |chunk|
    ensures pkt[..q] == old(pkt[..p]) + [|chunk| % 256] + chunk
  {
    q := Put(pkt, p, [|chunk| % 256]);
    q := Put(pkt, q, chunk);
  }

  /** The body of the label loop: the chunk up to the next dot is stored. `pname` is the rest of the name;
      `wanted` is what is to be stored in the end. */
  method PutPiece(pkt: array<Byte>, p: nat, pname: seq<Byte>, ghost wanted: seq<Byte>) returns (q: nat, n: nat)
    requires p + |pname| + 1 <= pkt.Length && pkt[..p] + EncodeLabels(Split(pname)) == wanted
    modifies pkt
    ensures n == FirstDot(pname) && q == p + 1 + n
    ensures n == |pname| ==> pkt[..q] == wanted
    ensures n < |pname| ==> pkt[..q] + EncodeLabels(Split(pname[n + 1..])) == wanted
  {
    n := FirstDot(pname);
    EncodeRound(pkt[..p], pname, n);
    q := PutChunk(pkt, p, pname[..n]);
  }

  /** The label loop: each chunk up to the next dot behind its length byte. The remaining length
      falls on every repeated round because the chunk's dot is taken with it. */
  method EncodeName(pkt: array<Byte>, start: nat, name: seq<Byte>) returns (p: nat)
    requires start + |name| + 1 <= pkt.Length
    modifies pkt
    ensures p == start + |name| + 1
    ensures pkt[..p] == old(pkt[..start]) + EncodeLabels(Split(name))
  {
    ghost var wanted := pkt[..start] + EncodeLabels(Split(name));
    var pname, nameLen := name, |name|;
    p := start;
    var more := true;
    while more
      invariant |pname| == nameLen && p <= pkt.Length
      invariant more ==> p + nameLen == start + |name| && pkt[..p] + EncodeLabels(Split(pname)) == wanted
      invariant !more ==> p == start + |name| + 1 && pkt[..p] == wanted
      decreases nameLen, more
    {
      var n: nat;
      p, n := PutPiece(pkt, p, pname, wanted);
      more := n < |pname|;      // the byte after the chunk is a dot, not the final zero
      if more {
        n := n + 1;
      }
      pname := pname[n..];
      nameLen := nameLen - n;
    }
  }

  /** Builds the query for a C string. The source writes into a buffer of DNS_PACKET_LEN bytes and
      compares the end of the packet with the end of the buffer only afterwards; the array here is
      long enough for every name, and `QueryPacketLength` says which names stay inside the buffer. */
  method EncodeQuery(tid: nat, name: seq<Byte>, qtype: Byte) returns (datagram: Option<seq<Byte>>)
    requires tid < 0x10000
    requires 0 !in name
    ensures |name| + 18 < 2048 ==> datagram == Some(QueryPacket(tid, name, qtype))
    ensures |name| + 18 >= 2048 ==> datagram == None
  {
    var pkt := new Byte[DNS_PACKET_LEN + |name|];
    var p := Put(pkt, 0, QueryHeader(tid));
    assert pkt[..p] == QueryHeader(tid);
    p := EncodeName(pkt, p, name);
    p := Put(pkt, p, QuestionEnd(qtype));
    QueryPacketLength(tid, name, qtype);
    if p < DNS_PACKET_LEN {
      datagram := Some(pkt[..p]);
    } else {
      datagram := None;
    }
  }
}
