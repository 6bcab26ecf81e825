/** Mail exchanges from the response on the wire to the name the query reports. */
module MailExchange {
  import opened Wrappers
  import opened Octets
  import opened DomainNames
  import opened DnsAnswer
  import opened DnsMessage
  import opened DnsExpand
  import opened QueryLife

  /** A chain of CNAMEs of any length, then an exchange record whose name decompresses with pointers below
      offset 256: what the query is told of that name is appended, and it is the whole dotted name if and
      only if that holds no zero byte and fits, or is cut by its own dangling dot. */
  lemma MailNameTold(m: Memory, r: Response, cnames: seq<Record>, x: Record, more: seq<Record>,
                     at: nat, budget: nat, d: Decoded,
                     addr0: Option<seq<Byte>>, mx0: seq<Byte>, addr1: Option<seq<Byte>>, mx1: seq<Byte>)
    requires ValidResponse(r) && m.pkt == ResponseBytes(r) && r.qtype == 15 && r.ancount != 0
    requires r.records == cnames + ([x] + more) && AllCnames(cnames) && ValidRecords(cnames)
    requires x.rtype == 15 && |x.rdata| >= 3
    requires at == Behind(FirstRecord(r), cnames) + |OwnerBytes(x.owner)| + 12
    requires Decode(m.pkt, at, budget) == Some(d) && !d.far
    ensures FindAnswer(m, 15) == Exchange(at)
    ensures DnsQuery.Told(Exchange(at), m, addr0, mx0, addr1, mx1) <==> addr1 == addr0 && mx1 == mx0 + ToldName(d)
    ensures ToldName(d) == Dotted(d) <==> ToldWhole(d)
  {
    ExchangeBehindCnames(m, r, cnames, x, more);
    ExchangeTold(Exchange(at), m, at, budget, d, addr0, mx0, addr1, mx1);
    ToldWholeIff(d);
  }
}
