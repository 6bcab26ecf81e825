/** The exchange name a query is told, read from a datagram with unknown memory behind it. */
module ExchangeName {
  import opened Sequences
  import opened Wrappers
  import opened Octets
  import opened DomainNames
  import opened DnsExpand
  import opened QueryLife

  lemma UpToZeroBehind(a: seq<Byte>, b: seq<Byte>)
    requires 0 !in a
    ensures UpToZero(a + b) == a + UpToZero(b)
  {
    FirstZero(a + b, a + UpToZero(b));
  }

  /** What ends at a zero byte, or with the sequence, and holds none, is what comes up to the first one. */
  lemma FirstZero(s: seq<Byte>, t: seq<Byte>)
    requires t <= s && 0 !in t && (|t| < |s| ==> s[|t|] == 0)
    ensures UpToZero(s) == t
  {
    var u := UpToZero(s);
    assert forall i :: 0 <= i < |t| ==> s[i] == t[i] != 0;
    assert forall i :: 0 <= i < |u| ==> s[i] == u[i] != 0;
    assert |u| == |t|;
  }

  /** Two texts that a C string cannot tell apart. */
  ghost predicate SameString(a: Option<seq<Byte>>, b: Option<seq<Byte>>) {
    (a == None && b == None) || (a.Some? && b.Some? && UpToZero(a.value) == UpToZero(b.value))
  }

  lemma SameFrontString(front: seq<Byte>, a: seq<Byte>, b: seq<Byte>)
    requires UpToZero(a) == UpToZero(b)
    ensures UpToZero(front + a) == UpToZero(front + b)
  {
    var t := UpToZero(front);
    if t == front {
      UpToZeroBehind(front, a);
      UpToZeroBehind(front, b);
    } else {
      FirstZero(front + a, t);
      FirstZero(front + b, t);
    }
  }

  /** Equal up to a zero byte. */
  lemma CutString(a: seq<Byte>, b: seq<Byte>, n: nat)
    requires n < |a| && n < |b| && a[..n] == b[..n] && a[n] == b[n] == 0
    ensures UpToZero(a) == UpToZero(b)
  {
    var t := UpToZero(a[..n]);
    assert t <= a && t <= b;
    assert |t| < n ==> a[..n][|t|] == a[|t|] && b[..n][|t|] == b[|t|];
    FirstZero(a, t);
    FirstZero(b, t);
  }

  /** Bytes read over the end of the datagram: the zero byte behind it is among them. */
  lemma OverTheEnd(m: Memory, m': Memory, at: nat, n: nat)
    requires m.pkt == m'.pkt && at <= |m.pkt| < at + n
    ensures UpToZero(m.Bytes(at, n)) == UpToZero(m'.Bytes(at, n))
  {
    var j := |m.pkt| - at;
    var a, b := m.Bytes(at, n), m'.Bytes(at, n);
    assert a[j] == 0 && b[j] == 0;
    assert a[..j] == b[..j];
    CutString(a, b, j);
  }

  /** Two rounds from one place: they are the same, or both copy a label that runs over the end of the datagram
      and so end the name. */
  ghost predicate SameRound(r: (seq<Byte>, Cursor), r': (seq<Byte>, Cursor), end: nat) {
    r == r' || (r.1 == r'.1 && r.1.s > end && UpToZero(r.0) == UpToZero(r'.0))
  }

  lemma LabelInside(m: Memory, m': Memory, at: nat, n: nat, dot: seq<Byte>)
    requires m.pkt == m'.pkt && at <= |m.pkt|
    ensures at + n <= |m.pkt| ==> m.Bytes(at, n) == m'.Bytes(at, n)
    ensures at + n > |m.pkt| ==> UpToZero(dot + m.Bytes(at, n)) == UpToZero(dot + m'.Bytes(at, n))
  {
    if at + n > |m.pkt| {
      OverTheEnd(m, m', at, n);
      SameFrontString(dot, m.Bytes(at, n), m'.Bytes(at, n));
    }
  }

  lemma LabelRound(m: Memory, c: Cursor, n: nat)
    requires !Done(m, c) && c.room > |Dot(c)| && m.At(c.s) != COMPRESSION && n == Min(m.At(c.s), c.room - |Dot(c)|)
    ensures Round(m, c) == (Dot(c) + m.Bytes(c.s + 1, n), Cursor(c.s + 1 + n, true, c.room - |Dot(c)| - n))
  {
  }

  lemma PointerRound(m: Memory, m': Memory, c: Cursor)
    requires m.pkt == m'.pkt && !Done(m, c) && c.room > |Dot(c)| && m.At(c.s) == COMPRESSION
    ensures !Done(m', c) && Round(m, c) == Round(m', c)
  {
  }

  lemma RoundInside(m: Memory, m': Memory, c: Cursor)
    requires m.pkt == m'.pkt && !Done(m, c) && c.room > |Dot(c)|
    ensures !Done(m', c) && SameRound(Round(m, c), Round(m', c), |m.pkt|)
  {
    assert m.At(c.s) == m'.At(c.s);
    if m.At(c.s) == COMPRESSION {
      PointerRound(m, m', c);
    } else {
      var n := Min(m.At(c.s), c.room - |Dot(c)|);
      LabelInside(m, m', c.s + 1, n, Dot(c));
      LabelRound(m, c, n);
      LabelRound(m', c, n);
    }
  }

  /** The text from a round on. */
  function Joined(bytes: seq<Byte>, rest: Option<seq<Byte>>): Option<seq<Byte>> {
    if rest.Some? then Some(bytes + rest.value) else None
  }

  lemma TextJoined(m: Memory, c: Cursor, k: nat)
    requires !Done(m, c) && c.room > |Dot(c)| && k > 0
    ensures Text(m, c, k) == Joined(Round(m, c).0, Text(m, Round(m, c).1, k - 1))
  {
  }

  lemma SameJoined(r: (seq<Byte>, Cursor), r': (seq<Byte>, Cursor), end: nat,
                   rest: Option<seq<Byte>>, rest': Option<seq<Byte>>)
    requires SameRound(r, r', end) && SameString(rest, rest')
    requires r.1.s > end ==> rest == rest' == Some([])
    ensures SameString(Joined(r.0, rest), Joined(r'.0, rest'))
  {
    if r == r' {
      if rest.Some? {
        SameFrontString(r.0, rest.value, rest'.value);
      }
    } else {
      assert r.0 + [] == r.0 && r'.0 + [] == r'.0;
    }
  }

  lemma {:induction false} TextInside(m: Memory, m': Memory, c: Cursor, k: nat)
    requires m.pkt == m'.pkt
    ensures SameString(Text(m, c, k), Text(m', c, k))
    decreases k
  {
    if !Done(m, c) && c.room > |Dot(c)| && k > 0 {
      RoundInside(m, m', c);
      TextInside(m, m', Round(m, c).1, k - 1);
      TextJoined(m, c, k);
      TextJoined(m', c, k);
      SameJoined(Round(m, c), Round(m', c), |m.pkt|,
                 Text(m, Round(m, c).1, k - 1), Text(m', Round(m', c).1, k - 1));
    }
  }

  /** No byte behind a datagram, but for the zero byte right behind it, has a part in the exchange name a
      query is told, although labels may run over the end. */
  lemma ToldInside(pkt: seq<Byte>, beyond: int -> Byte, beyond': int -> Byte, at: nat,
                   before: seq<Byte>, after: seq<Byte>)
    ensures DnsQuery.Appended(Memory(pkt, beyond), at, before, after)
            <==> DnsQuery.Appended(Memory(pkt, beyond'), at, before, after)
  {
    var m, m', c := Memory(pkt, beyond), Memory(pkt, beyond'), Cursor(at, false, MX_NAME_LEN);
    forall k: nat ensures SameString(Text(m, c, k), Text(m', c, k)) {
      TextInside(m, m', c, k);
    }
  }
}
