/** A DNS query from creation to its end: socket, expiry timer, error, and the `finished` signal. */
module QueryLife {
  import opened Wrappers
  import opened Octets
  import opened DomainNames
  import opened DnsEncoder
  import opened DnsExpand
  import opened DnsAnswer

  datatype DnsError = DnsOk | DnsDoesNotExist | DnsTimeout | DnsFailed

  const MX_NAME_LEN: nat := 1024

  /** A timer id, or -1 for no timer. */
  type TimerId = t: int | -1 <= t

  // ---------------------------------------------------------------- specification

  /** What decides a query's future: is the socket bound, the id of the expiry timer or -1, the
      error so far, and how often `finished` was emitted. */
  datatype Life = Life(bound: bool, timer: TimerId, error: DnsError, finished: nat)

  datatype Event = Datagram(found: Found) | Timer(id: nat)

  function Ended(l: Life, error: DnsError): Life {
    Life(false, -1, error, l.finished + 1)
  }

  /** `future` is the id of the timer when the expiry lies in the future; a listener is attached.
      `rebinds` says whether the socket library binds an unbound socket when it sends. */
  function Created(bindOk: bool, future: Option<nat>, sendOk: bool, rebinds: bool): Life {
    var armed := if future.Some? then Life(bindOk, future.value, DnsOk, 0)
                 else Ended(Life(bindOk, -1, DnsOk, 0), DnsTimeout);
    if sendOk then armed.(bound := armed.bound || rebinds) else Ended(armed, DnsFailed)
  }

  function Step(l: Life, e: Event): Life {
    match e
    case Datagram(found) =>
      if !l.bound || found.Ignored? then l
      else Ended(l, if found.NoSuchName? then DnsDoesNotExist else DnsOk)
    case Timer(id) =>
      if l.timer == id then Ended(l, DnsTimeout) else l
  }

  function Run(l: Life, events: seq<Event>): Life
    decreases |events|
  {
    if events == [] then l else Run(Step(l, events[0]), events[1..])
  }

  // ---------------------------------------------------------------- every run

  /** A query that has not ended is as it was created; one that has ended is dead. */
  ghost predicate Sound(l: Life, bindOk: bool, id: nat) {
    if l.finished == 0 then l == Life(bindOk, id, DnsOk, 0)
    else l.finished == 1 && !l.bound && l.timer == -1
  }

  lemma {:induction false} RunConcat(l: Life, a: seq<Event>, b: seq<Event>)
    ensures Run(l, a + b) == Run(Run(l, a), b)
    decreases |a|
  {
    if a == [] {
      assert a + b == b;
    } else {
      assert (a + b)[1..] == a[1..] + b;
      RunConcat(Step(l, a[0]), a[1..], b);
    }
  }

  lemma {:induction false} DeadStays(l: Life, events: seq<Event>)
    requires !l.bound && l.timer == -1
    ensures Run(l, events) == l
    decreases |events|
  {
    if events != [] {
      DeadStays(l, events[1..]);
    }
  }

  lemma {:induction false} SoundRun(l: Life, bindOk: bool, id: nat, events: seq<Event>)
    requires Sound(l, bindOk, id)
    ensures Sound(Run(l, events), bindOk, id)
    decreases |events|
  {
    if events != [] {
      SoundRun(Step(l, events[0]), bindOk, id, events[1..]);
    }
  }

  /** Every run of a query whose expiry was in the future: `finished` is emitted at most once, before
      that the socket is as bound and the timer armed with no error, afterwards both are dead and
      nothing, the error included, ever changes again. */
  lemma Lifecycle(bindOk: bool, id: nat, sendOk: bool, rebinds: bool, events: seq<Event>, more: seq<Event>)
    ensures var l := Run(Created(bindOk, Some(id), sendOk, rebinds), events);
            && l.finished <= 1
            && (l.finished == 0 ==> l.bound == (bindOk || rebinds) && l.timer == id && l.error == DnsOk)
            && (l.finished == 1 ==> !l.bound && l.timer == -1)
            && (l.finished == 1 ==> Run(Created(bindOk, Some(id), sendOk, rebinds), events + more) == l)
  {
    var c := Created(bindOk, Some(id), sendOk, rebinds);
    SoundRun(c, bindOk || rebinds, id, events);
    RunConcat(c, events, more);
    var l := Run(c, events);
    if l.finished == 1 {
      DeadStays(l, more);
    }
  }

  /** `finished` is emitted at most once in every run if and only if the expiry was in the future, or
      the first send went through and did not bind the closed socket again. Otherwise creation itself
      emits it twice, or a reply that still arrives emits it again. */
  lemma FinishedOnceIff(bindOk: bool, future: Option<nat>, sendOk: bool, rebinds: bool)
    ensures (forall events :: Run(Created(bindOk, future, sendOk, rebinds), events).finished <= 1)
            <==> (future.Some? || (sendOk && !rebinds))
  {
    var c := Created(bindOk, future, sendOk, rebinds);
    if future.Some? || (sendOk && !rebinds) {
      forall events ensures Run(c, events).finished <= 1 {
        if future.Some? {
          SoundRun(c, bindOk || rebinds, future.value, events);
        } else {
          DeadStays(c, events);
        }
      }
    } else if sendOk {
      var reply := [Datagram(NoSuchName)];
      assert reply[1..] == [] && Run(Step(c, reply[0]), []) == Step(c, reply[0]);
      assert Run(c, reply).finished == 2;
    } else {
      assert Run(c, []).finished == 2;
    }
  }

  lemma RunSnoc(l: Life, front: seq<Event>, e: Event)
    ensures Run(l, front + [e]) == Step(Run(l, front), e)
  {
    RunConcat(l, front, [e]);
    assert [e][1..] == [];
  }

  /** The event at `i` comes when the query `c` has not ended. */
  ghost predicate Open(c: Life, events: seq<Event>, i: int) {
    0 <= i < |events| && Run(c, events[..i]).finished == 0
  }

  lemma OpenInFront(c: Life, events: seq<Event>, n: nat)
    requires n <= |events|
    ensures forall i :: 0 <= i < n ==> (Open(c, events[..n], i) <==> Open(c, events, i))
  {
    forall i | 0 <= i < n ensures Open(c, events[..n], i) <==> Open(c, events, i) {
      assert events[..n][..i] == events[..i];
    }
  }

  /** A query that was sent has ended if and only if some event met it open and ended it, and then it is as
      that one event left it. */
  lemma {:induction false} EndedByOne(bindOk: bool, id: nat, rebinds: bool, events: seq<Event>)
    ensures var c := Created(bindOk, Some(id), true, rebinds);
            Run(c, events).finished == 1 <==> exists i :: Open(c, events, i) && Step(c, events[i]).finished == 1
    ensures var c := Created(bindOk, Some(id), true, rebinds);
            forall i :: Open(c, events, i) && Step(c, events[i]).finished == 1 ==> Run(c, events) == Step(c, events[i])
    decreases |events|
  {
    var c := Created(bindOk, Some(id), true, rebinds);
    if events != [] {
      var n := |events| - 1;
      var front := events[..n];
      assert events == front + [events[n]];
      RunSnoc(c, front, events[n]);
      SoundRun(c, bindOk || rebinds, id, front);
      EndedByOne(bindOk, id, rebinds, front);
      OpenInFront(c, events, n);
      if Run(c, front).finished == 0 {
        assert Open(c, events, n);
      }
    }
  }

  /** A query that could not be sent never meets an event open. */
  lemma NeverOpen(bindOk: bool, id: nat, rebinds: bool, events: seq<Event>)
    ensures var c := Created(bindOk, Some(id), false, rebinds);
            Run(c, events) == Life(false, -1, DnsFailed, 1) && forall i :: !Open(c, events, i)
  {
    var c := Created(bindOk, Some(id), false, rebinds);
    DeadStays(c, events);
    forall i: int ensures !Open(c, events, i) {
      if 0 <= i < |events| {
        DeadStays(c, events[..i]);
      }
    }
  }

  /** The error is a timeout exactly when the query's own timer fired before anything ended it. */
  lemma TimeoutIff(bindOk: bool, id: nat, sendOk: bool, rebinds: bool, events: seq<Event>)
    ensures var c := Created(bindOk, Some(id), sendOk, rebinds);
            Run(c, events).error == DnsTimeout <==> exists i :: Open(c, events, i) && events[i] == Timer(id)
  {
    SoundRun(Created(bindOk, Some(id), true, rebinds), bindOk || rebinds, id, events);
    EndedByOne(bindOk, id, rebinds, events);
    NeverOpen(bindOk, id, rebinds, events);
  }

  /** The other errors of a query whose expiry was in the future: failed if and only if the first send failed;
      does not exist if and only if a reply without answers came while the query was open and its socket
      bound; and ended without an error if and only if an address or an exchange did. */
  lemma OutcomeIff(bindOk: bool, id: nat, sendOk: bool, rebinds: bool, events: seq<Event>)
    ensures Run(Created(bindOk, Some(id), sendOk, rebinds), events).error == DnsFailed <==> !sendOk
    ensures var c := Created(bindOk, Some(id), sendOk, rebinds);
            Run(c, events).error == DnsDoesNotExist <==>
            (bindOk || rebinds) && exists i :: Open(c, events, i) && events[i] == Datagram(NoSuchName)
    ensures var c := Created(bindOk, Some(id), sendOk, rebinds);
            Run(c, events).finished == 1 && Run(c, events).error == DnsOk <==>
            (bindOk || rebinds) && exists i :: Open(c, events, i) && events[i].Datagram?
                                               && (events[i].found.Address? || events[i].found.Exchange?)
  {
    SoundRun(Created(bindOk, Some(id), true, rebinds), bindOk || rebinds, id, events);
    EndedByOne(bindOk, id, rebinds, events);
    NeverOpen(bindOk, id, rebinds, events);
  }

  // ---------------------------------------------------------------- the query object

  predicate Telling(e: Event) {
    e.Datagram? && !e.found.Ignored?
  }

  /** The event at `i` is the first that tells something. */
  ghost predicate FirstTold(events: seq<Event>, i: int) {
    0 <= i < |events| && Telling(events[i]) && forall j :: 0 <= j < i ==> !Telling(events[j])
  }

  lemma FirstToldLater(events: seq<Event>)
    requires events != [] && !Telling(events[0])
    ensures forall i :: FirstTold(events, i) ==> FirstTold(events[1..], i - 1)
    ensures forall i :: FirstTold(events[1..], i) ==> FirstTold(events, i + 1)
  {
    forall i | FirstTold(events[1..], i) ensures FirstTold(events, i + 1) {
      assert forall j :: 1 <= j < i + 1 ==> events[j] == events[1..][j - 1];
    }
  }

  lemma {:induction false} LateRun(l: Life, events: seq<Event>)
    requires l.bound && l.timer == -1
    ensures (forall e :: e in events ==> !Telling(e)) ==> Run(l, events) == l
    ensures forall i :: FirstTold(events, i) ==> Run(l, events) == Step(l, events[i])
    ensures (exists i :: FirstTold(events, i)) || forall e :: e in events ==> !Telling(e)
    decreases |events|
  {
    if events != [] {
      if Telling(events[0]) {
        DeadStays(Step(l, events[0]), events[1..]);
        assert FirstTold(events, 0);
      } else {
        LateRun(l, events[1..]);
        FirstToldLater(events);
      }
    }
  }

  /** A query whose expiry was past at creation keeps its timeout if and only if the first send went
      through, and did not bind the socket again or no reply tells anything. */
  lemma LateTimeoutIff(bindOk: bool, sendOk: bool, rebinds: bool, events: seq<Event>)
    ensures Run(Created(bindOk, None, sendOk, rebinds), events).error == DnsTimeout <==>
            sendOk && (!rebinds || forall e :: e in events ==> !Telling(e))
  {
    LateRunOf(bindOk, sendOk, rebinds, events);
  }

  lemma LateRunOf(bindOk: bool, sendOk: bool, rebinds: bool, events: seq<Event>)
    ensures var c := Created(bindOk, None, sendOk, rebinds);
            if sendOk && rebinds then
              if forall e :: e in events ==> !Telling(e) then Run(c, events) == c
              else exists i :: FirstTold(events, i) && Run(c, events) == Step(c, events[i])
            else Run(c, events) == c
  {
    var c := Created(bindOk, None, sendOk, rebinds);
    if sendOk && rebinds {
      LateRun(c, events);
    } else {
      DeadStays(c, events);
    }
  }

  lemma FirstToldUnique(events: seq<Event>, i: int, j: int)
    requires FirstTold(events, i) && FirstTold(events, j)
    ensures i == j
  {
  }

  /** The other errors of such a query: failed if and only if the first send failed; after a send that bound
      the socket again, the first reply that tells something decides. */
  lemma LateOutcomeIff(bindOk: bool, sendOk: bool, rebinds: bool, events: seq<Event>)
    ensures var l := Run(Created(bindOk, None, sendOk, rebinds), events);
            && (l.error == DnsFailed <==> !sendOk)
            && (l.error == DnsDoesNotExist <==>
                sendOk && rebinds && exists i :: FirstTold(events, i) && events[i].found.NoSuchName?)
            && (l.error == DnsOk <==>
                sendOk && rebinds
                && exists i :: FirstTold(events, i) && (events[i].found.Address? || events[i].found.Exchange?))
  {
    LateRunOf(bindOk, sendOk, rebinds, events);
    forall i, j | FirstTold(events, i) && FirstTold(events, j) ensures i == j {
      FirstToldUnique(events, i, j);
    }
  }

  /** A C string's worth of a byte sequence. */
  function UpToZero(s: seq<Byte>): (t: seq<Byte>)
    ensures t <= s && 0 !in t
    ensures |t| < |s| ==> s[|t|] == 0
  {
    if s == [] || s[0] == 0 then [] else [s[0]] + UpToZero(s[1..])
  }

  /** The first datagram the walk finds something in, or the number of them all. */
  function FirstTelling(queue: seq<Memory>, qtype: Byte, from: nat := 0): (n: nat)
    requires from <= |queue|
    ensures from <= n <= |queue|
    ensures forall i :: from <= i < n ==> FindAnswer(queue[i], qtype).Ignored?
    ensures n < |queue| ==> !FindAnswer(queue[n], qtype).Ignored?
    decreases |queue| - from
  {
    if from == |queue| || !FindAnswer(queue[from], qtype).Ignored? then from else FirstTelling(queue, qtype, from + 1)
  }

  function Arrivals(queue: seq<Memory>, qtype: Byte): (events: seq<Event>)
    ensures |events| == |queue|
    ensures forall i :: 0 <= i < |queue| ==> events[i] == Datagram(FindAnswer(queue[i], qtype))
  {
    seq(|queue|, i requires 0 <= i < |queue| => Datagram(FindAnswer(queue[i], qtype)))
  }

  lemma {:induction false} UnboundIgnores(l: Life, queue: seq<Memory>, qtype: Byte)
    requires !l.bound
    ensures Run(l, Arrivals(queue, qtype)) == l
    decreases |queue|
  {
    if queue != [] {
      assert Arrivals(queue, qtype)[1..] == Arrivals(queue[1..], qtype);
      UnboundIgnores(l, queue[1..], qtype);
    }
  }

  class DnsQuery {
    const name: seq<Byte>
    const queryType: Byte
    var error: DnsError
    var bound: bool
    var expiryTimer: TimerId
    var finished: nat          // emissions of the signal
    var startTime: int
    var endTime: Option<int>
    var expireTime: int
    var addr: Option<seq<Byte>>
    var mxName: seq<Byte>
    var sent: seq<seq<Byte>>   // datagrams written to the socket

    function View(): Life
      reads this
    {
      Life(bound, expiryTimer, error, finished)
    }

    /** What the datagram in `m` can do to this query without keeping `fetch` busy for ever. */
    ghost predicate Readable(m: Memory) {
      var found := FindAnswer(m, queryType);
      found.Exchange? ==> Ends(m, Cursor(found.at, false, MX_NAME_LEN))
    }

    /** `after` is `before` and then the name expanded at `at`. */
    ghost static predicate Appended(m: Memory, at: nat, before: seq<Byte>, after: seq<Byte>) {
      exists k: nat, text :: Text(m, Cursor(at, false, MX_NAME_LEN), k) == Some(text)
                             && after == before + UpToZero(text)
    }

    /** What a datagram with this finding makes of the address and the exchange name. */
    ghost static predicate Told(found: Found, m: Memory, addr0: Option<seq<Byte>>, mx0: seq<Byte>,
                                addr1: Option<seq<Byte>>, mx1: seq<Byte>) {
      match found
      case Ignored => addr1 == addr0 && mx1 == mx0
      case NoSuchName => addr1 == None && mx1 == mx0
      case Address(octets) => addr1 == Some(octets) && mx1 == mx0
      case Exchange(at) => addr1 == addr0 && Appended(m, at, mx0, mx1)
    }

    constructor (name: seq<Byte>, queryType: Byte, tid: nat, now: int, expire: int,
                 bindOk: bool, timerId: nat, writeOk: bool, rebinds: bool)
      requires tid < 0x10000 && 0 !in name
      ensures this.name == name && this.queryType == queryType
      ensures View() == Created(bindOk, if expire > now then Some(timerId) else None,
                                writeOk && |name| + 18 < 2048, rebinds)
      ensures sent == if |name| + 18 < 2048 then [QueryPacket(tid, name, queryType)] else []
      ensures startTime == now && expireTime == expire && addr == None && mxName == []
    {
      this.name, this.queryType := name, queryType;
      error, bound, expiryTimer, finished := DnsOk, bindOk, -1, 0;
      startTime, endTime, expireTime := now, None, expire;
      addr, mxName, sent := None, [], [];
      new;
      SetExpireTime(now, expire, timerId);
      Lookup(tid, now, writeOk, rebinds);
    }

    method SetExpireTime(now: int, expire: int, timerId: nat)
      modifies this`expiryTimer, this`expireTime, this`error, this`bound, this`endTime, this`finished
      ensures expireTime == expire
      ensures expire > now ==> View() == old(View()).(timer := timerId) && endTime == old(endTime)
      ensures expire <= now ==> View() == Ended(old(View()), DnsTimeout) && endTime == Some(now)
    {
      if expiryTimer >= 0 {
        expiryTimer := -1;
      }
      expireTime := expire;
      if expire > now {
        expiryTimer := timerId;
      } else {
        error := DnsTimeout;     // the listener's answer to `expired`
        Terminate(now);
      }
    }

    method Terminate(now: int)
      modifies this`expiryTimer, this`bound, this`endTime, this`finished
      ensures View() == Ended(old(View()), error) && endTime == Some(now)
    {
      endTime := Some(now);
      if bound {
        bound := false;
      }
      if expiryTimer >= 0 {
        expiryTimer := -1;
      }
      finished := finished + 1;
    }

    method TimerEvent(id: nat, now: int)
      modifies this`expiryTimer, this`error, this`bound, this`endTime, this`finished
      ensures View() == Step(old(View()), Timer(id))
    {
      if id == expiryTimer {
        error := DnsTimeout;
        Terminate(now);
      }
    }

    method Lookup(tid: nat, now: int, writeOk: bool, rebinds: bool)
      requires tid < 0x10000 && 0 !in name
      modifies this`expiryTimer, this`error, this`bound, this`endTime, this`finished, this`sent
      ensures var fits := |name| + 18 < 2048;
              && View() == (if writeOk && fits then old(View()).(bound := old(bound) || rebinds)
                          else Ended(old(View()), DnsFailed))
              && sent == if fits then old(sent) + [QueryPacket(tid, name, queryType)] else old(sent)
    {
      var datagram := EncodeQuery(tid, name, queryType);
      if datagram.Some? {
        sent := sent + [datagram.value];
        bound := bound || rebinds;
        if !writeOk {
          error := DnsFailed;
          Terminate(now);
        }
      } else {
        error := DnsFailed;
        Terminate(now);
      }
    }

    /** The exchange name is expanded into a buffer and appended as a C string. */
    method AppendName(m: Memory, at: nat)
      requires Ends(m, Cursor(at, false, MX_NAME_LEN))
      modifies this`mxName
      ensures Appended(m, at, old(mxName), mxName) && old(mxName) <= mxName
    {
      ghost var k: nat :| Text(m, Cursor(at, false, MX_NAME_LEN), k).Some?;
      var buffer := new Byte[MX_NAME_LEN + 2];
      var n := Fetch(m, at, buffer, MX_NAME_LEN, k);
      mxName := mxName + UpToZero(buffer[..n]);
    }

    method ProcessDatagram(m: Memory, now: int)
      requires bound && Readable(m)
      modifies this`expiryTimer, this`error, this`bound, this`endTime, this`finished, this`addr, this`mxName
      ensures View() == Step(old(View()), Datagram(FindAnswer(m, queryType)))
      ensures Told(FindAnswer(m, queryType), m, old(addr), old(mxName), addr, mxName)
      ensures match FindAnswer(m, queryType)
              case Ignored => addr == old(addr) && mxName == old(mxName)
              case NoSuchName => addr == None && mxName == old(mxName)
              case Address(octets) => addr == Some(octets) && mxName == old(mxName)
              case Exchange(at) => addr == old(addr) && old(mxName) <= mxName
    {
      var found := Walk(m, queryType);
      match found
      case Ignored =>
      case NoSuchName =>
        addr := None;
        error := DnsDoesNotExist;
        Terminate(now);
      case Address(octets) =>
        addr := Some(octets);
        error := DnsOk;
        Terminate(now);
      case Exchange(at) =>
        AppendName(m, at);
        error := DnsOk;
        Terminate(now);
    }

    /** One datagram is read and processed. */
    method ReadOne(m: Memory, now: int)
      requires bound && Readable(m)
      modifies this`expiryTimer, this`error, this`bound, this`endTime, this`finished, this`addr, this`mxName
      ensures View() == Step(old(View()), Datagram(FindAnswer(m, queryType)))
      ensures Told(FindAnswer(m, queryType), m, old(addr), old(mxName), addr, mxName)
    {
      ProcessDatagram(m, now);
    }

    /** Datagrams are read while the socket is bound; the first that tells something closes it, and only
        that one sets the address or the exchange name. */
    method ReadPendingDatagrams(queue: seq<Memory>, now: int)
      requires bound ==> forall i :: 0 <= i < |queue| && i <= FirstTelling(queue, queryType) ==> Readable(queue[i])
      modifies this`expiryTimer, this`error, this`bound, this`endTime, this`finished, this`addr, this`mxName
      ensures View() == Run(old(View()), Arrivals(queue, queryType))
      ensures old(bound) && FirstTelling(queue, queryType) < |queue| ==>
                var m := queue[FirstTelling(queue, queryType)];
                Told(FindAnswer(m, queryType), m, old(addr), old(mxName), addr, mxName)
      ensures !old(bound) || FirstTelling(queue, queryType) == |queue| ==> addr == old(addr) && mxName == old(mxName)
    {
      var i := 0;
      RunConcat(View(), [], Arrivals(queue, queryType));
      while bound && i < |queue|
        invariant 0 <= i <= |queue|
        invariant Run(old(View()), Arrivals(queue, queryType)) == Run(View(), Arrivals(queue[i..], queryType))
        invariant !old(bound) ==> i == 0 && !bound && addr == old(addr) && mxName == old(mxName)
        invariant bound ==> i <= FirstTelling(queue, queryType) && addr == old(addr) && mxName == old(mxName)
        invariant old(bound) && !bound ==> i == FirstTelling(queue, queryType) + 1
        invariant old(bound) && !bound ==>
                    Told(FindAnswer(queue[i - 1], queryType), queue[i - 1], old(addr), old(mxName), addr, mxName)
        decreases |queue| - i
      {
        assert Arrivals(queue[i..], queryType)[1..] == Arrivals(queue[i + 1..], queryType);
        ReadOne(queue[i], now);
        i := i + 1;
      }
      if i < |queue| {
        UnboundIgnores(View(), queue[i..], queryType);
      }
    }
  }

  /** A query accepts every datagram without a pointer loop. */
  lemma LoopFreeTold(q: DnsQuery, m: Memory)
    requires NoPointerLoop(m)
    ensures q.Readable(m)
  {
    var found := FindAnswer(m, q.queryType);
    if found.Exchange? {
      LoopFreeReadable(m, found.at, MX_NAME_LEN);
    }
  }

  /** The exchange name a query is told for a decoded name: what is written, up to its first zero byte. */
  function ToldName(d: Decoded): seq<Byte> {
    UpToZero(Expansion(d, false, MX_NAME_LEN))
  }

  /** The dotted name holds no zero byte and fits, or is cut by its own dangling dot. */
  predicate ToldWhole(d: Decoded) {
    var text := Dotted(d);
    && 0 !in text
    && (|text| <= 1024
        || (|text| == 1025 && text[1024] == DOT && !StartsLabel(d.labels, 1024)))
  }

  /** What is told is the whole dotted name if and only if it is free of zero bytes and fits, or is one byte
      too long with a dot at its end that is written all the same. */
  lemma ToldWholeIff(d: Decoded)
    ensures ToldName(d) == Dotted(d) <==> ToldWhole(d)
  {
    var text, written := Dotted(d), Expansion(d, false, MX_NAME_LEN);
    if ToldWhole(d) {
      assert written == text;
    }
  }

  /** When the name at `at` decompresses with pointers below 256, the query's exchange name grows by what is
      told of it, and by nothing else. */
  lemma ExchangeNameAppended(m: Memory, at: nat, budget: nat, d: Decoded, before: seq<Byte>, after: seq<Byte>)
    requires Decode(m.pkt, at, budget) == Some(d) && !d.far
    ensures DnsQuery.Appended(m, at, before, after) <==> after == before + ToldName(d)
  {
    var c := Cursor(at, false, MX_NAME_LEN);
    FetchDecompresses(m, at, MX_NAME_LEN, budget, d);
    var k: nat :| Text(m, c, k) == Some(Expansion(d, false, MX_NAME_LEN));
    forall k': nat, text | Text(m, c, k') == Some(text) ensures text == Expansion(d, false, MX_NAME_LEN) {
      TextUnique(m, c, k, k');
    }
  }

  /** It grows by the dotted name if and only if that is told whole. */
  lemma ExchangeNameIff(m: Memory, at: nat, budget: nat, d: Decoded, before: seq<Byte>)
    requires Decode(m.pkt, at, budget) == Some(d) && !d.far
    ensures DnsQuery.Appended(m, at, before, before + Dotted(d)) <==> ToldWhole(d)
  {
    ExchangeNameAppended(m, at, budget, d, before, before + Dotted(d));
    ToldWholeIff(d);
    SameFront(before, Dotted(d), ToldName(d));
  }

  lemma SameFront(front: seq<Byte>, a: seq<Byte>, b: seq<Byte>)
    ensures front + a == front + b <==> a == b
  {
    assert (front + a)[|front|..] == a && (front + b)[|front|..] == b;
  }

  lemma ExchangeTold(found: Found, m: Memory, at: nat, budget: nat, d: Decoded,
                     addr0: Option<seq<Byte>>, mx0: seq<Byte>, addr1: Option<seq<Byte>>, mx1: seq<Byte>)
    requires found == Exchange(at) && Decode(m.pkt, at, budget) == Some(d) && !d.far
    ensures DnsQuery.Told(found, m, addr0, mx0, addr1, mx1) <==> addr1 == addr0 && mx1 == mx0 + ToldName(d)
  {
    ExchangeNameAppended(m, at, budget, d, mx0, mx1);
  }
}
