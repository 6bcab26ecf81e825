/** The length-prefixed frames between the server and its user interface. */
module PacketFraming {
  import opened Sequences
  import opened Wrappers
  import opened Octets

  const HEADER: nat := 4
  const NULL_LENGTH: nat := 0xFFFF_FFFF
  const INT_MAX: nat := 0x7FFF_FFFF

  function BigEndian32(n: nat): (s: seq<Byte>)
    requires n <= NULL_LENGTH
    ensures |s| == HEADER && Read32(s) == n
  {
    PutU16(n / 0x10000) + PutU16(n % 0x10000)
  }

  function Read32(s: seq<Byte>): (n: nat)
    requires |s| >= HEADER
    ensures n <= NULL_LENGTH
  {
    U16(s[0], s[1]) * 0x10000 + U16(s[2], s[3])
  }

  /** What `send` writes for a serialized packet. */
  function Frame(payload: seq<Byte>): seq<Byte>
    requires |payload| <= NULL_LENGTH
  {
    BigEndian32(|payload|) + payload
  }

  /** The length comes first, its most significant byte in front. */
  lemma FrameOnTheWire(payload: seq<Byte>)
    requires |payload| <= 0xFFFF_FFFF
    ensures var f := Frame(payload);
            && |f| == 4 + |payload| && f[4..] == payload
            && ((f[0] as int * 256 + f[1]) * 256 + f[2]) * 256 + f[3] == |payload|
  {
    var f, header := Frame(payload), BigEndian32(|payload|);
    assert f[0] == header[0] && f[1] == header[1] && f[2] == header[2] && f[3] == header[3];
  }

  /** The bytes of a frame, by what they say: their length and their payload. */
  ghost predicate IsFrame(bytes: seq<Byte>, payload: seq<Byte>) {
    |bytes| == HEADER + |payload| && Read32(bytes) == |payload| && bytes[HEADER..] == payload
  }

  lemma SameWords(hi: nat, lo: nat, hi': nat, lo': nat)
    requires lo < 0x10000 && lo' < 0x10000 && hi * 0x10000 + lo == hi' * 0x10000 + lo'
    ensures hi == hi' && lo == lo'
  {
  }

  lemma SameOctets(hi: Byte, lo: Byte, hi': Byte, lo': Byte)
    requires U16(hi, lo) == U16(hi', lo')
    ensures hi == hi' && lo == lo'
  {
  }

  lemma SameHeader(a: seq<Byte>, b: seq<Byte>)
    requires |a| >= HEADER && |b| >= HEADER && Read32(a) == Read32(b)
    ensures a[..HEADER] == b[..HEADER]
  {
    SameWords(U16(a[0], a[1]), U16(a[2], a[3]), U16(b[0], b[1]), U16(b[2], b[3]));
    SameOctets(a[0], a[1], b[0], b[1]);
    SameOctets(a[2], a[3], b[2], b[3]);
  }

  lemma FrameIff(bytes: seq<Byte>, payload: seq<Byte>)
    requires |payload| <= NULL_LENGTH
    ensures bytes == Frame(payload) <==> IsFrame(bytes, payload)
  {
    var header, frame := BigEndian32(|payload|), Frame(payload);
    assert frame[..HEADER] == header && frame[HEADER..] == payload;
    assert Read32(frame) == Read32(header);
    if IsFrame(bytes, payload) {
      SameHeader(bytes, header);
      assert bytes == bytes[..HEADER] + bytes[HEADER..];
    }
  }

  /** The receiver between two calls of `recv`: its state, the announced length, the bytes collected,
      and what is left unread in the socket. */
  datatype Receiver = Receiver(state: nat, length: nat, data: seq<Byte>, unread: seq<Byte>)

  const IDLE: Receiver := Receiver(0, 0, [], [])

  /** The announced length as the signed integer it is compared as. */
  function Signed(length: nat): int {
    if length <= INT_MAX then length else length - 0x1_0000_0000
  }

  /** One call of `recv` when `chunk` has arrived, and the payload it signals, if any. Reading a length
      from fewer than four bytes takes them and yields zero. */
  function Received(r: Receiver, chunk: seq<Byte>): (Receiver, Option<seq<Byte>>) {
    var bytes := r.unread + chunk;
    if r.state == 0 then
      var length := if |bytes| >= HEADER then Read32(bytes) else 0;
      var rest := if |bytes| >= HEADER then bytes[HEADER..] else [];
      if length == NULL_LENGTH then (Receiver(0, length, [], rest), None)
      else Collected(length, rest)
    else
      Collected(r.length, r.data + bytes)
  }

  function Collected(length: nat, data: seq<Byte>): (Receiver, Option<seq<Byte>>) {
    if |data| < Signed(length) then (Receiver(1, length, data, []), None)
    else (Receiver(0, length, data, []), Some(data))
  }

  /** What no frame announces. Four bytes of 255 are swallowed without a signal; any other length from 2^31 on
      counts as negative, so whatever has arrived behind it is signalled at once; and fewer than four bytes
      are lost, with an empty payload signalled. */
  lemma OddLengths(r: Receiver, chunk: seq<Byte>)
    requires r.state == 0
    ensures var bytes := r.unread + chunk;
            && (|bytes| < 4 ==> Received(r, chunk) == (IDLE, Some([])))
            && (|bytes| >= 4 && bytes[..4] == [255, 255, 255, 255] ==>
                Received(r, chunk) == (Receiver(0, 0xFFFF_FFFF, [], bytes[4..]), None))
            && (|bytes| >= 4 && bytes[0] >= 128 && bytes[..4] != [255, 255, 255, 255] ==>
                Received(r, chunk).0.state == 0 && Received(r, chunk).0.unread == []
                && Received(r, chunk).1 == Some(bytes[4..]))
  {
    var bytes := r.unread + chunk;
    if |bytes| >= 4 {
      assert bytes[..4] == [bytes[0], bytes[1], bytes[2], bytes[3]];
    }
  }

  class Packet {
    var rxState: nat
    var rxLength: nat
    var rxData: seq<Byte>
    var content: Option<seq<Byte>>   // the map last received, in its serialized form; none when cleared

    constructor ()
      ensures rxState == 0 && rxLength == 0 && rxData == [] && content == None
    {
      rxState, rxLength, rxData, content := 0, 0, [], None;
    }

    method Clear()
      modifies this`rxState, this`rxLength, this`content
      ensures rxState == 0 && rxLength == 0 && content == None
    {
      content := None;
      rxState, rxLength := 0, 0;
    }

    /** `socket` is what can be read; returned is what can still be read afterwards. */
    method Recv(socket: seq<Byte>) returns (signal: Option<seq<Byte>>, unread: seq<Byte>)
      requires rxState <= 1
      modifies this
      ensures var r := Received(Receiver(old(rxState), old(rxLength), old(rxData), []), socket);
              && rxState == r.0.state && rxLength == r.0.length && rxData == r.0.data
              && unread == r.0.unread && signal == r.1
      ensures rxState <= 1
      ensures content == if signal.Some? then signal else old(content)
    {
      unread := socket;
      assert [] + socket == socket;
      if rxState == 0 {
        rxData := [];
        if |unread| >= HEADER {
          rxLength := Read32(unread);
          unread := unread[HEADER..];
        } else {
          rxLength := 0;
          unread := [];
        }
        if rxLength == NULL_LENGTH {
          return None, unread;
        }
        rxState := 1;
      }
      rxData := rxData + unread;
      unread := [];
      if |rxData| < Signed(rxLength) {
        return None, unread;
      }
      rxState := 0;
      signal := Some(rxData);
      content := signal;
    }
  }

  // ---------------------------------------------------------------- framing

  function After(r: Receiver, chunks: seq<seq<Byte>>): Receiver
    decreases |chunks|
  {
    if chunks == [] then r else After(Received(r, chunks[0]).0, chunks[1..])
  }

  function Signals(r: Receiver, chunks: seq<seq<Byte>>): seq<seq<Byte>>
    decreases |chunks|
  {
    if chunks == [] then []
    else
      var (next, signal) := Received(r, chunks[0]);
      (match signal case None => [] case Some(data) => [data]) + Signals(next, chunks[1..])
  }

  /** At rest: the next call starts a new frame. */
  predicate AtRest(r: Receiver) {
    r.state == 0 && r.unread == []
  }

  /** The payloads are signalled, in order and nothing else, and the receiver is at rest at the end. */
  ghost predicate Delivers(r: Receiver, chunks: seq<seq<Byte>>, payloads: seq<seq<Byte>>) {
    Signals(r, chunks) == payloads && AtRest(After(r, chunks))
  }

  ghost predicate NonEmpty(chunks: seq<seq<Byte>>) {
    forall i :: 0 <= i < |chunks| ==> chunks[i] != []
  }

  /** Frames one after the other, each with a payload that fits a signed length. */
  ghost predicate Framed(bytes: seq<Byte>, payloads: seq<seq<Byte>>)
    decreases |payloads|
  {
    if payloads == [] then bytes == []
    else
      var n := HEADER + |payloads[0]|;
      && |payloads[0]| <= INT_MAX && n <= |bytes| && IsFrame(bytes[..n], payloads[0])
      && Framed(bytes[n..], payloads[1..])
  }

  /** The next call of `recv`, by what it signals. */
  lemma Next(r: Receiver, chunks: seq<seq<Byte>>, payloads: seq<seq<Byte>>)
    requires chunks != []
    ensures var (next, signal) := Received(r, chunks[0]);
            Delivers(r, chunks, payloads) <==>
              match signal
              case None => Delivers(next, chunks[1..], payloads)
              case Some(data) => payloads != [] && payloads[0] == data && Delivers(next, chunks[1..], payloads[1..])
  {
    var (next, signal) := Received(r, chunks[0]);
    if signal.Some? {
      assert Signals(r, chunks) == [signal.value] + Signals(next, chunks[1..]);
      if Signals(r, chunks) == payloads {
        assert payloads[1..] == Signals(next, chunks[1..]);
      }
      if payloads != [] {
        assert payloads == [payloads[0]] + payloads[1..];
      }
    }
  }

  // ---------------------------------------------------------------- out of step

  /** The receiver is behind: the bytes not yet used by a signal are `behind`, the end of a frame whose
      signal is out, and then whole frames. Enough is known of `behind` for the receiver to stay behind: it
      is shorter than a header, or not all of its bytes are 0xFF, so null lengths do not use it up. */
  ghost predicate Lags(bytes: seq<Byte>, behind: nat, payloads: seq<seq<Byte>>) {
    && 0 < behind <= |bytes| && Framed(bytes[behind..], payloads)
    && (behind < HEADER || exists i :: 0 <= i < behind && bytes[i] != 0xFF)
  }

  /** The first header byte of a payload that fits a signed length. */
  lemma HeaderByte(bytes: seq<Byte>, behind: nat, payloads: seq<seq<Byte>>)
    requires behind <= |bytes| && Framed(bytes[behind..], payloads) && payloads != []
    ensures |bytes| >= behind + HEADER + |payloads[0]| && bytes[behind] < 0x80
    ensures bytes[behind + HEADER..behind + HEADER + |payloads[0]|] == payloads[0]
    ensures Framed(bytes[behind + HEADER + |payloads[0]|..], payloads[1..])
    ensures payloads[0] == [] ==> bytes[behind + 3] == 0
  {
    var n := HEADER + |payloads[0]|;
    var frame := bytes[behind..][..n];
    assert Read32(frame) == |payloads[0]|;
    assert frame[HEADER..] == bytes[behind + HEADER..behind + n];
    assert bytes[behind..][n..] == bytes[behind + n..];
    assert frame[0] == bytes[behind] && frame[3] == bytes[behind + 3];
  }

  lemma NullBytes(bytes: seq<Byte>)
    requires |bytes| >= HEADER && Read32(bytes) == NULL_LENGTH
    ensures forall i :: 0 <= i < HEADER ==> bytes[i] == 0xFF
  {
  }

  /** A null length takes nothing of the frames to come. */
  lemma NullIsBehind(bytes: seq<Byte>, behind: nat, payloads: seq<seq<Byte>>)
    requires Lags(bytes, behind, payloads) && |bytes| >= HEADER && Read32(bytes) == NULL_LENGTH
    ensures behind >= HEADER
  {
    NullBytes(bytes);
    if behind < HEADER && payloads != [] {
      HeaderByte(bytes, behind, payloads);
    }
  }

  lemma NoNullLength(bytes: seq<Byte>, behind: nat, payloads: seq<seq<Byte>>)
    requires Lags(bytes, behind, payloads) && |bytes| >= HEADER && Read32(bytes) == NULL_LENGTH
    ensures behind > HEADER && Lags(bytes[HEADER..], behind - HEADER, payloads)
  {
    NullIsBehind(bytes, behind, payloads);
    NullBytes(bytes);
    var i :| 0 <= i < behind && bytes[i] != 0xFF;
    WithoutHeader(bytes, behind, i);
  }

  lemma WithoutHeader(bytes: seq<Byte>, behind: nat, i: nat)
    requires HEADER <= i < |bytes| && HEADER <= behind <= |bytes|
    ensures bytes[HEADER..][i - HEADER] == bytes[i] && bytes[HEADER..][behind - HEADER..] == bytes[behind..]
  {
  }

  /** A short header is signalled as an empty payload, and leaves the receiver behind. */
  lemma ShortLags(bytes: seq<Byte>, behind: nat, payloads: seq<seq<Byte>>, h: nat)
    requires behind <= |bytes| && Framed(bytes[behind..], payloads) && payloads != [] && payloads[0] == []
    requires h < HEADER && h < behind + HEADER
    ensures h <= |bytes| && Lags(bytes[h..], behind + HEADER - h, payloads[1..])
  {
    HeaderByte(bytes, behind, payloads);
    assert bytes[h..][behind + 3 - h] == bytes[behind + 3];
    assert bytes[h..][behind + HEADER - h..] == bytes[behind + HEADER..];
  }

  /** A payload signalled from bytes that lie behind its own repeats itself with that period, so it cannot
      end in nothing but 0xFF: its header lies in every period. */
  lemma FullLags(bytes: seq<Byte>, behind: nat, payloads: seq<seq<Byte>>)
    requires Lags(bytes, behind, payloads) && payloads != []
    requires HEADER + |payloads[0]| <= |bytes| && bytes[HEADER..HEADER + |payloads[0]|] == payloads[0]
    ensures Lags(bytes[HEADER + |payloads[0]|..], behind, payloads[1..])
  {
    var n := HEADER + |payloads[0]|;
    HeaderByte(bytes, behind, payloads);
    assert bytes[n..][behind..] == bytes[behind + n..];
    if behind >= HEADER {
      Repeats(bytes, behind, |payloads[0]|);
      var i := Periods(bytes, behind, n, behind);
      NotAllNull(bytes, n, behind, i);
    }
  }

  lemma NotAllNull(bytes: seq<Byte>, n: nat, behind: nat, i: nat)
    requires n <= i < n + behind <= |bytes| && bytes[i] < 0x80
    ensures exists j :: 0 <= j < behind && bytes[n..][j] != 0xFF
  {
    assert bytes[n..][i - n] == bytes[i];
  }

  lemma Repeats(bytes: seq<Byte>, period: nat, length: nat)
    requires period + HEADER + length <= |bytes|
    requires bytes[HEADER..HEADER + length] == bytes[period + HEADER..period + HEADER + length]
    ensures forall j :: HEADER <= j < HEADER + length ==> bytes[j + period] == bytes[j]
  {
    forall j | HEADER <= j < HEADER + length ensures bytes[j + period] == bytes[j] {
      assert bytes[HEADER..HEADER + length][j - HEADER] == bytes[period + HEADER..period + HEADER + length][j - HEADER];
    }
  }

  /** From index `j` on in steps of the period, into the last period. */
  lemma {:induction false} Periods(bytes: seq<Byte>, period: nat, n: nat, j: nat) returns (i: nat)
    requires HEADER <= period && HEADER <= j < n + period <= |bytes| && bytes[j] < 0x80
    requires forall x :: HEADER <= x < n ==> bytes[x + period] == bytes[x]
    ensures n <= i < n + period && bytes[i] < 0x80
    decreases n + period - j
  {
    if j >= n {
      i := j;
    } else {
      i := Periods(bytes, period, n, j + period);
    }
  }

  lemma HeaderOf(front: seq<Byte>, back: seq<Byte>)
    requires |front| >= HEADER
    ensures Read32(front + back) == Read32(front)
    ensures (front + back)[HEADER..] == front[HEADER..] + back
  {
  }

  lemma ReceivedShort(r: Receiver, chunk: seq<Byte>)
    requires r.state == 0 && |r.unread + chunk| < HEADER
    ensures Received(r, chunk) == (IDLE, Some([]))
  {
  }

  /** Behind with chunks to come, between two calls. */
  ghost predicate Behind(r: Receiver, chunks: seq<seq<Byte>>, behind: nat, payloads: seq<seq<Byte>>) {
    r.state == 0 && NonEmpty(chunks) && Lags(r.unread + Concat(chunks), behind, payloads)
  }

  /** A call on fewer bytes than a header. */
  lemma ShortCall(r: Receiver, chunks: seq<seq<Byte>>, behind: nat, payloads: seq<seq<Byte>>)
    requires r.state == 0 && NonEmpty(chunks) && chunks != [] && Delivers(r, chunks, payloads)
    requires behind <= |r.unread + Concat(chunks)| && Framed((r.unread + Concat(chunks))[behind..], payloads)
    requires |r.unread + chunks[0]| < HEADER && |r.unread + chunks[0]| < behind + HEADER
    ensures payloads != [] && Delivers(IDLE, chunks[1..], payloads[1..])
    ensures Behind(IDLE, chunks[1..], behind + HEADER - |r.unread + chunks[0]|, payloads[1..])
  {
    var bytes, h := r.unread + Concat(chunks), |r.unread + chunks[0]|;
    Next(r, chunks, payloads);
    ReceivedShort(r, chunks[0]);
    BytesLeft(r, chunks);
    ShortLags(bytes, behind, payloads, h);
  }

  lemma BytesLeft(r: Receiver, chunks: seq<seq<Byte>>)
    requires chunks != []
    ensures |r.unread + chunks[0]| <= |r.unread + Concat(chunks)|
    ensures (r.unread + Concat(chunks))[|r.unread + chunks[0]|..] == Concat(chunks[1..]) == [] + Concat(chunks[1..])
  {
    Assoc(r.unread, chunks[0], Concat(chunks[1..]));
  }

  /** A call on a null length, which it takes off the socket. */
  lemma NullCall(r: Receiver, chunks: seq<seq<Byte>>, behind: nat, payloads: seq<seq<Byte>>)
    requires Behind(r, chunks, behind, payloads) && chunks != [] && Delivers(r, chunks, payloads)
    requires |r.unread + chunks[0]| >= HEADER && Read32(r.unread + chunks[0]) == NULL_LENGTH
    ensures behind > HEADER && Delivers(Received(r, chunks[0]).0, chunks[1..], payloads)
    ensures Behind(Received(r, chunks[0]).0, chunks[1..], behind - HEADER, payloads)
  {
    var here, later := r.unread + chunks[0], Concat(chunks[1..]);
    Next(r, chunks, payloads);
    Assoc(r.unread, chunks[0], later);
    HeaderOf(here, later);
    NoNullLength(here + later, behind, payloads);
  }

  /** Right after a call that collected `data` behind `header`, and signalled it or not. */
  ghost predicate Collecting(header: seq<Byte>, data: seq<Byte>, next: Receiver, signal: Option<seq<Byte>>) {
    |header| == HEADER && (next, signal) == Collected(next.length, data)
  }

  /** What is signalled, or the chunks to come if nothing is, begins the payloads. */
  ghost predicate GoesOn(next: Receiver, signal: Option<seq<Byte>>, later: seq<seq<Byte>>, payloads: seq<seq<Byte>>) {
    match signal
    case None => Delivers(next, later, payloads)
    case Some(data) => payloads != [] && payloads[0] == data && Delivers(next, later, payloads[1..])
  }

  /** A call that reads a length and collects what is there. */
  lemma HeaderCall(r: Receiver, chunks: seq<seq<Byte>>, payloads: seq<seq<Byte>>)
    returns (header: seq<Byte>, data: seq<Byte>)
    requires r.state == 0 && chunks != [] && Delivers(r, chunks, payloads)
    requires |r.unread + chunks[0]| >= HEADER && Read32(r.unread + chunks[0]) != NULL_LENGTH
    ensures var (next, signal) := Received(r, chunks[0]);
            Collecting(header, data, next, signal) && GoesOn(next, signal, chunks[1..], payloads)
    ensures header + data == r.unread + chunks[0]
    ensures header + data + Concat(chunks[1..]) == r.unread + Concat(chunks)
  {
    var here := r.unread + chunks[0];
    header, data := here[..HEADER], here[HEADER..];
    Next(r, chunks, payloads);
    Assoc(r.unread, chunks[0], Concat(chunks[1..]));
    assert here == header + data;
  }

  /** A call that collects more for a length already read. */
  lemma CollectingCall(r: Receiver, header: seq<Byte>, chunks: seq<seq<Byte>>, payloads: seq<seq<Byte>>)
    returns (data: seq<Byte>)
    requires r.state == 1 && r.unread == [] && chunks != [] && |header| == HEADER && Delivers(r, chunks, payloads)
    ensures var (next, signal) := Received(r, chunks[0]);
            Collecting(header, data, next, signal) && GoesOn(next, signal, chunks[1..], payloads)
    ensures data == r.data + chunks[0]
    ensures header + data + Concat(chunks[1..]) == header + r.data + Concat(chunks)
  {
    data := r.data + chunks[0];
    Next(r, chunks, payloads);
    assert [] + chunks[0] == chunks[0];
    Regroup(header, r.data, chunks[0], Concat(chunks[1..]));
    Assoc(header + r.data, chunks[0], Concat(chunks[1..]));
  }

  lemma SignalledBehind(header: seq<Byte>, data: seq<Byte>, next: Receiver, later: seq<seq<Byte>>, behind: nat,
                        payloads: seq<seq<Byte>>)
    requires |header| == HEADER && Lags(header + data + Concat(later), behind, payloads) && NonEmpty(later)
    requires payloads != [] && payloads[0] == data && AtRest(next)
    ensures Behind(next, later, behind, payloads[1..])
  {
    var bytes := header + data + Concat(later);
    assert bytes[HEADER..HEADER + |data|] == data && bytes[HEADER + |data|..] == Concat(later);
    FullLags(bytes, behind, payloads);
    assert next.unread + Concat(later) == Concat(later);
  }

  /** Once behind, never again in step: what is signalled is not what was sent, or bytes are left over. */
  lemma {:induction false} BehindFails(r: Receiver, chunks: seq<seq<Byte>>, behind: nat, payloads: seq<seq<Byte>>)
    requires Behind(r, chunks, behind, payloads)
    ensures !Delivers(r, chunks, payloads)
    decreases |chunks|, 1
  {
    if chunks == [] {
      assert r.unread + Concat(chunks) == r.unread;
    } else if |r.unread + chunks[0]| < HEADER {
      ShortFails(r, chunks, behind, payloads);
    } else if Read32(r.unread + chunks[0]) == NULL_LENGTH {
      NullFails(r, chunks, behind, payloads);
    } else {
      HeaderFails(r, chunks, behind, payloads);
    }
  }

  lemma {:induction false} ShortFails(r: Receiver, chunks: seq<seq<Byte>>, behind: nat, payloads: seq<seq<Byte>>)
    requires Behind(r, chunks, behind, payloads) && chunks != [] && |r.unread + chunks[0]| < HEADER
    ensures !Delivers(r, chunks, payloads)
    decreases |chunks|, 0
  {
    if Delivers(r, chunks, payloads) {
      ShortCall(r, chunks, behind, payloads);
      BehindFails(IDLE, chunks[1..], behind + HEADER - |r.unread + chunks[0]|, payloads[1..]);
    }
  }

  lemma {:induction false} NullFails(r: Receiver, chunks: seq<seq<Byte>>, behind: nat, payloads: seq<seq<Byte>>)
    requires Behind(r, chunks, behind, payloads) && chunks != []
    requires |r.unread + chunks[0]| >= HEADER && Read32(r.unread + chunks[0]) == NULL_LENGTH
    ensures !Delivers(r, chunks, payloads)
    decreases |chunks|, 0
  {
    if Delivers(r, chunks, payloads) {
      NullCall(r, chunks, behind, payloads);
      BehindFails(Received(r, chunks[0]).0, chunks[1..], behind - HEADER, payloads);
    }
  }

  lemma {:induction false} HeaderFails(r: Receiver, chunks: seq<seq<Byte>>, behind: nat, payloads: seq<seq<Byte>>)
    requires Behind(r, chunks, behind, payloads) && chunks != []
    requires |r.unread + chunks[0]| >= HEADER && Read32(r.unread + chunks[0]) != NULL_LENGTH
    ensures !Delivers(r, chunks, payloads)
    decreases |chunks|, 0
  {
    if Delivers(r, chunks, payloads) {
      var header, data := HeaderCall(r, chunks, payloads);
      var (next, signal) := Received(r, chunks[0]);
      CollectedFails(header, data, next, signal, chunks[1..], behind, payloads);
    }
  }

  lemma {:induction false} CollectedFails(header: seq<Byte>, data: seq<Byte>, next: Receiver, signal: Option<seq<Byte>>,
                                          later: seq<seq<Byte>>, behind: nat, payloads: seq<seq<Byte>>)
    requires Collecting(header, data, next, signal) && NonEmpty(later)
    requires Lags(header + data + Concat(later), behind, payloads)
    ensures !GoesOn(next, signal, later, payloads)
    decreases |later|, 2
  {
    if GoesOn(next, signal, later, payloads) {
      if signal.Some? {
        SignalledBehind(header, data, next, later, behind, payloads);
        BehindFails(next, later, behind, payloads[1..]);
      } else if later != [] {
        var more := CollectingCall(next, header, later, payloads);
        var (next', signal') := Received(next, later[0]);
        CollectedFails(header, more, next', signal', later[1..], behind, payloads);
      }
    }
  }

  // ---------------------------------------------------------------- in step

  /** The chunks of several frames, one frame after the other. */
  function Flat(splits: seq<seq<seq<Byte>>>): seq<seq<Byte>> {
    if splits == [] then [] else splits[0] + Flat(splits[1..])
  }

  /** One frame cut into chunks, with its header whole in the first. */
  ghost predicate WholeHeader(chunks: seq<seq<Byte>>, payload: seq<Byte>) {
    && chunks != [] && NonEmpty(chunks) && |chunks[0]| >= HEADER
    && |payload| <= INT_MAX && IsFrame(Concat(chunks), payload)
  }

  /** The chunks, grouped frame by frame. */
  ghost predicate FrameByFrame(chunks: seq<seq<Byte>>, payloads: seq<seq<Byte>>, splits: seq<seq<seq<Byte>>>) {
    && Flat(splits) == chunks && |splits| == |payloads|
    && forall i :: 0 <= i < |splits| ==> WholeHeader(splits[i], payloads[i])
  }

  /** `header` and `data` have come; `more` completes the first frame, and the rest comes frame by frame. */
  ghost predicate Begun(header: seq<Byte>, data: seq<Byte>, later: seq<seq<Byte>>, payloads: seq<seq<Byte>>,
                        more: seq<seq<Byte>>, splits: seq<seq<seq<Byte>>>)
  {
    && payloads != [] && later == more + Flat(splits) && NonEmpty(more)
    && |payloads[0]| <= INT_MAX && IsFrame(header + data + Concat(more), payloads[0])
    && FrameByFrame(Flat(splits), payloads[1..], splits)
  }

  lemma FirstFrame(header: seq<Byte>, data: seq<Byte>, later: seq<Byte>, payloads: seq<seq<Byte>>)
    requires |header| == HEADER && payloads != [] && payloads[0] == data && Framed(header + data + later, payloads)
    ensures |data| <= INT_MAX && IsFrame(header + data, data) && Framed(later, payloads[1..])
  {
    var bytes, n := header + data + later, HEADER + |data|;
    assert bytes[..n] == header + data && bytes[n..] == later;
  }

  lemma FirstEnds(header: seq<Byte>, data: seq<Byte>, later: seq<seq<Byte>>, payloads: seq<seq<Byte>>,
                  splits: seq<seq<seq<Byte>>>)
    requires payloads != [] && |data| <= INT_MAX && IsFrame(header + data, data) && payloads[0] == data
    requires FrameByFrame(later, payloads[1..], splits)
    ensures Begun(header, data, later, payloads, [], splits)
  {
    assert header + data + Concat<Byte>([]) == header + data;
    assert later == [] + Flat(splits);
  }

  lemma FirstGrows(header: seq<Byte>, data: seq<Byte>, later: seq<seq<Byte>>, payloads: seq<seq<Byte>>,
                   more: seq<seq<Byte>>, splits: seq<seq<seq<Byte>>>)
    requires later != [] && NonEmpty(later) && Begun(header, data + later[0], later[1..], payloads, more, splits)
    ensures Begun(header, data, later, payloads, [later[0]] + more, splits)
  {
    var grown := [later[0]] + more;
    assert grown[1..] == more;
    Regroup(header, data, later[0], Concat(more));
    Assoc(header + data, later[0], Concat(more));
    Assoc([later[0]], more, Flat(splits));
    assert later == [later[0]] + later[1..];
  }

  lemma SplitWhole(first: seq<Byte>, more: seq<seq<Byte>>, payload: seq<Byte>)
    requires |first| >= HEADER && NonEmpty(more) && |payload| <= INT_MAX && IsFrame(first + Concat(more), payload)
    ensures WholeHeader([first] + more, payload)
  {
    assert ([first] + more)[1..] == more;
  }

  lemma OneMoreFrame(chunks: seq<seq<Byte>>, payloads: seq<seq<Byte>>, split: seq<seq<Byte>>,
                     splits: seq<seq<seq<Byte>>>)
    requires payloads != [] && WholeHeader(split, payloads[0]) && chunks == split + Flat(splits)
    requires FrameByFrame(Flat(splits), payloads[1..], splits)
    ensures FrameByFrame(chunks, payloads, [split] + splits)
  {
    var all := [split] + splits;
    assert all[1..] == splits;
    forall i | 0 <= i < |all| ensures WholeHeader(all[i], payloads[i]) {
      if i > 0 {
        assert all[i] == splits[i - 1] && payloads[i] == payloads[1..][i - 1];
      }
    }
  }

  lemma FirstWhole(header: seq<Byte>, data: seq<Byte>, chunks: seq<seq<Byte>>, payloads: seq<seq<Byte>>,
                   more: seq<seq<Byte>>, splits: seq<seq<seq<Byte>>>)
    requires chunks != [] && |chunks[0]| >= HEADER && header + data == chunks[0]
    requires Begun(header, data, chunks[1..], payloads, more, splits)
    ensures FrameByFrame(chunks, payloads, [[chunks[0]] + more] + splits)
  {
    SplitWhole(chunks[0], more, payloads[0]);
    assert chunks == [chunks[0]] + chunks[1..];
    Assoc([chunks[0]], more, Flat(splits));
    OneMoreFrame(chunks, payloads, [chunks[0]] + more, splits);
  }

  lemma LengthRead(first: seq<Byte>, later: seq<Byte>, payloads: seq<seq<Byte>>)
    requires |first| >= HEADER && Framed(first + later, payloads)
    ensures payloads != [] && Read32(first) == |payloads[0]| <= INT_MAX
  {
    HeaderOf(first, later);
    var frame := (first + later)[..HEADER + |payloads[0]|];
    assert Read32(frame) == Read32(first);
  }

  lemma NotShort(r: Receiver, chunks: seq<seq<Byte>>, payloads: seq<seq<Byte>>)
    requires AtRest(r) && NonEmpty(chunks) && chunks != [] && Framed(Concat(chunks), payloads)
    requires Delivers(r, chunks, payloads)
    ensures |chunks[0]| >= HEADER
  {
    assert r.unread + chunks[0] == chunks[0] && r.unread + Concat(chunks) == Concat(chunks);
    assert Concat(chunks)[0..] == Concat(chunks);
    if |chunks[0]| < HEADER {
      ShortCall(r, chunks, 0, payloads);
      BehindFails(IDLE, chunks[1..], HEADER - |chunks[0]|, payloads[1..]);
    }
  }

  /** The first call, in step. */
  lemma FirstCall(r: Receiver, chunks: seq<seq<Byte>>, payloads: seq<seq<Byte>>)
    returns (header: seq<Byte>, data: seq<Byte>)
    requires AtRest(r) && NonEmpty(chunks) && chunks != [] && Framed(Concat(chunks), payloads)
    requires Delivers(r, chunks, payloads)
    ensures payloads != [] && |chunks[0]| >= HEADER && header + data == chunks[0]
    ensures Collecting(header, data, Received(r, chunks[0]).0, Received(r, chunks[0]).1)
    ensures GoesOn(Received(r, chunks[0]).0, Received(r, chunks[0]).1, chunks[1..], payloads)
    ensures Framed(header + data + Concat(chunks[1..]), payloads)
  {
    NotShort(r, chunks, payloads);
    LengthRead(chunks[0], Concat(chunks[1..]), payloads);
    NothingUnread(r, chunks);
    header, data := HeaderCall(r, chunks, payloads);
  }

  lemma NothingUnread(r: Receiver, chunks: seq<seq<Byte>>)
    requires AtRest(r) && chunks != []
    ensures r.unread + chunks[0] == chunks[0] && r.unread + Concat(chunks) == Concat(chunks)
  {
  }

  /** What is delivered in step was cut frame by frame, every header whole. */
  lemma {:induction false} InStep(r: Receiver, chunks: seq<seq<Byte>>, payloads: seq<seq<Byte>>)
    returns (splits: seq<seq<seq<Byte>>>)
    requires AtRest(r) && NonEmpty(chunks) && Framed(Concat(chunks), payloads) && Delivers(r, chunks, payloads)
    ensures FrameByFrame(chunks, payloads, splits)
    decreases |chunks|, 1
  {
    splits := [];
    if chunks != [] {
      var header, data := FirstCall(r, chunks, payloads);
      var (next, signal) := Received(r, chunks[0]);
      var more, rest := Body(header, data, next, signal, chunks[1..], payloads);
      FirstWhole(header, data, chunks, payloads, more, rest);
      splits := [[chunks[0]] + more] + rest;
    }
  }

  lemma {:induction false} Body(header: seq<Byte>, data: seq<Byte>, next: Receiver, signal: Option<seq<Byte>>,
                                later: seq<seq<Byte>>, payloads: seq<seq<Byte>>)
    returns (more: seq<seq<Byte>>, splits: seq<seq<seq<Byte>>>)
    requires Collecting(header, data, next, signal) && NonEmpty(later) && payloads != []
    requires Framed(header + data + Concat(later), payloads) && GoesOn(next, signal, later, payloads)
    ensures Begun(header, data, later, payloads, more, splits)
    decreases |later|, 2
  {
    if signal.Some? {
      FirstFrame(header, data, Concat(later), payloads);
      splits := InStep(next, later, payloads[1..]);
      FirstEnds(header, data, later, payloads, splits);
      more := [];
    } else {
      var data' := CollectingCall(next, header, later, payloads);
      var (next', signal') := Received(next, later[0]);
      more, splits := Body(header, data', next', signal', later[1..], payloads);
      FirstGrows(header, data, later, payloads, more, splits);
      more := [later[0]] + more;
    }
  }

  lemma LastCall(length: nat, data: seq<Byte>, chunk: seq<Byte>)
    requires length <= INT_MAX && |data| + |chunk| == length
    ensures Delivers(Receiver(1, length, data, []), [chunk], [data + chunk])
  {
    assert [] + chunk == chunk && [chunk][1..] == [] && [data + chunk][1..] == [];
    Next(Receiver(1, length, data, []), [chunk], [data + chunk]);
  }

  /** The chunks behind the header complete the frame exactly at the last of them. */
  lemma {:induction false} RestOfFrame(length: nat, data: seq<Byte>, chunks: seq<seq<Byte>>)
    requires length <= INT_MAX && |data| + |Concat(chunks)| == length && chunks != [] && NonEmpty(chunks)
    ensures Delivers(Receiver(1, length, data, []), chunks, [data + Concat(chunks)])
    decreases |chunks|
  {
    var more, rest := data + chunks[0], chunks[1..];
    if rest == [] {
      assert chunks == [chunks[0]] && Concat(chunks) == chunks[0];
      LastCall(length, data, chunks[0]);
    } else {
      assert [] + chunks[0] == chunks[0];
      assert rest[0] == chunks[1] && |Concat(rest)| >= |rest[0]|;
      RestOfFrame(length, more, rest);
      Assoc(data, chunks[0], Concat(rest));
      Next(Receiver(1, length, data, []), chunks, [more + Concat(rest)]);
    }
  }

  lemma OneFrame(r: Receiver, chunks: seq<seq<Byte>>, payload: seq<Byte>)
    requires AtRest(r) && WholeHeader(chunks, payload)
    ensures Delivers(r, chunks, [payload])
  {
    var first, rest := chunks[0], chunks[1..];
    assert r.unread + first == first;
    HeaderOf(first, Concat(rest));
    Next(r, chunks, [payload]);
    if rest == [] {
      assert first[HEADER..] == payload;
    } else {
      assert rest[0] == chunks[1] && |Concat(rest)| >= |rest[0]|;
      RestOfFrame(|payload|, first[HEADER..], rest);
    }
  }

  lemma {:induction false} SignalsConcat(r: Receiver, a: seq<seq<Byte>>, b: seq<seq<Byte>>)
    ensures Signals(r, a + b) == Signals(r, a) + Signals(After(r, a), b)
    ensures After(r, a + b) == After(After(r, a), b)
    decreases |a|
  {
    if a == [] {
      assert a + b == b;
    } else {
      assert (a + b)[1..] == a[1..] + b;
      SignalsConcat(Received(r, a[0]).0, a[1..], b);
    }
  }

  /** Frames sent one at a time, each split anywhere behind its header: one signal per frame, with the
      payloads that were sent, in order, and the receiver at rest after the last. */
  lemma {:induction false} Framing(r: Receiver, chunks: seq<seq<Byte>>, payloads: seq<seq<Byte>>,
                                   splits: seq<seq<seq<Byte>>>)
    requires AtRest(r) && FrameByFrame(chunks, payloads, splits)
    ensures Delivers(r, chunks, payloads)
    decreases |payloads|
  {
    if payloads != [] {
      assert WholeHeader(splits[0], payloads[0]);
      OneFrame(r, splits[0], payloads[0]);
      Framing(After(r, splits[0]), Flat(splits[1..]), payloads[1..], splits[1..]);
      SignalsConcat(r, splits[0], Flat(splits[1..]));
      assert payloads == [payloads[0]] + payloads[1..];
    }
  }

  /** For the bytes of any frames, cut into any non-empty chunks, across frames too: the receiver signals
      exactly the payloads, in order, and is at rest at the end, if and only if every frame ends where a
      chunk ends and its header is whole in its first chunk. */
  lemma FramesReceivedIff(r: Receiver, chunks: seq<seq<Byte>>, payloads: seq<seq<Byte>>)
    requires AtRest(r) && NonEmpty(chunks) && Framed(Concat(chunks), payloads)
    ensures Delivers(r, chunks, payloads) <==> exists splits :: FrameByFrame(chunks, payloads, splits)
  {
    if Delivers(r, chunks, payloads) {
      var splits := InStep(r, chunks, payloads);
    } else if splits :| FrameByFrame(chunks, payloads, splits) {
      Framing(r, chunks, payloads, splits);
    }
  }

  /** One frame cut into non-empty chunks is received as sent, with the receiver at rest afterwards, if and
      only if its four header bytes come whole in the first chunk. */
  lemma FrameReceivedIff(r: Receiver, chunks: seq<seq<Byte>>, payload: seq<Byte>)
    requires AtRest(r) && chunks != [] && NonEmpty(chunks) && |payload| <= INT_MAX && IsFrame(Concat(chunks), payload)
    ensures Delivers(r, chunks, [payload]) <==> |chunks[0]| >= HEADER
  {
    if |chunks[0]| >= HEADER {
      OneFrame(r, chunks, payload);
    } else if Delivers(r, chunks, [payload]) {
      OnlyFrame(Concat(chunks), payload);
      NotShort(r, chunks, [payload]);
    }
  }

  lemma OnlyFrame(bytes: seq<Byte>, payload: seq<Byte>)
    requires |payload| <= INT_MAX && IsFrame(bytes, payload)
    ensures Framed(bytes, [payload])
  {
    var n := HEADER + |payload|;
    assert bytes[..n] == bytes && bytes[n..] == [] && [payload][1..] == [];
  }
}
