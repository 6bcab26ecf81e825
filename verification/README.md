# OpenNIC wizard server: verified model

The server keeps a pool of public DNS resolvers, tests each of them with DNS queries at random intervals,
ranks the pool by latency and reliability, and writes the best few into the host's resolver file. These
modules model that program and prove what it computes, over all inputs and all runs.

| module | what it models |
|---|---|
| `Sequences`, `Octets`, `DomainNames` | facts about sequences; bytes in and behind a datagram; dotted names, labels, and name decoding by section 4.1.4 of RFC 1035 |
| `DnsEncoder`, `DnsExpand`, `DnsRoundTrip` | `lookup` (query printer), `fetch` (expansion of compressed names), and one undoing the other |
| `DnsAnswer`, `DnsMessage`, `MailExchange` | `processDatagram`, and what it finds in a response laid out by section 4.1 of RFC 1035 |
| `QueryLife`, `ExchangeName`, `QueryHistory`, `Resolvers` | a query's socket, timer, error and `finished` signal; what it reads of a name at the end of a datagram; the pruned history of a resolver in time; the resolver object |
| `ResolverPools`, `NicServer` | pools of reference-counted resolvers, scoring, sorting; bootstrap, propose, decide, activate |
| `QtText`, `ResolvConf` | the text operations used, the resolver file, and its parser |
| `ServiceControl` | the Windows service handshake as a state machine of handler threads and the main loop |
| `CommandStream`, `PacketFraming`, `SessionPurge` | the Unix command socket, the length-prefixed frames, the removal of closed sessions |

Code that changes objects or buffers is modelled by classes and loops, each proved equal to a function of
the old state; the theorems are about those functions and about all their runs. Time, random numbers, the
results of `bind`, of sending and of opening the file, fetched lists, and library address parsing are
parameters.

`dafny verify dfyconfig.toml` checks all modules together.

## Where the code departs from what it is for

The model follows the code. These are the exact conditions under which the code does what it should:

- For every destination size but zero, `fetch` ends from every offset if and only if no chain of 0xC0
  pointers runs in a circle (`DnsExpand.FetchEndsIff`). Strictly backward pointers are one such case.
- Only the byte 0xC0 is a pointer, so a pointer to 256 or more is read as a label of at least 193 bytes. For
  names with a shorter text, `fetch` gives the text if and only if no pointer leads that far
  (`DnsExpand.NearPointersIff`; `DnsExpand.FarPointerMisread` is such a packet). A pointer straight to a
  zero byte leaves a dangling dot, which is why `DnsExpand.FetchDecompresses` says when the text is the plain
  dotted name.
- For a name met on any path of labels of up to 255 bytes and pointers below 256, `fetch` stores a dot at
  `dst[dstlen]` and the zero byte behind it, one cell past the 1025 bytes of `processDatagram`, if and only if
  its text is too long and the cut comes neither before the first byte of a label nor before a zero byte
  (`DnsExpand.FetchOverrunsIff`; `DnsExpand.OverrunReached` is such a packet). No name of at most 255 octets, the
  limit of section 3.1 of RFC 1035, does it (`DnsExpand.ShortNamesStayInside`).
- A label may run over the end of a datagram, but no byte behind it, save the zero byte that always follows,
  has a part in the exchange name told (`ExchangeName.ToldInside`).
- The exchange name a query is told is the whole dotted name if and only if that holds no zero byte and fits
  1024 bytes, or is one byte longer and ends in a dangling dot (`QueryLife.ExchangeNameIff`).
- `lookup` checks the size of its 2048-byte buffer only after writing; the model's array is long enough,
  and `DnsEncoder.QueryPacketLength` tells which names stay inside (names up to 2029 bytes are sent).
- A name without a piece of 192, 448, ... bytes, whose length reads as a pointer, comes back through `lookup` and
  `fetch` if and only if it is empty or all pieces between its dots have 1 to 255 bytes
  (`DnsRoundTrip.FetchInvertsLookup`). With such a piece it depends on the bytes: one name never comes back
  (`DnsRoundTrip.PointerLengthFails`), another one does (`DnsRoundTrip.PointerLengthComesBack`).
- The walk gives the answer of a response's records if and only if, in a query for mail exchanges, the first
  record that is no CNAME is neither an exchange record too short for a name with something behind it, nor one
  without data that ends the packet and reads as an exchange record one byte early
  (`DnsMessage.ScanIsAnswerIff`; `DnsMessage.DatalessMisread` is such a response).
- An owner name is skipped to its record's fields if and only if it is a bare 0xC0 pointer, or starts
  otherwise and its first zero byte is its last (`DnsMessage.OwnerSkippedIff`). So an address behind labels
  and a pointer, which section 4.1.4 of RFC 1035 allows, is found only when the pointer leads to offset 0
  (`DnsMessage.PartlyCompressedOwnerIff`). The announced number of answers only matters if it is zero, and the
  transaction id is not compared.
- `finished` is emitted at most once if and only if the expiry was in the future at creation, or the first
  send succeeded without binding the closed socket again, which some versions of the socket library do
  (`QueryLife.FinishedOnceIff`).
- With a single proposed and a single active resolver, the code replaces when they are the same one, the
  opposite of its log text: one active resolver is never exchanged for a different single one
  (`NicServer.SingleResolverStays`). The majority bound is therefore about proposals of two or more.
- Shuffling makes as many exchanges as there are resolvers, so a pool of two is never shuffled
  (`ResolverPools.TwoNeverShuffled`).
- `clear` on a pool does not release references, so counts are bounds from above on membership. For an
  empty active list the file is not rewritten, and the list is filled even if the file cannot be opened.
- An empty line ends the command loop until the next chunk: how a stream is cut does not matter if and
  only if no line but the last is empty (`CommandStream.ChunkIndependentIff`). Buffers are never erased, so a
  connection at the address of a closed one is served like a new one only if that one left nothing
  (`CommandStream.InheritedBufferIff`).
- However the bytes of any frames are cut into chunks, the receiver signals exactly their payloads and is at rest
  at the end if and only if every frame ends where a chunk ends and its 4-byte header is whole in its first chunk
  (`PacketFraming.FramesReceivedIff`), for payloads up to 2^31 - 1 bytes.
- A frame length from 2^31 on counts as negative, so whatever has arrived is signalled at once; four bytes of
  255 are swallowed (`PacketFraming.OddLengths`).
- A history limit never drops a query in flight if and only if it is at least 4
  (`QueryHistory.DepthIsSafeIff`); the program's is 10.
- RUNNING or PAUSED is reported before the service call has returned, in some continuation without further
  controls, if and only if a call is exposed: it has been woken, or another call's `wakeAll` is still to come
  and may come before its own (`ServiceControl.SettlesEarlyIff`). Controls that come one at a time expose no
  call (`ServiceControl.ServiceOrdering`); two at once can (`ServiceControl.ConcurrentControlSettlesEarly`).
- A waiting handler stays waiting for ever if and only if the main thread has left its loop
  (`ServiceControl.StrandedIff`), and that does happen (`ServiceControl.StrandedReached`).
- One purge pass removes all dead sessions if and only if no two of them are neighbours
  (`SessionPurge.OnePassSufficesIff`).

## Model

| member | source | states |
|---|---|---|
| `DomainNames.FirstDot` | server/opennicdnsquery.cpp:517-520 | finds the first dot, or the end of the text, with no dot before it |
| `DomainNames.JoinSplit` | server/opennicdnsquery.cpp:516-531 | cutting a name at its dots and joining it again gives the name; the pieces hold no dot |
| `DomainNames.SplitJoin` | server/opennicdnsquery.cpp:516-531 | dotless labels joined by dots are cut back into the same labels |
| `DomainNames.EncodedLength` | server/opennicdnsquery.cpp:520-531 | encoded labels take one byte more than the dotted name |
| `DomainNames.DecodeEncoded` | server/opennicdnsquery.cpp:516-533 | section 4.1.4 decoding of encoded valid labels and a zero byte, anywhere in a packet, gives those labels |
| `DomainNames.DecodeCompressed` | server/opennicdnsquery.cpp:350-368 | labels and then a pointer to where a name decodes, the compression of section 4.1.4, decode to those labels and that name, for every pointer of 14 bits |
| `DomainNames.DecodeRefuses` | server/opennicdnsquery.cpp:350-368 | no name decodes behind the packet, from a byte of 64 to 191, or from a pointer that is cut off or leads nowhere earlier |
| `DnsEncoder.QueryPacketLength` | server/opennicdnsquery.cpp:499-542 | the query packet is 18 bytes longer than the name |
| `DnsEncoder.QueryOnTheWire` | server/opennicdnsquery.cpp:499-539 | the packet byte by byte: id low byte first, recursion desired, one question and no records, the labels, the end of the name, the type, class 1 |
| `DnsEncoder.PutChunk` | server/opennicdnsquery.cpp:520-523 | a chunk is stored as its length byte and its bytes, and what is before it stays |
| `DnsEncoder.PutPiece` | server/opennicdnsquery.cpp:517-529 | one round of the label loop stores the piece up to the next dot, and the rest is still to come |
| `DnsEncoder.EncodeName` | server/opennicdnsquery.cpp:510-531 | the label loop ends and has appended exactly the encoding of the name's pieces |
| `DnsEncoder.EncodeQuery` | server/opennicdnsquery.cpp:492-555 | the datagram is header, encoded name and question end, and there is none when it would not be shorter than 2048 bytes |
| `DnsExpand.TextUnique` | server/opennicdnsquery.cpp:345-371 | all round counts that let the expansion end give the same text |
| `DnsExpand.CopyLabel` | server/opennicdnsquery.cpp:365-366 | copies the shorter of the label and the space left, and nothing else changes |
| `DnsExpand.FetchRound` | server/opennicdnsquery.cpp:350-368 | one round of the loop as the cursor function says, including the stop on a full buffer |
| `DnsExpand.Fetch` | server/opennicdnsquery.cpp:345-371 | the buffer holds exactly the expansion's text and a zero byte, and nothing behind is touched, in any buffer the text leaves a cell in |
| `DnsExpand.ExpandPath` | server/opennicdnsquery.cpp:345-371 | along any path of labels up to 255 bytes and near pointers the loop ends and writes the name met, exactly |
| `DnsExpand.FetchDecompresses` | server/opennicdnsquery.cpp:345-371 | `fetch` is decompression: it writes the dotted name by section 4.1.4, whole or cut exactly as `Cut` says, and a dangling dot exactly behind a pointer to a zero byte |
| `DnsExpand.FetchOverrunsIff` | server/opennicdnsquery.cpp:350-370 | for every name met on a path of labels up to 255 bytes and pointers below 256: `fetch` writes past its `dstlen + 1` cells iff the text is too long and cut neither before a label nor before a zero byte |
| `DnsExpand.OverrunReached` | server/opennicdnsquery.cpp:350-370 | a packet on which the text takes 1025 bytes for the 1024 asked for |
| `DnsExpand.ShortNamesStayInside` | server/opennicdnsquery.cpp:444 | names within 255 octets fit, and never leave the 1025 bytes |
| `DnsExpand.FarPointerWrites` | server/opennicdnsquery.cpp:358-367 | a name through a pointer of 256 or more expands to at least 193 bytes |
| `DnsExpand.NearPointersIff` | server/opennicdnsquery.cpp:358-362 | a name with a shorter text expands to it iff no pointer leads to 256 or more |
| `DnsExpand.FarPointerMisread` | server/opennicdnsquery.cpp:358-362 | a name by section 4.1.4 that is never expanded to its text |
| `DnsExpand.LoopFreeEnds` | server/opennicdnsquery.cpp:350-368 | without a pointer loop every expansion ends, by destination space and pointer hops lexicographically |
| `DnsExpand.LoopNeverEnds` | server/opennicdnsquery.cpp:350-368 | from a pointer loop the expansion never ends, for any destination size but zero |
| `DnsExpand.FetchEndsIff` | server/opennicdnsquery.cpp:345-371 | for every destination size but zero, `fetch` ends from every offset iff the packet has no pointer loop |
| `DnsExpand.BackwardPointersEnd` | server/opennicdnsquery.cpp:358-362 | pointers to strictly earlier offsets form no loop |
| `DnsRoundTrip.QueryDecodes` | server/opennicdnsquery.cpp:492-542 | decoding the packet of `lookup` at offset 12 gives the pieces before the first empty one |
| `DnsRoundTrip.FetchInvertsLookup` | server/opennicdnsquery.cpp:345-542 | `fetch` at offset 12 of the packet of `lookup` gives the name back iff it is empty or all pieces have 1 to 255 bytes, for C strings without a piece whose length reads as a pointer |
| `DnsRoundTrip.LongPieceFails` | server/opennicdnsquery.cpp:520-521 | a piece of 256 bytes or more is cut by a dot where its length byte ends it, so the name never comes back |
| `DnsRoundTrip.PointerLengthFails` | server/opennicdnsquery.cpp:358-362 | a name of one piece of 192 bytes never comes back |
| `DnsRoundTrip.PointerLengthComesBack` | server/opennicdnsquery.cpp:358-362 | a name with a piece of 192 bytes that does come back, through a pointer into itself |
| `DnsRoundTrip.ZeroLengthFails` | server/opennicdnsquery.cpp:520-523 | a name of one piece of 256 bytes comes back empty |
| `DnsAnswer.RecordAt` | server/opennicdnsquery.cpp:415-420 | the owner skip ends at most one byte before its start, with the fixed fields inside the packet |
| `DnsAnswer.TurnAt` | server/opennicdnsquery.cpp:413-433 | a followed CNAME moves the walk forward by at least 11 |
| `DnsAnswer.SkipQuestionName` | server/opennicdnsquery.cpp:399-401 | the loop stops at the first zero byte behind the header or at the packet's end |
| `DnsAnswer.SkipOwner` | server/opennicdnsquery.cpp:415-420 | the nested loop, with its step back, puts both owner forms on one record layout |
| `DnsAnswer.ReadAnswer` | server/opennicdnsquery.cpp:435-466 | the data extracted for address and exchange queries; with three or more bytes of data the exchange name starts inside the packet |
| `DnsAnswer.LookAt` | server/opennicdnsquery.cpp:415-432 | one round of the loop: found, stopped, or moved on as the specification says |
| `DnsAnswer.FindRecord` | server/opennicdnsquery.cpp:412-433 | the loop ends on every datagram and stops at the record the recursive walk gives its answer from |
| `DnsAnswer.Walk` | server/opennicdnsquery.cpp:377-466 | the whole walk, its early returns included, gives what the recursive specification finds |
| `DnsAnswer.WalkReadsInside` | server/opennicdnsquery.cpp:377-466 | on datagrams of at least 12 bytes the result does not depend on any byte outside |
| `DnsMessage.QuestionChecked` | server/opennicdnsquery.cpp:388-410 | on any datagram with a whole header: a question count other than 1 tells nothing, then an answer count of 0 that the name does not exist, then a packet ending in the question or asking for another type again nothing |
| `DnsMessage.ShortDatagram` | server/opennicdnsquery.cpp:388-407 | a datagram shorter than a header tells at most that there are no answers, and exactly when the bytes in the places of the counts say so |
| `DnsMessage.RecordOnTheWire` | server/opennicdnsquery.cpp:413-466 | a record behind a pointer, byte by byte: type 5 is followed, type 1 or 15 answers a query of that type, any other ends the walk |
| `DnsMessage.OtherQueries` | server/opennicdnsquery.cpp:440-451 | a query for anything but an address or a mail exchange is never answered by records |
| `DnsMessage.OwnerSkipped` | server/opennicdnsquery.cpp:415-420 | pointer owners, uncompressed owners and the root are all skipped to their fixed fields |
| `DnsMessage.OwnerSkippedIff` | server/opennicdnsquery.cpp:415-420 | any owner bytes are skipped to the fields iff they are a bare pointer, or start otherwise and their first zero is their last byte |
| `DnsMessage.ShiftedRecordScanned` | server/opennicdnsquery.cpp:413-420 | a dataless record ending the packet is read one byte off, and what then is seen |
| `DnsMessage.ScanRecords` | server/opennicdnsquery.cpp:410-466 | over any list of section 4.1.3 records, with any bytes behind, the walk ends with the list's answer or the misread exchange |
| `DnsMessage.MisreadIsNoAnswer` | server/opennicdnsquery.cpp:413-450 | what is misread is no answer of the list |
| `DnsMessage.ScanIsAnswerIff` | server/opennicdnsquery.cpp:413-466 | the walk gives the answer of the list iff no exchange is misread |
| `DnsMessage.ExchangeInsideIff` | server/opennicdnsquery.cpp:435-444 | a found exchange name starts inside the packet iff more than two bytes follow the deciding record's fields |
| `DnsMessage.DatalessMisread` | server/opennicdnsquery.cpp:413-450 | a response whose only record is no exchange record but is taken for one, with its name behind the packet |
| `DnsMessage.WalkIsAnswer` | server/opennicdnsquery.cpp:377-469 | on every response to one question: the answer of its records iff no exchange is misread, or that the name does not exist |
| `DnsMessage.AddressBehindCnames` | server/opennicdnsquery.cpp:413-466 | behind any number of CNAMEs, type 5, the next record gives an address query, type 1, its first four bytes if it is an address record with four or more, and nothing otherwise |
| `DnsMessage.NothingBehindCnames` | server/opennicdnsquery.cpp:413-435 | a list of nothing but CNAMEs tells nothing |
| `DnsMessage.ExchangeBehindCnames` | server/opennicdnsquery.cpp:435-450 | behind any number of CNAMEs, type 5, an exchange record, type 15, gives the place of its name, whatever else the list holds |
| `DnsMessage.AnswerToLookup` | server/opennicdnsquery.cpp:377-542 | the walk skips the question `lookup` sent and ends with what is seen in the reply's records |
| `DnsMessage.PartlyCompressedOwnerIff` | server/opennicdnsquery.cpp:415-422 | an address behind an owner of labels and a pointer is found iff the pointer leads to offset 0 |
| `MailExchange.MailNameTold` | server/opennicdnsquery.cpp:377-450 | behind any number of CNAMEs, what is told of a near exchange name is appended to the query's, and when that is the whole dotted name |
| `QueryLife.Lifecycle` | server/opennicdnsquery.cpp:281-340 | with a future expiry, every run emits `finished` at most once; before it socket and timer are live, after it all is dead and final |
| `QueryLife.FinishedOnceIff` | server/opennicdnsquery.cpp:281-327 | at most one `finished` in all runs iff the expiry was in the future, or the first send succeeded and did not bind the closed socket again |
| `QueryLife.TimeoutIff` | server/opennicdnsquery.cpp:332-340 | with a future expiry at creation, the error is a timeout iff the query's own timer fired before anything ended it |
| `QueryLife.EndedByOne` | server/opennicdnsquery.cpp:305-340 | a query that was sent has ended iff one event met it open and ended it, and is as that event left it |
| `QueryLife.OutcomeIff` | server/opennicdnsquery.cpp:392-462 | with a future expiry: failed iff the first send failed; does not exist iff a reply without answers met the query open and its socket bound; ended without error iff an address or an exchange did |
| `QueryLife.LateTimeoutIff` | server/opennicdnsquery.cpp:291-299 | with a past expiry, the timeout stays iff the first send succeeded and did not bind the socket again or nothing was told since |
| `QueryLife.LateOutcomeIff` | server/opennicdnsquery.cpp:291-299 | with a past expiry: failed iff the first send failed, and after a send that bound the socket again the first telling reply decides the error |
| `QueryLife.ExchangeNameAppended` | server/opennicdnsquery.cpp:442-449 | for a near name, exactly what is told of it is appended: what `fetch` writes, up to its first zero byte |
| `QueryLife.ToldWholeIff` | server/opennicdnsquery.cpp:444-448 | what is told is the whole dotted name iff it has no zero byte and fits, or is one byte longer and ends in a dangling dot |
| `QueryLife.ExchangeNameIff` | server/opennicdnsquery.cpp:444-448 | the dotted name is appended iff it is told whole |
| `ExchangeName.ToldInside` | server/opennicdnsquery.cpp:442-449 | no byte behind a datagram, but for the zero byte right behind it, has a part in the exchange name told, although labels may run over the end |
| `QueryLife.LoopFreeTold` | server/opennicdnsquery.cpp:442-449 | every datagram without a pointer loop can be processed |
| `QueryLife.DnsQuery.constructor` | server/opennicdnsquery.cpp:81-99 | a new query's state by bind, expiry and send, and the one packet sent |
| `QueryLife.DnsQuery.SetExpireTime` | server/opennicdnsquery.cpp:281-300 | arms the timer for a future expiry, else ends the query with a timeout |
| `QueryLife.DnsQuery.Terminate` | server/opennicdnsquery.cpp:305-318 | closes socket and timer and emits `finished` |
| `QueryLife.DnsQuery.TimerEvent` | server/opennicdnsquery.cpp:332-340 | ends the query with a timeout iff the timer is its own |
| `QueryLife.DnsQuery.Lookup` | server/opennicdnsquery.cpp:492-555 | sends the packet, or ends the query when it does not fit or cannot be sent |
| `QueryLife.DnsQuery.ProcessDatagram` | server/opennicdnsquery.cpp:377-469 | one life-cycle step at most, whose error `OutcomeIff` pins; sets the address to the found bytes or appends the expanded exchange name up to its first zero byte |
| `QueryLife.DnsQuery.ReadPendingDatagrams` | server/opennicdnsquery.cpp:474-486 | all pending datagrams act as a run of events; the first telling one alone decides address and exchange name |
| `QueryHistory.Random` | server/opennicsystem.h:41 | the value lies within the two bounds, both included |
| `QueryHistory.RandomReaches` | server/opennicsystem.h:41 | every value between the bounds comes up |
| `QueryHistory.Interval` | server/opennicresolver.cpp:466-473 | the next test is never nearer than a quarter of the least interval |
| `QueryHistory.IntervalRange` | server/opennicresolver.cpp:466-473 | the first three intervals are exactly the values from 2.5 to 75 seconds, all later ones those from 10 seconds to 10 minutes |
| `QueryHistory.SpacedStep` | server/opennicresolver.cpp:450-474 | every event keeps the i-th newest query at least 2500*i ms old |
| `QueryHistory.AtMostFourInFlight` | server/opennicresolver.cpp:450-485 | in every run at most four queries are unexpired after any event |
| `QueryHistory.DropsOnlyExpired` | server/opennicdnsquerylistener.cpp:111-127 | with a limit of at least four, every dropped query has passed its deadline |
| `QueryHistory.DepthIsSafeIff` | server/opennicdnsquerylistener.cpp:99-127 | a limit never drops an unexpired query, in any run, iff it is at least four |
| `QueryHistory.BurstDropsInFlight` | server/opennicresolver.cpp:459-474 | a run with limit 1, 2 or 3 that drops a query in flight |
| `Resolvers.Resolver.constructor` | server/opennicresolver.cpp:33-44 | a new resolver has no references and has started its first test |
| `Resolvers.Resolver.IncRef` | server/opennicresolver.cpp:85-88 | one reference more |
| `Resolvers.Resolver.DecRef` | server/opennicresolver.cpp:93-100 | one reference fewer, and deletion scheduled from zero down |
| `Resolvers.Resolver.PruneQueries` | server/opennicdnsquerylistener.cpp:111-118 | keeps the newest entries up to the limit, in order |
| `Resolvers.Resolver.AddToQueries` | server/opennicdnsquerylistener.cpp:123-127 | the new query is put first, then the oldest are dropped |
| `Resolvers.Resolver.SetMaxQueryDepth` | server/opennicdnsquerylistener.cpp:99-106 | the history's step for a new limit; limits below one are ignored |
| `Resolvers.Resolver.Test` | server/opennicresolver.cpp:450-454 | the history's step for a test |
| `Resolvers.Resolver.ResetQueryTimer` | server/opennicresolver.cpp:459-474 | the next test time, short for the first three ticks |
| `Resolvers.Resolver.AverageLatency` | server/opennicresolver.cpp:370-384 | the mean of all latencies, or -1 without queries |
| `Resolvers.LatencyIs` | server/opennicdnsquery.cpp:252-259 | the latency of a query is the time from start to end, and zero before its end or for an end that is not after its start |
| `Resolvers.TotalCons` | server/opennicresolver.cpp:374-379 | a further query adds its own latency to the sum |
| `Resolvers.MeanIs` | server/opennicresolver.cpp:374-380 | the mean latency times the number of queries is their sum |
| `Resolvers.Resolver.Status` | server/opennicdnsquerylistener.cpp:57-93 | the colour decided by the failures among the newest three, an unfinished query counting as success |
| `Resolvers.StatusIff` | server/opennicdnsquerylistener.cpp:57-93 | green iff the newest three, or all of fewer, are without error; yellow iff exactly one of the newest three is not |
| `Resolvers.Resolver.Alive` | server/opennicresolver.cpp:260-276 | alive iff the two newest queries are not both timed out or failed |
| `Resolvers.Resolver.ResolvesNic` | server/opennicresolver.cpp:402-414 | true iff some query of that network has no error |
| `ResolverPools.Factor` | server/opennicresolverpool.cpp:255-259 | the product of the score's factors is positive and at most 2.625 |
| `ResolverPools.FactorWeights` | server/opennicresolverpool.cpp:255-259 | the weights: 1.5 for T2, 0.6666 for T1, 1.75 for the network, 0.5 for red, 0.75 for yellow |
| `ResolverPools.ScoreIs` | server/opennicresolverpool.cpp:248-262 | the score is nothing without a history, else the weighted distance of the mean latency from the pool's greatest |
| `ResolverPools.ScoreBounds` | server/opennicresolverpool.cpp:246-262 | a score lies between 0 and 2.625 times the pool's latency spread |
| `ResolverPools.PoolScoreBounds` | server/opennicresolverpool.cpp:286-318 | the same for every resolver of a scored pool |
| `ResolverPools.RankFidelity` | server/opennicresolverpool.cpp:286-363 | in a scored, ranked pool, of two with equal kind, status and network flag the faster comes strictly first |
| `ResolverPools.RankedFasterFirst` | server/opennicresolverpool.cpp:286-363 | the same for all pairs of a scored, ranked pool |
| `ResolverPools.BetterKindFirst` | server/opennicresolverpool.cpp:255-363 | in a scored, ranked pool, of two equally fast and alike in status and network flag, T2 comes before any other kind and T1 behind |
| `ResolverPools.MeanBetween` | server/opennicresolverpool.cpp:203-231 | the mean latency lies between the least and the greatest |
| `ResolverPools.ResolverPool.IndexOf` | server/opennicresolverpool.cpp:392-403 | the first entry with that host, or -1 iff there is none |
| `ResolverPools.ResolverPool.Append` | server/opennicresolverpool.cpp:141-151 | appends a new host with a reference; a fresh duplicate is scheduled for deletion |
| `ResolverPools.ResolverPool.Insort` | server/opennicresolverpool.cpp:164-172 | a new host is added and the pool ranked; a known one changes nothing |
| `ResolverPools.ResolverPool.Swap` | server/opennicresolverpool.cpp:190-195 | two entries exchange places and all others stay |
| `ResolverPools.ResolverPool.BestFrom` | server/opennicresolverpool.cpp:352-359 | the first greatest score from an index on |
| `ResolverPools.ResolverPool.Sort` | server/opennicresolverpool.cpp:344-363 | a permutation in descending score, and a ranked list stays exactly as it is |
| `ResolverPools.ResolverPool.Randomize` | server/opennicresolverpool.cpp:323-339 | the list after exactly as many exchanges of two different places as there are resolvers, none for fewer than two; a permutation, whatever the random numbers |
| `ResolverPools.TwoNeverShuffled` | server/opennicresolverpool.cpp:325-337 | a list of two comes out as it went in, whatever the random numbers |
| `ResolverPools.ResolverPool.FromIPList` | server/opennicresolverpool.cpp:106-117 | for each host listed on a line that is not blank and not yet known one fresh resolver of that host and kind, nobody else; hosts stay distinct and every reference held |
| `ResolverPools.ResolverPool.Latency` | server/opennicresolverpool.cpp:203-231 | mean, least and greatest of the resolvers' mean latencies, zero for an empty pool |
| `ResolverPools.ResolverPool.ScoreResolverInternal` | server/opennicresolverpool.cpp:246-262 | the score by latency, kind, network and status |
| `ResolverPools.ResolverPool.Score` | server/opennicresolverpool.cpp:286-318 | every resolver gets the score of its own history against the pool's greatest latency |
| `ResolverPools.ResolverPool.Clear` | server/opennicresolverpool.cpp:133-136 | the list is emptied, and no reference is released |
| `ResolverPools.ResolverPool.Destroy` | server/opennicresolverpool.cpp:25-33 | one reference of each member is released |
| `QtText.SplitTerminated` | server/opennicsystem.cpp:334 | cutting newline-terminated lines at newlines gives the lines and one empty string |
| `QtText.SimplifiedFront` | server/opennicsystem.cpp:337-338 | the clean-up of a line starts with its first character that is no white space |
| `QtText.InSimplified` | server/opennicsystem.cpp:337 | it loses nothing but white space |
| `ResolvConf.AddressLineIff` | server/opennicsystem.cpp:337-350 | a line gives an address iff it has a dot and its first character that is no white space is neither a dot nor a comment sign |
| `ResolvConf.KeepAddress` | server/opennicsystem.cpp:340-347 | keeps exactly the digits, dots and blanks, in order |
| `ResolvConf.ParseIPV4Strings` | server/opennicsystem.cpp:330-354 | the addresses of all lines with a dot that are not comments |
| `ResolvConf.LinuxSystem.BeginUpdateResolvers` | server/opennicsystem_linux.cpp:67-71 | starts with an empty list, always accepted |
| `ResolvConf.LinuxSystem.UpdateResolver` | server/opennicsystem_linux.cpp:77-81 | the address is put last, always accepted |
| `ResolvConf.LinuxSystem.EndUpdateResolvers` | server/opennicsystem_linux.cpp:83-105 | the file becomes one prefixed line per address; it stays if there is none or it cannot be opened, the latter being the only failure |
| `ResolvConf.LinuxSystem.GetSystemResolverList` | server/opennicsystem_linux.cpp:110-122 | what the parser reads in the file, or the one-line failure report |
| `ResolvConf.ParseInvertsRenderIff` | server/opennicsystem_linux.cpp:83-117 | the addresses read back from the written file are those written, in order, iff all are dotted digits |
| `NicServer.DifferencesCount` | server/opennicserver.cpp:527-535 | with distinct hosts, differences and shared resolvers make up the proposal |
| `NicServer.ReplacesIff` | server/opennicserver.cpp:521-562 | a proposal is accepted iff its length differs, or it is the single active one, or, from two on, the lists share no more than half, rounded up |
| `NicServer.DeclinedSharesMajority` | server/opennicserver.cpp:525-546 | a declined proposal of two or more shares a strict majority of the active list |
| `NicServer.HysteresisBound` | server/opennicserver.cpp:521-562 | accepted or declined, a strict majority of the active list lies in the list proposed |
| `NicServer.SingleResolverStays` | server/opennicserver.cpp:547-559 | a single active resolver survives every single proposal |
| `NicServer.ActiveReadBackIff` | server/opennicserver.cpp:567-599 | the file written for the active list reads back as that list iff its hosts are dotted digits |
| `NicServer.Server.Propose` | server/opennicserver.cpp:620-624 | the proposal is the first k of the pool or all of it, each with one reference more |
| `NicServer.Server.ShouldReplaceWithProposed` | server/opennicserver.cpp:521-562 | the decision by number of differences, or by identity for single lists |
| `NicServer.Server.ReplaceActiveResolvers` | server/opennicserver.cpp:567-599 | the ranked proposal becomes active, a ranked one unchanged, and the file follows iff it can be opened |
| `NicServer.Server.Activate` | server/opennicserver.cpp:567-599 | activation keeps every member of a live pool referenced by as many as hold it and undeleted |
| `NicServer.Server.Dispose` | server/opennicserver.cpp:639 | the end of a proposal's scope keeps all others referenced and undeleted |
| `NicServer.Server.ReplaceAndDispose` | server/opennicserver.cpp:626-639 | an accepted proposal leaves one reference more for the active list and gives its own back; a declined one gives its own back |
| `NicServer.Server.RankPool` | server/opennicserver.cpp:615-618 | scoring and sorting put the faster of two alike first, every score by its history against the pool's greatest latency |
| `NicServer.Server.UpdateDns` | server/opennicserver.cpp:605-647 | pool rescored and ranked; its first ones active and written, or nothing changed; a majority of the active list among the first of the pool; no effect during another update; lists stay in order |
| `NicServer.Server.BestActive` | server/opennicserver.cpp:620-634 | an accepted update makes a prefix of the pool active, as long as asked for or as the pool, no one left out scores higher, and it is written; a declined one changes nothing |
| `NicServer.Server.UpdatedFasterFirst` | server/opennicserver.cpp:615-618 | after an update the faster of two alike comes first |
| `NicServer.Server.SetResolverCacheSize` | server/opennicserver.cpp:119-127 | a new limit from zero on is set and an update made with it, leaving the active list within it; else nothing happens |
| `NicServer.Server.FetchT2` | server/opennicserver.cpp:464-468 | the list is the first of five fetches that is not empty |
| `NicServer.Server.BootstrapResolvers` | server/opennicserver.cpp:433-502 | the pool holds exactly the addresses of both lists, T1 hosts of kind T1 and all others of kind T2; it succeeds iff there is any address, the limit is not zero and the file opens, with the least of limit and pool size active and written; else the file holds the first choice if that was written |
| `NicServer.Server.TestResolverCache` | server/opennicserver.cpp:652-663 | true iff every active resolver is alive |
| `NicServer.Server.UpdateIfDue` | server/opennicserver.cpp:675-682 | the update happens iff forced, the active list is empty or short, or an active resolver is dead |
| `NicServer.Server.ColdBoot` | server/opennicserver.cpp:403-427 | the server is started iff one of the attempts has any address, a limit above zero, and a file that opens; every attempt keeps the invariant |
| `NicServer.Server.RefreshResolvers` | server/opennicserver.cpp:669-683 | on a started server the update happens iff one is due, and else nothing; one not started is so afterwards iff an attempt can succeed, and a forced refresh updates then; every refresh keeps the invariant and the limit |
| `NicServer.Server.Do` | server/opennicserver.cpp:669-683 | one step: the limit and the started state after it, and the update a forced refresh makes |
| `NicServer.Server.Run` | server/opennicserver.cpp:433-683 | in every run: distinct hosts, active inside the pool and within its limit, references safe, nothing live deleted; the limit is the last one set, and the server is started iff a refresh had an attempt that could succeed |
| `ServiceControl.ExclusiveStep` | server/qtservice_win.cpp:574-660 | every step keeps the mutex with exactly the thread that holds it |
| `ServiceControl.NoneLostStep` | server/qtservice_win.cpp:574-660 | every step keeps the own event of each unwoken call ahead of it |
| `ServiceControl.NoLostWakeup` | server/qtservice_win.cpp:574-660 | in every run a waiting call's own event is queued or in hand before `wakeAll`, and every post had a receiver |
| `ServiceControl.RankFalls` | server/qtservice_win.cpp:574-601 | each main-loop step brings the wake-up nearer, and no other step moves it away |
| `ServiceControl.WokenInTime` | server/qtservice_win.cpp:574-660 | on every schedule without exit a waiting call is woken within its rank of main-loop steps |
| `ServiceControl.CanWake` | server/qtservice_win.cpp:574-660 | from every reachable state before exit some schedule wakes the waiting call |
| `ServiceControl.StrandedIff` | server/qtservice_win.cpp:841-847 | a waiting call can never be woken again iff the main thread has left its loop |
| `ServiceControl.StrandedReached` | server/qtservice_win.cpp:582-585 | a run that strands a waiting call: stop carried out, a pause posted, the loop left |
| `ServiceControl.ExposedSettles` | server/qtservice_win.cpp:598-635 | from every exposed call a run that reports too early |
| `ServiceControl.SettlesEarlyIff` | server/qtservice_win.cpp:598-635 | from any reachable state, some run without further calls reports too early iff it has happened or a call is exposed |
| `ServiceControl.ServiceOrdering` | server/qtservice_win.cpp:541-635 | in orderly runs, where no call is ever exposed, RUNNING and PAUSED follow the return of their service call, posts go to a live receiver, and no call is left waiting at exit |
| `ServiceControl.FinishReports` | server/qtservice_win.cpp:610-635 | in every run, until anyone posts, ends or leaves: PAUSED is reported after a pause has ended, RUNNING after start-up and continue, and nothing new after the other codes |
| `ServiceControl.PostReports` | server/qtservice_win.cpp:610-652 | in the same way the pending status of start-up, stop, pause and continue after their post, and nothing new for the other codes |
| `ServiceControl.StatusFollowsCalls` | server/qtservice_win.cpp:610-842 | in orderly runs: the pending status while a call is in progress, the last ended call's status between calls, stopping after a stop, and STOPPED once the loop is left |
| `ServiceControl.QuitIff` | server/qtservice_win.cpp:582-584 | the loop is told to quit iff the service function of a stop or shutdown has returned, and calls of codes that post nothing never wait |
| `ServiceControl.CallsServed` | server/qtservice_win.cpp:574-655 | in orderly runs every ended call has been served, but for the codes that post nothing |
| `ServiceControl.ConcurrentControlSettlesEarly` | server/qtservice_win.cpp:598-627 | a run with two controls at once that reports PAUSED before `pause` has returned |
| `CommandStream.LinesExtend` | server/qtservice_unix.cpp:325 | the lines of received text go on from the lines and residue so far |
| `CommandStream.ChunkIndependentIff` | server/qtservice_unix.cpp:322-378 | all cuts of a stream serve exactly its lines and leave its residue iff no line but the last is empty |
| `CommandStream.LinesUnlines` | server/qtservice_unix.cpp:369-378 | commands without CRLF, each terminated by it, are taken apart into the same commands |
| `CommandStream.NothingLost` | server/qtservice_unix.cpp:322-378 | for every stream and cut, the lines taken with their CRLFs and the buffer left are all bytes received |
| `CommandStream.ConnectionsAreSeparate` | server/qtservice_unix.cpp:325-327 | interleaved sockets are served, address by address, as if alone |
| `CommandStream.InheritedBufferIff` | server/qtservice_unix.cpp:363-367 | a connection at the address of a closed one is served like a new one, whatever it sends, iff the old left nothing |
| `CommandStream.CommandServer.GetCommand` | server/qtservice_unix.cpp:369-378 | the first line is returned and cut off with its CRLF, or nothing happens |
| `CommandStream.CommandServer.Serve` | server/qtservice_unix.cpp:329-358 | which command, under which flag, makes which service call and is answered "true"; every other is answered "false" and does nothing |
| `CommandStream.CommandServer.SlotReady` | server/qtservice_unix.cpp:322-361 | one reply and the right call for each line up to the first empty one; other connections stay |
| `PacketFraming.Packet.Clear` | common/opennicpacket.cpp:82-87 | the map is empty, and state and length are zero again |
| `PacketFraming.Packet.Recv` | common/opennicpacket.cpp:92-120 | one call is one step of the receiver; a signalled payload becomes the packet's map |
| `PacketFraming.FrameIff` | common/opennicpacket.cpp:125-136 | the bytes of a frame are exactly a length and that many bytes of payload |
| `PacketFraming.FrameOnTheWire` | common/opennicpacket.cpp:125-136 | the payload behind four bytes of its length, the most significant first |
| `PacketFraming.OddLengths` | common/opennicpacket.cpp:97-119 | four bytes of 255 are swallowed, any other length from 2^31 on signals whatever has arrived at once, and fewer than four bytes are lost with an empty signal |
| `PacketFraming.BehindFails` | common/opennicpacket.cpp:92-120 | a receiver that has signalled a payload before its bytes were used up never gets in step again |
| `PacketFraming.FrameReceivedIff` | common/opennicpacket.cpp:92-136 | one frame in non-empty chunks is received as sent, at rest afterwards, iff its header is whole in the first |
| `PacketFraming.Framing` | common/opennicpacket.cpp:92-136 | frames cut one by one, every header whole, give one signal each, with their payloads in order, and rest at the end |
| `PacketFraming.FramesReceivedIff` | common/opennicpacket.cpp:92-136 | for the bytes of any frames in any non-empty chunks, also across frames: exactly the payloads are signalled, with rest at the end, iff every frame ends at a chunk's end and its header is whole in its first chunk |
| `SessionPurge.Sessions.PurgeDeadSessions` | server/opennicserver.cpp:385-398 | the skipping loop keeps what the recursive pass keeps |
| `SessionPurge.OnePass` | server/opennicserver.cpp:385-398 | a pass keeps every live session in order and removes at least half of the dead |
| `SessionPurge.OnePassSufficesIff` | server/opennicserver.cpp:385-398 | one pass removes all dead iff no two of them are neighbours |
| `SessionPurge.ManyPasses` | server/opennicserver.cpp:385-398 | k passes leave at most one 2^k-th of the dead and every live session |

## Left out

- `QueryLife.DnsQuery.ProcessDatagram`: asks that `fetch` ends on the datagram, since the program itself would not return from it otherwise; `DnsExpand.FetchEndsIff` says exactly which packets guarantee that.
- `DnsExpand.Fetch`: asks for a bound `k` on its rounds, which exists exactly when the loop ends, and for a buffer that the text leaves a cell in; `processDatagram`'s buffer is modelled one cell longer than its 1025 bytes, so that a text one byte too long stays defined.
- `DnsExpand.NearPointersIff`: a text of 193 bytes and more, which a misread far pointer could happen to reproduce.
- `DnsEncoder.EncodeQuery`: the array is as long as the packet, so that writing past the 2048-byte buffer, which the program notices only afterwards, stays defined; so does copying a name of 2048 bytes or more.
- `DnsMessage.WalkIsAnswer`: bytes that are no records behind a list, of all sections, of nothing but CNAMEs.
- `DnsRoundTrip.FetchInvertsLookup`: names with a piece of 192, 448, ... bytes, which come back or not depending on all bytes of the packet; one example is given of each.
- `NicServer.Server.ColdBoot`: the endless retry is a finite list of the attempts made so far, and reading settings and the five-second delay are not modelled.
- `NicServer.Server.UpdateDns`: event processing nested inside a step is not modelled, so no second update ever starts while one is under way except as the guard's own case.
- `ServiceControl.ServiceOrdering`: start-up timeout and a failing dispatcher are one step that gives up; spurious wake-ups of the condition do not occur.
- `ResolvConf.LinuxSystem.EndUpdateResolvers`: only opening can fail; partial writes, backup and restore of the file are not modelled.
- `PacketFraming.Packet.Recv`: the encoding of the packet's map inside a frame is library code, so payloads are opaque bytes.
- `CommandStream.ConnectionsAreSeparate`: about socket addresses, not connections, because the buffer of a closed connection is never erased.
- `CommandStream.CommandServer.SlotReady`: text is a sequence of characters; decoding multi-byte characters cut between chunks and the number conversion of `num:` are not modelled.
- `Resolvers.Resolver.Test`: a history entry is a value (network, start, end, error), not the query object, so a deleted query's own socket is not modelled there.
- `ResolverPools.ResolverPool.Score`: scores are real numbers instead of doubles, and the script engine alternative is not modelled.
- The user interface, dialogs and sessions' contents; sockets, timers, files and settings beyond the values they deliver.
- The Windows resolver update through external programs, registration and installation of the service.
- Log texts, formatted strings, counters that only report, file copies, and the lists of test domains.
- Overflow of tick, reference and query counters.
