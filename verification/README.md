# Verified model of the UDP multicast feed handler

The repository turns lossy, duplicated and reordered MoldUDP64 datagrams into per-symbol ITCH 5.0 order
books and quotes. This project models that path in Dafny and proves what it promises.

- `Bytes`, `Wire`, `Itch`: integers of fixed width, MoldUDP64 framing, the five book messages.
- `GapModel` is the state machine of the gap buffer on values (ring of 4096 slots, one-gap tracker,
  timed retransmit limiter, callback traces). `GapBuffer` is the object that updates its fields and its
  slot array in place; each of its methods is proved to compute a `GapModel` function.
  `GapDelivery`, `GapProgress`, `GapAuthenticity`, `GapRetransmit`, `GapRate`, `GapHoles`, `RingOverflow` and
  `RingRefinement` prove properties of every run of that machine, that is, of every sequence of datagrams and ticks
  from a fresh buffer.
- `Arbitrator`: two lines over one shared gap buffer.
- `Orders`, `BookModel`, `BookFacts`: one book against its live orders. `MultiModel`, `MultiFacts`,
  `BookRuns`, `BookRoutes`, `BookLedger`, `BookCounts`: all books and the routing index against one flat map of live
  orders, over every message stream: contents, reports, routes, where the shares went, and the event counters.
  `OrderBook` holds the objects that update their maps in place.
- `Decision`: the quoting rule. `Stats`, `Throughput`: histogram and sliding window against the full history.
- `Pcap`, `PcapReplay`, `PcapFiles`: capture files as byte sequences, written, read back and replayed through the
  reader's buffer, which keeps old bytes.
- `EndToEnd`: datagrams on two lines to correct books. `Pipeline`: arrival times from datagrams to decisions.

Callbacks are traces: `log`, `gaps`, `requests`, `reports` and `decisions` record what a callback was given.
Times are arguments. Sequence numbers, times, 16- and 32-bit lengths and the level counters keep their machine
width and wrap around in the model; statistics counters are unbounded. `recv`, `now` and `at` are nanoseconds.

Hypotheses used, and what happens without them:

- *Room in the number space* (`AllFit`): every datagram's range ends below 2^64. `DeliversOnceExactly` says that a
  delivery keeps the promise exactly when the number after its last message still is a 64-bit number;
  `WrapDeliversTwice` is a run that gets a message twice. A second wrap-around, of the request loop's bound, is not
  assumed away: within one ring of 2^64 an open gap is abandoned without a request (`NothingMissingExactly`,
  `CheckContent`).
- *Order of gap reports*: `GapReportsIncreaseExactly` says for every run when the reported gaps strictly increase:
  exactly when no packet comes early while the last report already named the expected number and no gap is open.
  That needs a number the tracker cannot hold: 0, its "no gap" value (`JoinedAtZeroRepeats` is such a run), or one
  within a ring of 2^64. Streams joined above 0 with that much room never repeat one (`GapReportsIncrease`).
- *Steady clock* (`Steady`): event times never decrease, and are positive if `gap_timeout` is 0. Positive because a
  request sent at time 0 is remembered as "none sent", so with no timeout each check at time 0 sends another, whatever
  the retry interval (`TimeZeroRequestsEachCheck`); with a timeout no request goes out at time 0 on such a clock. On
  any other clock `EarlyRequestExactly` says which checks send too early, first requests and retries alike. The live
  receiver mixes two clocks, so it does not promise a steady one.
- *Uniform cuts and window* (`Uniform`, `InWindow`): used only for the ring refinement. For packets cut in any way
  `OverflowsExactly` says when one is dropped, `RivalIsStaleOrFar` that inside the window this takes a stale slot or a
  packet buffered from beyond it, and `GoesStaleExactly` when a slot goes stale; `StaleForever` that it stays so.
- *Whole frames* (`AllWhole`): each captured frame holds all of its UDP payload. The reader does not compare the two
  lengths, so otherwise it hands on bytes of earlier frames (`OwnBytesExactly`, `SnappedReadsStaleBytes`) and a tag
  changes which (`TagKeepsPayloadExactly`, `TagMovesStaleBytes`). Byte order never matters, and `Replay` is exact
  without this; it asks only that no payload ends outside the reader's buffer (`InBounds`).
- *Fresh references* (`Fresh`, `Admissible`): an Add does not reuse a reference live under another symbol, a
  Replace does not take another live order's reference, and fewer than 2^32 - 1 orders are live. Exactly which
  messages the code handles is `MessageRefinesExactly`.

Where code and documentation differ, the model follows the code: the README's table says a packet below the
expected number is dropped, but one that reaches past it delivers the part not yet seen; the loss-handling notes
tie overflows to gaps of more than 4096 messages, but uneven cuts cause them inside the window; they and the gap
buffer's header promise a request for whatever is still missing after the timeout, but a second hole is not tracked once
the first closes, until another packet comes early (`UntrackedExactly`, `UntrackedIsNeverRequested`); Order Executed
With Price ('C') is ignored by the book; a Replace does not check whether its new reference is live; a Replace
of a dead but routed order still routes the new reference.

## Model

| member | source | states |
|---|---|---|
| Wire.HeaderRoundTrip | include/feed/wire_format.hpp:77-90 | parsing a serialised header followed by anything returns that header |
| Wire.ParseThenSerialise | include/feed/wire_format.hpp:77-90 | serialising a parsed header returns the 20 bytes it came from |
| Wire.FramingRoundTrip | include/feed/gap_buffer.hpp:292-305 | walking an encoded list of bodies, with anything after it, yields exactly those bodies |
| Wire.PacketRoundTrip | tools/gen_pcap.cpp:96-112 | a generated datagram parses to its header and walks back to its bodies |
| Wire.FramesOfPrefix | include/feed/gap_buffer.hpp:292-305 | walking any byte prefix of a packet yields a prefix of its messages |
| Wire.FramesReEncode | include/feed/gap_buffer.hpp:292-305 | re-encoding the messages found gives back the bytes they were found in |
| Wire.FramesStopOnlyThere | include/feed/gap_buffer.hpp:292-305 | the walk stops before its count only where no whole message is left |
| Itch.DecodeEncoded | include/feed/wire_format.hpp:171-275 | a message laid out field by field as ITCH 5.0 specifies decodes to itself, for all five types, with symbol padding trimmed |
| Itch.DecodesExactly | include/feed/order_book.hpp:285-350 | a body is decoded iff its first byte is one of A, F, D, X, E, U and it has at least 36, 36, 19, 23, 31, 35 bytes, and as the message that byte names; C is not |
| Itch.AddNamesSymbol | include/feed/order_book.hpp:291-296 | whatever the stock field holds, the symbol is what comes before its first NUL, without spaces at the end |
| GapBuffer.GapBuffer.constructor | include/feed/gap_buffer.hpp:110-115 | a new buffer is the initial state: unsynced, empty ring, nothing delivered |
| GapBuffer.GapBuffer.Ingest | include/feed/gap_buffer.hpp:129-176 | one datagram moves the object, its array and its callback traces to the state the machine defines and returns the number delivered, or -1 if it does not parse |
| GapBuffer.GapBuffer.Tick | include/feed/gap_buffer.hpp:179 | a tick is one check of the retransmit timer and delivers nothing |
| GapBuffer.GapBuffer.HandleGap | include/feed/gap_buffer.hpp:196-212 | a gap opens at the expected number, with one event, only if none is open |
| GapBuffer.GapBuffer.CheckGapTimeout | include/feed/gap_buffer.hpp:214-250 | the timer check updates tracker, limiter and request trace as the machine defines |
| GapBuffer.GapBuffer.CountMissing | include/feed/gap_buffer.hpp:233-239 | the counting loop returns the machine's missing count, loop-bound wrap-around included |
| GapBuffer.GapBuffer.BufferPacket | include/feed/gap_buffer.hpp:254-279 | the packet is copied, cut at 1500 bytes, into its slot, or counted as overflow if another number holds it |
| GapBuffer.GapBuffer.DeliverPacket | include/feed/gap_buffer.hpp:284-310 | the cursor walk delivers exactly the framed messages not yet delivered and moves past the packet |
| GapBuffer.GapBuffer.Walk | include/feed/gap_buffer.hpp:292-305 | the loop appends the accepted messages of the packet and stops at its end number |
| GapBuffer.GapBuffer.FlushBuffer | include/feed/gap_buffer.hpp:313-336 | the flush loop ends, and releases every packet that has become next, freeing its slot |
| GapDelivery.ExactlyOnceInOrder | include/feed/gap_buffer.hpp:129-176 | after every run of arbitrary datagrams and ticks the delivered numbers are first, first + 1, .., next - 1, where first is the number of the first datagram that parsed |
| GapDelivery.DeliveryOnlyGrows | include/feed/gap_buffer.hpp:284-336 | nothing delivered is taken back, and next never decreases after the sync |
| GapDelivery.RunInv | include/feed/gap_buffer.hpp:169-174 | in every reachable state the open gap starts at next, nothing buffered starts there, and slots are keyed by number mod 4096 |
| GapDelivery.FlushKeeps | include/feed/gap_buffer.hpp:313-336 | a flush keeps the log ordered, ends with nothing buffered at next, and leaves the tracker alone |
| GapDelivery.SessionIsThatOfTheJoin | include/feed/gap_buffer.hpp:134-138 | the session is the first parsed datagram's, whatever comes later, and the configured one until then |
| GapDelivery.CountersAgreeWithTheRun | include/feed/gap_buffer.hpp:140-156 | all five counters equal a tally of the run: a packet is a duplicate if it lies wholly below next, an overflow if it comes early while a packet of another number sits in its slot |
| GapDelivery.DeliversOnceExactly | include/feed/gap_buffer.hpp:284-310 | a delivery keeps the log numbered without holes or repeats, and moves next by as much as the log grows, iff the number after the last message found is below 2^64; otherwise messages go out and next stays |
| GapDelivery.WrapDeliversTwice | include/feed/gap_buffer.hpp:304-308 | without room above it, message 2^64 - 1 is delivered twice when its datagram is repeated |
| GapProgress.ReachedIsDelivered | include/feed/gap_buffer.hpp:158-175 | a packet that starts at or below next moves next to its end or beyond, and each of its messages not delivered before goes out under its number, with its body and arrival time |
| GapProgress.NothingReachedIsWithheld | include/feed/gap_buffer.hpp:129-176 | over every run, each message of a datagram that comes at or below next is in the log afterwards, and with that datagram's body and time if it was not before |
| GapProgress.SlotsHoldLatestCopy | include/feed/gap_buffer.hpp:268-278 | over every run, each packet waiting above next is the latest copy that came of it: count, arrival time and first 1500 bytes |
| GapAuthenticity.DeliveredIsAuthentic | include/feed/gap_buffer.hpp:254-336 | every delivery is a message framed at that number in some datagram of the run, with that datagram's arrival time, through buffering and cutting |
| GapAuthenticity.FlushAuthentic | include/feed/gap_buffer.hpp:313-336 | messages flushed from slots are those of the datagrams the slots copied |
| GapAuthenticity.CallDeliversBounded | include/feed/gap_buffer.hpp:167-175 | in every reachable state one call delivers at most 65535 + 4096 * 750 messages, so its int result fits |
| GapRetransmit.CheckContent | include/feed/gap_buffer.hpp:214-250 | if a gap is open, the callback set and the interval over, one request goes out from next for the longest run free of buffered starts, up to the limit; only within one ring of 2^64 the gap is abandoned instead; otherwise nothing changes |
| GapRetransmit.NothingMissingExactly | include/feed/gap_buffer.hpp:233-240 | the count of a number that is missing is 0 iff the loop bound wraps around |
| GapRetransmit.RequestsAskForWhatIsMissing | include/feed/gap_buffer.hpp:230-249 | over every run, each event adds at most one request, and it asks for the longest missing run from next with the synced session |
| GapRetransmit.ReportsAreMissingRanges | include/feed/gap_buffer.hpp:196-212 | over every run, a report starts at next, is nonempty, wholly undelivered and ends right below the packet that revealed it |
| GapRetransmit.GapReportsIncrease | include/feed/gap_buffer.hpp:196-212 | joined above 0 and with a ring of room, the first missing numbers reported strictly increase, and there is at most one more report than deliveries |
| GapRetransmit.GapReportsIncreaseExactly | include/feed/gap_buffer.hpp:197 | over every run the reports strictly increase iff no packet ever comes early while the last report already names next and no gap is open |
| GapRetransmit.JoinedAtZeroRepeats | include/feed/gap_buffer.hpp:197-201 | a heartbeat numbered 0, then packets 5 and 6: both are reported as a gap at 0 |
| GapRetransmit.RequestsNameReportedGaps | include/feed/gap_buffer.hpp:230-249 | over every run each request starts at the start of a reported gap |
| GapHoles.UntrackedExactly | include/feed/gap_buffer.hpp:158-174 | while the tracker can hold next: after any event a hole is untracked, with no open gap but a later packet buffered, iff it was and the event is idle, or a packet reached next, no gap was open or next moved, and something stays buffered above |
| GapHoles.UntrackedIsNeverRequested | include/feed/gap_buffer.hpp:179-216 | over every suffix of ticks, heartbeats, unparsable and old datagrams an untracked hole stays so: nothing is reported, requested or delivered |
| GapHoles.SecondHoleIsForgotten | include/feed/gap_buffer.hpp:169-174 | packets n + 1, n + 3, then n: the first hole closes and the one at n + 2 is left untracked |
| GapRate.RequestRateBound | include/feed/gap_buffer.hpp:217-248 | on a steady clock a gap that has produced k > 0 requests was reported at least gap_timeout + (k - 1) * retry_interval ago |
| GapRate.TimelyRequestExactly | include/feed/gap_buffer.hpp:217-228 | a check at or after the detection or last request sends a request iff the timeout or retry interval has passed since |
| GapRate.EventSendsExactly | include/feed/gap_buffer.hpp:140-164 | ticks, heartbeats and early packets send a request iff the open gap's interval is over, or the packet opens a gap and there is no timeout; no other event sends one |
| GapRate.RequestsGoOutExactly | include/feed/gap_buffer.hpp:179-250 | over every run on a steady clock requests go out exactly then |
| GapRate.EarlyRequestExactly | include/feed/gap_buffer.hpp:217-228 | a check sends a first request or a retry before its interval is over iff its time lies before the detection or last request by so much that the wrapped difference reaches the interval |
| GapRate.TimeZeroRequestsEachCheck | include/feed/gap_buffer.hpp:217-228 | with no timeout, each check at time 0 sends a request whatever the retry interval, because a request at time 0 reads as none |
| RingRefinement.RingRefinesUnboundedBuffer | include/feed/gap_buffer.hpp:158-168 | over uniformly cut, windowed runs the occupied slots are exactly the received undelivered packets, next is the first one missing, every body is the stream's, and nothing overflows |
| RingRefinement.NextIsLeastMissing | include/feed/gap_buffer.hpp:313-317 | next is the least number from the join on that no received packet covers |
| RingRefinement.OutcomeIgnoresArrivalOrder | include/feed/gap_buffer.hpp:158-168 | two such runs with the same join and the same packets received deliver the same messages and hold the same packets, in whatever order they came |
| RingOverflow.OverflowsExactly | include/feed/gap_buffer.hpp:254-266 | for packets cut in any way, one that comes early is dropped and counted iff a packet of another number congruent mod 4096 is buffered; otherwise it is buffered itself |
| RingOverflow.RivalIsStaleOrFar | include/feed/gap_buffer.hpp:260-266 | inside the window that other packet is stale, its number already passed, or lies beyond the window |
| RingOverflow.PassesExactly | include/feed/gap_buffer.hpp:313-336 | a flush passes a number without a stop there iff the number lies strictly inside a packet it releases |
| RingOverflow.GoesStaleExactly | include/feed/gap_buffer.hpp:284-336 | a buffered packet goes stale iff its number lies strictly inside a delivered packet, the one that came or one released by it |
| RingOverflow.StaleForever | include/feed/gap_buffer.hpp:260-266 | a stale packet keeps its slot to the end of every run, blocking every other number of that slot |
| RingRefinement.UniformOverflowsExactly | include/feed/gap_buffer.hpp:260-266 | with uniform cuts a packet is dropped iff a received undelivered packet a multiple of 4096 away is pending, which takes an arrival outside the window |
| RingOverflow.UnevenCutsLoseAPacket | include/feed/gap_buffer.hpp:260-266 | with uneven cuts a covered slot stays occupied, and a packet inside the window is then dropped |
| Arbitrator.ArbitrationErasesLabels | include/feed/feed_arbitrator.hpp:115-150 | the shared buffer after an arbitrated run is the one after the same run without line labels |
| Arbitrator.LinesAccountForEverything | include/feed/feed_arbitrator.hpp:119-147 | over every run the lines' wins add up to the deliveries, each line's packets are wins, redundant calls and parse failures, and each line's last win time is right |
| Arbitrator.LineCountsAreThoseOfTheRun | include/feed/feed_arbitrator.hpp:115-150 | over every run each line's packets are all calls on it, its wins what those calls delivered, and its redundant calls those that parsed and delivered nothing |
| Arbitrator.WinsAreProgress | include/feed/feed_arbitrator.hpp:130-137 | the wins are also the distance next has moved from the join |
| Arbitrator.FeedArbitrator.IngestLine | include/feed/feed_arbitrator.hpp:115-150 | one datagram on a line changes the shared buffer and only that line's counters |
| Arbitrator.FeedArbitrator.Tick | include/feed/feed_arbitrator.hpp:81 | a tick goes to the shared buffer and changes no line counter |
| OrderBook.OrderBook.ApplyAdd | include/feed/order_book.hpp:103-114 | Add moves the object, its counters included, to the book the model defines and reports at most one top of book, with the message's arrival time |
| OrderBook.OrderBook.ApplyDelete | include/feed/order_book.hpp:116-124 | Delete, likewise |
| OrderBook.OrderBook.ApplyCancel | include/feed/order_book.hpp:126-138 | Cancel, likewise |
| OrderBook.OrderBook.ApplyExecuted | include/feed/order_book.hpp:140-152 | Executed, likewise |
| OrderBook.OrderBook.ApplyReplace | include/feed/order_book.hpp:154-165 | Replace, likewise |
| OrderBook.OrderBook.Top | include/feed/order_book.hpp:169-180 | the first key of each sorted side with its aggregates |
| OrderBook.OrderBook.NotifyIfTopChanged | include/feed/order_book.hpp:235-251 | reports iff the callback is set and prices, sizes or presence differ from the last report, and passes the arrival time on |
| OrderBook.MultiSymbolBook.Ingest | include/feed/order_book.hpp:285-350 | one message body changes the book objects and routes as the model defines, appends its report with its arrival time, and returns whether it was a book message |
| OrderBook.MultiSymbolBook.WireBook | include/feed/order_book.hpp:378-386 | the callback is attached to a symbol's book once |
| BookRoutes.HandlesExactly | include/feed/order_book.hpp:285-350 | a body is accepted iff it is a book message; any other changes no book, route or counter, reports nothing and is not seen by the flat map |
| BookRoutes.RoutesAreThoseOfTheStream | include/feed/order_book.hpp:285-350 | over every stream the index routes a reference to the symbol of its last Add or Replace unless deleted or replaced away since, and unrouted messages are counted |
| BookRoutes.NoCallbackNoReport | include/feed/order_book.hpp:378-386 | with no callback set no stream reports anything |
| BookFacts.AddKeeps | include/feed/order_book.hpp:103-114 | Add keeps the aggregates equal to sums over live orders and follows the flat rule |
| BookFacts.DeleteKeeps | include/feed/order_book.hpp:116-124 | Delete, likewise |
| BookFacts.ReduceKeeps | include/feed/order_book.hpp:126-152 | Cancel and Executed, likewise, removing an order left with no shares |
| BookFacts.ReduceTakesExactly | include/feed/order_book.hpp:126-152 | an order with more shares than the quantity keeps the difference, one with no more is gone |
| BookFacts.ReplaceKeepsExactly | include/feed/order_book.hpp:154-165 | Replace follows the flat rule, and the aggregates stay right iff the new reference is not another live order's |
| BookFacts.GuardsNeverBite | include/feed/order_book.hpp:210-233 | a level holds at least the shares of each order on it and counts at least one order, so the underflow guards never take effect |
| BookFacts.TopIsTrue | include/feed/order_book.hpp:169-180 | the top of book is the highest live buy and lowest live sell price with all shares and orders resting there, or absent iff the side is empty |
| BookFacts.ReportsFollowTop | include/feed/order_book.hpp:235-251 | with the callback set each message keeps the last report equal to the current top, and reports only changes |
| BookFacts.ToldExactly | include/feed/order_book.hpp:235-251 | the callback is told iff it is set and was told nothing yet, or presence, price or size of either side differ from what it was told |
| BookFacts.RestingEqualsAggregated | include/feed/order_book.hpp:197-233 | all shares resting in a book are all shares aggregated over both sides |
| MultiFacts.BooksRefineFlatMap | include/feed/order_book.hpp:285-350 | over every admissible stream the books are the flat map of live orders split by symbol, and every live order is routed to the one book that holds it, stale routes notwithstanding |
| MultiFacts.MessageRefinesExactly | include/feed/order_book.hpp:285-346 | one message keeps that relation iff it is an Add not reusing a reference live elsewhere, or a Replace onto a reference not live, kept, or held by the book a dead original routes to, or any other type |
| MultiFacts.UnsafeReplaceBreaks | include/feed/order_book.hpp:335-346 | any other Replace loses the relation at once |
| BookRuns.LastReportIsCurrent | include/feed/order_book.hpp:378-386 | over every stream with the callback set first, each symbol's last report has the current best prices and sizes, and successive reports differ in one of them |
| BookLedger.SharesAreConserved | include/feed/order_book.hpp:103-165 | over every admissible stream, what the levels of the routed books gained from Add and Replace is resting or left them by Cancel, Executed, Delete or Replace, and the levels of all books add up to the resting total |
| BookLedger.LedgersAgree | include/feed/order_book.hpp:197-233 | what each message moves in the levels of the book it is routed to is what it moves by the flat rules |
| BookCounts.CountersTellOutcomes | include/feed/order_book.hpp:103-165 | over every admissible stream each event counter, summed over all books, is the number of messages that had that effect on the live orders, unrouted ones among the unknown |
| Decision.QuotesInsideExactly | include/feed/decision_engine.hpp:96-102 | a configuration quotes strictly inside every market iff 1 <= tick <= threshold (the 32-bit product), or the threshold admits no spread |
| Decision.SensibleConfigQuotesInside | include/feed/decision_engine.hpp:53-57 | a positive tick and minimum spread whose product fits 32 bits suffice |
| Decision.DecidesExactly | include/feed/decision_engine.hpp:91-119 | a report leads to a decision iff both sides are there and the ask is above the bid by more than the 32-bit product; it buys the configured size one tick above the bid |
| Decision.DecidesPlainly | include/feed/decision_engine.hpp:96-102 | with a product that fits 32 bits and a positive minimum spread neither the threshold nor the price wraps around |
| Decision.QuotesLieBetweenLiveOrders | include/feed/decision_engine.hpp:91-119 | with such a configuration, over every admissible stream, each quote lies strictly above all live buys and strictly below all live sells of its symbol at that moment, and one tick above the best buy |
| Decision.DecisionEngine.OnTopOfBook | include/feed/decision_engine.hpp:91-119 | one report adds at most one decision and, if the clock allows, one latency sample |
| Stats.LatencyHistogram.Record | include/feed/stats.hpp:38-43 | the bucket counters keep standing for the full list of samples |
| Stats.LatencyHistogram.Percentile | include/feed/stats.hpp:45-55 | for the k-th smallest sample x below 2^63 the bound U satisfies x < U <= 2 * max(1, x); otherwise it is 2^64 - 1 |
| Stats.RankBucket | include/feed/stats.hpp:50-53 | the bucket the cumulative count reaches the rank in is the bucket of the k-th smallest sample |
| Stats.RankExistsExactly | include/feed/stats.hpp:45-55 | there is a k-th smallest sample iff more than k samples were recorded, and it is unique |
| Throughput.RingMatchesHistory | include/feed/stats.hpp:131-137 | the live buckets add up to what the last 50 windows of the full history recorded |
| Throughput.RecordTracks | include/feed/stats.hpp:122-128 | recording on a clock that does not run back keeps each bucket equal to its latest window's total |
| Throughput.ThroughputTracker.Record | include/feed/stats.hpp:122-129 | one bucket and the total change, the history grows by the entry |
| Throughput.ThroughputTracker.MsgsPerSec | include/feed/stats.hpp:131-137 | the rate is a fifth of the messages of the last 50 windows of the full history |
| Pcap.FileReadBack | include/feed/pcap_replay.hpp:199-236 | a file of any frames, its headers in either byte order, reads back as those frames with their times, oversized ones as skipped |
| Pcap.CutFileReadsWholeRecords | include/feed/pcap_replay.hpp:219-236 | a file with anything after its whole records reads as those records first |
| Pcap.CutRecordEndsReplay | include/feed/pcap_replay.hpp:219-236 | of a record whose header or frame is cut short nothing is read |
| Pcap.OtherFilesReadNothing | include/feed/pcap_replay.hpp:199-209 | a file that is too short, or starts with neither byte order's magic number, holds no records |
| Pcap.TagShiftsExtraction | include/feed/pcap_replay.hpp:285-320 | inserting an 802.1Q tag in an untagged frame moves the payload offset by four and changes neither port, length nor a payload the frame holds |
| Pcap.ExtractsExactly | include/feed/pcap_replay.hpp:285-320 | of a frame laid out field by field, tagged or not, with IPv4 options or not, the payload offset, length and port of UDP over IPv4 are extracted, and nothing of another type, protocol or too short a length |
| Pcap.ExtractsFromFront | include/feed/pcap_replay.hpp:285-316 | from the front of a frame the same is extracted if it holds the UDP header and 20 bytes of IPv4, and else nothing |
| PcapReplay.FilterSelectsPort | include/feed/pcap_replay.hpp:254-259 | a filter port hands on exactly the packets to that port of those handed on without one |
| PcapReplay.NoFilterTakesAll | include/feed/pcap_replay.hpp:249-259 | without a filter port every UDP payload extracted is handed on |
| PcapReplay.CountersOfReplay | include/feed/pcap_replay.hpp:224-261 | the counters are the oversized records, the others, the packets handed on, and the rest |
| PcapReplay.OwnBytesExactly | include/feed/pcap_replay.hpp:215-320 | the bytes handed on are the same whatever the uncleared buffer held iff the frame holds as many as its UDP length says, and then they are the frame's |
| PcapReplay.TagKeepsPayloadExactly | include/feed/pcap_replay.hpp:294-319 | a tag leaves the payload handed on as it was, whatever the buffer held, under the same condition and no other |
| PcapReplay.DependsOnFileAloneExactly | include/feed/pcap_replay.hpp:215-236 | what a replay hands on depends on the file alone iff each payload ends within the longest frame read so far |
| PcapReplay.WholeFramesReadTrue | include/feed/pcap_replay.hpp:215-276 | if every frame holds its payload, a replay hands on exactly the packets the file stands for |
| PcapReplay.OrderChangesNothing | include/feed/pcap_replay.hpp:199-236 | header byte order changes no packet or counter, old bytes or not |
| PcapReplay.ReplayIgnoresOrderAndTags | include/feed/pcap_replay.hpp:199-276 | if every frame holds its payload, neither header byte order, nor added tags, nor the buffer's old contents change any packet or counter of a replay |
| PcapReplay.TagMovesStaleBytes | include/feed/pcap_replay.hpp:215-276 | after a longer frame, a frame cut shorter than its UDP length hands on other bytes when a tag is added to it |
| PcapFiles.SnappedReadsStaleBytes | include/feed/pcap_replay.hpp:219-320 | a packet captured with a snap length is handed on as its first bytes followed by what the buffer held |
| PcapFiles.ExtractedExactlyIfFits | include/feed/pcap_replay.hpp:72-112 | a written payload is extracted iff it is at most 65493 bytes; beyond that the 16-bit frame length wraps and the reader skips the record |
| PcapFiles.WriteThenRead | include/feed/pcap_replay.hpp:66-118 | for every list of packets, what reading the written file yields, whatever the buffer held: payloads, port, times with 32-bit seconds, and the counters |
| PcapFiles.RoundTrip | include/feed/pcap_replay.hpp:66-118 | with payloads and times that fit, the same payloads, ports and times come back in order |
| PcapFiles.CaptureReplaysAsLive | include/feed/pcap_replay.hpp:219-276 | replaying a written capture into a fresh buffer is the run that received those packets live |
| PcapFiles.PcapWriter.WritePacket | include/feed/pcap_replay.hpp:66-118 | the file grows by the record of this packet |
| PcapFiles.Replay | include/feed/pcap_replay.hpp:186-280 | through one buffer of 65551 bytes, the loop hands the gap buffer the bytes found there at each UDP length, and its counters agree; every payload must end inside the buffer |
| EndToEnd.DeliveredIsTheStream | include/feed/gap_buffer.hpp:129-336 | if every datagram carries messages of one stream, what is delivered is that stream from the join to next |
| EndToEnd.BooksAreThoseOfTheStream | include/feed/feed_arbitrator.hpp:115-150 | after any two-line run with loss, duplication, reordering, truncation or overflow the books are those of the stream's messages first .. next - 1 applied once each in order |
| EndToEnd.SameProgressSameBooks | include/feed/feed_arbitrator.hpp:68-76 | two such runs with the same join and progress have identical books, whichever line won |
| EndToEnd.EveryBookIsRight | include/feed/order_book.hpp:285-350 | each symbol's book then holds exactly its live orders of the stream, and its top is the true best of each side |
| Pipeline.DecisionsCarryArrivalTimes | include/feed/decision_engine.hpp:91-119 | over every arbitrated run each decision carries the arrival time of the datagram that carried the message it was made on, also when that datagram was buffered |

## Left out

- Receiver sockets, multicast joins, kernel timestamps, busy polling, real-time pacing and `monotonic_ns`: wall-clock
  and network input; times are arguments.
- Command-line tools and benchmarks: argument parsing and printing.
- `a_win_share` and `line_looks_dark`: one-expression health indicators over the counters modelled here.
- Histogram mean and sum, `SampleRecorder`, atomics: floating point and memory order; percentile takes the target rank
  as a natural number.
- Callback objects: a callback appends to a trace and does not call back into the object; setting a book's callback
  after its first message is not modelled.
- `write_heartbeat`, `write_mold_packet`, `put_be48`, `RetransmitRequest::serialise`: they add only further layouts of
  the same kind.
- `std::map` order and `unordered_map` are Dafny maps; the first key of a sorted side is the one no other precedes.
- Calling the book while a datagram is still being delivered: `EndToEnd` applies the delivered messages in delivery
  order, which is what the callback does.
- PcapFiles.Replay: a UDP length that reaches past the reader's 65551-byte buffer is outside its precondition, where
  the source reads whatever memory follows; and pacing is not modelled: waiting changes no packet and no counter.
- Statistics counters, message totals and bucket counts are unbounded, not 64-bit.
