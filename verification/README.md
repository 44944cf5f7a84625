# Verified model of the Starbase gateway's feed, session and signing logic

The Starbase gateway listens to multicast market data, keeps an order session, and signs requests. This project
models the parts of it that hold state from one event to the next, and proves what holds over whole runs of them.

**Multicast ingestion.** A datagram starts with a 24-byte little-endian packet header (`PacketHeader.dfy`, on the
integers of `ByteOrder.dfy`). The header is routed by channel id to a sequencer (`Sequencer.dfy`, and over all 64-bit
numbers `WideSequencer.dfy`) that accepts it, rejects it as a repeat or a gap, or fails an assertion; a rejected
packet resets its channel (`Channel.dfy`). Only accepted packets are walked frame by frame (`Framing.dfy`), each frame
being a message header, the fixed block of its template and padding. `Feed.dfy` is the keyed map of channels,
`Pipeline.dfy` puts the four pieces together over lists of raw datagrams, and `Delivery.dfy` states what that means
for the publisher of the packets and for packets that arrive in another order. `MarketData.dfy` holds the imperative
form: the handler class, the framing loop and the receive loop, each proved against the functions the results are
about. `Watchdog.dfy` is the silence detector, `Sample.dfy` the datagram of the repository's own test, decoded by
proof. The encoding follows FIX Simple Binary Encoding 1.0: field encoding
(section 2), message structure (section 3) and schema extension by longer messages (section 5).

**Order session.** `OrderSession.dfy` is the state machine of the order entry connection and what holds over its runs;
`OrderEntry.dfy` is the class whose event methods refine it.

**Signing and identifiers.** `Signing.dfy` has the monotone signing sequence, the texts built from it and their
parser, `Crypto.dfy` the class, `Decimal.dfy` the decimal texts, `RequestIds.dfy` the request identifiers.

## How the code is read

- `assert` and `log::fatal` end the process: they are explicit outcomes (`AssertionFails`, `Aborted`, `Fails`), so that
  "every run in which the process lives" has a meaning. A release build that compiles assertions out behaves
  differently after one would have failed.
- A `messageLength` past the end of the packet makes `subspan` undefined; the model aborts. A block that does not fit
  in the rest of the packet is refused by the generated codec, which is not part of this model; the model aborts.
- A `messageLength` of zero makes the framing loop run for ever. Methods here must end, so the loop reports
  `Diverges` instead; `Framing.LoopEndsIffNoZeroLength` proves, on the loop pass by pass, that this is exactly when
  it never ends.
- Integer widths are kept where they matter: the 32-bit `previous + 1`, the truncating store of a 64-bit sequence
  number, the 16-bit key of the channel map, the wrapping request counter. Times and signing sequences are unbounded.
- The block length of each template comes from the generated codecs, so every result is for any layout.
- Message handlers are empty in the repository. The handler class keeps them so and records its callbacks. The results
  on book buffers and readiness are for any reaction, given for each message of each datagram of a run separately:
  handlers that look at the packet header, at the channel or at state of their own are covered, because in a given run
  each of them is one such reaction. Within one channel, and in the feed, snapshot starts and ends may also come from
  outside any packet.
- `MarketData` and `MarketDataSnapshot` share this logic, up to the order of two independent assignments; one class
  stands for both.

## What the proofs brought out

- With numbers from 0 to 2^32 - 2, a channel whose first non-zero packet is number 1 never becomes initialised. It
  survives only as long as packets count up one by one with immediate repeats, and the first jump fails the assertion
  (`WideSequencing.SurvivesIff`, `Sequencing.JumpAfterOneFails`, `Delivery.LossAfterFirstPacketAborts`). Over all
  64-bit numbers the same holds of climbs that wrap (`WideSequencing.SurvivesIffNeverJumps`); such a channel becomes
  initialised only once a climb has come all the way round to zero (`WideSequencing.WrapInitializesIff`), and then
  on any number but 0 and 1 (`WideSequencing.WrappedClimbJumps`).
- "After packet s, packet s + 1 is accepted" holds exactly for s between -1 and 2^32 - 2
  (`WideSequencing.SuccessorAcceptedIff`).
- "Packets accepted in a row count up by one to the previous sequence number" holds exactly when their numbers are
  unwrapped (`WideSequencing.AcceptedStretchCounts`): all but the last lie between -1 and 2^32 - 2, the last between 0
  and 2^32 - 1, and a zero leads to one. It fails on a first packet -5 and after a climb that has wrapped to zero
  (`Channels.NegativeTagEscapes`, `Channels.WrappedTailJumps`). Positive 32-bit numbers always meet the condition.
- A frame whose messageLength is smaller than the bytes it decodes, which the parser only warns about, takes part of its
  message from the bytes of the frame after it (`Framing.LocalIffCovered`, `Framing.ShortFrameTakesWhatFollows`).
- Channel ids that differ by a multiple of 2^16 share one sequencer (`Feeds.IdsShareChannelIff`).
- A connection whose logon deadline is exactly zero never logs on, because zero means unset
  (`OrderSession.ZeroDeadlineSendsNoLogon`). A second connection made while the first still waits for its logon ends
  the process (`OrderSession.SecondConnectionFails`).
- Raw data texts sort in issue order exactly when the earlier sequence does not exceed the later one cut to as many
  digits (`Signing.RawDataSortsIff`). This always holds between sequences of equally many digits, so always below
  10^13; it fails for requests at 10^13 - 1 and 10^13 milliseconds (`Signing.RawDataOrderBreaks`).

## Model

| member | source | states |
|---|---|---|
| ByteOrder.UnsignedDecodesWhatItEncodes | src/roq/starbase/protocol/sbe/packet_header.cpp:39-44 | an unsigned field of any width comes back from its little-endian bytes |
| ByteOrder.UnsignedEncodesWhatItDecodes | src/roq/starbase/protocol/sbe/packet_header.cpp:39-44 | no two byte strings of one width decode to the same unsigned value |
| ByteOrder.SignedDecodesWhatItEncodes | src/roq/starbase/protocol/sbe/packet_header.cpp:30-38 | a two's-complement field of any width comes back from its little-endian bytes |
| ByteOrder.SignedEncodesWhatItDecodes | src/roq/starbase/protocol/sbe/packet_header.cpp:30-38 | no two byte strings of one width decode to the same signed value |
| ByteOrder.DecodeEight | src/roq/starbase/protocol/sbe/packet_header.cpp:30-35 | byte i of a 64-bit field weighs 256^i |
| PacketHeaders.ParseInvertsEncode | src/roq/starbase/protocol/sbe/packet_header.hpp:27-32 | parsing a buffer gives this header and this packet if and only if the buffer is the header's 24 bytes followed by the packet; it is fatal if and only if there are fewer than 24 bytes |
| PacketHeaders.DecodeOfEncode | src/roq/starbase/protocol/sbe/packet_header.cpp:26-52 | each of the five fields is read from its own offset, whatever follows the header |
| PacketHeaders.EncodeOfDecode | src/roq/starbase/protocol/sbe/packet_header.cpp:26-52 | the header keeps every bit of the first 24 bytes |
| PacketHeaders.FieldsOfBytes | src/roq/starbase/protocol/sbe/packet_header.cpp:26-52 | each field written out in the bytes it comes from, with the sign in the highest bit |
| Sample.SampleHeader | test/sbe_ask_put.cpp:22-45 | the test datagram splits into the header values the test expects and the rest |
| Sample.SampleFrame | test/sbe_ask_put.cpp:29-51 | the rest is one AskPut frame: message header values as expected, a block of 32 bytes, nothing left over |
| Framing.LoopEndsIffNoZeroLength | src/roq/starbase/protocol/sbe/parser_2.cpp:44-127 | the framing loop ends after some number of passes if and only if no frame it reaches has messageLength zero |
| Framing.PassesEndAsWalkDoes | src/roq/starbase/protocol/sbe/parser_2.cpp:44-127 | the loop pass by pass refines the recursive decoder: same messages, same ending, in one pass for each frame and one more |
| Framing.PassesDivergeAsWalkDoes | src/roq/starbase/protocol/sbe/parser_2.cpp:44-127 | when the decoder reports divergence the loop is still running after any number of passes |
| Framing.ZeroLengthFrameRepeats | src/roq/starbase/protocol/sbe/parser_2.cpp:115-122 | a zero-length frame is a fixpoint: n passes deliver the same message n times and narrow nothing |
| Framing.PassShrinksIffPositiveLength | src/roq/starbase/protocol/sbe/parser_2.cpp:122 | one pass shortens the packet if and only if messageLength is positive, and otherwise leaves it as it was |
| Framing.MessageFieldsOfBytes | src/roq/starbase/protocol/sbe/parser_2.cpp:49-53 | each field of the message header written out in its bytes |
| Framing.SwitchIff | src/roq/starbase/protocol/sbe/parser_2.cpp:56-114 | for any header and any bytes behind it: the eighteen template ids of the switch, one by one, are decoded as soon as their block fits, and every other id is fatal |
| Framing.FirstFrameDelivered | src/roq/starbase/protocol/sbe/parser_2.cpp:47-122 | a well-formed frame is delivered from its own bytes and the packet is narrowed to exactly what follows it |
| Framing.WalkAfterFrames | src/roq/starbase/protocol/sbe/parser_2.cpp:44-122 | any packet that starts with well-formed frames: they are delivered, and the frame behind them decides how the loop goes on, by an unknown template, a block that does not fit, or its messageLength, whatever that is |
| Framing.LeftoverBytesAbort | src/roq/starbase/protocol/sbe/parser_2.cpp:47-49 | fewer than 16 bytes left over are fatal, after the frames before them have been delivered |
| Framing.WalkOfEncodedFrames | src/roq/starbase/protocol/sbe/parser_2.cpp:44-128 | framing round trip: the loop consumes encoded frames exactly, one delivery each, in order; the check for leftover bytes never fires |
| Framing.SplitFrames | src/roq/starbase/protocol/sbe/parser_2.cpp:44-122 | every chain the loop consumes with covering lengths is the encoding of well-formed frames |
| Framing.ChainIffEncodedFrames | src/roq/starbase/protocol/sbe/parser_2.cpp:44-128 | the well-formed chains are exactly the encodings of frame lists, and each comes from one list only |
| Framing.LocalIffCovered | src/roq/starbase/protocol/sbe/parser_2.cpp:26-32 | although the codec gets the rest of the whole packet, the bytes of a frame alone decide its message if and only if messageLength covers header and block: for every frame the loop delivers and steps over, down to messageLength zero |
| Framing.ShortFrameTakesWhatFollows | src/roq/starbase/protocol/sbe/parser_2.cpp:117-122 | a frame of 16 bytes with a block of 8 delivers the 8 bytes that follow it |
| Framing.PaddingKeepsBodies | src/roq/starbase/protocol/sbe/parser_2.cpp:116-122 | padding any frames, with messageLength raised to match, keeps the number, order, templates and decoded bodies of the messages |
| WideSequencing.StateFollowsAnyHistory | src/roq/starbase/gateway/channel.cpp:15-40 | over all 64-bit numbers, the channel remembers the last number truncated to 32 bits, and is uninitialised exactly while its history is a climb that may wrap |
| WideSequencing.VerdictFollowsAnyHistory | src/roq/starbase/gateway/channel.cpp:15-40 | over all 64-bit numbers, every verdict read off the history: the channel awaits the successor, wrapping, and a climb that stands at zero lets anything else in; from 0 to 2^32 - 2 in plain integers: accepted if and only if the successor of the last number, or the first of 2 or more after nothing but zeros, a repeat if and only if equal to it, and a failed assertion if and only if the history climbed from 1 and this packet jumps |
| WideSequencing.SuccessorAcceptedIff | src/roq/starbase/gateway/channel.cpp:17-36 | after any surviving packet s, accepted or not, packet s + 1 is accepted if and only if s lies between -1 and 2^32 - 2 |
| WideSequencing.SuccessorRejectedAtTheEnds | src/roq/starbase/gateway/channel.cpp:17-36 | the successors of -2 and of 2^32 - 1 are gaps |
| WideSequencing.SurvivesIffNeverJumps | src/roq/starbase/gateway/channel.cpp:32-35 | any history of 64-bit numbers survives if and only if it never jumps away from a wrapping climb that has stored something |
| WideSequencing.SurvivesIff | src/roq/starbase/gateway/channel.cpp:32-35 | in range that comes down to one line: it is a climb of zeros, then 1 to k with immediate repeats, or its first non-zero number is not 1 |
| WideSequencing.UninitializedIffClimb | src/roq/starbase/gateway/channel.cpp:17-35 | uninitialised channels with previous number k > 0 come from exactly the wrapping climbs that store k; in range, from the zeros, then 1 to k with immediate repeats |
| WideSequencing.WrapInitializesIff | src/roq/starbase/gateway/channel.cpp:17-36 | a surviving channel whose first non-zero number is 1 is initialised if and only if a climb of it had come round to zero when a number other than 0 and 1 arrived |
| WideSequencing.AcceptedStretchCounts | src/roq/starbase/gateway/channel.cpp:15-40 | a stretch of accepted packets at the end of any surviving history counts up by one to the previous number if and only if its numbers are unwrapped |
| WideSequencing.PositiveStretchUnwrapped | src/roq/starbase/gateway/channel.cpp:15-40 | positive 32-bit numbers accepted in a row are unwrapped |
| WideSequencing.InRangeStretchUnwrapped | src/roq/starbase/gateway/channel.cpp:15-40 | so is every accepted stretch of a history in range |
| WideSequencing.NegativeFirstNumber | src/roq/starbase/gateway/channel.cpp:17-36 | a first packet -5 is accepted, stored as 2^32 - 5, and does not count up to that |
| WideSequencing.WrappedClimbJumps | src/roq/starbase/gateway/channel.cpp:17-36 | a channel that has climbed from 1 round to zero accepts any number next and becomes initialised |
| Sequencing.JumpAfterOneFails | src/roq/starbase/gateway/channel.cpp:32-35 | packet 1, then packet 3, fails the assertion |
| Channels.Channel.Sequence | src/roq/starbase/gateway/channel.cpp:15-40 | the method's verdict and new state are those of the sequencer function; buffers are untouched and only a gap clears readiness |
| Channels.Channel.Reset | src/roq/starbase/gateway/channel.cpp:42-47 | buffers, instrument and readiness are cleared, the sequencer is not |
| Channels.Channel.SnapshotStart | src/roq/starbase/gateway/channel.cpp:49-51 | the channel is ready and nothing else changes |
| Channels.Channel.SnapshotEnd | src/roq/starbase/gateway/channel.cpp:53-55 | the channel is not ready and nothing else changes |
| Channels.SequencerOfLife | src/roq/starbase/gateway/channel.cpp:15-55 | resets, handlers and snapshot calls never disturb the sequencer: a channel accepts and survives as the stand-alone sequencer does |
| Channels.BuffersHoldAcceptedTail | src/roq/starbase/gateway/channel.hpp:34-36 | bids and asks hold, in order, exactly what the packets accepted since the last rejection appended |
| Channels.EntryBufferedIff | src/roq/starbase/gateway/channel.hpp:34-36 | an entry is in a book if and only if the handlers of one of those packets appended it, on that side and under that packet's number |
| Channels.InstrumentFollowsTail | src/roq/starbase/gateway/channel.cpp:42-47 | the instrument is the last one those packets set, or none |
| Channels.AcceptedTailIsSuffix | src/roq/starbase/gateway/channel.cpp:15-47 | those packets are the last ones the channel processed, and all of them were accepted |
| Channels.AcceptedTailIsLongest | src/roq/starbase/gateway/channel.cpp:15-47 | no accepted packet is missing from them |
| Channels.AcceptedTailConsecutive | src/roq/starbase/gateway/channel.cpp:15-47 | over any surviving history, those packets count up to the previous sequence number if and only if their numbers are unwrapped, as they are when positive or when the history stays in range |
| Channels.BookBufferIntegrity | src/roq/starbase/gateway/market_data_snapshot.cpp:164-174 | over any surviving history, every buffered entry carries the number of one of those packets, within the count that ends at the previous number when they are unwrapped |
| Channels.NegativeTagEscapes | src/roq/starbase/gateway/channel.cpp:17-36 | a first packet -5 is accepted and does not count up, and buffers entries beyond the previous sequence number |
| Channels.WrappedTailJumps | src/roq/starbase/gateway/channel.cpp:17-36 | after a climb that wrapped to zero the accepted packets do not count up |
| Channels.ReadyIffLiveSnapshot | src/roq/starbase/gateway/channel.cpp:42-55 | a channel is ready if and only if a snapshot start was followed by no snapshot end and no refused packet |
| Channels.SequencingBeforeReset | src/roq/starbase/gateway/channel.cpp:15-40 | the call operator alone, after any surviving history: only a gap clears readiness, and buffers and instrument stay what they were |
| Channels.UnrefusedStretchConsecutive | src/roq/starbase/gateway/channel.cpp:15-40 | in any stretch of a channel's history without a refused packet the packets count up by one to the previous number if and only if they are unwrapped |
| Channels.ReadyMeansGapFree | src/roq/starbase/gateway/channel.cpp:15-55 | a live snapshot start means ready, and the packets since any live start, not just the newest, are gap-free and duplicate-free if and only if they are unwrapped |
| Feeds.ChannelsIndependent | src/roq/starbase/gateway/market_data.cpp:266-273 | a channel's map entry is a fresh channel run on its own events alone, and an entry exists exactly for channels that had one |
| Feeds.AliveIffAllChannelsAlive | src/roq/starbase/gateway/market_data.cpp:180-190 | the process survives a run if and only if every channel survives its own part of it |
| Feeds.VerdictsIndependent | src/roq/starbase/gateway/market_data.cpp:180-190 | the verdicts a channel gets in the whole run are those it gives on its own |
| Feeds.ReorderingChannelsIsHarmless | src/roq/starbase/gateway/market_data.cpp:180-190 | a reordering that keeps each channel's order gives the same map, the same survival and the same verdicts |
| Feeds.FeedReadyIff | src/roq/starbase/gateway/market_data.cpp:180-190 | readiness of a channel in the feed depends on its own history only |
| Feeds.FeedReadyMeansGapFree | src/roq/starbase/gateway/market_data.cpp:180-190 | the gap-free statement for a channel's packets through the feed handler, whatever the other channels carry |
| Feeds.IdsShareChannelIff | src/roq/starbase/gateway/market_data.hpp:142 | two ids share a channel if and only if they differ by a multiple of 2^16, and ids of 16 bits are their own keys |
| Pipeline.EndToEndDelivery | src/roq/starbase/gateway/market_data.cpp:155-190 | for every run of datagrams that leaves the process alive, the messages called back for a channel are exactly those framed in the datagrams of its own subsequence that a stand-alone sequencer accepts, in order |
| Pipeline.AliveIffSound | src/roq/starbase/gateway/market_data.cpp:155-190 | the process is alive after a run if and only if every datagram has a header, every channel's numbers survive, and every accepted packet is consumed by the framing loop |
| Pipeline.DispatchAliveIff | src/roq/starbase/gateway/market_data.cpp:155-190 | the next datagram leaves the process alive exactly when it is sound for its channel; it ends it with the sequencer's assertion exactly when that channel's own numbers fail it, and with a framing fault, or hangs it, exactly when it is accepted and the loop does |
| Pipeline.ShortDatagramIff | src/roq/starbase/protocol/sbe/packet_header.cpp:26-29 | a datagram ends the process for want of a header if and only if it has fewer than 24 bytes, and then makes no callback |
| Pipeline.CallbacksInOrder | src/roq/starbase/gateway/market_data.cpp:155-190 | all callbacks of a run with channels interleaved, up to and with the datagram that ends the process: one for each header, accepted or not, and then one for each frame if the channel's own numbers accept it |
| Pipeline.FeedEventsAt | src/roq/starbase/gateway/market_data.cpp:180-190 | each datagram is one event of its channel, with the actions its handlers take |
| Pipeline.HandlersActInOrder | src/roq/starbase/protocol/sbe/parser_2.cpp:44-122 | the actions of a packet are those of its messages in order, none left out and none added |
| Pipeline.VerdictIsOwn | src/roq/starbase/gateway/market_data.cpp:180-190 | in a live process each channel's sequencer is the stand-alone one run on its own datagrams |
| Delivery.AcceptedRoundTrip | src/roq/starbase/protocol/sbe/parser_2.cpp:38-131 | an accepted well-formed datagram makes one header callback, then one callback for each frame in order, and leaves the process alive |
| Delivery.PublishedSurvivesIff | src/roq/starbase/gateway/market_data.cpp:155-190 | well-formed packets on interleaved channels keep the process alive if and only if each channel's numbers survive |
| Delivery.LossAfterFirstPacketAborts | src/roq/starbase/gateway/channel.cpp:32-35 | two well-formed packets numbered 1 and 3 on one channel end the process |
| Delivery.ReorderingDatagramsIsHarmless | src/roq/starbase/gateway/market_data.cpp:155-190 | raw datagrams in another order that keeps each channel's own: the process survives exactly when it did, with the same message callbacks and the same sequencer for every channel, whatever the handlers do in either run |
| Delivery.PublishedFramesDelivered | src/roq/starbase/gateway/market_data.cpp:155-190 | each channel's callbacks are the frames of its accepted packets, in the order they were sent |
| Delivery.RejectedBodiesIgnored | src/roq/starbase/protocol/sbe/parser_2.cpp:41-43 | changing the bodies of rejected packets, to anything, changes nothing |
| Delivery.BooksHoldUnbrokenPackets | src/roq/starbase/gateway/market_data.cpp:180-190 | book-buffer integrity from raw datagrams up, over any surviving run and for any behaviour of the message handlers, with or without state |
| Watchdog.LastUpdateFollowsHistory | src/roq/starbase/gateway/market_data.cpp:108-123 | the armed time is the time last heard while no tick since has passed its deadline, and unset otherwise |
| Watchdog.WarnsOncePerSilence | src/roq/starbase/gateway/market_data.cpp:117-123 | a tick warns if and only if it is the first past the deadline of the last thing heard |
| MarketDataFeed.MarketData.OnStart | src/roq/starbase/gateway/market_data.cpp:108-112 | starting arms the silence detector |
| MarketDataFeed.MarketData.OnTimer | src/roq/starbase/gateway/market_data.cpp:117-123 | a tick warns and disarms as the detector does |
| MarketDataFeed.MarketData.GetChannel | src/roq/starbase/gateway/market_data.cpp:266-273 | the channel of a key is found or created fresh, and no other entry changes or is shared |
| MarketDataFeed.MarketData.OnPacketHeader | src/roq/starbase/gateway/market_data.cpp:180-190 | the header callback changes the packet's own channel only: sequenced, and reset unless accepted |
| MarketDataFeed.DispatchFrame | src/roq/starbase/protocol/sbe/parser_2.cpp:47-114 | one pass delivers what the decoder says, with one callback, or stops on its fault without one |
| MarketDataFeed.DispatchFrames | src/roq/starbase/protocol/sbe/parser_2.cpp:44-128 | the loop makes exactly the callbacks of the recursive decoder and ends as it does |
| MarketDataFeed.DispatchPacket | src/roq/starbase/protocol/sbe/parser_2.cpp:39-129 | the header callback comes first, and frames are dispatched only when it was accepted |
| MarketDataFeed.Dispatch | src/roq/starbase/protocol/sbe/parser_2.cpp:38-131 | one datagram takes the handler object from one pipeline state to the next; true is returned if and only if the packet was accepted and consumed |
| MarketDataFeed.MarketData.OnRead | src/roq/starbase/gateway/market_data.cpp:155-171 | draining the socket takes the object to the pipeline state of everything drained, up to the first empty datagram |
| MarketDataFeed.BatchIff | src/roq/starbase/gateway/market_data.cpp:159-170 | what a read event drains is the one beginning of what is pending that holds no empty datagram and stops only in front of one |
| MarketDataFeed.DeadStays | src/roq/starbase/gateway/market_data.cpp:159-170 | a process that has ended handles nothing more |
| MarketDataFeed.MarketData.Drain | src/roq/starbase/gateway/market_data_snapshot.cpp:143-154 | the loop itself, for either feed |
| OrderSession.ReadinessFlagsAgree | src/roq/starbase/gateway/order_entry.cpp:236-289 | after every run the private flag, the public status and the history predicate agree: ready if and only if a download reached DONE with no lost connection since; the field behind the request timeout is never set |
| OrderSession.LogonTimeFollowsHistory | src/roq/starbase/gateway/order_entry.cpp:227-249 | the pending logon time is the deadline of the connection that still waits for its logon |
| OrderSession.LogonSentIff | src/roq/starbase/gateway/order_entry.cpp:134-142 | a step sends a logon if and only if it is a live tick past that deadline, before readiness |
| OrderSession.StatusFollowsHistory | src/roq/starbase/gateway/order_entry.cpp:134-142 | the public status after any surviving run: ready from a DONE on, else login sent once a logon has gone out on this connection, else disconnected after a loss, else undefined |
| OrderSession.BreaksIff | src/roq/starbase/gateway/order_entry.cpp:128-131 | after any run under any configuration, exactly which event fails an assertion: an UNDEFINED or repeated download, a connection while an earlier one waits for its logon, a due test request without a positive frequency |
| OrderSession.SurvivesIffNothingBreaks | src/roq/starbase/gateway/order_entry.cpp:227-289 | any run survives if and only if none of its events is such an event |
| OrderSession.SurvivesIffDownloadsInOrder | src/roq/starbase/gateway/order_entry.cpp:227-234 | with alternating connections the assertion on a new connection never fails: a run survives if and only if downloads come in order and no test request is due without a positive frequency |
| OrderSession.SecondConnectionFails | src/roq/starbase/gateway/order_entry.cpp:227-234 | two connections in a row end the process, unless the deadline of the first is zero |
| OrderSession.DisconnectTimeFollowsHistory | src/roq/starbase/gateway/order_entry.cpp:227-249 | the test-disconnect time is that of the standing connection |
| OrderSession.OneLogonPerSession | src/roq/starbase/gateway/order_entry.cpp:108-145 | in any run, a session sends one logon if a live tick comes after connect time plus delay and before readiness, and none otherwise |
| OrderSession.ZeroDeadlineSendsNoLogon | src/roq/starbase/gateway/order_entry.cpp:134-142 | a connection whose deadline is exactly zero sends no logon, whatever follows in its session |
| OrderSession.PingsSpaced | src/roq/starbase/gateway/order_entry.cpp:128-132 | without a lost connection, test requests are at least the ping frequency apart on any clock |
| OrderSession.PingSentIff | src/roq/starbase/gateway/order_entry.cpp:120-132 | in any surviving run, a step sends a test request if and only if it is a live tick with a download DONE since the last loss and no test disconnect past, one period or more after the last request since that loss, or at a time that is not negative if there was none |
| OrderSession.SentSinceLostUnique | src/roq/starbase/gateway/order_entry.cpp:120-132 | every surviving run has one list of requests sent since the connection was last lost |
| OrderSession.TestRequestRate | src/roq/starbase/gateway/order_entry.cpp:120-132 | any window of a session of length T holds at most T / ping_freq + 1 test requests |
| OrderSession.TestRequestsSpan | src/roq/starbase/gateway/order_entry.cpp:120-132 | n test requests of a session span at least n - 1 periods |
| OrderSession.TestDisconnectSilencesPings | src/roq/starbase/gateway/order_entry.cpp:120-127 | no test request of a session is later than its configured test-disconnect time |
| OrderSession.CloseSentIff | src/roq/starbase/gateway/order_entry.cpp:120-126 | in any surviving run, a step closes the connection if and only if it is a live tick with a download DONE since the last loss and a configured test disconnect past; no step has two outputs |
| OrderSession.TimeoutClosesFirst | src/roq/starbase/gateway/order_entry.cpp:113-118 | from any session, an expired request timeout closes and nothing else; before that it makes no difference |
| OrderEntryStream.OrderEntry.OnTimer | src/roq/starbase/gateway/order_entry.cpp:108-145 | the method takes the object from the end of one run to the end of the run with this tick, or reports the failed assertion |
| OrderEntryStream.OrderEntry.OnConnected | src/roq/starbase/gateway/order_entry.cpp:227-234 | the same for a new connection |
| OrderEntryStream.OrderEntry.OnDisconnected | src/roq/starbase/gateway/order_entry.cpp:236-249 | the same for a lost connection |
| OrderEntryStream.OrderEntry.OnDownload | src/roq/starbase/gateway/order_entry.cpp:270-289 | the same for a download state |
| OrderEntryStream.OrderEntry.OrderAction | src/roq/starbase/gateway/order_entry.cpp:182-223 | an order action is refused if and only if no download has reached DONE since the connection was last lost |
| Decimal.ParseOfPrint | src/roq/starbase/tools/crypto.cpp:56 | decimal printing is undone by parsing |
| Decimal.ParseOfPrintPadded | src/roq/starbase/tools/crypto.cpp:80 | zero padding does not change what is parsed |
| Decimal.PrintIff | src/roq/starbase/tools/crypto.cpp:56 | the printed text is the one text of digits that stands for the number without a leading zero |
| Decimal.PrintPaddedIff | src/roq/starbase/tools/crypto.cpp:80 | the padded text is the one with at least so many digits and no leading zero beyond them |
| Decimal.PaddedOrder | src/roq/starbase/tools/crypto.cpp:80 | texts padded to a width sort as their numbers do |
| Decimal.PaddedOrderIff | src/roq/starbase/tools/crypto.cpp:80 | exactly when texts of any lengths, followed by a separator below the digits, do |
| Signing.SequencesOptimal | src/roq/starbase/tools/crypto.cpp:95-102 | for any clock readings the returned sequences are the one list that is positive, strictly increasing, never behind its reading, and pointwise least among such lists |
| Signing.SequencesClosedForm | src/roq/starbase/tools/crypto.cpp:95-102 | the k-th sequence is the largest of k and each earlier reading carried forward one step a call |
| Signing.ParseOfText | src/roq/starbase/tools/crypto.cpp:54-82 | splitting a text at its first newline or dot gives back sequence and nonce, for any nonce |
| Signing.SignatureTextIff | src/roq/starbase/tools/crypto.cpp:54-58 | what is signed for any request of any run is this text and no other: the sequence without a leading zero, a newline, the nonce, a newline |
| Signing.RawDataTextIff | src/roq/starbase/tools/crypto.cpp:78-82 | the raw data of any request of any run is this text and no other: the sequence in 13 digits or as many as it needs, a dot, the nonce |
| Signing.TextsNeverRepeat | src/roq/starbase/tools/crypto.cpp:54-82 | over any run of both kinds of request no two texts are equal, even with equal readings and nonces |
| Signing.RawDataNotPrefix | src/roq/starbase/tools/crypto.cpp:78-82 | no raw data text begins with one of another sequence, so two of them differ within both |
| Signing.RawDataSortsIff | src/roq/starbase/tools/crypto.cpp:78-82 | two raw data texts of a run sort in issue order, in full lexicographic order, if and only if the earlier sequence does not exceed the later one cut to as many digits |
| Signing.RawDataSortsInIssueOrder | src/roq/starbase/tools/crypto.cpp:78-82 | so they always do between sequences of equally many digits, as all below 10^13 are |
| Signing.RawDataOrderBreaks | src/roq/starbase/tools/crypto.cpp:78-82 | requests at 10^13 - 1 and 10^13 milliseconds get texts that do not sort in issue order |
| CryptoTools.Crypto.GetSequence | src/roq/starbase/tools/crypto.cpp:95-102 | the counter moves to the next sequence and returns it |
| CryptoTools.Crypto.CreateSignatureMessage | src/roq/starbase/tools/crypto.cpp:54-58 | the message handed to the MAC is the text of this request in the run so far |
| CryptoTools.Crypto.CreateRawData | src/roq/starbase/tools/crypto.cpp:78-82 | the raw data is the text of this request in the run so far |
| RequestIds.Shared.NextRequestId | src/roq/starbase/gateway/shared.cpp:46-51 | the n-th call returns, and leaves in the buffer, the text of n modulo 2^32 |
| RequestIds.TextOfCallIff | src/roq/starbase/gateway/shared.cpp:46-51 | the text of the n-th call is "roq-" and then n modulo 2^32 without a leading zero, and no other |
| RequestIds.SameTextIff | src/roq/starbase/gateway/shared.cpp:46-51 | two calls return the same text if and only if a whole number of 2^32 calls lies between them |
| RequestIds.NearbyTextsDiffer | src/roq/starbase/gateway/shared.cpp:46-51 | calls fewer than 2^32 apart return different texts |

## Left out

- Signing.SequencesOptimal: does not model the overflow of the 64-bit millisecond counter.
- RequestIds.Shared.NextRequestId: does not model that the returned view is overwritten by the next call.
- MarketDataFeed.Dispatch: does not model the switch over templates as separate handler methods; a message carries its template id instead.
- The generated SBE codecs, beyond the fixed length of each block and the check that it fits.
- What a receive does with a datagram longer than the 4096-byte buffer; the datagrams here are what the receive call hands over.
- The read loop of the order session, which never narrows its buffer, and the order parser, which discards the lengths it computes.
- The connection manager and the download helper, which are environment: ticks carry whether the connection is up, and download states arrive as events.
- SHA256, HMAC, base64, hex and random nonces: the model stops at the text that is signed.
- Price and decimal conversions, which go through floating point.
- Sockets, multicast membership, metrics, logging, settings, controller routing, the bridges and the dump tool.
