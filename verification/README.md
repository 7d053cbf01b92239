# Verification of the hp-lib buffers, ping and message extractor

A Dafny 4.11 model of four parts of hp-lib, with proofs of what they are for. `dafny verify dfyconfig.toml`
checks all of it.

* **The byte ring** (`CircularBuffer`). The class in `CircularBuffers.dfy` works in place on an array with 32-bit
  indices, every one of whose operations is shown not to wrap around. `RingModel.dfy` says what its fields mean and
  shows that `write` is a bounded queue of capacity `size_ - 1` that drops its oldest bytes, for blocks of any length.
  `RingRuns.dfy` takes each locked section as one step of any number of threads and proves the queue behaviour, the
  order of delivery and the byte ledger over every run. `UnlockedCounts.dfy` is about `get_all_bytes`, which takes its
  count without the lock. Each of the four loads of `head_` and `tail_` in `remain_bytes` may fall anywhere between and
  within the writes of others, in any order. The read that follows then gets the oldest bytes without waiting iff the
  two loads compared and the two loads subtracted see `head_` on the same side of `tail_`; otherwise the count is one
  that the ring can never hold, so the read waits until the ring is destroyed or, when the count is no `int`, is not
  even reached.
* **The packet ring** (`Buffer<Type>`). `PacketRing.dfy` takes whole operations as steps. However often the writer laps
  the reader, no get returns a packet twice or after a newer one; packets come without loss iff the writer is at most
  one lap ahead at every get. `PacketRingSteps.dfy` makes every access to an atomic or a slot a step of its own, where
  a lapped reader can go backwards. `write_index_` holds `size_` between lines 43 and 45 of `buffer_template.h`. A
  reader that tests emptiness then with `read_index_` 0 is let through to an empty ring. For every interleaving in which
  a write begins with at most `size_ - 2` packets outstanding it is proved that delivery is FIFO, at every moment, iff
  no such test is followed by its copy on line 54 before the writer is next at line 43; a run is exhibited in which a
  packet is delivered twice.
* **The ICMP ping.** `Checksums.dfy` proves `compute_checksum` right for every body of at most 131068 bytes, shows the
  bound to be tight, and says for all bodies when the receiver accepts the message. `Ipv4Headers.dfy` has the two
  stream readers in a row. `PingModel.dfy` is the event loop with the handlers of `Ping` as a state machine and its
  stop rule over every run, and `Pings.dfy` is the class that steps exactly like it.
* **The passes of the message extractor.** `Parsing.dfy` is the `for` loop of `find_message` as a pure parse of a byte
  stream, `Frames.dfy` proves when a frame written in a layout is read back, `Extractor.dfy` is the code that reads
  from the ring, and `ExtractorRuns.dfy` shows that neither the chunks in which the stream arrives nor the
  interleaving of writes and reads changes the result, up to the fields of frame after frame coming through
  whole.

Where the code and its intention differ the model follows the code: `find_header` reads nothing, so a frame with
header bytes is misread (`FrameComesBackIffNoHeader` gives the exact condition); a refused command in a layout without
a header reaches for a null header (`FaultIffNoHeader`, `FaultPossibleIff`), so that only an empty header section is
safe on both counts (`SafeIffEmptyHeader`); an object that has stopped and pings again sends one request and returns
(`PingingAgainSendsOnce`); `build_message` gets the command cut at its first zero byte; `calc_len`
at size 3 counts the string terminator as a fourth byte; `msg` keeps the message of the pass before, whose
size a data section ahead of the command then gets (`MessageMattersIff`). `extractor_`, which is never set, is read as
`packet_structure_`.

## Model

| member | source | states |
|---|---|---|
| RingModel.WriteContents | common/src/circular_buffer.cc:131-155 | After a write of any length the live bytes are the newest `size_ - 1` bytes of what was live followed by the block. |
| RingModel.WriteKeepsNewest | common/src/circular_buffer.cc:131-155 | The same in plain lengths and slices: at most `size_ - 1` bytes are live, and they are the last ones of what was live followed by the block. |
| RingModel.WriteCells | common/src/circular_buffer.cc:136-151 | Copying the block at `head_` and then moving `tail_` behind `head_` once, if it did not fit, gives the same three fields as storing it byte by byte and dropping the oldest byte whenever the ring is full. |
| RingModel.WriteAppend | common/src/circular_buffer.cc:131-155 | Two writes leave the same storage, `head_` and `tail_` as one write of both blocks, and the joint write overflows iff one of the two does. |
| RingModel.CellsChunk | common/src/circular_buffer.cc:138-145 | One memcpy up to the end of the storage does what storing its bytes one at a time does. |
| RingModel.ReadContents | common/src/circular_buffer.cc:120-127 | Moving `tail_` by `len` removes exactly the oldest `len` live bytes. |
| RingModel.ReadTwice | common/src/circular_buffer.cc:107-129 | Reading a bytes and then b bytes gives the bytes and the ring of one read of a + b. |
| CircularBuffers.CopyIn | common/src/circular_buffer.cc:138-145 | The loop of write, laps included, stores the block from `head_` on and returns the new `head_`. |
| CircularBuffers.CopyOut | common/src/circular_buffer.cc:120-127 | The loop of read fills the caller's block with the oldest live bytes, leaves the rest of it alone and returns the new `tail_`. |
| CircularBuffers.CircularBuffer.constructor | common/src/circular_buffer.cc:8-19 | A new ring is empty and not destroyed, and all its cells are zero. |
| CircularBuffers.CircularBuffer.RemainBytes | common/src/circular_buffer.cc:97-105 | The number of bytes that still fit without dropping any; its 32-bit arithmetic does not wrap. |
| CircularBuffers.CircularBuffer.CountBytes | common/src/circular_buffer.cc:189-192 | The number of live bytes. |
| CircularBuffers.CircularBuffer.Write | common/src/circular_buffer.cc:131-155 | The in-place write is the drop-oldest queue write, and the write step of the runs; it reports BUF_OVERFLOW iff count plus length exceeds `size_ - 1`. |
| CircularBuffers.CircularBuffer.CheckFreeSpace | common/src/circular_buffer.cc:194-200 | The wait of read ends iff `len` bytes are live or the ring is destroyed, that is iff the read step or the give-up step of the runs is possible. |
| CircularBuffers.CircularBuffer.Read | common/src/circular_buffer.cc:107-129 | Succeeds iff the ring is alive and has `len` bytes, always so with timeout 0 on a live ring, then delivers and removes the oldest ones; otherwise nothing changes and BUF_TIMEOUT is reported. Either way it is a possible step of the runs. |
| CircularBuffers.CircularBuffer.ReadNextByte | common/src/circular_buffer.cc:157-163 | Takes the oldest byte off the ring. |
| CircularBuffers.CircularBuffer.GetAllBytes | common/src/circular_buffer.cc:165-175 | Sequentially it returns all live bytes and empties the ring; on a destroyed ring it returns zeros and takes nothing. |
| CircularBuffers.CircularBuffer.ClearBuffer | common/src/circular_buffer.cc:79-83 | The ring is empty afterwards. |
| CircularBuffers.CircularBuffer.Destroy | common/src/circular_buffer.cc:21-27 | Only the flag that makes readers give up changes. |
| RingRuns.LiveBytesAreNewest | common/src/circular_buffer.cc:79-155 | In every run the live bytes are the last `count()` bytes of all that its steps wrote, and of what they wrote since the last clear. |
| RingRuns.DeliveredIsSubsequence | common/src/circular_buffer.cc:107-155 | In every run delivered bytes sit at strictly increasing positions of the stream that its steps wrote, all before the live ones, and are unchanged. |
| RingRuns.Conservation | common/src/circular_buffer.cc:79-155 | In every run written = delivered + dropped + live, with count + len - (`size_ - 1`) dropped by an overflowing write and count by a clear. |
| RingRuns.LosslessFifo | common/src/circular_buffer.cc:107-155 | In every run in which each block fits when it is written and nothing is cleared, delivered bytes followed by live bytes are all that was written; those are the runs without an overflow report and a clear. |
| RingRuns.RunsAreQueueRuns | common/src/circular_buffer.cc:29-155 | The ring has exactly the runs of a bounded drop-oldest queue: the same steps are possible, and the same bytes come out. |
| UnlockedCounts.WriteGrows | common/src/circular_buffer.cc:131-155 | A write of any length does not make the count fall, and moves `tail_` only if the ring ends up full. |
| UnlockedCounts.WritesKeepCount | common/src/circular_buffer.cc:131-155 | No sequence of writes lowers the count. |
| UnlockedCounts.MomentLeaves | common/src/circular_buffer.cc:131-155 | Seen from any moment of a run of writes, within a write included, the ring is full in the end, or `tail_` is where it was and at least as much is counted. |
| UnlockedCounts.TornCountIs | common/src/circular_buffer.cc:97-105 | The 32-bit count from four unrelated loads is that of the head and tail subtracted if they are on the sides the comparison saw, and otherwise more than a ring of that size can hold, and no `int` either if the comparison saw `head_` in front. |
| UnlockedCounts.LoadedCountFitsIffLoadsAgree | common/src/circular_buffer.cc:97-105 | With the four loads at any moments of a run of writes, within a write included and in any order, the count is at most what the ring holds in the end iff both pairs of loads see `head_` on the same side of `tail_`, and otherwise exceeds the capacity. |
| UnlockedCounts.GetAllWaitsIffLoadsDisagree | common/src/circular_buffer.cc:165-175 | A single reader whose four loads come at any moments between or within the writes of others does not wait when it gets the lock, and gets exactly as many bytes as it counted, the oldest live then, iff the loads agree; if they do not, that many bytes are never there in any continuation. |
| UnlockedCounts.GetAllNeverBlocks | common/src/circular_buffer.cc:165-175 | When all loads see one moment, even one within a write, the read after any further writes does not wait and gets exactly the bytes counted, the oldest live ones. |
| UnlockedCounts.LoadsCanDisagree | common/src/circular_buffer.cc:97-105 | Runs of a four-byte ring in which one write between the loads, or around them, gives a count of 7, of 4, or of -1 as an `int`. |
| PacketRing.ServedIsNewestInSlot | common/include/hp/common/buffer/buffer_template.h:48-59 | Of the first w writes, the number given for get r is the newest one that went to the slot the get reads, at most one lap back from w. |
| PacketRing.FifoIffNotLapped | common/include/hp/common/buffer/buffer_template.h:39-59 | A get returns the oldest packet not yet fetched iff the writer is at most one lap ahead. |
| PacketRing.LaterGetsAreNewer | common/include/hp/common/buffer/buffer_template.h:48-59 | Whatever the slot before gave, and however far the writer has come since, an enabled get returns a newer packet. |
| PacketRing.GetsNeverGoBack | common/include/hp/common/buffer/buffer_template.h:39-59 | In every run of whole operations, laps included, all packets of its writes are recorded, and the numbers of the packets returned are strictly increasing, each at least its own place in the sequence and already written. |
| PacketRing.FifoIffNeverLapped | common/include/hp/common/buffer/buffer_template.h:39-59 | A run returns packets 0, 1, 2, ... without loss iff the writer is at most one lap ahead at every get. |
| PacketRing.NeverLappedReturnsFirst | common/include/hp/common/buffer/buffer_template.h:39-59 | In such a run, k gets return the first k packets of its writes. |
| PacketRing.Buffer.constructor | common/include/hp/common/buffer/buffer_template.h:31-37 | A new ring has no packets written and none fetched. |
| PacketRing.Buffer.Write | common/include/hp/common/buffer/buffer_template.h:39-46 | Appends the packet to what has been written, as the write step of the runs does, with both indices the counts of writes and gets modulo `size_` and every slot holding the newest packet written to it. |
| PacketRing.Buffer.GetNextPacket | common/include/hp/common/buffer/buffer_template.h:48-59 | Moves the object as the get step of the runs, and returns the packet of the number that step records. |
| PacketRing.Buffer.GetEnabledIff | common/include/hp/common/buffer/buffer_template.h:51-53 | The spin loop ends iff the get step is enabled, that is iff the outstanding packets are not a whole number of laps. |
| PacketRingSteps.SlotAccessesInBounds | common/include/hp/common/buffer/buffer_template.h:39-59 | In every interleaving of single accesses, with no condition, both slot accesses use an index below `size_`. |
| PacketRingSteps.TestIsTrueIffNoHazard | common/include/hp/common/buffer/buffer_template.h:51-53 | Whenever FIFO has held so far, the emptiness test lets the reader through wrongly iff it compares 0 with `size_`, and never keeps it from a published packet. |
| PacketRingSteps.FifoWithoutHazard | common/include/hp/common/buffer/buffer_template.h:39-59 | Every interleaving whose writes begin with at most `size_ - 2` packets outstanding and that meets no such test delivers exactly the packets whose writes it begins, in order, none before it is published. |
| PacketRingSteps.TestsAreTrueIffNoHazard | common/include/hp/common/buffer/buffer_template.h:51-53 | The condition is exact: the reader is let through only to packets that are there in precisely the runs without the hazard. |
| PacketRingSteps.FifoIffNoRashCopy | common/include/hp/common/buffer/buffer_template.h:43-54 | In every interleaving whose writes begin with room, what is delivered is at every moment a prefix of the packets written, all of them published, iff no hazard is followed by its line 54 before the next line 43. |
| PacketRingSteps.HazardBreaksFifo | common/include/hp/common/buffer/buffer_template.h:51-55 | At any size, three steps of a reader that meets the hazard deliver slot 0 once more than packets were published. |
| PacketRingSteps.HazardDeliversTwice | common/include/hp/common/buffer/buffer_template.h:43-57 | A run of a two-slot ring in which writes begin with room and the first of two packets is delivered twice. |
| PacketRingSteps.LappedReaderGoesBack | common/include/hp/common/buffer/buffer_template.h:39-59 | A run of a four-slot ring, with the writer more than a lap ahead, in which the first, sixth and third packets are delivered in that order. |
| Checksums.TwoFoldIsFold | peripheral/include/hp/peripheral/ip/icmp_header.hpp:89-90 | Two folding steps equal the repeat-until-no-carry loop of section 4.1 of RFC 1071 for every 32-bit sum. |
| Checksums.WordsAre | peripheral/include/hp/peripheral/ip/icmp_header.hpp:81-87 | The words added up are the bytes in pairs, the first of each pair the high one, an odd last byte a high one too. |
| Checksums.AcceptsIffMultiple | peripheral/include/hp/peripheral/ip/icmp_header.hpp:89-91 | A message's one's-complement sum is 0xFFFF iff its words add up to a multiple of 65535 other than 0. |
| Checksums.AcceptedIffWraps | peripheral/include/hp/peripheral/ip/icmp_header.hpp:74-92 | For every header and body the message has one's-complement sum 0xFFFF iff the accumulator wrapped around a multiple of 65535 times. |
| Checksums.ShortMessageAccepted | peripheral/include/hp/peripheral/ip/icmp_header.hpp:74-92 | With a body of at most 131068 bytes, odd lengths included, the message has one's-complement sum 0xFFFF, as section 1 of RFC 1071 requires. |
| Checksums.BoundIsTight | peripheral/include/hp/peripheral/ip/icmp_header.hpp:78-88 | A message with a body of 131069 bytes whose checksum is wrong. |
| Checksums.PermutedBodySameChecksum | peripheral/include/hp/peripheral/ip/icmp_header.hpp:81-92 | Reordering the aligned words of the body does not change the checksum. |
| Checksums.ChangedWordNoticed | peripheral/include/hp/peripheral/ip/icmp_header.hpp:78-92 | For bodies of any length, changing one word leaves the checksum alone iff the change equals, modulo 65535, the change in how often the accumulator wraps around, and what is left in the accumulator stays zero or stays non-zero. |
| Checksums.ChangedShortWordNoticed | peripheral/include/hp/peripheral/ip/icmp_header.hpp:78-92 | For bodies of at most 131068 bytes, iff the words are congruent modulo 65535 and the whole sum stays zero or stays non-zero. |
| IcmpHeaders.IcmpHeader.Decode | peripheral/include/hp/peripheral/ip/icmp_header.hpp:62-63 | Two bytes read as a big-endian number, without overflow of 16 bits. |
| IcmpHeaders.IcmpHeader.Encode | peripheral/include/hp/peripheral/ip/icmp_header.hpp:65-69 | What is encoded is decoded again; the other bytes stay. |
| IcmpHeaders.AddBody | peripheral/include/hp/peripheral/ip/icmp_header.hpp:81-87 | The loop adds the words of the body, an odd last byte as a high byte, modulo 2^32. |
| IcmpHeaders.ComputeChecksum | peripheral/include/hp/peripheral/ip/icmp_header.hpp:74-92 | Only the checksum field changes, and for a body of at most 131068 bytes header and body then sum to 0xFFFF. |
| Ipv4Headers.ExtractIpv4 | peripheral/include/hp/peripheral/ip/ipv4_header.hpp:82-93 | The stream survives iff its first byte is 0x45 to 0x4F and four times as many bytes as its low digit says are there; then exactly those, options included, are consumed. |
| Ipv4Headers.ExtractIcmp | peripheral/include/hp/peripheral/ip/icmp_header.hpp:55-56 | The stream survives iff it holds 8 more bytes, which become the header. |
| Ipv4Headers.IcmpPresentIff | peripheral/src/ping.cc:84-88 | A datagram carries an ICMP header iff its first byte is 0x40 + k for a k of 5 to 15 and 4 k + 8 bytes are there; the header then is bytes 4 k to 4 k + 8. |
| Ipv4Headers.ExtractBoth | peripheral/src/ping.cc:84-88 | Both readers succeed on exactly those datagrams, consume 4 k + 8 bytes and deliver that ICMP header. |
| Ipv4Headers.WrittenHeaderComesBack | peripheral/include/hp/peripheral/ip/ipv4_header.hpp:82-93 | An ICMP header written behind an IPv4 header of 5 to 15 words is read back byte for byte and the payload is left. |
| PingModel.OneContinuation | peripheral/src/ping.cc:14-113 | In every run exactly one timer continuation and one receive are outstanding between handlers, and it can go on; after stop the timer has none and no handler runs. |
| PingModel.StopRule | peripheral/src/ping.cc:50-66 | With a limit of at least 1, `time_out_` is the length of the trailing block of requests whose verdict saw no matching reply, and the service is stopped iff that block has reached the limit, which no earlier block had. |
| PingModel.NoLimitNeverStops | peripheral/src/ping.cc:52-59 | With a limit below 1 no run stops, and `time_out_` is never more than the number of requests judged. |
| PingModel.EachRequestJudgedOnce | peripheral/src/ping.cc:23-66 | At every moment of every run each request has exactly one verdict, except possibly the last, which may have none. |
| PingModel.MatchLeadsToVerdict | peripheral/src/ping.cc:93-112 | A matching reply before the verdict makes `handle_timeout` run without the clock, with the verdict answered, `time_out_` zero and the next request coming. |
| PingModel.RequestsAreValid | peripheral/src/ping.cc:25-42 | The k-th request of every run is, byte for byte, type 8, code 0, the identifier, k modulo 65536, the text, and a checksum its receiver accepts. |
| PingModel.OnlyCurrentReplyMatches | peripheral/src/ping.cc:90-96 | Of all datagrams that echo a request, behind any valid IPv4 header, those are matches that are replies, of type 0, carry this process's identifier, and answer request k when the number of requests sent by then is k modulo 65536. |
| PingModel.ReplyToLastRequestMatches | peripheral/src/ping.cc:84-99 | The round trip: in every run, the request sent last, with type 0 and a new checksum, behind any IPv4 header of 5 to 15 words, counts as a reply. |
| PingModel.SilentHostStops | peripheral/src/ping.cc:23-66 | If nothing is ever received, the clock alone brings the program to its stop after exactly as many requests as the limit says. |
| PingModel.PingingAgainSendsOnce | peripheral/src/ping.cc:14-21 | After a run that has stopped, pinging again sends one more request, numbered on, and no handler runs any more. |
| Pings.EncodeRequest | peripheral/src/ping.cc:25-38 | Builds the echo request of RFC 792 for an identifier and a number: type 8, code 0, both fields, the text of the body and a checksum that is accepted. |
| Pings.Ping.PingUntilDisconnect | peripheral/src/ping.cc:14-21 | Called in any state, sends a request, counts anew and has one more receive outstanding; on an object that has not pinged yet this is the state in which the runs start. |
| Pings.Ping.StartSend | peripheral/src/ping.cc:23-48 | Moves the object as the send step of the state machine. |
| Pings.Ping.HandleTimeout | peripheral/src/ping.cc:50-66 | Moves the object as the verdict step of the state machine. |
| Pings.Ping.StartReceive | peripheral/src/ping.cc:68-76 | Empties the reply buffer and has one more receive outstanding. |
| Pings.Ping.HandleReceive | peripheral/src/ping.cc:78-113 | Moves the object as the receive step of the state machine, for datagrams of any content; the replies go up by one iff type 0 and both fields fit. |
| Pings.Ping.Dispatch | peripheral/src/ping.cc:20 | Every event leads the object through exactly the step the state machine takes, so the run results hold of it. |
| PacketLayouts.PacketStructure.IsPacketSectionsCorrect | peripheral/include/hp/peripheral/abstract_message.h:206-254 | Every pointer is the last section of its kind, or stays as it was when there is none, and the length flag is set iff it was or there is a length. |
| PacketLayouts.ScansAgain | peripheral/include/hp/peripheral/abstract_message.h:206-254 | Scanning some sections and then others leaves the pointers of one scan of all of them. |
| LengthFields.CalcLenInverts | peripheral/src/message_extractor.cc:139-163 | At sizes 2 and 4 `calc_len` inverts the encoding of every length that fits, in either byte order. |
| LengthFields.CalcLenIs | peripheral/src/message_extractor.cc:139-178 | From the bytes: size 1 is a signed byte extended to 32 bits, sizes 2 and 4 are the positional sums, size 0 and sizes above 4 give 0. |
| LengthFields.ReversedBytes | peripheral/src/message_extractor.cc:147-163 | Reversing the bytes and flipping the byte order gives the same value. |
| LengthFields.SizeThreeIsShifted | peripheral/src/message_extractor.cc:154-163 | At size 3 the value is right when the least significant byte comes first and 256 times too large otherwise. |
| Parsing.CString | peripheral/src/message_extractor.cc:46 | The factory sees the command up to its first zero byte. |
| Parsing.CommandIsCutAtZero | peripheral/src/message_extractor.cc:45-53 | A command with a zero byte in it is read whole, and the factory is asked for what comes before the zero. |
| Parsing.ConsumesWhatItReads | peripheral/src/message_extractor.cc:35-90 | A pass consumes exactly the section strings it read, in layout order, one for each section; a refused command ends it right after the command. |
| Parsing.FaultIffNoHeader | peripheral/src/message_extractor.cc:47-49 | A pass that does not finish goes through a null header pointer iff the layout has no header section. |
| Parsing.FaultPossibleIff | peripheral/src/message_extractor.cc:45-53 | Some stream makes a pass go through a null header pointer iff the layout has a command section but no header section and the factory refuses some command of that length. |
| Parsing.RefusedWithoutHeader | peripheral/src/message_extractor.cc:45-49 | A layout of one command byte and a stream that faults. |
| Parsing.MoreBytesBehind | peripheral/src/message_extractor.cc:35-90 | Bytes behind what a pass has taken change neither its outcome nor what it takes. |
| Parsing.HeadersAreNotRead | peripheral/src/message_extractor.cc:40-43 | A pass treats the stream as if the layout had no header sections. |
| Frames.FrameComesBack | peripheral/src/message_extractor.cc:35-90 | Any frame of a layout with at most one section of each kind, a 2- or 4-byte length before the data, an accepted command and no header bytes is read back field by field, and what follows it is left. |
| Frames.FrameComesBackIffNoHeader | peripheral/src/message_extractor.cc:35-136 | Frames of such layouts are read back with nothing else taken iff the layout has no header bytes. |
| Frames.SafeIffEmptyHeader | peripheral/src/message_extractor.cc:35-136 | A layout whose factory refuses some command both reads its frames back and survives every stream iff it has a header section and that is empty. |
| Frames.MessageMattersIff | peripheral/src/message_extractor.cc:17-69 | For layouts with at most one section of each kind, the message that the pass before left makes no difference to any pass iff there is a length section or no data section before the command. |
| Frames.FramesComeBack | peripheral/src/message_extractor.cc:17-90 | Frames one after the other are read back by passes one after the other, each with the message of the frame before, and what follows them is left. |
| Frames.HeaderFrameIsMisread | peripheral/src/message_extractor.cc:40-55 | A frame with a two-byte header whose header is taken for the command. |
| Extractor.GetNextBytes | peripheral/src/message_extractor.cc:181-188 | A loop of single-byte reads returns the bytes and leaves the ring of one bulk read; on a destroyed ring it ends with as many bytes and the ring unchanged. |
| Extractor.MessageExtractor.constructor | peripheral/src/message_extractor.cc:7-13 | The layout is scanned before the first pass. |
| Extractor.MessageExtractor.ReadSection | peripheral/src/message_extractor.cc:38-89 | One section takes its bytes off a live ring and sets its variable only; off a destroyed ring nothing is taken. |
| Extractor.MessageExtractor.FindMessagePass | peripheral/src/message_extractor.cc:35-90 | When every read finds its bytes, the pass over the ring has the outcome of the parse of the ring's contents and leaves the rest of them; on a destroyed ring it ends all the same and takes nothing. |
| ExtractorRuns.OutcomeIsParseOfStream | peripheral/src/message_extractor.cc:35-90 | In every interleaving of writes that fit with the locked reads of a pass, a pass that is over has the outcome of the parse of the whole stream, and the ring holds the rest. |
| ExtractorRuns.ChunkingDoesNotMatter | peripheral/src/message_extractor.cc:35-90 | Two runs that bring the same stream in any chunks and order end with the same outcome and the same bytes left. |
| ExtractorRuns.FrameComesThrough | peripheral/src/message_extractor.cc:35-90 | For layouts without header bytes, when a frame and anything after it arrive in any chunks and at any moments, a pass that is over has read all fields of the frame and the ring holds what follows it. |
| ExtractorRuns.FramesComeThrough | peripheral/src/message_extractor.cc:17-90 | The same for any number of frames and passes in a row, each pass ending with its frame however much of the next ones has arrived. |
| ExtractorRuns.EnoughBytesMeansNoWaiting | peripheral/src/message_extractor.cc:35-90 | Once the stream holds a whole parse, a pass on a live ring is over or can take its next step. |
| ExtractorRuns.WaitsOnlyFor | peripheral/src/message_extractor.cc:55-78 | On a live ring a pass waits at a data section until all its bytes are there, and elsewhere only while the ring is empty. |
| ExtractorRuns.PassCanFinish | peripheral/src/message_extractor.cc:35-90 | A stream that has room in an empty live ring and holds a whole parse can be brought in a run in which the pass comes to its end. |

## Left out

- Module wiring, file access, TCP, UDP and serial transport, signals and thread groups: input and output plumbing; of the transports only the effect on the ring, a write per received chunk, is used.
- `erase_buffer`, `set_new_buffer_size`, `set_size` and a ring of size 0: they separate `size_` from the storage it indexes.
- Condition variables, timers and sleeping: a wait is a step that cannot happen yet and a timeout is one of the steps that may happen; nothing is claimed about when a step happens, and no spacing of requests is claimed.
- UnlockedCounts.GetAllWaitsIffLoadsDisagree: only writes of others come between the loads and the read, as with a single reader and no clear; each unlocked load is taken to see the value at some moment of the run, which the C++ memory model does not promise for plain variables.
- UnlockedCounts.GetAllNeverBlocks: the case of GetAllWaitsIffLoadsDisagree in which all loads see one moment.
- CircularBuffers.CircularBuffer.Read: starts where the wait has ended; with timeout 0 that means CheckFreeSpace holds.
- CircularBuffers.CircularBuffer.ReadNextByte: on a destroyed ring says nothing about the byte, which the code leaves uninitialised.
- PacketRing.Buffer.GetNextPacket: starts where the spin loop has ended; `size_` 0 is excluded, as the code then writes outside its storage.
- PingModel.NoLimitNeverStops: `time_out_` is unbounded here; the code's `int` holds it for the first 2^31 - 1 requests, and C++ does not define what its overflow after as many timeouts in a row does.
- PingModel.StopRule: `num_replies_` is unbounded here; name resolution, sending errors and the clock are not modelled, and the process identifier is a constant.
- Extractor.MessageExtractor.FindMessagePass: starts with all its bytes in a live ring, as passes that wait for others are the subject of ExtractorRuns; which bytes a pass makes up on a destroyed ring is left open, as the code leaves them uninitialised. One pass of the `for` loop; the `while` loop around it has no exit in the code, because the assignment that ends it is commented out.
- ExtractorRuns.OutcomeIsParseOfStream: one reader; destruction and clearing of the ring during a pass are not steps of it.
- CRC checking, deserialising, header search and the include masks of the length and CRC sections: commented out or unused in the code.
- The `Other` section: it reports itself as a data section and the scan then dereferences a null pointer.
- The `char*` overloads of `read` and `write`: line for line the same as the byte overloads.
- The remaining getters of the IPv4 header, address formatting and console output: easy members only.
