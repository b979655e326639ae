# Verified model of a network boot loader

The repository is a unikernel boot loader for the Pine64: it brings an Ethernet controller up, listens on
TCP port 1337, stores the byte stream a peer sends in memory, checks the header and checksum of the image it
received, and jumps to it. A build tool makes those images. This project models the parts of it that carry
logic and proves what they promise, over all inputs and all runs.

| file | part of the system |
|---|---|
| `DescriptorRing.dfy` | positions on a cyclic descriptor ring, buffer addresses, frames as runs of fragments |
| `TransmitRing.dfy`, `TransmitFifo.dfy` | the transmit ring as a state machine; its window, ownership and order |
| `TransmitHoles.dfy`, `TransmitOrder.dfy` | frames that are created and never published; what is left of the order after one |
| `TransmitOwnership.dfy` | which driver calls change a descriptor the engine owns |
| `TransmitDriver.dfy` | `createFrame`, `transmit` and the transmit half of `poll` over an array |
| `ReceiveRing.dfy`, `ReceiveDriver.dfy` | the receive ring and the receive half of `poll` |
| `Tcp.dfy`, `TcpConnection.dfy` | the TCP connection: what each operation does, and the object that does it in place |
| `TcpLaws.dfy` | what one event sends and sets, told without the functions that do it; what an option list means |
| `TcpSegments.dfy`, `TcpTimer.dfy` | over runs: where segments come from and what they acknowledge; how long a connection waits before it gives up |
| `TcpLife.dfy` | one life of a connection: the events from one opening call to the next |
| `TcpRuns.dfy`, `TcpClosing.dfy` | what every run keeps: phases, sequence numbers, retries; closing from both sides |
| `TcpDownload.dfy` | the download: acknowledged means stored, finished means complete |
| `TcpFinish.dfy`, `TcpDownloadRuns.dfy` | which connections can still finish, and in place; a run for each way a download ends |
| `TcpPadding.dfy` | what padded options do to a download |
| `Checksum.dfy`, `Ipv6Checksum.dfy` | the Internet checksum and its use in IPv6 payloads |
| `BootImage.dfy`, `BuildTool.dfy` | the loader's check of an image, and the tool that builds it |
| `BuildEntry.dfy` | where the image jumps to, and when the tool completes |
| `Boot.dfy` | the download loop and when it can end, and the chain from the build tool to an accepted image |
| `NeighborCache.dfy`, `Clock.dfy` | the neighbor cache and the uptime clock |
| `Bytes.dfy`, `Addresses.dfy`, `Wrappers.dfy` | bytes and words, addresses, optional values |

## How it is modelled

* Code that updates state in place is a class whose methods are proved to do what a function or a step of a
  state machine says; the lemmas are about those functions and about every run of those machines.
* The DMA engine is an abstract step: take the current descriptor if it is owned, clear the ownership bit,
  advance. It may step between any two visits of a poll loop; a visit, including the inner loop that gives a
  frame's descriptors back, is one step, because that loop only writes descriptors the engine does not own.
  Positions on the rings count without end and the descriptor is the position modulo 128.
* Replies are created by `received()` inside the receive half of a poll. They touch only the transmit ring, so
  they appear as calls after it.
* The engine that is restarted by `enableReceiver` fetches the descriptor it is pointed at before the driver
  goes on. One received frame never fills the whole ring.
* A received TCP segment is the memory from its header on (a function from offsets to bytes), because the
  option parser and the copy of the payload follow pointers without bounds. The receive buffer is memory
  written at offsets from its start, held as a map; an offset may be negative.
* A connection object is opened again and again, and an opening call resets little of it. What holds of one life
  is stated from the state its opening call leaves, over events that do not open it again.
* An honest peer acknowledges nothing but SYNs and FINs that were transmitted to it; the program does not check that,
  so a peer that need not be honest is the other case.
* Whether the interface has a frame to give, the uptime, and what arrives are parameters of the operations.
* Sequence numbers of the download do not wrap (the repository lists that as open); all 16- and 32-bit
  additions are still modelled with their wrap-around.

## What was found

* The base of the download is the sequence number of the segment that synchronizes the connection. After a passive
  open the stream stands at the start of the buffer exactly when the connection leaves `SynReceived` by a segment
  that carries the next number expected (`TcpDownload.ListeningDownloadIff`). When `close()` is called in
  `SynReceived`, the connection still receives and can finish, but no segment sets the base, and the stream stands
  displaced by all of its first number. After an active open it stands one place too far when the answer to the SYN
  acknowledged it; when both ends opened at once, the rule of the passive open applies
  (`TcpDownload.ConnectingDownloadIff`). `TcpDownloadRuns` has a run for each case.
* Once a wrong base is taken, nothing repairs it: a connection that can still finish can do so in place exactly when
  it took no base yet or the right one (`TcpFinish.CanFinishInPlaceIff`).
* With a peer that acknowledges what it likes every connection that is not Closed can finish. With an honest one two
  kinds cannot (`TcpFinish.CanFinishIff`): one whose SYN was never transmitted, which a segment that acknowledges
  nothing can establish (`TcpDownloadRuns.UnsentCannotFinish`); and one that answered the FIN of an empty stream, has
  no retry left, and had no frame for its own FIN (`TcpDownloadRuns.UnansweredCannotFinish`). The loader's loop can end
  exactly when its connection can finish, and runs for ever once that is Closed (`Boot.LoopCanEndIff`,
  `Boot.ClosedLoopsForever`).
* An `End` option before the last header byte moves the place the payload is copied from
  (`TcpDownload.CopiesFromHeaderEndIff`, `TcpDownload.EarlyEndMisplacesPayload`): one such segment, and the connection
  finishes with a byte the peer did not send (`TcpPadding.PaddingFinishesWrong`). The SYN the loader sends has such an
  `End` itself (`Tcp.SynOptionsAdvertise`).
* A connection that is opened actively sends its SYN from no address: the local one is only known from a segment it
  accepted (`TcpSegments.FirstSynHasNoSource`). Every other segment comes from where the peer sends to
  (`TcpSegments.SegmentsComeFrom`).
* A retry that finds no frame sends nothing and is not waited for. So giving up takes five retries but not five
  seconds: without frames it happens at once (`TcpTimer.GivesUpAsSoon`), and it takes the five seconds, however often
  the connection is polled, exactly when every retry finds a frame (`TcpTimer.FiveWaitsIff`). A Finished connection
  that is polled on counts retries too (`TcpLaws.TickWaitsForTimer`).
* A segment shorter than its own header counts as one that carries payload and is answered (`TcpLaws.EventSends`).
* Closing a half-open connection breaks the numbering of its FIN, and nothing else does (`TcpRuns.StepInPhaseIff`,
  `TcpRuns.EarlyCloseSendsZero`); it also misplaces the download (`TcpDownloadRuns.ClosingFinishesDisplaced`).
* An opening call keeps what an earlier life left. A FIN left over lets the next life finish without one from its
  peer (`TcpClosing.ReopeningClosesIff`, `TcpClosing.StaleFinishReachable`); an acknowledgment left over lets it send
  its FIN to a peer that acknowledged nothing (`TcpRuns.ReopeningAcknowledgesIff`,
  `TcpRuns.StaleAcknowledgmentReachable`).
* A frame that is created and never published is a hole. Behind one of several fragments nothing is ever sent or
  reported again (`TransmitHoles.LongHoleBlocks`). One of a single fragment is reported although it was not sent
  (`TransmitHoles.AbandonedFrameReportedIff`); then the engine waits until a later frame takes its descriptor
  (`TransmitHoles.ShortHoleWaits`), and however careful the driver is from then on, some continuation sends the
  frame submitted last first. So the order of submission survives exactly when the frame given up had several
  fragments (`TransmitOrder.OrderKeptIff`).
* A payload length of 65522 wraps the total length to zero, and creating such a frame is the only step that breaks
  the window of the transmit ring (`TransmitRing.StepKeepsIff`, `TransmitRing.EmptyFrameBreaksWindow`). The harm: its
  descriptor looks vacant while the engine owns it, so a lap later the driver takes it away from the engine, and only
  so can it come to that (`TransmitOwnership.OwnershipSafeIff`, `TransmitOwnership.OwnedTakenIff`). Such a frame as
  the first one is enough (`TransmitOwnership.EmptyFrameIsReachable`).
* A received frame that straddles the ring end is read past the receive buffers (`ReceiveRing.FrameReadIff`,
  `ReceiveRing.StraddlingFrameDelivered`). The buffers start two bytes late, so the engine writes past them exactly
  when a fragment fills the last one (`ReceiveRing.EngineStaysInsideIff`).
* A receiver suspended in the middle of a frame never receives again, and there is a run that gets there; any other
  suspended receiver resumes within two polls (`ReceiveRing.ResumesIff`, `ReceiveRing.StuckForever`,
  `ReceiveRing.ReceiverGetsStuck`).
* `validate` leaves the seed in the header, so it accepts the same memory again only if the checksum is the seed
  (`BootImage.ValidatesAgainIffSeed`).
* The entry point check of the build tool admits targets that an A32 branch cannot reach, and drops the remainder of
  a distance that is no whole number of words: the image jumps to its entry point exactly when neither is the case
  (`BuildEntry.ImageJumpsToEntryPoint`).
* An image whose length in blocks wraps to zero in 32 bits is built and then refused
  (`BuildTool.BuiltImageValidates`); in one of 2^32 bytes or more the trailing zero can overwrite a section
  (`BuildTool.BuiltImageLayout`).

## Model

| member | source | states |
|---|---|---|
| TransmitRing.RunsKeepInvariant | include/Net/Net.hpp:73-102 | over every run of driver calls, poll visits and engine steps that creates no empty frame, with or without abandoned frames, the descriptors with a size are exactly the cyclic window from transmited to transmitable, full and empty told apart by the sizes; it splits into frames with one first and one last; the engine owns nothing outside it |
| TransmitRing.StepKeepsIff | include/Net/Net.hpp:139-168 | a step keeps that window if and only if it does not create a frame whose total length wraps to zero |
| TransmitRing.EmptyFrameBreaksWindow | include/Net/Net.hpp:143-166 | such a frame has payload length 65522 and puts a vacant descriptor inside the window |
| TransmitOwnership.OwnedTakenIff | include/Net/Net.hpp:139-197 | in every run, empty frames and holes included, a driver call changes a descriptor the engine owns if and only if it creates a frame over it; short of that only the processor's writes to the frame created last change the buffer behind one |
| TransmitOwnership.RunsWithoutEmptyAreSafe | include/Net/Net.hpp:139-197 | in a run that creates no empty frame, holes or not, no driver call clears, refills or otherwise changes a descriptor the engine owns |
| TransmitOwnership.OwnershipSafeIff | include/Net/Net.hpp:143-168 | as long as every frame is published, what the engine owns stays safe over all continuations if and only if the next step creates no empty frame |
| TransmitOwnership.EmptyFrameIsTakenOver | include/Net/Net.hpp:143-168 | after an empty frame, in every state reached by publishing every frame, some continuation that again does so has a call that takes a descriptor from the engine |
| TransmitOwnership.EmptyFrameIsReachable | include/Net/Net.hpp:143-168 | a run from initialization that does so, with an empty frame as its first |
| TransmitRing.VisitsTerminate | include/Net/Net.hpp:75-102 | every visit of a reachable ring, a full one included, brings the walk closer to the end of the window or ends it |
| TransmitRing.PollsEnd | include/Net/Net.hpp:75-102 | in every run, empty frames included, a visit uses budget, moves within one lap, or ends the poll |
| TransmitFifo.FramesGoOutInOrder | include/Net/Net.hpp:73-104 | when every created frame is published before the next one and before the next poll: the wire carries a prefix of the submitted fragments with their buffer contents, and transmited is called for the first frames submitted, once each, in order, with their full length and the errors the engine set on their last fragment, after the engine returned all their descriptors |
| TransmitFifo.WalkReportsAllReturned | include/Net/Net.hpp:75-102 | a walk that ends, whether at a descriptor of the engine, at a vacant one or out of budget, leaves no frame unreported of which the engine returned every descriptor |
| TransmitFifo.EngineOwnsNext | include/Net/Net.hpp:161-179 | the engine owns its next descriptor exactly when a published frame is left to send, so it cannot start a frame before transmit publishes it |
| TransmitFifo.CreateIsExact | include/Net/Net.hpp:139-168 | createFrame leaves the ring alone or takes the next vacant descriptors, exactly as many as the length needs, their sizes summing to it, with only the first withheld from the engine and no other descriptor changed |
| TransmitFifo.LengthExactIff | include/Net/Net.hpp:143 | the reservation covers header and payload if and only if the payload is at most 65521 bytes |
| TransmitRing.FrameIsCreatedIff | include/Net/Net.hpp:140-159 | the ring changes if and only if the link is up and every descriptor the frame needs, those of the 1536-byte buffers up to header and payload (modulo 2^16), the first in any case, has size 0; up to 65521 bytes the length does not wrap |
| TransmitFifo.WritesStayAhead | include/Net/Net.hpp:150-168 | the processor never writes to the buffer of the descriptor the engine works on |
| TransmitHoles.AbandoningLeavesHole | include/Net/Net.hpp:180-193 | giving up a created frame, by a poll or by creating another, leaves a hole behind the frames submitted |
| TransmitHoles.AbandonedFrameReportedIff | include/Net/Net.hpp:75-102 | a walk that reaches a hole, whatever it reported before, has everything in front of it sent and reported; it reports the hole unsent if and only if it is one fragment |
| TransmitHoles.LongHoleBlocks | include/Net/Net.hpp:75-102 | after a frame of several fragments is given up, over every continuation the engine sends and the polls report only what was submitted before it, in order |
| TransmitHoles.ShortHoleWaits | include/Net/Net.hpp:75-102 | after a frame of one fragment is given up, only what was submitted before it is sent until a later frame takes its descriptor one lap on |
| TransmitHoles.OrderBreaks | include/Net/Net.hpp:73-104 | a run from initialization in which the engine sends the 128th frame submitted first |
| TransmitOrder.OrderBreaksAfter | include/Net/Net.hpp:73-104 | from every state reached by publishing every frame, when a frame of one fragment is given up, some continuation that again publishes every frame sends the frame submitted last right after those in front of the hole |
| TransmitOrder.OrderKeptIff | include/Net/Net.hpp:180-193 | over every such continuation the wire stays a beginning of what was submitted if and only if the frame given up had several fragments |
| DescriptorRing.AddressOfIndex | include/Net/Net.hpp:177-178 | the index computed from an address some buffers behind buffer i is the number of that buffer; for none it is i, the descriptor transmit looks for |
| TransmitFifo.ContiguousIff | include/Net/Net.hpp:15-17 | the buffers of a frame are contiguous if and only if it does not straddle the ring end |
| TransmitDriver.Transmitter.CreateFrame | include/Net/Net.hpp:139-168 | the loops over the array take the Create step; the frame returned is the address of the first descriptor's buffer, none exactly when the link is down or a descriptor needed (TransmitRing.FrameIsCreatedIff) has a size, and then nothing changes |
| TransmitDriver.Transmitter.Transmit | include/Net/Net.hpp:170-197 | the index computation hands exactly the withheld first descriptor over |
| TransmitDriver.Transmitter.PollTransmit | include/Net/Net.hpp:73-102 | the nested loops terminate under any interference of the engine, in every run, and take only visits of the machine |
| ReceiveRing.FramesComeInInOrder | include/Net/Net.hpp:105-135 | over every run, the frames delivered, flattened, are the beginning of what the engine wrote, each with its length in buffers, its first descriptor and the errors of its last fragment, and the rest still stands untouched in the ring: nothing is lost or repeated by the budget or the restarts |
| ReceiveRing.FrameReadIff | include/Net/Net.hpp:113-116 | of the frames delivered, what received reads contiguously from the address it is given is the frame if and only if the frame does not straddle the ring end |
| ReceiveRing.ReadsFromAddress | include/Net/Net.hpp:39-47 | reading on from a buffer's address meets the next buffers, and then memory outside the ring |
| ReceiveRing.ArrivalWritesInsideIff | include/Net/Net.hpp:39-47 | the next fragment is written to the buffer of its position, and leaves the receive buffers if and only if it comes within two bytes of filling the last one |
| ReceiveRing.EngineStaysInsideIff | include/Net/Net.hpp:39-47 | over everything that arrived the engine stayed inside the receive buffers if and only if it never did that |
| ReceiveRing.StraddlingWritesOutside | include/Net/Net.hpp:39-47 | a frame that straddles the ring end, its buffers filled one after the other, is written outside |
| ReceiveRing.StraddlingFrameDelivered | include/Net/Net.hpp:105-135 | a run from initialization delivers a frame that received does not read whole |
| ReceiveRing.WalkDeliversAllFinished | include/Net/Net.hpp:108-116 | a walk that ends at a descriptor of the engine has delivered every finished frame |
| ReceiveRing.VisitsTerminate | include/Net/Net.hpp:108-130 | every visit uses budget, advances within one lap, or ends the walk |
| ReceiveRing.ResumesIff | include/Net/Net.hpp:131-135 | a suspended receiver resumes in some continuation if and only if no frame has begun to arrive, and then two polls without any arrival resume it, budget and all |
| ReceiveRing.StuckForever | include/Net/Net.hpp:131-135 | once the engine is suspended with only the beginning of a frame left, no continuation of the run receives or delivers anything |
| ReceiveRing.ReceiverGetsStuck | include/Net/Net.hpp:105-135 | there is a run from initialization that reaches such a state |
| ReceiveDriver.Receiver.PollReceive | include/Net/Net.hpp:105-135 | the nested loops terminate while frames keep arriving, hand the contiguous memory from the first buffer on to received, and take only visits and one restart of the machine |
| TcpConnection.Connection.Receive | include/Net/Tcp.hpp:188-325 | the method takes the connection to the state the specification of a received segment gives, which the lemmas of TcpLaws and TcpDownload pin, and fails only when closed |
| TcpConnection.Connection.ParseOptions | include/Net/Tcp.hpp:214-258 | the option loop ends where the recursive walk ends and sets what it sets |
| TcpConnection.Connection.Transmit | include/Net/Tcp.hpp:113-186 | the segment handed to the interface is the one of the state (what it carries: TcpLaws.EventSends, TcpLaws.EventAdvertises), and the retry timer is one second ahead |
| Tcp.SynOptionsAdvertise | include/Net/Tcp.hpp:138-167 | a parser of this kind reads the local segment size, scale and selective acknowledgment from our SYN, stopping two bytes before the header ends, and the whole local window from every segment |
| TcpConnection.Connection.Poll | include/Net/Tcp.hpp:327-346 | the method does what a tick does (TcpLaws.TickWaitsForTimer): nothing before the timer, then finish, give up or resend |
| TcpConnection.Connection.Close | include/Net/Tcp.hpp:364-382 | the status changes exactly when close succeeds |
| TcpConnection.Connection.Dispatch | include/Net/Tcp.hpp:414-428 | a segment for the port is processed and the connection closed once the remote finished |
| TcpLaws.EventSends | include/Net/Tcp.hpp:113-186 | whatever the state, a segment an event adds has the local address and ports after it, the number counted, and, in every state but SynSent, the acknowledgment after it modulo 2^32; the last one has the SYN and FIN flags of that state; the event decides how many are added: an answer to a SYN where one is expected, to a FIN at exactly the number expected, to any payload; the dispatcher's own; a retry; an opening or closing call |
| TcpLaws.EventAdvertises | include/Net/Tcp.hpp:138-167 | every segment sent tells the peer the window of 32768 bytes, scaled by what a SYN told it, and every SYN the limits |
| TcpLaws.LocalAddressIsDestination | include/Net/Tcp.hpp:203-207 | the local address after an event is where the segment went to if it was accepted, and otherwise the one before |
| TcpLaws.ResetCloses | include/Net/Tcp.hpp:260-264 | a reset from the peer closes the connection unless it is in TimedClose, or listens with no FIN left over; nothing is sent, stored or counted |
| TcpLaws.EstablishingSetsNumbers | include/Net/Tcp.hpp:273-288 | the segment that completes the handshake gives the base of the download, and makes the next local number the initial one |
| TcpLaws.OptionsRoundTrip | include/Net/Tcp.hpp:214-258 | every encoded list of options of the kinds the parser knows, of any length and order, is read back: each option once, in order, up to the header's end or the first End |
| TcpLaws.OptionsAreTaken | include/Net/Tcp.hpp:214-258 | what the options of an accepted segment say is what the connection knows of its peer after it |
| TcpLaws.TickWaitsForTimer | include/Net/Tcp.hpp:327-346 | a tick before the timer changes nothing; one at it ends TimedClose, closes a connection with no retry left, or counts a retry and, given a frame, sends one segment and sets the timer 1000 ahead, for a SYN or FIN not acknowledged, and for no other connection except a Finished one |
| TcpSegments.SegmentsComeFrom | include/Net/Tcp.hpp:129-207 | over every run of a download whose peer sends to one address, each segment sent comes from it, except a SYN of our own before anything was accepted |
| TcpSegments.FirstSynHasNoSource | include/Net/Tcp.hpp:355-362 | that SYN has source address 0, whatever the peer |
| TcpSegments.AcknowledgesExactly | include/Net/Tcp.hpp:140-142 | over every run, a segment that acknowledges carries exactly the acknowledgment at the time it was sent, and every stream byte below it was stored then |
| TcpSegments.DataIsAcknowledged | include/Net/Tcp.hpp:300-323 | with a frame to give, every segment of the peer that carries payload, or its FIN at the number expected, is answered by one from the address it went to that acknowledges exactly what is stored after it |
| TcpTimer.TimerSendsApart | include/Net/Tcp.hpp:182-184 | over every run, opened again or not, a tick sends nothing within 1000 ticks of anything sent before it |
| TcpTimer.GivesUpAfterFiveRetries | include/Net/Tcp.hpp:336-344 | a life is closed by the timer only after five retries, and no sooner than 1000 ticks for each of them that found a frame |
| TcpTimer.GivesUpAsSoon | include/Net/Tcp.hpp:336-344 | and it can be as soon as that, for every pattern of frames given and not given |
| TcpTimer.FiveWaitsIff | include/Net/Tcp.hpp:336-344 | with ticks as soon as they count, giving up takes the full 5000 ticks if and only if every retry finds a frame |
| TcpDownload.DownloadComplete | include/Net/Tcp.hpp:287-323 | in every run with segments dropped, duplicated, reordered or overlapping, and close called at any time, a finished remote (so a finished connection) means the buffer holds exactly the stream, displaced by the shift, and the acknowledgment is past the stream and the FIN; the stream is in place if and only if the shift is zero or it is empty |
| TcpDownload.DownloadInPlaceIff | include/Net/Tcp.hpp:3-7 | however the connection was opened, and whenever it is closed, the finished download is in place if and only if a segment that left SynReceived with the next number expected synchronized it (or the stream is empty), and otherwise displaced by how far the base taken falls short of the first number: by one after the answer to our SYN, by all of it after close |
| TcpDownload.ListeningDownloadIff | include/Net/Tcp.hpp:287-288 | after a passive open the finished download is in place if and only if the connection left SynReceived by a segment that carried the next number expected, not by close (or the stream is empty) |
| TcpDownload.ConnectingDownloadIff | include/Net/Tcp.hpp:273-281 | after an active open it stands one place too far if the answer acknowledged our SYN; otherwise it is in place if and only if the connection left SynReceived by a segment that carried the next number expected |
| TcpFinish.CanFinishIff | include/Net/Tcp.hpp:265-346 | from every state of a run, close calls before included, some continuation finishes if and only if the connection is not Closed and, with an honest peer: an Established one has its SYN acknowledged or transmitted; one in FinSent has its FIN transmitted, or, its SYN being acknowledged or transmitted (if its own number counts it), something left that makes it send: the peer's FIN, a byte that comes again, or a retry |
| TcpFinish.CanFinish | include/Net/Tcp.hpp:287-323 | from each of these states the peer can finish it in segments of at most 1440 bytes, from any time on; the base is kept, or becomes the start of the stream if none was taken |
| TcpFinish.CanFinishInPlaceIff | include/Net/Tcp.hpp:3-7 | some continuation finishes with the stream in place if and only if one finishes and no base was taken yet, or the right one, or the stream is empty |
| TcpDownloadRuns.UnansweredCannotFinish | include/Net/Tcp.hpp:340-344 | a run of an honest peer with an empty stream after which none finishes: five resends, then the peer's FIN without a frame to give |
| TcpDownloadRuns.UnsentCannotFinish | include/Net/Tcp.hpp:287-288 | the same for every stream: no frame for the SYN, then a segment that acknowledges nothing |
| TcpDownloadRuns.ListeningFinishes | include/Net/Tcp.hpp:260-323 | for every peer and stream, runs that finish after a passive open: in place, and misplaced by a segment that overtook others |
| TcpDownloadRuns.CrossingFinishes | include/Net/Tcp.hpp:273-281 | the same for an active open whose SYN crossed the peer's |
| TcpDownloadRuns.ConnectingFinishesDisplaced | include/Net/Tcp.hpp:260-323 | a run that finishes after an active open with the stream one place too far |
| TcpDownloadRuns.ClosingFinishesDisplaced | include/Net/Tcp.hpp:376-380 | a run that listens, is closed half open, and finishes with the stream displaced by all of its first number |
| TcpDownload.AcknowledgedIsStored | include/Net/Tcp.hpp:308-320 | in every synchronized state, those after our own FIN included, each stream byte below the acknowledgment is stored, the buffer holds nothing but stream bytes at their places, no acknowledgment sent covers more, and every segment sent goes from the local port to the peer |
| TcpDownload.AcknowledgmentMovesIff | include/Net/Tcp.hpp:311-313 | the acknowledgment moves if and only if a segment that carries something starts exactly at it, and then past all it carries |
| TcpDownload.AcknowledgmentNeverDecreases | include/Net/Tcp.hpp:311-313 | whatever arrives, a synchronized connection never lowers its acknowledgment |
| TcpDownload.CopiesFromHeaderEndIff | include/Net/Tcp.hpp:214-258 | the payload is taken from the end of the header if and only if the option walk meets no End before the last header byte |
| TcpPadding.PaddingFinishesWrong | include/Net/Tcp.hpp:218-220 | for every stream that does not begin with 0, a run of an honest peer in which one padded segment makes a listening connection finish with the right base, a 0 for the first byte and every other byte in place |
| TcpDownload.EarlyEndMisplacesPayload | include/Net/Tcp.hpp:218-220 | a concrete segment padded with End bytes stores a byte the peer did not send |
| TcpRuns.RunsInPhase | include/Net/Tcp.hpp:265-298 | over every run, reopened or not, that never closes a half-open connection the local number is 0 until established, 1 until the FIN is acknowledged, 2 after; each SYN sent carries 0 and each FIN 1 |
| TcpRuns.StepInPhaseIff | include/Net/Tcp.hpp:364-382 | a step leaves the phases if and only if it closes a half-open connection: by a call in SynReceived, or by a segment that leaves it half open when the remote had finished before |
| TcpRuns.EarlyCloseSendsZero | include/Net/Tcp.hpp:376-380 | a run that listens, gets a SYN and is closed sends its FIN with number 0 |
| TcpRuns.FinishFollowsAcknowledgedSyn | include/Net/Tcp.hpp:168-171 | in one life opened without an acknowledgment left over, a FIN is sent no earlier than the host it goes to acknowledged our SYN |
| TcpRuns.AcknowledgedSynIff | include/Net/Tcp.hpp:297-298 | that holds of every life if and only if the opening call found no remote acknowledgment left over (or found the remote finished) |
| TcpRuns.ReopeningAcknowledgesIff | include/Net/Tcp.hpp:348-362 | the same for any opening call that takes effect, on the state before it |
| TcpRuns.StaleAcknowledgmentReachable | include/Net/Tcp.hpp:348-362 | a run that reopens a connection with an acknowledgment left over |
| TcpClosing.FinishedMeansBothClosed | include/Net/Tcp.hpp:289-306 | a life that starts with no FIN accepted and reaches Finished accepted its peer's FIN at exactly the number expected and had its own acknowledged by that peer; the later of the two began TimedClose, which it never left before a timer event at least 1000 ticks later |
| TcpClosing.StaleFinishIff | include/Net/Tcp.hpp:426-427 | every life that finishes closes so if and only if its opening call found no FIN accepted |
| TcpClosing.ReopeningClosesIff | include/Net/Tcp.hpp:348-362 | the same for any opening call that takes effect, on the state before it |
| TcpClosing.StaleFinishReachable | include/Net/Tcp.hpp:348-353 | a run that finishes, closes and listens again with the first peer's FIN left over |
| TcpRuns.AtMostFiveResends | include/Net/Tcp.hpp:340-344 | the timer resends at most five times in the life of a connection, less what earlier lives used up, whatever arrives |
| Checksum.IpChecksumGenerator.Input | include/Net/Ip.hpp:6-14 | one call adds the sum of the little-endian words, an odd last byte as a low byte, modulo 2^32 |
| Checksum.IpChecksumGenerator.Output | include/Net/Ip.hpp:16-20 | the fold loop terminates at the 16-bit value congruent modulo 65535 that is zero only for zero, and returns its complement |
| Checksum.PiecesEqualOnePass | include/Net/Ip.hpp:6-14 | even-length pieces and one last piece of any length sum like one pass over their concatenation |
| Checksum.FoldIsSwappedOnesComplementSum | include/Net/Ip.hpp:6-20 | byte-order independence (section 2 (B) of RFC 1071): the folded little-endian sum is the byte-swapped big-endian one's complement sum |
| Ipv6Checksum.AccumulatorDoesNotOverflow | include/Net/Ip.hpp:160-174 | addresses, pseudo-header and any payload of up to 65535 bytes stay below 2^32 |
| Ipv6Checksum.PseudoHeaderLayout | include/Net/Ip.hpp:161-174 | the pseudo-header summed is a byte-swapped 16-bit length in the low half of a 32-bit field, and the protocol |
| Ipv6Checksum.PayloadChecksum | include/Net/Ip.hpp:160-174 | three inputs and the output compute the complement of the folded total over the packet |
| Ipv6Checksum.PrepareTransmit | include/Net/Icmp.hpp:46-51 | the fields and the checksum are written into the packet, nothing else |
| Ipv6Checksum.WireHeader | include/Net/Ip.hpp:181-187 | what leaves has the header of section 3 of RFC 8200: version 6, no class or flow label, the length in network order, the protocol, hop limit 255; everything else but the checksum field is as it was given |
| Ipv6Checksum.SwappedTwice | include/Net/Ip.hpp:176-179 | the correction of the byte order on the way in undoes the one on the way out and reads the length that was in network order |
| Ipv6Checksum.ReceiverAgrees | include/Net/Net.hpp:275-280 | for all addresses and payloads, the receiver's checksum over the packet that was sent is zero |
| Ipv6Checksum.ReplacedWordAcceptedIffCongruent | include/Net/Net.hpp:275-280 | replacing one aligned word of an accepted packet is accepted if and only if old and new word are congruent modulo 65535 |
| Ipv6Checksum.SameBytesAsStandard | include/Net/Ip.hpp:161-174 | the stored bytes are those of the checksum over the pseudo-header of section 8.1 of RFC 8200 |
| BuildTool.LaidOutIffInOrder | tools/build_tool/src/main.rs:123-140 | the tool accepts a section list if and only if the placed sections follow each other in address order behind the header, and ends where the last one does |
| BuildTool.SectionsAreLaid | tools/build_tool/src/main.rs:123-140 | the loop keeps payload length and virtual address in step, modulo 2^32, and every section's bytes stand at their address in the file, zeros between them |
| BuildTool.BuiltImageLayout | tools/build_tool/src/main.rs:143-179 | the image is the shortest one of whole blocks if and only if its length rounds up within 32 bits or needs no rounding; padding, header and checksum harm no section if and only if the trailing zero does not overwrite a nonzero section byte, which it never does below 2^32 bytes |
| BuildTool.SentImageFits | tools/build_tool/src/main.rs:143-145 | an image built for the start of the file that fits one stream is of that kind |
| BuildTool.BuiltImageValidates | tools/build_tool/src/main.rs:143-179 | the loader accepts every image the tool completes, unless its length in blocks wraps to zero |
| BuildTool.Build | tools/build_tool/src/main.rs:123-179 | the loops and file writes produce exactly the specified file, none where the tool gives up; BuildTool.BuiltImageLayout, BuildEntry.ImageJumpsToEntryPoint and BuildEntry.CompletesIff say what that file is and when there is one |
| BuildTool.JumpReachesEntry | tools/build_tool/src/main.rs:150-159 | the instruction written for a word index up to the limit decodes to a branch to that word if and only if it is in range of the signed offset (the entry point itself: BuildEntry.ImageJumpsToEntryPoint) |
| BuildEntry.ImageJumpsToEntryPoint | tools/build_tool/src/main.rs:150-159 | the branch in the first word of every image built lands on the entry point, the image standing at its virtual offset, if and only if the entry point is a whole number of words behind it, and for A32 at least 8 and less than 0x2000008 bytes |
| BuildEntry.CompletesIff | tools/build_tool/src/main.rs:123-172 | the tool completes if and only if the sections are in order, the entry point is at most 4 * 0xEFFFFF + 3 bytes behind the start of the image, and the trailing zero does not fall in front of the file |
| BootImage.Validate | src64/Bootloader.cpp:12-22 | the result is the validity of the memory before the call; afterwards the seed stands in the checksum field |
| BootImage.ValidatesIff | src64/Bootloader.cpp:12-22 | an image is valid if and only if it is one or more whole 512-byte blocks, carries "eGON.BT0", and the unbounded sum of all its words and the seed is congruent to twice its checksum modulo 2^32 |
| BootImage.ChangedWordIsDetected | src64/Bootloader.cpp:12-22 | changing any one word after the header of a valid image makes it invalid |
| BootImage.ValidatesAgainIffSeed | src64/Bootloader.cpp:17-21 | a second check of the same memory succeeds if and only if the checksum is the seed |
| Boot.DownloadLoop | src64/Bootloader.cpp:60-64 | the loop stops at the first round that ends in Finished and leaves the connection as the run of its events does |
| Boot.Download | src64/Bootloader.cpp:55-64 | a fresh connection listens and is driven until Finished; then the buffer starts with the peer's stream if and only if a segment that carried the next number expected completed the handshake (or the stream is empty) |
| Boot.LoopCanEndIff | src64/Bootloader.cpp:60-64 | some further rounds of the loop end it if and only if its connection can still finish, which with a peer that need not be honest means it is not Closed |
| Boot.ClosedLoopsForever | src64/Bootloader.cpp:60-64 | once the connection is Closed, no round opens it again, whatever arrives |
| Boot.BuiltImageBoots | src64/Bootloader.cpp:57-69 | an image from the tool, sent as the stream of a finished download whose base was right, is in memory and accepted |
| NeighborCache.RunsAreCoherent | include/Net/Ip.hpp:334-370 | over every run, counter wrap included, live entries have distinct addresses and each holds the last link-layer address added for it |
| NeighborCache.LookupAgreesWithMap | include/Net/Ip.hpp:345-355 | a lookup never answers anything but the last address added since the last invalidation |
| NeighborCache.AddedIsFoundUnlessWrapped | include/Net/Ip.hpp:357-370 | an address just added is found, with that link-layer address, if and only if its counter did not just wrap |
| NeighborCache.NewAddressEvictsLeastUsed | include/Net/Ip.hpp:363-369 | a new address replaces an entry of minimal count and leaves the others alone |
| NeighborCache.CounterIsUseCount | include/Net/Ip.hpp:345-370 | over every run the counter of a live entry is one more than the number of times its address was looked up or added since an event that found no entry for it filled this one: exactly, since a counter that wraps is no longer live; so the entry evicted is the least used |
| NeighborCache.Cache.FindNeighbor | include/Net/Ip.hpp:345-355 | the loop counts the use in every answering entry and returns the last of them |
| NeighborCache.Cache.AddNeighbor | include/Net/Ip.hpp:357-370 | the entry found is updated, or the first least-used one replaced |
| Clock.UpdateExactIffWithinCycle | include/Clock.hpp:12-18 | an exact clock stays exact across an update if and only if less than one timer cycle passed |
| Clock.UptimeRefinesTrueTime | include/Clock.hpp:12-22 | over every run of updates less than a cycle apart, each scale dividing the frequency reads the true uptime, which never goes back |
| Clock.UptimeExactIffScaleDivides | include/Clock.hpp:20-22 | the scaled reading is exact at all times if and only if the scale divides the base frequency |

## Left out

- TransmitRing.RunsKeepInvariant: once a frame whose total length wraps to zero is created, it is stated that polls end (TransmitRing.PollsEnd) and who can change a descriptor the engine owns (TransmitOwnership.OwnedTakenIff), not what the window looks like.
- TransmitFifo.FramesGoOutInOrder: the processor's writes go to the descriptor buffers of the frame; for a frame that straddles the ring end the contiguous write the program makes would leave the buffers (TransmitFifo.ContiguousIff).
- ReceiveRing.FramesComeInInOrder: what the memory behind the receive buffers holds is not modelled; a straddling frame is read from there (ReceiveRing.FrameReadIff).
- TransmitDriver.Transmitter.PollTransmit: starting and stopping the transmitter does not appear; the engine may idle at any time.
- TcpDownload.DownloadComplete: it is about the first life of a connection object (the loader opens one once), a Closed connection (reset, or given up after five resends) claims nothing, and that every download finishes is not claimed, only which can (TcpFinish.CanFinishIff).
- Ipv6Checksum.PrepareTransmit: the byte swaps of the TCP and UDP header fields happen before it; the packet it gets has them in network order.
- BuildTool.Build: file reads and writes are full, section addresses do not wrap in 64 bits, and debug builds, which stop at a 32-bit overflow, are not modelled.
- Clock.UptimeRefinesTrueTime: the timer register is taken to count down from one cycle without error, and 64-bit overflow is out of reach.
- IPv4, its header checksum and its TCP paths: the loader uses IPv6 only.
- The memory behind a SACK option's local copy and the remote window: nothing reads them.
- Sending data, selective acknowledgment, congestion control, sequence wrap: open in the repository.
- transmitReset, echo replies, neighbor advertisements and UDP: each fills one frame from the one received; which solicitations feed the neighbor cache is not modelled, any sequence of additions is allowed.
- Address mapping between link layer and IP, debug output, interrupts and link status changes.
- Register layouts, bring-up of the board, caches and page tables.
- ELF parsing, the linker call and the command line of the build tool: sections and entry point are inputs.
