# Verified model of sleepy

A Dafny model of the two hard parts of this repository, with proofs.

**The reliable-UDP endpoint.** An `Endpoint` gives payloads 16-bit numbers, sends them in one datagram
or in fragments, piggybacks on each packet the newest number received and a 32-bit set of numbers before
it, reassembles fragments, and turns the sets it receives into `ACK` calls. A `Channel` on top adds a
send window, a backlog and retransmission, and writes through its endpoint from inside the `ACK` call
that the endpoint makes. Four ring buffers indexed by number modulo capacity hold the state.

**The connection pool of `sleepytcp.HostClient`.** Any number of goroutines take idle connections, dial,
wait in a queue, time out, cancel, recycle and destroy, while a cleaner closes idle connections.

## How it is built

| file | module | what it holds |
|---|---|---|
| words.dfy, bits.dfy, serial.dfy | Words, Bits, Serial | fixed-width words, single bits, comparison of wrapping numbers |
| rings.dfy | Rings | the sequence buffers as values |
| header.dfy, wireformat.dfy | Headers, WireFormat | the wire formats, and their bytes in numbers |
| reassembly.dfy | Reassembly | cutting a payload up, and what a reassembly entry holds |
| protocol.dfy | Protocol | every operation of endpoint and channel as a function on values |
| history.dfy, acknowledge.dfy | History, Acknowledge | the invariant of a reachable node, kept by every operation |
| sends.dfy, filing.dfy | Sends, Filing | what one write puts on the wire; what becomes of every datagram received, refusals included |
| network.dfy | Network | two nodes over a network that loses, duplicates and reorders; whole runs |
| noderuns.dfy | NodeRuns | runs of one node under arbitrary bytes |
| receipts.dfy | Receipts | what is recorded as received, acknowledged in headers, and acted on by the sender |
| anyorder.dfy, interleaved.dfy | AnyOrder, Interleaved | reassembly for every order of arrival, alone and among anything else |
| windowbytes.dfy | WindowBytes | which bytes the window keeps for each number |
| sliding.dfy, retransmit.dfy | Sliding, Retransmission | the send window and the retransmit loop, operation by operation |
| updates.dfy, updateruns.dfy | Updates, UpdateRuns | calls of Update and whole runs of them |
| emissions.dfy, headblocks.dfy | Emissions, HeadOfLine | what runs of Update put out, and a head that is never acknowledged |
| fragmented.dfy | FragmentedPayloads | payloads of several fragments between two channels |
| channelwitness.dfy, poolwitness.dfy | ChannelWitnesses, PoolWitnesses | concrete runs in which what is not promised fails |
| buffers.dfy, nodes.dfy | Buffers, Nodes | the objects: ring buffer, endpoint and channel as classes with loops and in-place updates, proved to compute the functions above |
| pool.dfy | Pool | the pool as a state machine over its atomic sections, and its invariant |
| poolruns.dfy | PoolRuns | what holds in every state of every run of the pool |
| poolsteps.dfy | PoolSteps | whom each step serves and what becomes of connections, order of service, absence of deadlock |
| waiting.dfy, hostclient.dfy | WaitingCallers, HostClients | the objects: waiting caller, two-stage queue, client, proved against the functions the state machine uses |

The classes and the theorems meet at the specification functions: a method of `Nodes` ensures that the new
state is the function of `Protocol` of the same name applied to the old one, and the theorems are about runs
of those functions; the sections of `HostClients` and the steps of `Pool` share `Acquire`, `DropClosed`,
`PopWaiting`, `Deliver` and `Withdraw`.

Wire numbers are counters modulo 65536. A node carries a history of its calls (`Log`), and a channel the
unbounded counter behind `oldestUnacked`; nothing a node does depends on them. Runs are of any length, so
all statements hold past the wrap, except where one says 65536 writes.

Assumptions about the configuration (`Protocol.Config.Valid`), which the source leaves to its user: capacities
are powers of two from 2 to 16384, FragmentSize is positive, and MaxPacketSize is at most FragmentSize times
the smaller of MaxFragments and 256. Both peers use the same configuration. `Rings.HalfCapRefusesFirstInsert`
shows why the next power of two is out.

## Where code and comments differ

- channel.go:158-162: the comment says that, when nothing newer is held, the oldest number becomes the last
  one sent; the code sets it RecvPacketBufferSize ahead, past numbers not written yet.
  `Retransmission.OvershootsIff` says exactly when; a payload written meanwhile is accepted and never sent
  (`Emissions.PassedOverIsNeverSent`, reached by `ChannelWitnesses.PassedOverRun`).
- buffer_recv.go:12-24 is described as the last 32 numbers received (endpoint.go:74-75). That is exact while
  numbers are below the capacity (`Rings.FirstLapAcksExact`); later, slots are taken modulo the capacity but
  cleared modulo the capacity plus one (buffer.go:21), and numbers get lost: `Rings.LiveEntryLostIff` says
  exactly when, `Rings.LaterLapsLoseEntries` gives numbers. Numbers are never invented.
- packet.go:91-92 calls the flag for a one-byte acknowledged number the fifth bit; it is bit 5 counted from
  zero, value 32.
- sleepytcp/client_host.go:484-490: the flag that says a cleaner runs is reset after the mutex is given up.
  `PoolRuns.UncleanedIff` says exactly when a client is left with connections and no cleaner,
  `PoolWitnesses.UncleanedRun` shows it.

## Model

| member | source | states |
|---|---|---|
| Serial.SeqTotal | utils.go:7-17 | the comparison is total and antisymmetric on all pairs, and SeqLTE is its exact complement |
| Serial.SeqFollowsCounters | utils.go:7-17 | it agrees with the order of the unbounded counters whenever they are less than 32768 apart |
| Serial.SeqHalfWay | utils.go:15-17 | at distance 32768 the order of the wrapped values decides instead |
| Rings.ClearRangeIsCyclic | buffer.go:20-30 | RemoveRange clears exactly the slots of the cyclic interval from start to end, residues taken modulo cap + 1, and leaves the rest |
| Rings.InsertNext | buffer_sent.go:12-31 | inserting the next number in turn is never refused and touches its own slot only |
| Rings.InsertAgain | buffer_packet.go:16-35 | inserting the newest number again, as each further fragment does, is never refused and touches its own slot only |
| Rings.SequentialStep | buffer_sent.go:12-31 | after n + 1 numbers in turn every slot holds the last number with its residue, past 65536 too |
| Rings.SequentialFind | buffer_sent.go:33-43 | after n numbers in turn, found exactly are the last min(n, cap) |
| Rings.HalfCapRefusesFirstInsert | buffer_sent.go:12-17 | with capacity 32768 the first insert is refused |
| Rings.SlotsHoldLastInserted | buffer_fragment.go:12-47 | after any inserts and removals a non-empty slot holds a number of its residue, the one accepted there last |
| Rings.InsertedInWindow | buffer_recv.go:26-45 | an accepted number lies among the cap numbers below latest, and latest moves only forward |
| Rings.StaleIff | buffer_recv.go:55-57 | a number is refused iff it is not current: iff, going up at most half the circle, it is not at or above latest - cap; at exactly half the limit's own value decides |
| Rings.CurrentFollowsCounters | buffer_recv.go:55-57 | for counters less than 32768 from the limit, number m is current iff m >= n - cap, n being the counter behind latest |
| Rings.InsertIs | buffer_sent.go:12-31 | for any number, in or out of order: where latest goes, and that afterwards found exactly are that number and those found before that neither share its slot nor, when latest moves, lie in the cleared range |
| Rings.RemoveIs | buffer_packet.go:37-39 | afterwards found exactly are those found before in other slots |
| Rings.NextACKIs | buffer_recv.go:12-24 | latest - 1 is named, and bit i of the 32 is set iff the number i before it is recorded, in any lap |
| Rings.WindowSlotsDistinct | buffer_packet.go:12-47 | two numbers of one window never share a slot |
| Rings.AckBitsExact | buffer_recv.go:12-24 | bit i of the set is set iff number newest - i is recorded, with the 16-bit wrap |
| Rings.FirstLapIsExact | buffer_recv.go:26-45 | for numbers below cap in any order, with repetitions, the buffer is exactly the set received |
| Rings.FirstLapAcksExact | buffer_recv.go:12-45 | and NextACK reports exactly those received among the newest 32 |
| Rings.LiveEntryLostIff | buffer_recv.go:33-43 | an insert loses a recorded number still inside the window iff it moves latest and the number's slot lies in the range cleared modulo cap + 1 |
| Rings.InsertLosesIff | buffer_fragment.go:21-39 | an insert loses another recorded number iff it takes its slot or clears it, inside the window or not |
| Rings.NextInTurnLosesNothing | buffer_recv.go:33-43 | so an insert without a gap loses nothing |
| Rings.LaterLapsLoseEntries | buffer_recv.go:33-43 | with capacity 4, receiving 4 and then 6 forgets 4 |
| Headers.HeaderRoundTrip | packet.go:74-195 | decoding the encoding of any header followed by any bytes gives that header and those bytes |
| WireFormat.EncodeLayout | packet.go:74-129 | every byte of an encoded header in numbers: the flag byte as a sum of 2, 4, 8, 16 and 32, the number, the acknowledged number in one byte or two, the bytes of the set below 255 |
| WireFormat.DecodeIff | packet.go:131-195 | which bytes decode, and how many of them a header takes, also for bytes no encoder sends |
| WireFormat.DecodeFields | packet.go:131-195 | and to what, position by position |
| WireFormat.FragmentLayout | packet.go:246-252 | the five bytes of a fragment header, the first of them 1 |
| WireFormat.FragmentDecodeIff | packet.go:254-269 | any five bytes decode, position by position |
| WireFormat.FragmentBit | endpoint.go:162-166 | the formats are told apart by the lowest bit of the first byte |
| Headers.EncodeSize | packet.go:74-129 | an encoding takes 4 to 9 bytes and never has the fragment flag |
| Headers.DecodeLeavesSuffix | packet.go:131-195 | decoding any bytes, accepted or not, leaves a suffix of them and consumes at most 9 |
| Headers.EncodingIsShortest | packet.go:74-195 | no accepted bytes that decode to a header spend fewer on it than its encoding |
| Headers.AppendHeaderIs | packet.go:74-129 | appending to a buffer puts the encoding behind what is there |
| Headers.FragmentRoundTrip | packet.go:246-269 | fragment headers round-trip, take 5 bytes and have the fragment flag |
| Reassembly.MarkMarks | packet.go:209-216 | marking an id sets exactly its bit in the four words |
| Reassembly.FileAssembles | endpoint.go:239-263 | storing a fragment keeps: recv is the number of ids marked, each marked id's region holds its fragment's bytes, and the header and size are those of the fragments that carry them |
| Filing.OpensIff | endpoint.go:172-203 | the headers of a fragment are accepted iff there are five bytes, the id is at most the last one, the fragments are at most MaxFragments, and in the first one a packet header decodes and carries the same number; else the error names the first check that failed |
| Filing.OpenedIs | endpoint.go:172-203 | and what then is header, packet header and data |
| Filing.TurnedAway | endpoint.go:172-238 | a fragment whose headers are refused, whose number is too old, or whose entry has another total or that fragment already, leaves the node as it was, with the error for it |
| Filing.FiledOtherwise | endpoint.go:207-279 | every other fragment is filed; the last to come has the bytes from header to packet end received as a packet, and the entry goes whatever comes of that |
| Filing.FiledBytes | endpoint.go:239-258 | where each byte of the buffer comes from after filing, for any header, id and data |
| Filing.FiledFields | endpoint.go:239-263 | one mark and one count more, header size from the first fragment, packet size from the last |
| Filing.OpenedEntry | endpoint.go:208-226 | a new entry has nothing marked and room for nine bytes and all its fragments |
| Filing.PacketRead | endpoint.go:281-303 | a datagram with one whole packet is refused, changing nothing, iff its header does not decode or its number is not current; else it is processed, recorded with time and size |
| Sends.DatagramsAre | endpoint.go:93-155 | up to FragmentAbove bytes one datagram, else as few fragments as hold the payload: the bytes of each |
| Sends.WrittenSizeIs | endpoint.go:54-156 | too large a payload does nothing and returns 0; else what is returned is the total length of the datagrams transmitted: payload, one packet header, and five bytes for each fragment |
| Sends.WriteIs | endpoint.go:54-91 | the write recorded: next number in turn, newest number received, bit i for the number i before it, time and size in the sent buffer |
| Sends.HeldUnsent | channel.go:115-123 | a channel then holds the last of the datagrams, not sent yet, and every other packet as before |
| Reassembly.CompletePayload | endpoint.go:264-265 | when recv equals total, the slice handed on is the encoded header followed by the payload |
| AnyOrder.NeverEarlier | endpoint.go:169-279 | while a fragment is missing nothing is processed, whatever order and repetitions the others came in |
| AnyOrder.LastPieceCompletes | endpoint.go:169-315 | when the last missing fragment arrives the payload is processed once, byte for byte, unless the receive buffer finds its number stale; its entry is given up |
| AnyOrder.FragmentsProcessedIff | endpoint.go:207-303 | with no entry open for its number, whether it was processed before or not, receiving all fragments of a payload processes it iff its number is at or above latest - cap, in this sense, for both the reassembly and the receive buffer |
| Interleaved.EvictedIff | endpoint.go:207-276 | any event, local or received, other than a fragment with its number leaves a reassembly entry unchanged or evicts it, and evicts it iff it is an accepted fragment that opens another number's entry in the same slot or with the slot in the range cleared |
| Interleaved.NeverEarlierAmongOthers | endpoint.go:169-279 | the same as NeverEarlier with any other packets, fragments and local operations in between, also those that evict the entry or make the number stale |
| Interleaved.LastPieceCompletesAmongOthers | endpoint.go:169-315 | and for the last missing fragment: with nothing in between that evicts the entry, and the number in time for the first fragment, the payload is processed once, byte for byte, unless stale for the receive buffer by then |
| Acknowledge.AckSetTransport | buffer_recv.go:12-24 | from receive buffer through NextACK, encoding, decoding and the shifting loop, the numbers visited are exactly those recorded among the newest 32 |
| Acknowledge.VisitedAre | endpoint.go:317-323 | the loop visits number ack - i iff bit i is set |
| Acknowledge.LoopVisits | endpoint.go:317-334 | the loop with its re-entrant calls is one ACK step for each number visited, in order |
| History.AssignKeeps | endpoint.go:54-91 | assigning number and header keeps the record invariant: sent buffer exact, headers acknowledging only packets processed |
| History.NextHeaderOk | endpoint.go:74-91 | a header acknowledges only packets that were processed |
| History.WritePacketKeeps | endpoint.go:54-156 | WritePacket keeps the invariant of a reachable node, window mirror included, and records exactly the accepted payload |
| Acknowledge.MarkKeeps | endpoint.go:325-334 | marking a number acknowledged is new for that write, and breaks the window mirror in that one slot only |
| Acknowledge.ChannelACKKeeps | channel.go:129-174 | the ACK call restores the mirror, through its re-entrant writes |
| Acknowledge.AckOneKeeps | endpoint.go:317-343 | one turn of processACKs keeps the invariant and makes one ACK call iff the number is held and not acknowledged |
| Acknowledge.ReadPacketKeeps | endpoint.go:158-343 | any bytes from anywhere keep the invariant, and history is only added to |
| Acknowledge.RefusedChangesNothing | endpoint.go:158-315 | a datagram refused at any stage, reassembled ones included, changes nothing but the reassembly buffer |
| Acknowledge.ProcessedIff | endpoint.go:281-303 | at-most-once processing does not hold: in any reachable state, whatever was processed before, a packet whose header decodes is processed iff its number is at or above latest - cap on the half circle from there |
| Acknowledge.DuplicatesAreProcessed | endpoint.go:281-303 | so every packet just accepted is processed again when it is received again at once |
| Network.DatagramArrives | endpoint.go:158-343 | any datagram a peer ever sent, arriving at any time, is processed only as what that peer wrote, and acknowledges only what was processed |
| Network.AckSoundness | endpoint.go:54-343 | in every run over a network that loses, duplicates and reorders, each ACK call at one side was preceded by Process with that number at the other; for up to 65536 writes with byte for byte the payload written, compact or fragmented |
| Network.DeliveriesGenuine | endpoint.go:158-315 | in every run, what one side processes was written by the other: the number always, for up to 65536 writes the bytes too |
| NodeRuns.AckAtMostOnce | endpoint.go:317-334 | in every run of a node, whatever bytes arrive, forged ones included, each write is acknowledged at most once, while among the last cap sent, and a write in the sent buffer is marked acknowledged iff its call was made |
| NodeRuns.SentHistoryExact | endpoint.go:55-69 | in every run of a node, whatever arrives, after n writes the sent buffer holds exactly the last min(n, cap), for any n, and the next insert is not refused |
| NodeRuns.WindowMirrored | channel.go:115-136 | in every run of a channel's node, whatever arrives, the window's latest, the sent buffer's latest and the endpoint's number agree, and a number is in the window iff it is in the sent buffer and not acknowledged |
| Receipts.ReceivedExact | endpoint.go:288-299 | in every run of a node, whatever arrives, the receive buffer is what inserting the numbers of all payloads processed, in order, makes of an empty one |
| Receipts.AcknowledgesProcessed | buffer_recv.go:12-45 | so in every run, while the numbers processed are below the capacity, the next header acknowledges exactly those processed among the newest 32, in whatever order they came |
| Receipts.NamedAreAcked | endpoint.go:317-334 | every write still in the sent buffer that the header of an accepted packet names has its ACK call once the packet is read, unless writes made meanwhile push it out |
| Receipts.OnlyNamedAreAcked | endpoint.go:317-334 | and no number the header does not name gets one |
| WindowBytes.WindowBytesExact | channel.go:115-123 | in every run of a node, whatever arrives, what a window holds under a number is the datagram transmitted last for the payload most recently given that number |
| WindowBytes.RetainedIsAllIff | channel.go:115-123 | that is all that was transmitted for the payload iff it went out as one datagram; for a payload of at most FragmentAbove it is its header followed by its bytes |
| Sliding.WindowMirrorsSent | channel.go:115-136 | the same for any node that satisfies the invariant |
| Sliding.NothingUnackedLost | channel.go:115-136 | of the last S numbers written the window holds exactly those without an ACK call |
| Sliding.SubmitSoundIff | channel.go:65-75 | one turn of the write loop keeps the window invariant iff the payload is at most MaxPacketSize |
| Sliding.AdvanceSound | channel.go:142-173 | moving oldest on and sending backlog keeps the window invariant |
| Sliding.ReadPacketSound | endpoint.go:158-343 | any bytes received keep the window invariant |
| Sliding.KeepaliveSoundIff | channel.go:104-106 | a keepalive taken alone keeps the window invariant iff it is not sent into a full window |
| Retransmission.LoopTurns | channel.go:84-86 | the loop condition on wire numbers admits exactly the R + 1 numbers from oldest on, across the wrap |
| Retransmission.RetransmitExact | channel.go:81-102 | the loop sends exactly the held packets that are due, once each and in order; afterwards all held ones it passed are marked written with age below 0.1 s, no others are touched, and lastSent is the time of the last sending |
| Retransmission.SentInOrder | channel.go:81-102 | of the R + 1 numbers from oldest on exactly those held, and not sent within the last 0.1 s, are put out, by position, in order and once; they are marked sent now and nothing else changes |
| Retransmission.HeadIsSent | channel.go:84-102 | while anything from oldest on is written, the oldest packet is held and has been sent within the last 0.1 s |
| Retransmission.OvershootsIff | channel.go:144-162 | oldest passes the next number to be written iff none of the R - 1 numbers after it is held and the window is not full |
| Retransmission.BelowOldestNotSent | channel.go:84-102 | every held packet with a counter below oldest, however far, is not touched by the loop |
| Updates.SendingSound | channel.go:81-106 | the retransmit loop followed by the keepalive keeps the window invariant outright as long as nothing held was sent later than lastSent or than now |
| Updates.KeepaliveOnlyWhenIdle | channel.go:84-106 | a keepalive is written only when nothing from oldest on is left to acknowledge |
| Updates.ReadsInTurn | channel.go:49-60 | packets are read in order up to and including the first refused, each by the node the one before left |
| Updates.AnswerIs | channel.go:46-109 | a call that was refused a packet does nothing after reading; any other takes the payloads, retransmits, and then considers a keepalive |
| Updates.UpdateSound | channel.go:46-109 | a call of Update keeps the window invariant, whatever arrives, for payloads of at most MaxPacketSize and a clock that does not go back |
| UpdateRuns.SlidingWindowSafe | channel.go:46-174 | in every run of Update calls with a clock that does not go back, R <= S and payloads of at most MaxPacketSize, whatever arrives: the distance from oldest is in (-R, R]; a backlog means it is R; no number from oldest on leaves the window before its ACK call; what was written followed by the backlog is what was taken, in order, each once |
| UpdateRuns.HeadOfWindow | channel.go:84-106 | in every such run, after each call that accepted its input, while anything from oldest on is written the oldest is held and was sent less than 0.1 s ago, or is the last write and a keepalive that this very call wrote because there was nothing else |
| UpdateRuns.KeepaliveWrites | channel.go:104-106 | 0.1 s after the last sending one packet with no bytes is written; before, nothing happens at all |
| UpdateRuns.KeepalivesCarryNothing | channel.go:104-106 | in every such run every write counted as a keepalive has the empty payload |
| Emissions.SendsFromOldestOn | channel.go:84-102 | in every such run, each datagram a call adds to the out queue is the one kept for some payload from oldest on |
| Emissions.PassedOverIsNeverSent | channel.go:84-162 | in every such run, a packet held and unsent when oldest has passed it is in every later state still held and unsent, or acknowledged, or pushed out by S later writes; and no datagram put out in between is its own, as long as its number has not been given to a later write |
| HeadOfLine.HeadBlocks | channel.go:129-174 | in every such run, as long as the packet at oldest is not acknowledged oldest stays there, at most R payloads from it on are ever written, and everything taken after them stays in the backlog in order |
| HeadOfLine.PassesOnlyAcked | channel.go:138-162 | in every such run oldest never moves past a packet written before that has not been acknowledged |
| HeadOfLine.AdvanceMoves | channel.go:142-173 | oldest moves to the first number held among the R - 1 after it, or by R if none is, and as many payloads of the backlog are written in order |
| HeadOfLine.NothingHandedOverIsLost | channel.go:62-79 | in every such run all payloads given to calls that accepted what they read are written, keepalives aside, or in the backlog, each once and in order |
| FragmentedPayloads.SeveralFragmentsNeverArrive | channel.go:115-123 | between two channels, in every run over a network that loses, duplicates and reorders, up to 65536 writes: a payload of two or more fragments is never processed by the peer and never acknowledged, since only its last fragment is ever put out |
| ChannelWitnesses.PassedOverRun | channel.go:142-162 | for every configuration, a run of two calls reaches such a packet |
| ChannelWitnesses.ClockBackRun | channel.go:92-106 | with R = 2 and a clock that goes back, three calls write a keepalive into the full window |
| Buffers.ResetSlots | memset.go:10-18 | slots of the range become empty markers, others stay |
| Buffers.RingBuffer.constructor | buffer.go:8-12 | a new buffer is empty, latest 0 |
| Buffers.RingBuffer.Reset | buffer.go:14-18 | latest becomes 0 and every slot empty |
| Buffers.RingBuffer.RemoveRange | buffer.go:20-30 | computes ClearRange in place |
| Buffers.RingBuffer.IsOutdated | buffer_recv.go:55-57 | true iff the number is not current, as in Rings.StaleIff |
| Buffers.RingBuffer.Insert | buffer_recv.go:26-45 | refuses exactly numbers that are not current, and otherwise computes Ring.Insert |
| Buffers.RingBuffer.Remove | buffer_packet.go:37-39 | computes Ring.Remove |
| Buffers.RingBuffer.Find | buffer_fragment.go:41-47 | finds exactly the numbers recorded |
| Buffers.RingBuffer.NextACK | buffer_recv.go:12-24 | the loop with its shifting mask computes the newest number and the set whose bits AckBitsExact describes |
| Nodes.Endpoint.constructor | endpoint.go:37-52 | a fresh, valid endpoint |
| Nodes.Endpoint.Update | endpoint.go:345-348 | sets the time and nothing else |
| Nodes.Endpoint.WritePacket | endpoint.go:54-156 | computes Protocol.WritePacket, keeps the node invariant, returns the bytes transmitted |
| Nodes.Endpoint.SendCompact | endpoint.go:96-108 | one datagram, header then payload, is transmitted |
| Nodes.Endpoint.SendLoop | endpoint.go:110-155 | the fragment loop transmits exactly the fragments of the payload in order |
| Nodes.Endpoint.ReadPacket | endpoint.go:158-167 | computes Protocol.ReadPacket with its outcome and keeps the node invariant |
| Nodes.Endpoint.RecvFragmented | endpoint.go:169-279 | computes Protocol.RecvFragmented, described from the bytes on in Filing |
| Nodes.Endpoint.StoreFragment | endpoint.go:239-263 | marks and copies in place as Protocol.StoreFragment does |
| Nodes.Endpoint.Deliver | endpoint.go:263-278 | a complete packet is received as a compact one and its entry removed; the slice handed on may run into the spare capacity of the buffer, past which the source panics |
| Nodes.Endpoint.RecvCompact | endpoint.go:281-315 | computes Protocol.RecvCompact |
| Nodes.Endpoint.ProcessACKs | endpoint.go:317-343 | the loop over the set computes Protocol.ProcessACKs though each turn may write packets |
| Nodes.Endpoint.AckOne | endpoint.go:323-334 | sets acked and calls ACK for a number held and not acknowledged |
| Nodes.Channel.constructor | channel.go:25-36 | a fresh node whose endpoint dispatches to the channel |
| Nodes.Channel.Update | channel.go:46-109 | computes Protocol.Update: reading stops at the first error, then writing, retransmitting, keepalive; the unread input stays |
| Nodes.Channel.ReadLoop | channel.go:49-60 | consumes packets up to and including the first refused |
| Nodes.Channel.WriteLoop | channel.go:62-79 | writes or queues everything waiting, in order |
| Nodes.Channel.RetransmitLoop | channel.go:84-102 | computes Protocol.Retransmit |
| Nodes.Channel.KeepAlive | channel.go:104-106 | computes Protocol.Keepalive: an empty packet after 0.1 s of silence (UpdateRuns.KeepaliveWrites) |
| Nodes.Channel.Transmit | channel.go:115-123 | stores a copy of the datagram in the window under its number |
| Nodes.Channel.ACK | channel.go:129-174 | computes Protocol.ChannelACK |
| Nodes.Channel.Scan | channel.go:144-162 | finds the next held number up to R ahead, or falls back to R ahead |
| Nodes.Channel.Flush | channel.go:164-173 | writes up to diff queued payloads in order |
| Pool.DropClosedIs | sleepytcp/client_wait.go:115-124 | clearFront drops exactly the longest prefix of callers no longer waiting |
| Pool.MoveKeeps | sleepytcp/client_host.go:172-390 | a goroutine's move that shifts what it holds to or from the idle connections and count keeps the pool invariant |
| Pool.EnqueueKeeps | sleepytcp/client_host.go:160-170 | queueing a caller keeps it: a caller enters the queue once |
| Pool.TakeKeeps | sleepytcp/client_host.go:303-314 | taking a caller out for a recycle keeps it: the caller is owed one delivery instead of being queued |
| Pool.DialKeeps | sleepytcp/client_host.go:345-379 | handing a unit of count to a dial for the first waiting caller keeps it |
| Pool.DeliverKeeps | sleepytcp/client_wait.go:23-37 | tryDeliver keeps it whether or not the caller has gone meanwhile |
| Pool.CancelKeeps | sleepytcp/client_wait.go:39-55 | cancel keeps it at any moment, also between waiting() and tryDeliver |
| Pool.NextKeeps | sleepytcp/client_host.go:102-498 | every step of every goroutine, cleaner included, keeps the pool invariant |
| PoolRuns.RunKeeps | sleepytcp/client_host.go:102-498 | the invariant holds in every state of every run, for any number of goroutines and any interleaving |
| PoolRuns.PoolConservation | sleepytcp/client_host.go:172-390 | in every state count is idle connections + connections in hands + delivered and not taken + dials in flight + picked and not discounted, and is at most the limit |
| PoolRuns.ConnectionsInOnePlace | sleepytcp/client_host.go:172-390 | in every state a live connection is at one idle slot or with one goroutine, never both or twice, and a closed one is nowhere |
| PoolRuns.NoLostWaiter | sleepytcp/client_host.go:303-379 | in every state a queued caller whose ready is open is in the queue exactly once or is owed exactly one delivery, never both; ready is closed at most once, iff there is an answer |
| PoolRuns.OwedIsDial | sleepytcp/client_host.go:322-379 | outside the second half of a recycle that delivery is a dial made for the caller |
| PoolRuns.QueuedHaveNoConnection | sleepytcp/client_host.go:303-343 | in every state no caller in the queue has a connection: it gets one only after it has left |
| PoolRuns.NothingLeaks | sleepytcp/client_host.go:172-390 | when every caller, dial and recycle has ended and the cleaner is asleep, about to end or ended, count is the number of idle connections, which are exactly the open ones |
| PoolRuns.RecycleServesFirst | sleepytcp/client_host.go:285-319 | a recycled connection is offered to the first caller in queue order found waiting, the mutex being kept, and becomes the last idle one only when none waits or none can |
| PoolSteps.DiscountServesFirst | sleepytcp/client_host.go:345-390 | a unit of count given up goes to a dial for the first caller in queue order found waiting, those ahead leaving the queue with it; only when none waits, or none can, does count drop by one |
| PoolSteps.EnqueueJoins | sleepytcp/client_host.go:160-170 | a caller queues behind all others, and those in front that wait no longer leave |
| PoolSteps.FirstComeFirstServed | sleepytcp/client_host.go:160-379 | in every state of every run the queue is what is left of all who ever queued, in that order; and in every step those who leave stand at its front and had stopped waiting, but for the last, who is owed an answer |
| PoolSteps.AcquireIs | sleepytcp/client_host.go:182-245 | the connection idle shortest is taken; with none idle a unit of count and perhaps a cleaner, within the limit; else the caller must wait |
| PoolSteps.FinishIs | sleepytcp/client_host.go:102-158 | a request that succeeded recycles its connection, one that failed destroys it |
| PoolSteps.DialIs | sleepytcp/client_host.go:247-283 | a dial yields one new connection, or its unit of count is given up, after the caller it was made for has been told |
| PoolSteps.WaitEnds | sleepytcp/client_host.go:207-244 | a closed ready yields its connection or error; the timer and a missing wait timeout yield none |
| PoolSteps.CancelIs | sleepytcp/client_wait.go:39-55 | an error is left, ready is closed once, and a connection that had come is recycled |
| PoolSteps.OfferIs | sleepytcp/client_host.go:308-319 | the offered caller gets the connection unless it has an answer; then it becomes the last idle one |
| PoolSteps.HandIs | sleepytcp/client_host.go:335-343 | likewise after a dial, but then the connection is recycled |
| PoolSteps.FailIs | sleepytcp/client_host.go:322-333 | after a failed dial the caller gets the error, and the unit of count is given up |
| PoolSteps.CleanerPicks | sleepytcp/client_host.go:437-481 | the cleaner takes the connections idle longest and destroys them in that order |
| PoolSteps.CloseIs | sleepytcp/client_host.go:381-390 | a connection is closed after its unit of count was given up |
| PoolSteps.CleanerEnds | sleepytcp/client_host.go:483-490 | the cleaner ends having seen count zero, resetting the flag |
| PoolSteps.NeverStuck | sleepytcp/client_host.go:102-498 | in every state of every run every goroutine can go on, or waits for the mutex, whose holder can go on and gives it back: no deadlock |
| PoolRuns.ReadyStaysClosed | sleepytcp/client_wait.go:12-37 | no step opens a closed ready again |
| PoolRuns.StarvesIff | sleepytcp/client_host.go:207-319 | a step leaves a caller waiting beside an idle connection for the first time iff it queues a caller while a connection is idle, or a recycle loses its caller while others wait |
| PoolRuns.StarvationInRuns | sleepytcp/client_host.go:207-319 | the same for every step of every run |
| PoolWitnesses.StarvedRun | sleepytcp/client_host.go:207-244 | a run of two callers in which a caller queues itself beside an idle connection |
| PoolWitnesses.LostOfferRun | sleepytcp/client_host.go:308-319 | a run in which a recycle's caller cancels before tryDeliver and leaves a second caller waiting beside the idle connection |
| PoolRuns.OneCleaner | sleepytcp/client_host.go:191-197 | in every state the flag is set iff exactly one cleaner exists, and there are never two |
| PoolRuns.UncleanedIff | sleepytcp/client_host.go:484-490 | a step leaves count > 0 without the flag iff it is the cleaner's reset after count has grown again |
| PoolWitnesses.UncleanedRun | sleepytcp/client_host.go:191-197 | a run that ends with count 1, the flag reset and no cleaner |
| WaitingCallers.WaitingCaller.TryDeliver | sleepytcp/client_wait.go:23-37 | succeeds iff there is no answer yet; then stores it and closes ready, which is never closed twice |
| WaitingCallers.WaitingCaller.Cancel | sleepytcp/client_wait.go:39-51 | closes ready if there is no answer, takes back a delivered connection, records the error |
| WaitingCallers.Append | sleepytcp/client_wait.go:79-81 | append in place or into a larger copy |
| WaitingCallers.WaitingCallerQueue.Len | sleepytcp/client_wait.go:74-76 | the number of callers in the queue |
| WaitingCallers.WaitingCallerQueue.PeekFront | sleepytcp/client_wait.go:103-111 | the first caller, nil for the empty queue |
| WaitingCallers.WaitingCallerQueue.PushBack | sleepytcp/client_wait.go:79-81 | the queue is the old one with the caller behind |
| WaitingCallers.WaitingCallerQueue.PopFront | sleepytcp/client_wait.go:84-100 | takes the first caller, swapping the stages and reusing the old array when the first runs out; every slot not in the queue is nil |
| WaitingCallers.WaitingCallerQueue.ClearFront | sleepytcp/client_wait.go:113-124 | terminates, drops exactly the longest prefix no longer waiting, and reports whether it dropped any |
| WaitingCallers.WaitingCallerQueue.PopUntilWaiting | sleepytcp/client_host.go:308-315 | pops up to and including the first caller found waiting |
| HostClients.HostClient.Acquire | sleepytcp/client_host.go:182-207 | the idle connection used last, else a unit of count and perhaps a cleaner, else nothing |
| HostClients.HostClient.QueueWaitingCaller | sleepytcp/client_host.go:160-170 | the queue without its front callers that have gone, and the caller behind |
| HostClients.HostClient.OfferOrKeep | sleepytcp/client_host.go:288-319 | the first caller found waiting gets the connection unless it cancels meanwhile; in all other cases the connection becomes idle; no other caller is touched |
| HostClients.HostClient.TryRecycle | sleepytcp/client_host.go:285-320 | the same after stamping the connection, and idle connections stay in the order of their last use |
| HostClients.HostClient.DecrementCountOrTryDial | sleepytcp/client_host.go:345-379 | the unit of count goes to a dial for the first caller found waiting, else count drops by one |
| HostClients.HostClient.CancelCaller | sleepytcp/client_wait.go:41-55 | what had been delivered to the caller is recycled; else the pool is untouched |
| HostClients.HostClient.DialledFor | sleepytcp/client_host.go:322-343 | a dial's result is delivered; if the caller has an answer already the connection is recycled; after a failure the unit of count is given up |
| HostClients.HostClient.Destroy | sleepytcp/client_host.go:381-390 | the unit of count is given up and the connection closed |
| HostClients.HostClient.PickIdle | sleepytcp/client_host.go:437-473 | takes the longest prefix idle for too long out of the slice in place, keeps the rest in order, and says how long until the next could be due; with idle connections in the order of their last use, that prefix is all of those idle for too long |

## Left out

- Statistics (round-trip time, packet loss, bandwidth, endpoint.go:336-341 and 350-444): smoothed floats that
  decide nothing. Time elsewhere is `real`.
- Sockets, dialling, DNS, timers, `Frame`, reader and writer pools, `Client` and the programs under cmd: a
  dial succeeds or fails and a timer fires at any moment, as steps of the pool.
- `Do` and its retry loop (sleepytcp/client_host.go:66-100): it has no retry bound, since the loop raises its limit.
- Go channels: the two input queues of a channel are sequences without blocking or capacity, and the out
  queue is the record of what was put in. The source puts pooled buffers there by reference
  (channel.go:101), so later reuse of a buffer could change bytes already queued; here a value is queued.
- Buffer pools: a pooled buffer is a parameter `pooled` with any contents and capacity wherever these could matter
  (the reassembly buffer); elsewhere buffers are fresh. That a released connection object is reused is left out.
- The four buffer types are one generic class, with the embedded `SequenceBuffer` inlined; `Entry`
  (buffer_fragment.go:49-55) is left out, and the init loop of memset.go is a constant.
- Protocol.ReadPacket: does not model an empty buffer, because the source indexes its first byte and panics.
- Protocol.Deliver: where a last fragment is so long that the source's slice would end past the capacity of the
  reassembly buffer, Go panics; here that is an outcome Overrun after which nothing more of the call happens.
- A capacity of 65535, for which cap + 1 wraps to zero, and other capacities outside the assumptions above.
- UpdateRuns.SlidingWindowSafe: does not cover a clock that goes back, for which it is false
  (`ChannelWitnesses.ClockBackRun`).
- Interleaved.LastPieceCompletesAmongOthers: says nothing of traffic that evicts the entry, after which the fragments
  filed so far are gone; which traffic that is, event by event, is `Interleaved.EvictedIff`.
- FragmentedPayloads.SeveralFragmentsNeverArrive: is about runs of two nodes, HeadOfLine.HeadBlocks about runs of one
  node's Update; that a channel with such a payload at its head is stuck for good takes both.
- Network.AckSoundness: the payload is named for runs of at most 65536 writes, because a number names several
  payloads after that; the first half holds for all runs. Network.DeliveriesGenuine likewise.
- Acknowledgement of everything received and at-most-once processing are not promised by the code; see
  `Rings.LiveEntryLostIff` (and `Receipts.AcknowledgesProcessed` for when it holds), `Acknowledge.ProcessedIff` and
  `AnyOrder.FragmentsProcessedIff`.
- Pool.DropClosed: the pops of one section are one step, taken at its last check; between the checks callers can only stop
  waiting, so the outcome is the same. HostClients.HostClient.TryRecycle takes the one race that matters, a
  cancel between waiting() and tryDeliver, as its parameter `gone`.
- Pool.Step: the cleaner takes any prefix of the idle connections, since time is not part of the pool's steps
  (HostClients.HostClient.PickIdle has the exact prefix), and its goroutine starts with the step that sets the flag.
- Fairness and liveness: nothing is said about whether a goroutine ever runs.
- WaitingCallers.Append: the new capacity is 2n + 1; the Go runtime's growth is its own.
