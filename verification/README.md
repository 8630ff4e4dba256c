# Verification of Zerodelay's network core

Zerodelay is a C++ game networking library. It sends packets over UDP reliably and in order, or
unreliably in sequence, keeps connections on top of that, and synchronizes groups of variables
between nodes. This project models that core in Dafny and proves what it is for.

`dafny verify dfyconfig.toml` checks everything.

## What is modelled

**The reliable link** (`Seq32`, `Packets`, `Serialization`, `Reassembly`, `Channel`, `Wire`, `Link`).
`Link.RUDPLink` is the link object with its per-channel counters, queues and buffers; each method is
tied to a function of the channel it acts on. Numbers are 32-bit and wrap. Fragment buffers are maps
with arbitrary contents.

**The reliable protocol over a hostile network** (`Numbering`, `Emissions`, `OrderedSpec`,
`OrderedLink`, `OrderedRefinement`, `OrderedTheorems`, `OrderedDelivery`, `OrderedLoss`,
`OrderedTickets`, `Progress`, `Identity`, `Leftovers`, `MixedBytes`). The
network is a growing set of datagrams, any of which may arrive at any time, any number of times, or
never. A receive is three steps (ack, unlocked newness test, locked insert), so that polls and sends
may come in between, as they do with the library's threads. `OrderedSpec` is a reference protocol with
unbounded numbers; `OrderedRefinement` shows the 32-bit channel to be its image while everything alive
fits in one span of 2^32 numbers. That condition, `RoomyRun`, holds of every run that issues fewer
than 2^32 numbers (`FewNumbersAreRoomy`) and of every run inside the 2^31 window (`WindowedIsRoomy`).
Order, no loss and the meaning of tickets follow for all runs.

**Two whole links exchanging bytes** (`LinkSystem`, `LinkTheorems`, `LinkLoss`, `LinkProgress`,
`LinkUnreliable`): eight channels each way, reliable and unreliable traffic mixed, built from the
contracts of `Link.RUDPLink`. Seen from either half of one channel such a run is a run of that half, so
the channel theorems hold for links; loss beyond the bound and progress are shown for links, too. Even
if everything on the network is lost, retransmission delivers what was sent.

**Unreliable-sequenced channels** (`Unreliable`, `UnreliableDelivery`, `LateFragments`): which packets are
delivered, and what late copies do.

**Group updates** (`GroupUpdate`, `GroupReader`, `UpdateAcks`, `UpdateDelivery`): the writer that fills a
3000-byte buffer in place, the reader that advances through the datagram, the round trip between them,
what acks do to groups that wait, and which updates are taken.

**Network ids and the group table** (`NetworkIds`, `IdSystem`, `GroupsBuilt`, `GroupTable`, `GroupLife`,
`GroupRemoval`).

**Connections** (`ConnectPayload`, `Connection`, `ConnectionHistory`, `ConnectionNode`, `ConnectRefusals`,
`NodeHistory`), **the link registry** (`LinkRegistry`, `LinkLife`), and both together (`LiveLinks`).

## Where promises fail, and when they hold

- A reassembled packet takes id and relay flag from the lowest buffered key, not from its own first
  fragment: `IdentityMixedUp`, and `IdentityExactlyWhen` for the exact condition.
- A datagram is acked before it is filed, so a delivery ticket can be confirmed a moment too early:
  `TicketCanBeEarly`. It is true exactly as `TicketTrueExactlyWhen` says, and soon: `TicketSoonTrue`.
- With more than 2^31 numbers outstanding a fragment can be acked and lost: `BeyondBacklogIsLost`, and
  `LossExactlyWhen`; for links `LinkLossExactlyWhen`.
- A fragment left in the buffer for 2^32 numbers meets its own number again and ends up in another
  packet: `LeftoverMixesBytes`. The bytes of a message are those of one packet sent exactly as
  `BytesAreOwnExactlyWhen` says. A fragment is ignored for another one's sake exactly as
  `TakenForDuplicateExactlyWhen` says.
- A datagram more than 2^31 numbers late on an unreliable channel is delivered again:
  `LateDuplicateDelivered`, and `LateCopyDeliveredExactlyWhen`; for fragmented packets
  `LateSetDeliveredExactlyWhen`.
- A group whose variables were not all set before its first update is misread: `FreshGroupMisread`,
  and `UnackedReadsRightExactlyWhen`.
- An ack of an update is taken to ack the link's id, and may drop an update never sent:
  `NewestIsForgotten`, and `OutlivesAcksExactlyWhen`. The run to it dispatches updates; the send thread
  of the library never does (GameConn/RecvNode.cpp:377-383), so there the revision stays 0.
- A connect request that exactly fills the buffer loses a trailing empty string without a failure:
  `FullBufferLosesEmptyValue`, and `RequestArrivesExactlyWhen`.
- A second connect request takes the link away from a live connection: `AskingTwiceLosesLink`, and
  `LinkLivesExactlyWhen`.
- A provider without connections serves one pending group and stops: `AloneServesOne`, and
  `ProviderServesAllExactlyWhen`.
- Ids stay unique for exactly 2^32 of them: `UniqueExactlyWhen`. Removal misses a second entry under
  the same id: `SecondEntryStays`, and `RemovalCompleteExactlyWhen`.

Where comments and code disagree the code is followed: the flag byte of a normal datagram holds the
channel in three bits and the relay flag in the fourth (GameConn/RUDPLink.cpp:719-721), not in seven
and the highest (GameConn/RUDPLink.h:49); the connect buffer is as large as the room given out
(GameConn/Connection.cpp:98-99), not larger.

## Model

| member | source | states |
|---|---|---|
| `Seq32.NewerIsTrueOrder` | GameConn/RUDPLink.cpp:825-828 | within half the number space the wrapped comparison decides the true order of the unbounded numbers behind it |
| `Seq32.NewerDecides` | GameConn/RUDPLink.cpp:825-828 | the comparison is reflexive and antisymmetric, and decides every pair of different numbers except one exactly 2^31 apart, where neither counts as newer |
| `Serialization.FragmentsAreACut` | GameConn/RUDPLink.cpp:708-733 | for every payload, the empty one included, and every positive fragment size the fragments carry first and last marks at the ends only, agree on id and relay flag, join up to the payload, and none exceeds the size |
| `Serialization.SerializeNormalPacket` | GameConn/RUDPLink.cpp:708-733 | the cutting loop yields exactly those fragments |
| `Reassembly.WalkToFirst` | GameConn/RUDPLink.cpp:800-804 | the backward walk stops on every buffer of fewer than 2^32 entries, on a missing number or on a first fragment, having passed only buffered fragments that are not first |
| `Reassembly.WalkToLast` | GameConn/RUDPLink.cpp:809-813 | the forward walk likewise, towards a last fragment |
| `Reassembly.DefragmentPacket` | GameConn/RUDPLink.cpp:766-796 | takes exactly the run out of the buffer and joins its bytes in sequence order, across the wrap; id and relay flag come from the entry with the lowest key, whosever it is |
| `Reassembly.TryReassembleBigPacket` | GameConn/RUDPLink.cpp:798-823 | succeeds exactly when the number is joined by contiguous keys modulo 2^32 to a first fragment behind it and a last one ahead; then exactly that run is erased, and otherwise nothing changes |
| `Reassembly.RunSpan` | GameConn/RUDPLink.cpp:798-823 | a run found by the two walks spans fewer than 2^32 numbers, so begin, end and count of it are unambiguous |
| `Identity.FragmentationRoundTrip` | GameConn/RUDPLink.cpp:708-823 | fragments of one packet, inserted in any order with any repeats from any starting number, wrap included, queue nothing before the last one is there and then exactly one packet, equal to the one sent, with the right count |
| `Identity.IdentityExactlyWhen` | GameConn/RUDPLink.cpp:769-779 | a reassembled packet keeps its id and relay flag exactly when the packet that owns the lowest buffered key, which the lemma names, has the same id and relay flag; payload bytes are right always |
| `Identity.AloneKeepsIdentity` | GameConn/RUDPLink.cpp:769-779 | a packet that has the fragment buffer to itself is queued exactly as sent |
| `Leftovers.IdentityMixedUp` | GameConn/RUDPLink.cpp:769-779 | with any fragment size, a run of two sends with one fragment delayed, at whose end the second packet was polled with the id and relay flag of the first |
| `MixedBytes.RunTracked` | GameConn/RUDPLink.cpp:506-525 | in every run, however far the numbers have wrapped, each buffered number stands for one known fragment, and each packet's numbers are consecutive |
| `MixedBytes.BytesAreOwnExactlyWhen` | GameConn/RUDPLink.cpp:506-525 | in every run, when an insert completes a message, all its pieces belong to the packet in hand exactly when no fragment of another packet is buffered under a number of that packet; then what is queued has the numbers and the bytes of the packet sent |
| `MixedBytes.TakenForDuplicateExactlyWhen` | GameConn/RUDPLink.cpp:506-510 | in every run, a fragment that is not buffered is acked and ignored exactly when the buffer holds another one issued a whole number of times 2^32 numbers away; a buffered one is ignored, too |
| `Leftovers.LeftoverMixesBytes` | GameConn/RUDPLink.cpp:506-525 | with any fragment size, a run that issues 2^32 numbers and whose last polled packet is half another packet's bytes, whether the half really sent comes in and is taken for a duplicate or never comes in |
| `Wire.NormalRoundTrip` | GameConn/RUDPLink.cpp:716-724 | a normal datagram decodes to the number, fragment, channel, link id and type it was encoded from |
| `Wire.NormalUnique` | GameConn/RUDPLink.cpp:743-752 | a normal datagram whose two spare flag bits are clear is the encoding of what is read from it, so no two datagrams mean the same |
| `Wire.NormalLayout` | GameConn/RUDPLink.cpp:708-752 | byte by byte: link id at 0, type at 4, channel and flags at 5 with the weights of the flags, number at 6, data id at 10, payload from 11 on, numbers with their lowest byte first |
| `Wire.AcksRoundTrip` | GameConn/RUDPLink.cpp:381-407 | an ack datagram passes the length check and gives back its channel and its numbers in order |
| `Wire.AcksUnique` | GameConn/RUDPLink.cpp:621-637 | and an ack datagram that passes the check is the encoding of what is read from it |
| `Wire.AcksLayout` | GameConn/RUDPLink.cpp:381-407 | byte by byte: link id, type 3 at 4, channel at 5, count at 6, the acked numbers from 10 on, four bytes each |
| `OrderedSpec.SafeStep` | GameConn/RUDPLink.cpp:477-527 | the reference protocol with unbounded numbers keeps, at every step, polled and queued packets matched to the packets sent under their numbers, and the fragment buffer free of complete packets |
| `OrderedSpec.KeptStep` | GameConn/RUDPLink.cpp:447-450 | every step whose newness test is faithful keeps each acked fragment polled, queued, buffered or in hand |
| `OrderedSpec.AckedIsDelivered` | GameConn/RUDPLink.cpp:506-525 | a packet with no fragment outstanding has been reassembled or polled, unless one of its fragments is in the receive thread's hand |
| `OrderedSpec.LateInsertHarmless` | GameConn/RUDPLink.cpp:490-525 | an insert that overtakes a poll of the same packet, after the unlocked newness test, changes nothing the user still waits for |
| `OrderedRefinement.SimStep` | GameConn/RUDPLink.cpp:490-525 | each step of the 32-bit channel is the image of a step of the unbounded one as long as everything alive fits in one span of 2^32 numbers |
| `OrderedTheorems.RunRefines` | GameConn/RUDPLink.cpp:825-828 | wraparound refinement: over a whole run of sends, arrivals, tests, inserts, polls and acks the 32-bit channel stays the image of the unbounded one, which stays safe, across any number of wraps |
| `OrderedTheorems.InOrderAcrossWrap` | GameConn/RUDPLink.cpp:168-185 | what was polled is a prefix of what was sent, payloads always and id and relay flag for unfragmented packets, in every run in which all live numbers fit one span of 2^32 |
| `OrderedTheorems.FewNumbersAreRoomy` | GameConn/RUDPLink.cpp:66-78 | that side condition holds of every run with fewer than 2^32 numbers issued |
| `OrderedTheorems.ExactlyOnceInOrder` | GameConn/RUDPLink.cpp:49-98 | exactly once, in order: with fewer than 2^32 numbers issued, what poll returned is a prefix of what was sent, whatever is lost, repeated or reordered and however the receiving and polling threads interleave |
| `OrderedDelivery.WindowedIsRoomy` | GameConn/RUDPLink.cpp:490-503 | the side condition also holds of every run that keeps live numbers within 2^31 of the next expected one |
| `OrderedDelivery.TestIsFaithful` | GameConn/RUDPLink.cpp:490-492 | with at most 2^31 numbers outstanding the wrapped newness test never turns away a fragment that is still wanted |
| `OrderedDelivery.NothingIsLost` | GameConn/RUDPLink.cpp:621-653 | no loss: under that bound every fragment ever issued is in the retransmit queue, in the reorder queue as part of its whole packet, in the fragment buffer, in the receive thread's hand, or polled |
| `OrderedLoss.WantedPassesExactlyWhen` | GameConn/RUDPLink.cpp:490-492 | every fragment still wanted passes the wrapped newness test exactly while at most 2^31 numbers are outstanding |
| `OrderedLoss.BeyondBacklogIsLost` | GameConn/RUDPLink.cpp:447-450 | from every state beyond that bound a few events without a send leave some fragment out of the retransmit queue, the buffers, the hand and what was polled |
| `OrderedLoss.LossExactlyWhen` | GameConn/RUDPLink.cpp:447-450 | in any run whose backlog was bounded up to its last event, some continuation without sends loses a fragment if and only if the backlog is not bounded now |
| `OrderedLoss.ManyPacketsLoseOne` | GameConn/RUDPLink.cpp:447-450 | with any fragment size, 2^31 + 1 packets of one fragment are enough for that |
| `OrderedDelivery.TicketTellsTruth` | GameConn/RecvNode.cpp:221-239 | when every number of a ticket has left the retransmit queue, the peer has polled the packet or holds it whole in its reorder queue, unless a fragment of it is in the receive thread's hand at that moment |
| `OrderedDelivery.TicketAtRest` | GameConn/RecvNode.cpp:221-239 | without exception when the receive thread is between two datagrams |
| `OrderedDelivery.TicketCanBeEarly` | GameConn/RUDPLink.cpp:447-450 | the exception is real: acking before filing lets a ticket be confirmed while the packet is neither queued nor polled |
| `OrderedTickets.TicketSoonTrue` | GameConn/RecvNode.cpp:221-239 | a ticket confirmed too early is true once the receive thread has finished the datagram it is busy with |
| `OrderedTickets.TicketTrueExactlyWhen` | GameConn/RecvNode.cpp:221-239 | a confirmed ticket is true exactly if the receive thread is not busy with a fragment of that packet it never inserted before |
| `OrderedDelivery.QuietMeansDelivered` | GameConn/RUDPLink.cpp:168-185 | once the retransmit queue is empty, the receive thread idle and nothing ready, every packet sent has been polled |
| `Progress.LosslessRound` | GameConn/RUDPLink.cpp:381-407 | one lossless round of retransmission, acks and their delivery takes the retransmit queue from n to max(0, n - 512), survivors in order, although acks beyond 512 are discarded |
| `Progress.RoundsEmptyTheQueue` | GameConn/RUDPLink.cpp:298-309 | ceil(n / 512) such rounds empty it, since datagrams already processed are acked again |
| `Progress.EventuallyAcked` | GameConn/RUDPLink.cpp:621-653 | from every state reached with fewer than 2^32 numbers issued some continuation without new sends empties the retransmit queue, however far behind the receiver is |
| `Progress.EventuallyDelivered` | GameConn/RUDPLink.cpp:477-527 | from every state reached with fewer than 2^32 numbers issued and a bounded backlog some continuation without new sends polls everything that was sent, in order |
| `Unreliable.RunKeeps` | GameConn/RUDPLink.cpp:529-595 | every run inside the window keeps the next expected number at a packet boundary and the buffer full of nothing but fragments of packets sent |
| `Unreliable.PurgeIsExact` | GameConn/RUDPLink.cpp:581-591 | the purge erases exactly the fragments of packets up to the one just delivered |
| `Unreliable.DeliversSubsequence` | GameConn/RUDPLink.cpp:529-595 | packets delivered on an unreliable channel are a strictly increasing choice among those sent, each at most once, payload intact |
| `UnreliableDelivery.NextIsAfterLatest` | GameConn/RUDPLink.cpp:529-595 | the next packet expected is always the one after the latest packet of which everything came in |
| `UnreliableDelivery.DeliveredExactlyWhen` | GameConn/RUDPLink.cpp:529-595 | in every run inside the window a packet is delivered exactly when some arrival brings its last missing fragment while no later packet has come in completely, whatever is lost, repeated or reordered |
| `Unreliable.RefusedExactlyWhen` | GameConn/RUDPLink.cpp:544-549 | a fragment is refused exactly when the next expected number is 1 to 2^31 numbers past it, modulo 2^32 |
| `Unreliable.LateCopyDeliveredExactlyWhen` | GameConn/RUDPLink.cpp:544-560 | a copy of an unfragmented packet already delivered or overtaken changes nothing exactly when it counts as late in that sense; otherwise exactly that packet is delivered again |
| `LateFragments.LateSetDeliveredExactlyWhen` | GameConn/RUDPLink.cpp:544-595 | when all fragments of a packet come in once each, in any order, at an empty buffer, nothing is delivered exactly when one of them counts as late; otherwise the packet is delivered as sent, even if it was delivered long ago |
| `Unreliable.LateDuplicateDelivered` | GameConn/RUDPLink.cpp:544-549 | with any fragment size, a run in which three packets come in and the late copy of the first is delivered a second time |
| `LinkSystem.RunTraced` | GameConn/RUDPLink.cpp:467-475 | however far a channel wraps, everything in its retransmit queue is a fragment it emitted and every pending ack names one that arrived |
| `LinkSystem.RunProjects` | GameConn/RUDPLink.cpp:427-465 | for any run of two links exchanging bytes, reliable and unreliable traffic mixed on eight channels both ways, the reliable half of each channel of each direction has a run of its own that puts its sender and receiver exactly where they are, every datagram on the network is one a channel emitted, and at every point of that run the channel has issued and polled what the link had at some point |
| `LinkUnreliable.RunFollows` | GameConn/RUDPLink.cpp:427-465 | and so has the unreliable half |
| `LinkSystem.LinkDeliversInOrder` | GameConn/RUDPLink.cpp:168-205 | hence on every channel of either direction with fewer than 2^32 numbers issued, what was polled is a prefix of what was sent: payloads always, whole packets where one fragment was enough |
| `LinkTheorems.LinkDeliversAll` | GameConn/RecvNode.cpp:221-239 | on every channel of either direction with fewer than 2^32 numbers issued and a backlog of at most 2^31 numbers all along: no number of a packet leaves the retransmit queue before it is buffered or its packet has arrived; a confirmed ticket means that its packet was polled or is held whole; with nothing to retransmit and nothing to poll, all that was sent was polled in order |
| `LinkTheorems.FewKeepUp` | GameConn/RUDPLink.cpp:66-78 | with at most 2^31 numbers issued in all, the backlog of a link's channel is bounded by itself |
| `LinkUnreliable.LinkDeliversChosen` | GameConn/RUDPLink.cpp:529-595 | on every channel of either direction whose arrivals stay in the window, as they do with at most 2^31 unreliable numbers issued, packets delivered are a strictly increasing choice among those sent, each at most once, and whole where one fragment was enough |
| `LinkLoss.BeyondBoundIsLost` | GameConn/RUDPLink.cpp:447-450 | from every state of two links with a larger backlog on some channel, four events without a send leave a number of it neither queued nor buffered and its packet not arrived |
| `LinkLoss.LinkLossExactlyWhen` | GameConn/RUDPLink.cpp:447-450 | if the backlog of a link's channel was bounded up to the last event, some continuation without sends loses a number if and only if it is not bounded now |
| `LinkProgress.RetransmitsAll` | GameConn/RUDPLink.cpp:298-309 | however much of the traffic was lost, one retransmission puts a copy of every queued datagram of every channel on the network and changes neither end |
| `LinkProgress.RetransmissionDelivers` | GameConn/RUDPLink.cpp:298-309 | from every state two links can reach, with every datagram on the network lost in both directions, some continuation that begins with a retransmission and sends nothing new polls everything sent so far, in order, on every channel with fewer than 2^32 numbers issued and a backlog bounded all along |
| `LinkProgress.LinkDeliversEventually` | GameConn/RUDPLink.cpp:621-653 | on a channel whose backlog was bounded all along there is, whatever the other channels and the other direction carry, a continuation without sends in which everything sent on it is polled, in order |
| `Link.RUDPLink.constructor` | GameConn/RUDPLink.cpp:14-37 | a new link has all counters zero and all queues and buffers empty on all eight channels |
| `Link.RUDPLink.SimulatePacketLoss` | GameConn/RUDPLink.cpp:246-249 | sets the percentage and changes no channel |
| `Link.RUDPLink.BlockAllUpcomingSends` | GameConn/RUDPLink.cpp:158-161 | blocks and changes no channel |
| `Link.RUDPLink.QueueReliable` | GameConn/RUDPLink.cpp:66-87 | numbers the fragments consecutively, queues them in order on that channel alone, and sends the encodings of exactly what was queued |
| `Link.RUDPLink.SendUnreliable` | GameConn/RUDPLink.cpp:88-96 | numbers and sends without queueing |
| `Link.RUDPLink.AddToSendQueue` | GameConn/RUDPLink.cpp:49-98 | refuses when blocked and refuses kinds users may not send, changing nothing; else sends the cut of the packet, with a ticket naming its first number and fragment count if reliable |
| `Link.RUDPLink.Poll` | GameConn/RUDPLink.cpp:168-205 | hands out the packet under the next expected number of the lowest ready channel, then unreliable packets, then updates; answers no exactly when none is ready; touches only the channel served |
| `Link.RUDPLink.IsSequenceDelivered` | GameConn/RUDPLink.cpp:230-244 | answers whether the number has left the channel's retransmit queue |
| `Link.RUDPLink.IsPacketDelivered` | GameConn/RecvNode.cpp:221-239 | answers yes exactly when all of the ticket's numbers, wrapping, have left the queue |
| `Link.RUDPLink.DispatchReliableOrderedQueue` | GameConn/RUDPLink.cpp:298-309 | sends as many datagrams as are queued on all channels; the encoding of the i-th datagram queued on channel c stands at i plus the lengths of the queues before c; nothing changes |
| `Link.RUDPLink.DispatchAckQueue` | GameConn/RUDPLink.cpp:381-407 | per channel with pending acks one datagram of the first 512 of them; all queues are emptied |
| `Link.RUDPLink.AddAckToAckQueue` | GameConn/RUDPLink.cpp:467-475 | queues an ack once |
| `Link.RUDPLink.ReceiveAck` | GameConn/RUDPLink.cpp:639-652 | each ack removes the first datagram with its number from that channel's queue and nothing else |
| `Link.RUDPLink.ReceiveReliableOrdered` | GameConn/RUDPLink.cpp:477-527 | ties the imperative receive to the channel step the protocol theorems are about; other channels stay as they are |
| `Link.RUDPLink.ReceiveUnreliableSequenced` | GameConn/RUDPLink.cpp:529-595 | the same for unreliable channels, purge included |
| `Link.RUDPLink.ReceiveReliableNewest` | GameConn/RUDPLink.cpp:597-619 | keeps an update exactly if it is long enough and not older than the last one taken |
| `Link.RUDPLink.RecvData` | GameConn/RUDPLink.cpp:427-465 | simulated packet loss takes a datagram as its percentage and the random number say, and then nothing changes; otherwise it acts on the channel it names and on no other; short and unknown ones do nothing; reliable ones are acked even when already processed |
| `Link.IsPacketDelivered` | GameConn/RecvNode.cpp:221-239 | the delivery check by endpoint: no for an endpoint without a link, else the answer of its link |
| `Link.CollectFragment` | GameConn/RUDPLink.cpp:506-525 | buffering a fragment and moving a completed message to the reorder queue is the insert of the channel model |
| `Link.PurgeOld` | GameConn/RUDPLink.cpp:581-591 | the erase loop leaves exactly the fragments that are not overtaken |
| `Link.TakeAcks` | GameConn/RUDPLink.cpp:391-398 | the loop takes all acks, or the first 512 of more |
| `Link.AllQueuedAt` | GameConn/RUDPLink.cpp:301-307 | every queued datagram of every channel stands among the copies sent, at the place that the lengths of the queues before its channel give it |
| `GroupUpdate.BitsRoundTrip` | GameConn/RUDPLink.cpp:342 | bit i of the group bits is set exactly where item i was written |
| `GroupUpdate.GoesOutExactlyWhen` | GameConn/RUDPLink.cpp:337-357 | an item goes out, its bit set and its data behind that of the items before it, exactly when its revision is at most 2^31 - 1 numbers past the last one acked |
| `GroupUpdate.GroupLayout` | GameConn/RUDPLink.cpp:324-371 | byte by byte: group id at 0, bits at 4, bytes to skip at 6, data from 8 on |
| `GroupUpdate.UpdateLayout` | GameConn/RUDPLink.cpp:311-323 | byte by byte: link id at 0, type 2 at 4, revision at 5, number of groups at 9, groups from 13 on |
| `GroupUpdate.WriteItems` | GameConn/RUDPLink.cpp:337-357 | writes the marked items in order behind what the buffer holds, with their bits; gives up only if they do not fit 2048 bytes |
| `GroupUpdate.WriteGroup` | GameConn/RUDPLink.cpp:324-371 | a group with nothing marked leaves no trace; a fitting one appends header and data, patched in afterwards; what was in the buffer before stays |
| `GroupUpdate.DispatchReliableNewestQueue` | GameConn/RUDPLink.cpp:311-379 | sends one datagram of at most 2048 bytes with exactly the groups of the frame and their count, and counts the revision up only then; a group that does not fit sends nothing and is a critical error |
| `GroupUpdate.FrameIsDirty` | GameConn/RUDPLink.cpp:321-375 | the groups sent are the dirty ones in order: all of them, or those up to the one that fills the datagram to its last byte |
| `GroupUpdate.TooMuchMeans` | GameConn/RUDPLink.cpp:342-350 | too much data means that some dirty group would end past byte 2048 behind the dirty ones before it |
| `GroupReader.ReadVariables` | GameConn/VariableGroup.cpp:31-50 | the loop over the variables consumes, for each marked variable, its own length from the stream |
| `GroupReader.UpdateReceiver.DeserializeGroup` | GameConn/VariableGroupNode.cpp:491-522 | reads one group of a known and sound group, passes over any other by its skip count, and after a failing read keeps what was stored and moves on to the group's end |
| `GroupReader.UpdateReceiver.RecvVariableGroupUpdate` | GameConn/VariableGroupNode.cpp:276-311 | reads the announced number of groups; anything but using up every byte is a critical error |
| `GroupReader.GroupReadsRightExactlyWhen` | GameConn/NetVariable.cpp:64-86 | a known group gets the sender's bytes for its marked variables, keeps the others, and leaves the stream at the group's end exactly when each marked item carries its variable's length and items past the last variable carry nothing |
| `GroupReader.GoesOnBehind` | GameConn/VariableGroupNode.cpp:491-522 | for any group sent: if it is not known or broken, nothing is stored and the stream goes on behind it; if it is known and its variables cannot be read, that is a serialization error that keeps what was read and goes on behind it, too |
| `GroupReader.HugeCountReadsNone` | GameConn/VariableGroupNode.cpp:283-292 | a count of groups from 2^31 on is taken for none: nothing is read and any byte behind it is an error |
| `GroupReader.UpdateRoundTrip` | GameConn/VariableGroupNode.cpp:276-311 | for any groups sent and any subset of them known, the datagram is read to its last byte and known sound groups take over the marked variables, while everything else stays |
| `GroupReader.SentIsTakenOver` | GameConn/RUDPLink.cpp:311-379 | whatever the writer sends out of its queue the reader takes over, under the same hypothesis |
| `GroupReader.UnackedReadsRightExactlyWhen` | GameConn/RUDPLink.cpp:118-155 | before any ack, reading a queued group gives its variables the sender's bytes and ends at the group's end exactly when every variable with any bytes was set at least once |
| `GroupReader.FreshGroupMisread` | GameConn/RUDPLink.cpp:129-145 | a new group of two four-byte variables with only one set is sent with all bits marked and fails to be read |
| `UpdateAcks.UpdateQueue.ReceiveAckRelNewest` | GameConn/RUDPLink.cpp:655-704 | the loop takes the first four bytes for the acked number, marks every item with it and erases exactly the groups all of whose items are newer than it |
| `UpdateAcks.LinkIdIsTaken` | GameConn/RUDPLink.cpp:410-424 | whatever number a peer acks, what is read from its datagram is the id of the link |
| `UpdateAcks.OnlyFirstCounts` | GameConn/RUDPLink.cpp:655-704 | so only the first ack on a link does anything, whatever numbers are acked and however often |
| `UpdateAcks.OutlivesAcksExactlyWhen` | GameConn/RUDPLink.h:27-32 | a waiting group outlives any acks exactly when the id of the link is not new to the queue or not older than all items of the group; what was really acked does not matter |
| `UpdateAcks.UpdateQueue.AddReliableNewest` | GameConn/RUDPLink.cpp:100-155 | files a variable in its group at the revision it will go out with, or begins a new group in id order; nothing happens when blocked, and a bit out of range is a critical error |
| `UpdateAcks.NewestIsForgotten` | GameConn/RUDPLink.cpp:685-698 | a run of one group set, as many dispatches as the link's id and one more, a second group set and one ack: the second group is gone without having been sent |
| `UpdateDelivery.SetIsFiled` | GameConn/RUDPLink.cpp:100-155 | setting a variable files its bytes under the revision to come in its group, and leaves all other variables and groups and the order of ids as they were |
| `UpdateDelivery.AckLeaves` | GameConn/RUDPLink.cpp:655-704 | an ack of n leaves exactly the groups of which some item was set at n or before, modulo 2^32 |
| `UpdateDelivery.AckedGoesOutExactlyWhen` | GameConn/RUDPLink.cpp:680-684 | after an ack of n an item still goes out exactly if it was set at n or after; what was acked and not set since is left out |
| `UpdateDelivery.SentIsTakenExactlyWhen` | GameConn/RUDPLink.cpp:597-619 | what the writer sends is taken by the receiving link exactly when its revision is at most 2^31 - 1 past the one expected next, touches no channel, and is read to its last byte |
| `UpdateDelivery.TakenAreNewest` | GameConn/RUDPLink.cpp:597-619 | whatever is lost, repeated or reordered within 2^31 revisions, a link takes exactly the updates newer than all that came in before: none twice, and no older one after a newer |
| `NetworkIds.PackRoundTrip` | GameConn/VariableGroupNode.cpp:347-362 | a pack of 25 ids is read as it was written |
| `NetworkIds.VariableGroupNode.RecvIdRequest` | GameConn/VariableGroupNode.cpp:169-177 | the provider answers with the next 25 ids of its counter, other nodes not at all |
| `NetworkIds.VariableGroupNode.RecvIdProvide` | GameConn/VariableGroupNode.cpp:179-193 | a pack of the right size goes to the end of the deck in order, any other is dropped |
| `NetworkIds.VariableGroupNode.ResolvePendingGroups` | GameConn/VariableGroupNode.cpp:386-411 | a provider tops up as many ids as groups are pending; then pending groups take ids from the deck in turn until one side runs out, a group cannot be built, or its announcement went over no link; the last two are critical errors |
| `NetworkIds.VariableGroupNode.Update` | GameConn/VariableGroupNode.cpp:77-83 | asks for ids exactly when this node is not the provider, has fewer than 25, is connected and it is time; then resolves the pending groups; after a critical error nothing happens any more |
| `IdSystem.IdsAreConserved` | GameConn/VariableGroupNode.cpp:347-362 | over any interleaving of requests, packs, losses, creations and removals, the ids in all decks, creations, packs under way and losses are, as a multiset, exactly those ever minted, however often the counter wraps |
| `IdSystem.UniqueExactlyWhen` | GameConn/VariableGroupNode.cpp:355 | every id is in at most one place exactly as long as at most 2^32 were minted, and then those in use are the numbers below the count |
| `IdSystem.CreationsDiffer` | GameConn/VariableGroupNode.cpp:399-406 | no two group creations anywhere in the network carry the same id |
| `IdSystem.HeadIsFresh` | GameConn/VariableGroupNode.cpp:151-155 | the id about to be used keys no group of its node, as the assertion there wants |
| `IdSystem.ServedInOrder` | GameConn/VariableGroupNode.cpp:397-411 | pending groups are served in the order asked for with ids in the order they came, as many as there are of both, up to and including the first that cannot be built or tracked; exactly those of a known function are filed under their ids, and all other entries stay |
| `IdSystem.ProviderServesAllExactlyWhen` | GameConn/VariableGroupNode.cpp:388-411 | a provider resolves all its pending groups in one round exactly when all but the last can be built and tracked, and stays without error exactly when all can |
| `IdSystem.AloneServesOne` | GameConn/VariableGroupNode.cpp:405-409 | a provider without a connection serves one group and stops for good |
| `IdSystem.RequestIsServed` | GameConn/VariableGroupNode.cpp:169-193 | a node that asks the provider has the next 25 numbers at the end of its deck once the answer comes in, and no other deck changes |
| `GroupsBuilt.AnnouncedIsBuiltExactlyWhen` | GameConn/VariableGroupNode.cpp:393-411 | as long as at most 2^32 ids were minted, after any run a group that a node announced exists there under the id it was announced with exactly when its function was known and nothing removed that id since, and it is that group |
| `GroupsBuilt.SomeUpdateAnnounced` | GameConn/VariableGroupNode.cpp:386-411 | and every creation of a node was announced by one of its updates |
| `GroupTable.VariableGroups.FindGroup` | GameConn/VariableGroupNode.cpp:553-572 | finds in the remote maps in endpoint order, then locally |
| `GroupTable.VariableGroups.RemoveGroup` | GameConn/VariableGroupNode.cpp:574-596 | removes the first entry found under the id, in place, and answers whether there was one |
| `GroupTable.VariableGroups.BeginNewGroup` | GameConn/VariableGroupNode.cpp:129-156 | files a group under its owner, or locally; one of an unknown owner is discarded and an entry already there stays |
| `GroupTable.RemovalCompleteExactlyWhen` | GameConn/VariableGroupNode.cpp:252-260 | after a removal the id is not found exactly when it keyed at most one entry |
| `GroupTable.RemovalTouchesNoOther` | GameConn/VariableGroupNode.cpp:574-596 | no entry under another id changes, in any map |
| `GroupTable.CreatedOnceRemoved` | GameConn/VariableGroupNode.cpp:252-260 | if an id's creation reached the node at most once, then after any run a destroy leaves nothing under it and all else alone |
| `GroupRemoval.CreatedAtMostOnce` | GameConn/VariableGroupNode.cpp:347-362 | if a node's creations are arrivals of announcements made over one run of the id network, each at most once, with at most 2^32 ids minted, then no id is created twice at the node |
| `GroupRemoval.RemovalIsComplete` | GameConn/VariableGroupNode.cpp:252-260 | then destroying a group leaves nothing under its id, however groups and connections came and went, and touches no other |
| `GroupRemoval.OneEntryEach` | GameConn/VariableGroupNode.cpp:574-596 | and an id keys at most one entry over all the maps of the node, at any time |
| `GroupTable.SecondEntryStays` | GameConn/VariableGroupNode.cpp:555-563 | with one id under two endpoints the second entry is found after the removal |
| `GroupTable.RunOrdered` | GameConn/VariableGroupNode.cpp:598-637 | connects, disconnects, creations and removals keep the remote maps an ordered map by endpoint |
| `GroupLife.ListedExactlyWhen` | GameConn/VariableGroupNode.cpp:598-637 | an endpoint is listed exactly when it connected and no loss of it, other than of a direct link, was reported since |
| `GroupLife.FoundExactlyWhen` | GameConn/VariableGroupNode.cpp:129-156 | a group created once in a run is found at its end, and is that group, exactly when it was created here or by an endpoint listed then, and since then it was not destroyed and its owner not lost |
| `ConnectPayload.AppendString2` | GameConn/Util.cpp:27-43 | writes a string that fits whole and cuts one that does not, never past the room there is; an empty string is reported as written even into no room |
| `ConnectPayload.SendConnectRequest` | GameConn/Connection.cpp:93-112 | appends password, keys and values one after the other and gives up at the first failure |
| `ConnectPayload.ReadString` | GameConn/Util.cpp:53-73 | copies up to a zero byte, the end of the bytes or the size of the buffer, terminates, and answers one more than was copied |
| `ConnectPayload.DeserializeMap` | GameConn/Util.cpp:118-140 | stops on every input; fails exactly when a string runs to the end of the bytes; the first of two equal keys wins |
| `ConnectPayload.RequestRoundTrip` | GameConn/Connection.cpp:93-112 | password and metadata without zero bytes that fit with their terminators are sent and recovered exactly |
| `ConnectPayload.RequestArrivesExactlyWhen` | GameConn/ConnectionNode.cpp:497-524 | and they arrive as meant exactly when they fit |
| `ConnectPayload.FullBufferLosesEmptyValue` | GameConn/Util.cpp:30-41 | a last empty value is dropped without a failure when the buffer is full, and the receiver cannot read the request |
| `Connection.ConnectionObject.Disconnect` | GameConn/Connection.cpp:54-67 | the first call reports an established connection's end, takes the asked-for state and lets the link go; later calls do nothing |
| `Connection.ConnectionObject.SendConnectRequest` | GameConn/Connection.cpp:93-112 | begins connecting whether or not the data fits, and sends only if it does |
| `Connection.ConnectionObject.OnReceiveConnectAccept` | GameConn/Connection.cpp:135-142 | only a connecting connection is established by an accept, reporting success |
| `Connection.ConnectionObject.OnReceiveDisconnect` | GameConn/Connection.cpp:144-149 | only an established connection is ended by a disconnect packet, with no message back |
| `Connection.ConnectionObject.DoUpdateConnecting` | GameConn/Connection.cpp:167-177 | a connecting connection whose time is up reports it and lets the link go |
| `Connection.ConnectionObject.DoUpdateKeepAlive` | GameConn/Connection.cpp:179-198 | asks for a sign of life when due, once, and is lost when none came; what that means for whole runs is `ConnectionHistory.KeepAliveEndsExactlyWhen` |
| `Connection.StepKeeps` | GameConn/Connection.cpp:54-198 | every call keeps the lifecycle invariant, and an ended state is never left |
| `Connection.LifeIsSafe` | GameConn/Connection.cpp:54-198 | over any sequence of calls at most one connect result and one disconnect are reported, the connection refers to its link while it lives and lets go of it once at most, and an end is reported exactly for connections that were established and are no more |
| `Connection.EndedStays` | GameConn/Connection.cpp:54-91 | once ended, always ended |
| `Connection.DisconnectKeepsExactlyWhen` | GameConn/Connection.cpp:54-67 | a disconnect call keeps all this exactly when it asks for an ended state or is not the first |
| `ConnectionHistory.KeepAliveEndsExactlyWhen` | GameConn/Connection.cpp:157-198 | over all runs, told by events and messages alone: an update ends an established connection exactly when time is up, the interval is positive, and a keep-alive request went out with no answer received since; and it sends a request exactly when one is due and none is unanswered |
| `ConnectionHistory.EveryRequestAnswered` | GameConn/Connection.cpp:151-155 | over all runs as many keep-alive answers are sent as requests came in while connected |
| `ConnectionHistory.AttemptIsDecidedBy` | GameConn/Connection.cpp:69-177 | an attempt goes on until the first event that decides it, and that event alone says which state it ends in, which result is reported, and whether the link is let go |
| `ConnectionHistory.EstablishedEndsExactlyWhen` | GameConn/Connection.cpp:54-198 | an established connection ends exactly by a disconnect packet, a disconnect call, or an unanswered keep-alive; the reason reported, the goodbye sent and the new state are those of the cause |
| `ConnectionHistory.StepSays` | GameConn/Connection.cpp:54-198 | what each call makes a connection send and report in each of its states, as one table |
| `ConnectionNode.Connections.ConnectTo` | GameConn/ConnectionNode.cpp:75-105 | makes a connection only for an endpoint that has neither connection nor link, and asks for acceptance if wanted |
| `ConnectionNode.Connections.RecvPacket` | GameConn/ConnectionNode.cpp:409-479 | a packet other than a connect request calls one method of its own connection and touches no other |
| `ConnectionNode.Connections.Update` | GameConn/ConnectionNode.cpp:182-206 | in one pass over the list, drops exactly the entries neither connecting nor connected and updates the others |
| `ConnectionNode.Connections.DisconnectEveryone` | GameConn/ConnectionNode.cpp:29-42 | disconnects, deletes and clears all |
| `ConnectionNode.Connections.DisconnectFrom` | GameConn/ConnectionNode.cpp:122-139 | disconnects one endpoint, answering whether it was connected, and erases it if asked |
| `ConnectionNode.Connections.RecvConnectPacket` | GameConn/ConnectionNode.cpp:488-532 | makes an established connection object exactly for an accepted request; a malformed one is a critical error; nothing changes for any other |
| `ConnectionNode.Examine` | GameConn/ConnectionNode.cpp:488-524 | reading the password and the metadata step by step gives the verdict: a known endpoint, a wrong password, too many connections and a malformed body are answered in this order |
| `ConnectionNode.CheckPassword` | GameConn/ConnectionNode.cpp:497-510 | the password is read into a buffer and compared byte by byte: equal exactly if the request begins with the password up to its first zero byte |
| `ConnectionNode.SameString` | GameConn/ConnectionNode.cpp:506 | the comparison loop stops at the first difference or zero byte |
| `ConnectionNode.NoneDroppedUnreported` | GameConn/ConnectionNode.cpp:182-206 | no established connection is ever dropped without its end having been reported, over any sequence of connects, packets, updates and disconnects |
| `ConnectionNode.RequestIsAccepted` | GameConn/ConnectionNode.cpp:497-531 | a fitting request with the right password from an unknown endpoint to a node with room is accepted with exactly the metadata sent |
| `ConnectRefusals.AnswersExactlyWhen` | GameConn/ConnectionNode.cpp:488-532 | one if-and-only-if per answer, for any password and any bytes: the endpoint is known; else the request does not begin with the password and end, have a zero byte or fill the receive buffer there; else the node is full; else some string behind the password is not ended; else it is accepted |
| `ConnectRefusals.ReadableExactlyWhen` | GameConn/Util.cpp:118-140 | metadata is read exactly when the bytes are strings in pairs, each ended by a zero byte or by the size of the receive buffer |
| `ConnectRefusals.AcceptsWhatItSays` | GameConn/ConnectionNode.cpp:516-531 | what is accepted is the metadata as it lies in the request, the first of two entries with one key counting |
| `ConnectRefusals.OtherPasswordIsRefused` | GameConn/ConnectionNode.cpp:506-510 | a request made up with another password is answered so, however full the node is |
| `ConnectRefusals.FullNodeRefuses` | GameConn/ConnectionNode.cpp:512-516 | a request made up with the right password is told when the node is full |
| `NodeHistory.EveryConnectionLives` | GameConn/ConnectionNode.cpp:182-532 | over any run of a node, the connection of each endpoint is there exactly while its own history says so and is what a connection becomes to which just that history happened, so what holds of every run of one connection holds of each connection of a node |
| `NodeHistory.UpdateDropsExactlyWhen` | GameConn/ConnectionNode.cpp:190-199 | an update drops an entry exactly if it is neither connecting nor connected |
| `NodeHistory.UpdateEndsExactlyWhen` | GameConn/ConnectionNode.cpp:201-203 | an update ends an established connection of a node exactly when a keep-alive request of its own is unanswered and time is up |
| `NodeHistory.FailsExactlyWhen` | GameConn/ConnectionNode.cpp:488-524 | a node fails exactly when some connect request was malformed |
| `LiveLinks.LinkLivesExactlyWhen` | GameConn/ConnectionNode.cpp:481-496 | over any run of packets, connects, updates, disconnects and sweeps, the link of a live connection is in place and outlives the next sweep exactly when the connection was made on an unmarked link and its endpoint sent no connect request since |
| `LiveLinks.AskingTwiceLosesLink` | GameConn/ConnectionNode.cpp:491-496 | a second connect request is enough to have the link of an established connection marked, blocked and deleted |
| `LiveLinks.MarkedExactlyWhen` | GameConn/ConnectionNode.cpp:481-516 | a link is marked for deletion exactly when a request over it is turned down, another packet comes over it while its endpoint has no connection, or the connection made with it lets go of it; a malformed request does not mark it |
| `ConnectionNode.AcceptedMeansPassword` | GameConn/ConnectionNode.cpp:497-510 | whoever is accepted sent the password, and it ended there unless it fills the receive buffer |
| `LinkRegistry.Registry.AddLink` | GameConn/RecvNode.cpp:435-455 | a fresh, unpinned link goes under its endpoint and to the end of the list; an endpoint that has one gets none and nothing changes |
| `LinkRegistry.Registry.GetLinkAndPinIt` | GameConn/RecvNode.cpp:158-169 | pins the endpoint's link and no other |
| `LinkRegistry.Registry.GetLinkAt` | GameConn/RecvNode.cpp:146-156 | pins the link at an index and no other |
| `LinkRegistry.Registry.UnpinLink` | GameConn/RecvNode.cpp:171-177 | counts one pin less on that link |
| `LinkRegistry.Registry.GetLink` | GameConn/RecvNode.cpp:424-433 | finds the endpoint's link, unless it is marked for deletion and such are not wanted |
| `LinkRegistry.Registry.UpdatePendingDeletes` | GameConn/RecvNode.cpp:387-422 | a link stays in list and map exactly if the list is pinned, or the link is pinned, unmarked or not marked long enough; those that stay keep their order |
| `LinkRegistry.EraseOverdue` | GameConn/RecvNode.cpp:396-421 | the erase-while-walking loop leaves in list and map exactly the links that are pinned, unmarked or not marked long enough, each once, under its own endpoint |
| `LinkRegistry.SurvivorsAre` | GameConn/RecvNode.cpp:400-421 | a link survives exactly if it is pinned, not marked, or not marked long enough |
| `LinkRegistry.EraseKeeps` | GameConn/RecvNode.cpp:411-415 | erasing one link from both keeps them in agreement and loses no other link |
| `LinkRegistry.MarkedIs` | GameConn/RUDPLink.cpp:256-262 | marking a link from outside changes that link alone |
| `LinkLife.StaysExactlyWhen` | GameConn/RecvNode.cpp:387-422 | over any interleaving of adds, pins, unpins, marks and sweeps, told by the calls alone: a link that was added is in list and map ever since, under the id it was added with, exactly when every sweep found the pins and unpins of the list, or of the link since it was added, not balanced modulo 2^32, or the link unmarked since then, or its time not up |
| `LinkLife.RunSame` | GameConn/RecvNode.cpp:387-455 | list and map name the same endpoints, each once, at any time |

## Left out

- Sockets, threads, locks and clocks: the network is a set, threads are interleaved steps, and every timeout is an event that may or may not happen.
- Datagrams shorter than the header their type needs are dropped in the model, where the source reads past their end; channels on the wire are 0 to 7.
- Wire.AcksRoundTrip: the source multiplies the announced number of acks by four in 32 bits; the model does not wrap that product.
- Reassembly.TryReassembleBigPacket: buffers with all 2^32 numbers are excluded; the source would walk them forever.
- OrderedDelivery.NothingIsLost: besides the backlog bound it assumes `RoomyRun`, because after 2^32 numbers a left-over buffer entry can meet its own number again, as `LeftoverMixesBytes` shows.
- OrderedDelivery.TicketTellsTruth: admits the moment in which the receive thread holds an acked fragment, as `TicketCanBeEarly` shows it must.
- LinkSystem.RunProjects: a receive is one step there; the interleaving of receive and poll is in the single-channel model.
- UnreliableDelivery.DeliveredExactlyWhen: it is said of the channel's own runs inside the window; outside it late copies do what `LateCopyDeliveredExactlyWhen` says.
- LinkLife.StaysExactlyWhen: the link objects are values by endpoint there, and a call that unpins a link no longer in the list has no event; each method of `Registry` is tied to its event.
- LinkUnreliable.LinkDeliversChosen: the window is that of the channel's own run, which `RunFollows` gives.
- NetworkIds.VariableGroupNode.Update: sending the changed variables of groups is not part of it; the datagram it leads to is `GroupUpdate`.
- MixedBytes.BytesAreOwnExactlyWhen: packets of 2^32 fragments and more are left out; the length of a payload is a 32-bit number in the source.
- Link.RUDPLink.RecvData: the link id check of the receive thread is not part of it; acks of updates are modelled apart from the link, in `UpdateAcks`.
- Queues and maps are Dafny values held in fields, so aliasing of the packet buffers and freeing of memory are not captured; groups inside their tables are values, too.
- The dispatch of updates: the send thread never calls it (GameConn/RecvNode.cpp:377-383).
- LiveLinks.LinkLivesExactlyWhen: links and connections are values with identities there; the objects are in `ConnectionNode` and `LinkRegistry`.
- GroupReader.UpdateRoundTrip: the callbacks on changed variables are not modelled, and a read past the end of a datagram is an outcome of its own with no further meaning.
- IdSystem.IdsAreConserved: assumes one provider, packs that come in at most once, and no reset; the request itself carries no data.
- NetworkIds.VariableGroupNode.ResolvePendingGroups: a pending group is taken by value, where the source uses a reference after removing the element.
- Members the constructors leave unset (the unreliable receive numbers, pin counts, the provider flag) start as zero and false.
- ConnectPayload.ReadString: null buffers are not modelled.
- Connection.LifeIsSafe: callbacks do not call back into the connection; that the link it refers to still exists is `LiveLinks.LinkLivesExactlyWhen`.
- ConnectionNode.NoneDroppedUnreported: relaying of connects and disconnects to other connections is not modelled, nor are remote connections.
- LinkRegistry.Registry.UnpinLink: that unpins are paired with pins is the caller's part; the count wraps as in the source.
- BinSerializer and everything built on it: creation messages for groups, the server's forwarding of them, RPC, sync groups.
- MasterServer, name resolution, endpoint comparison, endianness helpers, logging, chat and tests: no part of this model.
