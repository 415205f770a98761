# A Dafny model of nstack

nstack is a userspace TCP/IP stack. This project models the parts of it that keep state or do
arithmetic, and proves what they are meant to do for every input, every run or every reachable state:

- **Balanced trees** (`src/tree.h`): red-black trees on nodes linked to their children and their parent, and
  top-down splay trees with the amortised bound of the Balance Theorem. The links are heap objects; the proofs read them through a snapshot of the link fields and
  a zipper (a subtree in its context). The comparator is any strict total order on the stored keys; `RouteOrder`
  says when a client's comparator is one.
- **IP fragmentation and reassembly** (`src/ip.c`, `src/ip_fragment.c`): the fragmenter that slices a payload in
  place, the buffer with its block bitmap, and the table of four buffers over whole runs.
- **TCP** (`src/tcp.c`): the connection state machine, the in-order delivery it gives and what two ends make of each
  other's answers, the segment queues on the
  tail-queue links of `src/collection.h`, the round-trip estimator, the option walk, and the header on the wire.
- **Checksums and CRC**: the three forms of the Internet checksum (RFC 1071) and the frame check sequence of
  IEEE 802.3, computed from a nibble table and specified by a one-bit shift register.
- **Queues and tables**: the single-producer single-consumer ring under every interleaving of its loads and stores,
  the deferred-send queue, and the routing table.

Code that changes things in place is modelled by classes, arrays and loops whose contracts tie the new state to a
function of the old one; the laws are lemmas about those functions. The ring is a state machine whose steps are the
single loads and stores. A little-endian host is assumed where memory layout matters. Answers of the environment
(`ether_send`, `ip_send`, random numbers, the sockets bound to a port, the passing of time) are parameters.

## Where the code does less than one might expect

These are properties one would expect that the code does not have; with each are the members that give inputs for
which it fails and that say exactly when it holds.

- **Reassembly with leftovers.** `fragmap_init` clears 256 bytes, which is 2048 of the 8192 block flags. A buffer used
  before can therefore report a datagram complete although a piece is missing. Reassembly is right for every earlier
  use of the buffer if and only if every piece but the last starts below byte 16384
  (`Reassembly.LeftoversMislead`, `Reassembly.ReassemblesExactly`); with a 20-byte header that means at most 19136
  bytes of payload (`Reassembly.ClearableDefault`). Such leftovers come about: for every longer datagram there is a run
  from the start that hands up something else under its key, and for every other one there is none
  (`FragmentRuns.MisuseMisleads`, `FragmentRuns.TrustedExactly`).
- **Completeness of reassembly.** A first fragment forgets the length that a last one brought, so a datagram all of
  which arrives in time need not be handed up. It is if and only if at some moment all pieces have arrived and a last
  one since the latest first one (`FragmentRuns.LastThenFirst`, `FragmentRuns.HandedUpExactly`).
- **Default gateway.** The comment in `ip_route_find_by_network` puts the default gateway last. An entry for network
  0 with mask 0 also matches in the loop before that, and wins over another match if and only if all other matches
  have networks below 128.0.0.0 (`RouteTable.DefaultBeatsNetwork`, `RouteTable.DefaultShadows`).
- **Subtracting comparators.** They order a set of addresses if and only if it fits on half of the circle of 2^32
  addresses (`RouteOrder.ThirdsCycle`, `RouteOrder.OrderExactly`). The trees of the routing table keep to such a half.
- **Longest prefix.** The walk over the networks finds the match with the shortest prefix. It is the longest one if and
  only if nothing else matches (`RoutePrefix.ShorterPrefixWins`, `RoutePrefix.LongestExactly`).
- **Routing table.** Two routes on one interface make the interface tree refuse the second one; both trees hold the same
  entries if and only if interfaces are distinct (`RouteTable.LinkOk`, `RouteTable.Table.Update`). A new network on an
  empty free list makes the allocation follow a null pointer instead of answering ENOMEM.
- **Refused connections.** A port that is not bound answers a SYN with RST and ACK, and the client takes any ACK for
  success: it is established whatever the answer, its peer goes on if and only if the port is bound
  (`TcpTalk.RefusedEstablishes`).
- **Start of the stream.** After an active open any segment with ACK establishes the connection. Delivery starts at
  the first byte of the peer's stream if and only if the segment that did was the one with the SYN's number
  (`TcpFsm.StrayAckEstablishes`, `TcpFsm.ActiveOrigin`). The branch for a simultaneous open is never reached
  (`TcpFsm.ReachableStates`). After a passive open every segment that comes before the peer's acknowledgement, such as a
  repeated SYN, changes both numbers that it has to match; it establishes the connection if and only if there was none, or
  a multiple of 2^32 and the last had the right number (`TcpFsm.RepeatedSyn`, `TcpFsm.PassiveExactly`).
- **End of the stream.** Any FIN that is not on data in sequence closes the connection, also one that has overtaken data.
  What has been delivered then, and ever after, is everything before the FIN if and only if the connection stood there
  when it came (`TcpFsm.FinOvertakes`, `TcpFsm.FinExactly`).
- **Send window.** An acknowledgement that catches up with send_max leaves send_next where an earlier partial one had
  put it, behind send_una, and data segments are then refused; one of numbers never sent is taken. The order of the
  numbers is kept if and only if the acknowledgement is of nothing new, of a part of what is outstanding, or of all of it
  with send_next not set back (`TcpWindow.SecondAckOvertakes`, `TcpWindow.WindowKeptExactly`,
  `TcpFsm.OvertakenRefuses`).
- **Acknowledgements across the wrap-around.** They are compared as plain numbers. An acknowledgement of the next n
  numbers counts if and only if these do not wrap around (`TcpWindow.AckAcrossWrap`, `TcpWindow.TakenExactly`), so that
  send_una is always the greatest number acknowledged so far (`TcpWindow.GreatestCounts`).
- **Option walk.** It need not end. It does if and only if no option that it comes to, up to the end of the area or an
  end-of-options byte, has an unknown kind or a length of zero or reaches out of memory (`TcpOptions.ExperimentHangs`,
  `TcpOptions.EndsExactly`).
- **Fragments that do not fit.** The check for the offset of a fragment never fails, and nothing compares the length of
  the header with that of the packet. The fragment is stored inside the buffer if and only if the header is no longer
  than the packet and the offset and the length of the data add up to at most 65535
  (`PacketBuffer.LastOffsetOverruns`, `PacketBuffer.LongHeaderOverruns`, `PacketBuffer.InsideExactly`).
- **Release of segments.** The header kept with a segment has sequence number 0, so any acknowledgement that moves
  on releases every waiting segment. A release leaves exactly the segments that the acknowledgement does not cover if
  and only if none waits, or it moves on and covers all, or it does not move on and covers none
  (`TcpQueues.FirstAckReleasesBoth`, `TcpQueues.ReleaseExactly`).
- **Deferred packets.** While the handler runs, `ip_defer_push` answers -EALREADY and `ip_send` turns that into
  success, so a packet whose address is still unresolved leaves the queue (`DeferQueue.UnresolvedIsLost`). The handler
  keeps a packet if and only if there is no route, or it is fragmented and the device answers EHOSTUNREACH
  (`DeferQueue.StaysExactly`).
- **Packets between two limits.** `ip_send` cuts packets of more than 1500 bytes without their header, `ether_send` refuses
  those of more than 1500 bytes with it. A packet is neither cut nor sent, whatever the device would answer, if and only
  if it has 1481 to 1500 bytes (`DeferQueue.UnsentIsLost`, `DeferQueue.UnsentExactly`).
- **Failed sends.** A failing `ip_send` makes `tcp_send_segments` lose a segment and keep the mutex
  (`TcpQueues.Queues.SendSegments`).
- **SPLAY_REMOVE** answers its argument. That is the node it took out if and only if the argument was itself in the tree
  (`SplayTree.Head.RemoveByCopy`, `SplayTree.Head.Remove`).

## Model

| member | source | states |
|---|---|---|
| `RbTree.Head.constructor` | src/tree.h:306-309 | an empty head is a valid tree |
| `RbTree.Head.RotateLeft` | src/tree.h:347-366 | the exact link fields a left rotation changes, in the node, its child, the inner grandchild and the parent or head |
| `RbTree.Head.RotateRight` | src/tree.h:368-387 | the mirror image |
| `RbTree.Head.Rotate` | src/tree.h:347-387 | a rotation at any place of the tree keeps the in-order sequence, the parent links and everything outside the rotated subtree |
| `RbTree.Head.InsertFixLeft` | src/tree.h:415-437 | one round of the insertion fix-up below a left parent either finishes or moves the red-red edge two levels up, with black heights and order kept |
| `RbTree.Head.InsertFixRight` | src/tree.h:438-453 | the mirror image |
| `RbTree.Head.InsertColor` | src/tree.h:415-456 | the fix-up terminates, never meets a NULL grandparent, and turns a tree with one red-red edge into a red-black tree with the same in-order sequence |
| `RbTree.Head.Insert` | src/tree.h:601-628 | either an equal node is in the tree, is returned, and nothing at all changes; or none is, and exactly the new node is added to the ordered sequence, with parent links, equal black heights and no red-red edge |
| `RbTree.Head.RemoveFixLeft` | src/tree.h:458-494 | one round of the removal fix-up on the left: the sibling is never NULL, and the missing black either is found or moves up |
| `RbTree.Head.RemoveFixRight` | src/tree.h:495-526 | the mirror image |
| `RbTree.Head.RemoveColor` | src/tree.h:458-532 | the recolouring loop terminates and turns a tree that lacks one black on one path into a red-black tree with the same in-order sequence |
| `RbTree.Head.RemoveThin` | src/tree.h:534-550 | cutting out a node with at most one child |
| `RbTree.Head.RemoveFat` | src/tree.h:534-598 | cutting out a node with two children by putting its successor in its place, links, colour and all |
| `RbTree.Head.Remove` | src/tree.h:534-598 | exactly the given node leaves the ordered sequence, and search order, parent links, equal black heights and the absence of red-red edges are kept |
| `RbTree.Head.Find` | src/tree.h:631-645 | agrees with a scan of all nodes: the node with the key, or NULL exactly when there is none, even for a key the comparator does not order with the stored ones |
| `RbTree.Head.NFind` | src/tree.h:648-664 | the first node in order that does not come before the key, or NULL when all do |
| `RbTree.Head.Next` | src/tree.h:667-685 | the node right after the given one in order, NULL after the last |
| `RbTree.Head.MinMax` | src/tree.h:708-720 | the first or the last node in order |
| `RbTree.Head.ForEach` | src/tree.h:734-735 | climbing by parent links visits every node exactly once in strictly increasing order and ends |
| `RbBalance.InsRecolour` | src/tree.h:422-428 | with a red uncle, recolouring moves the red-red edge to the grandparent and keeps the black heights |
| `RbBalance.InsOuter` | src/tree.h:435-436 | with a black uncle, recolouring and rotating at the grandparent leaves a red-black tree |
| `RbBalance.RemSibling` | src/tree.h:464-466 | where a black is missing the sibling cannot be NULL |
| `RbBalance.RemRecolour` | src/tree.h:471-477 | with black nephews, recolouring the sibling moves the missing black to the parent |
| `RbBalance.RemFarRed` | src/tree.h:488-494 | with a red far nephew, one rotation supplies the missing black |
| `RbBalance.HeightBound` | src/tree.h:46-54 | a red-black tree with n nodes has height at most 2 lg (n+1) |
| `RbTree.Head.HeightInNodes` | src/tree.h:46-54 | every tree in memory that the code keeps valid has height at most 2 lg(n+1) in the number n of its nodes |
| `RbShape.RotateElems` | src/tree.h:347-387 | rotating keeps the in-order sequence and the set of nodes |
| `RbShape.RotateRep` | src/tree.h:347-387 | the link fields after a rotation spell out the rotated tree in its unchanged context |
| `SplayTree.Head.RotateRightAt` | src/tree.h:84-89 | a right rotation in the middle of a splay keeps the whole in-order sequence |
| `SplayTree.Head.RotateLeftAt` | src/tree.h:91-96 | a left rotation in the middle of a splay keeps the whole in-order sequence |
| `SplayTree.Head.LinkLeftAt` | src/tree.h:98-103 | the root joins the upper spine and the whole in-order sequence stays |
| `SplayTree.Head.LinkRightAt` | src/tree.h:105-110 | the root joins the lower spine and the whole in-order sequence stays |
| `SplayTree.Head.Assemble` | src/tree.h:112-118 | lower spine, root and upper spine become one tree with the same in-order sequence |
| `SplayTree.Head.SplayAt` | src/tree.h:209-241 | the splay terminates, keeps the in-order sequence, all nodes before the new root have smaller keys and all after it greater ones, and the tree and the rounds of the loop are those of the function that the bound is about |
| `SplayTree.Head.Splay` | src/tree.h:209-241 | the root is the node with the key, or a neighbour of it |
| `SplayTree.Head.RootDecides` | src/tree.h:129-138 | after a splay, if the root does not have the key then no node has |
| `SplayTree.Head.Find` | src/tree.h:129-138 | the node with the key, or NULL exactly when there is none; only the shape changes, in as many rounds as the bound counts |
| `SplayTree.Head.Insert` | src/tree.h:165-187 | an equal node is returned and the sequence stays, or none was there and exactly the new node is added and is the root; shape and rounds are those the bound counts |
| `SplayTree.Head.Remove` | src/tree.h:189-207 | exactly the node with the key leaves the sequence, or nothing does when there is none; the answer is the argument, which is the node that left if and only if it was in the tree; shape and rounds are those the bound counts |
| `SplayTree.Head.RemoveByCopy` | src/tree.h:189-207 | a call with a node that is not in the tree but has the key of one: that one leaves and the other is answered |
| `SplayTree.Head.SplayLeft` | src/tree.h:199-202 | splaying the left subtree for a greater key leaves its root without a right child, so no node is lost |
| `SplayTree.Head.MinMax` | src/tree.h:246-277 | the least or the greatest node comes to the root and the sequence stays, in as many rounds as the bound counts |
| `SplayTree.Head.Next` | src/tree.h:140-152 | the node right after the given one in order |
| `SplayTree.Head.ForEach` | src/tree.h:291-293 | the loop visits every node once in order, although each step reshapes the tree |
| `SplayCost.AccessBound` | src/tree.h:42-44 | the access lemma for the top-down splay: its rounds plus twice the change of the potential, which is the sum of the whole logarithms of all subtree sizes, are at most 5 lg n + 1 |
| `SplayCost.OpBound` | src/tree.h:42-44 | every find, insert, removal and search for an extreme takes at most 8 lg n + 2 rounds that the potential does not pay for |
| `SplayCost.Balance` | src/tree.h:42-44 | the Balance Theorem: from the empty tree any m operations with n inserts among them take at most m (8 lg n + 2) rounds |
| `SplayShape.RotateSplit` | src/tree.h:84-96 | the link fields after a rotation spell out the rotated tree, spines untouched |
| `SplayShape.LinkSplit` | src/tree.h:98-110 | the link fields after a link step spell out the shortened tree and the longer spine |
| `SplayShape.AssembleSpells` | src/tree.h:112-118 | the link fields after the four assembling writes spell out one tree |
| `Fragment.CutTiles` | src/ip.c:225-269 | the pieces partition the payload: they follow on each other from 0, all but the last are full multiples of 8 with MF, and the last ends the payload without MF |
| `Fragment.MaxFragExactly` | src/ip.c:220-233 | the size of all pieces but the last is the one multiple of 8 that leaves 1 to 8 bytes of 1500 unused |
| `Fragment.SendOne` | src/ip.c:253-262 | one staged frame carries a checksummed header and exactly the original bytes of its piece, although earlier rounds overwrote the front of the buffer |
| `Fragment.SendNext` | src/ip.c:252-266 | a round cuts off the next piece, sends it, and leaves the later pieces intact |
| `Fragment.SendFragments` | src/ip.c:235-269 | the frames sent are those of the pieces in order, up to the first failure of `ether_send`, and the result is the sum of the answers or the failure; the loop terminates |
| `PacketBuffer.SetTst` | src/ip_fragment.c:74-87 | setting one block flag sets that flag and no other, through word index and bit position |
| `PacketBuffer.PacketBuf.Init` | src/ip_fragment.c:69-72 | the first 2048 flags are cleared and no others |
| `PacketBuffer.PacketBuf.SetBlocks` | src/ip_fragment.c:156-160 | exactly the flags of the fragment's blocks are set |
| `PacketBuffer.PacketBuf.AllSet` | src/ip_fragment.c:170-175 | true exactly when the first n flags are set |
| `PacketBuffer.PacketBuf.Input` | src/ip_fragment.c:155-176 | for every header: the words, bytes and length change as `Receive` says, and the answer is the completion test; there is none exactly when the writes do not stay inside |
| `PacketBuffer.InsideExactly` | src/ip_fragment.c:143-160 | for every header, with the length computed as the code does in size_t: the check of the offset refuses nothing, and the bytes and flags that are written stay in their arrays exactly when the header is no longer than the packet and offset plus length is at most 65535 |
| `PacketBuffer.LastOffsetOverruns` | src/ip_fragment.c:143-160 | a fragment of 1472 bytes at offset 65528 passes the check and does not stay inside |
| `PacketBuffer.LongHeaderOverruns` | src/ip.c:130-145 | a frame of 46 bytes whose header claims 60 passes every check and does not stay inside |
| `Reassembly.Completion` | src/ip_fragment.c:155-176 | for any order and repetition of arrivals and any leftovers, the test succeeds exactly when every piece has arrived and a final one since the latest first one, and the payload is then the original |
| `Reassembly.LeftoversMislead` | src/ip_fragment.c:69-72 | a middle piece at byte 16384 or beyond can be missed: a run and leftovers for which the test succeeds with a wrong byte |
| `Reassembly.ReassemblesExactly` | src/ip_fragment.c:69-72 | reassembly is right for all leftovers and runs if and only if every piece but the last starts below byte 16384 |
| `Reassembly.ClearableLength` | src/ip_fragment.c:69-72 | which payload lengths that is, for any fragment size |
| `Reassembly.ClearableDefault` | src/ip.c:225-233 | with a 20-byte header it is every length up to 19136 bytes |
| `Reassembly.FrameArrives` | src/ip_fragment.c:140-168 | a frame of the fragmenter parses to its piece and is stored as that piece |
| `Reassembly.EndToEnd` | src/ip.c:235-269 | fragmenting, delivering the frames in any order with repetition, and reassembling is the identity, and the test fires exactly when everything has arrived |
| `FragmentTable.GetBuffer` | src/ip_fragment.c:95-138 | the buffer held under the key as it is, or else, when none is, the first free one with its flags cleared and a new timer, or none |
| `FragmentTable.TurnedAway` | src/ip_fragment.c:114-138 | a fragment is turned away exactly when all four buffers are held by other datagrams |
| `FragmentTable.StepInv` | src/ip_fragment.c:140-218 | every frame and every tick keeps distinct keys and keeps in each reserved buffer only arrivals of its own datagram |
| `FragmentTable.StartInv` | src/ip_fragment.c:27-38 | the initial table satisfies that invariant |
| `FragmentTable.HandedUpAsSent` | src/ip_fragment.c:89-218 | over every run with any interleaving of datagrams, loss, repetition, reordering, time-outs and reuse of buffers, what is handed up under the key of a datagram short enough for the cleared flags is that datagram |
| `FragmentTable.HandedUpFrees` | src/ip_fragment.c:177-191 | no buffer is held under the key of a datagram that has been handed up |
| `FragmentRuns.HandedUpExactly` | src/ip_fragment.c:140-218 | a datagram whose first frame finds a free buffer is handed up before its timer runs out, whatever else arrives, exactly when at some moment all of its pieces have arrived and a last one since the latest first one |
| `FragmentRuns.DoneAtSome` | src/ip_fragment.c:162-176 | what some moment means: after the first n events, for some n |
| `FragmentRuns.LastThenFirst` | src/ip_fragment.c:162-168 | the two frames of a datagram in the wrong order: all has arrived and nothing is handed up |
| `FragmentRuns.MisuseMisleads` | src/ip_fragment.c:69-72 | for every datagram that is too long, a run from the initial table, with a frame of another datagram, a time-out and reuse of the buffer, that hands up a wrong datagram under its key |
| `FragmentRuns.TrustedExactly` | src/ip_fragment.c:89-218 | over all runs from the initial table a datagram is always handed up as it was sent, if at all, exactly when it is short enough for the cleared flags |
| `FragmentIndex.MemcmpIsNumeric` | src/ip_fragment.c:40-65 | memcmp orders byte strings of one length as the numbers they spell, and is 0 for equal ones only |
| `FragmentIndex.Comparator` | src/ip_fragment.c:40-65 | `packet_buf_cmp` is a strict total order on identifiers, that of their numbers, and 0 for the same identifier only |
| `FragmentBuffers.Buffers.constructor` | src/ip_fragment.c:30-33 | the initial buffers and the empty tree agree |
| `FragmentBuffers.MakeBuffers` | src/ip_fragment.c:30-67 | with the order of memcmp on the identifiers the buffers start out valid |
| `FragmentBuffers.Buffers.Find` | src/ip_fragment.c:109-111 | the search down the red-black tree finds the buffer reserved under the key exactly when there is one |
| `FragmentBuffers.Buffers.Get` | src/ip_fragment.c:95-138 | the array of buffers changes as `GetBuffer` says, and the tree has exactly the reserved ones |
| `FragmentBuffers.Buffers.Release` | src/ip_fragment.c:89-93 | a buffer leaves the tree and is free, and the others stay |
| `FragmentBuffers.Buffers.Receive` | src/ip_fragment.c:140-191 | the array and the datagrams handed up are those of the step function; there is no answer exactly when a buffer is found and the data do not fit it |
| `FragmentBuffers.Buffers.Timer` | src/ip_fragment.c:205-218 | every reserved buffer ages, and those whose time is up are released |
| `IpHeader.Hton` | src/ip.c:64-81 | in place: the wire form of the header with its checksum over header and options, the rest untouched |
| `IpHeader.WireVerifies` | src/ip.c:64-81 | every header written re-checksums to 0 |
| `IpHeader.RoundTrip` | src/ip.c:64-97 | `ip_ntoh` gives back the header `ip_hton` was given |
| `IpHeader.OnWire` | src/ip.c:64-81 | every field is where section 3.1 of RFC 791 has it, and the header length is that of the first byte |
| `Checksum.AddBuffer` | src/ip.c:39-62 | the eager sum stays in 1..0xffff and is the representative of the word sum modulo 0xffff |
| `Checksum.IpChecksum` | src/ip.c:39-62 | the Internet checksum of the buffer |
| `Checksum.TcpChecksum` | src/tcp.c:167-213 | equals the Internet checksum of pseudo-header and segment put together, and in plain numbers the complement of the one's-complement sum of the words of both addresses, 6, the length and the segment |
| `Checksum.TcpOfZeros` | src/tcp.c:167-213 | the checksum of 20 zero bytes between addresses 0 |
| `Checksum.AddLazily` | src/udp.c:136-158 | the lazily folded 32-bit sum never wraps and keeps the word sum modulo 0xffff |
| `Checksum.FoldAll` | src/udp.c:165-171 | the fold loop terminates with the one's-complement sum |
| `Checksum.UdpChecksum` | src/udp.c:136-174 | equals the eager checksum of datagram and pseudo-header, for every length, and what that is in plain numbers |
| `Checksum.StoredChecksumVerifies` | src/ip.c:79-80 | data with its checksum stored in a zeroed word sums to zero |
| `Checksum.OnlyChecksumVerifies` | src/ip.c:79-80 | no other stored value does, except all ones where the checksum is zero |
| `Checksum.OddTailIsPadding` | src/ip.c:54-59 | an odd last byte counts as padded with zero |
| `Checksum.ByteOrder` | src/ip.c:39-62 | swapping the bytes of all words swaps the checksum's bytes (section 2(B) of RFC 1071) |
| `EtherFcs.NibbleIsRegister` | src/ether_fcs.c:7-15 | one table step is four steps of the reflected shift register with polynomial 0xEDB88320, complemented |
| `EtherFcs.Fcs` | src/ether_fcs.c:4-19 | equals the bit-at-a-time CRC-32 with all-ones start and final complement, on every byte string |
| `EtherFcs.FrameResidue` | src/linux/ether.c:262-263 | running the check over any data and the sequence stored behind it gives 0x2144DF1C |
| `EtherFcs.RegisterInjective` | src/ether_fcs.c:13-16 | different registers stay different under the same input |
| `EtherFcs.BurstDetected` | src/ether_fcs.c:4-19 | two streams that differ only within 32 consecutive bits have different check sequences |
| `TcpFsm.Tcb.constructor` | src/tcp.c:535-536 | a new connection listens with empty lists and nothing delivered |
| `TcpFsm.Tcb.InSynSent` | src/tcp.c:330-358 | the step of SYN_SENT, and the whole header of its answer exactly when there is one |
| `TcpFsm.Tcb.InListen` | src/tcp.c:359-397 | the step of LISTEN, and the whole header of its answer exactly when there is one |
| `TcpFsm.Tcb.InSynRcvd` | src/tcp.c:398-417 | the step of SYN_RCVD, and the whole header of its answer exactly when there is one |
| `TcpFsm.Tcb.InEstablished` | src/tcp.c:418-459 | the step of ESTABLISHED with the segments it releases, and the whole header of its answer exactly when there is one; not defined exactly when a segment shorter than its header is taken as data |
| `TcpFsm.Tcb.Fsm` | src/tcp.c:318-483 | the whole step on the connection and its segment lists, its answer, and that the result is negative exactly in TIME_WAIT |
| `TcpFsm.Tcb.Input` | src/tcp.c:489-547 | the step and the answer on every segment, also on one shorter than its own header unless that is taken as data; segments of less than 20 bytes answer -EBADMSG, SYN on an established connection and bad header sizes answer -EINVAL, all without effect, and nothing else but TIME_WAIT gives a negative answer |
| `TcpTalk.AnsweredExactly` | src/tcp.c:318-483 | exactly which segments are answered: in LISTEN those with SYN, in SYN_SENT those with SYN or ACK, in SYN_RCVD all that do not end it, in ESTABLISHED data in sequence and FIN |
| `TcpTalk.AnswerNumbers` | src/tcp.c:330-459 | the answer acknowledges what is expected next; its own number is send_next, or the one send_next has moved on from |
| `TcpTalk.AnswerFlags` | src/tcp.c:330-459 | ACK on every answer but in SYN_RCVD, SYN for a bound port, RST for another, no PSH on the answer to data |
| `TcpTalk.Handshake` | src/tcp.c:330-410 | two ends: the answer of LISTEN to a SYN establishes the client, the client's answer to that establishes the server, and then each expects what the other sends next |
| `TcpTalk.RefusedEstablishes` | src/tcp.c:330-397 | the answer of a port that is not bound has RST, and establishes the client all the same |
| `TcpTalk.Passed` | src/tcp.c:418-449 | data that an end in step sends is delivered whole, and the answer acknowledges all of it |
| `TcpTalk.Acknowledged` | src/tcp.c:646-670 | that answer makes the sender stop its timer and keeps both in step |
| `TcpTalk.AllArrives` | src/tcp.c:418-449 | any data sent in order are all delivered in order |
| `TcpTalk.Closes` | src/tcp.c:449-475 | a FIN behind the last byte is acknowledged and takes the connection to LAST_ACK, the acknowledgement of the answer to CLOSED |
| `TcpTalk.WholeLife` | src/tcp.c:318-483 | handshake, any data, FIN and acknowledgement take a passively opened connection from LISTEN to CLOSED with exactly the data delivered |
| `TcpTalk.ClosedExactly` | src/tcp.c:466-473 | in LAST_ACK exactly an acknowledgement closes |
| `TcpTalk.ResetExactly` | src/tcp.c:400-404 | in SYN_RCVD exactly a RST with both numbers right makes it listen again |
| `TcpTalk.DroppedExactly` | src/tcp.c:518-524 | exactly which segments are refused before the state machine, and that they change nothing |
| `TcpTalk.OpeningTimers` | src/tcp.c:330-410 | becoming established stops the timer of the opening; after an active open it takes over the window and starts the one that sends |
| `TcpTalk.AckTimer` | src/tcp.c:660-665 | an acknowledgement that moves on stops the retransmission timer exactly if it covers all that was sent, and otherwise sets it to the estimate |
| `TcpTalk.SampledOnce` | src/tcp.c:323-325 | over any segments a measured round trip goes into the estimate once, with the first that acknowledges the timed byte |
| `TcpFsm.InOrderDelivery` | src/tcp.c:330-459 | over every run with loss, repetition and reordering, the bytes given to the socket are a gap-free, repeat-free stretch of the peer's stream from the position at establishment, and while ESTABLISHED recv_next is its end modulo 2^32 |
| `TcpFsm.AcceptedExactly` | src/tcp.c:418-449 | a segment's data is delivered, whole, exactly when it is the next in order and acknowledges what was sent |
| `TcpFsm.FinExactly` | src/tcp.c:449-458 | which segments close an established connection, and that what is delivered then and ever after is everything before the FIN exactly when the connection stood there |
| `TcpFsm.FinOvertakes` | src/tcp.c:449-458 | a FIN that comes before the n bytes in front of it closes, and they are never delivered |
| `TcpFsm.ReachableStates` | src/tcp.c:318-483 | from each state the ones a run can reach: no opening again, no FIN_WAIT, CLOSE_WAIT, CLOSING or TIME_WAIT, no SYN_RCVD after an active open |
| `TcpFsm.StrayAckEstablishes` | src/tcp.c:330-346 | a segment with only ACK establishes an active open, so that bytes before it are never delivered |
| `TcpFsm.ActiveOrigin` | src/tcp.c:330-346 | after an active open all that is ever delivered is the stretch of the stream right behind the establishing segment; it starts at the first byte exactly when that segment has the SYN's number |
| `TcpFsm.PassiveExactly` | src/tcp.c:359-417 | after a passive open the peer's acknowledgement establishes the connection exactly when no segment came in between, or a multiple of 2^32 of them the last of which had the first byte's number; and where delivery then starts |
| `TcpFsm.StraysMove` | src/tcp.c:398-417 | what any number of segments taken in SYN_RCVD do to recv_next and send_next |
| `TcpFsm.RepeatedSyn` | src/tcp.c:398-417 | a SYN that comes twice keeps the peer's acknowledgement from establishing the connection |
| `TcpWindow.WindowKeptExactly` | src/tcp.c:649-665 | every acknowledgement keeps send_una <= send_next <= send_max exactly when it is of nothing new, of a part of what is outstanding, or of all of it with send_next not set back |
| `TcpWindow.SecondAckOvertakes` | src/tcp.c:649-665 | a partial acknowledgement followed by a full one leaves send_next behind send_una |
| `TcpWindow.TakenExactly` | src/tcp.c:649-650 | an acknowledgement of the next n numbers counts exactly when they do not wrap around; otherwise nothing changes |
| `TcpWindow.GreatestCounts` | src/tcp.c:649-665 | after any acknowledgements send_una is the greatest plain number among them and its start |
| `TcpWindow.WrappedStalls` | src/tcp.c:649-665 | acknowledgements of numbers below send_una, such as all after the wrap-around, change nothing |
| `TcpWindow.AckAcrossWrap` | src/tcp.c:649-650 | 32 bytes across the wrap-around whose acknowledgement is not taken |
| `TcpFsm.OvertakenRefuses` | src/tcp.c:418-449 | data that acknowledges everything sent is then refused, and while ESTABLISHED the window does not move |
| `Tailq.SegmentList.InsertTail` | src/collection.h:642-651 | through the stored address of the last next pointer, the element is appended to the sequence, linked both ways |
| `Tailq.SegmentList.Remove` | src/collection.h:661-677 | exactly the given element leaves the sequence |
| `Tailq.SegmentList.Swap` | src/collection.h:679-695 | two lists exchange their sequences, heads and first elements re-aimed |
| `Tailq.SegmentList.constructor` | src/collection.h:568-573 | an empty list |
| `Tailq.AppendChain` | src/collection.h:642-651 | the links after an append spell out the longer sequence in both directions |
| `Tailq.CutChain` | src/collection.h:661-677 | the links after a removal spell out the shorter sequence in both directions |
| `TcpQueues.Queues.Submit` | src/tcp.c:701-709 | a new segment, whose header has sequence number 0 and keeps it, joins the end of what is pending |
| `TcpQueues.Queues.SendSegments` | src/tcp.c:614-644 | for any answers of `ip_send`: what goes out has adjacent sequence ranges; with no failure pending order is unchanged and all is sent; the first failure leaves its segment in neither list, the later ones unsent and the mutex locked |
| `TcpQueues.LostOne` | src/tcp.c:614-644 | the order of submission is kept by what is left after such a failure |
| `TcpQueues.Queues.AckSegments` | src/tcp.c:646-670 | which segments stay, in order, and the new send numbers and timer |
| `TcpQueues.KeptExactly` | src/tcp.c:652-657 | exactly the segments whose header has the acknowledged number or a later one stay |
| `TcpQueues.Queues.RexmtPrepare` | src/tcp.c:768-779 | everything pending becomes unsent again in the same order |
| `TcpQueues.Queues.RexmtCommit` | src/tcp.c:781-785 | everything unsent goes out in adjacent ranges up to the first failure, and the counter goes up |
| `TcpQueues.Queues.ReleaseKeepsOrder` | src/tcp.c:651-658 | what a release leaves, followed by the unsent, is still a subsequence of submission order |
| `TcpQueues.AnyAckReleasesAll` | src/tcp.c:652-657 | with the numbers the queued headers have, any acknowledgement that moves on releases all |
| `TcpQueues.ReleaseExactly` | src/tcp.c:649-657 | for segments sent in adjacent ranges, a release leaves exactly those that the acknowledgement does not cover if and only if none waits, or it moves on and reaches the end of the last, or it does not move on and ends inside the first |
| `TcpQueues.FirstAckReleasesBoth` | src/tcp.c:649-657 | two segments of 1000 bytes, of which the acknowledgement of the first releases both |
| `RttEstimator.Estimator.RtoUpdate` | src/tcp.c:746-766 | shifts and in-place updates compute the estimator step |
| `RttEstimator.FirstSample` | src/tcp.c:759-763 | the values after the first sample r: the estimate 8r, the deviation 2r, the timeout 3r |
| `RttEstimator.LaterSample` | src/tcp.c:749-763 | a later sample makes the estimate seven eighths of the old one and an eighth of the sample, the deviation three quarters of the old one and a quarter of how far the sample is off, up to the rounding of one division each |
| `RttEstimator.JumpRaises` | src/tcp.c:749-763 | a sample longer by d gives a timeout longer by d and an eighth of d, up to one tick |
| `RttEstimator.OneThenTen` | src/tcp.c:746-763 | samples 1 and 10 give deviation 10 and timeout 12 |
| `RttEstimator.RunBounded` | src/tcp.c:746-766 | over every run of samples in 1..R: 1 <= rtt_est <= 8R, 1 <= rtt_var <= 4R, 1 <= RTO <= 5R, and no clamp is ever taken |
| `RttEstimator.Approaches` | src/tcp.c:746-766 | a sample r moves rtt_est towards [8(r-1), 8r-1], never past it, and leaves it once there |
| `RttEstimator.TimeoutSettles` | src/tcp.h:144-153 | from any state it can be in, a steady sample r brings the timeout into [r, r+2] within 12R updates and keeps it there |
| `TcpOptions.TurnOptions` | src/tcp.c:215-247 | in place: for every area that the walk gets through, the memory becomes what the walk makes of it, and the loop terminates |
| `TcpOptions.WalkTurns` | src/tcp.c:215-281 | a well-formed area, wherever it lies in memory, is got through and becomes its turned form, with nothing changed around it |
| `TcpOptions.TurnedTwice` | src/tcp.c:215-281 | the two walks stop at the same places and undo each other |
| `TcpOptions.KindsUntouched` | src/tcp.c:215-281 | no kind or length byte the walk looks at is changed |
| `TcpOptions.TurnsNumbers` | src/tcp.c:227-243 | at every option the walk comes to, the segment size or both time stamps go from the number in host order to the same number in network order |
| `TcpOptions.TurnsNothingElse` | src/tcp.c:215-281 | any byte that differs afterwards lies in such a number |
| `TcpOptions.SegmentSizeTurned` | src/tcp.c:595-606 | the option of a SYN: a segment size of 1460 goes out as 05 B4 |
| `TcpOptions.EndsExactly` | src/tcp.c:217-246 | for every area of any length and any memory behind it: the walk ends if and only if no option it comes to has an unknown kind or a zero length or reaches out of memory, which as many rounds as the area has bytes decide; otherwise it stays where it is for ever |
| `TcpOptions.HeldForever` | src/tcp.c:217-246 | once the walk is held it is at the same option after any number of rounds |
| `TcpOptions.ExperimentHangs` | src/tcp.c:249-281 | a received area of four bytes with an option of kind 254 for which the walk does not end |
| `TcpHeader.Hton` | src/tcp.c:283-300 | in place: for every option area that the walk gets through, the header with the checksum over the segment in front of what the walk makes of the rest; with well-formed options that is the wire form of header, turned options and data |
| `TcpHeader.WireVerifies` | src/tcp.c:283-300 | every segment written sums to zero with its pseudo-header |
| `TcpHeader.RoundTrip` | src/tcp.c:302-313 | `tcp_ntoh` gives back the header `tcp_hton` was given |
| `TcpHeader.WireTail` | src/tcp.c:283-313 | options and data come back as well |
| `TcpHeader.OnWire` | src/tcp.c:283-300 | every field is where section 3.1 of RFC 793 has it, and the options that are turned end at the data offset |
| `RingQueue.AllocCheckInv` | include/queue_r.h:55-66 | with indices that may be out of date, allocation refuses exactly when the queue is full at the moment of the check |
| `RingQueue.PutByteInv` | include/queue_r.h:55-66 | writing into an allocated block disturbs no committed block |
| `RingQueue.CommitStoreInv` | include/queue_r.h:71-75 | a commit adds exactly the written block at the end |
| `RingQueue.PeekCheckInv` | include/queue_r.h:83-94 | a peek refuses exactly when the queue is empty at the moment of the check |
| `RingQueue.DiscardStoreInv` | include/queue_r.h:101-114 | a discard step removes exactly the oldest block |
| `RingQueue.DiscardsExactly` | include/queue_r.h:101-114 | a whole call for n blocks, with the producer at work in between: it takes n, or at least all that were there; with no producer at work the lesser of both |
| `RingQueue.ClearStoreInv` | include/queue_r.h:131-134 | a clear from the pop end drops exactly the blocks committed when it loaded the write index, a prefix |
| `RingQueue.RunInv` | include/queue_r.h:42-134 | the invariant holds after every interleaving of producer and consumer steps |
| `RingQueue.PoppedIsPrefix` | include/queue_r.h:55-114 | in every run blocks leave in the order they came, and what was read of a block is what was pushed |
| `RingQueue.Occupancy` | include/queue_r.h:55-66 | at most a_len - 1 blocks are ever held, one less than fit into the array |
| `RingQueue.SlotsFit` | include/queue_r.h:42-49 | a_len is as many blocks as fit into the array |
| `RingQueue.FillsUp` | include/queue_r.h:42-75 | in every array some run holds all the blocks that fit but one |
| `RingQueue.NeverReadWhileWritten` | include/queue_r.h:55-94 | no byte of the block being written is a byte of a committed block, so none that is being read |
| `RingQueue.EmptyAndFull` | include/queue_r.h:141-154 | `queue_is_empty` and `queue_is_full` with a load for each index, in either order, while the other side goes on in between: the answer is right at the moment the index of the other side was loaded |
| `RingQueue.AnswerLasts` | include/queue_r.h:141-154 | what the consumer was told not to be empty stays so until it acts itself, and what the producer was told not to be full |
| `RingQueue.ContentsChange` | include/queue_r.h:55-134 | what each step of either side does to the contents |
| `DeferQueue.Ring.Push` | src/ip_defer.c:28-53 | refused while inhibited, full or too long, in that order; otherwise appended |
| `DeferQueue.RefusedExactly` | src/ip_defer.c:28-44 | exactly which packets are refused, and with which answer |
| `DeferQueue.TakesNineteen` | src/ip_defer.c:28-53 | of any packets that fit the queue takes the first nineteen |
| `DeferQueue.Ring.Drop` | src/ip_defer.c:64-70 | the first packet leaves |
| `DeferQueue.Ring.IpSend` | src/ip.c:278-343 | its answer and errno for every route, address, size and device answer, with the refusal of long frames that leaves errno alone, and that a packet is queued exactly when its hardware address is asked for and the push is accepted |
| `DeferQueue.Ring.Handle` | src/ip_defer.c:72-100 | the queue and the attempts after a call are those of the specification, for anything `ip_send` meets |
| `DeferQueue.CallEffect` | src/ip_defer.c:72-100 | a call takes packets from the front only, tries each at most once, and raises the counter of the one it stops at |
| `DeferQueue.RunInv` | src/ip_defer.c:28-100 | in every run at most 19 packets wait, only the first can have been tried, its counter is 0, 2 or 4, and no packet is ever tried more than twice |
| `DeferQueue.KeepsOrder` | src/ip_defer.c:28-70 | first in, first out over every run: the waiting packets are the accepted ones from the first that has not left on |
| `DeferQueue.QueueDrains` | src/ip_defer.c:72-100 | n waiting packets are gone after at most 2n + 1 calls without pushes, whatever `ip_send` answers |
| `DeferQueue.ThreeCalls` | src/ip_defer.c:82-96 | a packet that cannot be reached is tried in two calls and dropped untried in the third |
| `DeferQueue.StaysExactly` | src/ip.c:284-343 | exactly which packets a call leaves in the queue: those from the first on that has no route, or that is fragmented and which the device answers with EHOSTUNREACH |
| `DeferQueue.UnresolvedIsLost` | src/ip.c:293-310 | while the handler runs, a packet whose hardware address is not known is answered 0 and leaves the queue |
| `DeferQueue.UnsentExactly` | src/linux/ether.c:222-237 | a packet of 1481 to 1500 bytes with a route and an address is answered -EMSGSIZE with errno as it was, whatever the device; a packet of any other size, and none of these, gets the answer of a device that takes it |
| `DeferQueue.UnsentIsLost` | src/ip.c:326-329 | the handler drops such a packet |
| `DeferQueue.FailsExactly` | src/ip.c:278-343 | `ip_send` fails exactly when there is no route, the packet cannot wait, its size lies between the limits or the device fails; its answer and errno in each case |
| `RouteOrder.OrderExactly` | src/ip_route.c:30-38 | the subtracting comparator is an order on a set of addresses exactly when it fits on half of the circle |
| `RouteOrder.NarrowIsNumeric` | src/ip_route.c:30-38 | on addresses that span less than 2^31 it is the numeric order |
| `RouteOrder.ThirdsCycle` | src/ip_route.c:30-38 | three addresses each of which comes before the next |
| `RouteOrder.DiffZero` | src/ip_route.c:30-38 | it answers 0 exactly for equal addresses |
| `RouteIndex.Index.Find` | src/ip_route.c:103-104 | the search down a red-black tree with the subtracting comparator finds an address exactly when it is stored, for every address |
| `RouteIndex.Index.Insert` | src/ip_route.c:69-73 | an address is refused exactly when it is stored; otherwise exactly its node joins the tree, as long as all fit on half of the circle |
| `RouteIndex.Index.Remove` | src/ip_route.c:75-79 | exactly the node leaves the tree |
| `RouteTable.LinkOk` | src/ip_route.c:69-73 | putting an entry into both trees keeps the invariants, and the trees hold the same entries if and only if no other route has the interface |
| `RouteTable.Table.constructor` | src/ip_route.c:186-195 | every entry is on the free list once and no route is stored |
| `RouteTable.Table.Update` | src/ip_route.c:81-114 | afterwards the route is the one for its network, all others are as before, and free list and trees partition the array; both trees hold the same entries if and only if no other route has the interface; there is no answer exactly when a new network meets an empty free list |
| `RouteTable.Table.Remove` | src/ip_route.c:116-130 | exactly the route for the network leaves and its blank entry heads the free list, or the answer is -1 exactly when there is none and nothing changes |
| `RouteTable.Table.FindByNetwork` | src/ip_route.c:132-166 | the searches down the tree and the walk in order fail exactly when no route is exact, matches by mask or is for network 0; otherwise which one is chosen |
| `RouteTable.Table.FindByIface` | src/ip_route.c:168-184 | a route of the interface, or failure exactly when there is none, also when two routes share an interface |
| `RouteTable.DefaultBeatsNetwork` | src/ip_route.c:144-150 | with a default gateway in the table, 10.1.2.3 does not get the route for 10.0.0.0/8 |
| `RouteTable.DefaultShadows` | src/ip_route.c:144-154 | exactly when the default gateway is chosen over another match |
| `RouteMask.AndBit` | src/ip_route.c:145 | the & of address and mask has a bit exactly where both have it |
| `RouteMask.InNetwork` | src/ip_route.c:145 | for a mask of n leading ones, the network is the address under the mask exactly when it is a multiple of its size and the address lies in it |
| `RoutePrefix.MatchesExactly` | src/ip_route.c:144-148 | a route for a prefix matches exactly the addresses of its network |
| `RoutePrefix.LongestExactly` | src/ip_route.c:143-149 | the match that is found has the shortest prefix of all, so it is the longest exactly when there is no other |
| `RoutePrefix.ShorterPrefixWins` | src/ip_route.c:143-149 | 10.1.2.3 gets the route for 10.0.0.0/8 although there is one for 10.1.0.0/16 |

## Left out

- Raw sockets, ioctl, shared memory, signals, threads and process start-up: I/O plumbing.
- The ARP cache: its tree and its slot array have no stable invariant; address resolution is an oracle.
- TCP connection lookup: its comparator adds two memcmp results and is not an order; one connection is modelled.
- Frames shorter than the 20 bytes of an IP header: `ip_input` does not check for them, and what it then reads is outside the frame.
- TcpFsm.Tcb.Input: has no new state where a segment shorter than its own header is taken as data, because `tcp_fsm` then hands on what lies outside the segment.
- TcpFsm.Tcb.constructor: initialises the segment lists, which `tcp_new_connection` leaves zeroed; an append to a zeroed list follows a null pointer.
- A segment that arrives on an established connection whose socket is no longer bound: `tcp_fsm` does not check for it.
- Timer-driven teardown of connections, and sending on passively opened connections, whose lists are not initialised.
- The hand-off of a reassembled datagram to `ip_input` and the reply: the model stops at the completion test and lets the hand-off leave anything in the buffer.
- The bytes that `ip_send` puts into a packet, beyond the header and the fragments modelled here.
- `queue_clear_from_push_end`: its load and its store do not commute with a concurrent discard.
- icmp.c, ether.c, `udp_input`, protocol dispatch, logging and debugging tools: short branches or glue.
- The tail-queue macros that depend on C struct layout, and the tracing macros.
- RouteTable.Table.Update: needs addresses that fit on half of the circle with those of the other routes, because the comparators are no orders otherwise, and trees that hold the same entries, because the code removes an entry from both without looking. Storing a route gives an entry new tree nodes, because a node's key is fixed; the code writes the key while the entry is in neither tree.
- RouteTable.Table.Remove: needs trees that hold the same entries, because RB_REMOVE of an entry that is not in the tree follows stale links.
- RouteIndex.Index.Insert: needs addresses that fit on half of the circle with the stored ones, because a search tree has no meaning without an order.
- FragmentBuffers.Buffers.Get: reserving is one step, not an atomic test-and-set among threads; a reserved buffer gets a new tree node, because a node's key is fixed, and the refusal of RB_INSERT, which cannot happen after the search, is not written out.
- TcpHeader.Hton: takes the header as a value, as the fields of the buffer it overwrites, which every caller passes as both source and target.
- RttEstimator.RunBounded: on unbounded integers; with samples below 2^28 all values fit a 32-bit int.
- RingQueue.RunInv: offsets are unbounded integers; in the code the offset of a block is returned as an int.
