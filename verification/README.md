# Verified model of the TCP/IP core

This project models the parts of the lwIP core under `core/` that keep data intact, and proves what they are for:

- **TCP data path.** Out-of-order reassembly and the receive window (`core/tcp_in.c`, `core/tcp.c`); segmentation, the
  unsent and unacked queues, acknowledgements and retransmission (`core/tcp_out.c`, `core/tcp_in.c`); the round-trip
  estimate.
- **Heap.** The first-fit allocator with headers inside the heap (`core/mem.c`).
- **Packet buffers.** Reference counts and chains (`core/pbuf.c`), and the copy of a received frame (`TcpIp.c`).
- **ARP cache** (`core/etharp.c`), **timer list** (`core/timers.c`), **UDP ports and bindings** (`core/udp.c`).

## How it is built

State that the C code changes in place is held by classes (`TcpReceiver.Receiver`, `TcpSender.Sender`, `Heap.Memory`,
`EthArp.ArpCache`, `Timers.TimerList`, `PbufPool.PbufMemory`, `UdpPorts.UdpLayer`, `Rtt.RttEstimator`), whose methods have
the branches, loops and fixed-width arithmetic of the code. Each method is proved against a specification function, and the
lemmas state what holds of those functions over every input, every step or every run.

| files | content |
|---|---|
| `SeqNum` | 32-bit sequence numbers and the unbounded numbers they stand for |
| `Reassembly`, `Delivery`, `ReceiveRuns`, `ReceiveProgress`, `RcvWindow` | the receive side over unbounded numbers; what every run keeps, what must be accepted, what must be announced |
| `OosQueue`, `TcpReceiver` | the receive side as the code runs it |
| `SendQueue`, `SendRuns`, `SendWrite`, `SendCost`, `Conservation`, `SendProgress` | the send side over unbounded numbers; what every run keeps, what must be sent, freed and sent again |
| `SendSteps`, `TcpSender` | the send side as the code runs it |
| `EndToEnd`, `EndToEndProgress` | both sides together: nothing is lost, and what is retransmitted gets on |
| `HeapBlocks`, `HeapRuns`, `HeapService`, `HeapLinks`, `Heap` | blocks, what every run keeps, what must be served, headers, and the allocator |
| `RefCounts`, `PbufPool` | reference counts and the operations that keep them |
| `PbufChains`, `PbufPackets` | chains as flat bytes |
| `ArpTable`, `ArpRuns`, `ArpProgress`, `EthArp` | the cache as a function of its table, what every run keeps, what must be learned, sent and forgotten, and the array code |
| `Deadlines`, `Timers` | absolute deadlines, and the relative list that stands for them |
| `Rtt`, `RttTiming` | round-trip estimate and back-off; which round trips are measured |
| `UdpPorts` | port allocation and bindings |

Whether memory runs out is a parameter of each operation that asks for some. Clocks, the network and the peer are parameters.
Constants are those of `lwipopts.h` and `lwip/opt.h`: TCP_WND 4096, TCP_SND_BUF 6000, TCP_SND_QUEUELEN 16, MEM_SIZE 6144,
MEM_ALIGNMENT 4, PBUF_POOL_BUFSIZE 1000, ARP_TABLE_SIZE 10.

## Where the code and its intent part

For each of these there is the exact condition, and an input that meets it unless the entry says that there is none in this
configuration.

- **A window edge that wraps.** When a segment is appended to the out-of-order queue, the test whether it overruns the window
  compares 32-bit numbers unsigned (`core/tcp_in.c:1471`), where the other tests compare signed differences. When the right
  edge of the window has wrapped and the segment has not, a segment well inside the window gets a length larger than its
  data. `ReceiveRuns.SpuriousCutLosesData` is a run of three segments after which `rcv_nxt` is past the peer's FIN with
  seven bytes delivered.
- **A FIN that overfills the window.** A segment inside the window that covers the end of the queue takes over the FIN queued
  there (`core/tcp_in.c:1272`, `core/tcp_in.c:821`). If it ends at the right edge itself, its FIN is one number too many, and
  `rcv_wnd` becomes 65535 (`core/tcp_in.c:1303`). The peer that sent both has sent text behind its FIN.
  `RcvWindow.OverfilledWindow` is such an input; `RcvWindow.ArriveWindow`: for every other segment inside the window, from an
  honest peer or not, the window is kept. `RcvWindow.HonestNeverOverfills`: pieces of one stream never do it.
- **Two numbers half the sequence space away.** A segment of one number that starts exactly 2^31 behind `rcv_nxt` passes the
  test for a front that was received already (`core/tcp_in.c:1155`), is moved to `rcv_nxt` and delivered
  (`Reassembly.OldByteDelivered`). While the window is closed, the test against its last number, `rcv_nxt - 1`, lets in a
  segment that starts 2^31 - 1 ahead (`core/tcp_in.c:1218`), and it is queued there (`Reassembly.FarSegmentQueued`).
  `Reassembly.ReceiveAsIntended`: for every other number the code does what is meant. `ReceiveRuns.SoundIffClean`: over every run
  of the peer's own segments nothing else goes wrong than these two and the wrapped edge.
- **An acknowledgement from half the sequence space away.** The loop over `unsent` (`core/tcp_in.c:1059`) tests only that the
  number lies between the end of the segment and `snd_nxt`. A number about 2^31 behind is taken for an acknowledgement of data
  that was never sent, and the segment is dropped (`SendRuns.OldAckMisread`). `SendRuns.AcknowledgeInv`: any other number keeps
  the queues. `EndToEnd.ReceivedIsPrefixOfWritten`: the numbers that come from a receiver are never misread unless they are that old.
- **A fast retransmit of nothing.** `tcp_rexmit_fast` hands the head of `unacked` on without looking (`core/tcp_out.c:1369`). The
  timer that guards its call runs only while something is unacknowledged, until a timeout requeues everything and the
  window does not let the first segment go (`Conservation.TimerStep`); then three duplicate acknowledgements make it
  dereference NULL (`Conservation.StalledTimeoutFaults`).
- **A round trip that is measured all the same.** The code means to measure none after a retransmission (`core/tcp_out.c:1274`).
  It stops timing before a timeout retransmits, and the retransmission then starts it again with the segment that is sent
  again (`core/tcp_out.c:1116`): `RttTiming.TimeoutTimesAgain`, for every timeout that
  sends something, at any tick but 0, and every new acknowledgement after it. `RttTiming.MeasuresOnce`:
  over every run, what is measured has been sent just once exactly when its timing began in `tcp_output` at `snd_nxt` and no fast
  retransmit has sent it again.
- **A maximum segment size that shrinks.** Any segment may carry a new one (`core/tcp_in.c:1586`). When the last unsent segment is
  longer than it, the room computed for it wraps (`core/tcp_out.c:432`) and a whole write is added to it (`Conservation.OutgrownGrows`).
  The stream stays intact (`Conservation.QueuesConserve`); the bound on segments is lost (`Conservation.SizesKept`).
- **A failed bind that has taken effect.** `udp_bind` sets the local address before it looks for a port (`core/udp.c:845`). When
  it finds none it returns an error, with the address changed; a pcb that was bound already may then overlap another one
  (`UdpPorts.ClashArises`). `UdpPorts.BindConflicts` gives the condition; with fewer than 0x4000 pcbs it cannot arise (`UdpPorts.EnoughPorts`). There
  is no such input in this configuration, which allows 4 of them (`lwipopts.h:97`).
- **An eight-bit count.** `pbuf_dechain` takes the tail to be gone when `pbuf_free` has freed a number of pbufs that is not
  zero in eight bits (`core/pbuf.c:826`). After freeing a multiple of 256 it returns a pointer to a pbuf that is gone.
  `PbufPool.PbufMemory.Dechain` states exactly when the result is right. There is no such input in this configuration: 8 pool
  pbufs, 16 references and at most 219 pbufs of 28 bytes in the heap are fewer than 256.
- **Sizes that wrap when they are aligned.** `mem_malloc` aligns in 16 bits (`core/mem.c:509`): a request for 65533 bytes
  succeeds with 12. `HeapRuns.LargeEnough`: the extent holds the request exactly for sizes up to 65532. `mem_trim`
  has the same wrap (`core/mem.c:378`): a new size of 65533 is not refused and trims to 12 bytes. `pbuf_alloc` adds two aligned
  sizes in 16 bits for a pbuf in RAM (`core/pbuf.c:313`); `HeapRuns.RamLargeEnough`: it is refused, or holds its data, exactly
  while their sum does not pass 2^16.
- **A buffer that is not there.** `pbuf_take` means to refuse a NULL buffer and returns 0, which is ERR_OK
  (`core/pbuf.c:978`); the test that would give ERR_ARG comes too late (`core/pbuf.c:981`). `PbufChains.Take` states the result.
- **Tests that never fire.** `plug_holes` tests whether the block it absorbs is the lowest free one (`core/mem.c:251`, `core/mem.c:262`).
  `lfree` is at or below the freed block by then (`Heap.Memory.PlugHoles`).
- **Time that is dropped.** `sys_check_timeouts` moves its time stamp to the present when any timer fires (`core/timers.c:381`);
  what was left of the elapsed time is not carried over: it is lost exactly when something fired and the last deadline met
  is not the present (`Timers.TimerList.CheckTimeouts`). The guarantee is one of virtual time.

## Model

| member | source | states |
|---|---|---|
| SeqNum.DiffWrap | lwip/tcp_impl.h:93-101 | the signed 32-bit difference of two sequence numbers is their true distance exactly within 2^31 |
| SeqNum.LocateWrap | lwip/tcp_impl.h:93-101 | the comparisons see a 32-bit number at the place it stands for exactly when that is within half the sequence space |
| Reassembly.MergeChained | core/tcp_in.c:803-835 | inserting a segment before the queue swallows what it covers and leaves increasing, disjoint ranges with FIN last |
| Reassembly.PlaceStructure | core/tcp_in.c:1391-1493 | out-of-order insertion, by whatever branch, leaves the queue increasing, disjoint, FIN last and beyond rcv_nxt |
| Reassembly.InOrderStructure | core/tcp_in.c:1219-1364 | in-order delivery and draining leave a queue of the same structure, strictly beyond the new rcv_nxt |
| Reassembly.QueueInvariant | core/tcp_in.c:1124-1537 | a segment at any number, stray or hostile, keeps the structure of the out-of-order queue, exactly unless the window is closed and it is queued 2^31 - 1 ahead |
| Reassembly.ReceiveAsIntended | core/tcp_in.c:1155-1220 | the signed tests and the trimming at the front lead to what section 3.9 of RFC 793 means, stated without them: what is new in a segment that reaches beyond rcv_nxt is delivered, a later one inside the window is queued, any other is answered; exactly when the segment is neither one number from 2^31 behind an open window nor queued 2^31 - 1 ahead of a closed one |
| Reassembly.OldByteDelivered | core/tcp_in.c:1155-1204 | a byte 2^31 numbers old is handed up as the next one |
| Reassembly.FarSegmentQueued | core/tcp_in.c:1218-1219 | a closed window lets a segment be queued 2^31 - 1 numbers ahead |
| Delivery.PlaceHonest | core/tcp_in.c:1391-1493 | after out-of-order insertion every queued segment is still a piece of the peer's stream, exactly when the append test did not cut it spuriously |
| Delivery.PlaceHas | core/tcp_in.c:1391-1493 | which sequence numbers the queue holds after an insertion: those it held and those that are kept of the segment, cut to the window where the append branch cuts, but for what is refused or yielded |
| Delivery.NothingHeldIsLost | core/tcp_in.c:1391-1493 | an insertion drops a number the queue held exactly when a queued segment reaches beyond what is kept of the new one |
| Delivery.DeliversAllItCan | core/tcp_in.c:1329-1364 | after in-order delivery the next number is not held by the queue: everything connected has been handed up |
| Delivery.InOrderContent | core/tcp_in.c:1219-1364 | what in-order delivery hands up is the peer's stream from the old rcv_nxt to the new one, FIN counted as one |
| ReceiveRuns.StepContent | core/tcp_in.c:1124-1537 | whatever arrives: as long as no text is accepted that the peer did not send for that place, the stream is continued and the state kept good exactly when nothing is planted beyond the window and nothing cut spuriously |
| ReceiveRuns.SoundIffClean | core/tcp_in.c:1124-1537 | over every run of pieces of the peer's stream, the stream is handed up and only pieces of it are queued, exactly when no byte from 2^31 behind is taken for a different one, nothing is planted beyond a closed window and nothing cut spuriously |
| ReceiveRuns.CleanUnspoilt | core/tcp_in.c:1124-1537 | a run of pieces of the peer's stream without those mistakes is one in which none is made at any event, so that the next theorem applies to it |
| ReceiveRuns.DeliveredIsTheStream | core/tcp_in.c:1124-1537 | over every run of segments in any order, duplicated, overlapping, stray ones included, with failing allocations, in which none of these mistakes is made, the application gets exactly the stream from the first rcv_nxt to the last |
| ReceiveRuns.SpuriousCutLosesData | core/tcp_in.c:1471-1482 | three segments across the wrap of the sequence space after which seven bytes were handed up and 4096 numbers acknowledged |
| ReceiveProgress.NewTextAccepted | core/tcp_in.c:1155-1367 | while the window is open, any segment that starts at or before rcv_nxt and reaches beyond it, from an honest peer or not, moves rcv_nxt to its end or to the end of the window at least |
| ReceiveProgress.RestsAtFirstGap | core/tcp_in.c:1219-1369 | from an honest peer, rcv_nxt then rests at the first number that neither the segment nor the queue had, and the queue keeps just what they had beyond it |
| ReceiveProgress.AheadGains | core/tcp_in.c:1385-1493 | a segment that starts ahead of rcv_nxt inside the window, where there is memory for it and the queue does not keep what it has at that place, adds its numbers below the right edge and nothing else; what was held stays, but for what yields to it; otherwise the queue is unchanged |
| ReceiveProgress.AheadIsHeld | core/tcp_in.c:1385-1493 | with memory, all text of such a segment up to the right edge is held by the queue afterwards, unless the append test cuts it spuriously |
| ReceiveProgress.OnlyAnswered | core/tcp_in.c:1208-1220 | any segment without new text inside an open window changes nothing but the edge that an answer announces |
| ReceiveProgress.FinReported | core/tcp_in.c:1305-1364 | the connection is told of the FIN exactly when it has been reached |
| RcvWindow.ArriveWindow | core/tcp_in.c:1299-1342 | any segment that ends inside the window, from an honest peer or not, keeps 0 <= rcv_wnd <= TCP_WND and everything queued inside the window, and moves neither the real nor the announced right edge left, exactly unless it takes over a FIN that no longer fits |
| RcvWindow.OverfilledWindow | core/tcp_in.c:1262-1303 | a FIN queued at the end of the window and ten bytes that cover it and fill the window: rcv_wnd becomes 65535 |
| RcvWindow.HonestNeverOverfills | core/tcp_in.c:1262-1270 | a peer whose segments are pieces of one stream never does that |
| RcvWindow.StepWindow | core/tcp.c:542-602 | each event of a peer within the window keeps it, and the announced edge at or below the real one, exactly unless such a segment arrives; the announced edge advances by at least min(TCP_WND/2, mss) unless rcv_nxt overtakes it |
| RcvWindow.WindowKept | core/tcp.c:542-602 | over every run of a peer that stays within the window, whatever it sends there, each step keeps the window and neither edge moves left, exactly while no such segment arrives |
| RcvWindow.NeverOvertaken | core/tcp.c:546-559 | over every run of a peer that stays at or below the announced edge, what is received stays at or below it, exactly while no byte from 2^31 behind is moved onto it, no FIN is taken over beyond it and no cut lengthens a segment past it; rcv_nxt does not overtake it then |
| RcvWindow.ReadOpens | core/tcp.c:573-602 | reading opens the window by what was read, up to TCP_WND; everything is announced that moves the edge by at least min(TCP_WND/2, mss), less than that is kept back, and the peer is told at once from a quarter of TCP_WND on |
| RcvWindow.NeverStalled | core/tcp.c:573-602 | once the application has read everything, at least half of TCP_WND is announced |
| RcvWindow.DeliveryAnnounces | core/tcp_in.c:1339-1342 | after new text, the same: all that is worth it is announced, and nothing else |
| RcvWindow.OthersAnnounce | core/tcp_out.c:1064-1068 | sending anything makes the announced edge what was computed before; a FIN taken opens the window by one |
| OosQueue.OosInsertSegment | core/tcp_in.c:803-835 | the loop that frees and trims covered segments, on wrapping numbers, computes the merge of the specification |
| OosQueue.QueueOutOfOrder | core/tcp_in.c:1385-1493 | the walk with a trailing pointer, all of its branches, computes the placement of the specification |
| OosQueue.AdjustToQueue | core/tcp_in.c:1250-1296 | adjusting the queue to an in-order segment, by FIN or by overlap, is the same merge |
| TcpReceiver.Receiver.UpdateAnnouncedWindow | core/tcp.c:542-563 | as long as the announced edge is less than 2^31 behind: the whole window is announced, and the step returned, exactly when the edge moves by at least min(TCP_WND/2, mss); otherwise the edge stays where it is, or at rcv_nxt when that has passed it |
| TcpReceiver.Receiver.Recved | core/tcp.c:573-602 | reading opens the window by what was read, capped at TCP_WND; the announced edge becomes the real one when that step is at least TCP_WND/4, and the update is sent then |
| TcpReceiver.Receiver.DrainQueue | core/tcp_in.c:1331-1364 | the draining loop hands up and accounts for just the connected segments |
| TcpReceiver.Receiver.DeliverInOrder | core/tcp_in.c:1219-1369 | in-order processing in wrapping arithmetic does what the specification says |
| TcpReceiver.Receiver.Receive | core/tcp_in.c:1124-1537 | the whole of tcp_receive's data processing, for a segment at any 32-bit number, refines the specification over unbounded numbers, to which ReceiveProgress applies; the queue stays valid exactly unless a segment is planted beyond a closed window |
| SendRuns.OutputInv | core/tcp_out.c:989-1041 | transmission moves the boundary between unsent and unacked and nothing else, and keeps the send invariant and the bound on segments |
| SendRuns.RequeueInv | core/tcp_out.c:1252-1272 | a timeout moves all of unacked to the front of unsent, unchanged and in order, changes nothing else, and keeps the invariant |
| SendRuns.AcknowledgeInv | core/tcp_in.c:935-1087 | any acknowledgement number keeps the queues one contiguous run from lastack to snd_lbb with the accounts right, exactly when it is not the misread old one |
| SendRuns.OldAckMisread | core/tcp_in.c:1059-1061 | a number 2^31 behind takes a segment off the queue that was never sent |
| SendRuns.WrittenInv | core/tcp_out.c:612-681 | a write keeps the send invariant whatever room the last segment has or seems to have, and the bound on segments where it held |
| SendRuns.RelaidIsChop | core/tcp_out.c:422-610 | where the last segment is within mss_local, filling it and cutting the rest is cutting tail and new bytes into segments of mss_local |
| SendWrite.AssembledIsWritten | core/tcp_out.c:612-681 | what the three phases commit extends the unsent payload by exactly the caller's bytes, laid out as the 16-bit room has it, unsent_oversize within the spare room where it was |
| Conservation.StepConserves | core/tcp_out.c:353-709 | one event of any kind, a new maximum segment size included, keeps the queues one piece of the stream with the accounts right, except exactly a misread acknowledgement; only a fast retransmit of nothing stops it |
| Conservation.QueuesConserve | core/tcp_in.c:1012-1086 | over every interleaving of writes, sends, acknowledgements, timeouts and segment sizes, unacked and unsent together hold exactly the unacknowledged stream, exactly while no acknowledgement is misread and no fast retransmit finds nothing |
| Conservation.SizesKept | core/tcp_in.c:1586 | no segment is longer than mss_local exactly while that never shrinks below what is queued |
| Conservation.OutgrownGrows | core/tcp_out.c:432-476 | a last segment longer than mss_local takes a whole write |
| Conservation.TimerStep | core/tcp_in.c:1040-1045 | the retransmission timer runs just while something is unacknowledged, exactly until a timeout whose window does not let the first segment go |
| Conservation.NeverNull | core/tcp_in.c:935-951 | over every run without such a timeout no fast retransmit is called with nothing unacknowledged |
| Conservation.StalledTimeoutFaults | core/tcp.c:812-846 | from any idle connection: a write, a send, a timeout under a smaller, open window and three duplicate acknowledgements end in a fast retransmit of nothing |
| Conservation.WireCarriesTheStream | core/tcp_out.c:989-1009 | whatever is transmitted or retransmitted is a piece of what was written, at its place, and within mss_local where the queues are |
| Conservation.TailAppendIsSorted | core/tcp_out.c:1011-1035 | in every reachable state the tail append of this fork leaves the list that the disabled sorted insertion would |
| Conservation.RequeueingNeedsSorting | core/tcp_out.c:1288-1326 | with the replaced fast retransmit, which requeues, tail append would put a segment out of order whenever two are in flight |
| SendProgress.SendsWhatFits | core/tcp_out.c:989-1041 | tcp_output sends exactly the unsent segments that end inside the window, in order, and counts them as sent |
| SendProgress.TakesWhatIsAcknowledged | core/tcp_in.c:1012-1087 | a new acknowledgement moves snd_una to it, gives its bytes back to snd_buf and frees exactly the segments it covers whole; any other, but the misread one, changes nothing |
| SendProgress.ThirdDuplicateRetransmits | core/tcp_in.c:920-951 | with something in flight, of any number of duplicates exactly the third sends the first unacknowledged segment again |
| SendProgress.CountsInARow | core/tcp_in.c:935-966 | over every run dupacks counts the duplicates since the last acknowledgement that was none, up to 255; whatever else happens in between, exactly the third calls the fast retransmit |
| SendProgress.ExpiresOnTime | core/tcp.c:807-846 | with nothing but ticks, a running timer over something unacknowledged counts them and requeues at the first tick that makes rto, no earlier and no later; a stopped one does nothing |
| SendProgress.TimeoutRetransmits | core/tcp_out.c:1252-1279 | a timeout sends all that fits from the first unacknowledged segment on, and just that is in flight afterwards |
| SendSteps.AckedUnsentTest | core/tcp_in.c:1059-1061 | the test of the loop over unsent on wrapping numbers means acknowledged and sent, or the misread case |
| TcpSender.Sender.Output | core/tcp_out.c:900-1051 | the sending loop, on 32-bit numbers, moves just what fits the window and passes just that to the network, or, when an ACK is owed and nothing fits, sends that alone and changes nothing |
| TcpSender.Sender.Acknowledge | core/tcp_in.c:920-1087 | lastack, the duplicate count, snd_buf, snd_queuelen and both queues change as the specification says; the timer restarts at 0 on a new number and stops when nothing is left; the invariant is kept exactly when the number is not misread; the fast retransmit is called exactly on the third duplicate |
| TcpSender.Sender.RexmitRto | core/tcp_out.c:1252-1279 | requeue and transmit: what goes out is what is unacknowledged afterwards |
| TcpSender.Sender.SlowTimer | core/tcp.c:807-846 | one tick of the specification's clock: the timer counts while it runs, and exactly when it reaches rto over something unacknowledged it restarts at 0 and all of unacked is requeued and sent again as far as it fits |
| TcpSender.Sender.ParseMss | core/tcp_in.c:1577-1588 | any option gives a segment size from 1 to TCP_MSS, smaller ones too; the queues keep their invariant |
| TcpSender.Sender.NoteWindow | core/tcp_in.c:880-882 | a larger window than ever before never shrinks mss_local, and every bound on the queues is kept |
| TcpSender.Sender.RexmitFast | core/tcp_out.c:1367-1370 | this fork's fast retransmit sends the first unacked segment and leaves the queues alone; with nothing unacked it dereferences NULL |
| TcpSender.Sender.PbufPrealloc | core/tcp_out.c:218-264 | room beyond the data only when the segment is deferred, then up to TCP_OVERSIZE bytes, never beyond the maximum; nothing is kept on failure |
| TcpSender.Sender.ExtendTail | core/tcp_out.c:422-503 | phases 1 and 2 give the last segment as many of the bytes as the 16-bit room lets it have |
| TcpSender.Sender.CutSegments | core/tcp_out.c:516-610 | phase 3 cuts the rest into full segments, or stops with everything it allocated in hand |
| TcpSender.Sender.Write | core/tcp_out.c:353-709 | all or nothing, onto a last segment of any length: it succeeds exactly when the bytes fit snd_buf, the pbufs they need fit the queue and no allocation it asks for fails; success is a write of the specification; any failure leaves queues, counters and the allocators as they were |
| TcpSender.Sender.RoomyCountable | core/tcp_out.c:432-476 | where no segment is longer than mss_local, a write of any length leaves the last segment's length within 16 bits |
| EndToEnd.ReceivedIsPrefixOfWritten | core/tcp_in.c:920-1537 | sender and receiver together, whatever the network does to segments and acknowledgements that do not live as long as half the sequence space: no acknowledgement is misread, the application has been handed exactly what was written up to rcv_nxt, and everything acknowledged is part of it, as long as nothing is cut spuriously |
| EndToEnd.StartsSound | core/tcp.c:1287-1291 | an established connection over which nothing has been sent meets the hypothesis of that theorem |
| EndToEndProgress.OneRoundMovesOn | core/tcp_in.c:920-1537 | from every state both sides can be in, whatever was lost before: after a timeout, the arrival of its first segment and the arrival of the answer, snd_una has moved on, past that segment or to the end of the receiver's window |
| HeapRuns.AllocKeeps | core/mem.c:544-587 | taking a block, split or whole, keeps the tiling and adds one extent of at least the size asked for; the statistic grows by its extent |
| HeapRuns.FreedKeeps | core/mem.c:235-356 | freeing removes one extent, coalesces on both sides and leaves no two free neighbours |
| HeapRuns.FreeUndoesAlloc | core/mem.c:235-356 | freeing what was just allocated restores the heap block for block |
| HeapRuns.TrimmedKeeps | core/mem.c:368-482 | trimming shortens one extent, by as much as the statistic says, in each of its three cases |
| HeapRuns.OthersUntouched | core/mem.c:310-633 | every malloc, free and trim leaves all other extents in use as they were, and what malloc hands out was free |
| HeapRuns.ExtentsDisjoint | core/mem.c:544-587 | extents in use never overlap |
| HeapRuns.HeapInvariant | core/mem.c:235-633 | over every run the blocks tile the heap with no two free neighbours, and once nothing is in use the heap is the one free block it was |
| HeapRuns.LowestFit | core/mem.c:532-546 | the scan finds nothing exactly when no free block holds the aligned size, and otherwise the fitting block of lowest address |
| HeapRuns.LargeEnough | core/mem.c:503-518 | the extent holds the request exactly when aligning the size does not wrap 16 bits, and is then less than 4 bytes larger, or the smallest there is; when it wraps it is the smallest there is |
| HeapRuns.RamLargeEnough | core/pbuf.c:311-318 | a pbuf in RAM is refused, or its data fit behind its headers, exactly while the sum of both aligned sizes does not pass 2^16 |
| HeapService.MallocServes | core/mem.c:493-633 | a request is turned down, and the heap left alone, exactly when its size is 0, is aligned to more than the heap, or no free block has it; otherwise it gets that much of the lowest free block that has it, all of the block when the rest could not be one |
| HeapService.FreeReturns | core/mem.c:310-356 | free gives back just the extent it is about |
| HeapService.TrimCuts | core/mem.c:368-482 | trim cuts an extent to the aligned size whenever what is cut off joins a free block behind or can be a block, and otherwise changes nothing |
| Heap.Memory.constructor | core/mem.c:273-302 | mem_init leaves one free block and the lowest-free pointer at 0 |
| Heap.Memory.Malloc | core/mem.c:493-633 | NULL exactly when the size is 0, is aligned to more than the heap, or no free block has it; otherwise a pointer behind the header of the lowest block that has it, of which just that much is handed out; the scan from lfree, the split and the search for the next free block leave the headers right |
| Heap.Memory.PlugHoles | core/mem.c:235-268 | both merges on the headers; prev still inverts next, and lfree stays |
| Heap.Memory.Free | core/mem.c:310-356 | NULL and pointers outside the heap change nothing, anything handed out is freed |
| Heap.Memory.Trim | core/mem.c:368-482 | the three cases on the headers, and NULL exactly when the new size is too large |
| RefCounts.ReachableIsLive | core/pbuf.c:622-699 | nothing a live pbuf leads to has been freed, and every chain ends |
| RefCounts.LiveIsHeld | core/pbuf.c:622-699 | every live pbuf is reachable from some handle |
| RefCounts.NothingLeaks | core/pbuf.c:622-699 | once no handle remains nothing is live |
| RefCounts.FreesHeadRun | core/pbuf.c:622-699 | pbuf_free deallocates exactly the maximal run at the head that nothing else references, decrements the next one and changes nothing else |
| PbufPool.PbufMemory.Free | core/pbuf.c:622-699 | the loop computes that, counts in eight bits, and keeps every count equal to handles plus pointers |
| PbufPool.PbufMemory.AllocChain | core/pbuf.c:229-310 | a chain of the pool with one reference each, or, when the pool runs out, the pool as it was |
| PbufPool.PbufMemory.AddRef | core/pbuf.c:727-737 | one more handle, one more count |
| PbufPool.PbufMemory.Cat | core/pbuf.c:749-772 | the caller's handle on the tail becomes a pointer, the counts stay right |
| PbufPool.PbufMemory.Chain | core/pbuf.c:790-797 | the same with the caller keeping its handle |
| PbufPool.PbufMemory.Dechain | core/pbuf.c:807-836 | the tail loses its reference; the result is right exactly when the pbufs freed are not a positive multiple of 256 |
| PbufPool.PbufMemory.CutAfter | core/pbuf.c:485-491 | the pbufs behind the new last one lose their reference |
| PbufChains.Take | core/pbuf.c:970-1000 | overwrites the front of the flat data with the buffer and changes no length, or refuses when it does not fit; ERR_OK, and nothing done, without a pbuf |
| PbufChains.CopyPartial | core/pbuf.c:922-958 | returns the slice of the flat data from the offset on |
| PbufPackets.Copy | core/pbuf.c:856-909 | for single packets with room, the target's flat data begin with the source's and are otherwise unchanged; refused exactly when too small |
| PbufPackets.Realloc | core/pbuf.c:434-493 | truncates the flat data, keeps every tot_len the sum of what follows, and a packet a packet |
| PbufPackets.Cat | core/pbuf.c:749-772 | flat data are joined; tot_len stays right exactly when the whole fits 16 bits |
| PbufPackets.AllocPool | core/pbuf.c:229-310 | NULL exactly when the pool has too few buffers; otherwise full buffers and a rest that add up to the length |
| PbufPackets.RxIndication | TcpIp.c:324-342 | the chain handed to ethernet_input holds exactly the received frame |
| ArpTable.VictimIs | core/etharp.c:350-386 | what is recycled is the oldest entry of the least important class that has one |
| ArpTable.LeastImportantGoes | core/etharp.c:336-402 | a new address costs a resolved entry before any pending one, and packets only when every entry holds some |
| ArpTable.HintAgrees | core/etharp.c:950-970 | the one-slot hint selects the entry the full scan selects |
| ArpTable.FindInv | core/etharp.c:265-402 | finding or creating an entry keeps one entry per address |
| ArpTable.UpdateInv | core/etharp.c:447-514 | learning an address keeps the table invariant |
| ArpTable.QueryInv | core/etharp.c:1015-1154 | a query keeps the table invariant |
| ArpTable.TickInv | core/etharp.c:205-242 | ageing keeps pending entries below ARP_MAXPENDING and all below ARP_MAXAGE |
| ArpRuns.CacheInvariant | core/etharp.c:176-1154 | over every run: one entry per address, packets on pending entries only, ages in bounds; every packet taken in waits, was sent or was dropped, once |
| ArpRuns.QueueFate | core/etharp.c:476-513 | packets that wait on an entry are all sent, in order, to the address learned when that is the one they wait for; on any other event they go on waiting, in order, or are all dropped |
| ArpProgress.FindsPlace | core/etharp.c:265-402 | there is a place for an address exactly when it is known, or may be added and some entry is free or may be recycled; a free or known one costs nothing, a recycled one the packets that wait on it |
| ArpProgress.LearnsAddress | core/etharp.c:447-514 | an address is learned exactly when there is a place for it: its entry is stable with that interface and MAC and age 0, what waited for it has gone out to the MAC in order, and nothing else has changed but a recycled entry |
| ArpProgress.AsksForAddress | core/etharp.c:1015-1154 | a query sends the packet to the MAC of a resolved entry; otherwise the entry is pending afterwards, and the packet waits there where there is memory, behind the others or in place of them |
| ArpProgress.SendsToAddress | core/etharp.c:950-973 | a packet for a resolved address goes to its MAC, and an old stable entry is asked for again when the request could be sent; for any other address it is the query that counts |
| ArpProgress.LivesItsTime | core/etharp.c:205-242 | with nothing but ticks an entry keeps what it has until its age is ARP_MAXPENDING or ARP_MAXAGE, and is empty from exactly then on |
| EthArp.ArpCache.Sweep | core/etharp.c:291-339 | the single pass finds the match or all four candidates |
| EthArp.ArpCache.FindEntry | core/etharp.c:265-402 | the table afterwards and the index returned are those of the specification |
| EthArp.ArpCache.UpdateEntry | core/etharp.c:447-514 | the effect is that of the specification, to which LearnsAddress applies: the entry is learned and its queue popped and sent; true exactly when there was a place |
| EthArp.ArpCache.QueryAddress | core/etharp.c:1015-1154 | a packet is sent, queued, or turned away when there is no memory |
| EthArp.ArpCache.OutputPacket | core/etharp.c:950-973 | by hint, scan or query, the effect is that of the full scan |
| EthArp.ArpCache.Timer | core/etharp.c:205-242 | every entry ages once, expired ones are freed with their queues |
| EthArp.ArpCache.CleanupNetif | core/etharp.c:579-589 | just the entries of one interface are freed |
| Deadlines.InsertPlace | core/timers.c:288-307 | a timer goes behind all that are not later and before all that are |
| Deadlines.InsertSorted | core/timers.c:288-307 | the deadlines stay sorted and are the old ones and the new one |
| Deadlines.RemovePlace | core/timers.c:320-347 | only the first timer of the handler and argument goes; no other deadline changes |
| Timers.TimerList.Timeout | core/timers.c:265-308 | when there is room, rewriting the relative times inserts one absolute deadline, without wrapping; otherwise nothing changes |
| Timers.TimerList.Untimeout | core/timers.c:320-347 | giving the time back to the next entry removes one absolute deadline, without wrapping |
| Timers.TimerList.CheckTimeouts | core/timers.c:357-400 | terminates although handlers arm and cancel any number of timers; fires in order of deadline and calls the handler of each, once; loses and invents no timer, leaves none that is due; time is lost exactly when something fired and the last deadline met is not the present |
| UdpPorts.EnoughPorts | core/udp.c:99-118 | with fewer than 0x4000 listed pcbs there is a free port |
| UdpPorts.UniqueReceiver | core/udp.c:240-258 | of pcbs whose bindings do not conflict, at most one is bound to the address and port of a unicast datagram |
| UdpPorts.BindConflicts | core/udp.c:801-870 | a bind keeps the bindings without conflict exactly when it does not fail on a listed pcb whose port another one holds for the new address |
| UdpPorts.ClashArises | core/udp.c:845-852 | a failed bind on a full port range that leaves two pcbs overlapping |
| UdpPorts.UdpLayer.NewPort | core/udp.c:99-118 | the next free port round the range; 0 exactly when every port is in use |
| UdpPorts.UdpLayer.Bind | core/udp.c:801-870 | result, list and pcb after a bind, in every case |
| UdpPorts.UdpLayer.Connect | core/udp.c:888-939 | binds if need be, fails exactly when there is no port to bind to, connects, changes no other pcb and keeps the bindings without conflict |
| UdpPorts.UdpLayer.Remove | core/udp.c:981-1002 | takes one pcb off the list and leaves the others in order |
| Rtt.RunBounded | core/tcp_in.c:1095-1111 | for measurements of at most M ticks, sa stays within 8M+7 and sv within 4M+3, over any number of them |
| Rtt.MovesTowards | core/tcp_in.c:1095-1111 | a measurement moves the smoothed time towards itself and the deviation towards its own error, by direction exactly |
| Rtt.CoversMeasurement | core/tcp_in.c:1095-1111 | the timeout is never shorter than the round trip just measured |
| Rtt.LearnsSteadyTime | core/tcp_in.c:1095-1111 | from any estimate within its bounds, after enough measurements of m ticks the smoothed time is m and the timeout at most 3 ticks longer |
| Rtt.BackoffFits | core/tcp.c:93-94 | every back-off of a value fits 16 signed bits exactly when the value is at most 255 |
| Rtt.TimeoutFits | core/tcp.c:820-822 | with round trips of at most 50 ticks no backed-off timeout overflows |
| Rtt.RttEstimator.Measure | core/tcp_in.c:1095-1116 | measures exactly when something is timed and the number is beyond its start, and stops timing then; in 16-bit variables, for any measurement; for one of up to 4095 ticks on an estimate within its bounds it is the unbounded computation, and stays within them |
| Rtt.RttEstimator.OutputSegment | core/tcp_out.c:1116-1118 | a segment sent is timed if none is |
| RttTiming.StepOnce | core/tcp_out.c:1252-1279 | in every reachable state: whether the timed segment has been sent just once after an event, exactly, from whether it had been before it |
| RttTiming.MeasuresOnce | core/tcp_out.c:1116-1118 | over every run, what an acknowledgement can measure has been transmitted just once exactly when its timing began in tcp_output with a segment at snd_nxt and no fast retransmit has sent it again |
| RttTiming.TimeoutTimesAgain | core/tcp_out.c:1274-1278 | a timeout that retransmits starts the timing again with the segment it sends again, and the next acknowledgement of anything new measures it |
| Rtt.RttEstimator.BackOff | core/tcp.c:820-822 | with an estimate from round trips of at most 50 ticks, each retransmission doubles the timeout as the table says, never below the estimate, without overflow |

## Left out

- SYN, FIN and RST on the send side (`tcp_enqueue_flags`, `tcp_send_fin`), the state machine of RFC 793 and listening pcbs: the send side is a connection after its handshake and before its FIN.
- Congestion window, slow start and persist timer: the window that `tcp_output` uses is any value at every call.
- The header fields and options of what `tcp_output` sends, and checksums.
- TcpReceiver.Receiver.Receive: a segment carries at most 65495 bytes, all an IPv4 datagram has room for. The offset that trimming hands to `pbuf_header` is cut to 16 bits there; with receive pbufs of 1000 bytes none is lost.
- TcpReceiver.Receiver.Recved: the edge announced last is less than 2^31 behind `rcv_nxt`, as are those of UpdateAnnouncedWindow and Receive; `tcp_update_rcv_ann_wnd` asserts as much. RcvWindow.NeverOvertaken shows when it is kept by a peer that stays at or below that edge.
- TcpSender.Sender.Write: assumes an mss_local of at least 1. With 0, what a last segment does not take goes into segments of no bytes until the queue is too long, and ERR_MEM is returned.
- Conservation.StepConserves: a write is followed only while the last segment's length fits its 16 bits. `TcpIp.c:286` always asks for a copy, which comes out of a heap of 6144 bytes, so no segment gets that long here.
- Conservation.QueuesConserve: the same restriction; TcpSender.Sender.RoomyCountable shows that no write needs it where the segments are within `mss_local`.
- TcpSender.Sender.SlowTimer: `rtime` is unbounded here, and the number of retransmissions is not counted.
- Rtt.RttEstimator.Measure: the estimator is an object of its own here; `RttTiming` says when a run of the send side calls it, with any tick count at any event.
- EndToEnd.ReceivedIsPrefixOfWritten: nothing lives in the network while half the sequence space goes by (section 3.3 of RFC 793); the data go one way.
- The unused difference computed at `core/tcp_out.c:965`.
- Data that the application refuses, and the list of pcbs: one connection is modelled.
- RcvWindow.WindowKept: is about a peer whose segments end inside the window, FIN included, and nothing else is asked of them; only the append branch trims to it.
- PbufPool.PbufMemory.Cat: is stated for chains that do not already lead back to the first one; `pbuf_cat` does not test for that.
- PbufPool.PbufMemory.Chain: the same restriction as Cat.
- PbufPool.PbufMemory.AddRef: the 16-bit width of `ref` is not modelled; counts are unbounded here.
- PbufPool.PbufMemory.CutAfter: clears the pointer before it drops the reference; `pbuf_realloc` does it after, which only pbufs being freed could tell.
- PbufChains.Take: chains are values with their data in them; payloads that two chains share are not modelled, nor is `pbuf_header`.
- `mem_calloc`, the pool variant of `mem_malloc`, and freeing from another context.
- PbufPackets.AllocPool: only the layer without room for headers, which `TcpIp.c` allocates for received frames.
- EthArp.ArpCache.QueryAddress: whether an ARP request goes out, and the result codes, are not modelled.
- Timers.TimerList.CheckTimeouts: a handler does not arm a timer with no delay, and does not check the timers itself.
- EthArp.ArpCache.OutputPacket: starts from the address on the link; broadcast, multicast and the choice of a gateway are not modelled, and neither are static entries, which are compiled out.
- UdpPorts.UniqueReceiver: broadcast and multicast datagrams (`core/udp.c:250-256`), which two bindings without conflict may both accept, and the remote address that a connected pcb tests, are not modelled.
- `tcp_new_port`, the same search over the lists of TCP pcbs, would only repeat `udp_new_port`.
- `core/dhcp.c`, `core/dns.c`, the AUTOSAR dispatch around the core and all drivers.
