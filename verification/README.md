# Remote debug streaming link: a verified model

The repository's server carries debug packets between a TCP client and an FPGA
debug IP. This project models that link and proves what it is for: both
directions are FIFOs of packets, the small pieces of modular arithmetic they
rest on agree with each other, the interrupt thread neither misses a wake-up
nor survives its shutdown, and the connection handshake leaks no socket.

Each link has two layers. The first is a step system on values: `H2tLink` and
`T2hLink` interleave the server and driver with a debug IP that acts at any
moment, and the theorems speak of every sequence of steps. The second is
imperative, in the form of the C code: arrays, counters and loops in the
classes of `Allocator`, `Sockets`, `Fpga`, `Driver`, `Server` and `T2hServer`.
The methods of the two servers return the steps of the first layer that they
took, so the theorems hold of the code-shaped layer (`ServeH2t`, `ServeT2h`);
what they promise is conditional only on what a caller sees of the sockets.
The connection handshake (`Connections`, `Handshake`) is imperative over a
network whose every answer may fail and which logs what happened; the interrupt
protocol (`Interrupts`) is a step system of two threads, with the API calls as
methods.

Host to target: the server receives a 10-byte guardband and header, asks the
driver for a buffer, receives the payload in one or two pieces, stores it by
64-bit words and pushes a descriptor. The driver learns from a hardware counter
how many descriptors the IP has retired and frees their bytes through a ring of
128 entries. Without room the header is kept and the packet retried. Absolute
byte positions that never wrap (`History.pos`) name the allocations; offsets,
ring indices and the 16-bit write index are their remainders. The invariant has
two halves: its structure (`Shape`) holds in every run, whatever the payload
lengths and however many payload receives fail; its content (`Content`) as long
as none fails. `Longs` counts the accepted payloads of more than 65528 bytes.

Target to host: the driver polls the oldest descriptor, derives SOP and EOP,
the server sends header and payload and only then marks the descriptor done.

Conventions. Bytes and C integers are mathematical integers with explicit
widths (`U16`, `U32`, `Hi32`, `Low31`, `Bit31`); masks and shifts of unsigned
values are written as the remainders and quotients they compute. The memory of
the IP is a byte sequence; register accesses are functions on its state. A
64-bit access is native or made of two 32-bit ones, and the IP may act between
any two of them. The
IP holds at most 128 descriptors, retires them in order and fetches payloads
with wrap-around. A socket delivers any positive number of bytes per call or
fails. Where code and documentation disagree, the code is followed.

## Where the code stops short of its purpose

Each of these is stated as an exact condition.

- `socket_recv_accumulate_h2t_data` returns OK when the receive failed, so a
  descriptor for missing bytes is pushed. For every run from an allocation to its
  push, the link stays a FIFO if and only if the whole payload arrives, that is
  if and only if no receive fails (`H2tLimits.PayloadArrivalDecides`).
- The descriptor chain holds `unsigned short` sizes. In every run exactly 65536
  bytes are lost for each accepted payload of more than 65528 bytes
  (`H2tTheorems.Conserved`), so free space and live entries make up the memory if
  and only if there was none (`H2tLimits.ChainEntryDecides`). Delivery, order and
  disjointness do not depend on it. The protocol's own maximum is 4096.
- `connect_client` does not clear `h2t_waiting`. In every run of a session each
  counted packet has a header of that session, if and only if the session does
  not start with the flag set and a header that can be served
  (`H2tLimits.WaitingFlagDecides`).
- A waiting packet can be accepted if and only if the IP has descriptors at all
  and the aligned size fits what such payloads have left of the memory
  (`H2tSafety.AcceptanceDecides`); a 2 KiB memory and the protocol's maximum of
  4096 bytes do not go together. Such a header blocks the session for ever
  (`H2tSafety.NeverServed`).
- The T2H header has 16 bits for channel and length. The client reads a completed
  packet as the IP produced it if and only if both fit
  (`T2hTheorems.LengthFieldDecides`); a length that is a multiple of 65536, 0
  included, is an empty poll for ever (`T2hTheorems.CompletionDecides`).
- Server loopback, which bypasses the allocator, is the identity if and only if
  the payload fits the memory (`Loopback.LoopbackDecides`). A payload of more than
  the memory size plus 64 bytes does not fit the staging buffers either
  (streaming/src/intel_st_debug_if_sockets.c:46-47, 102-107).
- `fpga_platform_cleanup` reads the semaphore only when the unlock has failed, so
  it posts whatever the value. The semaphore is at most 1 until cleanup and does
  reach 2 afterwards (`Interrupts.NoLostWakeUp`, `Interrupts.CleanupPostsAgain`);
  shutdown terminates all the same.
- The computed memory map is usable if and only if the size is a positive
  multiple of 8 and three times the size stays within 2^31
  (`MemoryMap.MapDecides`). The MGMT slot register that `init_driver` reads lies
  inside a memory if and only if the size is from 257 to 4352
  (`MemoryMap.MgmtRegisterDecides`).

## Model

| member | source | states |
|---|---|---|
| Circular.Aligned | streaming/inc/intel_st_debug_if_st_dbg_ip_driver.h:38-39 | the least whole number of 64-bit words that holds the payload |
| Circular.WrapBoundarySplits | streaming/src/intel_st_debug_if_server.c:478-487 | for every aligned start the boundary function returns a value strictly inside the payload exactly when the payload runs over the end, the first piece is whole words and ends at the end of the buffer |
| Circular.SplitStoreIsCircular | streaming/src/intel_st_debug_if_server.c:517-527 | the one or two stores of a padded payload equal one store modulo the span |
| Circular.SplitLoadIsCircular | streaming/src/intel_st_debug_if_server.c:645-654 | the one or two loads of a payload equal one load modulo the span |
| Circular.ReadPastWrite | streaming/src/intel_st_debug_if_server.c:517-527 | a circular store leaves every earlier region of the same lap alone |
| Packets.PopulateGuardband | streaming/src/intel_st_debug_if_packet.c:34-38 | fills exactly the four bytes DE AD BE EF |
| Packets.PopulateHeaderBytes | streaming/src/intel_st_debug_if_packet.c:55-70 | the six bytes by position: flags, connection, channel and length low byte first; nothing else changes |
| Packets.PopulatePacketBytes | streaming/src/intel_st_debug_if_packet.c:72-83 | the ten bytes by position and value, guardband first; nothing else changes |
| Packets.HeaderRoundTrip | streaming/src/intel_st_debug_if_packet.c:40-83 | every header decodes to its SOP, EOP, connection, channel and length; a received header re-encodes to itself exactly when its guardband is intact |
| Packets.DecodeLayout | streaming/inc/intel_st_debug_if_packet.h:57-62 | which received byte holds the flags, the connection and the two little-endian fields |
| Packets.FrameLayout | streaming/src/intel_st_debug_if_packet.c:72-83 | a client's frame byte by byte, and the packet it stands for |
| Packets.PacketLayout | streaming/inc/intel_st_debug_if_packet.h:57-62 | the packet of a received header by that header's bytes |
| Packets.ParseStream | streaming/src/intel_st_debug_if_packet.c:72-83 | the encoded stream of any packets parses back to exactly those packets |
| Packets.ParseAppend | streaming/src/intel_st_debug_if_server.c:489-499 | splitting the stream anywhere does not change the packets found in it |
| Allocator.CircleBuff.Init | streaming/inc/intel_st_debug_if_st_dbg_ip_allocator.h:39-46 | an empty buffer: the whole span is free and both offsets are zero |
| Allocator.CircleBuff.Free | streaming/inc/intel_st_debug_if_st_dbg_ip_allocator.h:49-52 | the freed bytes become available and the read offset advances around the circle, nothing else changes |
| Allocator.CircleBuff.Alloc | streaming/inc/intel_st_debug_if_st_dbg_ip_allocator.h:55-61 | returns the address at the old write offset, takes the bytes and advances the write offset around the circle |
| Allocator.FreeTracks | streaming/inc/intel_st_debug_if_st_dbg_ip_allocator.h:49-52 | freeing keeps offsets and free space equal to the remainders and the difference of two positions that never wrap, less the bytes that were never given back |
| Allocator.AllocTracks | streaming/inc/intel_st_debug_if_st_dbg_ip_allocator.h:55-61 | so does allocating, and the address is that of the first free byte |
| Allocator.OffsetLaw | streaming/inc/intel_st_debug_if_st_dbg_ip_allocator.h:39-61 | the write offset follows from the read offset and the free space, full and empty included, whatever has leaked |
| DebugIp.EmulationAgrees | protodrv_api/uio/inc/intel_fpga_api_uio.h:75-99 | two 32-bit stores equal one native 64-bit store, which sets both registers of a pair before anything is pushed, and on memory; two 32-bit loads of memory equal one 64-bit load |
| Fpga.PairStored | protodrv_api/uio/inc/intel_fpga_api_uio.h:89-99 | descriptors retired between the two halves of an emulated store to a register pair make no difference |
| Fpga.Mmio.Write | protodrv_api/uio/inc/intel_fpga_api_uio.h:89-99 | a store of either form is two 32-bit stores with the IP retiring before and in between |
| Fpga.Mmio.Read | protodrv_api/uio/inc/intel_fpga_api_uio.h:75-87 | a load of memory of either form returns the 64-bit word although the IP retires in between |
| DebugIp.PushRoundTrip | streaming/src/intel_st_debug_if_st_dbg_ip_driver.c:140-152 | the two pushed words unpack to the header's length, EOP, connection and channel and the payload address, as one more descriptor |
| DebugIp.PushedWords | streaming/src/intel_st_debug_if_st_dbg_ip_driver.c:142-149 | the two pushed words and their register addresses in plain numbers |
| DebugIp.WordCopies | streaming/src/intel_st_debug_if_st_dbg_ip_driver.c:322-340 | one iteration of either copy loop moves eight bytes unchanged |
| H2tDriver.PollBooks | streaming/src/intel_st_debug_if_st_dbg_ip_driver.c:113-123 | a poll never underflows, sees exactly the retirements since the last one and frees what the oldest entries record |
| H2tDriver.AllocateBooks | streaming/src/intel_st_debug_if_st_dbg_ip_driver.c:127-134 | an allocation of any size keeps the bookkeeping and returns the first free byte |
| H2tDriver.ChainAppend | streaming/src/intel_st_debug_if_st_dbg_ip_driver.c:131 | writing the next ring entry overwrites no live entry |
| H2tDriver.SlotOfU16 | streaming/src/intel_st_debug_if_st_dbg_ip_driver.c:131 | the ring slot is unaffected by the 16-bit wrap of the write index |
| H2tInvariant.InitShape | streaming/src/intel_st_debug_if_st_dbg_ip_driver.c:58-99 | a fresh session satisfies the structural invariant, with h2t_waiting clear or set |
| H2tInvariant.NextShape | streaming/src/intel_st_debug_if_server.c:489-555 | every step keeps the structural invariant, whatever the payload length; failed payload receives and the second piece after a lost first one included |
| H2tInvariant.RunLeaks | streaming/src/intel_st_debug_if_st_dbg_ip_driver.c:127-133 | what the chain entries of a run do not record is 65536 bytes for each accepted payload above 65528 bytes |
| H2tInvariant.InitRep | streaming/src/intel_st_debug_if_st_dbg_ip_driver.c:58-99 | a fresh session with h2t_waiting clear satisfies the whole link invariant |
| H2tInvariant.NextRep | streaming/src/intel_st_debug_if_server.c:489-555 | every step that does not fail a payload receive keeps the content invariant as well |
| H2tInvariant.ExecRep | streaming/src/intel_st_debug_if_server.c:489-555 | so does every sequence of such steps |
| H2tTheorems.RunsStayReachable | streaming/src/intel_st_debug_if_server.c:489-555 | every run leads from reachable states to reachable states, and adds its payloads above 65528 bytes to the count |
| H2tTheorems.Fifo | streaming/src/intel_st_debug_if_server.c:489-555 | in every reachable state without a failed payload receive the received bytes parse to the packets read by the IP, then those it will read from memory as it is, then the current one |
| H2tTheorems.DeliveredAsReceived | streaming/src/intel_st_debug_if_server.c:489-555 | the same for whatever bytes the client sends: the IP reads a prefix of the packets in the received bytes, and all of them between packets with an empty queue |
| H2tTheorems.DeliveredInOrder | streaming/src/intel_st_debug_if_server.c:489-555 | for every interleaving and fragmentation in which no receive failed but the one that ended the session, the IP reads a prefix of the packets the client encoded, and all of them once the stream is consumed and the queue empty |
| H2tTheorems.PushedDescriptor | streaming/src/intel_st_debug_if_st_dbg_ip_driver.c:140-152 | the descriptor a push queues has connection, EOP, channel and length of the received header's bytes 5, 4, 6-7 and 8-9 |
| H2tTheorems.Conserved | streaming/src/intel_st_debug_if_st_dbg_ip_driver.c:113-133 | in every run free space plus live entries plus 65536 bytes for each accepted payload above 65528 bytes is the span, and the offsets and the ring indices agree, however many payload receives failed |
| H2tTheorems.SlotAccounting | streaming/src/intel_st_debug_if_st_dbg_ip_driver.c:113-123 | in every reachable state the polled difference is the number of descriptors retired since the last poll, is at most 128 and never underflows |
| H2tTheorems.PollFreesRetired | streaming/src/intel_st_debug_if_st_dbg_ip_driver.c:113-123 | after a poll in any reachable state the ring holds, entry by entry, the recorded sizes of what the IP still holds |
| H2tSafety.InFlightDisjoint | streaming/src/intel_st_debug_if_st_dbg_ip_driver.c:332-340 | in every reachable state no byte of memory belongs to two unretired packets |
| H2tSafety.StoreStaysInAllocation | streaming/src/intel_st_debug_if_st_dbg_ip_driver.c:332-340 | whatever step changes a byte of memory in a reachable state, the byte belongs to the newest allocation, padding and the second piece after a lost first one included, and to no unretired packet |
| H2tSafety.OutsideUntouched | streaming/src/intel_st_debug_if_st_dbg_ip_driver.c:332-340 | no sequence of steps changes a byte outside the H2T memory |
| H2tSafety.AcceptedNow | streaming/src/intel_st_debug_if_st_dbg_ip_driver.c:111-137 | in every reachable state, whatever is in flight, a poll accepts the packet if and only if a descriptor is free and its aligned size fits beside the recorded sizes of the unretired packets and what long payloads have cost |
| H2tSafety.EmptyQueueAccepts | streaming/src/intel_st_debug_if_st_dbg_ip_driver.c:111-137 | once everything is retired the next poll accepts the packet if and only if there are descriptors and its aligned size fits the memory less 65536 bytes for each payload above 65528 bytes: nothing else leaks |
| H2tSafety.WaitingIsServed | streaming/src/intel_st_debug_if_st_dbg_ip_driver.c:111-137 | after as many retirements as there were descriptors, whatever is interleaved, the poll serves a waiting packet if and only if it fits |
| H2tSafety.AcceptanceDecides | streaming/src/intel_st_debug_if_st_dbg_ip_driver.c:111-137 | some run accepts the waiting packet if and only if it fits in that sense |
| H2tSafety.NeverServed | streaming/src/intel_st_debug_if_server.c:489-551 | a header whose payload does not fit is never served: no run reads another byte or counts another packet |
| H2tSafety.BackPressure | streaming/src/intel_st_debug_if_server.c:489-551 | until the waiting packet is accepted header, stream position and packets in flight do not change, from any state and whatever the number of retries |
| H2tSafety.PacketsCounted | streaming/src/intel_st_debug_if_server.c:513-551 | h2t_cnt is the number of accepted packets in every reachable state, and the waiting flag means that a header waits |
| H2tSafety.BytesAccounted | streaming/src/intel_st_debug_if_server.c:513-551 | without failed payload receives each accepted packet consumed one header and its payload |
| H2tBounds.PollBalanced | streaming/src/intel_st_debug_if_st_dbg_ip_driver.c:113-123 | a poll frees no more than was live, even with truncated entries |
| H2tBounds.AllocateBalanced | streaming/src/intel_st_debug_if_st_dbg_ip_driver.c:127-134 | every buffer handed out is aligned and fits the memory |
| H2tBounds.AlwaysSane | streaming/src/intel_st_debug_if_st_dbg_ip_driver.c:111-152 | slots, space and buffer bounds hold in every sequence of steps, lossy ones included |
| H2tLimits.PayloadArrivalDecides | streaming/src/intel_st_debug_if_sockets.c:164-173 | for every run from the allocation to the push, with any fragments, retirements and pieces in between, the link stays a FIFO exactly when the whole payload arrives, and exactly when no receive fails |
| H2tLimits.LostPayload | streaming/src/intel_st_debug_if_sockets.c:164-173 | a concrete case: a client that announces a payload and is gone makes the IP read a packet that was never received |
| H2tLimits.LongPayload | streaming/src/intel_st_debug_if_st_dbg_ip_driver.c:127-133 | a concrete case: a first packet of 65535 bytes breaks the conservation law |
| H2tLimits.ChainEntryDecides | streaming/src/intel_st_debug_if_st_dbg_ip_driver.c:127-133 | free space plus live entries is the span, in a state any run reaches, exactly when the run accepted no payload above 65528 bytes |
| H2tLimits.WaitingFlagDecides | streaming/src/intel_st_debug_if_server.c:939-953 | in every run of a session each counted packet has a header of that session, exactly unless it starts with the flag set, with descriptors and with a held header that fits |
| Loopback.LoopbackDecides | streaming/src/intel_st_debug_if_server.c:510-544 | loopback returns every payload of a length unchanged exactly when that length fits the memory |
| Loopback.LongEcho | streaming/src/intel_st_debug_if_server.c:510-544 | what comes back of a payload longer than the memory, byte by byte |
| Loopback.TwoPieces | streaming/src/intel_st_debug_if_server.c:517-522 | receiving both pieces at the memory base and loading linearly gives the echo |
| MemoryMap.MapSizes | streaming/src/intel_st_debug_if_stream_dbg.c:63-93 | both memories have the requested size; exactly which addresses belong to the H2T and to the T2H memory |
| MemoryMap.MapDecides | streaming/src/intel_st_debug_if_stream_dbg.c:63-93 | both links can use the computed map exactly for positive multiples of 8 with three memory sizes within 2^31 |
| MemoryMap.MapDisjoint | streaming/src/intel_st_debug_if_stream_dbg.c:63-93 | H2T memory, T2H memory and the H2T and T2H registers do not overlap |
| MemoryMap.MgmtRegisterDecides | streaming/src/intel_st_debug_if_st_dbg_ip_driver.c:87-88 | the MGMT slot register lies inside one of the memories exactly for sizes from 257 to 4352 |
| MemoryMap.MapHasLoopbackRoom | streaming/src/intel_st_debug_if_stream_dbg.c:63-93 | the staging buffers of loopback fit between the H2T memory base and the end of the window |
| MemoryMap.H2tStaysInItsMemory | streaming/src/intel_st_debug_if_stream_dbg.c:63-93 | under the computed map no H2T step changes T2H memory or the address of an H2T or T2H register |
| Sockets.SendAll | streaming/src/intel_st_debug_if_sockets.c:82-99 | emits exactly the buffer, or a proper prefix and FAILURE, however `send` fragments |
| Sockets.RecvAccumulate | streaming/src/intel_st_debug_if_sockets.c:141-161 | the buffer holds exactly the next bytes of the stream; OK exactly when all arrived |
| Sockets.RecvUntilNullReached | streaming/src/intel_st_debug_if_sockets.c:111-139 | unless a receive fails, OK exactly when the first NUL is within the limit, with the same string however the chunks fall |
| Driver.StDbgIp.Init | streaming/src/intel_st_debug_if_st_dbg_ip_driver.c:80-92 | establishes the initial driver state against the reset IP |
| Driver.StDbgIp.BytesFreed | streaming/src/intel_st_debug_if_st_dbg_ip_driver.c:116-119 | the `char`-counted loop sums exactly the oldest entries, up to all 128 |
| Driver.StDbgIp.FreeRetired | streaming/src/intel_st_debug_if_st_dbg_ip_driver.c:113-124 | the poll leaves exactly the state of the poll function, with the IP retiring concurrently |
| H2tDriver.GetBufferIs | streaming/src/intel_st_debug_if_st_dbg_ip_driver.c:127-136 | with a free slot and enough free space after the poll, and only then, the packet gets the next address, one chain entry and its aligned bytes |
| Driver.StDbgIp.GetH2tBuffer | streaming/src/intel_st_debug_if_st_dbg_ip_driver.c:111-137 | the new static state and the result are those of the poll and allocation functions, with the IP retiring concurrently |
| Driver.StDbgIp.PushH2tData | streaming/src/intel_st_debug_if_st_dbg_ip_driver.c:140-152 | takes a slot and performs the two register stores with the header's fields |
| Driver.StDbgIp.MemcpyHost2Fpga | streaming/src/intel_st_debug_if_st_dbg_ip_driver.c:332-340 | stores the buffer's words in order, with the IP retiring between any two |
| Driver.StDbgIp.MemcpyFpga2Host | streaming/src/intel_st_debug_if_st_dbg_ip_driver.c:322-330 | loads whole words that equal memory byte for byte |
| Driver.CopyToStores | streaming/src/intel_st_debug_if_st_dbg_ip_driver.c:332-340 | retirements aside, the copy loop is one store of all its words |
| Driver.CopyToLoads | streaming/src/intel_st_debug_if_st_dbg_ip_driver.c:322-340 | what one copy stored the other loads |
| H2tRuns.CopyRun | streaming/src/intel_st_debug_if_st_dbg_ip_driver.c:332-340 | the copy loop is a sequence of link stores interleaved with retirements, at the circular positions of the payload |
| Server.H2tServer.Connect | streaming/src/intel_st_debug_if_server.c:225-241 | a session starts in the initial state of the link, with h2t_waiting as it was left |
| Server.H2tServer.UpdateCurrH2tHeader | streaming/src/intel_st_debug_if_server.c:489-499 | receives the next header, or keeps the waiting one without consuming a byte |
| Server.H2tServer.RecvAccumulateH2tData | streaming/src/intel_st_debug_if_sockets.c:164-173 | a whole piece ends up in FPGA memory, one that comes short changes nothing there; both return OK, and the second counts one failed receive |
| Server.H2tServer.ReceivePayload | streaming/src/intel_st_debug_if_server.c:516-527 | the one- or two-piece receive is a sequence of link steps that leaves a packet ready to push, intact exactly when no receive failed |
| Server.H2tServer.AcquireBuffer | streaming/src/intel_st_debug_if_server.c:507-515 | asking the driver is one link step; counter and waiting flag follow its result; the buffer fits, or the IP has no free descriptor or no room beside its unretired packets |
| Server.H2tServer.ProcessH2tData | streaming/src/intel_st_debug_if_server.c:501-555 | one call is a sequence of link steps from between packets to between packets, or to the end of the session exactly when a header does not arrive; otherwise one packet is counted, or one waits and the IP is full |
| Server.H2tServer.ServeRounds | streaming/src/intel_st_debug_if_server.c:737-856 | every round of the client loop counts one packet, or at some point of the run a header waited for a free descriptor or for room beside the unretired packets |
| Server.H2tServer.ServeH2t | streaming/src/intel_st_debug_if_server.c:737-856 | any number of calls and any client stream, as long as no receive failed but the one that ended the session: the IP reads a prefix of the packets in the received bytes, so of those a client encoded, and all of them once they are consumed and the queue is empty |
| Server.H2tServer.SendAllT2hData | streaming/src/intel_st_debug_if_sockets.c:102-109 | sends exactly the bytes in FPGA memory, or a prefix and FAILURE |
| Server.H2tServer.ReceiveAtBase | streaming/src/intel_st_debug_if_server.c:517-527 | with loopback on the one or two pieces leave the echo of the payload at the memory base; the payload comes short exactly when a receive fails |
| Server.H2tServer.EchoPacket | streaming/src/intel_st_debug_if_server.c:510-544 | header and the echo of the payload are sent back, through the copies in both directions and their tail rounding; OK exactly when no send fails |
| Server.H2tServer.ProcessH2tLoopback | streaming/src/intel_st_debug_if_server.c:501-555 | one call with loopback on consumes exactly one packet and echoes it; it reports a loss exactly when the payload came short, and an error exactly when the header did or a send failed |
| Server.H2tServer.ServeLoopback | streaming/src/intel_st_debug_if_server.c:737-856 | any number of calls and any client stream, up to the first payload that comes short: without a failed socket call every call echoes one packet, and if the payloads fit the memory the T2H bytes equal the consumed H2T bytes |
| T2hLink.NextInv | streaming/src/intel_st_debug_if_server.c:631-667 | every step of the server or the IP keeps the T2H invariant, whatever the payload lengths |
| T2hTheorems.ExactlyOnce | streaming/src/intel_st_debug_if_server.c:631-667 | in every run the wire is the in-order frames of the completed descriptors plus at most a prefix of the current one, and t2h_cnt counts them |
| T2hTheorems.DoneAfterSent | streaming/src/intel_st_debug_if_server.c:656-660 | a descriptor is marked done only when its whole packet is on the wire |
| T2hTheorems.WireParses | streaming/src/intel_st_debug_if_st_dbg_ip_driver.c:200-223 | the wire parses back to the packets, cut to 16-bit channel and length, with SOP exactly on the first and after an EOP |
| T2hTheorems.FrameLayout | streaming/src/intel_st_debug_if_server.c:643-654 | a frame on the wire byte by byte |
| T2hTheorems.ClientSeesPrefix | streaming/src/intel_st_debug_if_server.c:631-667 | what a client can parse at any time of any run is a prefix of what the IP produced, cut to 16-bit fields, and contains all that is completed |
| T2hTheorems.Regroup | streaming/src/intel_st_debug_if_st_dbg_ip_driver.c:205-218 | reassembly by SOP and EOP recovers exactly the grouping into messages |
| T2hTheorems.MessagesRecovered | streaming/src/intel_st_debug_if_st_dbg_ip_driver.c:205-218 | end to end the client recovers the grouping into messages, and holds the IP's messages themselves exactly when every channel and length fits 16 bits |
| T2hTheorems.LengthFieldDecides | streaming/src/intel_st_debug_if_st_dbg_ip_driver.c:200-222 | in every run the client parses a completed packet as it was produced exactly when its channel and length fit 16 bits |
| T2hTheorems.OnlyAnnouncedDone | streaming/src/intel_st_debug_if_st_dbg_ip_driver.c:204-208 | in no run is a packet completed whose length is a multiple of 65536, 0 included |
| T2hTheorems.CompletionDecides | streaming/src/intel_st_debug_if_st_dbg_ip_driver.c:204-208 | with the server idle, no run sends a byte or completes a packet exactly when the oldest length is a multiple of 65536 |
| T2hServer.T2hServer.Connect | streaming/src/intel_st_debug_if_server.c:225-241 | a session starts in the initial state of the link, with SOP due and nothing counted |
| T2hServer.T2hServer.GetT2hData | streaming/src/intel_st_debug_if_st_dbg_ip_driver.c:200-223 | an empty poll changes no SOP state and means that no length was announced when it began; otherwise the header buffer holds, byte by byte, SOP and the fields of the oldest descriptor, although the IP may act between the halves of a register read |
| T2hServer.T2hServer.MemcpyFpga2Host | streaming/src/intel_st_debug_if_st_dbg_ip_driver.c:322-330 | the staging buffer holds the piece of the payload although the IP writes other payloads meanwhile, between the halves of a word too |
| T2hServer.T2hServer.SendAllT2hData | streaming/src/intel_st_debug_if_sockets.c:102-109 | loading and sending a piece are link steps |
| T2hServer.T2hServer.SendPayload | streaming/src/intel_st_debug_if_server.c:643-655 | the one or two pieces send the payload as far as the length field announces it, or end the session exactly when a send fails |
| T2hServer.T2hServer.ProcessT2hData | streaming/src/intel_st_debug_if_server.c:631-667 | one call is a sequence of link steps from idle to idle, or to the end of the session exactly when a send fails; it counts one packet or is one empty poll |
| T2hServer.T2hServer.ServeRounds | streaming/src/intel_st_debug_if_server.c:737-856 | counted packets and empty polls add up to the rounds of the client loop |
| T2hServer.T2hServer.ServeT2h | streaming/src/intel_st_debug_if_server.c:737-856 | after any number of calls the client has received exactly the frames of the completed packets, or part of one more if a send failed, and parses them back cut to 16-bit fields |
| Interrupts.ExecInv | protodrv_api/uio/src/intel_fpga_platform_api_uio.c:81-172 | the protocol invariant holds in every interleaving |
| Interrupts.NoLostWakeUp | protodrv_api/uio/src/intel_fpga_platform_api_uio.c:101-160 | an enabled thread at its semaphore wait finds the semaphore positive or the enabler about to post; the semaphore does not exceed 1 before cleanup, nor 2 afterwards |
| Interrupts.CleanupPostsAgain | protodrv_api/uio/src/intel_fpga_platform_api_uio.c:246-251 | a concrete case: cleanup after an enable leaves the semaphore at 2 |
| Interrupts.EnabledThreadPolls | protodrv_api/uio/src/intel_fpga_platform_api_uio.c:83-160 | once an enable call has returned, with any thread steps inside it, the flag is set and a thread that has not exited polls the device within three of its own steps |
| Interrupts.DisabledNeverPolls | protodrv_api/uio/src/intel_fpga_api_uio.c:89-98 | from a disable call to the next enable the flag is clear and no step of the thread starts a poll |
| Interrupts.ThreadSurvives | protodrv_api/uio/src/intel_fpga_platform_api_uio.c:83-165 | before cleanup and without failures the thread does not exit |
| Interrupts.SemaphoreCounts | protodrv_api/uio/src/intel_fpga_platform_api_uio.c:144-160 | every completed semaphore wait has consumed one post |
| Interrupts.JoinTerminates | protodrv_api/uio/src/intel_fpga_platform_api_uio.c:238-266 | once cleanup is in its join, four steps of the thread end it |
| Interrupts.ShutdownTerminates | protodrv_api/uio/src/intel_fpga_platform_api_uio.c:232-266 | from every reachable state the thread completes at most one more semaphore wait, does not block in it, exits, and the join returns |
| Interrupts.Platform.EnableInterrupt | protodrv_api/uio/src/intel_fpga_api_uio.c:68-87 | the call sets the flag unless the handle is unknown; with the thread running between any two of its accesses it is the enable operation of the protocol |
| Interrupts.Platform.DisableInterrupt | protodrv_api/uio/src/intel_fpga_api_uio.c:89-98 | the call clears the flag unless the handle is unknown, as the disable operation of the protocol |
| Interrupts.Platform.StopThread | protodrv_api/uio/src/intel_fpga_platform_api_uio.c:238-252 | with the thread running between any two of its accesses the thread-stop part of cleanup is the cleanup operation of the protocol, which posts unconditionally, up to the join |
| Interrupts.Platform.RunThread | protodrv_api/uio/src/intel_fpga_platform_api_uio.c:83-160 | each access of the thread's loop is the thread step of the protocol; it starts a poll only when enabled, and completing a wait takes one from the semaphore |
| Messages.DecimalDigits | streaming/src/intel_st_debug_if_common.c:34-36 | the handle is written in decimal digits without leading zeros |
| Messages.NoHandle | streaming/src/intel_st_debug_if_common.c:38-46 | parsing gives -1 exactly for a text without the marker |
| Messages.HandleRoundTrip | streaming/src/intel_st_debug_if_common.c:34-46 | the handle parsed from an expected message is the handle it was made from |
| Messages.ExpectedInjective | streaming/src/intel_st_debug_if_common.c:34-36 | no two sockets or handles share an acknowledgement |
| Messages.StrncmpIsEquality | streaming/src/intel_st_debug_if_server.c:205 | the bounded comparison accepts exactly the expected text |
| Connections.ConsistentCounts | streaming/src/intel_st_debug_if_server.c:303-347 | in any consistent log each connection was accepted once and closed once unless it is still open |
| Connections.ServedAfterHandshake | streaming/src/intel_st_debug_if_server.c:225-301 | the client loop is entered only right after five connections, in order, acknowledged one handle |
| Connections.SessionIs | streaming/src/intel_st_debug_if_server.c:193-301 | the whole handshake, event by event and text by text |
| Handshake.GenerateExpected | streaming/src/intel_st_debug_if_common.c:34-36 | the control buffer holds the expected text as a C string |
| Handshake.Exchange | streaming/src/intel_st_debug_if_server.c:201-216 | the acknowledgement is accepted exactly when every call succeeds and the text is the expected one; a wrong text is answered NOT_READY |
| Handshake.ConnectClientSocket | streaming/src/intel_st_debug_if_server.c:193-223 | OK exactly when accept, the exact acknowledgement and the ready message happened, and exactly when no call failed and no text was wrong; the accepted socket is owned on every path |
| Handshake.ConnectControl | streaming/src/intel_st_debug_if_server.c:243-273 | the same for the control socket after the welcome message |
| Handshake.ConnectData | streaming/src/intel_st_debug_if_server.c:275-286 | the other four sockets, OK exactly when all joined in order, each connection in its own field; the first failure leaves the rest unconnected |
| Handshake.ConnectClient | streaming/src/intel_st_debug_if_server.c:225-301 | OK exactly when the whole handshake happened, and exactly when the driver was ready, no call failed and no text was wrong; then each connection is in its own field; on every path the connection record owns exactly the open sockets |
| Handshake.CloseClientConn | streaming/src/intel_st_debug_if_server.c:303-347 | closes every owned socket once and nothing else |
| Handshake.RejectClient | streaming/src/intel_st_debug_if_server.c:714-735 | unless a call fails one more connection was accepted, told SERVER_BUSY and closed; the open sockets are as before |
| Handshake.HandleClient | streaming/src/intel_st_debug_if_server.c:737-856 | the client loop neither opens nor closes a socket of the client, and turns away every other client that knocks |
| Handshake.ServeOne | streaming/src/intel_st_debug_if_server.c:939-958 | after an iteration no socket is open, none was closed twice, the client was served after a whole handshake, and failure means a failed call or a wrong text |
| Handshake.ServerMain | streaming/src/intel_st_debug_if_server.c:927-959 | over all clients every accepted connection was closed exactly once, the client loop follows a whole handshake only, every OK stands for a served client and every failure for a failed call or a wrong text |

## Left out

- DeliveredInOrder: assumes that no receive failed but the one that ended the session; the limit is exact by PayloadArrivalDecides.
- ServeLoopback: speaks of the calls up to the first payload that comes short; loopback is not switched within a session, so it never mixes with descriptors in flight.
- EchoPacket: payloads of at most the memory size plus 64 bytes, so for ServeLoopback streams whose headers announce no more; what a longer one overwrites behind the staging buffers is not modelled.
- NoLostWakeUp: one application thread; lock and semaphore calls succeed.
- HandleClient: what each `select` reports and whether a control or data call ends the loop is an input; the data calls themselves are those of the two links.
- RecvUntilNullReached: the handshake uses an abstraction of it on characters (`Net.RecvUntilNull`), not this method.
- RunThread: opening and arming the device and the ISR may succeed or fail at will.
- The version and type check of `init_driver` is an input, success or failure.
- The MGMT and MGMT_RSP path, which is compiled out and is a near-copy of H2T and T2H; of it only the address of the slot register appears, at 0x1100.
- T2H connection numbers wider than the 8 bits the driver keeps of them.
- The hardware loopback parameter, which resets the IP in the middle of a session.
- Control commands, parameter strings, the welcome text, socket options, `select`, port files and logging.
- Command-line parsing, device scanning, `mmap`, interrupt service routines and the 512-bit accesses.
- Memory ordering between MMIO accesses; a store takes effect when it is issued.
