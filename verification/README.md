# RecoNIC: a verified model

RecoNIC is an RDMA SmartNIC: a hardware shell that classifies packets at line rate, a kernel driver with a
character device for DMA, and a user-space library that allocates buffers, rings doorbells and drives an
accelerator. This project models the parts of it that carry state from one step to the next, and proves what
every run of them keeps.

Each component appears twice. A specification gives the state and its step as values, and the lemmas are about
every run of that step. Beside it the source's own form, a class whose methods update its fields in place or a
method with the source's loop, is proved equal to the specification step by step. Hardware registers move once
per `Clock`; a FIFO is an ideal bounded queue that drops a write when full. Automatic induction is switched off
in every lemma, so each inductive proof is written out.

| file | component |
|---|---|
| `QueuePool.dfy` | the driver's ring of free DMA queues, shared by any number of threads |
| `BitCodec.dfy`, `PacketParser.dfy`, `PacketPipeline.dfy` | the P4 parser, classifier and deparser over bits |
| `WireFormat.dfy`, `WireAcceptance.dfy` | where the fields of headers and metadata sit in the packet, and which bits are accepted |
| `PacketFilter.dfy` | the demultiplexer into two ports, with back-pressure and error bits |
| `InputBuffer.dfy` | the input buffer and the metadata strobe, and the packets gathered behind them |
| `ReceivePath.dfy` | input buffer, metadata strobe, parser and filter end to end, from the pins to both ports |
| `MatchTable.dfy` | the content-addressed table with ring replacement |
| `RegControl.dfy` | the split 64-bit counters and the AXI-Lite register machines |
| `Doorbell.dfy` | posting work and polling for completions |
| `Buffers.dfy`, `Windows.dfy`, `Transfer.dfy` | buffer allocation, address windows, host-device transfers |
| `Commands.dfy`, `Systolic.dfy`, `Client.dfy` | the command stream, the matrix kernel, the client that uses both |
| `Arith.dfy`, `Words.dfy`, `Basics.dfy` | division, powers of two, bitwise operations of C words, shared datatypes |

The main results are these.

- **Queue pool.** In every interleaving of any number of threads over a pool of any size, two operations in
  flight never hold the same queue, and the free window, the ids held and the ids leaked by the early return
  partition 0..n-1. A state is stuck if and only if nothing is in flight or all n ids have leaked, and n early
  returns in a row lead there; once arrivals stop every schedule ends within eleven accesses a thread.
- **Parser.** The accepted packets are exactly the deparses of well-formed headers followed by a payload, bit for
  bit; a packet determines its headers. The class and the metadata are read off the packet's own bits, without
  parsing, at the positions that section 3.1 of RFC 791, section 3 of RFC 8200, clause 9 of IEEE 802.1Q and sections
  9.2 and 9.3 of the InfiniBand Architecture Specification Volume 1 give; only the two addresses are a constant
  with IPv6. So are acceptance and the error a rejected packet ends in.
- **Receive path.** In every run from the input pins to the two ports, whatever the gaps and the readies and wherever
  the run ends, each packet gets one metadata strobe, and a port whose error bit is clear carries exactly the
  packets of its class, in order and bit-identical, each RDMA packet with its own length and fields beside its first
  beat. Nothing is held back: once nothing arrives and every stage is ready, both ports have emitted all of it. The
  error bit of either port can be trusted in every run if and only if the threshold plus the greatest age of the
  full flag is within the FIFO depth.
- **Match table.** After any run the table is the finite map that the applied requests define, with ring
  eviction; no key is stored twice. The first beat of each packet, and no other, is looked up, and which requests
  take effect and which are lost is decided by the beats and the queue.
- **Counters and registers.** The two registers and the carry in flight are the number of pulses until overflow;
  every legal AXI-Lite run pairs addresses, data and responses one for one, and what is read back is the last
  write handshaken or the count.
- **Doorbells.** Over any run of successful posts to a device whose completion head only moves forward and never
  passes the producer index, every return finds all indices equal to that head. Success means completion if and
  only if the call starts from a queue in step with the device; from there a post succeeds if and only if one of
  its first 1001 reads shows the completion.
- **Host to accelerator.** Buffers are disjoint and obey the page rule; masking and translating an address is the
  identity exactly under the base's upper bits; chunks through page entries move each byte once; commands decode
  to what was issued if and only if their size word is six; and the client, posting its operand reads through the
  doorbell and reading back through the chunk loop, gets the product of its operands whenever the device completes
  both reads in time and the driver moves every chunk, equal at full size to the software multiply in 32-bit
  arithmetic.

## Where the code and its descriptions differ

The model follows the code.

- The early return of the read and write path does not give the queue id back
  (patches/open-nic-driver/onic.patch:1116-1118). The leaked ids are a ghost part of the state, and the deadlock
  theorem is stated with them.
- The parser accepts IPv6 as well as IPv4, and never tests the UDP port: any UDP payload is read as a base
  transport header (shell/packet_classification/packet_parser.p4:269-304). `PortsDoNotClassify` states it.
- The IPv4 check `len >= 5` is on the total length in bytes, not on the header length; header lengths below five are
  refused by the option length computed from them, which wraps.
- The matcher's note at shell/packet_classification/packet_matcher.sv:362 says an unmatched request is held. The
  request FIFO is popped in every cycle it is not empty (lines 246-263), so that request is lost. Results about
  the table are therefore about applied requests.
- A poll that times out makes one more read than it looks at (lib/rdma_api.c:848-863): `PollSpec` says which reads
  count. After a timeout `rdma_post_send` can return success with nothing completed; `TimeoutThenFalseSuccess`
  gives the run and `SuccessMeansDoneExactly` the condition.
- The assertion on device memory is made after a 64-bit addition that can wrap (lib/reconic.c:253-259).
  `DeviceCheckSoundExactly` gives the condition and `WrappedSizeAccepted` an input that passes it.
- The driver's page split takes its minimum on 32-bit values (patches/open-nic-driver/onic.patch:1056-1057): a request
  of 4 GB or more is left incomplete. `SplitCompleteExactly` states it of that function alone: Linux caps one read or
  write call at 0x7ffff000 bytes, which is also the library's chunk size, so no such request reaches it that way.
- `RW_MAX_SIZE` is described as 2 GB and is one page less (lib/memory_api.h:30-32). The constant for the map control
  register (lib/reconic_reg.h:183) is not the value the code writes.
- With the hardware's threshold of depth minus five the error bits tolerate a full flag up to five cycles late, and
  no more (`HardwareMargin`).
- The size shown with an outgoing beat is cut from the metadata bus of the same cycle
  (shell/packet_classification/packet_classification.sv:149), so it is the packet's length on first beats; on the
  others it is whatever the bus holds. Results about ports are about data and last flags, and sizes of first beats.

## Model

| member | source | states |
|---|---|---|
| QueuePool.NoSharedQueue | patches/open-nic-driver/onic.patch:1157-1182 | in every reachable interleaving two operations in flight hold different queue ids, each within the pool |
| QueuePool.IdsPartition | patches/open-nic-driver/onic.patch:1136-1182 | free window, ids in flight and leaked ids hold each of 0..n-1 exactly once and nothing else |
| QueuePool.RingAccessesSafe | patches/open-nic-driver/onic.patch:1162-1163 | no thread indexes outside the ring or divides by zero; a take loads the oldest live slot, a put stores over none |
| QueuePool.TakesLiveStoresDead | patches/open-nic-driver/onic.patch:1138-1147 | the same from the invariant alone, at one step |
| QueuePool.WindowStep | patches/open-nic-driver/onic.patch:1136-1149 | the live window loses its front only to a take and gains at its back only by a put |
| QueuePool.StepKeepsInv | patches/open-nic-driver/onic.patch:1085-1182 | every access of any thread keeps the accounting of ids, semaphores, mutexes and indices |
| QueuePool.StartInv | patches/open-nic-driver/onic.patch:1226-1248 | initialisation establishes it for any pool size and thread count |
| QueuePool.RunKeepsInv | patches/open-nic-driver/onic.patch:1085-1182 | every schedule keeps it |
| QueuePool.StuckExactlyWhenAllLeaked | patches/open-nic-driver/onic.patch:1116-1118 | operations are stuck if and only if there are none or all n ids have leaked |
| QueuePool.EveryScheduleDrains | patches/open-nic-driver/onic.patch:1085-1182 | without new arrivals every schedule has at most eleven accesses a thread, and ends with all returned unless all ids leaked |
| QueuePool.NoFailureNoLeak | patches/open-nic-driver/onic.patch:1116-1118 | a run without early returns leaks nothing |
| QueuePool.EarlyReturnLeaks | patches/open-nic-driver/onic.patch:1116-1118 | the early return loses exactly the id the thread held there and leaves the driver; no other access loses one, and a use that does not fail goes on to give its id back |
| QueuePool.FailuresLoseThePool | patches/open-nic-driver/onic.patch:1085-1182 | for any pool, n early returns in a row from the start lose all n ids, and the next operation waits for ever |
| CdevPool.QueueRing.constructor | patches/open-nic-driver/onic.patch:1226-1248 | the initialisation loop fills the ring with 0..n-1 and sets semaphore, mutexes and indices |
| CdevPool.QueueRing.Advance | patches/open-nic-driver/onic.patch:1136-1182 | one access updating array, indices and semaphores in place is one step of the pool, and keeps the invariant |
| BitCodec.UnpackPack | shell/packet_classification/packet_parser.p4:22-185 | extracting the fields of an emitted header gives the fields back |
| BitCodec.PackUnpack | shell/packet_classification/packet_parser.p4:22-185 | emitting the extracted fields gives the bits back |
| BitCodec.ExtractIff | shell/packet_classification/packet_parser.p4:234-235 | an extract succeeds with given fields and rest if and only if the packet is their encoding followed by the rest |
| BitCodec.FirstBitWeighsMost | shell/packet_classification/packet_parser.p4:22-185 | a field is a binary number whose first bit on the wire weighs most |
| PacketParser.SelectOpSound | shell/packet_classification/packet_parser.p4:289-329 | after the base header, accepted extensions have the shape the opcode asks for and account for the bits read |
| PacketParser.SelectOpComplete | shell/packet_classification/packet_parser.p4:289-329 | extensions of that shape are parsed back from their bits |
| PacketParser.DispatchSound | shell/packet_classification/packet_parser.p4:269-305 | the same from the protocol field on |
| PacketParser.DispatchComplete | shell/packet_classification/packet_parser.p4:269-305 | the same from the protocol field on, for the other direction |
| PacketParser.OptionBitsExact | shell/packet_classification/packet_parser.p4:264-267 | the wrapping option length is at most 320 if and only if ihl is at least 5, and then is (ihl-5)*32 |
| PacketParser.Ipv4Sound | shell/packet_classification/packet_parser.p4:254-274 | accepted IPv4 packets have well-shaped headers that account for the bits read |
| PacketParser.Ipv4Complete | shell/packet_classification/packet_parser.p4:254-274 | well-shaped IPv4 headers are parsed back |
| PacketParser.Ipv6Sound | shell/packet_classification/packet_parser.p4:276-283 | accepted IPv6 packets have well-shaped headers that account for the bits read |
| PacketParser.Ipv6Complete | shell/packet_classification/packet_parser.p4:276-283 | well-shaped IPv6 headers are parsed back |
| PacketParser.SelectTypeSound | shell/packet_classification/packet_parser.p4:236-252 | from any ethertype and tag stack, accepted tags and headers account for the bits read, with at most two tags |
| PacketParser.SelectTypeComplete | shell/packet_classification/packet_parser.p4:236-252 | tags and headers of that shape are parsed back |
| PacketParser.ParseSound | shell/packet_classification/packet_parser.p4:233-444 | deparsing the headers of an accepted packet and appending the payload gives the original bits; the headers are well formed |
| PacketParser.ParseComplete | shell/packet_classification/packet_parser.p4:233-444 | parsing the deparse of any well-formed headers plus payload gives back headers and payload |
| PacketParser.AcceptsExactly | shell/packet_classification/packet_parser.p4:233-330 | a packet is accepted if and only if it is the deparse of well-formed headers followed by a payload |
| PacketParser.HeadersUnambiguous | shell/packet_classification/packet_parser.p4:432-444 | no two well-formed header sets and payloads deparse to the same packet |
| PacketParser.AcceptedBounds | shell/packet_classification/packet_parser.p4:244-267 | accepted packets have at most two tags, and IPv4 has ihl 5..15 with (ihl-5)*32 option bits |
| PacketParser.ClassifiesExactly | shell/packet_classification/packet_parser.p4:354-411 | an accepted packet is marked RDMA if and only if it has a UDP header and connection type 0; index and length pass through |
| PacketParser.PortsDoNotClassify | shell/packet_classification/packet_parser.p4:285-304 | rewriting the UDP destination port changes neither acceptance nor class |
| WireFormat.FieldOfPack | shell/packet_classification/packet_parser.p4:22-185 | each field of an emitted header sits at the sum of the widths before it |
| WireFormat.FinalTypeAt | shell/packet_classification/packet_parser.p4:233-252 | the ethertype that selects the network header is the 16 bits in front of it, behind any tags |
| WireFormat.PositionsOnWire | shell/packet_classification/packet_parser.p4:233-283 | where the network and transport headers start, and whether there is UDP, are functions of the bits: ethertypes, header-length nibble, protocol byte |
| WireFormat.NoMetadataWithoutUdp | shell/packet_classification/packet_parser.p4:354-371 | without UDP on the wire nothing but index and length is set |
| WireFormat.UdpOnWire | shell/packet_classification/packet_parser.p4:269-283 | a well-formed packet has a UDP header if and only if its ethertype and protocol bits say so |
| WireFormat.ClassFromWire | shell/packet_classification/packet_parser.p4:371-411 | an accepted packet is marked RDMA if and only if its bits say UDP and connection type 0 at their wire positions |
| WireFormat.MetadataFromWire | shell/packet_classification/packet_parser.p4:371-403 | ports, operation, solicited event and sequence number of the metadata are the packet's bits at their wire positions, and the addresses too with IPv4; with IPv6 they are 6 |
| WireFormat.ExtensionFromWire | shell/packet_classification/packet_parser.p4:383-397 | key, length and message number are the bits of the extension header the operation announces, and zero without one |
| WireAcceptance.ErrorFromWire | shell/packet_classification/packet_parser.p4:233-330 | whether a packet is accepted, and the error it ends in otherwise, is a function of its length and of version, length, type, protocol and opcode bits at their wire positions, all given as numbers |
| WireAcceptance.ParseIpv4Error | shell/packet_classification/packet_parser.p4:254-274 | the IPv4 state: too short, version not 4 or total length below 5, header length below 5, options cut short, in that order |
| WireAcceptance.SelectOpError | shell/packet_classification/packet_parser.p4:289-329 | which operations bring how many bits of extension headers |
| WireAcceptance.HeadersFromWire | shell/packet_classification/packet_parser.p4:22-305 | every field of the Ethernet, network, UDP and base transport headers of an accepted packet is the bits at its own place, given as numbers |
| WireAcceptance.AllMetadataFromWire | shell/packet_classification/packet_parser.p4:354-425 | the whole metadata record of an accepted packet is a function of its bits and its length |
| PacketPipeline.Parser.Start | shell/packet_classification/packet_parser.p4:233-242 | running the parser states in place accepts or rejects exactly as the specification, with its headers and rest |
| PacketPipeline.Parser.VlanState | shell/packet_classification/packet_parser.p4:244-252 | the tag state, recursively, from any point |
| PacketPipeline.Parser.Ipv4State | shell/packet_classification/packet_parser.p4:254-262 | the IPv4 state with its version check |
| PacketPipeline.Parser.Ipv4OptionsState | shell/packet_classification/packet_parser.p4:264-267 | the variable-length extract with the wrapping length |
| PacketPipeline.Parser.Ipv6State | shell/packet_classification/packet_parser.p4:276-283 | the IPv6 state |
| PacketPipeline.Parser.UdpState | shell/packet_classification/packet_parser.p4:285-305 | UDP and base transport header, then the opcode's extensions |
| PacketPipeline.ForwardBlock | shell/packet_classification/packet_parser.p4:354-425 | the reassigned locals end as the metadata of the specification |
| PacketPipeline.DeparserBlock | shell/packet_classification/packet_parser.p4:432-444 | emitting header by header gives the deparse followed by the payload |
| PacketFilter.PortsExact | shell/packet_classification/packet_filter.sv:133-305 | with a clear error bit, output followed by FIFO contents is exactly the beats of that class, tagged with metadata at first beats only |
| PacketFilter.MetadataNeverBlocks | shell/packet_classification/packet_filter.sv:214-225 | the metadata FIFO holds one entry per packet whose first beat is queued, so it never blocks and never fills first |
| PacketFilter.NoDropWhileClear | shell/packet_classification/packet_filter.sv:442-459 | with the error bit clear after a cycle, the FIFO had room for that cycle's beat |
| PacketFilter.PortStep | shell/packet_classification/packet_filter.sv:442-459 | while the error bit is clear, occupancy above the threshold is at most the unbroken cycles spent there, whatever the age of the flag in each cycle up to the bound |
| PacketFilter.RunInv | shell/packet_classification/packet_filter.sv:133-459 | every run keeps exactness of both ports, the occupancy bound and the tracking of packet boundaries |
| PacketFilter.ReferenceStep | shell/packet_classification/packet_filter.sv:139-195 | the write machine's state agrees with the class of the packet open in the offered beats |
| PacketFilter.QueuesStep | shell/packet_classification/packet_filter.sv:214-240 | one cycle of pop and push keeps each metadata entry beside its packet's first beat |
| PacketFilter.Flooded | shell/packet_classification/packet_filter.sv:320-459 | with an older flag, one-beat packets of either class fill that class's port and lose one before its error bit can rise |
| PacketFilter.ErrorBitTrustworthyExactly | shell/packet_classification/packet_filter.sv:320-459 | on either port a clear error bit means an exact port, for all runs and any varying age of the full flag, if and only if threshold plus the greatest age is at most the depth |
| PacketFilter.HardwareMargin | shell/packet_classification/packet_filter.sv:61-406 | the hardware has depth 512 and threshold 507, and with these that age is five cycles |
| PacketFilter.EmitsExactly | shell/packet_classification/packet_filter.sv:209-305 | in every run each port emits the front of its queue exactly if it is ready and its queue is not empty; on the RDMA port while its error bit is clear |
| PacketFilter.NonRoceEmpties | shell/packet_classification/packet_filter.sv:254-305 | held ready with nothing offered, the non-RDMA queue loses one beat a cycle until it is empty |
| PacketFilter.RoceEmpties | shell/packet_classification/packet_filter.sv:209-252 | the same for the RDMA queue while its error bit is clear |
| PacketFilter.PortsDrain | shell/packet_classification/packet_filter.sv:209-305 | a port held ready for as many cycles as it has beats queued has then emitted every beat of its class that was offered, and nothing else |
| PacketFilter.ClearBelowThreshold | shell/packet_classification/packet_filter.sv:320-459 | an error bit stays clear while every occupancy of its queue is below the threshold |
| PacketFilter.ErrorSticks | shell/packet_classification/packet_filter.sv:442-459 | an error bit once set stays set, and has an occupancy at the threshold behind it |
| PacketFilter.Filter.WriteMachine | shell/packet_classification/packet_filter.sv:133-206 | the write machine's enables and next state |
| PacketFilter.Filter.ReadMachines | shell/packet_classification/packet_filter.sv:209-305 | the two read machines' enables |
| PacketFilter.Filter.Clock | shell/packet_classification/packet_filter.sv:133-459 | one rising edge updates registers and FIFOs in place as the step function and drives the specified outputs |
| InputBuffer.StrobeOncePerPacket | shell/top/reconic.sv:392-453 | after any run, what left the buffer is a prefix of what it accepted, strobed exactly at first beats |
| InputBuffer.BufferStepExact | shell/top/reconic.sv:436-453 | each cycle keeps that |
| InputBuffer.GatherIsPackets | shell/top/reconic.sv:411-419 | lengths latched at strobes give every packet its own first beat's length, and strobes count packets begun |
| InputBuffer.OneStrobePerPacket | shell/top/reconic.sv:392-453 | after any run the packets gathered behind the buffer are the whole packets among the beats it gave out, with one strobe for each packet begun |
| InputBuffer.BufferMoves | shell/top/reconic.sv:392-395 | in every cycle of every run a beat is taken in exactly if fewer than depth are inside, and one leaves exactly if the parser is ready and one is inside |
| InputBuffer.BufferDrains | shell/top/reconic.sv:392-395 | with the parser ready and nothing arriving all beats leave, one a cycle |
| InputBuffer.FirstPacket | shell/top/reconic.sv:411-419 | a packet ends at the first last flag, holds the bits of the beats up to it, and has the size shown with the first of them |
| InputBuffer.InputStage.Clock | shell/top/reconic.sv:392-453 | one rising edge of buffer and strobe register in place |
| ReceivePath.EmittedIntact | shell/packet_classification/packet_parser.p4:432-444 | an accepted packet leaves the parser and deparser bit-identical |
| ReceivePath.MetaOfPacket | shell/top/reconic.sv:405-419 | a packet is accepted as its bits say; its metadata has its length, index 0, and otherwise what its bits call for, all zero without UDP |
| ReceivePath.ReassembleCut | shell/top/reconic.sv:395-398 | cutting a packet into beats and gathering up to the last flag gives the packet back |
| ReceivePath.CarriedBeats | shell/packet_classification/packet_filter.sv:140-164 | for any stretch of the parser's stream, ending inside a packet or not, the filter's reference beats are that class's part of it, with one strobe per RDMA packet begun |
| ReceivePath.ReassembleAll | shell/packet_classification/packet_filter.sv:254-258 | gathering those beats gives the class's whole packets bit for bit, and the beats are a prefix of all its beats |
| ReceivePath.StageExact | shell/packet_classification/packet_classification.sv:103-190 | behind the parser, however it is paced, ports with clear error bits carry exactly their class's part of what it has offered |
| ReceivePath.RunCarries | shell/top/reconic.sv:392-512 | in every run of the composed path the beats offered to the filter are the stream of the packets taken in, sized by the metadata bus |
| ReceivePath.ReceivePathExact | shell/top/reconic.sv:392-512 | from the input pins to both ports, for every run: the packets taken in are those among the beats given out, one strobe each; ports with clear error bits carry exactly the packets whose bits put them in the class, in order and intact; each RDMA packet begun has one metadata strobe with the size of its first beat, index 0 and its own fields |
| ReceivePath.KeptAll | shell/packet_classification/packet_parser.p4:233-330 | when the parser accepts every packet none is left out |
| ReceivePath.AllOfferedAllWhole | shell/top/reconic.sv:455-512 | once everything has been offered, the packets counted are all the packets taken in |
| ReceivePath.OffersAll | shell/top/reconic.sv:455-512 | with the buffer empty and the parser stage giving, one more beat of the stream is offered each cycle until none is left |
| ReceivePath.EverythingArrives | shell/top/reconic.sv:392-512 | after any run, once nothing arrives and every stage stays ready for long enough, both ports have emitted exactly their class of all whole packets the buffer took in, where the error bit is clear |
| MatchTable.FindAgrees | shell/packet_classification/packet_matcher.sv:226-231 | the hit vector of a key other than the sentinel is one-hot with the map's address if the map holds it, and zero if not |
| MatchTable.InsertRefines | shell/packet_classification/packet_matcher.sv:574-581 | writing at the pointer is insertion with eviction of the oldest slot |
| MatchTable.ConfigureRefines | shell/packet_classification/packet_matcher.sv:568-595 | a request between packets acts on the table as it acts on the map, sentinel key included |
| MatchTable.FullAgrees | shell/packet_classification/packet_matcher.sv:571-581 | all slots of the last n insertions are kept if and only if the table holds no sentinel |
| MatchTable.OnlyAppliedRequestsCount | shell/packet_classification/packet_matcher.sv:304-382 | in any cycle the table changes exactly as the applied request asks, and not at all without one |
| MatchTable.TableRefinesMap | shell/packet_classification/packet_matcher.sv:277-595 | after any run the table refines the map of the requests applied so far |
| MatchTable.KeysDistinct | shell/packet_classification/packet_matcher.sv:226-231 | in every reachable state no key but the sentinel occurs twice |
| MatchTable.PacketLookup | shell/packet_classification/packet_matcher.sv:318-382 | for any metadata, the beat after a last flag or the first of the run sees the map's address, or a write for the same key at the head of the queue, or cleared metadata; the sentinel is looked up among the free slots |
| MatchTable.WaitsInsidePackets | shell/packet_classification/packet_matcher.sv:318 | the matcher waits for a last beat if and only if a beat has been transferred and the latest carried no last flag |
| MatchTable.OtherCycles | shell/packet_classification/packet_matcher.sv:304-318 | later beats of a packet leave the table alone and pass with a zero address; without a beat the metadata is held |
| MatchTable.PacketInserts | shell/packet_classification/packet_matcher.sv:364-375 | a first beat that misses takes the write waiting at the head of the queue for its own key into the map |
| MatchTable.RequestLost | shell/packet_classification/packet_matcher.sv:246-263 | any other request at the head of the queue in a cycle with a beat is popped without effect |
| MatchTable.RequestApplied | shell/packet_classification/packet_matcher.sv:568-595 | between beats the request at the head of the queue always takes effect |
| MatchTable.WriteStores | shell/packet_classification/packet_matcher.sv:568-581 | after an applied write the table holds the key exactly once, with the address written |
| MatchTable.DeleteForgets | shell/packet_classification/packet_matcher.sv:585-595 | after an applied delete the table does not hold the key; operations other than write and delete change nothing |
| MatchTable.OtherSlotsKept | shell/packet_classification/packet_matcher.sv:568-595 | a request touches the slot of its key or the one under the pointer and no other; the pointer moves only for a new key |
| MatchTable.HoldsLastWrite | shell/packet_classification/packet_matcher.sv:585-595 | a key the map holds has the address of its last applied write, with no delete of it since |
| MatchTable.StaysForNInsertions | shell/packet_classification/packet_matcher.sv:368-373 | a key that is not deleted stays until n further insertions |
| MatchTable.NeverHoldsSentinel | shell/packet_classification/packet_matcher.sv:281-284 | the sentinel is never a key of the map |
| MatchTable.OneRequestPerEdge | shell/packet_classification/packet_matcher.sv:246-263 | each rising edge of valid yields one request, queued and popped in order, and the FIFO never holds two |
| MatchTable.SyncFollows | shell/packet_classification/packet_matcher.sv:1010-1046 | the synchroniser stages hold the pins of one and two cycles ago, and single is low exactly when valid was high before |
| MatcherRegisters.Matcher.Search | shell/packet_classification/packet_matcher.sv:226-231 | the scan of all entries finds the unique match, none, or several |
| MatcherRegisters.Matcher.Apply | shell/packet_classification/packet_matcher.sv:568-595 | a configuration request applied in place is the specified update |
| MatcherRegisters.Matcher.FirstBeat | shell/packet_classification/packet_matcher.sv:320-382 | the lookup of a first beat, with the write it may apply |
| MatcherRegisters.Matcher.Clock | shell/packet_classification/packet_matcher.sv:277-595 | one rising edge in place is the step function |
| PacketCounter.TickExact | shell/utilities/rn_reg_control.sv:397-416 | every tick keeps the count exact, or overflowed for good |
| PacketCounter.CountsEveryPulse | shell/utilities/rn_reg_control.sv:397-416 | until overflow pulses == low + 2^32*(high + carry + pending) with at most one carry in flight; then high is frozen with its top bit set |
| PacketCounter.ReadableExactly | shell/utilities/rn_reg_control.sv:509-521 | the two registers alone are the count if and only if no carry is in flight |
| PacketCounter.NoEarlyOverflow | shell/utilities/rn_reg_control.sv:516 | fewer than 2^63 pulses never set overflow |
| PacketCounter.OverflowSticks | shell/utilities/rn_reg_control.sv:518-521 | overflow is for ever, with the high register frozen and the low one cleared |
| PacketCounter.WordsOfCount | shell/utilities/rn_reg_control.sv:397-416 | before overflow the low register is the count modulo 2^32, and the high register with the carry in flight its quotient |
| AxiLite.RunInv | shell/utilities/rn_reg_control.sv:129-274 | every legal run keeps the correspondence of machine states and handshakes |
| AxiLite.WritesPairUp | shell/utilities/rn_reg_control.sv:129-215 | data and responses follow addresses one for one, never early, and the three write handshake signals are high exactly in the stage of the write they belong to |
| AxiLite.WriteCompletes | shell/utilities/rn_reg_control.sv:189-204 | an open write is answered within two cycles of a master that offers data and takes the response |
| AxiLite.ReadsAnswered | shell/utilities/rn_reg_control.sv:218-274 | each response is the value selected when its address was accepted, in order, stable until taken |
| AxiLite.TemplateReadsBack | shell/utilities/rn_reg_control.sv:251 | with no write open the register, and a read of address 512, is the data of the last handshaken write to address 512, zero without one; a read of another address returns what the multiplexer selects |
| AxiLite.ReadAccepted | shell/utilities/rn_reg_control.sv:218-251 | an accepted read is answered in the next cycle with the register it names |
| RegisterBlock.CountersReadBack | shell/utilities/rn_reg_control.sv:218-251 | the word read at each counter address is the number of pulses modulo or divided by 2^32, up to the carry in flight |
| RegisterBlock.RegControl.TickCounter | shell/utilities/rn_reg_control.sv:397-416 | the counter's always-blocks as one tick |
| RegisterBlock.RegControl.ClockWrite | shell/utilities/rn_reg_control.sv:129-215 | the write machine as assigned register by register |
| RegisterBlock.RegControl.ClockRead | shell/utilities/rn_reg_control.sv:218-274 | the read machine as assigned register by register |
| RegisterBlock.RegControl.Clock | shell/utilities/rn_reg_control.sv:129-521 | one rising edge of counters and machines together |
| Doorbell.PollCq | lib/rdma_api.c:840-864 | polling returns the first of 1001 reads that differs from the index polled on, else -1 after one more read |
| Doorbell.PostSendKeepsSync | lib/rdma_api.c:866-895 | a successful post from a queue in sync leaves producer, consumer and completion indices equal to the completion head |
| Doorbell.PostSendExactly | lib/rdma_api.c:866-895 | from a queue in sync: 0 if and only if one of the first 1001 reads shows the completion, -1 if and only if 1002 reads were made and the first 1001 did not, still polling otherwise |
| Doorbell.DeviceGoesOn | lib/rdma_api.c:843-849 | a device that has shown its head at some value never shows less in later posts |
| Doorbell.PostsStayInSync | lib/rdma_api.c:866-895 | for a head that only moves forward and never passes the producer index, every return of a run of successful posts has all indices equal to it, one more for each post |
| Doorbell.PostsInTimeSucceed | lib/rdma_api.c:866-895 | if the device completes every request within 1001 reads, every post of the run succeeds and the queue ends in sync |
| Doorbell.SuccessMeansDoneExactly | lib/rdma_api.c:886-894 | success means the posted request has completed, for every device behaviour, if and only if both indices equalled the head before |
| Doorbell.TimeoutThenFalseSuccess | lib/rdma_api.c:860-895 | a timeout from a fresh queue and then a post that returns success with nothing completed |
| Doorbell.BatchReturnsOnlyWhenDone | lib/rdma_api.c:897-934 | a batch returns only when the completion head has reached the producer index, indices equal, timeouts or not; it exits if and only if it would pass the depth |
| Doorbell.BatchReturnsWhenDone | lib/rdma_api.c:923-927 | once a read shows everything completed, one further read lets the batch return |
| QueuePair.PollCqCidb | lib/rdma_api.c:840-864 | the polling loop with its timeout counter returns what the specification says |
| QueuePair.RdmaQp.RdmaPostSend | lib/rdma_api.c:866-895 | the call updates indices and producer register in place as specified |
| QueuePair.RdmaQp.RdmaPostBatchSend | lib/rdma_api.c:897-934 | the loop of polls updates them as specified, and an overflow leaves the register alone |
| Buffers.PlaceFacts | lib/reconic.c:212-226 | padding is smaller than the buffer; small buffers do not cross a page, larger ones start on one |
| Buffers.MovedExactlyWhenNeeded | lib/reconic.c:212-226 | a buffer moves to the next page boundary if and only if it would break the page rule where it is |
| Buffers.AllocationsDisjoint | lib/reconic.c:204-266 | after any sequence of allocations buffers are in order and disjoint, each within the page rule, at most twice the bytes asked for consumed |
| Buffers.TagRoundTrip | lib/reconic.c:105-113 | a tagged offset is classified as device address, and the 37-bit mask and the truncation to 32 bits recover the offset |
| Buffers.HostIsNotDevice | lib/reconic.c:105-113 | an address below 2^52 is never classified as device address |
| Buffers.DeviceBufferAddresses | lib/reconic.c:250-259 | every byte of an accepted device buffer is inside the memory, classified and recovered |
| Buffers.AcceptedExactly | lib/reconic.c:234-259 | short of a wrap a device buffer is accepted if and only if it fits, with the size asked for and the offset moved behind it |
| Buffers.DeviceCheckSoundExactly | lib/reconic.c:253-259 | an accepted buffer lies inside the memory if and only if the offset addition does not wrap |
| Buffers.WrappedSizeAccepted | lib/reconic.c:253-259 | an input for which it wraps and is accepted |
| Buffers.RnDev.AllocateHost | lib/reconic.c:212-231 | the host pool's offset is bumped in place as specified |
| Buffers.RnDev.AllocateDev | lib/reconic.c:234-259 | the device pool's offset is bumped in place, and the check passes or fails as specified |
| Windows.MaskIs | lib/rdma_api.c:758-768 | a work-queue address is kept whole for the device and reduced to its low 40 bits for the host |
| Windows.BaseWords | lib/reconic.c:176-185 | the window base clears exactly the bits the mask keeps, and no stride carries out of the high word |
| Windows.MapControlIs | lib/reconic.c:187-188 | the map control word is the access bits and 128 GB in pages |
| Windows.ProgrammedAt | lib/reconic.c:191-197 | each of the eight entries holds its base and control words |
| Windows.ProgrammedElsewhere | lib/reconic.c:191-197 | no register outside the table changes |
| Windows.TranslateIs | lib/reconic.c:186-197 | every 40-bit address is translated to the base's upper bits followed by itself |
| Windows.MaskThenTranslateExactly | lib/rdma_api.c:758-768 | masking then translating a host address is the identity if and only if it shares the base buffer's bits above 40 |
| Windows.TranslationKeepsDistance | lib/reconic.c:186-197 | the windows are adjacent: distances survive translation |
| Windows.ControlRegion.ConfigBdf | lib/reconic.c:159-202 | the programming loop leaves exactly the specified table |
| Transfer.ChunkSizes | lib/memory_api.c:30-34 | no chunk exceeds the limit, only the last is below it, only an empty transfer makes an empty chunk |
| Transfer.MoveBuffer | lib/memory_api.c:77-131 | the loop issues a prefix of the chunks, stops at the first reply that is not the one asked for, and succeeds with the size if and only if all are |
| Transfer.SplitCovers | patches/open-nic-driver/onic.patch:1054-1071 | the page entries of a request below 4 GB move every byte once, in order, and leave no length over |
| Transfer.EntriesInPages | patches/open-nic-driver/onic.patch:1054-1071 | entries take consecutive pages, stay inside them, start at zero after the first and fill all pages between |
| Transfer.SplitCompleteExactly | patches/open-nic-driver/onic.patch:1056-1057 | the whole length is consumed if and only if it is below 4 GB |
| Transfer.FindRepeat | patches/open-nic-driver/onic.patch:1044-1052 | the check for a frame pinned twice in a row |
| Transfer.MapUserBufToSgl | patches/open-nic-driver/onic.patch:999-1083 | page count, allocation, pinning and the repeat check fail with their error codes in order, and otherwise the entries are the specified ones |
| Transfer.MappedExactly | patches/open-nic-driver/onic.patch:999-1083 | a request is mapped if and only if it is granted, fully pinned and without repeats, and then its entries move exactly its bytes; otherwise the code names the first failure |
| Transfer.FillEntries | patches/open-nic-driver/onic.patch:1054-1071 | the loop alone, for any page count |
| Transfer.TransferCovers | lib/memory_api.c:77-131 | for any size, chunks through page entries move every byte exactly once to consecutive device addresses |
| Transfer.DeviceBufferTransfer | lib/memory_api.c:24 | transferring a device buffer moves exactly the bytes allocated to it |
| Commands.HalvesIs | lib/control_api.c:53-56 | two 16-bit fields are packed as high and low half of a word |
| Commands.IssuedWords | lib/control_api.c:47-57 | the six words: size, three base addresses, then the dimensions and the work id in pairs, the first of each pair in the upper half |
| Commands.ParsedWords | shell/compute/lookside/cl_box.cpp:12-34 | what is parsed from any command of size two to six, word by word, missing words read as zero, and the words left over |
| Commands.ParseIssuedExactly | shell/compute/lookside/cl_box.cpp:12-34 | an issued command is parsed back with exactly the following words left if and only if its size field is six |
| Commands.OverrunExactly | shell/compute/lookside/cl_box.cpp:15-25 | the five-word array is overrun if and only if the size word is outside 2..6 and six words follow; a command is parsed if and only if the size is within and the words are there; a parser that starves has read all there was |
| Commands.DecodeRecoversAll | shell/compute/lookside/cl_box.cpp:12-34 | decoding any concatenation of issued commands recovers exactly those commands in order, with nothing of them left over |
| Commands.CommandFifo.Issue | lib/control_api.c:47-57 | the six register writes append the command's words in order |
| Commands.CommandFifo.ParseCommand | shell/compute/lookside/cl_box.cpp:12-34 | the loop over the stream, in place, returns and leaves what the specification says |
| Systolic.WrapAdd | shell/compute/lookside/mmult.cpp:167 | wrapping operands first does not change a wrapped sum |
| Systolic.CellStep | shell/compute/lookside/mmult.cpp:158-170 | one masked update moves a cell on by one term |
| Systolic.ProductCell | shell/compute/lookside/mmult.cpp:149-172 | each cell is the wrapped sum of products over k below a_col inside a_row by b_col, and zero outside |
| Systolic.IdentityNeutral | shell/compute/lookside/mmult.cpp:149-172 | the identity matrix is neutral on both sides |
| Systolic.WrapIs | shell/compute/lookside/mmult.cpp:167 | wrapping keeps C ints and is congruent modulo 2^32 |
| Systolic.UpdateRow | shell/compute/lookside/mmult.cpp:156-172 | the innermost loop moves one row on by one term and no other |
| Systolic.Mmult | shell/compute/lookside/mmult.cpp:102-174 | the k-outermost loop leaves the product at c, computed from the operands as they were, and changes nothing else in memory |
| Systolic.SoftwareMmult | examples/network_systolic_mm/network_systolic_mm.c:68-82 | the k-innermost loop adds the inner products to what the output held |
| Systolic.Accumulate | examples/network_systolic_mm/network_systolic_mm.c:76-79 | the inner loop accumulates into one cell and no other |
| Systolic.FullSizeAgrees | examples/network_systolic_mm/network_systolic_mm.c:451-475 | at full size the kernel and the software multiply from zeros agree for every pair of matrices |
| Client.RegionsDisjoint | examples/network_systolic_mm/network_systolic_mm.c:392-427 | the truncated 32-bit addresses of three device buffers denote disjoint aligned regions inside the memory |
| Client.AllocateThree | examples/network_systolic_mm/network_systolic_mm.c:392-394 | the three allocations succeed if and only if each is accepted |
| Client.RoomForThree | examples/network_systolic_mm/network_systolic_mm.c:392-394 | six times the matrix size of free device memory is enough for all three |
| Client.Accelerator.Execute | shell/compute/lookside/mmult.cpp:53-177 | one issued command, parsed and executed, leaves the product in place and the stream empty |
| Client.FetchOperand | examples/network_systolic_mm/network_systolic_mm.c:398-424 | one operand read is one post; the operand is in memory when the poll has seen the request complete |
| Client.BothCompleted | examples/network_systolic_mm/network_systolic_mm.c:398-424 | two successful posts from a queue in step with the device have completed both reads |
| Client.BothInTime | examples/network_systolic_mm/network_systolic_mm.c:398-424 | a device that completes both reads in time makes both posts succeed |
| Client.Compute | examples/network_systolic_mm/network_systolic_mm.c:426-434 | one command at disjoint regions: the product at C, both operands unchanged |
| Client.ReadBackCovers | examples/network_systolic_mm/network_systolic_mm.c:438 | the read-back's chunks through page entries move exactly the bytes of the result buffer |
| Client.Session | examples/network_systolic_mm/network_systolic_mm.c:398-440 | posts, command and read-back in order, with each way the sequence can end and when it must reach the last |
| Client.RunClient | examples/network_systolic_mm/network_systolic_mm.c:388-440 | the whole sequence: aborted if and only if an allocation is; if the device completes both reads in time and the driver moves every chunk, the product is read back and both posts return 0; whenever both posts succeed the words read back are the product, equal to the software result at full size, with A and B unchanged and the queue in step |

## Left out

- Sockets, ARP lookup, option parsing, timing output, memory locking and page-map reading: plumbing without state of its own; the physical address of a host buffer is a parameter.
- Straight-line register configuration (device open, queue-pair setup, register dumps): long but without branching.
- `rdma_qp_fatal_recovery`, the destroy calls and receive-queue pointers: they depend on hardware behaviour the repository does not describe.
- The rest of the driver patch (network device, interrupts, queue setup): calls into code that is not part of this model.
- Clear-on-read counters: they lose pulses while a response is held, and no exact claim is supported by the code.
- Clock-domain crossings and reset sequences of the vendor FIFOs: a FIFO is ideal, and the synchroniser stages of the matcher are plain registers.
- `axis_packet_reg_buffer`, the matcher's data path, is not part of this model; only the key, the table and the start address are followed.
- ReceivePath.ReceivePathExact: a packet the parser rejects leaves nothing behind it here, while the P4 engine decides what becomes of it; that engine takes in a packet before giving it out, and `StageExact` covers one that does not. The packet index is that of the build without `DEBUG`.
- The default branches of state machines for encodings that are never reached.
- QueuePool.NoSharedQueue: one direction's pool at a time; reads and writes have separate pools and the same code. Signals, driver unload and re-initialisation while operations run are not modelled, and the number of threads is fixed but arbitrary.
- QueuePool.EveryScheduleDrains: DMA completion is one step; the ten-second request timeout counts as completion.
- PacketFilter.ErrorBitTrustworthyExactly: the full flag in each cycle is the comparison with the threshold of some cycle no further back than the bound.
- RegisterBlock.RegControl.Clock: the clear-on-read counters, the fatal-error register and the timer enter as the value read from them.
- Doorbell.PostsStayInSync: indices are unbounded integers; the code never wraps them and a batch keeps them within the queue depth, a 32-bit overflow is not modelled.
- Doorbell.BatchReturnsWhenDone: the batch holds at least one request; with an empty one the loop is not entered when the indices already agree.
- Buffers.AllocationsDisjoint: the sum of sizes, doubled, stays below 2^64; the host pool has no other check in the code.
- Windows.TranslateIs: the bridge is modelled from the register descriptions as eight windows chosen by the address bits above 37.
- Transfer.MoveBuffer: offsets and pointers do not overflow 63 bits; the system calls' results are given as replies.
- Transfer.MapUserBufToSgl: what the allocator and the pinning return are parameters; an entry names the page of the buffer rather than its frame.
- Commands.DecodeRecoversAll: the depth of the hardware FIFO between writer and parser is not modelled.
- Systolic.Mmult: the kernel is stated for 1 <= a_col <= MAX_SIZE; with a_col 0 the local result is uninitialised and with more the local arrays are exceeded. Signed overflow is the 32-bit wrap of the hardware.
- Client.RunClient: an RDMA read is its effect on device memory once completed, and waiting for the job is the order of the calls; the contents of the work-queue elements beyond their address are not followed.
