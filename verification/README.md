# Verified model of the redundancy box and its packet engines

The repository builds a pair of *redundancy boxes* on DPDK and a fork of the test-pmd traffic
engine. This project models their logic in Dafny 4.11 and proves what the code is for.
`dafny verify dfyconfig.toml` checks everything; all statements are for every input or every run.

**The redundant-link protocol** (`cpp-14-build/src/main.cc`). The sending box writes a tag (server
index, 40-bit counter) over the source address of each frame of a known server, clones the burst
onto every link that is up, and commits its counters to the row recorded for the longest prefix
any link took. The receiving box lets a frame through only if its counter is above the last one
of that server, and puts the server's address back.

- `Options`, `Bytes`, `MacTag`: missing values and octets, shared by all; the tag as octets on a little-endian machine; exactly when it reads back.
- `LinkSpec`: one pass of each pipeline as a function of the burst and of what the drivers did.
- `LinkProtocol`: runs of both boxes in any interleaving over links that lose, delay, reorder and
  duplicate; tags are gap-free and unique, delivery is at most once, in order and unchanged.
- `MergedArrivals`: what gets through, said without counters; when redundancy loses nothing, and a
  case where one healthy link is not enough.
- `MbufPool`, `IngressPipeline`, `EgressPipeline`: the pipelines as written, with their arrays; every
  buffer is freed or handed over exactly once.
- `RunArrivals`: the same for whole runs - deliveries are the strict running maxima of all that arrived.
- `WireOrder`: what goes out on a link is in order in every run; when every committed frame is delivered.
- `HealthyLink`: completeness - exactly which frames are tagged, committed and sent, and when every
  frame received from a known server is delivered.
- `BoxRun`: the pipelines executed pass by pass compute what the protocol's run says.

**The packet engines** (`test-pmd/csrc`).

- `HeaderStacks`, `TunnelParser`, `OffloadInfo`, `TunnelLayout`: the tunnel header parser of the
  checksum engine against a grammar of header stacks; exactly which packets it gets right.
- `SplitCopy`, `SegmentCopy`: copying a packet into segments of other lengths, and writing a buffer
  across a segment chain.
- `VcBuffer`: the two-ended buffer of the flow-rule parser, over every run of tokens.
- `BitField`: values scattered over bit masks, prefix lengths as masks.
- `RawEncap`, `RawEncapStack`: headers built back to front in a fixed buffer; read by the parser above
  they are the header stack the items name.
- `FlowLists`, `StreamSetup`: id lists of flow rules and shared actions; streams, queues and cores.
- `Counting`, `StreamTable`, `LossAccounting`: numbered streams, the open-addressing stream table,
  and counting lost packets by two numbers.
- `Checksums`, `IcmpEcho`: the Internet checksum (section 1 of RFC 1071) in five forms, and the
  incremental update (section 3 of RFC 1624) of an echo reply.

Where the code does less than a reader would expect, the exact condition is proved:

- The tag is faithful if and only if the server index is below 256 and the counter below 2^40
  (`MacTag.TagIsFaithfulExactly`).
- A link that lost frame 1 and delivers frame 2 first makes the receiver refuse frame 1 from a
  healthy link (`MergedArrivals.OneHealthyLinkMayNotSuffice`); `MergedArrivals.ValueGetsThroughExactly`
  gives the condition for any merge.
- A UDP tunnel is parsed as GTP when its *source* port is 2123, and Geneve as VXLAN when the network
  card flags the packet as a tunnel (`TunnelLayout.RightExactly`, `TunnelLayout.SourcePortMisleads`).
- `parse_encap_ip` keeps the outer layer 4 protocol of an earlier packet of the burst, so an IP-in-IP
  packet after a UDP tunnel is taken to have an outer UDP header
  (`TunnelLayout.OuterProtocolExactly`, `TunnelLayout.StaleOuterProtocol`).
- An echo reply is accepted if and only if some word after the checksum is nonzero
  (`IcmpEcho.ReplyAcceptedExactly`, `IcmpEcho.EmptyRequestIsRefused`). A comment there speaks of multicast addresses; the code tests
  for a first octet of 224, and the model follows the code.
- A marked packet is not freed if and only if the stream table is full and its stream has no slot
  (`StreamTable.Aggregator.ReceiveMarker`, `StreamTable.FullTableRefuses`).
- A prefix length is cut to 32 bits after division by 8, so 2^35 is accepted by every field as the
  length 0. A field accepts exactly the lengths that fit it for all below 2^35, and a longer one is
  refused only if it does not fit after the cut either (`BitField.AcceptsWhatFitsExactly`,
  `BitField.HugeLengthIsAccepted`).
- A prefix length under a mask comes out right, and so does the full mask, if and only if the mask
  has at most 64 bits (`BitField.WrittenPrefixExactly`, `BitField.WrittenFullExactly`).
- The split copy stretches the last segment in 16 bits: a packet in one segment is copied if and only
  if the stretched length fits them. A packet in more segments than are asked for is never copied
  (`SplitCopy.SingleSegmentSucceedsExactly`, `SplitCopy.StretchIsCut`, `SplitCopy.MoreSegmentsNeverFit`).
- The split copy never checks the room of segment 0: every segment of a returned chain has the room
  it asks for if and only if segment 0 has, and is written inside its buffer if and only if segment 0
  is (`SplitCopy.RoomExactly`, `SplitCopy.FirstSegmentOverruns`).
- The raw header builder checks its 128 octets in debug builds only: every header lands inside if
  and only if the items after the last unsupported one add up to at most 128
  (`RawEncap.EncodedFitsExactly`, `RawEncap.FourHeadersOverrun`).
- The RSS set-up uses every receive and transmit queue exactly once if and only if there are as many
  of the one as of the other. The echo set-up sends to transmit queues that do not exist if and only
  if there are more receive than transmit queues, and leaves some unused if and only if there are
  fewer (`StreamSetup.RssUsesEveryQueueExactly`, `StreamSetup.IcmpUsesEveryQueueExactly`,
  `StreamSetup.EchoStreamWithoutQueue`, `StreamSetup.RssLeavesQueueOut`).
- `streams_fwd_config_setup` gives the cores the number of streams from before the streams are set
  up anew: they serve exactly the streams there are if and only if the number did not change
  (`StreamSetup.CoresServeStreamsExactly`, `StreamSetup.NewStreamHasNoCore`).

Methods that change arrays or fields follow the source's loops and are proved against functions of
the old state; what those functions guarantee is proved about them in lemmas. Driver decisions -
what arrives, how much is taken, which allocations and driver calls fail, which links are up - are
parameters. Addresses, counters and lengths are unbounded integers except where the 8-, 16-, 32-,
40-, 48- or 64-bit width is written out.

## Model

| member | source | states |
|---|---|---|
| Bytes.LeValueOfLeBytes | cpp-14-build/src/main.cc:376-381 | a number stored in octets through a pointer and read back is that number, if it fits |
| Bytes.LeBytesOfLeValue | cpp-14-build/src/main.cc:364-368 | octets read as a number and stored again are the same octets |
| MacTag.TagReadsBack | cpp-14-build/src/main.cc:370-393 | the tag of any frame reads back as the index modulo 256 and the counter modulo 2^40 |
| MacTag.TagLayout | cpp-14-build/src/main.cc:370-382 | octets 6 to 10 of a tagged frame are the counter's low five octets, least significant first, octet 11 the index modulo 256; all others stay |
| MacTag.TagIsFaithfulExactly | cpp-14-build/src/main.cc:370-393 | a tag identifies (server, counter) if and only if server < 256 and counter < 2^40 |
| MacTag.RestoreUndoesTag | cpp-14-build/src/main.cc:395-401 | putting the original address back gives the original frame, octet for octet |
| LinkSpec.ServerOf | cpp-14-build/src/main.cc:309-318 | the first server with the address, or the number of servers if there is none |
| LinkSpec.MaxSent | cpp-14-build/src/main.cc:451-485 | an upper bound of what the links took that some link reached |
| LinkProtocol.NumberedRange | cpp-14-build/src/main.cc:439-445 | the counters used for a server are exactly those above the starting one up to the final one |
| LinkProtocol.StampsAreNumbered | cpp-14-build/src/main.cc:427-449 | within a burst each tagged frame gets the next counter of its server |
| LinkProtocol.StampsInOrder | cpp-14-build/src/main.cc:427-449 | tags are given in order of arrival |
| LinkProtocol.StampsNameServers | cpp-14-build/src/main.cc:431-441 | the tag names the server whose address the frame carries |
| LinkProtocol.SenderInvariant | cpp-14-build/src/main.cc:403-496 | in every run the committed tags number each server's frames from 1 without gaps, all that was ever on a link is committed, and all committed was on some link |
| LinkProtocol.CommittedTagsAreGapFree | cpp-14-build/src/main.cc:451-491 | after any run, whatever links went down and whatever failed, the numbers committed for a server are exactly 1 to its counter, and every one of them went out on some link |
| LinkProtocol.TagsOnWireAreGapFree | cpp-14-build/src/main.cc:370-491 | the tags that the octets of the packets ever put on a link spell out are exactly (s, 1) to (s, counter of s) for the known servers s |
| LinkProtocol.WireTag | cpp-14-build/src/main.cc:370-393 | the octets of a packet on a link spell out the committed tag behind it |
| LinkProtocol.SameTagSameFrame | cpp-14-build/src/main.cc:487-491 | two packets ever put on links with one tag are clones of one frame: a tag that is tried again was never on a wire |
| LinkProtocol.AdmittedIncreases | cpp-14-build/src/main.cc:511-529 | what a burst lets through lies above the old counters, not above the new ones, and increases strictly per server |
| LinkProtocol.WirePacketIsGenuine | cpp-14-build/src/main.cc:523-528 | restoring a packet found on a link gives the frame as first received |
| LinkProtocol.SenderMonotone | cpp-14-build/src/main.cc:487-491 | committing never lowers a counter |
| LinkProtocol.ReceiverInvariant | cpp-14-build/src/main.cc:498-538 | in every run deliveries of a server increase strictly, stay within the counters and are frames that were received |
| LinkProtocol.EndToEnd | cpp-14-build/src/main.cc:403-538 | in every run over links that lose, delay, reorder and duplicate, each received frame is let through at most once, unchanged with its source address, and each server's frames in their order |
| MergedArrivals.EgressCounterIsMaximum | cpp-14-build/src/main.cc:517-523 | the receiver's counter is the largest that arrived |
| MergedArrivals.AdmitsExactlyRecords | cpp-14-build/src/main.cc:517-521 | a packet is let through if and only if it beats every earlier packet of its server |
| MergedArrivals.AdmittedAreRecords | cpp-14-build/src/main.cc:511-529 | what gets through is exactly the strict running maxima of the merged arrivals, in order |
| MergedArrivals.BurstsDoNotMatter | cpp-14-build/src/main.cc:508-529 | cutting arrivals into bursts differently changes nothing |
| MergedArrivals.ValueGetsThroughExactly | cpp-14-build/src/main.cc:517-523 | a tag gets through if and only if it arrives before any larger one of its server |
| MergedArrivals.GapFreeLinksLoseNothing | cpp-14-build/src/main.cc:511-529 | if every link delivers 1..k in order, any merge lets through 1..max(k) with none missing |
| MergedArrivals.OneHealthyLinkMayNotSuffice | cpp-14-build/src/main.cc:517-521 | a concrete merge in which a link that delivers everything is not enough |
| RunArrivals.RunIsOnePass | cpp-14-build/src/main.cc:498-538 | in every run, whatever the links and bursts, counters and deliveries are those of one pass over all that arrived |
| RunArrivals.RunDeliversRecords | cpp-14-build/src/main.cc:511-529 | the deliveries of every run are exactly the strict running maxima of all that arrived |
| RunArrivals.RunLosesNothing | cpp-14-build/src/main.cc:511-529 | in every run in which each link brings 1..k in order, exactly 1..max(k) are delivered |
| WireOrder.WireIsOrdered | cpp-14-build/src/main.cc:427-485 | in every run each link is given its packets in the order in which their frames came in |
| WireOrder.WireCountersRise | cpp-14-build/src/main.cc:370-485 | in every run the counters of a server that the octets on a link spell out increase strictly |
| WireOrder.FullLinkExactly | cpp-14-build/src/main.cc:451-491 | a link's counters of a server are 1, 2, ... to the sender's counter if and only if the link was given them all |
| WireOrder.FullLinkLosesNothing | cpp-14-build/src/main.cc:403-538 | if one link was given all committed frames of a server and brings them in order, and the others bring theirs without gaps or nothing, the numbers 1 to the sender's counter are delivered, each once |
| WireOrder.FullLinkDeliversAll | cpp-14-build/src/main.cc:403-538 | then every committed frame of that server is delivered with its octets as received |
| WireOrder.OneLinkDeliversAll | cpp-14-build/src/main.cc:403-538 | with one link that brings everything in order every committed frame is delivered, whatever transmissions were cut short |
| HealthyLink.StampsAreComplete | cpp-14-build/src/main.cc:427-449 | of a burst exactly the frames whose source address is listed are tagged, each exactly once |
| HealthyLink.SentExactly | cpp-14-build/src/main.cc:453-485 | a link that is down or for which a clone fails takes nothing; any other takes the whole burst or what the driver accepts |
| HealthyLink.PassCommitsKnownFrames | cpp-14-build/src/main.cc:403-496 | in a pass in which a link is up, no clone fails and the driver takes all, every received frame of a known server is put on that link and committed with a tag of its server |
| HealthyLink.FullPrefix | cpp-14-build/src/main.cc:451-491 | one link that takes everything makes the whole burst the committed prefix, whatever the others do |
| HealthyLink.HealthyLinkCommitsAll | cpp-14-build/src/main.cc:403-496 | in every run in which a link takes everything in every pass, every received frame of a known server is committed and on that link |
| HealthyLink.HealthyLinkIsFull | cpp-14-build/src/main.cc:403-496 | such a link was given every number from 1 to the sender's counter |
| HealthyLink.HealthyLinkDeliversAll | cpp-14-build/src/main.cc:403-538 | if it also brings everything in order and the others bring theirs without gaps or nothing, every frame received from a known server is delivered, octet for octet |
| HealthyLink.FrameOfHealthyPassIsDelivered | cpp-14-build/src/main.cc:403-538 | over one link, a frame of a known server received in a pass in which the link takes everything is delivered, whatever happened in the other passes, if the link brings what it was given in order |
| MbufPool.Pool.Transmit | cpp-14-build/src/main.cc:475-480 | the driver takes a prefix of held buffers, which are then no longer held |
| MbufPool.Pool.FreeAll | cpp-14-build/src/main.cc:493-495 | freeing distinct held buffers gives back exactly those |
| IngressPipeline.Ingress.IngressServerIndex | cpp-14-build/src/main.cc:309-318 | the search loop finds the first matching server |
| IngressPipeline.Ingress.TagAndRecord | cpp-14-build/src/main.cc:439-448 | one frame is tagged in place, its server's scratch counter goes up and the row is recorded |
| IngressPipeline.Ingress.Classify | cpp-14-build/src/main.cc:427-449 | exactly the frames of known servers (HealthyLink.StampsAreComplete) are tagged and kept in order, all others freed; row j holds the counters after j+1 tags |
| IngressPipeline.Ingress.CloneAll | cpp-14-build/src/main.cc:459-465 | every clone shows its original; failure of any is noticed and nothing else is held |
| IngressPipeline.Ingress.SendOnLink | cpp-14-build/src/main.cc:453-485 | a link takes a prefix of the tagged burst, and every clone made is freed or handed over on every path |
| IngressPipeline.Ingress.Pipeline | cpp-14-build/src/main.cc:403-496 | counters move to those of the longest prefix any link took, each link took a prefix of the tagged burst, and all buffers received or cloned are freed or handed over exactly once |
| EgressPipeline.Egress.Filter | cpp-14-build/src/main.cc:511-529 | stale and foreign frames are freed, the others kept with their address restored, and the counters follow |
| EgressPipeline.Egress.Pipeline | cpp-14-build/src/main.cc:498-538 | the server side gets a prefix of the frames let through, and every buffer is freed or handed over exactly once |
| BoxRun.WireGrows | cpp-14-build/src/main.cc:451-485 | what the links took in a pass is what the protocol step puts on its wires |
| BoxRun.IngressPass | cpp-14-build/src/main.cc:403-496 | one pass of the ingress pipeline is one protocol step |
| BoxRun.EgressPass | cpp-14-build/src/main.cc:498-538 | one pass of the egress pipeline is one protocol step |
| BoxRun.Play | cpp-14-build/src/main.cc:403-538 | over a whole run the pipelines' counters, what each link took and the frames handed over are those of the protocol, and no buffer is left over |
| OffloadInfo.Record.ParseEthernet | test-pmd/csrc/csumonly.c:147-182 | the loop over VLAN tags ends and fills the record as specified for any octets |
| OffloadInfo.Record.ParseGtp | test-pmd/csrc/csumonly.c:199-250 | GTP by either control port or the data port, with the message type deciding the inner part |
| OffloadInfo.Record.ParseVxlan | test-pmd/csrc/csumonly.c:253-276 | VXLAN by port or by the network card's flag |
| OffloadInfo.Record.ParseVxlanGpe | test-pmd/csrc/csumonly.c:279-328 | VXLAN-GPE by its next-protocol octet |
| OffloadInfo.Record.ParseGeneve | test-pmd/csrc/csumonly.c:331-375 | Geneve with its options skipped |
| OffloadInfo.Record.ParseGre | test-pmd/csrc/csumonly.c:378-423 | GRE with its optional fields skipped |
| OffloadInfo.Record.ParseEncapIp | test-pmd/csrc/csumonly.c:427-452 | IP in IP, the outer layer 4 protocol left alone |
| OffloadInfo.Record.Dissect | test-pmd/csrc/csumonly.c:821-932 | the whole parse of one packet equals the specified dissection, and every length fits its field |
| TunnelParser.LengthsFit | test-pmd/csrc/csumonly.c:69-84 | no length of a packet of up to 65530 octets exceeds its 16- or 8-bit field |
| TunnelLayout.TagsRight | test-pmd/csrc/csumonly.c:157-163 | for any number of VLAN tags the layer 2 length ends at the network header |
| TunnelLayout.FrameRight | test-pmd/csrc/csumonly.c:147-182 | a frame's type, header lengths and protocol are those of the headers it holds |
| TunnelLayout.GreLengthRight | test-pmd/csrc/csumonly.c:385-394 | the GRE length is 4 plus 4 for each of checksum, key and sequence number (section 2 of RFC 2890) |
| TunnelLayout.TunnelRightExactly | test-pmd/csrc/csumonly.c:876-922 | for every tunnel kind and any inner headers the record is right exactly when no earlier guard fires |
| TunnelLayout.RightExactly | test-pmd/csrc/csumonly.c:870-932 | for every packet that holds a supported header stack, outer offset + outer IP length + inner layer 2 length is the inner IP header and the record describes it, if and only if no other guard fires first |
| TunnelLayout.GuardsAre | test-pmd/csrc/csumonly.c:199-452 | each tunnel guard by the ports, types and version nibbles it looks for, as numbers |
| TunnelLayout.WithoutTunnelParsing | test-pmd/csrc/csumonly.c:870-932 | with tunnel parsing off, every packet with any VLAN tags and an IP header is described by its outermost IP header, as no tunnel, whatever it carries, and the outer fields stay |
| TunnelLayout.WithoutTunnel | test-pmd/csrc/csumonly.c:870-932 | with tunnel parsing on, so is a packet that holds no tunnel and fires no guard |
| TunnelLayout.NeitherIpv4NorIpv6 | test-pmd/csrc/csumonly.c:165-181 | behind any VLAN tags a type that is neither gives lengths and protocol 0 and no tunnel, with tunnel parsing on or off |
| TunnelLayout.GtpControl | test-pmd/csrc/csumonly.c:199-250 | a GTP packet that carries no user data is a tunnel of 16 octets with nothing inside |
| TunnelLayout.PlaceIsInnermost | test-pmd/csrc/csumonly.c:926-932 | the packet has the innermost IP header at the place reported |
| TunnelLayout.OuterProtocolExactly | test-pmd/csrc/csumonly.c:427-452 | the outer layer 4 protocol is right if and only if the tunnel is not IP in IP or an earlier packet left 4 there |
| TunnelLayout.StaleOuterProtocol | test-pmd/csrc/csumonly.c:427-452 | IP in IP after a UDP tunnel reports UDP as its outer protocol |
| TunnelLayout.SourcePortMisleads | test-pmd/csrc/csumonly.c:208-212 | a concrete VXLAN packet, described right if and only if its source port is not 2123 |
| TunnelLayout.FirstIpIpHasNoOuterProtocol | test-pmd/csrc/csumonly.c:427-452 | a concrete first packet of a burst whose outer protocol is reported wrong |
| SplitCopy.PiecesKeepOctets | test-pmd/csrc/csumonly.c:622-682 | cutting a chain into pieces loses and reorders no octet |
| SplitCopy.PiecesFit | test-pmd/csrc/csumonly.c:622-682 | no piece is longer than requested |
| SplitCopy.PiecesAreGreedy | test-pmd/csrc/csumonly.c:643-668 | a piece has the length asked for or ends where a segment of the source ends, and no segment ends inside a piece |
| SplitCopy.PiecesStopAtEnd | test-pmd/csrc/csumonly.c:643-668 | fewer pieces than asked for are made only when the source is used up |
| SplitCopy.OneSegmentSuffices | test-pmd/csrc/csumonly.c:622-682 | a source of one segment is always used up if enough room is asked for |
| SplitCopy.AllSegmentsUsed | test-pmd/csrc/csumonly.c:622-682 | a used-up source whose octets need all requested segments fills all of them |
| SplitCopy.MoreSegmentsNeverFit | test-pmd/csrc/csumonly.c:622-682 | a source of more segments than pieces asked for is never used up |
| SplitCopy.MbufCopySplit | test-pmd/csrc/csumonly.c:622-682 | the cursor loop fills the destinations with the pieces and reports each failure exactly |
| SplitCopy.PlanSegments | test-pmd/csrc/csumonly.c:706-719 | the lengths asked for are the shortest prefix of the configured ones that covers the packet, or all with the last stretched in 16 bits by a signed 32-bit amount |
| SplitCopy.PlanCoversExactly | test-pmd/csrc/csumonly.c:706-719 | they cover the packet if and only if the stretched length fits 16 bits |
| SplitCopy.CopyNeedsRoom | test-pmd/csrc/csumonly.c:622-682 | no packet is copied into fewer octets than it has |
| SplitCopy.StretchIsCut | test-pmd/csrc/csumonly.c:713-719 | 65536 octets stretched into one segment are asked for as 0, and not copied |
| SplitCopy.PktCopySplit | test-pmd/csrc/csumonly.c:688-763 | a copy is returned exactly when no allocation fails, every segment but the first has room and the source is used up; it has the source's octets in pieces within their lengths; otherwise every buffer is freed |
| SplitCopy.Allocate | test-pmd/csrc/csumonly.c:721-742 | the loop reports all buffers available exactly when no allocation fails and every segment but the first has room |
| SplitCopy.RoomExactly | test-pmd/csrc/csumonly.c:732-742 | then every segment has the room it asks for if and only if segment 0 has, and its octets stay inside its buffer if and only if those of segment 0 do |
| SplitCopy.FirstSegmentOverruns | test-pmd/csrc/csumonly.c:732-742 | a concrete packet for which a copy is returned whose first segment is written past its end |
| SplitCopy.SingleSegmentSucceedsExactly | test-pmd/csrc/csumonly.c:688-763 | a packet in one segment is copied, if the buffers can be had, if and only if the stretched length fits 16 bits |
| SegmentCopy.FlattenOfWritten | test-pmd/csrc/txonly.c:73-97 | writing across a chain overwrites that range of the flattened packet, for any segment lengths including zero |
| SegmentCopy.CopyBufToPktSegs | test-pmd/csrc/txonly.c:73-97 | the segment walk ends and writes exactly that range; lengths and other octets stay |
| SegmentCopy.CopyBufToPkt | test-pmd/csrc/txonly.c:99-108 | either path, one copy or the walk, overwrites that range of the flattened packet |
| VcBuffer.StepKeepsSafe | test-pmd/csrc/cmdline_flow.c:4569-4773 | every token keeps the layout: slots below data, blocks carved downwards, every pointer into its owner's block |
| VcBuffer.SafeIsDisjoint | test-pmd/csrc/cmdline_flow.c:4627-4689 | all slots and blocks lie behind the header inside the buffer, pairwise disjoint |
| VcBuffer.RunIsSafe | test-pmd/csrc/cmdline_flow.c:4569-4773 | both hold in every state that any admissible run of tokens reaches |
| VcBuffer.EveryRunIsSafe | test-pmd/csrc/cmdline_flow.c:4451-4473 | so in particular in every state reached from a zeroed buffer of any size anywhere |
| VcBuffer.WhereNext | test-pmd/csrc/cmdline_flow.c:4569-4690 | which tokens are accepted, and where the next value goes: header, attributes, tunnel option, start of the slots, new slot or last action's block |
| VcBuffer.ParamSets | test-pmd/csrc/cmdline_flow.c:4709-4750 | `spec` sets the specification pointer to the first third of the last item's block, `last` the last pointer to the second, `mask` and `prefix` the mask pointer to the third, `is` the first and the third with the object mask there; every other pointer stays |
| VcBuffer.ParamWithoutItem | test-pmd/csrc/cmdline_flow.c:4737-4738 | a parameter before any item is refused and changes nothing |
| VcBuffer.StepAsGiven | test-pmd/csrc/cmdline_flow.c:4569-4773 | one token changes the descriptors as asked for and in no other way |
| VcBuffer.EveryRunIsAsGiven | test-pmd/csrc/cmdline_flow.c:4569-4773 | after every run from a zeroed buffer the items and actions are those accepted, in order, and a pointer of an item is set if and only if one of its parameters was given after that item |
| VcBuffer.DescriptorLayout | test-pmd/csrc/cmdline_flow.c:4651-4689 | which octets of a slot hold the kind and each of the pointers |
| VcBuffer.ItemRefusedExactly | test-pmd/csrc/cmdline_flow.c:4655-4660 | an item is refused if and only if no aligned block of three times its size fits behind its slot |
| VcBuffer.ActionRefusedExactly | test-pmd/csrc/cmdline_flow.c:4672-4677 | an action is refused if and only if no aligned block of its size fits behind its slot |
| VcBuffer.ItemKeepsStored | test-pmd/csrc/cmdline_flow.c:4651-4689 | writing an item's slot and clearing its block leaves every slot of the buffer showing its descriptor and changes nothing else |
| VcBuffer.ActionKeepsStored | test-pmd/csrc/cmdline_flow.c:4667-4689 | the same for an action |
| VcBuffer.PointerKeepsStored | test-pmd/csrc/cmdline_flow.c:4740-4750 | setting a pointer in the last slot leaves every slot showing its descriptor |
| VcBuffer.Context.ParseVc | test-pmd/csrc/cmdline_flow.c:4569-4690 | the parser's fields follow the specified step, the slots show the descriptors, the new block is cleared and no other octet behind the header changes |
| VcBuffer.Context.ParseSpec | test-pmd/csrc/cmdline_flow.c:4692-4752 | a parameter of the last item does what VcBuffer.ParamSets says, in the fields and in the octets of the item's slot; no octet outside that slot changes |
| VcBuffer.Context.ParseConf | test-pmd/csrc/cmdline_flow.c:4754-4773 | an action parameter goes into the last action's block |
| BitField.LowBits | test-pmd/csrc/cmdline_flow.c:4328-4338 | the bits shifted out one by one are the value modulo a power of two |
| BitField.PositionsExactly | test-pmd/csrc/cmdline_flow.c:4316-4342 | the walk over a mask visits exactly its set bits, each once, in either byte order |
| BitField.PositionsAscend | test-pmd/csrc/cmdline_flow.c:4316-4342 | the walk goes from the least to the most significant bit of the field's value, in either byte order |
| BitField.GatherOfWritten | test-pmd/csrc/cmdline_flow.c:4310-4347 | scattering a value over a mask and gathering it gives the value modulo 2 to the number of masked bits |
| BitField.Fill | test-pmd/csrc/cmdline_flow.c:4310-4347 | the masked bits get the value's bits, all others stay, and the length is the number of masked bits |
| BitField.PrefixValue | test-pmd/csrc/cmdline_flow.c:4388-4399 | shifting 64-bit numbers gives u ones above the zeros, those from bit 64 on lost |
| BitField.SetPrefix | test-pmd/csrc/cmdline_flow.c:4405-4427 | without a mask the field becomes u ones followed by zeros in network order, in both byte orders |
| BitField.WrittenPrefixExactly | test-pmd/csrc/cmdline_flow.c:4388-4403 | under a mask exactly u bits become ones, each of a larger weight in the field's value than any zero, if and only if the mask has at most 64 bits |
| BitField.WrittenFullExactly | test-pmd/csrc/cmdline_flow.c:4400-4402 | the object's mask gets every masked bit set if and only if there are at most 64 |
| BitField.ParsePrefix | test-pmd/csrc/cmdline_flow.c:4368-4433 | with a mask a length is accepted exactly when it fits, without one exactly when it fits after the cut to 32 bits; object and mask become a prefix of that length and a full mask, with a mask if and only if it has at most 64 bits |
| BitField.AcceptsWhatFitsExactly | test-pmd/csrc/cmdline_flow.c:4405-4409 | a field takes exactly the lengths that fit it, if and only if the length is below 2^35 or does not fit after the cut either |
| BitField.HugeLengthIsAccepted | test-pmd/csrc/cmdline_flow.c:4405-4409 | the length 2^35 fits no field and every field accepts it as 0 |
| RawEncap.Wire | test-pmd/csrc/cmdline_flow.c:7612-7695 | the total size is the sum of the header sizes |
| RawEncap.WireHoldsHeader | test-pmd/csrc/cmdline_flow.c:7612-7699 | every item's header stands where the sizes before it add up to, patched for the nearest item above that announces a protocol |
| RawEncap.WireNamesUpper | test-pmd/csrc/cmdline_flow.c:7370-7418 | in the built headers Ethernet names the nearest protocol announced above, IP has its version and names it exactly if the number fits one octet, and octets not patched are the item's own |
| RawEncap.EncodedFitsExactly | test-pmd/csrc/cmdline_flow.c:7612-7698 | every header lands inside the buffer if and only if the items after the last unsupported one take at most 128 octets |
| RawEncap.FourHeadersOverrun | test-pmd/csrc/cmdline_flow.c:7688-7698 | four IPv6 headers do not |
| RawEncap.RawConf.UpdateFields | test-pmd/csrc/cmdline_flow.c:7370-7418 | patching in place gives the specified header and touches nothing outside it |
| RawEncap.RawConf.Encode | test-pmd/csrc/cmdline_flow.c:7606-7695 | building from last to first leaves the headers in pattern order at the tail of the buffer, and an unsupported item clears it |
| RawEncap.RawConf.SetRaw | test-pmd/csrc/cmdline_flow.c:7581-7699 | after the move the buffer starts with the headers in pattern order; with an unsupported item it is all zero |
| RawEncapStack.FrameBuilt | test-pmd/csrc/cmdline_flow.c:7370-7418 | built octets of Ethernet, VLAN and IP items with default type and protocol fields are the frame with those tags and that IP header and protocol |
| RawEncapStack.TunnelBuilt | test-pmd/csrc/cmdline_flow.c:7370-7418 | and of tunnel items the tunnel they name: VXLAN, VXLAN-GPE, Geneve, GTP, GRE, NVGRE or IP in IP |
| RawEncapStack.BuiltHoldsStack | test-pmd/csrc/cmdline_flow.c:7581-7699 | a packet that starts with the built headers holds the header stack that the items name |
| RawEncapStack.BuiltParsesBack | test-pmd/csrc/cmdline_flow.c:7581-7699 | and the checksum engine's parser gives that stack back if and only if no other of its guards fires first |
| RawEncapStack.EthernetIpUdp | test-pmd/csrc/cmdline_flow.c:7612-7640 | Ethernet, IPv4 and UDP items with default fields give 42 octets of type 0x0800, first IP octet 0x45 and protocol 17 |
| RawEncapStack.EthernetIpAnd | test-pmd/csrc/cmdline_flow.c:7612-7690 | the same for every header that may stand above: its assigned protocol number, and the octets its format takes |
| RawEncapStack.PassedOver | test-pmd/csrc/cmdline_flow.c:7612-7690 | Ethernet, VXLAN, VXLAN-GPE, Geneve, GTP and PFCP items are never announced by what is below |
| RawEncapStack.TunnelFlags | test-pmd/csrc/cmdline_flow.c:7401-7414 | the flag octets of built VXLAN and VXLAN-GPE headers (section 5 of RFC 7348), and flags and payload type of NVGRE (section 3.2 of RFC 7637) |
| FlowLists.AttemptRemovesNamed | test-pmd/csrc/config.c:2150-2168 | an entry is removed only if named, and if named and no driver call fails it is |
| FlowLists.AttemptExactly | test-pmd/csrc/config.c:2150-2170 | an entry with a handle costs one driver call for each time it is named until one succeeds, and stays if and only if every call made for it fails; one without a handle goes if and only if it is named |
| FlowLists.StaysExactly | test-pmd/csrc/config.c:2148-2174 | over a whole destroy call the entries with handles that are gone are exactly those for which a driver call succeeded, and of the others those named |
| FlowLists.SurvivorsAreListed | test-pmd/csrc/config.c:2148-2174 | destruction invents no entry and keeps every entry not named |
| FlowLists.SurvivorsDescend | test-pmd/csrc/config.c:2148-2174 | destruction keeps ids strictly descending |
| FlowLists.SurvivorsOfSuccess | test-pmd/csrc/config.c:2148-2174 | when none of the calls made has failed exactly the entries not named are left |
| FlowLists.DestroyNamed | test-pmd/csrc/config.c:2148-2175 | the relinking loop leaves those entries and reports an error exactly when a driver call failed; what the driver still holds are exactly the handles of the entries left |
| FlowLists.FlowPort.Create | test-pmd/csrc/config.c:2073-2132 | a new rule gets the id above the head; ids stay descending and within 32 bits; each failure leaves the list; the driver holds exactly the rules listed |
| FlowLists.FlowPort.Destroy | test-pmd/csrc/config.c:2134-2176 | a rule goes exactly as FlowLists.StaysExactly says and the driver holds exactly the rules left; a result of success means that exactly the named rules are gone, and it comes unless a driver call made has failed |
| FlowLists.WantedExactly | test-pmd/csrc/config.c:2413-2420 | a rule is listed as often as it is in the list if no groups are given or its group is among them, and else not at all |
| FlowLists.FlowPort.List | test-pmd/csrc/config.c:2395-2435 | the listing has each rule of a wanted group as often as the list has it and no other; groups do not go down, nor priorities within a group, nor ids within a priority |
| FlowLists.PlaceDecides | test-pmd/csrc/config.c:1738-1752 | the place before the first id not above decides whether an id is assigned, and inserting there keeps the order |
| FlowLists.RemovingTheNewOne | test-pmd/csrc/config.c:1780-1784 | destroying the id just inserted restores the list |
| FlowLists.ActionPort.Alloc | test-pmd/csrc/config.c:1708-1754 | success and each error exactly; the id goes to its place; UINT32_MAX asks for the next id and is never assigned |
| FlowLists.ActionPort.Create | test-pmd/csrc/config.c:1757-1788 | success and each error exactly; a refused action leaves the list as it was; the driver holds exactly the actions with a handle |
| FlowLists.ActionPort.Destroy | test-pmd/csrc/config.c:1791-1836 | an action goes exactly as FlowLists.StaysExactly says and the driver holds exactly those left with a handle; a result of success means that exactly the named actions are gone, and it comes unless a driver call made has failed |
| StreamSetup.EveryStreamOnOneCore | test-pmd/csrc/config.c:3006-3044 | a contiguous assignment gives every stream to exactly one core |
| StreamSetup.Setup.SetupLcores | test-pmd/csrc/config.c:3006-3044 | the cores get a contiguous partition of the streams whose sizes differ by at most one |
| StreamSetup.TopologyIsPermutation | test-pmd/csrc/config.c:3046-3074 | paired, chained and loop each send every port's traffic to a port of its own |
| StreamSetup.PairedIsSwap | test-pmd/csrc/config.c:3053-3066 | paired ports answer each other; only the last of an odd number sends to itself |
| StreamSetup.ChainedIsRotation | test-pmd/csrc/config.c:3067-3068 | chained ports form one ring |
| StreamSetup.Setup.RssSetup | test-pmd/csrc/config.c:3114-3158 | the nested loops fill the stream table queue by queue, over an even contiguous core assignment |
| StreamSetup.RssPartners | test-pmd/csrc/config.c:3046-3158 | what comes in on queue q of a port goes out on queue q of its partner: the next or previous port when paired, the next one round when chained, itself when looped |
| StreamSetup.RssUsesEachQueueOnce | test-pmd/csrc/config.c:3114-3158 | a queue is received from, and sent to, by exactly one stream if its number is below both queue counts, and by none otherwise |
| StreamSetup.RssUsesEveryQueueExactly | test-pmd/csrc/config.c:3114-3158 | no stream uses a queue that does not exist; every receive queue and every transmit queue is used exactly once if and only if there are as many of the one as of the other |
| StreamSetup.RssLeavesQueueOut | test-pmd/csrc/config.c:3123-3125 | two receive queues and one transmit queue: the second receive queue is never polled |
| StreamSetup.CoresShareNoQueue | test-pmd/csrc/config.c:3006-3158 | streams of different cores share no receive and no transmit queue |
| StreamSetup.Setup.StreamsSetup | test-pmd/csrc/config.c:3163-3202 | each configured stream gets the next queue of its port; the cores are given the number of streams from before they are set up anew |
| StreamSetup.PortUsesFirstQueues | test-pmd/csrc/config.c:3163-3202 | a stream stays on its configured port; a port with n streams has its queues 0 to n-1 used by exactly one stream each, and no other |
| StreamSetup.CoresServeStreamsExactly | test-pmd/csrc/config.c:3173-3190 | the cores serve exactly the streams filled if and only if the two numbers are the same |
| StreamSetup.NewStreamHasNoCore | test-pmd/csrc/config.c:3173-3190 | one stream before and two after: the second has no core |
| StreamSetup.StreamsShareNoQueue | test-pmd/csrc/config.c:3163-3202 | configured streams share no queue |
| StreamSetup.Setup.IcmpEchoSetup | test-pmd/csrc/config.c:3363-3417 | the echo engine's streams, core by core |
| StreamSetup.EchoesGoBack | test-pmd/csrc/config.c:3363-3417 | the stream of queue q of a port receives from and answers on that queue of that port |
| StreamSetup.IcmpUsesEachQueueOnce | test-pmd/csrc/config.c:3363-3417 | every receive queue is received from by exactly one stream, and the transmit queues of the same numbers, and no others, are sent to by exactly one |
| StreamSetup.IcmpUsesEveryQueueExactly | test-pmd/csrc/config.c:3363-3417 | the streams use existing queues only if and only if nb_rxq <= nb_txq, and every queue exactly once if and only if nb_txq <= nb_rxq |
| StreamSetup.IcmpCoresShareNoQueue | test-pmd/csrc/config.c:3363-3417 | echo streams of different cores share no receive and no transmit queue |
| StreamSetup.EchoStreamWithoutQueue | test-pmd/csrc/config.c:3397-3413 | two receive queues and one transmit queue: a stream that sends to a queue that does not exist |
| StreamTable.ProbeOrder | test-pmd/csrc/aggre.c:57-61 | the 32-bit wrap of hash+di does not disturb the probe order |
| StreamTable.EverySlotProbedOnce | test-pmd/csrc/aggre.c:57-61 | the 64 probes of a hash visit every slot exactly once |
| StreamTable.OneSlotPerHash | test-pmd/csrc/aggre.c:56-77 | each hash occupies at most one slot |
| StreamTable.InsertKeepsConsistent | test-pmd/csrc/aggre.c:56-77 | every stream stays on its probe path behind slots of other streams only |
| StreamTable.InsertFailsExactly | test-pmd/csrc/aggre.c:56-77 | -1 if and only if all 64 slots are taken and the hash has none |
| StreamTable.FullTableRefuses | test-pmd/csrc/aggre.c:56-77 | a concrete full table in which a hash finds a slot if and only if it has one |
| StreamTable.Aggregator.InsertHashTable | test-pmd/csrc/aggre.c:56-77 | the probe loop over the slot arrays does the specified insertion |
| StreamTable.Aggregator.ReceiveMarker | test-pmd/csrc/aggre.c:121-142 | the slot's maximum, count and size follow the marker; the packet is not freed if and only if the table is full and its stream has no slot |
| Counting.OrdinalsIncrease | test-pmd/csrc/shunt.c:89-97 | numbers within a stream go up strictly and stay below its packet count |
| LossAccounting.ShuntSender.Prepare | test-pmd/csrc/shunt.c:89-97 | each packet is stamped with its number within its stream |
| LossAccounting.RunInvariant | test-pmd/csrc/aggre.c:121-142 | after any run each slot counts its stream's packets and keeps their largest number and the size of the last one |
| LossAccounting.SlotsAreStable | test-pmd/csrc/aggre.c:56-77 | a stream keeps its slot for the rest of the run and has no other |
| LossAccounting.MissingSize | test-pmd/csrc/aggre.c:138-139 | how many numbers below n are absent from a list without repeats |
| LossAccounting.LossIsCounted | test-pmd/csrc/aggre.c:121-142 | for any loss and reordering without duplication, max_sq + 1 - rx_pkts is how many of 0..max_sq never arrived |
| Checksums.AcceptedExactly | test-pmd/csrc/txonly.c:142-163 | a header is accepted if and only if its words add up to a positive multiple of 65535 |
| Checksums.ReductionsAgree | test-pmd/csrc/icmpecho.c:245-264 | fold-and-subtract and double fold agree on every 32-bit sum |
| Checksums.ReducedChecksumIsAccepted | test-pmd/csrc/shunt.c:257-277 | the stored checksum makes every 20-octet header acceptable |
| Checksums.FlowgenChecksumAgrees | test-pmd/csrc/flowgen.c:59-76 | so does flowgen's, equal to the others except for 0 against 0xFFFF |
| Checksums.IpSum | test-pmd/csrc/flowgen.c:59-76 | for any length the sum never exceeds 32 bits, the folding ends, and the result is the complement of the one's complement sum |
| Checksums.StoreChecksum | test-pmd/csrc/aggre.c:178-193 | the engine's statements store a checksum that makes the header acceptable and change no other word |
| IcmpEcho.ReplyInPlace | test-pmd/csrc/icmpecho.c:456-481 | stations swapped; IP addresses swapped or rewritten to another host; an acceptable IP header stays acceptable; the message becomes a reply |
| IcmpEcho.OtherHostBits | test-pmd/csrc/icmpecho.c:460-467 | the rewritten address differs from the old one in its last two bits only, which become 1, or 2 if they were 1 |
| IcmpEcho.SwapKeepsAcceptance | test-pmd/csrc/icmpecho.c:466-470 | swapping the addresses does not change whether the header is acceptable |
| IcmpEcho.UpdateKeepsSum | test-pmd/csrc/icmpecho.c:473-481 | the incremental update keeps the message's sum modulo 65535 |
| IcmpEcho.ReplyAcceptedExactly | test-pmd/csrc/icmpecho.c:473-481 | the reply to an acceptable request is acceptable if and only if some word after the checksum is nonzero |
| IcmpEcho.EmptyRequestIsRefused | test-pmd/csrc/icmpecho.c:473-481 | a concrete acceptable request whose reply is not |

## Left out

- LinkProtocol.EndToEnd: requires at most 256 servers and counters below 2^40 at the end of the run, because the tag holds no more, and that both boxes are configured with the same address list.
- LinkProtocol.SameTagSameFrame: the same bound on servers and counters, as in LinkProtocol.TagsOnWireAreGapFree.
- IngressPipeline.Ingress.Pipeline: a clone shows its original's octets; that both share one buffer until the original is freed is not modelled. 64-bit wrap of the counters is not modelled.
- BoxRun.Play: the buffers of both boxes are in one pool; each pipeline uses only its own.
- SplitCopy.PlanSegments: takes a nonempty packet for granted; for an empty one the code writes before its array of lengths.
- SplitCopy.PktCopySplit: the same. What octets past the end of segment 0 overwrite is not modelled.
- SegmentCopy.CopyBufToPktSegs: takes for granted that the offset lies in the packet; the code walks off the chain otherwise.
- VcBuffer.Context.ParseVc: the octets of the buffer's header are the fields of the class and not tracked as octets; padding in a descriptor is taken as zero.
- VcBuffer.RunIsSafe: addresses do not wrap; the order of tokens is that of the token tables, reduced to commands, attributes, items, actions and their parameters. Actions that lay out their own configuration inside their block (RSS, encapsulations) are not modelled.
- BitField.ParsePrefix: with a mask, fewer than 64 zeros below the prefix, since C gives a shift by 64 or more no meaning; field sizes below 2^32 - 1, so that one more octet does not wrap.
- OffloadInfo.Record.Dissect: octets beyond the packet read as 0; packets of up to 65530 octets.
- RawEncap.RawConf.SetRaw: takes for granted that the headers fit the 128 octets, by the exact condition above, and that every specification has its header's octets; what headers before the start of the buffer overwrite is not modelled.
- RawEncap.RawConf.Encode: the same two conditions.
- StreamTable.Aggregator.InsertHashTable: one atomic step; two cores inserting at once are not modelled, since the hash is written after the slot is claimed. Keys are never compared by the code and are not modelled.
- StreamSetup.Setup.StreamsSetup: `init_fwd_streams` itself, which computes the new number of streams, is not modelled; both numbers are parameters.
- StreamSetup.Setup.RssSetup: stream counts below 2^16, the width of the index; `simple_fwd_config_setup` is the same with one queue, and `dcb_fwd_config_setup` depends on driver data.
- LossAccounting.LossIsCounted: the table is cleared once, before the run; sequence numbers do not wrap.
- FlowLists.DestroyNamed: the driver is the set of ids it holds objects for; an object comes with a successful create call and goes with a successful destroy call.
- RawEncapStack.BuiltHoldsStack: MPLS, PFCP, ESP, AH and L2TPv3 headers count only as what an IP header announces, since the parser does not look into them.
- FlowLists.FlowPort.Create: conversion of the rule and tunnel offload are one success-or-failure parameter.
- Sizes and constants of DPDK's header and descriptor structures are written out as numbers; those files are not part of this model.
- `main`, option parsing, link-status polling and printing of the redundancy box.
- ARP replies, VLAN tags and burst compaction of the echo engine; the rest of the checksum engine after the parse.
- The remaining forwarding engines, the HTTP and statistics servers, traffic management and meter commands: input, output or thin wrappers.
