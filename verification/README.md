# Verified model of the AmneziaWG daemon's algorithms

This project models the parts of the userspace daemon that carry hard invariants and proves what they
promise, for all inputs and all runs. `dafny verify dfyconfig.toml` (Dafny 4.11) covers the whole project.

Code that updates things in place is modelled in place: the routing trie, the receive-offload tables, the
index table, peers, the replay ring, the token buckets and the packet buffers are classes and arrays, and
their methods are proved against functions on plain values. The result for each component:

* **Allowed IPs** (`AddressBits`, `TrieGraph`, `AllowedIps`, `TrieShape`). After any run of insertions and
  removals the trie answers every lookup as a plain map from prefixes to peers would. It is canonical: the
  map determines its shape. Values of the heap are captured as a `Graph` of cells, over which the relinking
  steps are reasoned about.
* **Checksums and segmentation** (`Bytes`, `OnesComplement`, `InternetChecksum`, `Packets`, `Stride`, `Gso`,
  `GsoChecksumField`). The unrolled 64-bit checksum is the 16-bit ones'-complement sum of RFC 1071, in
  either byte order. With a well-formed header every segment that `gsoSplit` puts out is valid and says its own
  length; for other headers it is known exactly which are valid.
* **Receive offload** (`GroFlows`, `GroMerge`, `GroState`, `GroPolicy`, `GroAccounting`, `GroRoundTrip`,
  `GroOrder`, `Gro`, `GroDropped`). `handleGRO` loses no packet, merges none with a bad checksum, and splitting a
  merged buffer gives back what went into it. A ghost `Trace` records which packets each buffer holds.
* **UDP batching** (`UdpGso`, `BindStd`, `SplitMessages`). Coalescing and splitting undo each other for
  nonempty datagrams and segment sizes within what was received.
* **Handshake and index table** (`Noise`, `Peers`, `IndexRuns`, `Devices`, `Sessions`). With nonzero draws every index
  has one owner over every run by any number of peers, no initiation is accepted twice, and a completed handshake
  leaves both sides with matching keys and indices.
* **Nonces and replay** (`Nonce`, `Replay`). With up to 8193 concurrent senders no nonce is given out twice;
  no counter is ever accepted twice.
* **Rate limiting** (`Ratelimiter`). Garbage collection cannot be observed while no address stays away for
  so long that a 64-bit sum overflows, and the rate is bounded.
* **Protocol imitation** (`Imitation`, `ImitateStun`, `ImitateDns`, `ImitateSip`, `Imitate`, `QuicCodec`,
  `ClientHello`, `QuicInitial`). What is written parses, and nothing else is touched.

`Wrappers`, `Sequences` and `Arithmetic` hold what several modules share.

Some promises do not hold of the code as it is. Each has an exact condition and an input that fails it:

* `splitCoalescedMessages` delivers stale buffer bytes when the segment size exceeds what was received
  (`SplitMessages.SplitCoalescedMessages`, `SplitMessages.StaleByteDelivered`).
* `coalesceMessages` joins empty datagrams, which are then lost (`BindStd.CoalesceCut`,
  `BindStd.EmptyDatagramsLost`).
* Garbage collection can be observed once an address has stayed away so long that a 64-bit sum overflows
  (`Ratelimiter.CollectionUnobservable`, `Ratelimiter.AwayTooLong`).
* The nonce counter wraps with more than 8192 concurrent senders, and a nonce is reused with more than 8193
  (`Nonce.WrapFreeExactly`, `Nonce.UniqueExactly`).
* `gsoSplit` makes invalid segments when the checksum field is off a 16-bit boundary or on top of a field it
  rewrites (`GsoChecksumField.SegmentValidExactly`, `GsoChecksumField.OddSegmentValidExactly`,
  `GsoChecksumField.EvenOffsetFails`, `GsoChecksumField.OddOffsetFails`).
* A random index of 0 is taken for "no index": with a second peer there is a run in which that peer deletes the
  entry (`IndexRuns.SafeExactly`, `Sessions.ZeroDraw`).
* `handleGRO` writes a packet whose item it dropped under whatever virtio header was in front of it. All
  dropped ones came with a bad checksum, and every other buffer written has an empty header or one that describes
  it (`Gro.Batch.HandleGRO`, `GroDropped.StaleHeaderKept`).

Byte order, random draws, clock readings, fresh private keys and the segment sizes found in control data are
parameters. Cryptographic primitives are function values with only the laws that are named in `Noise.Laws`
and `QuicInitial.Laws`.

## Model

| member | source | states |
|---|---|---|
| `AddressBits.Choose` | device/allowedips.go:69-71 | the branch bit is the address bit right behind the prefix, and the byte index never leaves the address |
| `AddressBits.CommonBits` | device/allowedips.go:35-56 | exactly the length of the longest common prefix: the bits before agree, the next differs |
| `AddressBits.CommonBitsReach` | device/allowedips.go:35-56 | two addresses agree on their first n bits exactly if commonBits is at least n |
| `AddressBits.MaskSelf` | device/allowedips.go:73-78 | the first cidr bits are kept and all others cleared |
| `TrieGraph.Graph.OnePath` | device/allowedips.go:88-99 | all entries whose prefix covers one address lie on one path of back-links |
| `TrieGraph.Graph.SameKey` | device/allowedips.go:88-99 | no two entries of a well-linked trie hold the same prefix |
| `TrieGraph.Graph.AttachedCanonical` | device/allowedips.go:134-144 | hanging a leaf into a free slot keeps the trie canonical and adds one prefix to the map |
| `TrieGraph.Graph.DisplacedCanonical` | device/allowedips.go:152-165 | putting a covering entry above another keeps the trie canonical and adds one prefix |
| `TrieGraph.Graph.SplitCanonical` | device/allowedips.go:167-188 | a new branching entry above two diverging prefixes keeps the trie canonical |
| `TrieGraph.Graph.SplicedCanonicalBut` | device/allowedips.go:226-257 | splicing a peerless entry out leaves at most its parent short of a branch |
| `TrieGraph.Graph.BestIsLongestMatch` | device/allowedips.go:191-205 | the last peer seen on the walk is the one of the longest stored prefix |
| `TrieGraph.SlowLookupFinds` | device/allowedips_rand_test.go:60-68 | the naive router returns the peer of the longest matching prefix |
| `TrieGraph.SlowLookupMisses` | device/allowedips_rand_test.go:60-68 | the naive router returns nothing if no prefix matches |
| `AllowedIps.AllowedIPs.NodePlacement` | device/allowedips.go:88-99 | the deepest covering entry; exact if and only if it is that prefix; otherwise no entry holds the prefix |
| `AllowedIps.AllowedIPs.Lookup` | device/allowedips.go:191-205 | the answer of the naive longest-prefix router over the stored prefix map |
| `AllowedIps.AllowedIPs.Link` | device/allowedips.go:134-188 | all ways of linking a new entry keep the trie canonical and add exactly its prefix |
| `AllowedIps.AllowedIPs.Insert` | device/allowedips.go:101-189 | the trie stays valid and stands for the map with this prefix set to the peer |
| `AllowedIps.AllowedIPs.RemoveNode` | device/allowedips.go:226-257 | one prefix leaves the map, other entries keep their peers, the peer's list loses this entry |
| `AllowedIps.AllowedIPs.Prune` | device/allowedips.go:228-256 | splicing out the entry, and its parent if that no longer branches, restores validity |
| `AllowedIps.AllowedIPs.Remove` | device/allowedips.go:259-278 | the prefix is removed if and only if it is stored for this peer |
| `AllowedIps.AllowedIPs.RemoveByPeer` | device/allowedips.go:280-289 | exactly the prefixes of this peer are removed |
| `AllowedIps.AllowedIPs.Run` | device/allowedips.go:88-304 | after any run of steps the trie stands for the map those steps describe |
| `TrieShape.HoldsPeer` | device/allowedips.go:226-257 | below every entry of a canonical trie some entry holds a peer |
| `TrieShape.SameEntries` | device/allowedips.go:101-189 | two canonical tries for one map have entries for the same prefixes |
| `TrieShape.RootEmptyIffNoPrefix` | device/allowedips.go:226-289 | a root is nil if and only if no prefix of its family is stored |
| `TrieShape.SameShape` | device/allowedips.go:101-189 | two canonical tries for one map have the same shape, prefixes and peers throughout |
| `InternetChecksum.AddChain` | tun/checksum.go:15-34 | a chain of adds with carry gains exactly its words modulo 65535, and the final carry cannot overflow |
| `InternetChecksum.ChecksumNoFold` | tun/checksum.go:9-84 | the accumulator is congruent to initial plus the 16-bit words, zero only if they are |
| `InternetChecksum.FourFoldsFit` | tun/checksum.go:86-93 | four folds bring every 64-bit value within 16 bits |
| `InternetChecksum.Checksum` | tun/checksum.go:86-93 | the result represents initial plus the sum of the big-endian words, for either byte order |
| `InternetChecksum.ChecksumIsOnesSum` | tun/checksum.go:9-93 | for a 16-bit initial value this is the ones'-complement sum of section 2 of RFC 1071 |
| `InternetChecksum.PseudoHeaderChecksumNoFold` | tun/checksum.go:95-102 | the accumulator is congruent to the sum of the pseudo header |
| `Packets.CheckChecksum` | tun/offload_linux.go:388-398 | true if and only if the ones'-complement sum over pseudo header and segment is all ones |
| `Packets.FilledIsValid` | tun/offload_linux.go:973-978 | the complement of the sum, put into a cleared field, makes the segment valid |
| `Gso.BuildIpHeader` | tun/offload_linux.go:935-951 | length, identifier plus k modulo 2^16 and a valid IPv4 header sum; all other bytes unchanged |
| `Gso.BuildTransportHeader` | tun/offload_linux.go:953-968 | sequence number plus k segments modulo 2^32 with no loss in the 16-bit product; FIN and PSH only last |
| `Gso.BuildSegment` | tun/offload_linux.go:922-981 | one iteration yields the k-th share of the payload under its header, completed by the complement of its sum |
| `Gso.FilledIsSegment` | tun/offload_linux.go:922-981 | with a well-formed header that is the k-th segment of the input, with a valid transport checksum |
| `Gso.GsoSplit` | tun/offload_linux.go:901-983 | every buffer reported holds its segment and changes nowhere else; with a well-formed header these are the segments of the input; an error exactly when the buffers run out |
| `Gso.SplitConserves` | tun/offload_linux.go:901-983 | the payloads of all segments, as GsoSplit puts them out, concatenate to the payload of the input |
| `GsoChecksumField.EvenFieldValid` | tun/offload_linux.go:910-978 | on a 16-bit boundary a segment is valid if and only if its field was 0 or 0xffff when summed |
| `GsoChecksumField.SegmentValidExactly` | tun/offload_linux.go:910-978 | for any even checksum offset, which segments of a split are valid, from the header and the input alone |
| `GsoChecksumField.UdpLengthFieldNeverValid` | tun/offload_linux.go:965-978 | no segment of a split whose checksum goes over its UDP length field is valid |
| `GsoChecksumField.OddSegmentValidExactly` | tun/offload_linux.go:910-978 | for any odd checksum offset, which segments of a split are valid, from the header and the input alone |
| `GsoChecksumField.EvenOffsetFails` | tun/tun_linux.go:375-448 | a concrete TCP packet that passes every check before gsoSplit and whose second segment, as put out, is invalid: the field is on the sequence number |
| `GsoChecksumField.OddOffsetFails` | tun/tun_linux.go:375-448 | a concrete UDP packet that passes every check before gsoSplit and whose segment, as put out, is invalid: the field is off the boundary |
| `GroFlows.ParseTcp` | tun/offload_linux.go:531-579 | a flow is recognised only with ACK or ACK+PSH, a header of 20 to 60 bytes and a nonempty payload |
| `GroFlows.ParseUdp` | tun/offload_linux.go:786-821 | a flow is recognised only with a nonempty payload within 65535 bytes |
| `GroFlows.FlowExactly` | tun/offload_linux.go:751-775 | exactly which packets belong to a TCP or UDP flow, and to which |
| `GroMerge.LhsLenIsExact` | tun/offload_linux.go:349-352 | the 16-bit length of the merged payload loses nothing |
| `GroMerge.CutsAtBoundaries` | tun/offload_linux.go:926-930 | cut at multiples of the segment size, a merged payload falls apart into what it was made of |
| `GroMerge.AppendContiguous` | tun/offload_linux.go:352-367 | an appended segment continues the sequence numbers |
| `GroMerge.PrependContiguous` | tun/offload_linux.go:368-384 | a prepended segment continues the sequence numbers, modulo 2^32 |
| `GroState.Trace.TcpAppended` | tun/offload_linux.go:490-504 | after an append the item describes its buffer: sizes, sequence numbers, header |
| `GroState.Trace.TcpPrepended` | tun/offload_linux.go:468-504 | after a prepend and the buffer swap the item describes its buffer |
| `GroState.Trace.UdpAppended` | tun/offload_linux.go:432-437 | after an append the UDP item describes its buffer |
| `GroState.Trace.TcpVerified` | tun/offload_linux.go:460-489 | once the checks before a merge have passed, all packets of the TCP item and the new one came with valid checksums |
| `GroState.Trace.UdpVerified` | tun/offload_linux.go:424-431 | the same for UDP |
| `GroState.Trace.TcpMerged` | tun/offload_linux.go:600-607 | merging one packet keeps every item of its flow and every buffer right |
| `GroState.Trace.UdpMerged` | tun/offload_linux.go:835-843 | merging one packet keeps the UDP flow in order of arrival |
| `Gro.Batch.CoalesceTcpPackets` | tun/offload_linux.go:444-506 | the exact outcome; on success the packet is in the item's buffer, else nothing changed |
| `Gro.Batch.PrependTcp` | tun/offload_linux.go:468-504 | payloads joined in order under the new head, buffers swapped, item updated |
| `Gro.Batch.AppendTcp` | tun/offload_linux.go:490-504 | payload behind the item's, PSH carried into its header |
| `Gro.Batch.CheckSums` | tun/offload_linux.go:460-467 | an unmerged item is checked once, the packet always |
| `Gro.Batch.TryItem` | tun/offload_linux.go:600-616 | the exact outcome for one item: merged as it says, dropped for its bad checksum, or left as it is |
| `Gro.Batch.TryItems` | tun/offload_linux.go:591-617 | items are tried from newest to oldest; the first success or an invalid packet ends the search, and exactly the items found invalid leave the list |
| `Gro.Batch.TcpGRO` | tun/offload_linux.go:531-621 | the exact result for the packet, and every table and buffer still accounted for; buffers outside the tables untouched |
| `Gro.Batch.InsertTcp` | tun/offload_linux.go:112-129 | the item that describes the packet goes to the end of its flow's list |
| `Gro.Batch.DropItem` | tun/offload_linux.go:136-140 | exactly this item, into which nothing was merged, leaves the list |
| `Gro.Batch.InsertUdp` | tun/offload_linux.go:219-234 | the same for UDP, with the known bad checksum remembered |
| `Gro.Batch.CoalesceUdpPackets` | tun/offload_linux.go:414-438 | the exact outcome; on success the payload is behind the last item's, else nothing changed |
| `Gro.Batch.UdpGRO` | tun/offload_linux.go:786-858 | the exact result for the packet, and every table and buffer still accounted for; buffers outside the tables untouched |
| `Gro.Batch.AccountTcpItem` | tun/offload_linux.go:625-679 | virtio header, IP length and header sum, pseudo-header sum; only header bytes of this buffer change |
| `Gro.Batch.AccountUdpItem` | tun/offload_linux.go:683-739 | the same for UDP, with the UDP length |
| `Gro.Batch.ApplyTCPCoalesceAccounting` | tun/offload_linux.go:625-679 | every TCP item is announced, whatever the order of the flows |
| `Gro.Batch.ApplyUDPCoalesceAccounting` | tun/offload_linux.go:683-739 | every UDP item is announced, and no TCP item is disturbed |
| `Gro.Batch.Offer` | tun/offload_linux.go:870-891 | a packet of no flow is left alone; one left alone gets an empty virtio header; others' buffers outside the tables untouched |
| `Gro.Batch.HandleGRO` | tun/offload_linux.go:865-896 | an error exactly for an offset without room or an empty packet; else all packets placed and written: items announced, packets left alone as they came under an empty virtio header, those of dropped items as they were given, header included |
| `GroDropped.StaleHeaderKept` | tun/offload_linux.go:608-610 | a concrete batch whose first packet is written under the header that happened to be in front of it |
| `Gro.Batch.SplitBuffer` | tun/offload_linux.go:334-983 | gsoSplit, run on a buffer handleGRO merged, puts out exactly the packets that went into it |
| `GroAccounting.SetIpLength` | tun/offload_linux.go:638-649 | the IP header states the packet's length and, for IPv4, has a valid sum |
| `GroAccounting.SetPseudoSum` | tun/offload_linux.go:655-668 | the checksum field holds the folded pseudo-header sum |
| `GroRoundTrip.TcpHdrWellFormed` | tun/offload_linux.go:629-644 | the virtio header written for a merged item describes its buffer |
| `GroRoundTrip.TcpRoundTrip` | tun/offload_linux.go:334-983 | splitting a merged TCP buffer returns numMerged+1 valid segments with the original payloads, sequence numbers and flow key |
| `GroRoundTrip.UdpRoundTrip` | tun/offload_linux.go:414-983 | splitting a merged UDP buffer returns numMerged+1 valid datagrams with the original payloads and flow key, in order |
| `GroOrder.BufferRecovers` | tun/offload_linux.go:865-896 | every buffer is an untouched packet, or splits into exactly the packets merged into it, sequence numbers and flow key included, all of which came with valid checksums |
| `GroOrder.EveryPacketOnce` | tun/offload_linux.go:865-896 | the packets of the written buffers, read in order, are a permutation of the batch |
| `GroOrder.UdpOrder` | tun/offload_linux.go:786-896 | the datagrams of each UDP flow are written in order of arrival |
| `UdpGso.CutUndoes` | conn/bind_std.go:450-498 | evenly sized datagrams can be cut back if and only if none is empty |
| `UdpGso.CutCount` | conn/bind_std.go:518-521 | the number of segments is the quotient rounded up |
| `BindStd.CoalesceMessages` | conn/bind_std.go:450-498 | datagrams are packed in order and greedily; control data starts over with the source address where that fits; the segment size is set once for several, never for one |
| `BindStd.BatchShape` | conn/bind_std.go:437-482 | at most 64 datagrams, within the payload limit, only the last short, size within 16 bits |
| `BindStd.CoalesceCut` | conn/bind_std.go:450-498 | cutting a message at its segment size gives the datagrams back if and only if none is empty |
| `BindStd.EmptyDatagramsLost` | conn/bind_std.go:462-483 | coalescing two empty datagrams yields one message that stands for one datagram |
| `SplitMessages.StaleByteDelivered` | conn/bind_std.go:518-526 | splitting a concrete message delivers a byte that was not received |
| `SplitMessages.SplitMessage` | conn/bind_std.go:508-541 | all pieces of one message are copied before its own buffer is overwritten; overflow exactly if they do not fit |
| `SplitMessages.SplitCoalescedMessages` | conn/bind_std.go:502-544 | the first n messages hold the packets in order, and those are the segments of what was received if and only if no segment size exceeds it; an error exactly for bad control data or overflow |
| `SplitMessages.ReceivedConserves` | conn/bind_std.go:502-544 | the segments of what was received concatenate to the received bytes |
| `SplitMessages.SplitUndoesCoalesce` | conn/bind_std.go:450-544 | a coalesced message received with its segment size splits into the original datagrams |
| `Noise.InitiationAgrees` | device/noise-protocol.go:178-352 | a delivered initiation gives the responder the initiator's keys, identity and timestamp |
| `Noise.ResponseAgrees` | device/noise-protocol.go:354-517 | a delivered response gives the initiator the responder's keys |
| `Peers.AtMostThree` | device/noise-protocol.go:522-628 | a peer's entries are those of its handshake and live keypairs, three at most |
| `Peers.OneOwner` | device/indextable.go:38-92 | no index belongs to two peers |
| `IndexRuns.StepSound` | device/indextable.go:38-92 | every step of a peer keeps the table sound and every other peer's entries |
| `IndexRuns.EntryStays` | device/indextable.go:38-92 | no run of other peers removes or changes a peer's entry |
| `IndexRuns.SafeExactly` | device/indextable.go:58-92 | a drawn index survives every run of the other peers if and only if it is not 0 or there are no other peers |
| `Peers.SessionBegun` | device/noise-protocol.go:578-606 | beginning a session keeps the table sound and touches no other peer's entry |
| `Peers.Confirmed` | device/noise-protocol.go:611-628 | promoting the next keypair keeps the table sound |
| `Devices.Device.NewIndexForHandshake` | device/indextable.go:58-92 | the first unused draw becomes the peer's entry |
| `Devices.Device.SwapIndexForKeypair` | device/indextable.go:44-56 | an existing entry is handed to the keypair, a missing one is not created |
| `Devices.Device.CreateMessageInitiation` | device/noise-protocol.go:178-248 | the message and transcript of the initiator; fails exactly without key or secrets; others' entries kept |
| `Devices.Device.ConsumeMessageInitiation` | device/noise-protocol.go:250-352 | accepted exactly if it opens, is newer and not too soon; only that peer changes: one step of the index runs |
| `Devices.Device.CreateMessageResponse` | device/noise-protocol.go:354-420 | the message and transcript of the responder; fails exactly in a wrong state or without secrets; which steps of the index runs it takes |
| `Devices.Device.ConsumeMessageResponse` | device/noise-protocol.go:422-517 | accepted exactly for a handshake waiting under that index whose transcript authenticates: one step of the index runs |
| `Devices.Device.BeginSymmetricSession` | device/noise-protocol.go:522-609 | send and receive keys by role, index taken over, slots rotated, handshake zeroed: one step of the index runs |
| `Devices.Device.ReceivedWithKeypair` | device/noise-protocol.go:611-628 | true exactly for the next keypair, which becomes current |
| `Devices.Device.ZeroAndFlushAll` | device/peer.go:214-238 | the peer holds nothing and no entry leads to it |
| `Devices.Device.ExpireCurrentKeypairs` | device/peer.go:240-257 | the handshake index is dropped and the nonces of current and next are used up |
| `Devices.Device.DeleteKeypair` | device/keypair.go:48-52 | exactly the keypair's entry leaves the table |
| `Sessions.Run` | device/noise-protocol.go:178-628 | over any run, entries and owners match one to one, at most three per peer, never both previous and next; accepted timestamps of a peer increase strictly, more than 20ms apart, and no initiation is accepted twice |
| `Sessions.NeverTwice` | device/noise-protocol.go:317-339 | increasing timestamps rule out that one initiation is accepted again |
| `Sessions.Agree` | device/noise-protocol.go:178-609 | a delivered handshake succeeds exactly if no secret is zero, with crossed keys and crossed indices |
| `Sessions.ZeroDraw` | device/noise-protocol.go:237-243 | after a draw of 0, any other peer that expires its keypairs twice removes the entry |
| `Nonce.NoncesUnique` | device/send.go:407-433 | any interleaving of up to 8193 senders, each checking the counter before it draws, gives each nonce once, below the limit |
| `Nonce.NoWrap` | device/send.go:407-433 | any interleaving of up to 8192 senders never wraps the counter |
| `Nonce.WrapFreeExactly` | device/constants.go:16 | the counter is safe from wrapping if and only if there are at most 8192 senders; the failing run respects the check |
| `Nonce.UniqueExactly` | device/constants.go:16 | nonces are unique if and only if there are at most 8193 senders; the failing run respects the check |
| `Nonce.AssignNonces` | device/send.go:416-435 | each packet draws its nonce from the shared counter in a legal run, whatever other senders do in between; compaction keeps the usable packets in order and sets the late ones aside in order |
| `Nonce.ContainerUnique` | device/send.go:416-435 | in a run of up to 8193 senders, a nonce a container keeps is above every nonce drawn earlier and below every later one |
| `Nonce.NothingLost` | device/send.go:416-435 | every packet is kept with a usable nonce or set aside, once |
| `Replay.MarkSets` | replay/replay.go:56-61 | setting a mark changes that mark only, and changes the block exactly if it was unset |
| `Replay.Filter.Reset` | replay/replay.go:30-33 | clearing slot 0 alone makes the filter empty |
| `Replay.Filter.Advance` | replay/replay.go:42-51 | moving the window clears exactly what it newly covers |
| `Replay.Filter.ValidateCounter` | replay/replay.go:37-62 | accepted if and only if below the limit, never accepted before and not behind the window |
| `Replay.Run` | replay/replay.go:30-62 | every run from a reset of a ring with arbitrary contents gives exactly these answers |
| `Ratelimiter.Limiter.Allow` | ratelimiter/ratelimiter.go:99-137 | passes exactly if more than the packet's cost is left; the new bucket |
| `Ratelimiter.Limiter.Cleanup` | ratelimiter/ratelimiter.go:84-97 | exactly the idle entries are dropped |
| `Ratelimiter.Run` | ratelimiter/ratelimiter.go:84-137 | the methods give the answers of the model for any sequence of calls |
| `Ratelimiter.CollectionHidden` | ratelimiter/ratelimiter.go:84-137 | without overflow, any schedule of cleanups gives the same answers as none |
| `Ratelimiter.DropSeen` | ratelimiter/ratelimiter.go:84-137 | with an overflowing sum, a cleanup just before changes the answer |
| `Ratelimiter.AwayTooLong` | ratelimiter/ratelimiter.go:84-137 | two concrete calls, the second of which passes only after a cleanup |
| `Ratelimiter.CollectionUnobservable` | ratelimiter/ratelimiter.go:84-137 | all schedules give the same answers if and only if no sum overflows |
| `Ratelimiter.RateBound` | ratelimiter/ratelimiter.go:99-137 | in any interval of length D one address passes at most 5 + D/50ms times |
| `ImitateStun.WriteStun` | device/obf_imitate.go:183-257 | only the padding changes; from 20 bytes on, attributes parse to exactly the advertised length, a multiple of 4 up to 140 |
| `ImitateStun.WriteSoftware` | device/obf_imitate.go:225-239 | the SOFTWARE value is printable and at most 124 bytes |
| `ImitateDns.WriteDnsMsg` | device/obf_imitate.go:303-398 | only the padding changes; the sections end exactly with the datagram if and only if its length can be expressed |
| `ImitateDns.WriteDnsOptResponse` | device/obf_imitate.go:314-349 | the option fills the OPT record to the end of the datagram |
| `ImitateDns.WriteDnsNull` | device/obf_imitate.go:354-398 | the NULL record reaches to the end of the datagram |
| `ImitateDns.WriteDns` | device/obf_imitate.go:283-297 | the same, and the first two bytes are those of the packet behind the padding, or zero |
| `ImitateDns.WriteDnsWhole` | device/obf_imitate.go:129-136 | the same over a whole datagram, and the first two bytes are the low 16 bits of the seed |
| `ImitateSip.DecimalDigits` | device/obf_imitate.go:400-407 | the number of decimal digits |
| `ImitateSip.Solvable` | device/obf_imitate.go:483-502 | with room enough, one space or two spaces give a consistent Content-Length |
| `ImitateSip.SolveContentLength` | device/obf_imitate.go:483-502 | a consistent choice, or a proof that there is none within the padding |
| `ImitateSip.WriteSip` | device/obf_imitate.go:412-512 | only the padding changes; the header block is complete, with a Content-Length that counts the bytes behind it to the end, if and only if all mandatory headers and a consistent Content-Length fit |
| `ImitateSip.DecimalValue` | device/obf_imitate.go:492-497 | the digits written denote the number |
| `Imitate.FillPrefix` | device/obf_imitate.go:96-102 | nothing outside the padding changes, and what is in front of the packet passes for the protocol chosen, seeded by the packet |
| `Imitate.FillWhole` | device/obf_imitate.go:110-122 | a whole datagram passes for the protocol chosen: QUIC by header and drawn bytes, STUN by attributes, DNS by sections, SIP by Content-Length |
| `Imitate.WriteQuicShort` | device/obf_imitate.go:156-178 | a QUIC short header with reserved bits clear, its other bits and the bytes behind it drawn from the seed |
| `Imitate.Fnv1aSeed` | device/obf_imitate.go:62-73 | the FNV-1a hash of the first 64 bytes |
| `QuicCodec.VarintRoundTrip` | device/obf_imitate_quic.go:87-99 | reading undoes writing if and only if the number is below 2^62 |
| `QuicCodec.ExtensionFound` | device/obf_imitate_quic.go:117-120 | an extension put into a list is found in its encoding |
| `ClientHello.HelloReads` | device/obf_imitate_quic.go:164-176 | the extensions of a ClientHello are read back |
| `ClientHello.CryptoReads` | device/obf_imitate_quic.go:186-190 | the data of a CRYPTO frame is read back |
| `ClientHello.ServerNameReads` | device/obf_imitate_quic.go:132-135 | the host name is read back |
| `ClientHello.ParameterReads` | device/obf_imitate_quic.go:157-162 | the connection identifier parameter is read back |
| `QuicInitial.DecryptReads` | device/obf_imitate_quic.go:229-260 | removing header protection and encryption gives the payload back |
| `QuicInitial.BuildQuicInitial` | device/obf_imitate_quic.go:204-261 | exactly 1200 bytes, from which a receiver reads the server name and a parameter equal to the source connection identifier |

## Left out

- Gro.Batch.constructor: requires buffers with room for no more than 65535 bytes of packet and at most 65536 of them, as the daemon's batches are; beyond that a merged length or a buffer index would not fit its 16-bit field.
- GroRoundTrip.TcpRoundTrip: does not recover window, IP identifier or flags, because merging keeps those of one packet only.
- Gso.GsoSplit: requires room for its segment in each buffer that is written; without it the source's slice of the segment is out of range.
- BindStd.CoalesceMessages: datagrams are values; that appending reuses the spare memory of the first datagram's slice is not modelled; putting a segment size into control data always finds room.
- SplitMessages.SplitCoalescedMessages: each message's buffer is a value of its own; that segments of received bytes come out is stated for buffers with room for them; buffers of different messages do not share memory.
- Devices.Device.NewIndexForHandshake: a failing random source is not modelled.
- Sessions.Run: draws are nonzero, and each method is one step.
- Nonce.NoncesUnique: a sender may check the counter, or take a nonce after a check, any number of times; the age of the keypair is not modelled.
- Nonce.AssignNonces: staging, queues and the jump back to the top are not modelled.
- Ratelimiter.Limiter.Cleanup: the clock is read once, not once per entry.
- ImitateSip.WriteSip: where not even a status line fits, what is written is only known to stay within the padding; the packet behind it could then happen to complete a header block.
- QuicInitial.BuildQuicInitial: the datagram length is fixed at 1200, the only one in use.
- Locks, goroutines, memory pools and the reuse of item slices.
- Message types, MACs, cookies and magic headers of the handshake; timers; changing the private key.
- EntriesForPeer, address unmapping, the virtio header's byte layout and gsoNoneChecksum: they would only add easy members.
- The text of configuration, sockets, control messages, TUN device calls and logging.
