/** What the receive-offload tables and buffers mean while a batch is being processed. */
module GroState {
  import opened Bytes
  import opened OnesComplement
  import opened Packets
  import opened Stride
  import opened GroFlows
  import opened GroMerge

  /** A buffer from the packet offset on: the virtio header in front, the packet, its capacity. */
  datatype Buf = Buf(vnet: VirtioHdr, pkt: seq<byte>, cap: nat)

  /** The batch as it was given, and where its packets are: `origin[w]` lists, in payload order, the
    packets whose payloads buffer `w` holds; `home[j]` is the buffer that holds packet `j`. */
  datatype Trace = Trace(input: seq<seq<byte>>, canUDPGRO: bool, origin: map<nat, seq<nat>>, home: seq<nat>)
  {
    function FlowAt(j: nat): Flow
      requires j < |input|
    {
      FlowOf(input[j], canUDPGRO)
    }

    /** The next packet stays in its own buffer. */
    function Alone(): Trace {
      this.(origin := origin[|home| := [|home|]], home := home + [|home|])
    }

    /** The next packet joins buffer `w`, which then holds `js`. */
    function Into(w: nat, js: seq<nat>): Trace {
      this.(origin := origin[w := js], home := home + [w])
    }

    /** The packets of buffer `w` with the next packet behind or in front of them. */
    function Extended(w: nat, append: bool): seq<nat>
      requires w in origin
    {
      if append then origin[w] + [|home|] else [|home|] + origin[w]
    }

    /** Every packet seen so far is in exactly one buffer, once. */
    ghost predicate Placed() {
      && |home| <= |input|
      && (forall j :: 0 <= j < |home| ==> home[j] in origin)
      && (forall w :: w in origin ==> PlacedAt(w))
    }

    ghost predicate PlacedAt(w: nat)
      requires w in origin
    {
      && w in origin[w]
      && (forall j :: 0 <= j < |home| && home[j] == w ==> j in origin[w])
      && (forall j :: j in origin[w] ==> j < |home| && home[j] == w)
      && (forall a, b :: 0 <= a < b < |origin[w]| ==> origin[w][a] != origin[w][b])
    }

    /** Buffer `w` holds the payloads of its packets, in order, behind one header of their flow. */
    ghost predicate Holds(bufs: seq<Buf>, w: nat)
      requires w in origin
    {
      && w < |input| && w < |bufs|
      && var h := FlowAt(w).HeaderLen();
         && h <= |bufs[w].pkt|
         && bufs[w].pkt[h..] == Join(input, h, origin[w])
         && (forall j :: j in origin[w] ==> j < |input| && FlowAt(j) == FlowAt(w))
         && (|origin[w]| == 1 ==> bufs[w].pkt == input[w])
    }

    // ----- Items

    /** Header bytes that merging and its accounting may change: lengths, checksums and TCP flags. */
    static predicate Mutable(isV6: bool, isTcp: bool, p: nat) {
      || (if isV6 then 4 <= p < 6 else 2 <= p < 4 || 10 <= p < 12)
      || (if isTcp then p == IphLen(isV6) + 13 || IphLen(isV6) + 16 <= p < IphLen(isV6) + 18
          else IphLen(isV6) + 4 <= p < IphLen(isV6) + 8)
    }

    /** Apart from those bytes, the header is that of packet `j`. */
    static ghost predicate HeaderOf(input: seq<seq<byte>>, pkt: seq<byte>, j: nat, h: nat, isV6: bool, isTcp: bool) {
      && j < |input| && h <= |pkt| && h <= |input[j]|
      && forall p :: 0 <= p < h && !Mutable(isV6, isTcp, p) ==> pkt[p] == input[j][p]
    }

    /** Packet `j` came with a valid transport checksum. */
    static ghost predicate VerifiedAt(input: seq<seq<byte>>, j: nat, isV6: bool, proto: byte) {
      && j < |input| && AddrEnd(isV6) <= |input[j]| && IphLen(isV6) <= |input[j]|
      && ChecksumValid(input[j], IphLen(isV6), proto, isV6)
    }

    /** So did all packets that have been merged. */
    static ghost predicate Verified(input: seq<seq<byte>>, js: seq<nat>, isV6: bool, proto: byte) {
      |js| > 1 ==> forall j :: j in js ==> VerifiedAt(input, j, isV6, proto)
    }

    /** The packets of buffer `w` and the next packet did. */
    ghost predicate AllVerified(w: nat, isV6: bool, proto: byte)
      requires w in origin
    {
      (forall j :: j in origin[w] ==> VerifiedAt(input, j, isV6, proto)) && VerifiedAt(input, |home|, isV6, proto)
    }

    lemma MergedVerified(w: nat, append: bool, isV6: bool, proto: byte)
      requires w in origin && AllVerified(w, isV6, proto)
      ensures Verified(input, Extended(w, append), isV6, proto)
    {
      hide VerifiedAt;
    }

    /** The bookkeeping of a TCP item describes its buffer. */
    ghost predicate TcpItemOk(bufs: seq<Buf>, it: TcpItem) {
      && it.bufsIndex in origin && Holds(bufs, it.bufsIndex)
      && FlowAt(it.bufsIndex) == TcpFlow(it.key, it.tcphLen) && it.iphLen == IphLen(it.key.isV6)
      && var js, h := origin[it.bufsIndex], it.iphLen + it.tcphLen;
         && |js| == it.numMerged + 1
         && Sized(input, h, js, it.gsoSize)
         && Contiguous(input, it.key.isV6, js, it.gsoSize)
         && it.sentSeq == SeqOf(input, it.key.isV6, js[0])
         && HeaderOf(input, bufs[it.bufsIndex].pkt, js[0], h, it.key.isV6, true)
         && |bufs[it.bufsIndex].pkt| <= MAX16
         && Verified(input, js, it.key.isV6, TCP)
    }

    ghost predicate UdpItemOk(bufs: seq<Buf>, it: UdpItem) {
      && it.bufsIndex in origin && Holds(bufs, it.bufsIndex)
      && FlowAt(it.bufsIndex) == UdpFlow(it.key) && it.iphLen == IphLen(it.key.isV6)
      && var js, h := origin[it.bufsIndex], it.iphLen + UDPHLEN;
         && |js| == it.numMerged + 1
         && Sized(input, h, js, it.gsoSize)
         && HeaderOf(input, bufs[it.bufsIndex].pkt, js[0], h, it.key.isV6, false)
         && |bufs[it.bufsIndex].pkt| <= MAX16
         && Verified(input, js, it.key.isV6, UDP)
    }

    lemma TcpItemPlace(bufs: seq<Buf>, it: TcpItem)
      requires TcpItemOk(bufs, it)
      ensures it.bufsIndex in origin && it.bufsIndex < |input| && it.bufsIndex < |bufs|
      ensures FlowAt(it.bufsIndex) == TcpFlow(it.key, it.tcphLen)
    {
      hide Sized, Contiguous, HeaderOf, SeqOf, Join, FlowOf, Verified;
    }

    lemma UdpItemPlace(bufs: seq<Buf>, it: UdpItem)
      requires UdpItemOk(bufs, it)
      ensures it.bufsIndex in origin && it.bufsIndex < |input| && it.bufsIndex < |bufs|
      ensures FlowAt(it.bufsIndex) == UdpFlow(it.key)
    {
      hide Sized, HeaderOf, Join, FlowOf, Verified;
    }

    /** An item sees only its own buffer and the packets in it. */
    lemma TcpItemFrame(bufs: seq<Buf>, t: Trace, bufs': seq<Buf>, it: TcpItem)
      requires TcpItemOk(bufs, it) && t.input == input && t.canUDPGRO == canUDPGRO
      requires it.bufsIndex in t.origin && t.origin[it.bufsIndex] == origin[it.bufsIndex]
      requires |bufs'| == |bufs| && bufs'[it.bufsIndex].pkt == bufs[it.bufsIndex].pkt
      ensures t.TcpItemOk(bufs', it)
    {
      hide Sized, Contiguous, HeaderOf, SeqOf, Join, Verified;
    }

    lemma UdpItemFrame(bufs: seq<Buf>, t: Trace, bufs': seq<Buf>, it: UdpItem)
      requires UdpItemOk(bufs, it) && t.input == input && t.canUDPGRO == canUDPGRO
      requires it.bufsIndex in t.origin && t.origin[it.bufsIndex] == origin[it.bufsIndex]
      requires |bufs'| == |bufs| && bufs'[it.bufsIndex].pkt == bufs[it.bufsIndex].pkt
      ensures t.UdpItemOk(bufs', it)
    {
      hide Sized, HeaderOf, Join, Verified;
    }

    // ----- Placement

    lemma AlonePlaced()
      requires Placed() && |home| < |input| && |home| !in origin
      ensures Alone().Placed()
    {
      var t := Alone();
      forall w | w in t.origin ensures t.PlacedAt(w) {
        if w != |home| { assert PlacedAt(w); }
      }
    }

    static lemma NewMember(s: seq<nat>, j: nat, js: seq<nat>)
      requires j !in s && (js == s + [j] || js == [j] + s)
      requires forall a, b :: 0 <= a < b < |s| ==> s[a] != s[b]
      ensures forall a, b :: 0 <= a < b < |js| ==> js[a] != js[b]
      ensures forall x :: x in js <==> x == j || x in s
    {
      forall a, b | 0 <= a < b < |js| ensures js[a] != js[b] {
        if js == [j] + s {
          assert js[b] == s[b - 1];
          if a > 0 { assert js[a] == s[a - 1]; }
        }
      }
    }

    lemma IntoPlaced(w: nat, js: seq<nat>)
      requires Placed() && |home| < |input| && w in origin
      requires js == origin[w] + [|home|] || js == [|home|] + origin[w]
      ensures Into(w, js).Placed()
    {
      var t := Into(w, js);
      assert PlacedAt(w);
      NewMember(origin[w], |home|, js);
      forall v | v in t.origin ensures t.PlacedAt(v) {
        assert PlacedAt(v);
      }
    }

    // ----- Merging

    /** `|= tcpFlagPSH` */
    static function SetPsh(flags: byte): byte {
      if (flags / 8) % 2 == 0 && flags < 248 then flags + 8 else flags
    }

    /** A merged packet after another one has been appended behind it. */
    static function Appended(head: seq<byte>, flagsAt: nat, psh: bool, payload: seq<byte>): (r: seq<byte>)
      requires flagsAt < |head|
      ensures |r| == |head| + |payload|
    {
      (if psh then head[flagsAt := SetPsh(head[flagsAt])] else head) + payload
    }

    static lemma AppendedParts(head: seq<byte>, flagsAt: nat, psh: bool, payload: seq<byte>, h: nat)
      requires flagsAt < h <= |head|
      ensures var r := Appended(head, flagsAt, psh, payload);
        && r[h..] == head[h..] + payload
        && forall p :: 0 <= p < h && p != flagsAt ==> r[p] == head[p]
    {
    }

    /** The next packet may be merged into the item as `can` says. */
    ghost predicate TcpMergeable(bufs: seq<Buf>, it: TcpItem, can: CanCoalesce) {
      && TcpItemOk(bufs, it) && |home| < |input| && FlowAt(|home|) == FlowAt(it.bufsIndex)
      && var pkt := input[|home|];
         && it.iphLen + it.tcphLen < |pkt| && it.tcphLen >= 20
         && can == TcpPacketsCanCoalesce(pkt, it.iphLen, it.tcphLen, U32(pkt, it.iphLen + 4), pkt[it.iphLen + 13] == ACKPSH,
                                         |pkt| - it.tcphLen - it.iphLen, it, bufs[it.bufsIndex].pkt)
    }

    lemma MergeableSizes(bufs: seq<Buf>, it: TcpItem, can: CanCoalesce)
      requires TcpMergeable(bufs, it, can)
      ensures it.bufsIndex in origin && it.bufsIndex < |bufs| && it.iphLen == IphLen(it.key.isV6) && it.tcphLen >= 20
      ensures it.iphLen + it.tcphLen <= |bufs[it.bufsIndex].pkt| && it.iphLen + it.tcphLen < |input[|home|]|
    {
      hide Sized, Contiguous, HeaderOf, SeqOf, Join, FlowOf, TcpPacketsCanCoalesce, Verified;
    }

    lemma AppendFacts(bufs: seq<Buf>, it: TcpItem)
      requires TcpMergeable(bufs, it, Append)
      ensures var js, j, h := origin[it.bufsIndex], |home|, it.iphLen + it.tcphLen;
        && |Join(input, h, js)| % it.gsoSize == 0
        && 1 <= |Payload(input, h, j)| <= it.gsoSize
        && |Join(input, h, js)| < TWO16
        && SeqOf(input, it.key.isV6, j) == Wrap32(it.sentSeq + LhsLen(it.gsoSize, it.numMerged))
    {
      hide Join, U32, Wrap32, HeaderOf, FlowOf, IpHeadersCanCoalesce, Contiguous, Sized, LhsLen, Verified;
    }

    lemma AppendSize(bufs: seq<Buf>, it: TcpItem)
      requires TcpMergeable(bufs, it, Append)
      ensures |input[|home|]| - (it.iphLen + it.tcphLen) <= it.gsoSize
    {
      hide Join, U32, Wrap32, HeaderOf, FlowOf, IpHeadersCanCoalesce, Contiguous, Sized, LhsLen, Payload, Holds, Verified;
    }

    lemma AppendChain(bufs: seq<Buf>, it: TcpItem)
      requires TcpMergeable(bufs, it, Append)
      ensures var js, h := origin[it.bufsIndex] + [|home|], it.iphLen + it.tcphLen;
        && Sized(input, h, js, it.gsoSize)
        && Contiguous(input, it.key.isV6, js, it.gsoSize)
    {
      hide Join, Off, Contiguous, Sized, Payload, SeqOf, Wrap32, HeaderOf, FlowOf, TcpPacketsCanCoalesce, Holds, LhsLen, Verified;
      var js, j, h := origin[it.bufsIndex], |home|, it.iphLen + it.tcphLen;
      AppendFacts(bufs, it);
      AppendSized(input, h, js, it.gsoSize, j);
      LhsLenIsExact(it.gsoSize, it.numMerged);
      AppendContiguous(input, it.key.isV6, js, it.gsoSize, j);
    }

    lemma PrependFacts(bufs: seq<Buf>, it: TcpItem)
      requires TcpMergeable(bufs, it, Prepend)
      ensures var js, j, h := origin[it.bufsIndex], |home|, it.iphLen + it.tcphLen;
        && |Payload(input, h, j)| == |input[j]| - it.tcphLen - it.iphLen >= it.gsoSize
        && (|Payload(input, h, j)| > it.gsoSize ==> |js| == 1)
        && Wrap32(SeqOf(input, it.key.isV6, j) + |Payload(input, h, j)|) == it.sentSeq
    {
      hide Join, U32, Wrap32, HeaderOf, FlowOf, IpHeadersCanCoalesce, Contiguous, Sized, LhsLen, Verified;
    }

    lemma PrependChain(bufs: seq<Buf>, it: TcpItem)
      requires TcpMergeable(bufs, it, Prepend)
      ensures var js, g, h := [|home|] + origin[it.bufsIndex], |input[|home|]| - it.tcphLen - it.iphLen, it.iphLen + it.tcphLen;
        && g >= it.gsoSize
        && Sized(input, h, js, g)
        && Contiguous(input, it.key.isV6, js, g)
    {
      hide Join, Off, Contiguous, Sized, Payload, SeqOf, Wrap32, HeaderOf, FlowOf, TcpPacketsCanCoalesce, Holds, LhsLen, Verified;
      var js, j, h := origin[it.bufsIndex], |home|, it.iphLen + it.tcphLen;
      var g := |input[j]| - it.tcphLen - it.iphLen;
      PrependFacts(bufs, it);
      PrependSized(input, h, js, it.gsoSize, g, j);
      PrependContiguous(input, it.key.isV6, js, it.gsoSize, g, j);
    }

    lemma PayloadAt(h: nat, j: nat)
      requires j < |input| && h <= |input[j]|
      ensures Payload(input, h, j) == input[j][h..]
    {
    }

    /** Buffer `w` after a packet of its flow has been merged in. */
    lemma MergedHolds(bufs: seq<Buf>, w: nat, append: bool, bufs': seq<Buf>)
      requires w in origin && Holds(bufs, w) && |bufs'| == |bufs| && |home| < |input| && FlowAt(|home|) == FlowAt(w)
      requires |origin[w]| > 0
      requires var h := FlowAt(w).HeaderLen();
        && h <= |bufs'[w].pkt| && h <= |input[|home|]|
        && bufs'[w].pkt[h..] == if append then bufs[w].pkt[h..] + input[|home|][h..]
                                else input[|home|][h..] + bufs[w].pkt[h..]
      ensures Into(w, Extended(w, append)).Holds(bufs', w)
    {
      hide FlowOf, Payload, Join;
      var h := FlowAt(w).HeaderLen();
      PayloadAt(h, |home|);
      JoinAppend(input, h, origin[w], |home|);
      JoinPrepend(input, h, origin[w], |home|);
      assert |Extended(w, append)| > 1;
    }

    /** The bytes of a buffer that a packet was put behind. */
    lemma AppendedBytes(bufs: seq<Buf>, it: TcpItem, bufs': seq<Buf>)
      requires TcpMergeable(bufs, it, Append) && |bufs'| == |bufs|
      requires var pkt := input[|home|];
        bufs'[it.bufsIndex].pkt == Appended(bufs[it.bufsIndex].pkt, it.iphLen + 13, pkt[it.iphLen + 13] == ACKPSH, pkt[it.iphLen + it.tcphLen..])
      ensures var w, js, h := it.bufsIndex, origin[it.bufsIndex], it.iphLen + it.tcphLen;
        && Into(w, js + [|home|]).Holds(bufs', w)
        && HeaderOf(input, bufs'[w].pkt, js[0], h, it.key.isV6, true)
    {
      hide Join, Sized, Contiguous, FlowOf, TcpPacketsCanCoalesce, SeqOf, Payload, Appended, Verified;
      var w, h, j := it.bufsIndex, it.iphLen + it.tcphLen, |home|;
      AppendedParts(bufs[w].pkt, it.iphLen + 13, input[j][it.iphLen + 13] == ACKPSH, input[j][h..], h);
      MergedHolds(bufs, w, true, bufs');
    }

    lemma TcpAppended(bufs: seq<Buf>, it: TcpItem, bufs': seq<Buf>, it': TcpItem)
      requires TcpMergeable(bufs, it, Append)
      requires |bufs'| == |bufs| && it' == it.(numMerged := it.numMerged + 1, pshSet := it'.pshSet)
      requires var w, h, pkt := it.bufsIndex, it.iphLen + it.tcphLen, input[|home|];
        && bufs'[w].pkt == Appended(bufs[w].pkt, it.iphLen + 13, pkt[it.iphLen + 13] == ACKPSH, pkt[h..])
        && |bufs'[w].pkt| <= MAX16 && AllVerified(w, it.key.isV6, TCP)
      ensures Into(it.bufsIndex, origin[it.bufsIndex] + [|home|]).TcpItemOk(bufs', it')
    {
      hide Join, Sized, Contiguous, FlowOf, TcpPacketsCanCoalesce, SeqOf, Payload, Appended, Verified, HeaderOf, AllVerified;
      AppendChain(bufs, it);
      AppendedBytes(bufs, it, bufs');
      MergedVerified(it.bufsIndex, true, it.key.isV6, TCP);
      hide Holds;
    }

    /** The bytes of a buffer that a packet was put in front of. */
    lemma PrependedBytes(bufs: seq<Buf>, it: TcpItem, bufs': seq<Buf>)
      requires TcpMergeable(bufs, it, Prepend) && |bufs'| == |bufs|
      requires bufs'[it.bufsIndex].pkt == input[|home|] + bufs[it.bufsIndex].pkt[it.iphLen + it.tcphLen..]
      ensures var w, h, pkt := it.bufsIndex, it.iphLen + it.tcphLen, input[|home|];
        && Into(w, [|home|] + origin[w]).Holds(bufs', w)
        && HeaderOf(input, bufs'[w].pkt, |home|, h, it.key.isV6, true)
        && SeqOf(input, it.key.isV6, |home|) == U32(pkt, it.iphLen + 4)
    {
      hide Join, Sized, Contiguous, FlowOf, TcpPacketsCanCoalesce, SeqOf, Payload, U32, Verified, HeaderOf, Holds;
      var w, h, j := it.bufsIndex, it.iphLen + it.tcphLen, |home|;
      MergeableSizes(bufs, it, Prepend);
      TcpItemPlace(bufs, it);
      assert |origin[w]| == it.numMerged + 1 && FlowAt(w).HeaderLen() == h;
      hide TcpItemOk;
      PrependedParts(j, bufs[w].pkt[h..], h, it.key.isV6);
      SeqAt(it.key.isV6, j);
      MergedHolds(bufs, w, false, bufs');
    }

    lemma TcpPrepended(bufs: seq<Buf>, it: TcpItem, bufs': seq<Buf>, it': TcpItem)
      requires TcpMergeable(bufs, it, Prepend)
      requires |bufs'| == |bufs|
      requires var w, h, pkt := it.bufsIndex, it.iphLen + it.tcphLen, input[|home|];
        && bufs'[w].pkt == pkt + bufs[w].pkt[h..]
        && |bufs'[w].pkt| <= MAX16
        && it' == it.(numMerged := it.numMerged + 1, sentSeq := U32(pkt, it.iphLen + 4), gsoSize := |pkt| - it.tcphLen - it.iphLen)
        && AllVerified(w, it.key.isV6, TCP)
      ensures Into(it.bufsIndex, [|home|] + origin[it.bufsIndex]).TcpItemOk(bufs', it')
    {
      hide Join, Sized, Contiguous, FlowOf, TcpPacketsCanCoalesce, SeqOf, Payload, U32, Verified, HeaderOf, AllVerified;
      PrependChain(bufs, it);
      PrependedBytes(bufs, it, bufs');
      MergedVerified(it.bufsIndex, false, it.key.isV6, TCP);
      hide Holds;
    }

    /** Where an item has passed the checks that precede a merge, all its packets came with valid checksums. */
    lemma ItemVerified(bufs: seq<Buf>, w: nat, numMerged: nat, isV6: bool, proto: byte)
      requires Buffers(bufs) && w in origin && |home| < |input| && |origin[w]| == numMerged + 1 && Verified(input, origin[w], isV6, proto)
      requires IphLen(isV6) <= |bufs[w].pkt| && IphLen(isV6) <= |input[|home|]|
      requires numMerged == 0 ==> ChecksumValid(bufs[w].pkt, IphLen(isV6), proto, isV6)
      requires ChecksumValid(input[|home|], IphLen(isV6), proto, isV6)
      ensures AllVerified(w, isV6, proto)
    {
      hide FlowOf, Join, ChecksumValid;
      assert Holds(bufs, w) && PlacedAt(w);
    }

    lemma TcpVerified(bufs: seq<Buf>, it: TcpItem, can: CanCoalesce)
      requires Buffers(bufs) && TcpMergeable(bufs, it, can) && it.bufsIndex < |bufs| && it.iphLen == IphLen(it.key.isV6)
      requires it.iphLen <= |bufs[it.bufsIndex].pkt| && it.iphLen <= |input[|home|]|
      requires it.numMerged == 0 ==> ChecksumValid(bufs[it.bufsIndex].pkt, it.iphLen, TCP, it.key.isV6)
      requires ChecksumValid(input[|home|], it.iphLen, TCP, it.key.isV6)
      ensures it.bufsIndex in origin && AllVerified(it.bufsIndex, it.key.isV6, TCP)
    {
      hide Sized, Contiguous, HeaderOf, SeqOf, FlowOf, TcpPacketsCanCoalesce, Verified, Buffers, Holds, ChecksumValid, AllVerified;
      ItemVerified(bufs, it.bufsIndex, it.numMerged, it.key.isV6, TCP);
    }

    lemma UdpVerified(bufs: seq<Buf>, it: UdpItem)
      requires Buffers(bufs) && UdpMergeable(bufs, it) && it.bufsIndex < |bufs| && it.iphLen == IphLen(it.key.isV6)
      requires it.iphLen <= |bufs[it.bufsIndex].pkt| && it.iphLen <= |input[|home|]|
      requires it.numMerged == 0 ==> ChecksumValid(bufs[it.bufsIndex].pkt, it.iphLen, UDP, it.key.isV6)
      requires ChecksumValid(input[|home|], it.iphLen, UDP, it.key.isV6)
      ensures it.bufsIndex in origin && AllVerified(it.bufsIndex, it.key.isV6, UDP)
    {
      hide Sized, HeaderOf, FlowOf, UdpPacketsCanCoalesce, Verified, Buffers, Holds, ChecksumValid, AllVerified;
      ItemVerified(bufs, it.bufsIndex, it.numMerged, it.key.isV6, UDP);
    }

    lemma PrependedParts(j: nat, rest: seq<byte>, h: nat, isV6: bool)
      requires j < |input| && h <= |input[j]|
      ensures (input[j] + rest)[h..] == input[j][h..] + rest
      ensures HeaderOf(input, input[j] + rest, j, h, isV6, true)
    {
    }

    lemma SeqAt(isV6: bool, j: nat)
      requires j < |input| && IphLen(isV6) + 8 <= |input[j]|
      ensures SeqOf(input, isV6, j) == U32(input[j], IphLen(isV6) + 4)
    {
    }

    // ----- UDP merging

    ghost predicate UdpMergeable(bufs: seq<Buf>, it: UdpItem) {
      && UdpItemOk(bufs, it) && |home| < |input| && FlowAt(|home|) == FlowAt(it.bufsIndex)
      && var pkt := input[|home|];
         && it.iphLen + UDPHLEN < |pkt|
         && UdpPacketsCanCoalesce(pkt, it.iphLen, |pkt| - UDPHLEN - it.iphLen, it, bufs[it.bufsIndex].pkt) == Append
    }

    lemma UdpMergeableCan(bufs: seq<Buf>, it: UdpItem)
      requires UdpMergeable(bufs, it)
      ensures it.bufsIndex < |bufs| && it.iphLen + UDPHLEN <= |bufs[it.bufsIndex].pkt| && it.gsoSize > 0
      ensures UdpPacketsCanCoalesce(input[|home|], it.iphLen, |input[|home|]| - UDPHLEN - it.iphLen, it, bufs[it.bufsIndex].pkt) == Append
    {
      hide HeaderOf, Join, FlowOf, Verified;
    }

    lemma UdpAppended(bufs: seq<Buf>, it: UdpItem, bufs': seq<Buf>)
      requires UdpMergeable(bufs, it) && |bufs'| == |bufs|
      requires var w, h, pkt := it.bufsIndex, it.iphLen + UDPHLEN, input[|home|];
        bufs'[w].pkt == bufs[w].pkt + pkt[h..] && |bufs'[w].pkt| <= MAX16 && AllVerified(w, it.key.isV6, UDP)
      ensures Into(it.bufsIndex, origin[it.bufsIndex] + [|home|]).UdpItemOk(bufs', it.(numMerged := it.numMerged + 1))
    {
      hide Join, Sized, FlowOf, Payload, IpHeadersCanCoalesce, Verified;
      var w, h, js, j := it.bufsIndex, it.iphLen + UDPHLEN, origin[it.bufsIndex], |home|;
      PayloadAt(h, j);
      AppendSized(input, h, js, it.gsoSize, j);
      assert (bufs[w].pkt + input[j][h..])[h..] == bufs[w].pkt[h..] + input[j][h..];
      MergedHolds(bufs, w, true, bufs');
      MergedVerified(w, true, it.key.isV6, UDP);
      hide Holds;
    }

    // ----- Tables

    ghost predicate TcpList(bufs: seq<Buf>, key: TcpKey, items: seq<TcpItem>) {
      && (forall i :: 0 <= i < |items| ==> items[i].key == key && TcpItemOk(bufs, items[i]))
      && (forall i, j :: 0 <= i < j < |items| ==> items[i].bufsIndex < items[j].bufsIndex)
    }

    ghost predicate UdpList(bufs: seq<Buf>, key: UdpKey, items: seq<UdpItem>)
      requires |home| <= |input|
    {
      && |items| > 0
      && (forall i :: 0 <= i < |items| ==> items[i].key == key && UdpItemOk(bufs, items[i]))
      && (forall i, j :: 0 <= i < j < |items| ==> items[i].bufsIndex < items[j].bufsIndex)
      && Flat(items) == Arrivals(|home|, key)
    }

    /** The packets held by a list of UDP items, in order. */
    ghost function Flat(items: seq<UdpItem>): seq<nat> {
      if items == [] then []
      else Flat(items[..|items| - 1]) + if items[|items| - 1].bufsIndex in origin then origin[items[|items| - 1].bufsIndex] else []
    }

    /** The packets of a UDP flow among the first `n`, in order of arrival. */
    function Arrivals(n: nat, key: UdpKey): seq<nat>
      requires n <= |input|
    {
      if n == 0 then []
      else Arrivals(n - 1, key) + if FlowAt(n - 1) == UdpFlow(key) then [n - 1] else []
    }

    ghost predicate Tables(bufs: seq<Buf>, tcp: map<TcpKey, seq<TcpItem>>, udp: map<UdpKey, seq<UdpItem>>)
      requires |home| <= |input|
    {
      && (forall key {:trigger TcpList(bufs, key, tcp[key])} :: key in tcp ==> TcpList(bufs, key, tcp[key]))
      && (forall key {:trigger UdpList(bufs, key, udp[key])} :: key in udp ==> UdpList(bufs, key, udp[key]))
      && (forall j {:trigger FlowAt(j)} :: 0 <= j < |home| && FlowAt(j).UdpFlow? ==> FlowAt(j).udpKey in udp)
    }

    /** The buffers written so far, and those still to come. */
    ghost predicate Buffers(bufs: seq<Buf>) {
      && Placed() && |bufs| == |input|
      && (forall w {:trigger Holds(bufs, w)} :: w in origin ==> Holds(bufs, w))
      && (forall j :: |home| <= j < |input| ==> bufs[j].pkt == input[j])
    }

    lemma AloneBuffers(bufs: seq<Buf>)
      requires Buffers(bufs) && |home| < |input|
      ensures |home| !in origin && Alone().Buffers(bufs)
    {
      hide FlowOf, Join, Payload;
      var t, i := Alone(), |home|;
      forall w | w in origin ensures w < i { assert PlacedAt(w); }
      AlonePlaced();
      forall w | w in t.origin ensures t.Holds(bufs, w) {
        if w != i {
          assert Holds(bufs, w);
        } else {
          AloneHolds(bufs);
        }
      }
    }

    lemma AloneHolds(bufs: seq<Buf>)
      requires |home| < |input| && |home| < |bufs| && bufs[|home|].pkt == input[|home|]
      ensures Alone().Holds(bufs, |home|)
    {
      hide FlowOf, Join, Payload;
      var i := |home|;
      var h := FlowAt(i).HeaderLen();
      JoinAppend(input, h, [], i);
      JoinNothing(h);
      assert [] + [i] == [i];
      HeaderFits(i);
      PayloadAt(h, i);
    }

    lemma JoinNothing(h: nat)
      ensures Join(input, h, []) == []
    {
    }

    lemma HeaderFits(j: nat)
      requires j < |input|
      ensures FlowAt(j).HeaderLen() <= |input[j]|
    {
    }

    lemma IntoBuffers(bufs: seq<Buf>, w: nat, append: bool, bufs': seq<Buf>)
      requires Buffers(bufs) && |home| < |input| && w in origin && |bufs'| == |bufs|
      requires Into(w, Extended(w, append)).Holds(bufs', w)
      requires forall v :: 0 <= v < |bufs| && v != w && v != |home| ==> bufs'[v] == bufs[v]
      ensures Into(w, Extended(w, append)).Buffers(bufs')
    {
      hide FlowOf, Join, Holds;
      var t := Into(w, Extended(w, append));
      IntoPlaced(w, Extended(w, append));
      assert PlacedAt(w) && w < |home|;
      forall v | v in t.origin ensures t.Holds(bufs', v) {
        if v != w {
          assert PlacedAt(v) && Holds(bufs, v);
          OtherHolds(bufs, t, bufs', v);
        }
      }
    }

    lemma OtherHolds(bufs: seq<Buf>, t: Trace, bufs': seq<Buf>, v: nat)
      requires v in origin && Holds(bufs, v) && v in t.origin && t.origin[v] == origin[v] && t.input == input && t.canUDPGRO == canUDPGRO
      requires |bufs'| == |bufs| && bufs'[v] == bufs[v]
      ensures t.Holds(bufs', v)
    {
      hide FlowOf, Join;
    }

    /** `t` and `bufs'` differ from here only in buffer `w` and in buffers not yet assigned. */
    ghost predicate Agrees(bufs: seq<Buf>, t: Trace, bufs': seq<Buf>, w: nat) {
      && t.input == input && t.canUDPGRO == canUDPGRO && |bufs'| == |bufs|
      && (forall v :: v in origin && v != w && v < |bufs| ==> v in t.origin && t.origin[v] == origin[v] && bufs'[v].pkt == bufs[v].pkt)
    }

    lemma TcpListFrame(bufs: seq<Buf>, t: Trace, bufs': seq<Buf>, w: nat, key: TcpKey, items: seq<TcpItem>)
      requires TcpList(bufs, key, items) && Agrees(bufs, t, bufs', w)
      requires forall i :: 0 <= i < |items| ==> items[i].bufsIndex != w
      ensures t.TcpList(bufs', key, items)
    {
      hide TcpItemOk, FlowOf;
      forall i | 0 <= i < |items| ensures t.TcpItemOk(bufs', items[i]) {
        TcpItemPlace(bufs, items[i]);
        TcpItemFrame(bufs, t, bufs', items[i]);
      }
    }

    lemma {:induction false} UdpItemsFrame(bufs: seq<Buf>, t: Trace, bufs': seq<Buf>, w: nat, items: seq<UdpItem>)
      requires Agrees(bufs, t, bufs', w)
      requires forall i :: 0 <= i < |items| ==> UdpItemOk(bufs, items[i]) && items[i].bufsIndex != w
      ensures forall i :: 0 <= i < |items| ==> t.UdpItemOk(bufs', items[i])
      ensures t.Flat(items) == Flat(items)
      decreases |items|
    {
      hide UdpItemOk, FlowOf;
      if items == [] {
      } else {
        var n := |items| - 1;
        UdpItemsFrame(bufs, t, bufs', w, items[..n]);
        UdpItemPlace(bufs, items[n]);
        UdpItemFrame(bufs, t, bufs', items[n]);
        forall i | 0 <= i < |items| ensures t.UdpItemOk(bufs', items[i]) {
          if i < n { assert items[..n][i] == items[i]; }
        }
      }
    }

    /** Flows of other keys own other buffers. */
    lemma OtherTcpKey(bufs: seq<Buf>, key: TcpKey, items: seq<TcpItem>, w: nat)
      requires TcpList(bufs, key, items) && w < |input|
      requires !(FlowAt(w).TcpFlow? && FlowAt(w).tcpKey == key)
      ensures forall i :: 0 <= i < |items| ==> items[i].bufsIndex != w
    {
      hide TcpItemOk, FlowOf;
      forall i | 0 <= i < |items| ensures items[i].bufsIndex != w { TcpItemPlace(bufs, items[i]); }
    }

    lemma OtherUdpKey(bufs: seq<Buf>, key: UdpKey, items: seq<UdpItem>, w: nat)
      requires |home| <= |input| && UdpList(bufs, key, items) && w < |input| && FlowAt(w) != UdpFlow(key)
      ensures forall i :: 0 <= i < |items| ==> items[i].bufsIndex != w
    {
      hide UdpItemOk, FlowOf, Arrivals, Flat;
      forall i | 0 <= i < |items| ensures items[i].bufsIndex != w { UdpItemPlace(bufs, items[i]); }
    }

    lemma FlatStep(items: seq<UdpItem>, it: UdpItem)
      requires it.bufsIndex in origin
      ensures Flat(items + [it]) == Flat(items) + origin[it.bufsIndex]
    {
      assert (items + [it])[..|items|] == items;
    }

    lemma ArrivalsStep(n: nat, key: UdpKey)
      requires n < |input|
      ensures Arrivals(n + 1, key) == if FlowAt(n) == UdpFlow(key) then Arrivals(n, key) + [n] else Arrivals(n, key)
    {
    }

    // ----- Steps

    /** One more packet has been placed; only buffer `w` has a new meaning. */
    ghost predicate Step(bufs: seq<Buf>, t: Trace, bufs': seq<Buf>, w: nat) {
      Agrees(bufs, t, bufs', w) && |home| < |input| && |t.home| == |home| + 1 && w < |input|
    }

    lemma UdpUntouched(bufs: seq<Buf>, t: Trace, bufs': seq<Buf>, w: nat, key: UdpKey, items: seq<UdpItem>)
      requires Step(bufs, t, bufs', w) && UdpList(bufs, key, items)
      requires FlowAt(w) != UdpFlow(key) && FlowAt(|home|) != UdpFlow(key)
      ensures t.UdpList(bufs', key, items)
    {
      hide UdpItemOk, FlowOf, Arrivals, Flat;
      OtherUdpKey(bufs, key, items, w);
      UdpItemsFrame(bufs, t, bufs', w, items);
      SameArrivals(t, |home| + 1, key);
      ArrivalsStep(|home|, key);
    }

    lemma {:induction false} SameArrivals(t: Trace, n: nat, key: UdpKey)
      requires t.input == input && t.canUDPGRO == canUDPGRO && n <= |input|
      ensures t.Arrivals(n, key) == Arrivals(n, key)
    {
      if n == 0 {
      } else {
        SameArrivals(t, n - 1, key);
      }
    }

    lemma TcpUntouched(bufs: seq<Buf>, t: Trace, bufs': seq<Buf>, w: nat, key: TcpKey, items: seq<TcpItem>)
      requires Step(bufs, t, bufs', w) && TcpList(bufs, key, items)
      requires !(FlowAt(w).TcpFlow? && FlowAt(w).tcpKey == key)
      ensures t.TcpList(bufs', key, items)
    {
      hide TcpList, FlowOf;
      OtherTcpKey(bufs, key, items, w);
      TcpListFrame(bufs, t, bufs', w, key, items);
    }

    /** A step that concerns a TCP flow, or none, leaves everything but that flow's list alone. */
    lemma TcpStepTables(bufs: seq<Buf>, tcp: map<TcpKey, seq<TcpItem>>, udp: map<UdpKey, seq<UdpItem>>, t: Trace,
                        bufs': seq<Buf>, w: nat, tcp': map<TcpKey, seq<TcpItem>>)
      requires Step(bufs, t, bufs', w) && Tables(bufs, tcp, udp)
      requires !FlowAt(w).UdpFlow? && !FlowAt(|home|).UdpFlow?
      requires forall key :: key in tcp' && !(FlowAt(w).TcpFlow? && FlowAt(w).tcpKey == key) ==> key in tcp && tcp'[key] == tcp[key]
      requires FlowAt(w).TcpFlow? && FlowAt(w).tcpKey in tcp' ==> t.TcpList(bufs', FlowAt(w).tcpKey, tcp'[FlowAt(w).tcpKey])
      ensures t.Tables(bufs', tcp', udp)
    {
      hide UdpList, TcpList, FlowOf;
      forall key | key in tcp' ensures t.TcpList(bufs', key, tcp'[key]) {
        if !(FlowAt(w).TcpFlow? && FlowAt(w).tcpKey == key) {
          TcpUntouched(bufs, t, bufs', w, key, tcp[key]);
        }
      }
      forall key | key in udp ensures t.UdpList(bufs', key, udp[key]) {
        UdpUntouched(bufs, t, bufs', w, key, udp[key]);
      }
      forall j | 0 <= j < |t.home| && t.FlowAt(j).UdpFlow? ensures t.FlowAt(j).udpKey in udp {
        assert t.FlowAt(j) == FlowAt(j);
      }
    }

    lemma UdpStepTables(bufs: seq<Buf>, tcp: map<TcpKey, seq<TcpItem>>, udp: map<UdpKey, seq<UdpItem>>, t: Trace,
                        bufs': seq<Buf>, w: nat, key: UdpKey, udp': map<UdpKey, seq<UdpItem>>)
      requires Step(bufs, t, bufs', w) && Tables(bufs, tcp, udp)
      requires FlowAt(w) == UdpFlow(key) && FlowAt(|home|) == UdpFlow(key)
      requires udp'.Keys == udp.Keys + {key} && forall k :: k in udp && k != key ==> udp'[k] == udp[k]
      requires t.UdpList(bufs', key, udp'[key])
      ensures t.Tables(bufs', tcp, udp')
    {
      hide UdpList, TcpList, FlowOf;
      forall k | k in tcp ensures t.TcpList(bufs', k, tcp[k]) {
        TcpUntouched(bufs, t, bufs', w, k, tcp[k]);
      }
      forall k | k in udp' ensures t.UdpList(bufs', k, udp'[k]) {
        if k != key {
          UdpUntouched(bufs, t, bufs', w, k, udp[k]);
        }
      }
      forall j | 0 <= j < |t.home| && t.FlowAt(j).UdpFlow? ensures t.FlowAt(j).udpKey in udp' {
        assert t.FlowAt(j) == FlowAt(j);
      }
    }

    // ----- The four ways a list grows

    /** A TCP packet starts an item of its own at the end of its flow's list. */
    lemma TcpInserted(bufs: seq<Buf>, items: seq<TcpItem>, it: TcpItem)
      requires Buffers(bufs) && |home| < |input| && TcpList(bufs, it.key, items)
      requires FlowAt(|home|) == TcpFlow(it.key, it.tcphLen)
      requires var pkt := input[|home|];
        && it.iphLen == IphLen(it.key.isV6) && it.bufsIndex == |home| && it.numMerged == 0
        && it.gsoSize == |pkt| - it.iphLen - it.tcphLen && it.sentSeq == SeqOf(input, it.key.isV6, |home|)
      ensures Step(bufs, Alone(), bufs, |home|) && Alone().TcpList(bufs, it.key, items + [it])
    {
      hide TcpItemOk, FlowOf, SeqOf, Holds;
      var t, i := Alone(), |home|;
      AloneBuffers(bufs);
      NewTcpItem(bufs, it);
      forall k | 0 <= k < |items| ensures items[k].bufsIndex < i {
        TcpItemPlace(bufs, items[k]);
        assert PlacedAt(items[k].bufsIndex);
      }
      TcpListFrame(bufs, t, bufs, i, it.key, items);
    }

    lemma NewTcpItem(bufs: seq<Buf>, it: TcpItem)
      requires Buffers(bufs) && |home| < |input| && FlowAt(|home|) == TcpFlow(it.key, it.tcphLen)
      requires var pkt := input[|home|];
        && it.iphLen == IphLen(it.key.isV6) && it.bufsIndex == |home| && it.numMerged == 0
        && it.gsoSize == |pkt| - it.iphLen - it.tcphLen && it.sentSeq == SeqOf(input, it.key.isV6, |home|)
      ensures Alone().TcpItemOk(bufs, it)
    {
      hide FlowOf, Join, SeqOf, ParseTcp, Holds, Wrap32, Off, Buffers;
      var i, h := |home|, it.iphLen + it.tcphLen;
      assert bufs[i].pkt == input[i] && i < |bufs| by { OwnBuffer(bufs); }
      AloneHolds(bufs);
      TcpSizes(i);
      PayloadAt(h, i);
      SeqSmall(input, it.key.isV6, i);
      OffStep(it.gsoSize, 0);
      WrapSmall(it.sentSeq);
    }

    lemma OwnBuffer(bufs: seq<Buf>)
      requires Buffers(bufs) && |home| < |input|
      ensures |bufs| == |input| && bufs[|home|].pkt == input[|home|]
    {
      hide Holds;
    }

    lemma WrapSmall(v: nat)
      requires v < TWO32
      ensures Wrap32(v + 0) == v
    {
    }

    lemma TcpSizes(j: nat)
      requires j < |input| && FlowAt(j).TcpFlow?
      ensures FlowAt(j).HeaderLen() < |input[j]| <= MAX16 && 20 <= FlowAt(j).tcphLen <= 60
      ensures var a := IphLen(FlowAt(j).tcpKey.isV6) + 13; a < |input[j]| && (input[j][a] == ACK || input[j][a] == ACKPSH)
    {
      hide PacketIsGROCandidate, SoundIp, TcpKeyOf;
    }

    lemma UdpSizes(j: nat)
      requires j < |input| && FlowAt(j).UdpFlow?
      ensures FlowAt(j).HeaderLen() < |input[j]| <= MAX16
    {
      hide PacketIsGROCandidate, SoundIp, UdpKeyOf;
    }

    /** A UDP packet starts an item of its own at the end of its flow's list. */
    lemma UdpInserted(bufs: seq<Buf>, items: seq<UdpItem>, it: UdpItem)
      requires Buffers(bufs) && |home| < |input|
      requires items == [] || UdpList(bufs, it.key, items)
      requires items == [] ==> Arrivals(|home|, it.key) == []
      requires FlowAt(|home|) == UdpFlow(it.key)
      requires it.iphLen == IphLen(it.key.isV6) && it.bufsIndex == |home| && it.numMerged == 0
      requires it.gsoSize == |input[|home|]| - it.iphLen - UDPHLEN
      ensures Step(bufs, Alone(), bufs, |home|) && |Alone().home| <= |input| && Alone().UdpList(bufs, it.key, items + [it])
    {
      hide UdpItemOk, FlowOf, Holds, Arrivals, Flat, Buffers;
      var t, i := Alone(), |home|;
      AloneAgrees(bufs);
      NewUdpItem(bufs, it);
      forall k | 0 <= k < |items| ensures items[k].bufsIndex < i {
        UdpItemPlace(bufs, items[k]);
        IndexBelow(bufs, items[k].bufsIndex);
      }
      UdpItemsFrame(bufs, t, bufs, i, items);
      SameArrivals(t, i + 1, it.key);
      ArrivalsStep(i, it.key);
      t.FlatStep(items, it);
      FlatNothing();
    }

    lemma FlatNothing()
      ensures Flat([]) == []
    {
    }

    lemma NewUdpItem(bufs: seq<Buf>, it: UdpItem)
      requires Buffers(bufs) && |home| < |input| && FlowAt(|home|) == UdpFlow(it.key)
      requires it.iphLen == IphLen(it.key.isV6) && it.bufsIndex == |home| && it.numMerged == 0
      requires it.gsoSize == |input[|home|]| - it.iphLen - UDPHLEN
      ensures Alone().UdpItemOk(bufs, it)
    {
      hide FlowOf, Join, ParseUdp, Holds, Buffers;
      var i, h := |home|, it.iphLen + UDPHLEN;
      OwnBuffer(bufs);
      AloneHolds(bufs);
      UdpSizes(i);
      PayloadAt(h, i);
    }

    /** A flow that is not in the table has had no packet yet. */
    lemma {:induction false} NoArrivals(n: nat, key: UdpKey, udp: map<UdpKey, seq<UdpItem>>)
      requires n <= |home| <= |input| && key !in udp
      requires forall j {:trigger FlowAt(j)} :: 0 <= j < |home| && FlowAt(j).UdpFlow? ==> FlowAt(j).udpKey in udp
      ensures Arrivals(n, key) == []
    {
      hide FlowOf;
      if n == 0 {
      } else {
        NoArrivals(n - 1, key, udp);
        assert FlowAt(n - 1) != UdpFlow(key);
      }
    }

    /** A TCP packet has been merged into item `k` of its flow's list. */
    lemma TcpMerged(bufs: seq<Buf>, key: TcpKey, items: seq<TcpItem>, k: nat, append: bool, bufs': seq<Buf>, it': TcpItem)
      requires Buffers(bufs) && |home| < |input| && TcpList(bufs, key, items) && k < |items|
      requires var w := items[k].bufsIndex;
        && it'.bufsIndex == w && it'.key == key && |bufs'| == |bufs|
        && (forall v :: 0 <= v < |bufs| && v != w && v != |home| ==> bufs'[v] == bufs[v])
        && Into(w, Extended(w, append)).TcpItemOk(bufs', it')
      ensures var w := items[k].bufsIndex; var t := Into(w, Extended(w, append));
        && Step(bufs, t, bufs', w) && t.Buffers(bufs') && t.TcpList(bufs', key, items[k := it'])
    {
      hide TcpItemOk, FlowOf, Holds;
      var w := items[k].bufsIndex;
      TcpItemPlace(bufs, items[k]);
      var t := Into(w, Extended(w, append));
      t.TcpItemHolds(bufs', it');
      IntoBuffers(bufs, w, append, bufs');
      OriginBelow(bufs);
      TcpListMerged(bufs, key, items, k, t.origin[w], bufs', it');
    }

    lemma TcpListMerged(bufs: seq<Buf>, key: TcpKey, items: seq<TcpItem>, k: nat, js: seq<nat>, bufs': seq<Buf>, it': TcpItem)
      requires TcpList(bufs, key, items) && k < |items| && it'.key == key && it'.bufsIndex == items[k].bufsIndex && |bufs'| == |bufs|
      requires forall v :: 0 <= v < |bufs| && v != it'.bufsIndex && v != |home| ==> bufs'[v] == bufs[v]
      requires forall v :: v in origin ==> v < |home|
      requires Into(it'.bufsIndex, js).TcpItemOk(bufs', it')
      ensures Into(it'.bufsIndex, js).TcpList(bufs', key, items[k := it'])
    {
      hide TcpItemOk, FlowOf, Holds;
      forall i | 0 <= i < |items| && i != k ensures Into(it'.bufsIndex, js).TcpItemOk(bufs', items[i]) {
        TcpItemPlace(bufs, items[i]);
        TcpItemFrame(bufs, Into(it'.bufsIndex, js), bufs', items[i]);
      }
    }

    lemma TcpItemHolds(bufs: seq<Buf>, it: TcpItem)
      requires TcpItemOk(bufs, it)
      ensures it.bufsIndex in origin && Holds(bufs, it.bufsIndex)
    {
    }

    lemma UdpItemHolds(bufs: seq<Buf>, it: UdpItem)
      requires UdpItemOk(bufs, it)
      ensures it.bufsIndex in origin && Holds(bufs, it.bufsIndex)
    {
    }

    /** A UDP packet has been merged into the last item of its flow's list. */
    lemma UdpMerged(bufs: seq<Buf>, key: UdpKey, items: seq<UdpItem>, bufs': seq<Buf>, it': UdpItem)
      requires Buffers(bufs) && |home| < |input| && UdpList(bufs, key, items) && FlowAt(|home|) == UdpFlow(key)
      requires var w := items[|items| - 1].bufsIndex;
        && it'.bufsIndex == w && it'.key == key && |bufs'| == |bufs|
        && (forall v :: 0 <= v < |bufs| && v != w && v != |home| ==> bufs'[v] == bufs[v])
        && Into(w, Extended(w, true)).UdpItemOk(bufs', it')
      ensures var w := items[|items| - 1].bufsIndex; var t := Into(w, Extended(w, true));
        && Step(bufs, t, bufs', w) && t.Buffers(bufs') && t.UdpList(bufs', key, items[..|items| - 1] + [it'])
    {
      hide UdpItemOk, FlowOf, Holds, Arrivals, Flat, Buffers;
      var n := |items| - 1;
      var w := items[n].bufsIndex;
      UdpItemPlace(bufs, items[n]);
      var t := Into(w, Extended(w, true));
      t.UdpItemHolds(bufs', it');
      IntoBuffers(bufs, w, true, bufs');
      IntoAgrees(bufs, w, Extended(w, true), bufs');
      UdpItemsFrame(bufs, t, bufs', w, items[..n]);
      UdpFlatGrows(t, items, it');
      SameArrivals(t, |home| + 1, key);
      ArrivalsStep(|home|, key);
    }

    lemma UdpFlatGrows(t: Trace, items: seq<UdpItem>, it': UdpItem)
      requires |items| > 0 && items[|items| - 1].bufsIndex in origin
      requires var w := items[|items| - 1].bufsIndex; t == Into(w, Extended(w, true)) && it'.bufsIndex == w
      requires t.Flat(items[..|items| - 1]) == Flat(items[..|items| - 1])
      ensures t.Flat(items[..|items| - 1] + [it']) == Flat(items) + [|home|]
    {
      hide Flat;
      var n := |items| - 1;
      FlatStep(items[..n], items[n]);
      assert items == items[..n] + [items[n]];
      t.FlatStep(items[..n], it');
    }

    /** Dropping an item from a list keeps the rest in order. */
    lemma TcpDropped(bufs: seq<Buf>, key: TcpKey, items: seq<TcpItem>, k: nat)
      requires TcpList(bufs, key, items) && k < |items|
      ensures TcpList(bufs, key, items[..k] + items[k + 1..])
    {
      hide TcpItemOk;
      var rest := items[..k] + items[k + 1..];
      assert forall i :: 0 <= i < |rest| ==> rest[i] == items[if i < k then i else i + 1];
    }

    lemma EmptyTcpList(bufs: seq<Buf>, key: TcpKey)
      ensures TcpList(bufs, key, [])
    {
    }

    lemma TcpFlowShape(j: nat, isV6: bool)
      requires j < |input| && IphLen(isV6) + 20 <= |input[j]| && FlowAt(j) == ParseTcp(input[j], isV6) && FlowAt(j).TcpFlow?
      ensures FlowAt(j).tcpKey.isV6 == isV6
    {
    }

    /** A list is not disturbed by a packet of its flow that stays out of the table. */
    lemma TcpAlone(bufs: seq<Buf>, key: TcpKey, items: seq<TcpItem>)
      requires Buffers(bufs) && |home| < |input| && TcpList(bufs, key, items)
      ensures Alone().TcpList(bufs, key, items)
    {
      hide TcpItemOk, FlowOf, Holds;
      forall k | 0 <= k < |items| ensures items[k].bufsIndex < |home| {
        TcpItemPlace(bufs, items[k]);
        assert PlacedAt(items[k].bufsIndex);
      }
      TcpListFrame(bufs, Alone(), bufs, |home|, key, items);
    }

    /** What a comparison with an item of the same flow needs, and what it then allows. */
    lemma Comparable(bufs: seq<Buf>, it: TcpItem)
      requires Buffers(bufs) && |home| < |input| && TcpItemOk(bufs, it)
      requires FlowAt(|home|).TcpFlow? && FlowAt(|home|).tcpKey == it.key
      ensures it.bufsIndex in origin && it.bufsIndex < |home| && it.bufsIndex < |bufs|
      ensures var h, pkt := it.iphLen + FlowAt(|home|).tcphLen, input[|home|];
        && it.iphLen == IphLen(it.key.isV6) && h < |pkt| && FlowAt(|home|).tcphLen >= 20
        && it.iphLen + it.tcphLen <= |bufs[it.bufsIndex].pkt| && it.gsoSize > 0
        && (it.tcphLen == FlowAt(|home|).tcphLen ==>
              TcpMergeable(bufs, it, TcpPacketsCanCoalesce(pkt, it.iphLen, it.tcphLen, U32(pkt, it.iphLen + 4), pkt[it.iphLen + 13] == ACKPSH,
                                                           |pkt| - it.tcphLen - it.iphLen, it, bufs[it.bufsIndex].pkt)))
    {
      hide Contiguous, HeaderOf, SeqOf, Join, FlowOf, TcpPacketsCanCoalesce, Payload, U32, Verified;
      TcpSizes(|home|);
      assert PlacedAt(it.bufsIndex);
    }

    lemma TcpListPlace(bufs: seq<Buf>, key: TcpKey, items: seq<TcpItem>, i: nat)
      requires TcpList(bufs, key, items) && i < |items|
      ensures items[i].key == key && items[i].bufsIndex in origin && items[i].bufsIndex < |input|
      ensures FlowAt(items[i].bufsIndex) == TcpFlow(key, items[i].tcphLen)
    {
      hide TcpItemOk, FlowOf;
      TcpItemPlace(bufs, items[i]);
    }

    /** A packet that enters no table. */
    lemma AloneTables(bufs: seq<Buf>, tcp: map<TcpKey, seq<TcpItem>>, udp: map<UdpKey, seq<UdpItem>>)
      requires Buffers(bufs) && |home| < |input| && Tables(bufs, tcp, udp) && !FlowAt(|home|).UdpFlow?
      ensures Alone().Buffers(bufs) && Alone().Tables(bufs, tcp, udp)
    {
      hide FlowOf, TcpList, UdpList, Holds;
      var i := |home|;
      AloneBuffers(bufs);
      AloneAgrees(bufs);
      if FlowAt(i).TcpFlow? && FlowAt(i).tcpKey in tcp {
        TcpAlone(bufs, FlowAt(i).tcpKey, tcp[FlowAt(i).tcpKey]);
      }
      TcpStepTables(bufs, tcp, udp, Alone(), bufs, i, tcp);
    }

    lemma IntoAgrees(bufs: seq<Buf>, w: nat, js: seq<nat>, bufs': seq<Buf>)
      requires Buffers(bufs) && |home| < |input| && w in origin && |bufs'| == |bufs|
      requires forall v :: 0 <= v < |bufs| && v != w && v != |home| ==> bufs'[v] == bufs[v]
      ensures Step(bufs, Into(w, js), bufs', w)
    {
      hide Holds, FlowOf;
      forall v | v in origin ensures v < |home| { assert PlacedAt(v); }
    }

    /** The packets in an item came before the next one. */
    lemma IndexBelow(bufs: seq<Buf>, w: nat)
      requires Buffers(bufs) && w in origin
      ensures w < |home|
    {
      assert PlacedAt(w);
    }

    lemma AloneAgrees(bufs: seq<Buf>)
      requires Buffers(bufs) && |home| < |input|
      ensures Step(bufs, Alone(), bufs, |home|)
    {
      hide Holds, FlowOf;
    }

    /** Only the packets matter, not the virtio headers in front of them. */
    lemma SamePackets(bufs: seq<Buf>, bufs': seq<Buf>, tcp: map<TcpKey, seq<TcpItem>>, udp: map<UdpKey, seq<UdpItem>>)
      requires Buffers(bufs) && Tables(bufs, tcp, udp) && |bufs'| == |bufs|
      requires forall v :: 0 <= v < |bufs| ==> bufs'[v].pkt == bufs[v].pkt
      ensures Buffers(bufs') && Tables(bufs', tcp, udp)
    {
      hide FlowOf, TcpItemOk, UdpItemOk, Arrivals, Flat, Join;
      forall w | w in origin ensures Holds(bufs', w) { assert Holds(bufs, w); }
      hide Holds;
      forall key | key in tcp ensures TcpList(bufs', key, tcp[key]) {
        assert TcpList(bufs, key, tcp[key]);
        forall i | 0 <= i < |tcp[key]| ensures tcp[key][i].bufsIndex != |input| { TcpItemPlace(bufs, tcp[key][i]); }
        TcpListFrame(bufs, this, bufs', |input|, key, tcp[key]);
      }
      forall key | key in udp ensures UdpList(bufs', key, udp[key]) {
        assert UdpList(bufs, key, udp[key]);
        forall i | 0 <= i < |udp[key]| ensures udp[key][i].bufsIndex != |input| { UdpItemPlace(bufs, udp[key][i]); }
        UdpItemsFrame(bufs, this, bufs', |input|, udp[key]);
      }
    }

    /** The last item of a flow, when a packet of that flow arrives. */
    lemma UdpComparable(bufs: seq<Buf>, key: UdpKey, items: seq<UdpItem>)
      requires Buffers(bufs) && |home| < |input| && UdpList(bufs, key, items) && FlowAt(|home|) == UdpFlow(key)
      ensures var it := items[|items| - 1];
        && it.key == key && it.bufsIndex in origin && it.bufsIndex < |home| && it.bufsIndex < |bufs| && it.iphLen == IphLen(key.isV6)
        && it.iphLen + UDPHLEN < |input[|home|]| && it.iphLen + UDPHLEN <= |bufs[it.bufsIndex].pkt| && it.gsoSize > 0
        && var can := UdpPacketsCanCoalesce(input[|home|], it.iphLen, |input[|home|]| - UDPHLEN - it.iphLen, it, bufs[it.bufsIndex].pkt);
           can == Append ==> UdpMergeable(bufs, it)
    {
      hide HeaderOf, Join, FlowOf, Payload, Arrivals, Flat, UdpPacketsCanCoalesce, Verified;
      UdpSizes(|home|);
      assert UdpItemOk(bufs, items[|items| - 1]);
      IndexBelow(bufs, items[|items| - 1].bufsIndex);
    }

    /** A flow enters the table. */
    lemma UdpFirst(bufs: seq<Buf>, tcp: map<TcpKey, seq<TcpItem>>, udp: map<UdpKey, seq<UdpItem>>, key: UdpKey)
      requires |home| <= |input| && Tables(bufs, tcp, udp) && key !in udp
      ensures Arrivals(|home|, key) == []
    {
      hide TcpList, UdpList, FlowOf;
      NoArrivals(|home|, key, udp);
    }

    // ----- Every merged buffer stays in a table

    ghost predicate Listed(tcp: map<TcpKey, seq<TcpItem>>, udp: map<UdpKey, seq<UdpItem>>, w: nat)
      requires w < |input|
    {
      match FlowAt(w)
      case Raw => false
      case TcpFlow(key, _) => key in tcp && exists i :: 0 <= i < |tcp[key]| && tcp[key][i].bufsIndex == w
      case UdpFlow(key) => key in udp && exists i :: 0 <= i < |udp[key]| && udp[key][i].bufsIndex == w
    }

    // ----- Buffers outside the tables

    /** A packet of a TCP flow that came with a bad checksum. */
    ghost predicate BadSum(v: nat)
      requires v < |input|
    {
      FlowAt(v).TcpFlow? && !VerifiedAt(input, v, FlowAt(v).tcpKey.isV6, TCP)
    }

    /** A step leaves alone every buffer below `n` that no item stands for, and drops only items with bad checksums. */
    ghost predicate Undisturbed(b: seq<Buf>, tcp: map<TcpKey, seq<TcpItem>>, udp: map<UdpKey, seq<UdpItem>>,
                                b': seq<Buf>, tcp': map<TcpKey, seq<TcpItem>>, udp': map<UdpKey, seq<UdpItem>>, n: nat) {
      && |b| == |b'| && n <= |b| && n <= |input|
      && (forall v :: 0 <= v < n && !Listed(tcp, udp, v) ==> b'[v] == b[v] && !Listed(tcp', udp', v))
      && (forall v :: 0 <= v < n && Listed(tcp, udp, v) && !Listed(tcp', udp', v) ==> BadSum(v))
    }

    /** Apart from the packet's own buffer, a step that leads to `t` touches only buffers that are merged then. */
    ghost predicate Untouched(t: Trace, b: seq<Buf>, b': seq<Buf>, n: nat) {
      && |b| == |b'|
      && (forall v :: 0 <= v < |b| && v != n && !(v in t.origin && |t.origin[v]| > 1) ==> b'[v] == b[v])
      && (forall v :: v in t.origin && v != n && |t.origin[v]| == 1 ==> v in origin && |origin[v]| == 1)
    }

    lemma AloneUntouched(b: seq<Buf>, b': seq<Buf>)
      requires |b| == |b'| && forall v :: 0 <= v < |b| && v != |home| ==> b'[v] == b[v]
      ensures Untouched(Alone(), b, b', |home|)
    {
    }

    lemma IntoUntouched(w: nat, append: bool, b: seq<Buf>, b': seq<Buf>)
      requires w in origin && |origin[w]| > 0 && |b| == |b'| && forall v :: 0 <= v < |b| && v != w && v != |home| ==> b'[v] == b[v]
      ensures Untouched(Into(w, Extended(w, append)), b, b', |home|)
    {
    }

    lemma NothingDisturbed(b: seq<Buf>, tcp: map<TcpKey, seq<TcpItem>>, udp: map<UdpKey, seq<UdpItem>>, n: nat)
      requires n <= |b| && n <= |input|
      ensures Undisturbed(b, tcp, udp, b, tcp, udp, n)
    {
    }

    lemma StillUndisturbed(b: seq<Buf>, tcp: map<TcpKey, seq<TcpItem>>, udp: map<UdpKey, seq<UdpItem>>,
                           b1: seq<Buf>, tcp1: map<TcpKey, seq<TcpItem>>, udp1: map<UdpKey, seq<UdpItem>>,
                           b': seq<Buf>, tcp': map<TcpKey, seq<TcpItem>>, udp': map<UdpKey, seq<UdpItem>>, n: nat)
      requires Undisturbed(b, tcp, udp, b1, tcp1, udp1, n) && Undisturbed(b1, tcp1, udp1, b', tcp', udp', n)
      ensures Undisturbed(b, tcp, udp, b', tcp', udp', n)
    {
      hide Listed;
    }

    /** An item that leaves its list had a bad checksum. */
    lemma TcpUnlisted(tcp: map<TcpKey, seq<TcpItem>>, udp: map<UdpKey, seq<UdpItem>>, key: TcpKey, items: seq<TcpItem>, v: nat)
      requires v < |input| && Listed(tcp, udp, v) && !Listed(tcp[key := items], udp, v)
      requires key in tcp ==> forall i :: 0 <= i < |tcp[key]| && tcp[key][i].bufsIndex == v ==>
        BadSum(v) || exists k :: 0 <= k < |items| && items[k].bufsIndex == v
      ensures BadSum(v)
    {
      hide FlowOf, BadSum;
      match FlowAt(v) {
        case TcpFlow(q, _) =>
          assert q == key && key in tcp;
          var i :| 0 <= i < |tcp[key]| && tcp[key][i].bufsIndex == v;
        case _ =>
      }
    }

    /** A new list for one flow, with no buffer in it that was not in it before. */
    lemma TcpUndisturbed(b: seq<Buf>, tcp: map<TcpKey, seq<TcpItem>>, udp: map<UdpKey, seq<UdpItem>>,
                         b': seq<Buf>, key: TcpKey, items: seq<TcpItem>, n: nat)
      requires |b| == |b'| && n <= |b| && n <= |input|
      requires forall k :: 0 <= k < |items| && items[k].bufsIndex < n ==>
        key in tcp && exists i :: 0 <= i < |tcp[key]| && tcp[key][i].bufsIndex == items[k].bufsIndex
      requires key in tcp ==> forall i :: 0 <= i < |tcp[key]| && tcp[key][i].bufsIndex < n ==>
        BadSum(tcp[key][i].bufsIndex) || exists k :: 0 <= k < |items| && items[k].bufsIndex == tcp[key][i].bufsIndex
      requires forall v :: 0 <= v < n && b'[v] != b[v] ==> Listed(tcp, udp, v)
      ensures Undisturbed(b, tcp, udp, b', tcp[key := items], udp, n)
    {
      hide FlowOf, BadSum;
      forall v | 0 <= v < n && Listed(tcp, udp, v) && !Listed(tcp[key := items], udp, v) ensures BadSum(v) {
        TcpUnlisted(tcp, udp, key, items, v);
      }
    }

    /** An item that leaves its list had a bad checksum. */
    lemma UdpUnlisted(tcp: map<TcpKey, seq<TcpItem>>, udp: map<UdpKey, seq<UdpItem>>, key: UdpKey, items: seq<UdpItem>, v: nat)
      requires v < |input| && Listed(tcp, udp, v) && !Listed(tcp, udp[key := items], v)
      requires key in udp ==> forall i :: 0 <= i < |udp[key]| && udp[key][i].bufsIndex == v ==>
        BadSum(v) || exists k :: 0 <= k < |items| && items[k].bufsIndex == v
      ensures BadSum(v)
    {
      hide FlowOf, BadSum;
      match FlowAt(v) {
        case UdpFlow(q) =>
          assert q == key && key in udp;
          var i :| 0 <= i < |udp[key]| && udp[key][i].bufsIndex == v;
        case _ =>
      }
    }

    lemma UdpUndisturbed(b: seq<Buf>, tcp: map<TcpKey, seq<TcpItem>>, udp: map<UdpKey, seq<UdpItem>>,
                         b': seq<Buf>, key: UdpKey, items: seq<UdpItem>, n: nat)
      requires |b| == |b'| && n <= |b| && n <= |input|
      requires forall k :: 0 <= k < |items| && items[k].bufsIndex < n ==>
        key in udp && exists i :: 0 <= i < |udp[key]| && udp[key][i].bufsIndex == items[k].bufsIndex
      requires key in udp ==> forall i :: 0 <= i < |udp[key]| && udp[key][i].bufsIndex < n ==>
        BadSum(udp[key][i].bufsIndex) || exists k :: 0 <= k < |items| && items[k].bufsIndex == udp[key][i].bufsIndex
      requires forall v :: 0 <= v < n && b'[v] != b[v] ==> Listed(tcp, udp, v)
      ensures Undisturbed(b, tcp, udp, b', tcp, udp[key := items], n)
    {
      hide FlowOf, BadSum;
      forall v | 0 <= v < n && Listed(tcp, udp, v) && !Listed(tcp, udp[key := items], v) ensures BadSum(v) {
        UdpUnlisted(tcp, udp, key, items, v);
      }
    }

    /** Merging into item `i` of a flow touches its buffer and the packet's, both of which items stand for. */
    lemma TcpMergeUndisturbed(b: seq<Buf>, tcp: map<TcpKey, seq<TcpItem>>, udp: map<UdpKey, seq<UdpItem>>,
                              b': seq<Buf>, key: TcpKey, i: nat, item': TcpItem, n: nat)
      requires |home| <= |input| && Tables(b, tcp, udp) && key in tcp && i < |tcp[key]| && |b| == |b'| && n <= |b| && n <= |input|
      requires item'.bufsIndex == tcp[key][i].bufsIndex
      requires forall v :: 0 <= v < n && v != item'.bufsIndex ==> b'[v] == b[v]
      ensures Undisturbed(b, tcp, udp, b', tcp[key := tcp[key][i := item']], udp, n)
    {
      hide FlowOf, TcpList, UdpList;
      var items := tcp[key][i := item'];
      TcpListPlace(b, key, tcp[key], i);
      assert forall k :: 0 <= k < |items| ==> items[k].bufsIndex == tcp[key][k].bufsIndex;
      assert Listed(tcp, udp, item'.bufsIndex);
      TcpUndisturbed(b, tcp, udp, b', key, items, n);
    }

    lemma TcpDropUndisturbed(b: seq<Buf>, tcp: map<TcpKey, seq<TcpItem>>, udp: map<UdpKey, seq<UdpItem>>, key: TcpKey, i: nat, n: nat)
      requires key in tcp && i < |tcp[key]| && n <= |b| && n <= |input| && (tcp[key][i].bufsIndex < n ==> BadSum(tcp[key][i].bufsIndex))
      ensures Undisturbed(b, tcp, udp, b, tcp[key := tcp[key][..i] + tcp[key][i + 1..]], udp, n)
    {
      hide Listed, BadSum;
      var items := tcp[key][..i] + tcp[key][i + 1..];
      assert forall k :: 0 <= k < |items| ==> items[k] == tcp[key][if k < i then k else k + 1];
      forall j | 0 <= j < |tcp[key]| && tcp[key][j].bufsIndex < n
        ensures BadSum(tcp[key][j].bufsIndex) || exists k :: 0 <= k < |items| && items[k].bufsIndex == tcp[key][j].bufsIndex
      {
        if j != i {
          assert items[if j < i then j else j - 1] == tcp[key][j];
        }
      }
      TcpUndisturbed(b, tcp, udp, b, key, items, n);
    }

    lemma UdpMergeUndisturbed(b: seq<Buf>, tcp: map<TcpKey, seq<TcpItem>>, udp: map<UdpKey, seq<UdpItem>>,
                              b': seq<Buf>, key: UdpKey, item': UdpItem, n: nat)
      requires |home| <= |input| && Tables(b, tcp, udp) && key in udp && |udp[key]| > 0 && |b| == |b'| && n <= |b| && n <= |input|
      requires item'.bufsIndex == udp[key][|udp[key]| - 1].bufsIndex
      requires forall v :: 0 <= v < n && v != item'.bufsIndex ==> b'[v] == b[v]
      ensures Undisturbed(b, tcp, udp, b', tcp, udp[key := udp[key][..|udp[key]| - 1] + [item']], n)
    {
      hide FlowOf, TcpList, UdpList;
      var last := |udp[key]| - 1;
      var items := udp[key][..last] + [item'];
      UdpListPlace(b, key, udp[key], last);
      assert forall k :: 0 <= k < |items| ==> items[k].bufsIndex == udp[key][k].bufsIndex;
      assert Listed(tcp, udp, item'.bufsIndex);
      UdpUndisturbed(b, tcp, udp, b', key, items, n);
    }

    lemma TcpInsertUndisturbed(b: seq<Buf>, tcp: map<TcpKey, seq<TcpItem>>, udp: map<UdpKey, seq<UdpItem>>, key: TcpKey, item: TcpItem, n: nat)
      requires n <= |b| && n <= |input| && item.bufsIndex == n
      ensures Undisturbed(b, tcp, udp, b, tcp[key := (if key in tcp then tcp[key] else []) + [item]], udp, n)
    {
      hide Listed;
      var items := (if key in tcp then tcp[key] else []) + [item];
      assert key in tcp ==> forall i :: 0 <= i < |tcp[key]| ==> items[i] == tcp[key][i];
      TcpUndisturbed(b, tcp, udp, b, key, items, n);
    }

    lemma UdpInsertUndisturbed(b: seq<Buf>, tcp: map<TcpKey, seq<TcpItem>>, udp: map<UdpKey, seq<UdpItem>>, key: UdpKey, item: UdpItem, n: nat)
      requires n <= |b| && n <= |input| && item.bufsIndex == n
      ensures Undisturbed(b, tcp, udp, b, tcp, udp[key := (if key in udp then udp[key] else []) + [item]], n)
    {
      hide Listed;
      var items := (if key in udp then udp[key] else []) + [item];
      assert key in udp ==> forall i :: 0 <= i < |udp[key]| ==> items[i] == udp[key][i];
      UdpUndisturbed(b, tcp, udp, b, key, items, n);
    }

    /** A step that also changes the packet's own buffer. */
    lemma OwnUndisturbed(b: seq<Buf>, tcp: map<TcpKey, seq<TcpItem>>, udp: map<UdpKey, seq<UdpItem>>, b1: seq<Buf>, b': seq<Buf>,
                         tcp': map<TcpKey, seq<TcpItem>>, udp': map<UdpKey, seq<UdpItem>>)
      requires Undisturbed(b, tcp, udp, b1, tcp', udp', |home|) && |b'| == |b1|
      requires forall v :: 0 <= v < |b1| && v != |home| ==> b'[v] == b1[v]
      ensures Undisturbed(b, tcp, udp, b', tcp', udp', |home|)
    {
      hide Listed, BadSum;
    }

    /** No item stands for the next packet. */
    lemma NotListedYet(b: seq<Buf>, tcp: map<TcpKey, seq<TcpItem>>, udp: map<UdpKey, seq<UdpItem>>)
      requires Buffers(b) && |home| < |input| && Tables(b, tcp, udp)
      ensures !Listed(tcp, udp, |home|)
    {
      hide Holds, FlowOf, TcpList, UdpList;
      var n := |home|;
      assert n !in origin by { AloneBuffers(b); }
      match FlowAt(n) {
        case Raw =>
        case TcpFlow(key, _) =>
          if key in tcp {
            forall i | 0 <= i < |tcp[key]| ensures tcp[key][i].bufsIndex != n { TcpListPlace(b, key, tcp[key], i); }
          }
        case UdpFlow(key) =>
          if key in udp {
            forall i | 0 <= i < |udp[key]| ensures udp[key][i].bufsIndex != n { UdpListPlace(b, key, udp[key], i); }
          }
      }
    }

    lemma TcpNowListed(tcp: map<TcpKey, seq<TcpItem>>, udp: map<UdpKey, seq<UdpItem>>, key: TcpKey, w: nat)
      requires w < |input| && FlowAt(w).TcpFlow? && FlowAt(w).tcpKey == key && key in tcp
      requires |tcp[key]| > 0 && tcp[key][|tcp[key]| - 1].bufsIndex == w
      ensures Listed(tcp, udp, w)
    {
      hide FlowOf;
    }

    lemma UdpNowListed(tcp: map<TcpKey, seq<TcpItem>>, udp: map<UdpKey, seq<UdpItem>>, key: UdpKey, w: nat)
      requires w < |input| && FlowAt(w) == UdpFlow(key) && key in udp && |udp[key]| > 0 && udp[key][|udp[key]| - 1].bufsIndex == w
      ensures Listed(tcp, udp, w)
    {
      hide FlowOf;
    }

    lemma AloneListed(tcp: map<TcpKey, seq<TcpItem>>, udp: map<UdpKey, seq<UdpItem>>, w: nat)
      requires w < |input|
      ensures Alone().Listed(tcp, udp, w) == Listed(tcp, udp, w)
    {
      hide FlowOf;
    }

    /** Buffer `w` goes out under an empty virtio header, and no item stands for it. */
    ghost predicate Plain(b: seq<Buf>, tcp: map<TcpKey, seq<TcpItem>>, udp: map<UdpKey, seq<UdpItem>>, w: nat) {
      w < |input| == |b| && b[w].vnet == ZERO_HDR && !Listed(tcp, udp, w)
    }

    lemma StillPlain(t: Trace, b: seq<Buf>, tcp: map<TcpKey, seq<TcpItem>>, udp: map<UdpKey, seq<UdpItem>>,
                     b': seq<Buf>, tcp': map<TcpKey, seq<TcpItem>>, udp': map<UdpKey, seq<UdpItem>>, n: nat, w: nat)
      requires Undisturbed(b, tcp, udp, b', tcp', udp', n) && w < n && Plain(b, tcp, udp, w)
      requires t.input == input && t.canUDPGRO == canUDPGRO
      ensures t.Plain(b', tcp', udp', w)
    {
      hide FlowOf;
    }

    /** A buffer no item stands for holds its own packet, as it came. */
    lemma PlainPacket(b: seq<Buf>, tcp: map<TcpKey, seq<TcpItem>>, udp: map<UdpKey, seq<UdpItem>>, w: nat)
      requires Buffers(b) && Tracked(tcp, udp) && w in origin && Plain(b, tcp, udp, w)
      ensures b[w].pkt == input[w]
    {
      hide Listed, Join, FlowOf;
      assert PlacedAt(w) && Holds(b, w);
    }

    ghost predicate Tracked(tcp: map<TcpKey, seq<TcpItem>>, udp: map<UdpKey, seq<UdpItem>>) {
      forall w :: w in origin && |origin[w]| > 1 ==> w < |input| && Listed(tcp, udp, w)
    }

    lemma TrackedAlone(tcp: map<TcpKey, seq<TcpItem>>, udp: map<UdpKey, seq<UdpItem>>)
      requires Tracked(tcp, udp)
      ensures Alone().Tracked(tcp, udp)
    {
      hide FlowOf;
      forall w | w in Alone().origin && |Alone().origin[w]| > 1 ensures w < |input| && Alone().Listed(tcp, udp, w) {
        assert Listed(tcp, udp, w);
      }
    }

    /** Lists grow at their ends. */
    lemma TrackedMore(tcp: map<TcpKey, seq<TcpItem>>, udp: map<UdpKey, seq<UdpItem>>, tcp': map<TcpKey, seq<TcpItem>>, udp': map<UdpKey, seq<UdpItem>>)
      requires Tracked(tcp, udp)
      requires forall key :: key in tcp ==> key in tcp' && tcp[key] <= tcp'[key]
      requires forall key :: key in udp ==> key in udp' && udp[key] <= udp'[key]
      ensures Tracked(tcp', udp')
    {
      hide FlowOf;
      forall w | w in origin && |origin[w]| > 1 ensures w < |input| && Listed(tcp', udp', w) {
        assert Listed(tcp, udp, w);
      }
    }

    lemma TrackedTcpMerge(tcp: map<TcpKey, seq<TcpItem>>, udp: map<UdpKey, seq<UdpItem>>, key: TcpKey, i: nat, it: TcpItem, js: seq<nat>)
      requires Tracked(tcp, udp) && key in tcp && i < |tcp[key]| && it.bufsIndex == tcp[key][i].bufsIndex < |input|
      requires FlowAt(it.bufsIndex).TcpFlow? && FlowAt(it.bufsIndex).tcpKey == key
      ensures Into(it.bufsIndex, js).Tracked(tcp[key := tcp[key][i := it]], udp)
    {
      hide FlowOf;
      var t, tcp' := Into(it.bufsIndex, js), tcp[key := tcp[key][i := it]];
      forall w | w in t.origin && |t.origin[w]| > 1 ensures w < |input| && t.Listed(tcp', udp, w) {
        if w == it.bufsIndex {
          assert tcp'[key][i].bufsIndex == w;
        } else {
          assert Listed(tcp, udp, w);
          if FlowAt(w).TcpFlow? {
            var n :| 0 <= n < |tcp[FlowAt(w).tcpKey]| && tcp[FlowAt(w).tcpKey][n].bufsIndex == w;
            assert tcp'[FlowAt(w).tcpKey][n].bufsIndex == w;
          }
        }
      }
    }

    lemma TrackedUdpMerge(tcp: map<TcpKey, seq<TcpItem>>, udp: map<UdpKey, seq<UdpItem>>, key: UdpKey, it: UdpItem, js: seq<nat>)
      requires Tracked(tcp, udp) && key in udp && |udp[key]| > 0 && it.bufsIndex == udp[key][|udp[key]| - 1].bufsIndex < |input|
      requires FlowAt(it.bufsIndex) == UdpFlow(key)
      ensures Into(it.bufsIndex, js).Tracked(tcp, udp[key := udp[key][..|udp[key]| - 1] + [it]])
    {
      hide FlowOf;
      var t, udp' := Into(it.bufsIndex, js), udp[key := udp[key][..|udp[key]| - 1] + [it]];
      forall w | w in t.origin && |t.origin[w]| > 1 ensures w < |input| && t.Listed(tcp, udp', w) {
        if w == it.bufsIndex {
          assert udp'[key][|udp[key]| - 1].bufsIndex == w;
        } else {
          assert Listed(tcp, udp, w);
          if FlowAt(w).UdpFlow? {
            var n :| 0 <= n < |udp[FlowAt(w).udpKey]| && udp[FlowAt(w).udpKey][n].bufsIndex == w;
            assert udp'[FlowAt(w).udpKey][n].bufsIndex == w;
          }
        }
      }
    }

    /** Only an item that nothing was merged into leaves its list. */
    lemma TrackedDrop(tcp: map<TcpKey, seq<TcpItem>>, udp: map<UdpKey, seq<UdpItem>>, key: TcpKey, i: nat)
      requires Tracked(tcp, udp) && key in tcp && i < |tcp[key]|
      requires tcp[key][i].bufsIndex in origin && |origin[tcp[key][i].bufsIndex]| == 1
      ensures Tracked(tcp[key := tcp[key][..i] + tcp[key][i + 1..]], udp)
    {
      hide FlowOf;
      var tcp' := tcp[key := tcp[key][..i] + tcp[key][i + 1..]];
      forall w | w in origin && |origin[w]| > 1 ensures w < |input| && Listed(tcp', udp, w) {
        assert Listed(tcp, udp, w);
        if FlowAt(w).TcpFlow? {
          var q := FlowAt(w).tcpKey;
          var n :| 0 <= n < |tcp[q]| && tcp[q][n].bufsIndex == w;
          assert tcp'[q][if q == key && n > i then n - 1 else n].bufsIndex == w;
        }
      }
    }

    // ----- Accounting

    /** In `bufs'` only lengths, checksums and flags in the header of buffer `w` may have changed. */
    ghost predicate Reheaded(bufs: seq<Buf>, bufs': seq<Buf>, w: nat, isV6: bool, isTcp: bool) {
      && w in origin && w < |bufs| && |bufs'| == |bufs| && w < |input|
      && |bufs'[w].pkt| == |bufs[w].pkt| && |origin[w]| > 1
      && FlowAt(w).HeaderLen() <= |bufs[w].pkt|
      && bufs'[w].pkt[FlowAt(w).HeaderLen()..] == bufs[w].pkt[FlowAt(w).HeaderLen()..]
      && (forall p :: 0 <= p < FlowAt(w).HeaderLen() && !Mutable(isV6, isTcp, p) ==> bufs'[w].pkt[p] == bufs[w].pkt[p])
      && (forall v :: 0 <= v < |bufs| && v != w ==> bufs'[v] == bufs[v])
    }

    lemma ReheadedBuffers(bufs: seq<Buf>, bufs': seq<Buf>, w: nat, isV6: bool, isTcp: bool)
      requires Buffers(bufs) && |home| == |input| && Reheaded(bufs, bufs', w, isV6, isTcp)
      ensures Buffers(bufs') && Agrees(bufs, this, bufs', w)
    {
      hide FlowOf, Join, Mutable;
      forall v | v in origin ensures Holds(bufs', v) {
        assert Holds(bufs, v);
      }
    }

    lemma TcpItemReheaded(bufs: seq<Buf>, bufs': seq<Buf>, it: TcpItem)
      requires TcpItemOk(bufs, it) && Reheaded(bufs, bufs', it.bufsIndex, it.key.isV6, true)
      requires Holds(bufs', it.bufsIndex)
      ensures TcpItemOk(bufs', it)
    {
      hide FlowOf, Join, Mutable, Sized, Contiguous, SeqOf, Verified;
    }

    lemma UdpItemReheaded(bufs: seq<Buf>, bufs': seq<Buf>, it: UdpItem)
      requires UdpItemOk(bufs, it) && Reheaded(bufs, bufs', it.bufsIndex, it.key.isV6, false)
      requires Holds(bufs', it.bufsIndex)
      ensures UdpItemOk(bufs', it)
    {
      hide FlowOf, Join, Mutable, Sized, Verified;
    }

    lemma TcpListReheaded(bufs: seq<Buf>, bufs': seq<Buf>, key: TcpKey, items: seq<TcpItem>, k: nat)
      requires TcpList(bufs, key, items) && k < |items| && Reheaded(bufs, bufs', items[k].bufsIndex, key.isV6, true)
      requires Agrees(bufs, this, bufs', items[k].bufsIndex) && Holds(bufs', items[k].bufsIndex)
      ensures TcpList(bufs', key, items)
    {
      hide FlowOf, TcpItemOk, Holds, Reheaded;
      forall i | 0 <= i < |items| ensures TcpItemOk(bufs', items[i]) {
        if i == k {
          TcpItemReheaded(bufs, bufs', items[i]);
        } else {
          TcpItemPlace(bufs, items[i]);
          TcpItemFrame(bufs, this, bufs', items[i]);
        }
      }
    }

    lemma UdpListReheaded(bufs: seq<Buf>, bufs': seq<Buf>, key: UdpKey, items: seq<UdpItem>, k: nat)
      requires |home| <= |input| && UdpList(bufs, key, items) && k < |items| && Reheaded(bufs, bufs', items[k].bufsIndex, key.isV6, false)
      requires Agrees(bufs, this, bufs', items[k].bufsIndex) && Holds(bufs', items[k].bufsIndex)
      ensures UdpList(bufs', key, items)
    {
      hide FlowOf, UdpItemOk, Holds, Reheaded, Arrivals, Flat;
      forall i | 0 <= i < |items| ensures UdpItemOk(bufs', items[i]) {
        if i == k {
          UdpItemReheaded(bufs, bufs', items[i]);
        } else {
          UdpItemPlace(bufs, items[i]);
          UdpItemFrame(bufs, this, bufs', items[i]);
        }
      }
    }

    /** New headers in one TCP item's buffer disturb nothing. */
    lemma TcpTablesReheaded(bufs: seq<Buf>, bufs': seq<Buf>, tcp: map<TcpKey, seq<TcpItem>>, udp: map<UdpKey, seq<UdpItem>>, key: TcpKey, k: nat)
      requires Buffers(bufs) && |home| == |input| && Tables(bufs, tcp, udp) && key in tcp && k < |tcp[key]|
      requires Reheaded(bufs, bufs', tcp[key][k].bufsIndex, key.isV6, true)
      ensures Buffers(bufs') && Tables(bufs', tcp, udp)
    {
      hide FlowOf, TcpList, UdpList, Holds, Reheaded;
      var w := tcp[key][k].bufsIndex;
      TcpListPlace(bufs, key, tcp[key], k);
      ReheadedBuffers(bufs, bufs', w, key.isV6, true);
      assert Holds(bufs', w);
      forall q | q in tcp ensures TcpList(bufs', q, tcp[q]) {
        if q == key {
          TcpListReheaded(bufs, bufs', key, tcp[key], k);
        } else {
          OtherTcpKey(bufs, q, tcp[q], w);
          TcpListFrame(bufs, this, bufs', w, q, tcp[q]);
        }
      }
      forall q | q in udp ensures UdpList(bufs', q, udp[q]) {
        UdpListFrame(bufs, bufs', w, q, udp[q]);
      }
    }

    lemma UdpListFrame(bufs: seq<Buf>, bufs': seq<Buf>, w: nat, key: UdpKey, items: seq<UdpItem>)
      requires |home| <= |input| && UdpList(bufs, key, items) && Agrees(bufs, this, bufs', w) && w < |input| && FlowAt(w) != UdpFlow(key)
      ensures UdpList(bufs', key, items)
    {
      hide FlowOf, UdpItemOk, Arrivals, Flat;
      OtherUdpKey(bufs, key, items, w);
      UdpItemsFrame(bufs, this, bufs', w, items);
    }

    lemma UdpTablesReheaded(bufs: seq<Buf>, bufs': seq<Buf>, tcp: map<TcpKey, seq<TcpItem>>, udp: map<UdpKey, seq<UdpItem>>, key: UdpKey, k: nat)
      requires Buffers(bufs) && |home| == |input| && Tables(bufs, tcp, udp) && key in udp && k < |udp[key]|
      requires Reheaded(bufs, bufs', udp[key][k].bufsIndex, key.isV6, false)
      ensures Buffers(bufs') && Tables(bufs', tcp, udp)
    {
      hide FlowOf, TcpList, UdpList, Holds, Reheaded;
      var w := udp[key][k].bufsIndex;
      UdpListPlace(bufs, key, udp[key], k);
      ReheadedBuffers(bufs, bufs', w, key.isV6, false);
      assert Holds(bufs', w);
      forall q | q in udp ensures UdpList(bufs', q, udp[q]) {
        if q == key {
          UdpListReheaded(bufs, bufs', key, udp[key], k);
        } else {
          UdpListFrame(bufs, bufs', w, q, udp[q]);
        }
      }
      forall q | q in tcp ensures TcpList(bufs', q, tcp[q]) {
        OtherTcpKey(bufs, q, tcp[q], w);
        TcpListFrame(bufs, this, bufs', w, q, tcp[q]);
      }
    }

    lemma UdpListPlace(bufs: seq<Buf>, key: UdpKey, items: seq<UdpItem>, i: nat)
      requires |home| <= |input| && UdpList(bufs, key, items) && i < |items|
      ensures items[i].key == key && items[i].bufsIndex in origin && items[i].bufsIndex < |input|
      ensures FlowAt(items[i].bufsIndex) == UdpFlow(key)
    {
      hide UdpItemOk, FlowOf, Arrivals, Flat;
      UdpItemPlace(bufs, items[i]);
    }

    lemma TcpItemShape(bufs: seq<Buf>, key: TcpKey, items: seq<TcpItem>, i: nat)
      requires TcpList(bufs, key, items) && i < |items|
      ensures var it := items[i];
        && it.key == key && it.bufsIndex in origin && it.bufsIndex < |input| && it.bufsIndex < |bufs|
        && FlowAt(it.bufsIndex) == TcpFlow(key, it.tcphLen) && |origin[it.bufsIndex]| == it.numMerged + 1
        && it.iphLen == IphLen(key.isV6) && it.tcphLen >= 20
        && it.iphLen + it.tcphLen <= |bufs[it.bufsIndex].pkt| <= MAX16
    {
      hide Sized, Contiguous, HeaderOf, SeqOf, Join, FlowOf, Verified;
      assert TcpItemOk(bufs, items[i]);
    }

    lemma UdpItemShape(bufs: seq<Buf>, key: UdpKey, items: seq<UdpItem>, i: nat)
      requires |home| <= |input| && UdpList(bufs, key, items) && i < |items|
      ensures var it := items[i];
        && it.key == key && it.bufsIndex in origin && it.bufsIndex < |input| && it.bufsIndex < |bufs|
        && FlowAt(it.bufsIndex) == UdpFlow(key) && |origin[it.bufsIndex]| == it.numMerged + 1
        && it.iphLen == IphLen(key.isV6) && it.iphLen + UDPHLEN <= |bufs[it.bufsIndex].pkt| <= MAX16
    {
      hide Sized, HeaderOf, Join, FlowOf, Arrivals, Flat, Verified;
      assert UdpItemOk(bufs, items[i]);
    }

    lemma TcpReheaded(bufs: seq<Buf>, bufs': seq<Buf>, w: nat, it: TcpItem)
      requires w in origin && w < |bufs| == |bufs'| && w < |input| && |origin[w]| > 1
      requires FlowAt(w) == TcpFlow(it.key, it.tcphLen) && it.tcphLen >= 20 && IphLen(it.key.isV6) + it.tcphLen <= |bufs[w].pkt| == |bufs'[w].pkt|
      requires forall p :: 0 <= p < |bufs[w].pkt| && !Mutable(it.key.isV6, true, p) ==> bufs'[w].pkt[p] == bufs[w].pkt[p]
      requires forall v :: 0 <= v < |bufs| && v != w ==> bufs'[v] == bufs[v]
      ensures Reheaded(bufs, bufs', w, it.key.isV6, true)
    {
      hide FlowOf;
    }

    lemma UdpReheaded(bufs: seq<Buf>, bufs': seq<Buf>, w: nat, it: UdpItem)
      requires w in origin && w < |bufs| == |bufs'| && w < |input| && |origin[w]| > 1
      requires FlowAt(w) == UdpFlow(it.key) && IphLen(it.key.isV6) + UDPHLEN <= |bufs[w].pkt| == |bufs'[w].pkt|
      requires forall p :: 0 <= p < |bufs[w].pkt| && !Mutable(it.key.isV6, false, p) ==> bufs'[w].pkt[p] == bufs[w].pkt[p]
      requires forall v :: 0 <= v < |bufs| && v != w ==> bufs'[v] == bufs[v]
      ensures Reheaded(bufs, bufs', w, it.key.isV6, false)
    {
      hide FlowOf;
    }

    lemma BufferCount(bufs: seq<Buf>)
      requires Buffers(bufs)
      ensures |bufs| == |input| && |home| <= |input|
    {
    }

    lemma OriginBelow(bufs: seq<Buf>)
      requires Buffers(bufs)
      ensures forall w :: w in origin ==> w < |home|
    {
      hide Holds;
      forall w | w in origin ensures w < |home| { assert PlacedAt(w); }
    }

    /** `ws` lists the buffers that hold packets, in increasing order. */
    ghost predicate Written(ws: seq<nat>) {
      && (forall w :: w in ws <==> w in origin)
      && (forall a, b :: 0 <= a < b < |ws| ==> ws[a] < ws[b])
    }

    lemma PlacedSome(bufs: seq<Buf>, w: nat)
      requires Buffers(bufs) && w in origin
      ensures |origin[w]| > 0
    {
      hide Holds;
      assert PlacedAt(w);
    }

    lemma NextUnwritten(bufs: seq<Buf>, ws: seq<nat>)
      requires Buffers(bufs) && Written(ws)
      ensures |home| !in ws
    {
      hide Buffers;
      OriginBelow(bufs);
    }

    lemma WrittenNothing(bufs: seq<Buf>)
      requires Buffers(bufs) && home == []
      ensures Written([])
    {
      OriginBelow(bufs);
    }

    lemma WrittenAlone(bufs: seq<Buf>, ws: seq<nat>)
      requires Buffers(bufs) && Written(ws)
      ensures Alone().Written(ws + [|home|])
    {
      hide Buffers;
      OriginBelow(bufs);
      forall a, b | 0 <= a < b < |ws + [|home|]| ensures (ws + [|home|])[a] < (ws + [|home|])[b] {
        assert ws[a] in ws;
      }
    }

    lemma WrittenSame(t: Trace, ws: seq<nat>)
      requires Written(ws)
      ensures t.origin.Keys == origin.Keys ==> t.Written(ws)
    {
      if t.origin.Keys == origin.Keys {
        forall w ensures w in ws <==> w in t.origin {
          assert w in t.origin <==> w in t.origin.Keys;
          assert w in origin <==> w in origin.Keys;
        }
      }
    }
  }
}
