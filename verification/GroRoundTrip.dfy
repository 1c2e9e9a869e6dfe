/** Merging and splitting undo each other: `gsoSplit` applied to a buffer that `handleGRO` has merged and
  accounted for gives back the packets that went into it. */
module GroRoundTrip {
  import opened Bytes
  import opened Packets
  import opened Gso
  import opened Sequences
  import opened Stride
  import opened GroFlows
  import opened GroMerge
  import opened GroState
  import opened GroAccounting

  /** The header written for a merged item describes its buffer. */
  lemma TcpHdrWellFormed(t: Trace, b: seq<Buf>, it: TcpItem)
    requires t.TcpItemOk(b, it) && it.numMerged > 0 && it.tcphLen >= 20
    ensures WellFormed(TcpHdr(it), |b[it.bufsIndex].pkt|, it.key.isV6)
  {
    hide Trace.HeaderOf, Contiguous, SeqOf, FlowOf, Off, Trace.Verified;
    Size(t, b, it.bufsIndex, it.iphLen + it.tcphLen, it.gsoSize);
  }

  lemma UdpHdrWellFormed(t: Trace, b: seq<Buf>, it: UdpItem)
    requires t.UdpItemOk(b, it) && it.numMerged > 0
    ensures WellFormed(UdpHdr(it), |b[it.bufsIndex].pkt|, it.key.isV6)
  {
    hide Trace.HeaderOf, FlowOf, Off, Trace.Verified;
    Size(t, b, it.bufsIndex, it.iphLen + UDPHLEN, it.gsoSize);
  }

  /** The size of a merged buffer of more than one packet. */
  lemma Size(t: Trace, b: seq<Buf>, w: nat, h: nat, g: nat)
    requires w in t.origin && t.Holds(b, w) && t.FlowAt(w).HeaderLen() == h && Sized(t.input, h, t.origin[w], g)
    ensures var js := t.origin[w];
      && |b[w].pkt| == h + Off(g, |js| - 1) + |Payload(t.input, h, js[|js| - 1])|
      && (|js| > 1 ==> h + g <= |b[w].pkt|)
  {
    hide FlowOf, Payload;
    var js := t.origin[w];
    JoinLength(t.input, h, js, g);
    hide Sized, Join, Trace.Verified;
    assert |b[w].pkt| == h + |b[w].pkt[h..]|;
    if |js| > 1 {
      OffStep(g, 0);
      OffMonotone(g, 1, |js| - 1);
    }
  }

  /** A split of a merged buffer has as many segments as packets were merged. */
  lemma SegmentCount(hdr: VirtioHdr, size: nat, n: nat, m: nat, l: nat)
    requires n > 0 && 1 <= l <= hdr.gsoSize && size == hdr.hdrLen + Off(hdr.gsoSize, n - 1) + l
    requires DataAt(hdr, m) >= size && (m > 0 ==> DataAt(hdr, m - 1) < size)
    ensures m == n
  {
    hide Off;
    if m < n {
      OffMonotone(hdr.gsoSize, m, n - 1);
    }
    if m > n {
      OffMonotone(hdr.gsoSize, n, m - 1);
      OffStep(hdr.gsoSize, n - 1);
    }
  }

  /** Segment `k` carries the payload of the `k`-th merged packet. */
  lemma SegmentPayload(t: Trace, b: seq<Buf>, w: nat, hdr: VirtioHdr, isV6: bool, k: nat, seg: seq<byte>)
    requires w in t.origin && t.Holds(b, w) && t.FlowAt(w).HeaderLen() == hdr.hdrLen && Sized(t.input, hdr.hdrLen, t.origin[w], hdr.gsoSize)
    requires k < |t.origin[w]| && WellFormed(hdr, |b[w].pkt|, isV6) && IsSegment(b[w].pkt, hdr, isV6, k, seg)
    ensures hdr.hdrLen <= |seg| && seg[hdr.hdrLen..] == Payload(t.input, hdr.hdrLen, t.origin[w][k])
  {
    hide FlowOf, Payload, Join, Sized, Off, IpFields, TransportFields, ChecksumValid, WellFormed, Trace.Verified;
    HeaderWithin(b[w].pkt, hdr, isV6);
    var d, at := b[w].pkt[hdr.hdrLen..], Off(hdr.gsoSize, k);
    CutsAtBoundaries(t.input, hdr.hdrLen, t.origin[w], hdr.gsoSize, k);
    DropSlice(b[w].pkt, hdr.hdrLen, at, if at + hdr.gsoSize > |d| then |d| else at + hdr.gsoSize);
  }

  lemma SegmentsOf(t: Trace, b: seq<Buf>, w: nat, hdr: VirtioHdr, isV6: bool, segs: seq<seq<byte>>)
    requires w in t.origin && t.Holds(b, w) && t.FlowAt(w).HeaderLen() == hdr.hdrLen && Sized(t.input, hdr.hdrLen, t.origin[w], hdr.gsoSize)
    requires WellFormed(hdr, |b[w].pkt|, isV6) && SplitsInto(b[w].pkt, hdr, isV6, segs)
    ensures Recovered(t, w, segs)
  {
    hide FlowOf, Payload, Join, Off, IsSegment, WellFormed;
    var js := t.origin[w];
    Size(t, b, w, hdr.hdrLen, hdr.gsoSize);
    SegmentCount(hdr, |b[w].pkt|, |js|, |segs|, |Payload(t.input, hdr.hdrLen, js[|js| - 1])|);
    forall k | 0 <= k < |segs| ensures PayloadBack(t, w, segs, k) {
      SegmentPayload(t, b, w, hdr, isV6, k, segs[k]);
      assert js[k] in js;
      t.HeaderFits(js[k]);
      t.PayloadAt(hdr.hdrLen, js[k]);
    }
  }

  /** The payloads of `segs` are those of the packets merged into buffer `w`, one for one. */
  ghost predicate Recovered(t: Trace, w: nat, segs: seq<seq<byte>>)
    requires w in t.origin && w < |t.input|
  {
    && |segs| == |t.origin[w]|
    && forall k :: 0 <= k < |segs| ==> PayloadBack(t, w, segs, k)
  }

  ghost predicate PayloadBack(t: Trace, w: nat, segs: seq<seq<byte>>, k: nat)
    requires w in t.origin && w < |t.input| && k < |segs| == |t.origin[w]|
  {
    var h, j := t.FlowAt(w).HeaderLen(), t.origin[w][k];
    && j < |t.input| && h <= |segs[k]| && h <= |t.input[j]|
    && segs[k][h..] == t.input[j][h..]
  }

  // ----- TCP headers

  lemma U32Frame(a: seq<byte>, b: seq<byte>, at: nat)
    requires at + 4 <= |a| && at + 4 <= |b| && forall p :: at <= p < at + 4 ==> a[p] == b[p]
    ensures U32(a, at) == U32(b, at)
  {
  }

  /** Bytes that merging, accounting and splitting leave alone agree with the first merged packet. */
  lemma HeaderBytes(t: Trace, b: seq<Buf>, it: TcpItem, k: nat, seg: seq<byte>, p: nat)
    requires t.TcpItemOk(b, it) && it.numMerged > 0 && it.tcphLen >= 20
    requires WellFormed(TcpHdr(it), |b[it.bufsIndex].pkt|, it.key.isV6) && IsSegment(b[it.bufsIndex].pkt, TcpHdr(it), it.key.isV6, k, seg)
    requires p < it.iphLen + it.tcphLen && !Trace.Mutable(it.key.isV6, true, p) && !Rewritten(TcpHdr(it), it.key.isV6, p)
    ensures var j := t.origin[it.bufsIndex][0]; j < |t.input| && p < |t.input[j]| && p < |seg| && seg[p] == t.input[j][p]
  {
    hide FlowOf, Sized, Contiguous, SeqOf, Join, Off, IpFields, TransportFields, ChecksumValid, Trace.Verified;
  }

  /** Every segment belongs to the flow of the item. */
  lemma SegmentKey(t: Trace, b: seq<Buf>, it: TcpItem, k: nat, seg: seq<byte>)
    requires t.TcpItemOk(b, it) && it.numMerged > 0 && it.tcphLen >= 20
    requires WellFormed(TcpHdr(it), |b[it.bufsIndex].pkt|, it.key.isV6) && IsSegment(b[it.bufsIndex].pkt, TcpHdr(it), it.key.isV6, k, seg)
    ensures IphLen(it.key.isV6) + 20 <= |seg| && TcpKeyOf(seg, it.key.isV6) == it.key
  {
    hide Sized, Contiguous, SeqOf, Join, Off, IsSegment, FlowOf, U16, U32, SoundIp, Trace.HeaderOf, SrcAddr, DstAddr, Trace.Verified;
    var j, isV6 := t.origin[it.bufsIndex][0], it.key.isV6;
    assert j in t.origin[it.bufsIndex];
    assert t.FlowAt(j) == t.FlowAt(it.bufsIndex);
    t.TcpSizes(j);
    KeyOfFlow(t, j);
    assert IphLen(isV6) + 20 <= |seg| by { SegmentSize(b[it.bufsIndex].pkt, TcpHdr(it), isV6, k, seg); }
    forall p: nat | KeyByte(isV6, p) ensures p < |seg| && p < |t.input[j]| && seg[p] == t.input[j][p] {
      HeaderBytes(t, b, it, k, seg, p);
    }
    SameKey(seg, t.input[j], isV6);
  }

  predicate KeyByte(isV6: bool, p: nat) {
    AddrAt(isV6) <= p < AddrEnd(isV6) || IphLen(isV6) <= p < IphLen(isV6) + 4 || IphLen(isV6) + 8 <= p < IphLen(isV6) + 12
  }

  lemma SegmentSize(pkt: seq<byte>, hdr: VirtioHdr, isV6: bool, k: nat, seg: seq<byte>)
    requires WellFormed(hdr, |pkt|, isV6) && IsSegment(pkt, hdr, isV6, k, seg)
    ensures hdr.hdrLen <= |seg|
  {
    hide Off, IpFields, TransportFields, ChecksumValid;
  }

  lemma KeyOfFlow(t: Trace, j: nat)
    requires j < |t.input| && t.FlowAt(j).TcpFlow?
    ensures var key := t.FlowAt(j).tcpKey; IphLen(key.isV6) + 20 <= |t.input[j]| && TcpKeyOf(t.input[j], key.isV6) == key
  {
    hide SoundIp, U16, U32, SrcAddr, DstAddr;
  }

  lemma SameKey(a: seq<byte>, b: seq<byte>, isV6: bool)
    requires IphLen(isV6) + 20 <= |a| && IphLen(isV6) + 20 <= |b|
    requires forall p: nat :: KeyByte(isV6, p) ==> a[p] == b[p]
    ensures TcpKeyOf(a, isV6) == TcpKeyOf(b, isV6)
  {
    hide U16, U32;
    var t := IphLen(isV6);
    U16Frame(a, b, t);
    U16Frame(a, b, t + 2);
    U32Frame(a, b, t + 8);
    assert SrcAddr(a, isV6) == SrcAddr(b, isV6);
    assert DstAddr(a, isV6) == DstAddr(b, isV6);
  }

  /** Segment `k` carries the sequence number of the `k`-th merged packet. */
  lemma SegmentSeq(t: Trace, b: seq<Buf>, it: TcpItem, k: nat, seg: seq<byte>)
    requires t.TcpItemOk(b, it) && it.numMerged > 0 && it.tcphLen >= 20 && k < |t.origin[it.bufsIndex]|
    requires WellFormed(TcpHdr(it), |b[it.bufsIndex].pkt|, it.key.isV6) && IsSegment(b[it.bufsIndex].pkt, TcpHdr(it), it.key.isV6, k, seg)
    ensures it.iphLen + 8 <= |seg| && U32(seg, it.iphLen + 4) == SeqOf(t.input, it.key.isV6, t.origin[it.bufsIndex][k])
  {
    hide FlowOf, Sized, Join, Off, IpFields, ChecksumValid, U32, Wrap32, SeqOf, Trace.Verified;
    var w, js, isV6 := it.bufsIndex, t.origin[it.bufsIndex], it.key.isV6;
    assert Trace.HeaderOf(t.input, b[w].pkt, js[0], it.iphLen + it.tcphLen, isV6, true);
    U32Frame(b[w].pkt, t.input[js[0]], it.iphLen + 4);
    t.SeqAt(isV6, js[0]);
  }

  /** Splitting a merged and accounted TCP buffer: the payloads, sequence numbers and flow key of the
    packets that were merged, in order, each under a valid checksum. */
  lemma TcpRoundTrip(t: Trace, b: seq<Buf>, key: TcpKey, items: seq<TcpItem>, i: nat, segs: seq<seq<byte>>)
    requires t.TcpList(b, key, items) && i < |items| && items[i].numMerged > 0
    requires items[i].bufsIndex < |b| && TcpAnnounced(b[items[i].bufsIndex], items[i])
    requires var w := items[i].bufsIndex;
      WellFormed(b[w].vnet, |b[w].pkt|, key.isV6) ==> SplitsInto(b[w].pkt, b[w].vnet, key.isV6, segs)
    ensures var w := items[i].bufsIndex;
      && WellFormed(b[w].vnet, |b[w].pkt|, key.isV6)
      && w in t.origin && w < |t.input| && |segs| == items[i].numMerged + 1 && Recovered(t, w, segs)
      && forall k :: 0 <= k < |segs| ==> HeaderBack(t, w, key, segs, k)
  {
    hide FlowOf, Trace.TcpItemOk, IsSegment, SaysLength, HoldsPseudoSum, WellFormed, Recovered;
    var it := items[i];
    var w := it.bufsIndex;
    t.TcpItemShape(b, key, items, i);
    assert t.TcpItemOk(b, it);
    TcpHdrWellFormed(t, b, it);
    TcpItemParts(t, b, it);
    SegmentsOf(t, b, w, TcpHdr(it), key.isV6, segs);
    assert |segs| == |t.origin[w]| by { RecoveredCount(t, w, segs); }
    forall k | 0 <= k < |segs| ensures HeaderBack(t, w, key, segs, k) {
      SegmentSeq(t, b, it, k, segs[k]);
      SegmentKey(t, b, it, k, segs[k]);
      SegmentValid(b[w].pkt, TcpHdr(it), key.isV6, k, segs[k]);
    }
  }

  ghost predicate HeaderBack(t: Trace, w: nat, key: TcpKey, segs: seq<seq<byte>>, k: nat)
    requires w in t.origin && k < |segs| == |t.origin[w]|
  {
    && IphLen(key.isV6) + 20 <= |segs[k]|
    && TcpKeyOf(segs[k], key.isV6) == key
    && U32(segs[k], IphLen(key.isV6) + 4) == SeqOf(t.input, key.isV6, t.origin[w][k])
    && ChecksumValid(segs[k], IphLen(key.isV6), TCP, key.isV6)
  }

  lemma SegmentValid(pkt: seq<byte>, hdr: VirtioHdr, isV6: bool, k: nat, seg: seq<byte>)
    requires WellFormed(hdr, |pkt|, isV6) && IsSegment(pkt, hdr, isV6, k, seg)
    ensures AddrEnd(isV6) <= hdr.csumStart <= |seg| && ChecksumValid(seg, hdr.csumStart, Proto(hdr), isV6)
  {
    hide Off, IpFields, TransportFields, ChecksumValid;
  }

  lemma RecoveredCount(t: Trace, w: nat, segs: seq<seq<byte>>)
    requires w in t.origin && w < |t.input| && Recovered(t, w, segs)
    ensures |segs| == |t.origin[w]|
  {
  }

  lemma TcpItemParts(t: Trace, b: seq<Buf>, it: TcpItem)
    requires t.TcpItemOk(b, it)
    ensures t.Holds(b, it.bufsIndex) && Sized(t.input, it.iphLen + it.tcphLen, t.origin[it.bufsIndex], it.gsoSize)
  {
    hide FlowOf, Sized, Contiguous, SeqOf, Trace.HeaderOf, Trace.Holds, Trace.Verified;
  }

  lemma UdpItemParts(t: Trace, b: seq<Buf>, it: UdpItem)
    requires t.UdpItemOk(b, it)
    ensures t.Holds(b, it.bufsIndex) && Sized(t.input, it.iphLen + UDPHLEN, t.origin[it.bufsIndex], it.gsoSize)
  {
    hide FlowOf, Sized, Trace.HeaderOf, Trace.Holds, Trace.Verified;
  }

  // ----- UDP headers

  lemma UdpHeaderBytes(t: Trace, b: seq<Buf>, it: UdpItem, k: nat, seg: seq<byte>, p: nat)
    requires t.UdpItemOk(b, it) && it.numMerged > 0
    requires WellFormed(UdpHdr(it), |b[it.bufsIndex].pkt|, it.key.isV6) && IsSegment(b[it.bufsIndex].pkt, UdpHdr(it), it.key.isV6, k, seg)
    requires p < it.iphLen + UDPHLEN && !Trace.Mutable(it.key.isV6, false, p) && !Rewritten(UdpHdr(it), it.key.isV6, p)
    ensures var j := t.origin[it.bufsIndex][0]; j < |t.input| && p < |t.input[j]| && p < |seg| && seg[p] == t.input[j][p]
  {
    hide FlowOf, Sized, Join, Off, IpFields, TransportFields, ChecksumValid, Trace.Verified;
  }

  predicate UdpKeyByte(isV6: bool, p: nat) {
    AddrAt(isV6) <= p < AddrEnd(isV6) || IphLen(isV6) <= p < IphLen(isV6) + 4
  }

  /** Every segment belongs to the flow of the item. */
  lemma UdpSegmentKey(t: Trace, b: seq<Buf>, it: UdpItem, k: nat, seg: seq<byte>)
    requires t.UdpItemOk(b, it) && it.numMerged > 0
    requires WellFormed(UdpHdr(it), |b[it.bufsIndex].pkt|, it.key.isV6) && IsSegment(b[it.bufsIndex].pkt, UdpHdr(it), it.key.isV6, k, seg)
    ensures IphLen(it.key.isV6) + UDPHLEN <= |seg| && UdpKeyOf(seg, it.key.isV6) == it.key
  {
    hide Sized, Join, Off, IsSegment, FlowOf, U16, SoundIp, Trace.HeaderOf, SrcAddr, DstAddr, Trace.Verified;
    var j, isV6 := t.origin[it.bufsIndex][0], it.key.isV6;
    assert j in t.origin[it.bufsIndex];
    assert t.FlowAt(j) == t.FlowAt(it.bufsIndex);
    t.UdpSizes(j);
    UdpKeyOfFlow(t, j);
    assert IphLen(isV6) + UDPHLEN <= |seg| by { SegmentSize(b[it.bufsIndex].pkt, UdpHdr(it), isV6, k, seg); }
    forall p: nat | UdpKeyByte(isV6, p) ensures p < |seg| && p < |t.input[j]| && seg[p] == t.input[j][p] {
      UdpHeaderBytes(t, b, it, k, seg, p);
    }
    SameUdpKey(seg, t.input[j], isV6);
  }

  lemma UdpKeyOfFlow(t: Trace, j: nat)
    requires j < |t.input| && t.FlowAt(j).UdpFlow?
    ensures var key := t.FlowAt(j).udpKey; IphLen(key.isV6) + UDPHLEN <= |t.input[j]| && UdpKeyOf(t.input[j], key.isV6) == key
  {
    hide SoundIp, U16, U32, SrcAddr, DstAddr;
  }

  lemma SameUdpKey(a: seq<byte>, b: seq<byte>, isV6: bool)
    requires IphLen(isV6) + UDPHLEN <= |a| && IphLen(isV6) + UDPHLEN <= |b|
    requires forall p: nat :: UdpKeyByte(isV6, p) ==> a[p] == b[p]
    ensures UdpKeyOf(a, isV6) == UdpKeyOf(b, isV6)
  {
    hide U16;
    U16Frame(a, b, IphLen(isV6));
    U16Frame(a, b, IphLen(isV6) + 2);
    assert SrcAddr(a, isV6) == SrcAddr(b, isV6);
    assert DstAddr(a, isV6) == DstAddr(b, isV6);
  }

  /** A segment of a UDP flow, with a valid checksum. */
  ghost predicate UdpHeaderBack(key: UdpKey, seg: seq<byte>) {
    && IphLen(key.isV6) + UDPHLEN <= |seg|
    && UdpKeyOf(seg, key.isV6) == key
    && ChecksumValid(seg, IphLen(key.isV6), UDP, key.isV6)
  }

  /** Splitting a merged and accounted UDP buffer gives the datagrams that were merged, in order: payload and flow
    key, each under a valid checksum. */
  lemma UdpRoundTrip(t: Trace, b: seq<Buf>, key: UdpKey, items: seq<UdpItem>, i: nat, segs: seq<seq<byte>>)
    requires |t.home| <= |t.input| && t.UdpList(b, key, items) && i < |items| && items[i].numMerged > 0
    requires items[i].bufsIndex < |b| && UdpAnnounced(b[items[i].bufsIndex], items[i])
    requires var w := items[i].bufsIndex;
      WellFormed(b[w].vnet, |b[w].pkt|, key.isV6) ==> SplitsInto(b[w].pkt, b[w].vnet, key.isV6, segs)
    ensures var w := items[i].bufsIndex;
      && WellFormed(b[w].vnet, |b[w].pkt|, key.isV6)
      && w in t.origin && w < |t.input| && |segs| == items[i].numMerged + 1 && Recovered(t, w, segs)
      && forall k :: 0 <= k < |segs| ==> UdpHeaderBack(key, segs[k])
  {
    hide FlowOf, Trace.UdpItemOk, IsSegment, SaysLength, HoldsPseudoSum, WellFormed, Recovered, Trace.Arrivals, Trace.Flat;
    var it := items[i];
    t.UdpItemShape(b, key, items, i);
    assert t.UdpItemOk(b, it);
    UdpHdrWellFormed(t, b, it);
    UdpItemParts(t, b, it);
    SegmentsOf(t, b, it.bufsIndex, UdpHdr(it), key.isV6, segs);
    RecoveredCount(t, it.bufsIndex, segs);
    forall k | 0 <= k < |segs| ensures UdpHeaderBack(key, segs[k]) {
      UdpSegmentKey(t, b, it, k, segs[k]);
      SegmentValid(b[it.bufsIndex].pkt, UdpHdr(it), key.isV6, k, segs[k]);
    }
  }
}
