/** What the receive-offload tables tell the kernel about a merged packet: the accounting half of
  `handleGRO`. */
module GroAccounting {
  import opened Bytes
  import opened OnesComplement
  import opened InternetChecksum
  import opened Packets
  import opened Gso
  import opened GroFlows
  import opened GroState

  /** The virtio header that goes with an item. */
  function TcpHdr(it: TcpItem): VirtioHdr {
    if it.numMerged > 0 then
      VirtioHdr(NEEDS_CSUM, if it.key.isV6 then GSO_TCPV6 else GSO_TCPV4, it.iphLen + it.tcphLen, it.gsoSize, it.iphLen, 16)
    else ZERO_HDR
  }

  function UdpHdr(it: UdpItem): VirtioHdr {
    if it.numMerged > 0 then
      VirtioHdr(NEEDS_CSUM, GSO_UDP_L4, it.iphLen + UDPHLEN, it.gsoSize, it.iphLen, 6)
    else ZERO_HDR
  }

  /** The IP header states the length of the packet and, for IPv4, carries a valid checksum. */
  ghost predicate SaysLength(pkt: seq<byte>, isV6: bool)
    requires IphLen(isV6) <= |pkt|
  {
    if isV6 then U16(pkt, 4) == |pkt| - 40
    else U16(pkt, 2) == |pkt| && Rep(Sum16(pkt[..20])) == MAX16
  }

  /** The checksum field at `at` holds the pseudo header's share of the sum. */
  ghost predicate HoldsPseudoSum(pkt: seq<byte>, isV6: bool, proto: byte, at: nat)
    requires IphLen(isV6) <= |pkt| <= MAX16 && at + 2 <= |pkt|
  {
    U16(pkt, at) == Rep(Sum16(PseudoHeader(proto, SrcAddr(pkt, isV6), DstAddr(pkt, isV6), |pkt| - IphLen(isV6))))
  }

  ghost predicate TcpAnnounced(b: Buf, it: TcpItem) {
    && b.vnet == TcpHdr(it)
    && (it.numMerged > 0 ==>
          && IphLen(it.key.isV6) + 18 <= |b.pkt| <= MAX16
          && SaysLength(b.pkt, it.key.isV6)
          && HoldsPseudoSum(b.pkt, it.key.isV6, TCP, IphLen(it.key.isV6) + 16))
  }

  ghost predicate UdpAnnounced(b: Buf, it: UdpItem) {
    && b.vnet == UdpHdr(it)
    && (it.numMerged > 0 ==>
          && IphLen(it.key.isV6) + 8 <= |b.pkt| <= MAX16
          && SaysLength(b.pkt, it.key.isV6)
          && U16(b.pkt, IphLen(it.key.isV6) + 4) == |b.pkt| - IphLen(it.key.isV6)
          && HoldsPseudoSum(b.pkt, it.key.isV6, UDP, IphLen(it.key.isV6) + 6))
  }

  /** The first `n` items of a list have been accounted for. */
  ghost predicate TcpDone(bufs: seq<Buf>, items: seq<TcpItem>, n: nat)
    requires n <= |items|
  {
    forall i :: 0 <= i < n ==> items[i].bufsIndex < |bufs| && TcpAnnounced(bufs[items[i].bufsIndex], items[i])
  }

  ghost predicate UdpDone(bufs: seq<Buf>, items: seq<UdpItem>, n: nat)
    requires n <= |items|
  {
    forall i :: 0 <= i < n ==> items[i].bufsIndex < |bufs| && UdpAnnounced(bufs[items[i].bufsIndex], items[i])
  }

  /** New length and header checksum for a packet that has grown. */
  method SetIpLength(little: bool, pkt: seq<byte>, isV6: bool) returns (out: seq<byte>)
    requires IphLen(isV6) <= |pkt| <= MAX16
    ensures |out| == |pkt| && SaysLength(out, isV6)
    ensures forall p :: 0 <= p < |pkt| && !(if isV6 then 4 <= p < 6 else 2 <= p < 4 || 10 <= p < 12) ==> out[p] == pkt[p]
  {
    hide Sum16, Rep, Put16, U16;
    if isV6 {
      out := Put16(pkt, 4, |pkt| - 40);
    } else {
      out := pkt[10 := 0][11 := 0];
      ZeroField(out, 10);
      ghost var bare := out;
      out := Put16(out, 2, |pkt|);
      U16Frame(out[..20], bare, 10);
      var header := FillIpv4Checksum(little, out[..20]);
      ghost var sized := out;
      out := header + out[20..];
      assert out[..20] == header;
      U16Frame(out, sized, 2);
    }
  }

  /** The pseudo header's sum goes into the transport checksum field; the kernel adds the rest. */
  method SetPseudoSum(little: bool, pkt: seq<byte>, isV6: bool, proto: byte, at: nat) returns (out: seq<byte>)
    requires IphLen(isV6) <= at && at + 2 <= |pkt| <= MAX16
    ensures |out| == |pkt| && HoldsPseudoSum(out, isV6, proto, at)
    ensures forall p :: 0 <= p < |pkt| && p != at && p != at + 1 ==> out[p] == pkt[p]
  {
    hide Sum16, Rep, Put16, U16, Cong, PseudoHeader;
    var src, dst := SrcAddr(pkt, isV6), DstAddr(pkt, isV6);
    var psum := PseudoHeaderChecksumNoFold(little, proto, src, dst, |pkt| - IphLen(isV6));
    var c := Checksum(little, [], psum);
    RepCongSum(psum, Sum16(PseudoHeader(proto, src, dst, |pkt| - IphLen(isV6))), 0);
    NoSum();
    out := Put16(pkt, at, c);
    assert SrcAddr(out, isV6) == src && DstAddr(out, isV6) == dst;
  }

  lemma NoSum()
    ensures Sum16([]) == 0
  {
  }

  lemma SaysLengthFrame(a: seq<byte>, b: seq<byte>, isV6: bool)
    requires IphLen(isV6) <= |a| == |b| && SaysLength(a, isV6)
    requires forall p :: 0 <= p < IphLen(isV6) ==> a[p] == b[p]
    ensures SaysLength(b, isV6)
  {
    hide Sum16, Rep;
    assert a[..IphLen(isV6)] == b[..IphLen(isV6)];
  }

  /** The packet of a TCP item after accounting. */
  method AccountTcpPacket(little: bool, pkt: seq<byte>, isV6: bool) returns (out: seq<byte>)
    requires IphLen(isV6) + 18 <= |pkt| <= MAX16
    ensures |out| == |pkt| && SaysLength(out, isV6) && HoldsPseudoSum(out, isV6, TCP, IphLen(isV6) + 16)
    ensures forall p :: 0 <= p < |pkt| && !Trace.Mutable(isV6, true, p) ==> out[p] == pkt[p]
  {
    hide SaysLength, HoldsPseudoSum;
    var sized := SetIpLength(little, pkt, isV6);
    out := SetPseudoSum(little, sized, isV6, TCP, IphLen(isV6) + 16);
    SaysLengthFrame(sized, out, isV6);
  }

  method AccountUdpPacket(little: bool, pkt: seq<byte>, isV6: bool) returns (out: seq<byte>)
    requires IphLen(isV6) + 8 <= |pkt| <= MAX16
    ensures |out| == |pkt| && SaysLength(out, isV6) && HoldsPseudoSum(out, isV6, UDP, IphLen(isV6) + 6)
    ensures U16(out, IphLen(isV6) + 4) == |out| - IphLen(isV6)
    ensures forall p :: 0 <= p < |pkt| && !Trace.Mutable(isV6, false, p) ==> out[p] == pkt[p]
  {
    hide SaysLength, HoldsPseudoSum, U16;
    var sized := SetIpLength(little, pkt, isV6);
    var measured := Put16(sized, IphLen(isV6) + 4, |pkt| - IphLen(isV6));
    SaysLengthFrame(sized, measured, isV6);
    out := SetPseudoSum(little, measured, isV6, UDP, IphLen(isV6) + 6);
    SaysLengthFrame(measured, out, isV6);
    U16Frame(out, measured, IphLen(isV6) + 4);
  }

  lemma TcpDoneFrame(bufs: seq<Buf>, bufs': seq<Buf>, items: seq<TcpItem>, n: nat, w: nat)
    requires n <= |items| && TcpDone(bufs, items, n) && |bufs'| == |bufs|
    requires forall v :: 0 <= v < |bufs| && v != w ==> bufs'[v] == bufs[v]
    requires forall i :: 0 <= i < n ==> items[i].bufsIndex != w
    ensures TcpDone(bufs', items, n)
  {
    hide TcpAnnounced;
  }

  lemma UdpDoneFrame(bufs: seq<Buf>, bufs': seq<Buf>, items: seq<UdpItem>, n: nat, w: nat)
    requires n <= |items| && UdpDone(bufs, items, n) && |bufs'| == |bufs|
    requires forall v :: 0 <= v < |bufs| && v != w ==> bufs'[v] == bufs[v]
    requires forall i :: 0 <= i < n ==> items[i].bufsIndex != w
    ensures UdpDone(bufs', items, n)
  {
    hide UdpAnnounced;
  }

  lemma TcpNoneDone(bufs: seq<Buf>, items: seq<TcpItem>)
    ensures TcpDone(bufs, items, 0)
  {
  }

  lemma UdpNoneDone(bufs: seq<Buf>, items: seq<UdpItem>)
    ensures UdpDone(bufs, items, 0)
  {
  }
}
