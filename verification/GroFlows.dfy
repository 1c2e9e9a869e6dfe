/** Receive offload, the pure part: which flow a packet belongs to, when two packets of a
  flow may be merged, and what a merged packet is made of (tun/offload_linux.go). */
module GroFlows {
  import opened Bytes
  import opened OnesComplement
  import opened Packets

  const ACK: byte := 0x10
  const ACKPSH: byte := 0x18
  const UDPHLEN: nat := 8

  datatype TcpKey = TcpKey(src: seq<byte>, dst: seq<byte>, srcPort: nat, dstPort: nat, rxAck: nat, isV6: bool)

  datatype UdpKey = UdpKey(src: seq<byte>, dst: seq<byte>, srcPort: nat, dstPort: nat, isV6: bool)

  /** What receive offload makes of a packet on its own. */
  datatype Flow =
    | Raw
    | TcpFlow(tcpKey: TcpKey, tcphLen: nat)
    | UdpFlow(udpKey: UdpKey)
  {
    /** The length of IP and transport header; nothing is looked into otherwise. */
    function HeaderLen(): nat {
      match this
      case Raw => 0
      case TcpFlow(key, tcphLen) => IphLen(key.isV6) + tcphLen
      case UdpFlow(key) => IphLen(key.isV6) + UDPHLEN
    }
  }

  /** IPv4 packets with options are never candidates. */
  function IphLen(isV6: bool): nat {
    if isV6 then 40 else 20
  }

  // ----- Candidates

  datatype Candidate = NotCandidate | Tcp4 | Tcp6 | Udp4 | Udp6

  function PacketIsGROCandidate(b: seq<byte>, canUDPGRO: bool): Candidate {
    if |b| < 28 then NotCandidate
    else if b[0] / 16 == 4 then
      if b[0] % 16 != 5 then NotCandidate
      else if b[9] == TCP && |b| >= 40 then Tcp4
      else if b[9] == UDP && canUDPGRO then Udp4
      else NotCandidate
    else if b[0] / 16 == 6 then
      if b[6] == TCP && |b| >= 60 then Tcp6
      else if b[6] == UDP && |b| >= 48 && canUDPGRO then Udp6
      else NotCandidate
    else NotCandidate
  }

  /** The length field of the IP header agrees with the packet, which is not a fragment. */
  predicate SoundIp(pkt: seq<byte>, isV6: bool)
    requires |pkt| >= (if isV6 then 48 else 28)
  {
    && |pkt| <= MAX16
    && (if isV6 then U16(pkt, 4) == |pkt| - 40 else U16(pkt, 2) == |pkt|)
    && (!isV6 ==> !((pkt[6] / 32) % 2 != 0 || (pkt[6] * 8 as int) % 256 != 0 || pkt[7] != 0))
  }

  function TcpKeyOf(pkt: seq<byte>, isV6: bool): TcpKey
    requires |pkt| >= IphLen(isV6) + 20
  {
    var t := IphLen(isV6);
    TcpKey(SrcAddr(pkt, isV6), DstAddr(pkt, isV6), U16(pkt, t), U16(pkt, t + 2), U32(pkt, t + 8), isV6)
  }

  function UdpKeyOf(pkt: seq<byte>, isV6: bool): UdpKey
    requires |pkt| >= IphLen(isV6) + UDPHLEN
  {
    var t := IphLen(isV6);
    UdpKey(SrcAddr(pkt, isV6), DstAddr(pkt, isV6), U16(pkt, t), U16(pkt, t + 2), isV6)
  }

  /** The checks of `tcpGRO` before it consults its table. */
  function ParseTcp(pkt: seq<byte>, isV6: bool): (f: Flow)
    requires |pkt| >= IphLen(isV6) + 20
    ensures !f.UdpFlow?
    ensures f.TcpFlow? ==> f.tcpKey.isV6 == isV6 && 20 <= f.tcphLen <= 60 && f.HeaderLen() < |pkt| <= MAX16
    ensures f.TcpFlow? ==> pkt[IphLen(isV6) + 13] == ACK || pkt[IphLen(isV6) + 13] == ACKPSH
  {
    var iphLen := IphLen(isV6);
    if !SoundIp(pkt, isV6) then Raw
    else
      var tcphLen := (pkt[iphLen + 12] / 16) * 4 as int;
      if tcphLen < 20 || tcphLen > 60 || |pkt| < iphLen + tcphLen then Raw
      else if pkt[iphLen + 13] != ACK && pkt[iphLen + 13] != ACKPSH then Raw
      else if |pkt| - tcphLen - iphLen < 1 then Raw
      else TcpFlow(TcpKeyOf(pkt, isV6), tcphLen)
  }

  /** The checks of `udpGRO` before it consults its table. */
  function ParseUdp(pkt: seq<byte>, isV6: bool): (f: Flow)
    requires |pkt| >= IphLen(isV6) + UDPHLEN
    ensures !f.TcpFlow?
    ensures f.UdpFlow? ==> f.udpKey.isV6 == isV6 && f.HeaderLen() < |pkt| <= MAX16
  {
    if !SoundIp(pkt, isV6) then Raw
    else if |pkt| - UDPHLEN - IphLen(isV6) < 1 then Raw
    else UdpFlow(UdpKeyOf(pkt, isV6))
  }

  function FlowOf(pkt: seq<byte>, canUDPGRO: bool): (f: Flow)
    ensures f.TcpFlow? ==> |pkt| >= IphLen(f.tcpKey.isV6) + 20 && f == ParseTcp(pkt, f.tcpKey.isV6)
    ensures f.UdpFlow? ==> |pkt| >= IphLen(f.udpKey.isV6) + UDPHLEN && f == ParseUdp(pkt, f.udpKey.isV6)
    ensures f.HeaderLen() <= |pkt|
  {
    match PacketIsGROCandidate(pkt, canUDPGRO)
    case NotCandidate => Raw
    case Tcp4 => ParseTcp(pkt, false)
    case Tcp6 => ParseTcp(pkt, true)
    case Udp4 => ParseUdp(pkt, false)
    case Udp6 => ParseUdp(pkt, true)
  }

  /** A whole IPv4 packet without options, or IPv6 packet, of that protocol and of the length it states. */
  predicate Whole(pkt: seq<byte>, proto: byte, isV6: bool) {
    && IphLen(isV6) <= |pkt| <= MAX16
    && if isV6 then pkt[0] / 16 == 6 && pkt[6] == proto && U16(pkt, 4) == |pkt| - 40
       else pkt[0] == 0x45 && pkt[9] == proto && U16(pkt, 2) == |pkt| && pkt[6] % 64 == 0 && pkt[7] == 0
  }

  /** A TCP segment with payload and no flags but ACK and PSH. */
  predicate IsTcpData(pkt: seq<byte>, isV6: bool) {
    var t := IphLen(isV6);
    && Whole(pkt, TCP, isV6) && |pkt| >= t + 20 && pkt[t + 13] in {ACK, ACKPSH}
    && pkt[t + 12] / 16 >= 5 && t + 4 * (pkt[t + 12] / 16) < |pkt|
  }

  predicate IsUdpData(pkt: seq<byte>, isV6: bool) {
    Whole(pkt, UDP, isV6) && |pkt| > IphLen(isV6) + UDPHLEN
  }

  /** Exactly which packets are of a flow, and of which. */
  lemma FlowExactly(pkt: seq<byte>, canUDPGRO: bool)
    ensures var f := FlowOf(pkt, canUDPGRO);
      && (f.TcpFlow? <==> IsTcpData(pkt, false) || IsTcpData(pkt, true))
      && (f.UdpFlow? <==> canUDPGRO && (IsUdpData(pkt, false) || IsUdpData(pkt, true)))
      && (forall isV6 :: IsTcpData(pkt, isV6) ==> f == TcpFlow(TcpKeyOf(pkt, isV6), 4 * (pkt[IphLen(isV6) + 12] / 16)))
      && (forall isV6 :: canUDPGRO && IsUdpData(pkt, isV6) ==> f == UdpFlow(UdpKeyOf(pkt, isV6)))
  {
    hide U16, U32, SrcAddr, DstAddr;
  }

  // ----- Compatibility

  predicate IpHeadersCanCoalesce(a: seq<byte>, b: seq<byte>) {
    && |a| >= 9 && |b| >= 9
    && if a[0] / 16 == 6 then
         a[0] == b[0] && a[1] / 16 == b[1] / 16 && a[7] == b[7]
       else
         a[1] == b[1] && a[6] / 32 == b[6] / 32 && a[8] == b[8]
  }

  datatype CanCoalesce = Prepend | Unavailable | Append

  datatype TcpItem = TcpItem(key: TcpKey, sentSeq: nat, bufsIndex: nat, numMerged: nat, gsoSize: nat, iphLen: nat,
                             tcphLen: nat, pshSet: bool)

  datatype UdpItem = UdpItem(key: UdpKey, bufsIndex: nat, numMerged: nat, gsoSize: nat, iphLen: nat,
                             cSumKnownInvalid: bool)

  /** The length of `numMerged + 1` payloads as the source computes it, in 16 bits. */
  function LhsLen(gsoSize: nat, numMerged: nat): nat {
    (gsoSize + (numMerged * gsoSize) % TWO16) % TWO16
  }

  function TcpPacketsCanCoalesce(pkt: seq<byte>, iphLen: nat, tcphLen: nat, seqNum: nat, pshSet: bool, gsoSize: nat,
                                 item: TcpItem, target: seq<byte>): CanCoalesce
    requires iphLen + tcphLen <= |pkt| && tcphLen >= 20 && item.iphLen == iphLen && item.iphLen + item.tcphLen <= |target|
    requires item.gsoSize > 0
  {
    if tcphLen != item.tcphLen then Unavailable
    else if tcphLen > 20 && pkt[iphLen + 20..iphLen + tcphLen] != target[item.iphLen + 20..iphLen + tcphLen] then Unavailable
    else if !IpHeadersCanCoalesce(pkt, target) then Unavailable
    else
      if seqNum == Wrap32(item.sentSeq + LhsLen(item.gsoSize, item.numMerged)) then
        if item.pshSet then Unavailable
        else if |target[iphLen + tcphLen..]| % item.gsoSize != 0 then Unavailable
        else if gsoSize > item.gsoSize then Unavailable
        else Append
      else if Wrap32(seqNum + gsoSize) == item.sentSeq then
        if pshSet then Unavailable
        else if gsoSize < item.gsoSize then Unavailable
        else if gsoSize > item.gsoSize && item.numMerged > 0 then Unavailable
        else Prepend
      else Unavailable
  }

  function UdpPacketsCanCoalesce(pkt: seq<byte>, iphLen: nat, gsoSize: nat, item: UdpItem, target: seq<byte>): CanCoalesce
    requires iphLen + UDPHLEN <= |target| && item.gsoSize > 0
  {
    if !IpHeadersCanCoalesce(pkt, target) then Unavailable
    else if |target[iphLen + UDPHLEN..]| % item.gsoSize != 0 then Unavailable
    else if gsoSize > item.gsoSize then Unavailable
    else Append
  }
}
