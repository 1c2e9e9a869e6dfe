/** Segmentation: `gsoSplit` of tun/offload_linux.go cuts one large TCP or UDP packet into
  packets of at most `gsoSize` payload bytes, rewriting lengths, identifiers, sequence
  numbers, flags and checksums. */
module Gso {
  import opened Bytes
  import opened OnesComplement
  import opened InternetChecksum
  import opened Packets
  import opened Stride

  const FIN: nat := 0x01
  const PSH: nat := 0x08

  predicate IsTcp(hdr: VirtioHdr) {
    hdr.gsoType == GSO_TCPV4 || hdr.gsoType == GSO_TCPV6
  }

  function Proto(hdr: VirtioHdr): byte {
    if IsTcp(hdr) then TCP else UDP
  }

  /** The header describes a packet of `size` bytes, and the checksum field lies in the transport header. */
  predicate Inside(hdr: VirtioHdr, size: nat, isV6: bool) {
    && AddrEnd(isV6) <= hdr.csumStart
    && hdr.csumStart + (if IsTcp(hdr) then 20 else 8) <= hdr.hdrLen <= size <= MAX16
    && hdr.gsoSize <= MAX16
    && hdr.csumStart + hdr.csumOffset + 2 <= hdr.hdrLen
  }

  /** Moreover, the checksum field is on a 16-bit boundary and apart from the fields that are rewritten per segment. */
  predicate WellFormed(hdr: VirtioHdr, size: nat, isV6: bool) {
    && Inside(hdr, size, isV6)
    && hdr.csumOffset % 2 == 0
    && (if IsTcp(hdr) then hdr.csumOffset <= 2 || (hdr.csumOffset >= 8 && hdr.csumOffset != 12)
        else hdr.csumOffset != 4)
  }

  function DataAt(hdr: VirtioHdr, k: nat): nat {
    hdr.hdrLen + Off(hdr.gsoSize, k)
  }

  function DataEnd(hdr: VirtioHdr, k: nat, size: nat): nat {
    if DataAt(hdr, k) + hdr.gsoSize > size then size else DataAt(hdr, k) + hdr.gsoSize
  }

  /** The size of segment `k` with its headers. */
  function SegmentSize(hdr: VirtioHdr, k: nat, size: nat): (n: nat)
    requires DataAt(hdr, k) <= size
  {
    hdr.hdrLen + DataEnd(hdr, k, size) - DataAt(hdr, k)
  }

  /** `&^ (FIN|PSH)` */
  function ClearFinPsh(flags: byte): byte {
    flags - (flags % 2) - 8 * ((flags / 8) % 2)
  }

  /** Header bytes that a segment does not take over from the input. */
  predicate Rewritten(hdr: VirtioHdr, isV6: bool, p: nat) {
    || p == hdr.csumStart + hdr.csumOffset || p == hdr.csumStart + hdr.csumOffset + 1
    || (if isV6 then 4 <= p < 6 else 2 <= p < 6 || 10 <= p < 12)
    || (if IsTcp(hdr) then hdr.csumStart + 4 <= p < hdr.csumStart + 8 || p == hdr.csumStart + 13
        else hdr.csumStart + 4 <= p < hdr.csumStart + 6)
  }

  /** What the network layer of segment `k` says about itself. */
  ghost predicate IpFields(pkt: seq<byte>, hdr: VirtioHdr, isV6: bool, k: nat, seg: seq<byte>)
    requires Inside(hdr, |pkt|, isV6) && |seg| >= hdr.hdrLen
  {
    if isV6 then
      U16(seg, 4) == |seg| - hdr.csumStart
    else
      && U16(seg, 2) == |seg|
      && U16(seg, 4) == (U16(pkt, 4) + k) % TWO16
      && Rep(Sum16(seg[..hdr.csumStart])) == MAX16
  }

  /** What the transport layer of segment `k` says about itself. */
  ghost predicate TransportFields(pkt: seq<byte>, hdr: VirtioHdr, isV6: bool, k: nat, seg: seq<byte>)
    requires Inside(hdr, |pkt|, isV6) && |seg| >= hdr.hdrLen
  {
    if IsTcp(hdr) then
      && U32(seg, hdr.csumStart + 4) == Wrap32(U32(pkt, hdr.csumStart + 4) + Off(hdr.gsoSize, k))
      && seg[hdr.csumStart + 13] == (if DataEnd(hdr, k, |pkt|) == |pkt| then pkt[hdr.csumStart + 13] else ClearFinPsh(pkt[hdr.csumStart + 13]))
    else
      U16(seg, hdr.csumStart + 4) == |seg| - hdr.csumStart
  }

  /** `seg` carries the `k`-th share of the payload of `pkt` under a header that says so. */
  ghost predicate Carries(pkt: seq<byte>, hdr: VirtioHdr, isV6: bool, k: nat, seg: seq<byte>)
    requires WellFormed(hdr, |pkt|, isV6)
  {
    && DataAt(hdr, k) <= |pkt|
    && |seg| == hdr.hdrLen + DataEnd(hdr, k, |pkt|) - DataAt(hdr, k)
    && seg[hdr.hdrLen..] == pkt[DataAt(hdr, k)..DataEnd(hdr, k, |pkt|)]
    && (forall p :: 0 <= p < hdr.hdrLen && !Rewritten(hdr, isV6, p) ==> seg[p] == pkt[p])
    && IpFields(pkt, hdr, isV6, k, seg)
    && TransportFields(pkt, hdr, isV6, k, seg)
  }

  /** `seg` is the `k`-th segment of `pkt`, with a valid transport checksum. */
  ghost predicate IsSegment(pkt: seq<byte>, hdr: VirtioHdr, isV6: bool, k: nat, seg: seq<byte>)
    requires WellFormed(hdr, |pkt|, isV6)
  {
    Carries(pkt, hdr, isV6, k, seg) && ChecksumValid(seg, hdr.csumStart, Proto(hdr), isV6)
  }

  /** The input with both checksum fields cleared. */
  ghost predicate Cleared(pkt: seq<byte>, hdr: VirtioHdr, isV6: bool, c: seq<byte>)
    requires Inside(hdr, |pkt|, isV6)
  {
    var o := hdr.csumStart + hdr.csumOffset;
    && |c| == |pkt|
    && c[o] == 0 && c[o + 1] == 0
    && (!isV6 ==> c[10] == 0 && c[11] == 0)
    && forall p :: 0 <= p < |pkt| && p != o && p != o + 1 && (isV6 || (p != 10 && p != 11)) ==> c[p] == pkt[p]
  }

  /** Puts the header checksum into an IPv4 header whose checksum field is cleared. */
  method FillIpv4Checksum(little: bool, bare: seq<byte>) returns (out: seq<byte>)
    requires |bare| >= 12 && U16(bare, 10) == 0
    ensures |out| == |bare| && Rep(Sum16(out)) == MAX16
    ensures forall p :: 0 <= p < |bare| && p != 10 && p != 11 ==> out[p] == bare[p]
  {
    hide Sum16, Rep, Put16, U16;
    var c := Checksum(little, bare, 0);
    out := Put16(bare, 10, MAX16 - c);
    Sum16Put(bare, 10, MAX16 - c);
    ComplementCompletes(Sum16(bare));
  }

  lemma NextId(id: nat, k: nat)
    requires id < TWO16
    ensures (id + k % TWO16) % TWO16 == (id + k) % TWO16
  {
  }

  /** The IP header of segment `k`, with its length, identifier and header checksum. */
  method BuildIpHeader(little: bool, input: seq<byte>, iphLen: nat, isV6: bool, k: nat, totalLen: nat) returns (out: seq<byte>)
    requires AddrEnd(isV6) <= iphLen <= |input| && iphLen <= totalLen <= MAX16
    requires !isV6 ==> input[10] == 0 && input[11] == 0
    ensures |out| == iphLen && IsIpPart(input, iphLen, isV6, k, totalLen, out)
  {
    hide Sum16, Rep, Put16, U16;
    if isV6 {
      out := Put16(input[..iphLen], 4, (totalLen - iphLen) % TWO16);
      return;
    }
    out := input[..iphLen];
    U16Frame(out, input, 4);
    if k > 0 {
      var id := U16(out, 4);
      out := Put16(out, 4, (id + k % TWO16) % TWO16);
      NextId(id, k);
    }
    ghost var numbered := out;
    out := Put16(out, 2, totalLen % TWO16);
    U16Frame(out, numbered, 4);
    ghost var bare := out;
    ZeroField(bare, 10);
    out := FillIpv4Checksum(little, out);
    U16Frame(out, bare, 2);
    U16Frame(out, bare, 4);
  }

  lemma ZeroField(b: seq<byte>, at: nat)
    requires at + 2 <= |b| && b[at] == 0 && b[at + 1] == 0
    ensures U16(b, at) == 0
  {
  }

  /** The transport header of segment `k`: sequence number and flags, or datagram length. */
  method BuildTransportHeader(input: seq<byte>, hdr: VirtioHdr, isV6: bool, k: nat, last: bool, dataLen: nat)
    returns (out: seq<byte>)
    requires Inside(hdr, |input|, isV6) && Off(hdr.gsoSize, k) <= MAX16 && hdr.hdrLen + dataLen <= MAX16
    ensures |out| == hdr.hdrLen - hdr.csumStart && IsTransportPart(input, hdr, isV6, k, last, dataLen, out)
  {
    hide Put16, Put32, Off, U32, ClearFinPsh, Wrap32;
    out := input[hdr.csumStart..hdr.hdrLen];
    if IsTcp(hdr) {
      // uint32(hdr.gsoSize*uint16(i)): the 16-bit product is exact
      var product := hdr.gsoSize * (k % TWO16) % TWO16;
      OffIsProduct(hdr.gsoSize, k);
      ProductFits(hdr.gsoSize, k);
      out := SetTcpFields(out, Wrap32(U32(input, hdr.csumStart + 4) + product), last);
    } else {
      out := Put16(out, 4, (dataLen + (hdr.hdrLen - hdr.csumStart)) % TWO16);
    }
  }

  method SetTcpFields(th: seq<byte>, tcpSeq: nat, last: bool) returns (out: seq<byte>)
    requires |th| >= 20 && tcpSeq < TWO32
    ensures |out| == |th| && U32(out, 4) == tcpSeq
    ensures forall p :: 0 <= p < |out| && !(4 <= p < 8) && p != 13 ==> out[p] == th[p]
    ensures out[13] == if last then th[13] else ClearFinPsh(th[13])
  {
    hide Put32, ClearFinPsh;
    out := Put32(th, 4, tcpSeq);
    if !last {
      out := out[13 := ClearFinPsh(out[13])];
    }
  }

  lemma ProductFits(g: nat, k: nat)
    requires k * g <= MAX16
    ensures g * (k % TWO16) % TWO16 == k * g
  {
    if g == 0 {
      assert g * (k % TWO16) == 0;
    } else {
      assert k <= k * g;
      assert k % TWO16 == k;
    }
  }

  /** Headers and payload joined, before the transport checksum is filled in. */
  ghost predicate IsBare(c: seq<byte>, hdr: VirtioHdr, isV6: bool, k: nat, bare: seq<byte>)
    requires Inside(hdr, |c|, isV6)
  {
    && DataAt(hdr, k) <= |c|
    && |bare| == hdr.hdrLen + DataEnd(hdr, k, |c|) - DataAt(hdr, k)
    && bare[hdr.hdrLen..] == c[DataAt(hdr, k)..DataEnd(hdr, k, |c|)]
    && (forall p :: 0 <= p < hdr.hdrLen && !RewrittenBare(hdr, isV6, p) ==> bare[p] == c[p])
    && IpFields(c, hdr, isV6, k, bare)
    && TransportFields(c, hdr, isV6, k, bare)
  }

  predicate RewrittenBare(hdr: VirtioHdr, isV6: bool, p: nat) {
    || (if isV6 then 4 <= p < 6 else 2 <= p < 6 || 10 <= p < 12)
    || (if IsTcp(hdr) then hdr.csumStart + 4 <= p < hdr.csumStart + 8 || p == hdr.csumStart + 13
        else hdr.csumStart + 4 <= p < hdr.csumStart + 6)
  }

  /** The two header parts of segment `k`. */
  ghost predicate IsIpPart(c: seq<byte>, iphLen: nat, isV6: bool, k: nat, totalLen: nat, ip: seq<byte>)
    requires AddrEnd(isV6) <= iphLen <= |c|
  {
    && |ip| == iphLen
    && (forall p :: 0 <= p < iphLen && !(if isV6 then 4 <= p < 6 else 2 <= p < 6 || 10 <= p < 12) ==> ip[p] == c[p])
    && (isV6 ==> U16(ip, 4) == totalLen - iphLen)
    && (!isV6 ==> U16(ip, 2) == totalLen && U16(ip, 4) == (U16(c, 4) + k) % TWO16 && Rep(Sum16(ip)) == MAX16)
  }

  ghost predicate IsTransportPart(c: seq<byte>, hdr: VirtioHdr, isV6: bool, k: nat, last: bool, dataLen: nat, th: seq<byte>)
    requires Inside(hdr, |c|, isV6)
  {
    && |th| == hdr.hdrLen - hdr.csumStart
    && (forall p :: 0 <= p < |th| && !(if IsTcp(hdr) then 4 <= p < 8 || p == 13 else 4 <= p < 6) ==> th[p] == c[hdr.csumStart + p])
    && (IsTcp(hdr) ==>
          && U32(th, 4) == Wrap32(U32(c, hdr.csumStart + 4) + Off(hdr.gsoSize, k))
          && th[13] == (if last then c[hdr.csumStart + 13] else ClearFinPsh(c[hdr.csumStart + 13])))
    && (!IsTcp(hdr) ==> U16(th, 4) == dataLen + |th|)
  }

  lemma JoinedBytes(c: seq<byte>, hdr: VirtioHdr, isV6: bool, k: nat, n: nat, last: bool, ip: seq<byte>, th: seq<byte>, data: seq<byte>, p: nat)
    requires Inside(hdr, |c|, isV6) && IsIpPart(c, hdr.csumStart, isV6, k, n, ip)
    requires IsTransportPart(c, hdr, isV6, k, last, |data|, th)
    requires p < hdr.hdrLen && !RewrittenBare(hdr, isV6, p)
    ensures (ip + th + data)[p] == c[p]
  {
    hide Off, Sum16, Rep, U16, U32;
    if p >= hdr.csumStart {
      assert th[p - hdr.csumStart] == c[hdr.csumStart + (p - hdr.csumStart)];
    }
  }

  lemma JoinedIp(c: seq<byte>, hdr: VirtioHdr, isV6: bool, k: nat, ip: seq<byte>, th: seq<byte>, data: seq<byte>)
    requires Inside(hdr, |c|, isV6) && |th| == hdr.hdrLen - hdr.csumStart
    requires IsIpPart(c, hdr.csumStart, isV6, k, |ip + th + data|, ip)
    ensures IpFields(c, hdr, isV6, k, ip + th + data)
  {
    hide Off, Sum16, Rep, IsTransportPart;
    assert (ip + th + data)[..hdr.csumStart] == ip;
  }

  lemma JoinedTransport(c: seq<byte>, hdr: VirtioHdr, isV6: bool, k: nat, ip: seq<byte>, th: seq<byte>, data: seq<byte>)
    requires Inside(hdr, |c|, isV6) && |ip| == hdr.csumStart
    requires IsTransportPart(c, hdr, isV6, k, DataEnd(hdr, k, |c|) == |c|, |data|, th)
    ensures TransportFields(c, hdr, isV6, k, ip + th + data)
  {
    hide Off, U16, U32;
    JoinedFields(ip, th, data);
  }

  lemma JoinedFields(ip: seq<byte>, th: seq<byte>, data: seq<byte>)
    requires |th| >= 8
    ensures var b := ip + th + data;
      && U16(b, |ip| + 4) == U16(th, 4) && U32(b, |ip| + 4) == U32(th, 4)
      && (|th| >= 14 ==> b[|ip| + 13] == th[13])
  {
  }

  method BuildBare(little: bool, c: seq<byte>, hdr: VirtioHdr, isV6: bool, k: nat) returns (bare: seq<byte>)
    requires Inside(hdr, |c|, isV6) && DataAt(hdr, k) < |c|
    requires !isV6 ==> c[10] == 0 && c[11] == 0
    ensures IsBare(c, hdr, isV6, k, bare)
  {
    hide Off, IsIpPart, IsTransportPart, IpFields, TransportFields, RewrittenBare, U16;
    var at, end := DataAt(hdr, k), DataEnd(hdr, k, |c|);
    var data := c[at..end];
    var totalLen := hdr.hdrLen + end - at;
    var ip := BuildIpHeader(little, c, hdr.csumStart, isV6, k, totalLen);
    var th := BuildTransportHeader(c, hdr, isV6, k, end == |c|, end - at);
    bare := ip + th + data;
    forall p | 0 <= p < hdr.hdrLen && !RewrittenBare(hdr, isV6, p) ensures bare[p] == c[p] {
      JoinedBytes(c, hdr, isV6, k, totalLen, end == |c|, ip, th, data, p);
    }
    JoinedIp(c, hdr, isV6, k, ip, th, data);
    JoinedTransport(c, hdr, isV6, k, ip, th, data);
  }

  /** The transport checksum of a segment whose checksum field is cleared. */
  method TransportChecksum(little: bool, bare: seq<byte>, hdr: VirtioHdr, isV6: bool) returns (v: nat)
    requires AddrEnd(isV6) <= hdr.csumStart <= |bare|
    ensures v == Complement(bare, hdr, isV6)
  {
    hide Cong, Sum16, Rep, PseudoHeader;
    var lenForPseudo := (|bare| - hdr.csumStart) % TWO16;
    var src, dst := SrcAddr(bare, isV6), DstAddr(bare, isV6);
    var sum := PseudoHeaderChecksumNoFold(little, Proto(hdr), src, dst, lenForPseudo);
    var cSum := Checksum(little, bare[hdr.csumStart..], sum);
    RepCongSum(sum, Sum16(PseudoHeader(Proto(hdr), src, dst, lenForPseudo)), Sum16(bare[hdr.csumStart..]));
    v := MAX16 - cSum;
  }

  /** `seg` is what the splitting loop makes of the cleared input `c` in iteration `k`. */
  ghost predicate Filled(c: seq<byte>, hdr: VirtioHdr, isV6: bool, k: nat, seg: seq<byte>)
    requires Inside(hdr, |c|, isV6)
  {
    exists bare :: IsBare(c, hdr, isV6, k, bare) && seg == Put16(bare, hdr.csumStart + hdr.csumOffset, Complement(bare, hdr, isV6))
  }

  /** One iteration of the splitting loop, from the cleared input. */
  method BuildSegment(little: bool, c: seq<byte>, hdr: VirtioHdr, isV6: bool, k: nat) returns (seg: seq<byte>)
    requires Inside(hdr, |c|, isV6) && DataAt(hdr, k) < |c|
    requires !isV6 ==> c[10] == 0 && c[11] == 0
    ensures Filled(c, hdr, isV6, k, seg) && |seg| == SegmentSize(hdr, k, |c|)
  {
    hide IpFields, TransportFields, Complement, Put16, Off;
    var bare := BuildBare(little, c, hdr, isV6, k);
    var v := TransportChecksum(little, bare, hdr, isV6);
    seg := Put16(bare, hdr.csumStart + hdr.csumOffset, v);
  }

  /** With a well-formed header that is a segment of the input. */
  lemma FilledIsSegment(pkt: seq<byte>, c: seq<byte>, hdr: VirtioHdr, isV6: bool, k: nat, seg: seq<byte>)
    requires WellFormed(hdr, |pkt|, isV6) && Cleared(pkt, hdr, isV6, c) && Filled(c, hdr, isV6, k, seg)
    ensures IsSegment(pkt, hdr, isV6, k, seg)
  {
    hide IpFields, TransportFields, IsSegment, Complement, Put16, Off;
    var bare :| IsBare(c, hdr, isV6, k, bare) && seg == Put16(bare, hdr.csumStart + hdr.csumOffset, Complement(bare, hdr, isV6));
    CompletedSegment(pkt, c, hdr, isV6, k, bare);
  }

  /** The complement of the transport sum of a segment. */
  function Complement(bare: seq<byte>, hdr: VirtioHdr, isV6: bool): (v: nat)
    requires AddrEnd(isV6) <= hdr.csumStart <= |bare|
    ensures v < TWO16
  {
    MAX16 - Rep(TransportSum(bare, hdr.csumStart, Proto(hdr), isV6))
  }

  lemma CompletedSegment(pkt: seq<byte>, c: seq<byte>, hdr: VirtioHdr, isV6: bool, k: nat, bare: seq<byte>)
    requires WellFormed(hdr, |pkt|, isV6) && Cleared(pkt, hdr, isV6, c) && IsBare(c, hdr, isV6, k, bare)
    ensures IsSegment(pkt, hdr, isV6, k, Put16(bare, hdr.csumStart + hdr.csumOffset, Complement(bare, hdr, isV6)))
  {
    hide IpFields, TransportFields, Carries, Complement, ChecksumValid, Put16, Off;
    FilledCarries(pkt, c, hdr, isV6, k, bare, Complement(bare, hdr, isV6));
    ClearedField(pkt, c, hdr, isV6, k, bare);
  }

  lemma FilledFieldIsValid(bare: seq<byte>, hdr: VirtioHdr, isV6: bool)
    requires AddrEnd(isV6) <= hdr.csumStart && hdr.csumStart + hdr.csumOffset + 2 <= |bare| && hdr.csumOffset % 2 == 0
    requires U16(bare, hdr.csumStart + hdr.csumOffset) == 0
    ensures ChecksumValid(Put16(bare, hdr.csumStart + hdr.csumOffset, Complement(bare, hdr, isV6)), hdr.csumStart, Proto(hdr), isV6)
  {
    hide ChecksumValid, TransportSum, Rep, Put16;
    FilledIsValid(bare, hdr.csumStart, Proto(hdr), isV6, hdr.csumOffset, Complement(bare, hdr, isV6));
  }

  lemma ClearedField(pkt: seq<byte>, c: seq<byte>, hdr: VirtioHdr, isV6: bool, k: nat, bare: seq<byte>)
    requires WellFormed(hdr, |pkt|, isV6) && Cleared(pkt, hdr, isV6, c) && IsBare(c, hdr, isV6, k, bare)
    ensures ChecksumValid(Put16(bare, hdr.csumStart + hdr.csumOffset, Complement(bare, hdr, isV6)), hdr.csumStart, Proto(hdr), isV6)
  {
    hide IpFields, TransportFields, ChecksumValid, Put16, Complement, Off;
    var o := hdr.csumStart + hdr.csumOffset;
    assert !RewrittenBare(hdr, isV6, o) && !RewrittenBare(hdr, isV6, o + 1);
    FilledFieldIsValid(bare, hdr, isV6);
  }

  lemma FilledCarries(pkt: seq<byte>, c: seq<byte>, hdr: VirtioHdr, isV6: bool, k: nat, bare: seq<byte>, v: nat)
    requires WellFormed(hdr, |pkt|, isV6) && Cleared(pkt, hdr, isV6, c) && IsBare(c, hdr, isV6, k, bare) && v < TWO16
    ensures Carries(pkt, hdr, isV6, k, Put16(bare, hdr.csumStart + hdr.csumOffset, v))
  {
    hide Off, IpFields, TransportFields, Put16;
    var seg := Put16(bare, hdr.csumStart + hdr.csumOffset, v);
    assert seg[hdr.hdrLen..] == bare[hdr.hdrLen..];
    assert c[DataAt(hdr, k)..DataEnd(hdr, k, |c|)] == pkt[DataAt(hdr, k)..DataEnd(hdr, k, |pkt|)];
    FilledIp(pkt, c, hdr, isV6, k, bare, v);
    FilledTransport(pkt, c, hdr, isV6, k, bare, v);
  }

  lemma FilledIp(pkt: seq<byte>, c: seq<byte>, hdr: VirtioHdr, isV6: bool, k: nat, bare: seq<byte>, v: nat)
    requires WellFormed(hdr, |pkt|, isV6) && Cleared(pkt, hdr, isV6, c) && IsBare(c, hdr, isV6, k, bare) && v < TWO16
    ensures IpFields(pkt, hdr, isV6, k, Put16(bare, hdr.csumStart + hdr.csumOffset, v))
  {
    hide Off, TransportFields, Put16, Sum16, Rep, U16;
    var seg := Put16(bare, hdr.csumStart + hdr.csumOffset, v);
    assert seg[..hdr.csumStart] == bare[..hdr.csumStart];
    U16Frame(seg, bare, 2);
    U16Frame(seg, bare, 4);
    U16Frame(c, pkt, 4);
  }

  lemma FilledTransport(pkt: seq<byte>, c: seq<byte>, hdr: VirtioHdr, isV6: bool, k: nat, bare: seq<byte>, v: nat)
    requires WellFormed(hdr, |pkt|, isV6) && Cleared(pkt, hdr, isV6, c) && IsBare(c, hdr, isV6, k, bare) && v < TWO16
    ensures TransportFields(pkt, hdr, isV6, k, Put16(bare, hdr.csumStart + hdr.csumOffset, v))
  {
    hide Off, IpFields, Put16, ClearFinPsh;
  }

  lemma NextAt(hdr: VirtioHdr, k: nat)
    ensures DataAt(hdr, k + 1) == DataAt(hdr, k) + hdr.gsoSize && DataAt(hdr, 0) == hdr.hdrLen
  {
  }

  /** Copies `seg` into a buffer. */
  function Overwrite(buf: seq<byte>, at: nat, seg: seq<byte>): (r: seq<byte>)
    requires at + |seg| <= |buf|
    ensures |r| == |buf| && r[..at] == buf[..at] && r[at..at + |seg|] == seg && r[at + |seg|..] == buf[at + |seg|..]
  {
    buf[..at] + seg + buf[at + |seg|..]
  }

  /** The input with both checksum fields cleared. */
  function ClearedOf(pkt: seq<byte>, hdr: VirtioHdr, isV6: bool): (c: seq<byte>)
    requires Inside(hdr, |pkt|, isV6)
    ensures Cleared(pkt, hdr, isV6, c) && |c| == |pkt|
  {
    var o := hdr.csumStart + hdr.csumOffset;
    (if isV6 then pkt else pkt[10 := 0][11 := 0])[o := 0][o + 1 := 0]
  }

  // ----- All segments together

  /** `segs` is everything a successful split of `pkt` puts out. */
  ghost predicate SplitsInto(pkt: seq<byte>, hdr: VirtioHdr, isV6: bool, segs: seq<seq<byte>>)
    requires WellFormed(hdr, |pkt|, isV6)
  {
    && DataAt(hdr, |segs|) >= |pkt|
    && (|segs| > 0 ==> DataAt(hdr, |segs| - 1) < |pkt|)
    && forall k :: 0 <= k < |segs| ==> IsSegment(pkt, hdr, isV6, k, segs[k])
  }

  /** The first `n` buffers, each from the offset on for its size. */
  ghost function Slices(bufs: seq<seq<byte>>, sizes: seq<nat>, outOffset: nat, n: nat): (segs: seq<seq<byte>>)
    requires n <= |bufs| && n <= |sizes| && forall k :: 0 <= k < n ==> outOffset + sizes[k] <= |bufs[k]|
    ensures |segs| == n && forall k :: 0 <= k < n ==> segs[k] == bufs[k][outOffset..outOffset + sizes[k]]
  {
    seq(n, k requires 0 <= k < n => bufs[k][outOffset..outOffset + sizes[k]])
  }

  /** The buffers that are written to have room for their segments, and a place for their sizes. */
  ghost predicate Room(hdr: VirtioHdr, size: nat, bufs: seq<seq<byte>>, places: nat, outOffset: nat) {
    forall k :: 0 <= k < |bufs| && DataAt(hdr, k) < size ==> k < places && outOffset + SegmentSize(hdr, k, size) <= |bufs[k]|
  }

  /** The first `m` buffers hold what the loop makes of `c`; apart from that nothing has changed. */
  ghost predicate Written(c: seq<byte>, hdr: VirtioHdr, isV6: bool, was: seq<seq<byte>>, bufs: seq<seq<byte>>, sizes: seq<nat>, outOffset: nat, m: nat)
    requires Inside(hdr, |c|, isV6)
  {
    && m <= |bufs| == |was| && m <= |sizes|
    && (forall k :: 0 <= k < m ==>
          && outOffset + sizes[k] <= |bufs[k]| && Filled(c, hdr, isV6, k, bufs[k][outOffset..outOffset + sizes[k]])
          && |bufs[k]| == |was[k]| && bufs[k][..outOffset] == was[k][..outOffset]
          && bufs[k][outOffset + sizes[k]..] == was[k][outOffset + sizes[k]..])
    && (forall k :: m <= k < |bufs| ==> bufs[k] == was[k])
  }

  /** Splits `input` into the buffers; `err` when they are too few, in which case all are filled and one less
    than their number is reported. With a well-formed header, the buffers hold the segments of the input. */
  method GsoSplit(little: bool, input: array<byte>, hdr: VirtioHdr, outBuffs: array<seq<byte>>, sizes: array<nat>,
                  outOffset: nat, isV6: bool) returns (n: int, err: bool)
    requires Inside(hdr, input.Length, isV6) && Room(hdr, input.Length, outBuffs[..], sizes.Length, outOffset)
    modifies input, outBuffs, sizes
    ensures err ==> n == outBuffs.Length - 1 && DataAt(hdr, outBuffs.Length) < input.Length
    ensures !err ==> 0 <= n <= outBuffs.Length && DataAt(hdr, n) >= input.Length
    ensures !err && n > 0 ==> DataAt(hdr, n - 1) < input.Length
    ensures Written(old(ClearedOf(input[..], hdr, isV6)), hdr, isV6, old(outBuffs[..]), outBuffs[..], sizes[..], outOffset,
                    if err then outBuffs.Length else n)
    ensures !err && WellFormed(hdr, input.Length, isV6) ==>
      SplitsInto(old(input[..]), hdr, isV6, Slices(outBuffs[..], sizes[..], outOffset, n))
  {
    hide IsSegment, Off, Filled, Inside, ClearedOf;
    ghost var pkt := input[..];
    var c := ClearFields(input, hdr, isV6);
    n, err := SplitCleared(little, c, hdr, outBuffs, sizes, outOffset, isV6);
    if !err && WellFormed(hdr, |pkt|, isV6) {
      WrittenSplits(pkt, c, hdr, isV6, old(outBuffs[..]), outBuffs[..], sizes[..], outOffset, n);
    }
  }

  lemma WrittenSplits(pkt: seq<byte>, c: seq<byte>, hdr: VirtioHdr, isV6: bool, was: seq<seq<byte>>, bufs: seq<seq<byte>>, sizes: seq<nat>,
                      outOffset: nat, n: nat)
    requires WellFormed(hdr, |pkt|, isV6) && Cleared(pkt, hdr, isV6, c) && |c| == |pkt|
    requires Written(c, hdr, isV6, was, bufs, sizes, outOffset, n)
    requires DataAt(hdr, n) >= |pkt| && (n > 0 ==> DataAt(hdr, n - 1) < |pkt|)
    ensures SplitsInto(pkt, hdr, isV6, Slices(bufs, sizes, outOffset, n))
  {
    hide IsSegment, Off, Filled, Cleared;
    var segs := Slices(bufs, sizes, outOffset, n);
    forall k | 0 <= k < n ensures IsSegment(pkt, hdr, isV6, k, segs[k]) {
      FilledIsSegment(pkt, c, hdr, isV6, k, segs[k]);
    }
  }

  /** Clears the checksum fields in place. */
  method ClearFields(input: array<byte>, hdr: VirtioHdr, isV6: bool) returns (c: seq<byte>)
    requires Inside(hdr, input.Length, isV6)
    modifies input
    ensures c == input[..] == ClearedOf(old(input[..]), hdr, isV6)
  {
    if !isV6 {
      input[10], input[11] := 0, 0;
    }
    var transportCsumAt := (hdr.csumStart + hdr.csumOffset) % TWO16;
    input[transportCsumAt], input[transportCsumAt + 1] := 0, 0;
    c := input[..];
  }

  lemma NothingWritten(c: seq<byte>, hdr: VirtioHdr, isV6: bool, bufs: seq<seq<byte>>, sizes: seq<nat>, outOffset: nat)
    requires Inside(hdr, |c|, isV6)
    ensures Written(c, hdr, isV6, bufs, bufs, sizes, outOffset, 0)
  {
  }

  lemma WrittenOnly(c: seq<byte>, hdr: VirtioHdr, isV6: bool, was: seq<seq<byte>>, bufs: seq<seq<byte>>, sizes: seq<nat>, outOffset: nat, i: nat)
    requires Inside(hdr, |c|, isV6) && Written(c, hdr, isV6, was, bufs, sizes, outOffset, i) && i < |bufs|
    ensures |was| == |bufs| && bufs[i] == was[i]
  {
    hide Filled, Inside;
  }

  lemma WrittenNext(c: seq<byte>, hdr: VirtioHdr, isV6: bool, was: seq<seq<byte>>, bufs: seq<seq<byte>>, sizes: seq<nat>, outOffset: nat, i: nat,
                    seg: seq<byte>)
    requires Inside(hdr, |c|, isV6) && Written(c, hdr, isV6, was, bufs, sizes, outOffset, i) && i < |bufs| && i < |sizes|
    requires Filled(c, hdr, isV6, i, seg) && outOffset + |seg| <= |bufs[i]|
    ensures Written(c, hdr, isV6, was, bufs[i := Overwrite(bufs[i], outOffset, seg)], sizes[i := |seg|], outOffset, i + 1)
  {
    hide Filled, Inside, Overwrite;
  }

  /** The splitting loop. */
  method SplitCleared(little: bool, c: seq<byte>, hdr: VirtioHdr, outBuffs: array<seq<byte>>, sizes: array<nat>,
                      outOffset: nat, isV6: bool) returns (n: int, err: bool)
    requires Inside(hdr, |c|, isV6) && Room(hdr, |c|, outBuffs[..], sizes.Length, outOffset) && (!isV6 ==> c[10] == 0 && c[11] == 0)
    modifies outBuffs, sizes
    ensures err ==> n == outBuffs.Length - 1 && DataAt(hdr, outBuffs.Length) < |c|
    ensures !err ==> 0 <= n <= outBuffs.Length && DataAt(hdr, n) >= |c|
    ensures !err && n > 0 ==> DataAt(hdr, n - 1) < |c|
    ensures Written(c, hdr, isV6, old(outBuffs[..]), outBuffs[..], sizes[..], outOffset, if err then outBuffs.Length else n)
  {
    hide Filled, Off, Overwrite, Inside, DataAt, SegmentSize, Written;
    ghost var was := outBuffs[..];
    NothingWritten(c, hdr, isV6, was, sizes[..], outOffset);
    var nextSegmentDataAt := hdr.hdrLen;
    NextAt(hdr, 0);
    var i := 0;
    while nextSegmentDataAt < |c|
      invariant 0 <= i <= outBuffs.Length && i <= sizes.Length && nextSegmentDataAt == DataAt(hdr, i)
      invariant i > 0 ==> DataAt(hdr, i - 1) < |c|
      invariant Written(c, hdr, isV6, was, outBuffs[..], sizes[..], outOffset, i)
      decreases outBuffs.Length - i
    {
      if i == outBuffs.Length {
        return i - 1, true;
      }
      ghost var bufs: seq<seq<byte>>, before: seq<nat> := outBuffs[..], sizes[..];
      WrittenOnly(c, hdr, isV6, was, bufs, before, outOffset, i);
      var seg := BuildSegment(little, c, hdr, isV6, i);
      sizes[i] := |seg|;
      outBuffs[i] := Overwrite(outBuffs[i], outOffset, seg);
      assert outBuffs[..] == bufs[i := Overwrite(bufs[i], outOffset, seg)] && sizes[..] == before[i := |seg|];
      WrittenNext(c, hdr, isV6, was, bufs, before, outOffset, i, seg);
      NextAt(hdr, i);
      nextSegmentDataAt := nextSegmentDataAt + hdr.gsoSize;
      i := i + 1;
    }
    return i, false;
  }

  /** The payloads behind headers of length `h`, joined. */
  ghost function Payloads(segs: seq<seq<byte>>, h: nat): seq<byte> {
    if segs == [] then []
    else Payloads(segs[..|segs| - 1], h) + var s := segs[|segs| - 1]; if h <= |s| then s[h..] else []
  }

  lemma SegmentShare(pkt: seq<byte>, hdr: VirtioHdr, isV6: bool, segs: seq<seq<byte>>, k: nat)
    requires WellFormed(hdr, |pkt|, isV6) && SplitsInto(pkt, hdr, isV6, segs) && k < |segs|
    ensures hdr.hdrLen <= DataAt(hdr, k) <= DataEnd(hdr, k, |pkt|) <= |pkt|
    ensures hdr.hdrLen <= |segs[k]| && segs[k][hdr.hdrLen..] == pkt[DataAt(hdr, k)..DataEnd(hdr, k, |pkt|)]
    ensures DataEnd(hdr, k, |pkt|) == if DataAt(hdr, k + 1) > |pkt| then |pkt| else DataAt(hdr, k + 1)
    ensures DataAt(hdr, k) <= |pkt|
  {
    hide IpFields, TransportFields, ChecksumValid, Off, WellFormed;
    assert IsSegment(pkt, hdr, isV6, k, segs[k]);
    NextAt(hdr, k);
    OffMonotone(hdr.gsoSize, k, |segs| - 1);
  }

  lemma {:induction false} PayloadsUpTo(pkt: seq<byte>, hdr: VirtioHdr, isV6: bool, segs: seq<seq<byte>>, n: nat)
    requires WellFormed(hdr, |pkt|, isV6) && SplitsInto(pkt, hdr, isV6, segs) && n <= |segs|
    ensures hdr.hdrLen <= |pkt| && hdr.hdrLen <= DataAt(hdr, n)
    ensures Payloads(segs[..n], hdr.hdrLen) == pkt[hdr.hdrLen..if DataAt(hdr, n) > |pkt| then |pkt| else DataAt(hdr, n)]
  {
    hide SplitsInto, WellFormed, Off, DataEnd;
    HeaderWithin(pkt, hdr, isV6);
    if n == 0 {
      NextAt(hdr, 0);
    } else {
      PayloadsUpTo(pkt, hdr, isV6, segs, n - 1);
      SegmentShare(pkt, hdr, isV6, segs, n - 1);
      NextAt(hdr, n - 1);
      assert segs[..n][..n - 1] == segs[..n - 1];
      var at, end := DataAt(hdr, n - 1), DataEnd(hdr, n - 1, |pkt|);
      assert pkt[hdr.hdrLen..at] + pkt[at..end] == pkt[hdr.hdrLen..end];
    }
  }

  lemma HeaderWithin(pkt: seq<byte>, hdr: VirtioHdr, isV6: bool)
    requires WellFormed(hdr, |pkt|, isV6)
    ensures hdr.hdrLen <= |pkt|
  {
  }

  /** Splitting loses and duplicates no payload byte. */
  lemma SplitConserves(pkt: seq<byte>, hdr: VirtioHdr, isV6: bool, segs: seq<seq<byte>>)
    requires WellFormed(hdr, |pkt|, isV6) && SplitsInto(pkt, hdr, isV6, segs)
    ensures Payloads(segs, hdr.hdrLen) == pkt[hdr.hdrLen..]
  {
    hide IsSegment, Off, WellFormed, Payloads;
    PayloadsUpTo(pkt, hdr, isV6, segs, |segs|);
    assert segs[..|segs|] == segs;
    HeaderWithin(pkt, hdr, isV6);
    assert pkt[hdr.hdrLen..|pkt|] == pkt[hdr.hdrLen..];
  }
}
