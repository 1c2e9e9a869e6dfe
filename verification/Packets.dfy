/** Fields of IP packets as tun/offload_linux.go reads and writes them. */
module Packets {
  import opened Bytes
  import opened OnesComplement
  import opened InternetChecksum

  const TCP: byte := 6
  const UDP: byte := 17

  /** virtio_net_hdr */
  datatype VirtioHdr = VirtioHdr(flags: nat, gsoType: nat, hdrLen: nat, gsoSize: nat, csumStart: nat, csumOffset: nat)

  const GSO_NONE: nat := 0
  const GSO_TCPV4: nat := 1
  const GSO_TCPV6: nat := 4
  const GSO_UDP_L4: nat := 5
  const NEEDS_CSUM: nat := 1

  const ZERO_HDR := VirtioHdr(0, GSO_NONE, 0, 0, 0, 0)

  /** Writes a 16-bit field in network order. */
  function Put16(b: seq<byte>, at: nat, v: nat): (r: seq<byte>)
    requires at + 2 <= |b| && v < TWO16
    ensures |r| == |b| && U16(r, at) == v
    ensures forall p :: 0 <= p < |b| && p != at && p != at + 1 ==> r[p] == b[p]
  {
    b[at := v / 256][at + 1 := v % 256]
  }

  lemma U16Frame(a: seq<byte>, b: seq<byte>, at: nat)
    requires at + 2 <= |a| && at + 2 <= |b| && a[at] == b[at] && a[at + 1] == b[at + 1]
    ensures U16(a, at) == U16(b, at)
  {
  }

  function Put32(b: seq<byte>, at: nat, v: nat): (r: seq<byte>)
    requires at + 4 <= |b| && v < TWO32
    ensures |r| == |b| && U32(r, at) == v
    ensures forall p :: 0 <= p < |b| && !(at <= p < at + 4) ==> r[p] == b[p]
  {
    Put16(Put16(b, at, v / TWO16), at + 2, v % TWO16)
  }

  lemma {:induction false} Sum16Put(z: seq<byte>, o: nat, v: nat)
    requires o % 2 == 0 && o + 2 <= |z| && v < TWO16
    ensures Sum16(Put16(z, o, v)) == Sum16(z) - U16(z, o) + v
  {
    var r := Put16(z, o, v);
    if o == 0 {
      assert r[2..] == z[2..];
    } else {
      assert r[2..] == Put16(z[2..], o - 2, v);
      Sum16Put(z[2..], o - 2, v);
      assert U16(z[2..], o - 2) == U16(z, o);
    }
  }

  /** Filling a cleared checksum field with the complement makes the whole sum all ones. */
  lemma {:induction false} ComplementCompletes(s: nat)
    ensures Rep(s + (MAX16 - Rep(s))) == MAX16
  {
    if s <= MAX16 {
    } else {
      ComplementCompletes(s - MAX16);
    }
  }

  lemma RepCongSum(x: nat, s: nat, t: nat)
    requires Cong(x, s) && (x == 0 <==> s == 0)
    ensures Rep(x + t) == Rep(s + t)
  {
    hide Cong, Rep;
    CongRefl(t);
    CongAdd(x, s, t, t);
    RepCong(x + t, s + t);
  }

  // ----- Addresses and transport checksums

  function AddrAt(isV6: bool): nat {
    if isV6 then 8 else 12
  }

  function AddrLen(isV6: bool): nat {
    if isV6 then 16 else 4
  }

  function SrcAddr(pkt: seq<byte>, isV6: bool): (a: seq<byte>)
    requires AddrAt(isV6) + AddrLen(isV6) <= |pkt|
    ensures |a| == AddrLen(isV6)
  {
    pkt[AddrAt(isV6)..AddrAt(isV6) + AddrLen(isV6)]
  }

  function DstAddr(pkt: seq<byte>, isV6: bool): (a: seq<byte>)
    requires AddrAt(isV6) + 2 * AddrLen(isV6) <= |pkt|
    ensures |a| == AddrLen(isV6)
  {
    pkt[AddrAt(isV6) + AddrLen(isV6)..AddrAt(isV6) + 2 * AddrLen(isV6)]
  }

  /** The end of the address fields. */
  function AddrEnd(isV6: bool): nat {
    AddrAt(isV6) + 2 * AddrLen(isV6)
  }

  /** The plain sum a transport checksum covers: pseudo header and transport bytes. */
  function TransportSum(pkt: seq<byte>, iphLen: nat, proto: byte, isV6: bool): nat
    requires AddrEnd(isV6) <= |pkt| && iphLen <= |pkt|
  {
    Sum16(PseudoHeader(proto, SrcAddr(pkt, isV6), DstAddr(pkt, isV6), (|pkt| - iphLen) % TWO16)) + Sum16(pkt[iphLen..])
  }

  predicate ChecksumValid(pkt: seq<byte>, iphLen: nat, proto: byte, isV6: bool)
    requires AddrEnd(isV6) <= |pkt| && iphLen <= |pkt|
  {
    Rep(TransportSum(pkt, iphLen, proto, isV6)) == MAX16
  }

  /** `checksumValid` decides exactly whether the RFC 1071 sum of the segment is all ones. */
  method CheckChecksum(little: bool, pkt: seq<byte>, iphLen: nat, proto: byte, isV6: bool) returns (ok: bool)
    requires AddrEnd(isV6) <= |pkt| && iphLen <= |pkt|
    ensures ok == ChecksumValid(pkt, iphLen, proto, isV6)
    ensures ok <==> OnesSum(PseudoHeader(proto, SrcAddr(pkt, isV6), DstAddr(pkt, isV6), (|pkt| - iphLen) % TWO16) + pkt[iphLen..]) == MAX16
  {
    hide Cong, Sum16, Rep, OnesSum;
    var lenForPseudo := (|pkt| - iphLen) % TWO16;
    var cSum := PseudoHeaderChecksumNoFold(little, proto, SrcAddr(pkt, isV6), DstAddr(pkt, isV6), lenForPseudo);
    var c := Checksum(little, pkt[iphLen..], cSum);
    ok := MAX16 - c == 0;
    SumOfParts(PseudoHeader(proto, SrcAddr(pkt, isV6), DstAddr(pkt, isV6), lenForPseudo), pkt[iphLen..], cSum);
  }

  lemma SumOfParts(pseudo: seq<byte>, rest: seq<byte>, x: nat)
    requires |pseudo| % 2 == 0 && Cong(x, Sum16(pseudo)) && (x == 0 <==> Sum16(pseudo) == 0)
    ensures Rep(x + Sum16(rest)) == Rep(Sum16(pseudo) + Sum16(rest)) == OnesSum(pseudo + rest)
  {
    hide Cong, Sum16, Rep, OnesSum;
    RepCongSum(x, Sum16(pseudo), Sum16(rest));
    OnesSumIsRep(pseudo + rest);
    Sum16Concat(pseudo, rest);
  }

  /** A field write inside the transport part changes the transport sum by the field alone. */
  lemma TransportSumPut(pkt: seq<byte>, iphLen: nat, proto: byte, isV6: bool, o: nat, c: nat)
    requires AddrEnd(isV6) <= iphLen && iphLen + o + 2 <= |pkt| && o % 2 == 0 && U16(pkt, iphLen + o) == 0 && c < TWO16
    ensures TransportSum(Put16(pkt, iphLen + o, c), iphLen, proto, isV6) == TransportSum(pkt, iphLen, proto, isV6) + c
  {
    hide Sum16, Put16, PseudoHeader;
    var r := Put16(pkt, iphLen + o, c);
    assert SrcAddr(r, isV6) == SrcAddr(pkt, isV6) && DstAddr(r, isV6) == DstAddr(pkt, isV6);
    PutInSuffix(pkt, iphLen, o, c);
    Sum16Put(pkt[iphLen..], o, c);
  }

  lemma PutInSuffix(b: seq<byte>, n: nat, o: nat, v: nat)
    requires n + o + 2 <= |b| && v < TWO16
    ensures Put16(b, n + o, v)[n..] == Put16(b[n..], o, v) && U16(b[n..], o) == U16(b, n + o)
  {
  }

  /** Writing the complement of a transport sum taken with a cleared field. */
  lemma FilledIsValid(pkt: seq<byte>, iphLen: nat, proto: byte, isV6: bool, o: nat, c: nat)
    requires AddrEnd(isV6) <= iphLen && iphLen + o + 2 <= |pkt| && o % 2 == 0 && U16(pkt, iphLen + o) == 0
    requires c == MAX16 - Rep(TransportSum(pkt, iphLen, proto, isV6))
    ensures ChecksumValid(Put16(pkt, iphLen + o, c), iphLen, proto, isV6)
  {
    hide TransportSum, Rep, Put16;
    TransportSumPut(pkt, iphLen, proto, isV6, o, c);
    ComplementCompletes(TransportSum(pkt, iphLen, proto, isV6));
  }
}
