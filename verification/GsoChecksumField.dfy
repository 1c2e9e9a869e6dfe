/** Where `gsoSplit` may put the transport checksum: exactly when the field it fills makes the segment
  pass `checksumValid`. A field on a 16-bit boundary must be clear when the sum is taken, or hold
  the other representation of zero; a field off the boundary works only for some contents. */
module GsoChecksumField {
  import opened Bytes
  import opened OnesComplement
  import opened InternetChecksum
  import opened Packets
  import opened Gso
  import opened Stride

  /** All ones is the sum of everything that is a positive multiple of 65535. */
  lemma {:induction false} RepIsMax(x: nat)
    ensures Rep(x) == MAX16 <==> x > 0 && x % MAX16 == 0
    ensures Rep(x) <= x && (x - Rep(x)) % MAX16 == 0
    decreases x
  {
    if x <= MAX16 {
    } else {
      RepIsMax(x - MAX16);
    }
  }

  lemma StaleArithmetic(s: nat, f: nat)
    requires f < TWO16 && f < s
    ensures Rep(s - f + (MAX16 - Rep(s))) == MAX16 <==> f == 0 || f == MAX16
  {
    RepIsMax(s);
    RepIsMax(s - f + (MAX16 - Rep(s)));
  }

  /** The pseudo header is never all zero: it holds the protocol. */
  lemma PseudoPositive(proto: byte, src: seq<byte>, dst: seq<byte>, totalLen: nat)
    requires proto > 0 && totalLen < TWO16 && |src| % 2 == 0 && |dst| % 2 == 0
    ensures Sum16(PseudoHeader(proto, src, dst, totalLen)) > 0
  {
    var tail := PseudoHeader(proto, src, dst, totalLen)[|src| + |dst|..];
    assert PseudoHeader(proto, src, dst, totalLen) == (src + dst) + tail;
    Sum16Concat(src + dst, tail);
    assert tail[0] == 0 && tail[1] == proto;
  }

  lemma {:induction false} FieldWithinSum(z: seq<byte>, o: nat)
    requires o % 2 == 0 && o + 2 <= |z|
    ensures U16(z, o) <= Sum16(z)
  {
    if o == 0 {
    } else {
      FieldWithinSum(z[2..], o - 2);
      assert U16(z[2..], o - 2) == U16(z, o);
    }
  }

  /** On a 16-bit boundary: the segment is valid exactly when the field was 0 or 0xffff as the sum was taken. */
  lemma EvenFieldValid(bare: seq<byte>, hdr: VirtioHdr, isV6: bool)
    requires AddrEnd(isV6) <= hdr.csumStart && hdr.csumStart + hdr.csumOffset + 2 <= |bare| && hdr.csumOffset % 2 == 0
    ensures var o := hdr.csumStart + hdr.csumOffset;
      ChecksumValid(Put16(bare, o, Complement(bare, hdr, isV6)), hdr.csumStart, Proto(hdr), isV6)
      <==> U16(bare, o) == 0 || U16(bare, o) == MAX16
  {
    hide Sum16, Rep, Put16, U16, PseudoHeader;
    var o, s, v := hdr.csumOffset, TransportSum(bare, hdr.csumStart, Proto(hdr), isV6), Complement(bare, hdr, isV6);
    var seg := Put16(bare, hdr.csumStart + o, v);
    var f := U16(bare, hdr.csumStart + o);
    assert SrcAddr(seg, isV6) == SrcAddr(bare, isV6) && DstAddr(seg, isV6) == DstAddr(bare, isV6);
    PutInSuffix(bare, hdr.csumStart, o, v);
    Sum16Put(bare[hdr.csumStart..], o, v);
    FieldWithinSum(bare[hdr.csumStart..], o);
    PseudoPositive(Proto(hdr), SrcAddr(bare, isV6), DstAddr(bare, isV6), (|bare| - hdr.csumStart) % TWO16);
    U16Range(bare, hdr.csumStart + o);
    StaleArithmetic(s, f);
    assert TransportSum(seg, hdr.csumStart, Proto(hdr), isV6) == s - f + v;
  }

  lemma U16Range(b: seq<byte>, at: nat)
    requires at + 2 <= |b|
    ensures U16(b, at) < TWO16
  {
  }

  /** What is in the checksum field of segment `k` when the sum is taken, from the cleared input: nothing, unless
    it lies on the sequence number or the UDP length, which have been written by then. */
  function FieldWhenSummed(c: seq<byte>, hdr: VirtioHdr, isV6: bool, k: nat): (f: nat)
    requires Inside(hdr, |c|, isV6) && DataAt(hdr, k) <= |c|
  {
    var seqNum := Wrap32(U32(c, hdr.csumStart + 4) + Off(hdr.gsoSize, k));
    if IsTcp(hdr) then
      if hdr.csumOffset == 4 then seqNum / TWO16
      else if hdr.csumOffset == 6 then seqNum % TWO16
      else 0
    else if hdr.csumOffset == 4 then DataEnd(hdr, k, |c|) - DataAt(hdr, k) + hdr.hdrLen - hdr.csumStart
    else 0
  }

  lemma FieldOfBare(pkt: seq<byte>, c: seq<byte>, hdr: VirtioHdr, isV6: bool, k: nat, bare: seq<byte>)
    requires Inside(hdr, |pkt|, isV6) && Cleared(pkt, hdr, isV6, c) && IsBare(c, hdr, isV6, k, bare) && hdr.csumOffset % 2 == 0
    ensures DataAt(hdr, k) <= |c| && U16(bare, hdr.csumStart + hdr.csumOffset) == FieldWhenSummed(c, hdr, isV6, k)
  {
    assert |c| == |pkt|;
    hide Off, Wrap32, IpFields, U16, U32, TransportFields, Cleared;
    if IsTcp(hdr) && (hdr.csumOffset == 4 || hdr.csumOffset == 6) {
      assert U32(bare, hdr.csumStart + 4) == Wrap32(U32(c, hdr.csumStart + 4) + Off(hdr.gsoSize, k)) by { TcpSeqOfBare(c, hdr, isV6, k, bare); }
      U32Halves(bare, hdr.csumStart + 4);
    } else if !IsTcp(hdr) && hdr.csumOffset == 4 {
      UdpLengthOfBare(c, hdr, isV6, k, bare);
    } else {
      ClearOfBare(pkt, c, hdr, isV6, k, bare);
    }
  }

  lemma TcpSeqOfBare(c: seq<byte>, hdr: VirtioHdr, isV6: bool, k: nat, bare: seq<byte>)
    requires Inside(hdr, |c|, isV6) && IsBare(c, hdr, isV6, k, bare) && IsTcp(hdr)
    ensures U32(bare, hdr.csumStart + 4) == Wrap32(U32(c, hdr.csumStart + 4) + Off(hdr.gsoSize, k))
  {
    hide Off, Wrap32, IpFields, U16, U32, ClearFinPsh;
  }

  lemma UdpLengthOfBare(c: seq<byte>, hdr: VirtioHdr, isV6: bool, k: nat, bare: seq<byte>)
    requires Inside(hdr, |c|, isV6) && IsBare(c, hdr, isV6, k, bare) && !IsTcp(hdr)
    ensures U16(bare, hdr.csumStart + 4) == |bare| - hdr.csumStart
  {
    hide Off, IpFields, U16;
  }

  lemma U32Halves(b: seq<byte>, at: nat)
    requires at + 4 <= |b|
    ensures U16(b, at) == U32(b, at) / TWO16 && U16(b, at + 2) == U32(b, at) % TWO16
  {
    hide U16;
  }

  lemma ClearOfBare(pkt: seq<byte>, c: seq<byte>, hdr: VirtioHdr, isV6: bool, k: nat, bare: seq<byte>)
    requires Inside(hdr, |pkt|, isV6) && Cleared(pkt, hdr, isV6, c) && IsBare(c, hdr, isV6, k, bare) && hdr.csumOffset % 2 == 0
    requires if IsTcp(hdr) then hdr.csumOffset != 4 && hdr.csumOffset != 6 else hdr.csumOffset != 4
    ensures U16(bare, hdr.csumStart + hdr.csumOffset) == 0
  {
    hide Off, Wrap32, IpFields, U16, U32;
    var o := hdr.csumStart + hdr.csumOffset;
    assert !RewrittenBare(hdr, isV6, o);
    assert o + 1 != hdr.csumStart + 13 ==> !RewrittenBare(hdr, isV6, o + 1);
    assert bare[o] == 0 && bare[o + 1] == 0;
    ZeroField(bare, o);
  }

  /** Which segments of a split are valid, for any checksum offset on a 16-bit boundary. */
  lemma SegmentValidExactly(pkt: seq<byte>, hdr: VirtioHdr, isV6: bool, k: nat, seg: seq<byte>)
    requires Inside(hdr, |pkt|, isV6) && Filled(ClearedOf(pkt, hdr, isV6), hdr, isV6, k, seg) && hdr.csumOffset % 2 == 0
    ensures var c := ClearedOf(pkt, hdr, isV6);
      && DataAt(hdr, k) <= |c| && hdr.csumStart <= |seg|
      && (ChecksumValid(seg, hdr.csumStart, Proto(hdr), isV6) <==>
          FieldWhenSummed(c, hdr, isV6, k) == 0 || FieldWhenSummed(c, hdr, isV6, k) == MAX16)
  {
    hide IpFields, TransportFields, Complement, Put16, Off, FieldWhenSummed, ChecksumValid, ClearedOf;
    var c := ClearedOf(pkt, hdr, isV6);
    var bare :| IsBare(c, hdr, isV6, k, bare) && seg == Put16(bare, hdr.csumStart + hdr.csumOffset, Complement(bare, hdr, isV6));
    FieldOfBare(pkt, c, hdr, isV6, k, bare);
    EvenFieldValid(bare, hdr, isV6);
  }

  /** A UDP segment whose checksum is put over its length field is never valid. */
  lemma UdpLengthFieldNeverValid(pkt: seq<byte>, hdr: VirtioHdr, isV6: bool, k: nat, seg: seq<byte>)
    requires Inside(hdr, |pkt|, isV6) && Filled(ClearedOf(pkt, hdr, isV6), hdr, isV6, k, seg) && !IsTcp(hdr) && hdr.csumOffset == 4
    ensures hdr.csumStart <= |seg| && !ChecksumValid(seg, hdr.csumStart, Proto(hdr), isV6)
  {
    hide ChecksumValid, Filled, Off, ClearedOf;
    SegmentValidExactly(pkt, hdr, isV6, k, seg);
  }

  /** What `handleVirtioRead` (tun/tun_linux.go) makes sure of before it calls `gsoSplit`. */
  predicate Admitted(pkt: seq<byte>, hdr: VirtioHdr, isV6: bool) {
    && |pkt| > 0 && pkt[0] / 16 == (if isV6 then 6 else 4)
    && hdr.gsoType in {if isV6 then GSO_TCPV6 else GSO_TCPV4, GSO_UDP_L4}
    && (if IsTcp(hdr) then
          && hdr.csumStart + 12 < |pkt| && 20 <= 4 * (pkt[hdr.csumStart + 12] / 16) <= 60
          && hdr.hdrLen == hdr.csumStart + 4 * (pkt[hdr.csumStart + 12] / 16)
        else hdr.hdrLen == hdr.csumStart + 8)
    && hdr.hdrLen <= |pkt| && hdr.csumStart + hdr.csumOffset + 1 < |pkt|
  }

  const TCP_HDR := VirtioHdr(NEEDS_CSUM, GSO_TCPV4, 40, 1, 20, 6)

  /** Headers of an IPv4 and a TCP packet, otherwise zero, and two payload bytes. */
  function TcpPacket(): (pkt: seq<byte>)
    ensures |pkt| == 42
  {
    Zeros(42)[0 := 0x45][32 := 0x50]
  }

  /** A TCP packet of two payload bytes with its checksum field on the lower half of the sequence number: it
    reaches `gsoSplit`, and the second segment that is put out is invalid. */
  method EvenOffsetFails(little: bool) returns (seg: seq<byte>)
    ensures Admitted(TcpPacket(), TCP_HDR, false) && Inside(TCP_HDR, 42, false)
    ensures Filled(ClearedOf(TcpPacket(), TCP_HDR, false), TCP_HDR, false, 1, seg)
    ensures |seg| == 41 && !ChecksumValid(seg, 20, TCP, false)
  {
    hide Filled, ChecksumValid, ClearedOf, Off;
    var hdr := TCP_HDR;
    ghost var pkt := TcpPacket();
    var input := new byte[42](_ => 0);
    input[0], input[32] := 0x45, 0x50;
    assert input[..] == pkt;
    var outs, sizes := new seq<byte>[2](_ => Zeros(42)), new nat[2];
    NextAt(hdr, 0);
    NextAt(hdr, 1);
    var n, err := GsoSplit(little, input, hdr, outs, sizes, 0, false);
    seg := outs[1][..sizes[1]];
    assert outs[1][0..0 + sizes[1]] == seg;
    SegmentValidExactly(pkt, hdr, false, 1, seg);
    FilledSize(ClearedOf(pkt, hdr, false), hdr, false, 1, seg);
    LowerHalf();
  }

  lemma FilledSize(c: seq<byte>, hdr: VirtioHdr, isV6: bool, k: nat, seg: seq<byte>)
    requires Inside(hdr, |c|, isV6) && Filled(c, hdr, isV6, k, seg)
    ensures DataAt(hdr, k) <= |c| && |seg| == SegmentSize(hdr, k, |c|)
  {
    hide IpFields, TransportFields, Complement, Put16, Off;
  }

  lemma LowerHalf()
    ensures DataAt(TCP_HDR, 1) <= 42 && FieldWhenSummed(ClearedOf(TcpPacket(), TCP_HDR, false), TCP_HDR, false, 1) == 1
  {
    var c := ClearedOf(TcpPacket(), TCP_HDR, false);
    assert U32(c, 24) == 0;
    assert Off(1, 1) == 1;
  }

  // ----- Off the boundary

  function Swapped(v: nat): nat
    requires v < TWO16
  {
    v / 256 + 256 * (v % 256)
  }

  /** What a field off the boundary counts for: its bytes exchanged. */
  function OddField(z: seq<byte>, o: nat): nat
    requires o + 2 <= |z|
  {
    Word(z[o + 1], z[o])
  }

  /** The sum depends on such a field by that amount. */
  lemma {:induction false} OddDiffer(a: seq<byte>, b: seq<byte>, o: nat)
    requires o % 2 == 1 && o + 2 <= |a| == |b| && forall p :: 0 <= p < |a| && p != o && p != o + 1 ==> a[p] == b[p]
    ensures Sum16(a) - OddField(a, o) == Sum16(b) - OddField(b, o)
  {
    if o == 1 {
      if |a| == 3 {
        assert a[2..] == [a[2]] && b[2..] == [b[2]];
      } else {
        assert a[2..][2..] == b[2..][2..];
      }
    } else {
      OddDiffer(a[2..], b[2..], o - 2);
    }
  }

  lemma {:induction false} OddWithinSum(z: seq<byte>, o: nat)
    requires o % 2 == 1 && o + 2 <= |z|
    ensures OddField(z, o) <= Sum16(z)
  {
    if o > 1 {
      OddWithinSum(z[2..], o - 2);
    } else {
      assert z[2..] != [];
    }
  }

  lemma SwappedBytes(v: nat)
    requires v < TWO16
    ensures Swapped(v) == Word(v % 256, v / 256)
  {
  }

  lemma SwapIsShift(v: nat)
    requires v < TWO16
    ensures 256 * v == MAX16 * (v / 256) + Swapped(v)
  {
  }

  lemma OddArithmetic(s: nat, w: nat)
    requires w < s
    ensures Rep(s - w + Swapped(MAX16 - Rep(s))) == MAX16 <==> (255 * s + w) % MAX16 == 0
  {
    hide Swapped, Rep;
    var r := Rep(s);
    var v := MAX16 - r;
    RepIsMax(s);
    RepIsMax(s - w + Swapped(v));
    SwapIsShift(v);
    OddDivides(s, w, r, v / 256, (s - r) / MAX16, s - w + Swapped(v));
  }

  lemma OddDivides(s: nat, w: nat, r: nat, hi: nat, q: nat, x: nat)
    requires s == r + MAX16 * q && r <= MAX16 && x == s - w + 256 * (MAX16 - r) - MAX16 * hi
    ensures x % MAX16 == 0 <==> (255 * s + w) % MAX16 == 0
  {
    var y := 255 * s + w;
    assert x + y == MAX16 * (256 + 256 * q - hi);
    if x % MAX16 == 0 {
      assert y == MAX16 * (256 + 256 * q - hi - x / MAX16);
    }
    if y % MAX16 == 0 {
      assert x == MAX16 * (256 + 256 * q - hi - y / MAX16);
    }
  }

  lemma OddTransportSum(bare: seq<byte>, iphLen: nat, o: nat, proto: byte, isV6: bool, v: nat)
    requires AddrEnd(isV6) <= iphLen && iphLen + o + 2 <= |bare| && o % 2 == 1 && v < TWO16 && proto > 0
    ensures OddField(bare, iphLen + o) < TransportSum(bare, iphLen, proto, isV6)
    ensures TransportSum(Put16(bare, iphLen + o, v), iphLen, proto, isV6)
      == TransportSum(bare, iphLen, proto, isV6) - OddField(bare, iphLen + o) + Swapped(v)
  {
    hide Sum16, PseudoHeader, U16;
    var seg := Put16(bare, iphLen + o, v);
    assert SrcAddr(seg, isV6) == SrcAddr(bare, isV6) && DstAddr(seg, isV6) == DstAddr(bare, isV6);
    assert OddField(seg, iphLen + o) == Swapped(v) by { SwappedBytes(v); }
    OddDiffer(bare[iphLen..], seg[iphLen..], o);
    OddWithinSum(bare[iphLen..], o);
    PseudoPositive(proto, SrcAddr(bare, isV6), DstAddr(bare, isV6), (|bare| - iphLen) % TWO16);
  }

  /** Off the boundary: the segment is valid exactly when 65535 divides 255 times its sum plus its field, bytes
    exchanged. */
  lemma OddFieldValid(bare: seq<byte>, hdr: VirtioHdr, isV6: bool)
    requires AddrEnd(isV6) <= hdr.csumStart && hdr.csumStart + hdr.csumOffset + 2 <= |bare| && hdr.csumOffset % 2 == 1
    ensures var o := hdr.csumStart + hdr.csumOffset;
      ChecksumValid(Put16(bare, o, Complement(bare, hdr, isV6)), hdr.csumStart, Proto(hdr), isV6)
      <==> (255 * TransportSum(bare, hdr.csumStart, Proto(hdr), isV6) + OddField(bare, o)) % MAX16 == 0
  {
    hide TransportSum, Rep, Put16, Swapped, OddField;
    var o := hdr.csumOffset;
    OddTransportSum(bare, hdr.csumStart, o, Proto(hdr), isV6, Complement(bare, hdr, isV6));
    OddArithmetic(TransportSum(bare, hdr.csumStart, Proto(hdr), isV6), OddField(bare, hdr.csumStart + o));
  }

  // ----- What is summed, from header and input

  /** The transport header and payload of segment `k` when the sum is taken, from the cleared input. */
  function TransportPart(c: seq<byte>, hdr: VirtioHdr, isV6: bool, k: nat): (b: seq<byte>)
    requires Inside(hdr, |c|, isV6) && DataAt(hdr, k) <= |c|
    ensures |b| == SegmentSize(hdr, k, |c|) - hdr.csumStart
  {
    var th := c[hdr.csumStart..hdr.hdrLen];
    var last := DataEnd(hdr, k, |c|) == |c|;
    (if IsTcp(hdr) then
       Put32(th, 4, Wrap32(U32(c, hdr.csumStart + 4) + Off(hdr.gsoSize, k)))[13 := if last then th[13] else ClearFinPsh(th[13])]
     else
       Put16(th, 4, SegmentSize(hdr, k, |c|) - hdr.csumStart))
    + c[DataAt(hdr, k)..DataEnd(hdr, k, |c|)]
  }

  /** Its sum with the pseudo header. */
  function SegmentSum(c: seq<byte>, hdr: VirtioHdr, isV6: bool, k: nat): nat
    requires Inside(hdr, |c|, isV6) && DataAt(hdr, k) <= |c|
  {
    var b := TransportPart(c, hdr, isV6, k);
    Sum16(PseudoHeader(Proto(hdr), SrcAddr(c, isV6), DstAddr(c, isV6), |b| % TWO16)) + Sum16(b)
  }

  lemma SameWord(h: byte, l: byte, h': byte, l': byte)
    requires Word(h, l) == Word(h', l')
    ensures h == h' && l == l'
  {
  }

  lemma SameU32(a: seq<byte>, i: nat, b: seq<byte>, j: nat)
    requires i + 4 <= |a| && j + 4 <= |b| && U32(a, i) == U32(b, j)
    ensures a[i] == b[j] && a[i + 1] == b[j + 1] && a[i + 2] == b[j + 2] && a[i + 3] == b[j + 3]
  {
    hide Word;
    U32Halves(a, i);
    U32Halves(b, j);
    SameWord(a[i], a[i + 1], b[j], b[j + 1]);
    SameWord(a[i + 2], a[i + 3], b[j + 2], b[j + 3]);
  }

  /** Those are the bytes of every segment before its checksum is filled in. */
  lemma TransportOfBare(c: seq<byte>, hdr: VirtioHdr, isV6: bool, k: nat, bare: seq<byte>)
    requires Inside(hdr, |c|, isV6) && IsBare(c, hdr, isV6, k, bare)
    ensures DataAt(hdr, k) <= |c| && bare[hdr.csumStart..] == TransportPart(c, hdr, isV6, k)
  {
    hide Off, Wrap32, IpFields, U16, U32, ClearFinPsh, Put16, Put32;
    var b := TransportPart(c, hdr, isV6, k);
    forall p | 0 <= p < |b| ensures bare[hdr.csumStart + p] == b[p] {
      if p < hdr.hdrLen - hdr.csumStart {
        HeaderOfBare(c, hdr, isV6, k, bare, p);
      } else {
        var q := p - (hdr.hdrLen - hdr.csumStart);
        assert bare[hdr.hdrLen..][q] == c[DataAt(hdr, k)..DataEnd(hdr, k, |c|)][q];
      }
    }
  }

  lemma HeaderOfBare(c: seq<byte>, hdr: VirtioHdr, isV6: bool, k: nat, bare: seq<byte>, p: nat)
    requires Inside(hdr, |c|, isV6) && IsBare(c, hdr, isV6, k, bare) && p < hdr.hdrLen - hdr.csumStart
    ensures DataAt(hdr, k) <= |c| && bare[hdr.csumStart + p] == TransportPart(c, hdr, isV6, k)[p]
  {
    hide Off, Wrap32, IpFields, U16, U32, ClearFinPsh, Put16, Put32;
    var th := c[hdr.csumStart..hdr.hdrLen];
    if IsTcp(hdr) {
      var numbered := Put32(th, 4, Wrap32(U32(c, hdr.csumStart + 4) + Off(hdr.gsoSize, k)));
      SameU32(bare, hdr.csumStart + 4, numbered, 4);
      assert 4 <= p < 8 ==> p == 4 || p == 5 || p == 6 || p == 7;
    } else {
      var measured := Put16(th, 4, SegmentSize(hdr, k, |c|) - hdr.csumStart);
      SameU16(bare, hdr.csumStart + 4, measured, 4);
    }
    if !RewrittenBare(hdr, isV6, hdr.csumStart + p) {
      assert bare[hdr.csumStart + p] == c[hdr.csumStart + p];
    }
  }

  lemma SameU16(a: seq<byte>, i: nat, b: seq<byte>, j: nat)
    requires i + 2 <= |a| && j + 2 <= |b| && U16(a, i) == U16(b, j)
    ensures a[i] == b[j] && a[i + 1] == b[j + 1]
  {
    hide Word;
    SameWord(a[i], a[i + 1], b[j], b[j + 1]);
  }

  lemma SumOfBare(c: seq<byte>, hdr: VirtioHdr, isV6: bool, k: nat, bare: seq<byte>)
    requires Inside(hdr, |c|, isV6) && IsBare(c, hdr, isV6, k, bare)
    ensures DataAt(hdr, k) <= |c| && TransportSum(bare, hdr.csumStart, Proto(hdr), isV6) == SegmentSum(c, hdr, isV6, k)
  {
    hide Off, IpFields, TransportFields, Sum16, PseudoHeader, TransportPart, SrcAddr, DstAddr, IsBare, Inside, DataAt, SegmentSize;
    AddressesOfBare(c, hdr, isV6, k, bare);
    TransportOfBare(c, hdr, isV6, k, bare);
  }

  lemma AddressesOfBare(c: seq<byte>, hdr: VirtioHdr, isV6: bool, k: nat, bare: seq<byte>)
    requires Inside(hdr, |c|, isV6) && IsBare(c, hdr, isV6, k, bare)
    ensures AddrEnd(isV6) <= hdr.csumStart <= |bare| && AddrEnd(isV6) <= |c|
    ensures SrcAddr(bare, isV6) == SrcAddr(c, isV6) && DstAddr(bare, isV6) == DstAddr(c, isV6)
  {
    hide Off, IpFields, TransportFields;
  }

  /** Which segments of a split are valid, for any checksum offset off the boundary: those for which 65535 divides
    255 times the sum plus the field with its bytes exchanged. */
  lemma OddSegmentValidExactly(pkt: seq<byte>, hdr: VirtioHdr, isV6: bool, k: nat, seg: seq<byte>)
    requires Inside(hdr, |pkt|, isV6) && Filled(ClearedOf(pkt, hdr, isV6), hdr, isV6, k, seg) && hdr.csumOffset % 2 == 1
    ensures var c := ClearedOf(pkt, hdr, isV6);
      && DataAt(hdr, k) <= |c| && hdr.csumStart <= |seg| && hdr.csumOffset + 2 <= |TransportPart(c, hdr, isV6, k)|
      && (ChecksumValid(seg, hdr.csumStart, Proto(hdr), isV6) <==>
          (255 * SegmentSum(c, hdr, isV6, k) + OddField(TransportPart(c, hdr, isV6, k), hdr.csumOffset)) % MAX16 == 0)
  {
    hide IpFields, TransportFields, Complement, Put16, Off, ChecksumValid, ClearedOf, SegmentSum, TransportPart, TransportSum;
    var c := ClearedOf(pkt, hdr, isV6);
    var bare :| IsBare(c, hdr, isV6, k, bare) && seg == Put16(bare, hdr.csumStart + hdr.csumOffset, Complement(bare, hdr, isV6));
    SumOfBare(c, hdr, isV6, k, bare);
    TransportOfBare(c, hdr, isV6, k, bare);
    assert OddField(bare[hdr.csumStart..], hdr.csumOffset) == OddField(bare, hdr.csumStart + hdr.csumOffset);
    OddFieldValid(bare, hdr, isV6);
  }

  const UDP_HDR := VirtioHdr(NEEDS_CSUM, GSO_UDP_L4, 28, 1, 20, 1)

  function UdpPacket(): (pkt: seq<byte>)
    ensures |pkt| == 29
  {
    Zeros(29)[0 := 0x45]
  }

  /** A UDP packet of one payload byte with its checksum field one byte off: it reaches `gsoSplit`, and what is
    put out is invalid. */
  method OddOffsetFails(little: bool) returns (seg: seq<byte>)
    ensures Admitted(UdpPacket(), UDP_HDR, false) && Inside(UDP_HDR, 29, false)
    ensures Filled(ClearedOf(UdpPacket(), UDP_HDR, false), UDP_HDR, false, 0, seg)
    ensures |seg| == 29 && !ChecksumValid(seg, 20, UDP, false)
  {
    hide Filled, ChecksumValid, ClearedOf, Off, TransportPart, SegmentSum;
    var hdr := UDP_HDR;
    ghost var pkt := UdpPacket();
    var input := new byte[29](_ => 0);
    input[0] := 0x45;
    assert input[..] == pkt;
    var outs, sizes := new seq<byte>[1](_ => Zeros(29)), new nat[1];
    NextAt(hdr, 0);
    var n, err := GsoSplit(little, input, hdr, outs, sizes, 0, false);
    seg := outs[0][..sizes[0]];
    assert outs[0][0..0 + sizes[0]] == seg;
    OddSegmentValidExactly(pkt, hdr, false, 0, seg);
    FilledSize(ClearedOf(pkt, hdr, false), hdr, false, 0, seg);
    OneOff(pkt, hdr);
  }

  lemma OneOff(pkt: seq<byte>, hdr: VirtioHdr)
    requires pkt == UdpPacket() && hdr == UDP_HDR
    ensures var c := ClearedOf(pkt, hdr, false);
      && DataAt(hdr, 0) <= 29 && SegmentSum(c, hdr, false, 0) == 35 && OddField(TransportPart(c, hdr, false, 0), 1) == 0
  {
    hide Sum16;
    var c := ClearedOf(pkt, hdr, false);
    NextAt(hdr, 0);
    var b := TransportPart(c, hdr, false, 0);
    assert b == [0, 0, 0, 0] + [0, 9] + [0, 0, 0];
    var src, dst := SrcAddr(c, false), DstAddr(c, false);
    assert PseudoHeader(UDP, src, dst, 9) == (src + dst) + [0, UDP, 0, 9];
    ZeroSum(src + dst);
    Sum16Concat(src + dst, [0, UDP, 0, 9]);
    ZeroSum([0, 0, 0, 0]);
    ZeroSum([0, 0, 0]);
    Sum16Concat([0, 0, 0, 0], [0, 9]);
    Sum16Concat([0, 0, 0, 0] + [0, 9], [0, 0, 0]);
    FewWords();
  }

  lemma FewWords()
    ensures Sum16([0, UDP, 0, 9]) == 26 && Sum16([0, 9]) == 9
  {
    assert [0, UDP, 0, 9][2..] == [0, 9];
    assert [0, 9][2..] == [];
  }
}
