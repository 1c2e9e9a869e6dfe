/** A batch of two in which `handleGRO` (tun/offload_linux.go) drops an item: its packet is written under whatever
  virtio header was in front of it. */
module GroDropped {
  import opened Bytes
  import opened InternetChecksum
  import opened OnesComplement
  import opened Packets
  import opened GroFlows
  import opened GroState
  import opened GroPolicy
  import opened Gro

  /** A TCP segment of one payload byte with sequence number `n` and a checksum field of zero. */
  function Segment(n: byte): (pkt: seq<byte>)
    ensures |pkt| == 41 && forall p :: 0 <= p < 41 ==> pkt[p] == SegmentByte(n, p)
  {
    seq(41, p requires 0 <= p < 41 => SegmentByte(n, p))
  }

  function SegmentByte(n: byte, p: nat): byte {
    if p == 0 then 0x45 else if p == 3 then 41 else if p == 9 then TCP else if p == 27 then n
    else if p == 32 then 0x50 else if p == 33 then ACK else 0
  }

  function Key(): TcpKey {
    TcpKey([0, 0, 0, 0], [0, 0, 0, 0], 0, 0, 0, false)
  }

  lemma SegmentKey(n: byte)
    ensures TcpKeyOf(Segment(n), false) == Key()
  {
    hide Segment;
    var pkt := Segment(n);
    assert SrcAddr(pkt, false) == [0, 0, 0, 0] && DstAddr(pkt, false) == [0, 0, 0, 0];
    assert pkt[20] == 0 && pkt[21] == 0 && pkt[22] == 0 && pkt[23] == 0 && pkt[28] == 0 && pkt[29] == 0 && pkt[30] == 0 && pkt[31] == 0;
  }

  lemma SegmentFlow(n: byte)
    ensures FlowOf(Segment(n), false) == TcpFlow(Key(), 20)
  {
    hide Segment, FlowOf, TcpKeyOf;
    FlowExactly(Segment(n), false);
    SegmentKey(n);
    assert IsTcpData(Segment(n), false);
  }

  /** Its checksum is wrong: the sum is 6 for the protocol, 21 for the length and 0x5010 for the header. */
  lemma SegmentInvalid()
    ensures !ChecksumValid(Segment(0), 20, TCP, false)
  {
    hide Sum16, Segment;
    var pkt := Segment(0);
    var src, dst := SrcAddr(pkt, false), DstAddr(pkt, false);
    assert PseudoHeader(TCP, src, dst, 21) == (src + dst) + [0, TCP, 0, 21];
    ZeroSum(src + dst);
    Sum16Concat(src + dst, [0, TCP, 0, 21]);
    assert pkt[20..] == Zeros(12) + [0x50, ACK] + Zeros(7);
    ZeroSum(Zeros(12));
    ZeroSum(Zeros(7));
    Sum16Concat(Zeros(12), [0x50, ACK]);
    Sum16Concat(Zeros(12) + [0x50, ACK], Zeros(7));
    FewWords();
  }

  lemma FewWords()
    ensures Sum16([0, TCP, 0, 21]) == 27 && Sum16([0x50, ACK]) == 0x5010
  {
    assert [0, TCP, 0, 21][2..] == [0, 21];
    assert [0, 21][2..] == [] && [0x50, ACK][2..] == [];
  }

  ghost function Given(stale: VirtioHdr): seq<Buf> {
    [Buf(stale, Segment(0), 100), Buf(stale, Segment(1), 100)]
  }

  function Item(n: byte): TcpItem {
    NewTcpItem(Key(), 20, Segment(n), n)
  }

  lemma KeyIsV4()
    ensures !Key().isV6
  {
  }

  lemma NewItem(n: byte)
    ensures !Key().isV6 && NewTcpItem(Key(), 20, Segment(n), n) == Item(n)
  {
  }

  lemma ItemIs(n: byte)
    ensures U32(Segment(n), 24) == n && Item(n) == TcpItem(Key(), n, n, 0, 1, 20, 20, false)
  {
    hide Segment;
    var pkt := Segment(n);
    assert pkt[24] == 0 && pkt[25] == 0 && pkt[26] == 0 && pkt[27] == n;
  }

  /** The second segment continues the first. */
  lemma Continues()
    ensures TcpPacketsCanCoalesce(Segment(1), 20, 20, 1, false, 1, Item(0), Segment(0)) == Append
  {
    hide Segment, U32, NewTcpItem;
    ItemIs(0);
    assert |Segment(0)[40..]| == 1;
  }

  /** Then the checksum of the first is found wrong. */
  lemma FirstInvalid(stale: VirtioHdr)
    ensures Comparable(Given(stale), Item(0), 1, 20) && TcpOutcome(Given(stale), Item(0), 1, 20, 10) == ItemInvalidCSum
  {
    hide Segment, ChecksumValid, U32, TcpPacketsCanCoalesce, NewTcpItem;
    ItemIs(0);
    ItemIs(1);
    Continues();
    SegmentInvalid();
  }

  lemma NothingLeft(stale: VirtioHdr)
    ensures TcpLeft(Given(stale), [Item(0)], 1, 1, 20, 10) == [] && TcpSearch(Given(stale), [Item(0)], 1, 1, 20, 10) == TableInsert
  {
    hide TcpOutcome, Comparable, Segment, NewTcpItem;
    FirstInvalid(stale);
    assert [Item(0)][..0] + [Item(0)][1..] == [];
    assert TcpLeft(Given(stale), [], 0, 1, 20, 10) == [];
    assert TcpSearch(Given(stale), [Item(0)], 0, 1, 20, 10) == TableInsert;
  }

  lemma FirstInserted(stale: VirtioHdr, s: Stage, s': Stage, result: GroResult)
    requires s.b == Given(stale) && s.tcp == map[] && Follows(Segment(0), false, 10, s, s', 0, result)
    ensures result == TableInsert && s'.b == Given(stale) && s'.tcp == map[Key() := [Item(0)]]
  {
    hide TcpLeft, TcpSearch, FlowOf, Segment, NewTcpItem, Given, Key, Item;
    SegmentFlow(0);
    assert Key() !in s.tcp && Key().isV6 == false by { KeyIsV4(); }
    assert NewTcpItem(Key(), 20, Segment(0), 0) == Item(0) by { NewItem(0); }
    assert [] + [Item(0)] == [Item(0)];
  }

  /** The first item is dropped, and the second takes its place. */
  lemma SecondInserted(stale: VirtioHdr, s: Stage, s': Stage, result: GroResult)
    requires s.b == Given(stale) && s.tcp == map[Key() := [Item(0)]] && Follows(Segment(1), false, 10, s, s', 1, result)
    ensures result == TableInsert && s'.tcp == map[Key() := [Item(1)]]
  {
    hide TcpLeft, TcpSearch, FlowOf, Segment, NewTcpItem, Given, Key, Item;
    SegmentFlow(1);
    NothingLeft(stale);
    assert s.tcp[Key()] == [Item(0)] && Key().isV6 == false by { KeyIsV4(); }
    assert NewTcpItem(Key(), 20, Segment(1), 1) == Item(1) by { NewItem(1); }
    assert [] + [Item(1)] == [Item(1)];
  }

  lemma BothInserted(t: Trace, stale: VirtioHdr, stages: seq<Stage>, results: seq<GroResult>)
    requires t.input == [Segment(0), Segment(1)] && !t.canUDPGRO && Staged(t, 10, stages, results) && |results| == 2
    requires stages[0].b == Given(stale) && stages[0].tcp == map[]
    ensures results[0] == TableInsert && stages[2].tcp == map[Key() := [Item(1)]]
  {
    hide Follows, Segment, NewTcpItem, Given;
    assert Follows(t.input[0], false, 10, stages[0], stages[0 + 1], 0, results[0]);
    FirstInserted(stale, stages[0], stages[1], results[0]);
    assert Follows(t.input[1], false, 10, stages[1], stages[1 + 1], 1, results[1]);
    SecondInserted(stale, stages[1], stages[2], results[1]);
  }

  lemma FirstUnlisted(t: Trace, udp: map<UdpKey, seq<UdpItem>>)
    requires |t.input| > 0 && t.input[0] == Segment(0) && !t.canUDPGRO
    ensures !t.Listed(map[Key() := [Item(1)]], udp, 0)
  {
    hide FlowOf, Segment;
    SegmentFlow(0);
  }

  /** Whatever header was in front of the first packet is still there when it is written. */
  method StaleHeaderKept(little: bool, stale: VirtioHdr) returns (batch: Batch, err: bool)
    ensures !err && batch.bufs.Length == 2 && 0 in batch.toWrite && batch.bufs[0] == Buf(stale, Segment(0), 100)
  {
    hide Batch.Valid, Staged, Follows, Trace.Listed, FlowOf, Segment, Trace.BadSum;
    var bufs := new Buf[2];
    bufs[0], bufs[1] := Buf(stale, Segment(0), 100), Buf(stale, Segment(1), 100);
    batch := new Batch(bufs, 10, false, little);
    ghost var results, stages;
    err, results, stages := batch.HandleGRO();
    assert batch.trace.input == [Segment(0), Segment(1)];
    BothInserted(batch.trace, stale, stages, results);
    FirstUnlisted(batch.trace, batch.udp);
  }
}
