/** Which packets receive offload merges: the decisions of `tcpGRO`, `udpGRO` and the functions they call
  (tun/offload_linux.go), as functions of the buffers and items they look at. */
module GroPolicy {
  import opened Bytes
  import opened Packets
  import opened GroFlows
  import opened GroState

  datatype GroResult = Noop | TableInsert | Coalesced

  datatype CoalesceResult = InsufficientCap | PSHEnding | ItemInvalidCSum | PktInvalidCSum | Success

  /** An item is checked when it is about to be merged for the first time, a packet always. */
  ghost function TcpSums(it: TcpItem, target: seq<byte>, pkt: seq<byte>): CoalesceResult
    requires it.iphLen == IphLen(it.key.isV6) && it.iphLen <= |target| && it.iphLen <= |pkt|
  {
    if it.numMerged == 0 && !ChecksumValid(target, it.iphLen, TCP, it.key.isV6) then ItemInvalidCSum
    else if !ChecksumValid(pkt, it.iphLen, TCP, it.key.isV6) then PktInvalidCSum
    else Success
  }

  /** As for TCP, but a failed check has been remembered in the item. */
  ghost function UdpSums(it: UdpItem, target: seq<byte>, pkt: seq<byte>): CoalesceResult
    requires it.iphLen == IphLen(it.key.isV6) && it.iphLen <= |target| && it.iphLen <= |pkt|
  {
    if it.numMerged == 0 && (it.cSumKnownInvalid || !ChecksumValid(target, it.iphLen, UDP, it.key.isV6)) then ItemInvalidCSum
    else if !ChecksumValid(pkt, it.iphLen, UDP, it.key.isV6) then PktInvalidCSum
    else Success
  }

  /** What becomes of an attempt to merge the packet in `own` into the item in `target`. */
  ghost function TcpVerdict(mode: CanCoalesce, it: TcpItem, target: Buf, own: Buf, offset: nat): CoalesceResult
    requires it.iphLen == IphLen(it.key.isV6) && it.tcphLen >= 20
    requires it.iphLen + it.tcphLen <= |target.pkt| && it.iphLen + it.tcphLen <= |own.pkt|
  {
    if (if mode == Prepend then own else target).cap < |target.pkt| + |own.pkt| - (it.iphLen + it.tcphLen) + offset then InsufficientCap
    else if mode == Prepend && own.pkt[it.iphLen + 13] == ACKPSH then PSHEnding
    else TcpSums(it, target.pkt, own.pkt)
  }

  /** The item after the packet has been merged into it. */
  function MergedItem(mode: CanCoalesce, it: TcpItem, pkt: seq<byte>): TcpItem
    requires it.tcphLen >= 20 && it.iphLen + it.tcphLen <= |pkt|
  {
    var gsoSize := |pkt| - (it.iphLen + it.tcphLen);
    var sized := it.(numMerged := it.numMerged + 1, gsoSize := if gsoSize > it.gsoSize then gsoSize else it.gsoSize);
    if mode == Prepend then sized.(sentSeq := U32(pkt, it.iphLen + 4))
    else sized.(pshSet := it.pshSet || pkt[it.iphLen + 13] == ACKPSH)
  }

  /** The buffers then: a prepended packet takes the payload of the item and trades places with it. */
  function MergedBufs(mode: CanCoalesce, b: seq<Buf>, it: TcpItem, pktI: nat): (r: seq<Buf>)
    requires it.bufsIndex < |b| && pktI < |b| && it.tcphLen >= 20
    requires it.iphLen + it.tcphLen <= |b[pktI].pkt| && it.iphLen + it.tcphLen <= |b[it.bufsIndex].pkt|
    ensures |r| == |b|
  {
    var h, own, target := it.iphLen + it.tcphLen, b[pktI], b[it.bufsIndex];
    if mode == Prepend then b[it.bufsIndex := own.(pkt := own.pkt + target.pkt[h..])][pktI := target]
    else b[it.bufsIndex := target.(pkt := Trace.Appended(target.pkt, it.iphLen + 13, own.pkt[it.iphLen + 13] == ACKPSH, own.pkt[h..]))]
  }

  /** The item for a packet that starts anew. */
  function NewTcpItem(key: TcpKey, tcphLen: nat, pkt: seq<byte>, pktI: nat): (it: TcpItem)
    requires tcphLen >= 20 && IphLen(key.isV6) + tcphLen <= |pkt|
    ensures it.bufsIndex == pktI
  {
    var iphLen := IphLen(key.isV6);
    TcpItem(key, U32(pkt, iphLen + 4), pktI, 0, |pkt| - iphLen - tcphLen, iphLen, tcphLen, pkt[iphLen + 13] == ACKPSH)
  }

  /** The item can be compared with the packet at all. */
  ghost predicate Comparable(b: seq<Buf>, it: TcpItem, pktI: nat, tcphLen: nat) {
    && it.bufsIndex < |b| && pktI < |b| && it.iphLen == IphLen(it.key.isV6) && it.tcphLen >= 20 && tcphLen >= 20
    && it.iphLen + it.tcphLen <= |b[it.bufsIndex].pkt| && it.iphLen + tcphLen < |b[pktI].pkt| && it.gsoSize > 0
  }

  lemma OtherBufs(mode: CanCoalesce, b: seq<Buf>, it: TcpItem, pktI: nat)
    requires Comparable(b, it, pktI, it.tcphLen)
    ensures |MergedBufs(mode, b, it, pktI)| == |b| && forall v :: 0 <= v < pktI && v != it.bufsIndex ==> MergedBufs(mode, b, it, pktI)[v] == b[v]
  {
    hide Trace.Appended;
  }

  /** Whether the packet may be merged into the item, and where. */
  ghost function TcpCan(b: seq<Buf>, it: TcpItem, pktI: nat, tcphLen: nat): CanCoalesce
    requires Comparable(b, it, pktI, tcphLen)
  {
    var pkt := b[pktI].pkt;
    TcpPacketsCanCoalesce(pkt, it.iphLen, tcphLen, U32(pkt, it.iphLen + 4), pkt[it.iphLen + 13] == ACKPSH,
                          |pkt| - tcphLen - it.iphLen, it, b[it.bufsIndex].pkt)
  }

  /** What comes of trying to merge the packet into the item. */
  ghost function TcpOutcome(b: seq<Buf>, it: TcpItem, pktI: nat, tcphLen: nat, offset: nat): CoalesceResult
    requires Comparable(b, it, pktI, tcphLen)
  {
    var can := TcpCan(b, it, pktI, tcphLen);
    if can == Unavailable || it.tcphLen != tcphLen then InsufficientCap
    else TcpVerdict(can, it, b[it.bufsIndex], b[pktI], offset)
  }

  /** The first `n` items of a flow, tried from the newest to the oldest: the first success, or a packet that is
    found invalid, ends the search. */
  ghost function TcpSearch(b: seq<Buf>, items: seq<TcpItem>, n: nat, pktI: nat, tcphLen: nat, offset: nat): GroResult
    requires n <= |items|
  {
    if n == 0 then TableInsert
    else if !Comparable(b, items[n - 1], pktI, tcphLen) then TcpSearch(b, items, n - 1, pktI, tcphLen, offset)
    else
      match TcpOutcome(b, items[n - 1], pktI, tcphLen, offset)
      case Success => Coalesced
      case PktInvalidCSum => Noop
      case _ => TcpSearch(b, items, n - 1, pktI, tcphLen, offset)
  }

  /** The list that is left if none of them takes the packet: without those found invalid on the way. */
  ghost function TcpLeft(b: seq<Buf>, items: seq<TcpItem>, n: nat, pktI: nat, tcphLen: nat, offset: nat): seq<TcpItem>
    requires n <= |items|
    decreases n
  {
    if n == 0 then items
    else if !Comparable(b, items[n - 1], pktI, tcphLen) then TcpLeft(b, items, n - 1, pktI, tcphLen, offset)
    else
      match TcpOutcome(b, items[n - 1], pktI, tcphLen, offset)
      case Success => items
      case PktInvalidCSum => items
      case ItemInvalidCSum => TcpLeft(b, items[..n - 1] + items[n..], n - 1, pktI, tcphLen, offset)
      case _ => TcpLeft(b, items, n - 1, pktI, tcphLen, offset)
  }

  /** An item is found invalid only if its packet came with a bad checksum. */
  lemma InvalidItem(t: Trace, b: seq<Buf>, key: TcpKey, items: seq<TcpItem>, i: nat, pktI: nat, tcphLen: nat, offset: nat)
    requires t.Buffers(b) && t.TcpList(b, key, items) && i < |items| && Comparable(b, items[i], pktI, tcphLen)
    requires TcpOutcome(b, items[i], pktI, tcphLen, offset) == ItemInvalidCSum
    ensures items[i].bufsIndex < |t.input| && t.BadSum(items[i].bufsIndex)
  {
    hide FlowOf, ChecksumValid, TcpPacketsCanCoalesce, Trace.TcpList;
    t.TcpItemShape(b, key, items, i);
    assert t.Holds(b, items[i].bufsIndex);
  }

  // ----- UDP

  ghost predicate UdpReady(b: seq<Buf>, it: UdpItem, pktI: nat) {
    && it.bufsIndex < |b| && pktI < |b| && it.iphLen == IphLen(it.key.isV6) && it.gsoSize > 0
    && it.iphLen + UDPHLEN <= |b[it.bufsIndex].pkt| && it.iphLen + UDPHLEN <= |b[pktI].pkt|
  }

  /** What comes of trying to merge the packet into the last item of its flow. */
  ghost function UdpOutcome(b: seq<Buf>, it: UdpItem, pktI: nat, offset: nat): CoalesceResult
    requires UdpReady(b, it, pktI)
  {
    var pkt, target := b[pktI].pkt, b[it.bufsIndex];
    if UdpPacketsCanCoalesce(pkt, it.iphLen, |pkt| - UDPHLEN - it.iphLen, it, target.pkt) != Append then InsufficientCap
    else if target.cap < |target.pkt| + |pkt| - (it.iphLen + UDPHLEN) + offset then InsufficientCap
    else UdpSums(it, target.pkt, pkt)
  }

  /** The last item of a flow, and what comes of trying it; a new flow has none. */
  ghost function UdpTried(b: seq<Buf>, items: seq<UdpItem>, pktI: nat, offset: nat): CoalesceResult {
    if items == [] || !UdpReady(b, items[|items| - 1], pktI) then InsufficientCap
    else UdpOutcome(b, items[|items| - 1], pktI, offset)
  }

  function MergedUdpBufs(b: seq<Buf>, it: UdpItem, pktI: nat): (r: seq<Buf>)
    requires it.bufsIndex < |b| && pktI < |b| && it.iphLen + UDPHLEN <= |b[pktI].pkt|
    ensures |r| == |b|
  {
    b[it.bufsIndex := b[it.bufsIndex].(pkt := b[it.bufsIndex].pkt + b[pktI].pkt[it.iphLen + UDPHLEN..])]
  }

  lemma OtherUdpBufs(b: seq<Buf>, it: UdpItem, pktI: nat)
    requires UdpReady(b, it, pktI)
    ensures |MergedUdpBufs(b, it, pktI)| == |b| && forall v :: 0 <= v < |b| && v != it.bufsIndex ==> MergedUdpBufs(b, it, pktI)[v] == b[v]
  {
  }

  function NewUdpItem(key: UdpKey, pkt: seq<byte>, pktI: nat, invalid: bool): (it: UdpItem)
    requires IphLen(key.isV6) + UDPHLEN <= |pkt|
    ensures it.bufsIndex == pktI
  {
    UdpItem(key, pktI, 0, |pkt| - IphLen(key.isV6) - UDPHLEN, IphLen(key.isV6), invalid)
  }
}
