/** Receive offload: `handleGRO` of tun/offload_linux.go and what it calls.

  The two flow tables, the buffers and the list of buffers to write are updated in place.
  Buffers are viewed from the packet offset on; the virtio header in front of the packet is
  a field of its own. Pools of item slices are not modelled.
 */
module Gro {
  import opened Bytes
  import opened OnesComplement
  import opened Packets
  import opened Gso
  import opened GroFlows
  import opened GroState
  import opened GroPolicy
  import opened GroAccounting
  import opened GroOrder

  /** There is room for a virtio header in front of each of the first `n` packets, and none is empty. */
  predicate Readable(input: seq<seq<byte>>, offset: nat, n: nat)
    requires n <= |input|
  {
    forall i :: 0 <= i < n ==> offset >= 10 && |input[i]| > 0
  }

  /** The buffers and tables between two packets of a batch. */
  datatype Stage = Stage(b: seq<Buf>, tcp: map<TcpKey, seq<TcpItem>>, udp: map<UdpKey, seq<UdpItem>>)

  /** How a packet of a TCP flow fares, and what its flow's list is then unless it was merged. */
  ghost predicate Follows(pkt: seq<byte>, canUDPGRO: bool, offset: nat, s: Stage, s': Stage, i: nat, result: GroResult) {
    match FlowOf(pkt, canUDPGRO)
    case TcpFlow(key, tcphLen) =>
      && result == (if key in s.tcp then TcpSearch(s.b, s.tcp[key], |s.tcp[key]|, i, tcphLen, offset) else TableInsert)
      && (result == TableInsert ==>
            && tcphLen >= 20 && IphLen(key.isV6) + tcphLen <= |pkt| && s'.b == s.b
            && s'.tcp == s.tcp[key := (if key in s.tcp then TcpLeft(s.b, s.tcp[key], |s.tcp[key]|, i, tcphLen, offset) else [])
                                      + [NewTcpItem(key, tcphLen, pkt, i)]])
    case _ => s'.tcp == s.tcp
  }

  /** The stages of a batch, one packet after the other. */
  ghost predicate Staged(t: Trace, offset: nat, stages: seq<Stage>, results: seq<GroResult>) {
    && |stages| == |results| + 1 && |results| <= |t.input|
    && forall i :: 0 <= i < |results| ==> Follows(t.input[i], t.canUDPGRO, offset, stages[i], stages[i + 1], i, results[i])
  }

  lemma NextStage(t: Trace, offset: nat, stages: seq<Stage>, results: seq<GroResult>, s: Stage, result: GroResult)
    requires Staged(t, offset, stages, results) && |results| < |t.input|
    requires Follows(t.input[|results|], t.canUDPGRO, offset, stages[|results|], s, |results|, result)
    ensures Staged(t, offset, stages + [s], results + [result])
  {
    hide Follows;
  }

  /** Buffers of packets yet to come, and of items into which nothing was merged, are as they were given. */
  ghost predicate AsGiven(t: Trace, was: seq<Buf>, b: seq<Buf>, results: seq<GroResult>) {
    && |b| == |was|
    && (forall v :: |t.home| <= v < |b| ==> b[v] == was[v])
    && (forall v :: 0 <= v < |results| && v < |b| && results[v] == TableInsert && v in t.origin && |t.origin[v]| == 1 ==> b[v] == was[v])
  }

  lemma StillAsGiven(t: Trace, t': Trace, was: seq<Buf>, b: seq<Buf>, b': seq<Buf>, results: seq<GroResult>, result: GroResult)
    requires AsGiven(t, was, b, results) && |results| == |t.home| < |b| && |t'.home| == |t.home| + 1 && t'.Buffers(b')
    requires t.Untouched(t', b, b', |t.home|) && (result == TableInsert ==> |b| == |b'| && b'[|t.home|] == b[|t.home|])
    ensures AsGiven(t', was, b', results + [result])
  {
    hide Trace.Buffers, FlowOf;
    t'.OriginBelow(b');
  }

  /** Items that are no longer in a table had bad checksums. */
  ghost predicate DropsBad(t: Trace, tcp: map<TcpKey, seq<TcpItem>>, udp: map<UdpKey, seq<UdpItem>>, results: seq<GroResult>) {
    forall v :: 0 <= v < |results| && v < |t.input| && results[v] == TableInsert && !t.Listed(tcp, udp, v) ==> t.BadSum(v)
  }

  lemma StillDropsBad(t: Trace, t': Trace, b: seq<Buf>, tcp: map<TcpKey, seq<TcpItem>>, udp: map<UdpKey, seq<UdpItem>>, b': seq<Buf>,
                      tcp': map<TcpKey, seq<TcpItem>>, udp': map<UdpKey, seq<UdpItem>>, n: nat, results: seq<GroResult>)
    requires DropsBad(t, tcp, udp, results) && t.Undisturbed(b, tcp, udp, b', tcp', udp', n) && |results| <= n
    requires t'.input == t.input && t'.canUDPGRO == t.canUDPGRO
    ensures DropsBad(t', tcp', udp', results)
  {
    hide FlowOf, Trace.VerifiedAt;
    forall v | 0 <= v < |results| && v < |t.input| && results[v] == TableInsert && !t'.Listed(tcp', udp', v) ensures t'.BadSum(v) {
      assert t'.FlowAt(v) == t.FlowAt(v);
      assert !t.Listed(tcp', udp', v);
      assert t.BadSum(v);
    }
  }

  /** The packets that joined no table so far go out as they came, under an empty virtio header. */
  ghost predicate NoopsPlain(t: Trace, s: Stage, results: seq<GroResult>) {
    forall w :: 0 <= w < |results| && results[w] == Noop ==> t.Plain(s.b, s.tcp, s.udp, w)
  }

  lemma NoopsStay(t: Trace, t': Trace, s: Stage, s': Stage, n: nat, results: seq<GroResult>)
    requires t.Undisturbed(s.b, s.tcp, s.udp, s'.b, s'.tcp, s'.udp, n) && |results| <= n
    requires t'.input == t.input && t'.canUDPGRO == t.canUDPGRO && NoopsPlain(t, s, results)
    ensures NoopsPlain(t', s', results)
  {
    hide Trace.Plain, Trace.Undisturbed;
    forall w | 0 <= w < |results| && results[w] == Noop ensures t'.Plain(s'.b, s'.tcp, s'.udp, w) {
      t.StillPlain(t', s.b, s.tcp, s.udp, s'.b, s'.tcp, s'.udp, n, w);
    }
  }

  /** Packets of no flow joined no table; those that were not merged are to be written. */
  ghost predicate Told(t: Trace, toWrite: seq<nat>, results: seq<GroResult>) {
    forall w :: 0 <= w < |results| && w < |t.input| ==>
      (t.FlowAt(w).Raw? ==> results[w] == Noop) && (w in toWrite <==> results[w] != Coalesced)
  }

  lemma ToldNext(t: Trace, t': Trace, toWrite: seq<nat>, results: seq<GroResult>, r: GroResult)
    requires Told(t, toWrite, results) && |results| < |t.input| && |results| !in toWrite && (t.FlowAt(|results|).Raw? ==> r == Noop)
    requires t'.input == t.input && t'.canUDPGRO == t.canUDPGRO
    ensures Told(t', if r == Coalesced then toWrite else toWrite + [|results|], results + [r])
  {
    hide FlowOf;
  }

  /** What is known of the results so far. */
  ghost predicate Accounted(t: Trace, was: seq<Buf>, s: Stage, toWrite: seq<nat>, results: seq<GroResult>) {
    NoopsPlain(t, s, results) && Told(t, toWrite, results) && AsGiven(t, was, s.b, results) && DropsBad(t, s.tcp, s.udp, results)
  }

  lemma AccountNext(t: Trace, t': Trace, was: seq<Buf>, s: Stage, s': Stage, toWrite: seq<nat>, results: seq<GroResult>, r: GroResult)
    requires Accounted(t, was, s, toWrite, results) && |results| == |t.home| < |s.b| == |t.input| && |t.home| !in toWrite
    requires t'.input == t.input && t'.canUDPGRO == t.canUDPGRO && |t'.home| == |t.home| + 1 && t'.Buffers(s'.b)
    requires t.Undisturbed(s.b, s.tcp, s.udp, s'.b, s'.tcp, s'.udp, |t.home|) && t.Untouched(t', s.b, s'.b, |t.home|)
    requires (t.FlowAt(|t.home|).Raw? ==> r == Noop) && (r == Noop ==> t'.Plain(s'.b, s'.tcp, s'.udp, |t.home|))
    requires r == TableInsert ==> t'.Listed(s'.tcp, s'.udp, |t.home|) && s'.b == s.b
    ensures Accounted(t', was, s', if r == Coalesced then toWrite else toWrite + [|t.home|], results + [r])
  {
    hide Trace.Buffers, Trace.Plain, Trace.Undisturbed, Trace.Untouched, Trace.Listed, Trace.BadSum, FlowOf;
    NoopsStay(t, t', s, s', |t.home|, results);
    ToldNext(t, t', toWrite, results, r);
    StillAsGiven(t, t', was, s.b, s'.b, results, r);
    StillDropsBad(t, t', s.b, s.tcp, s.udp, s'.b, s'.tcp, s'.udp, |t.home|, results);
    hide Told, AsGiven;
  }

  class Batch {
    const bufs: array<Buf>
    const offset: nat
    const canUDPGRO: bool
    const little: bool
    var tcp: map<TcpKey, seq<TcpItem>>
    var udp: map<UdpKey, seq<UdpItem>>
    var toWrite: seq<nat>
    ghost var trace: Trace

    /** Buffers have no room for packets over 65535 bytes, and their indices fit in 16 bits. */
    constructor (bufs: array<Buf>, offset: nat, canUDPGRO: bool, little: bool)
      requires bufs.Length <= 65536
      requires forall i :: 0 <= i < bufs.Length ==> bufs[i].cap <= MAX16 + offset
      ensures this.bufs == bufs && this.offset == offset && this.canUDPGRO == canUDPGRO
      ensures Valid() && tcp == map[] && udp == map[] && toWrite == [] && trace.home == [] && trace.origin == map[]
      ensures |trace.input| == bufs.Length && forall i :: 0 <= i < bufs.Length ==> trace.input[i] == bufs[i].pkt
    {
      this.bufs, this.offset, this.canUDPGRO, this.little := bufs, offset, canUDPGRO, little;
      tcp, udp, toWrite := map[], map[], [];
      trace := Trace(seq(bufs.Length, i requires 0 <= i < bufs.Length reads bufs => bufs[i].pkt), canUDPGRO, map[], []);
    }

    ghost predicate Capacities()
      reads bufs
    {
      forall i :: 0 <= i < bufs.Length ==> bufs[i].cap <= MAX16 + offset
    }

    ghost predicate Valid()
      reads this`trace, this`tcp, this`udp, bufs
    {
      && Capacities() && trace.canUDPGRO == canUDPGRO
      && trace.Buffers(bufs[..]) && trace.Tables(bufs[..], tcp, udp) && trace.Tracked(tcp, udp)
    }

    /** The buffers to write are those that hold packets, in increasing order. */
    ghost predicate WritesAll()
      reads this`trace, this`toWrite
    {
      trace.Written(toWrite)
    }

    // ----- TCP

    /** Merges packet `pktI` into `item` as `mode` says, if checksums and capacity allow. */
    method CoalesceTcpPackets(mode: CanCoalesce, pktI: nat, item: TcpItem) returns (r: CoalesceResult, item': TcpItem)
      requires Capacities() && trace.Buffers(bufs[..]) && pktI == |trace.home| < |trace.input| == bufs.Length
      requires mode != Unavailable && trace.TcpMergeable(bufs[..], item, mode) && item.bufsIndex < pktI
      modifies bufs
      ensures Capacities()
      ensures r != Success ==> bufs[..] == old(bufs[..])
      ensures r == Success ==> item.bufsIndex in trace.origin && TcpMergedInto(old(bufs[..]), item, item', pktI, mode == Append)
      ensures r == ItemInvalidCSum ==> item.numMerged == 0
      ensures old(Comparable(bufs[..], item, pktI, item.tcphLen)) ==>
        && r == TcpVerdict(mode, item, old(bufs[item.bufsIndex]), old(bufs[pktI]), offset)
        && (r == Success ==> item' == MergedItem(mode, item, old(bufs[pktI].pkt)) && bufs[..] == MergedBufs(mode, old(bufs[..]), item, pktI))
    {
      hide Trace.Tracked, Trace.TcpMergeable, Trace.TcpItemOk, Trace.Buffers, U32, Trace.Appended;
      item' := item;
      var w := item.bufsIndex;
      ghost var before := bufs[..];
      trace.MergeableSizes(before, item, mode);
      trace.OwnBuffer(before);
      var pkt, target := bufs[pktI].pkt, bufs[w].pkt;
      var headersLen := item.iphLen + item.tcphLen;
      var coalescedLen := |target| + |pkt| - headersLen;
      var pshSet := pkt[item.iphLen + 13] == ACKPSH;
      if mode == Prepend {
        if bufs[pktI].cap < coalescedLen + offset {
          return InsufficientCap, item;
        }
        if pshSet {
          return PSHEnding, item;
        }
        r := CheckSums(item, target, pkt);
        if r == Success {
          trace.TcpVerified(before, item, mode);
          item' := PrependTcp(pktI, item);
        }
      } else {
        if bufs[w].cap < coalescedLen + offset {
          return InsufficientCap, item;
        }
        r := CheckSums(item, target, pkt);
        if r == Success {
          trace.TcpVerified(before, item, mode);
          item' := AppendTcp(pktI, item);
        }
      }
    }

    ghost predicate TcpMergedInto(before: seq<Buf>, item: TcpItem, item': TcpItem, pktI: nat, append: bool)
      reads this`trace, bufs
      requires item.bufsIndex in trace.origin
    {
      && item'.bufsIndex == item.bufsIndex && item'.key == item.key && |before| == bufs.Length
      && (forall v :: 0 <= v < bufs.Length && v != item.bufsIndex && v != pktI ==> bufs[v] == before[v])
      && trace.Into(item.bufsIndex, trace.Extended(item.bufsIndex, append)).TcpItemOk(bufs[..], item')
    }

    /** The packet's buffer takes the payload of the item, and the two buffers trade places. */
    method PrependTcp(pktI: nat, item: TcpItem) returns (item': TcpItem)
      requires Capacities() && trace.Buffers(bufs[..]) && pktI == |trace.home| < |trace.input| == bufs.Length
      requires trace.TcpMergeable(bufs[..], item, Prepend) && item.bufsIndex < pktI
      requires item.iphLen + item.tcphLen <= |bufs[item.bufsIndex].pkt|
      requires |bufs[item.bufsIndex].pkt| + |bufs[pktI].pkt| - (item.iphLen + item.tcphLen) + offset <= bufs[pktI].cap
      requires item.bufsIndex in trace.origin && trace.AllVerified(item.bufsIndex, item.key.isV6, TCP)
      modifies bufs
      ensures Capacities() && item.bufsIndex in trace.origin && TcpMergedInto(old(bufs[..]), item, item', pktI, false)
      ensures item.tcphLen >= 20 && item.iphLen + item.tcphLen <= |old(bufs[pktI].pkt)|
      ensures item' == MergedItem(Prepend, item, old(bufs[pktI].pkt)) && bufs[..] == MergedBufs(Prepend, old(bufs[..]), item, pktI)
    {
      hide Trace.Tracked, Trace.TcpMergeable, Trace.TcpItemOk, Trace.Buffers, U32;
      var w := item.bufsIndex;
      ghost var before := bufs[..];
      trace.MergeableSizes(before, item, Prepend);
      trace.OwnBuffer(before);
      var pkt := bufs[pktI].pkt;
      var headersLen := item.iphLen + item.tcphLen;
      var gsoSize := |pkt| - headersLen;
      bufs[w], bufs[pktI] := bufs[pktI].(pkt := pkt + bufs[w].pkt[headersLen..]), bufs[w];
      item' := item.(sentSeq := U32(pkt, item.iphLen + 4), gsoSize := if gsoSize > item.gsoSize then gsoSize else item.gsoSize,
                     numMerged := item.numMerged + 1);
      trace.PrependFacts(before, item);
      trace.TcpPrepended(before, item, bufs[..], item');
    }

    /** The payload of the packet goes behind the item's, and its PSH flag into the item's header. */
    method AppendTcp(pktI: nat, item: TcpItem) returns (item': TcpItem)
      requires Capacities() && trace.Buffers(bufs[..]) && pktI == |trace.home| < |trace.input| == bufs.Length
      requires trace.TcpMergeable(bufs[..], item, Append) && item.bufsIndex < pktI
      requires item.iphLen + item.tcphLen <= |bufs[item.bufsIndex].pkt|
      requires |bufs[item.bufsIndex].pkt| + |bufs[pktI].pkt| - (item.iphLen + item.tcphLen) + offset <= bufs[item.bufsIndex].cap
      requires item.bufsIndex in trace.origin && trace.AllVerified(item.bufsIndex, item.key.isV6, TCP)
      modifies bufs
      ensures Capacities() && item.bufsIndex in trace.origin && TcpMergedInto(old(bufs[..]), item, item', pktI, true)
      ensures item.tcphLen >= 20 && item.iphLen + item.tcphLen <= |old(bufs[pktI].pkt)|
      ensures item' == MergedItem(Append, item, old(bufs[pktI].pkt)) && bufs[..] == MergedBufs(Append, old(bufs[..]), item, pktI)
    {
      hide Trace.Tracked, Trace.TcpMergeable, Trace.TcpItemOk, Trace.Buffers, Trace.Appended;
      var w := item.bufsIndex;
      ghost var before := bufs[..];
      trace.MergeableSizes(before, item, Append);
      trace.OwnBuffer(before);
      var pkt := bufs[pktI].pkt;
      var headersLen := item.iphLen + item.tcphLen;
      var pshSet := pkt[item.iphLen + 13] == ACKPSH;
      bufs[w] := bufs[w].(pkt := Trace.Appended(bufs[w].pkt, item.iphLen + 13, pshSet, pkt[headersLen..]));
      var gsoSize := |pkt| - headersLen;
      item' := item.(pshSet := item.pshSet || pshSet, gsoSize := if gsoSize > item.gsoSize then gsoSize else item.gsoSize,
                     numMerged := item.numMerged + 1);
      trace.AppendSize(before, item);
      trace.TcpAppended(before, item, bufs[..], item');
    }

    /** An item is checked when it is about to be merged for the first time, a packet always. */
    method CheckSums(item: TcpItem, target: seq<byte>, pkt: seq<byte>) returns (r: CoalesceResult)
      requires item.iphLen == IphLen(item.key.isV6) && item.iphLen <= |target| && item.iphLen <= |pkt|
      ensures r == TcpSums(item, target, pkt)
    {
      if item.numMerged == 0 {
        var ok := CheckChecksum(little, target, item.iphLen, TCP, item.key.isV6);
        if !ok {
          return ItemInvalidCSum;
        }
      }
      var ok := CheckChecksum(little, pkt, item.iphLen, TCP, item.key.isV6);
      return if ok then Success else PktInvalidCSum;
    }

    /** One TCP packet: merged into an item of its flow, started as a new item, or left alone. */
    method TcpGRO(pktI: nat, isV6: bool) returns (result: GroResult)
      requires Valid() && pktI == |trace.home| < |trace.input|
      requires IphLen(isV6) + 20 <= |trace.input[pktI]| && trace.FlowAt(pktI) == ParseTcp(trace.input[pktI], isV6)
      modifies this`tcp, this`trace, bufs
      ensures Valid() && trace.input == old(trace.input) && |trace.home| == pktI + 1
      ensures result != Coalesced ==> trace == old(trace).Alone()
      ensures result == Coalesced ==> trace.origin.Keys == old(trace.origin.Keys)
      ensures result == match ParseTcp(trace.input[pktI], isV6) {
          case TcpFlow(key, tcphLen) =>
            if key in old(tcp) then old(TcpSearch(bufs[..], tcp[key], |tcp[key]|, pktI, tcphLen, offset)) else TableInsert
          case _ => Noop
        }
      ensures old(trace).Undisturbed(old(bufs[..]), old(tcp), udp, bufs[..], tcp, udp, pktI)
      ensures result != Coalesced ==> (result == TableInsert <==> old(trace).Listed(tcp, udp, pktI))
      ensures old(trace).Untouched(trace, old(bufs[..]), bufs[..], pktI) && (result != Coalesced ==> bufs[..] == old(bufs[..]))
      ensures ParseTcp(trace.input[pktI], isV6).Raw? ==> tcp == old(tcp)
      ensures result == TableInsert ==>
        var flow := ParseTcp(trace.input[pktI], isV6);
        && flow.tcphLen >= 20 && IphLen(flow.tcpKey.isV6) + flow.tcphLen <= |trace.input[pktI]|
        && tcp == old(tcp)[flow.tcpKey := old(TcpRest(pktI, flow)) + [NewTcpItem(flow.tcpKey, flow.tcphLen, trace.input[pktI], pktI)]]
    {
      hide Trace.Tracked, TcpSearch, TcpLeft, ParseTcp, FlowOf, Trace.Untouched, NewTcpItem, Trace.Buffers, Trace.TcpList, Trace.UdpList, TcpPacketsCanCoalesce, Trace.Undisturbed, Trace.Listed;
      trace.OwnBuffer(bufs[..]);
      trace.NothingDisturbed(bufs[..], tcp, udp, pktI);
      trace.AloneUntouched(bufs[..], bufs[..]);
      var pkt := bufs[pktI].pkt;
      var flow := ParseTcp(pkt, isV6);
      if flow.Raw? {
        LeaveAlone(pktI);
        return Noop;
      }
      trace.TcpFlowShape(pktI, isV6);
      var key := flow.tcpKey;
      if key !in tcp {
        trace.TrackedMore(tcp, udp, tcp[key := []], udp);
        tcp := tcp[key := []];
        assert trace.TcpList(bufs[..], key, tcp[key]) by { trace.EmptyTcpList(bufs[..], key); }
        InsertTcp(pktI, flow);
        assert tcp == old(tcp)[key := [] + [tcp[key][0]]];
        old(trace).TcpInsertUndisturbed(bufs[..], old(tcp), udp, key, tcp[key][0], pktI);
        old(trace).TcpNowListed(tcp, udp, key, pktI);
        return TableInsert;
      }
      result := TryItems(pktI, flow);
      if result == TableInsert {
        ghost var tcp1 := tcp;
        InsertTcp(pktI, flow);
        old(trace).TcpInsertUndisturbed(bufs[..], tcp1, udp, key, tcp[key][|tcp1[key]|], pktI);
        old(trace).StillUndisturbed(bufs[..], old(tcp), udp, bufs[..], tcp1, udp, bufs[..], tcp, udp, pktI);
        old(trace).TcpNowListed(tcp, udp, key, pktI);
      } else if result == Noop {
        LeaveAlone(pktI);
      }
    }

    /** The items of the packet's flow that are left once they have been tried. */
    ghost function TcpRest(pktI: nat, flow: Flow): seq<TcpItem>
      reads this`tcp, bufs
      requires flow.TcpFlow?
    {
      if flow.tcpKey in tcp then TcpLeft(bufs[..], tcp[flow.tcpKey], |tcp[flow.tcpKey]|, pktI, flow.tcphLen, offset) else []
    }

    /** A packet that enters no table. */
    ghost method LeaveAlone(pktI: nat)
      requires Valid() && pktI == |trace.home| < |trace.input| && !trace.FlowAt(pktI).UdpFlow?
      modifies this`trace
      ensures Valid() && trace == old(trace).Alone() && !old(trace).Listed(tcp, udp, pktI)
    {
      hide Trace.Tracked, FlowOf, Trace.TcpList, Trace.UdpList, Trace.Buffers, Trace.Tables;
      trace.NotListedYet(bufs[..], tcp, udp);
      trace.AloneTables(bufs[..], tcp, udp);
      trace.TrackedAlone(tcp, udp);
      trace := trace.Alone();
    }

    /** Appends a new item for packet `pktI` to the list of its flow. */
    method InsertTcp(pktI: nat, flow: Flow)
      requires Valid() && pktI == |trace.home| < |trace.input| && flow.TcpFlow? && flow == trace.FlowAt(pktI)
      requires flow.tcpKey in tcp
      modifies this`tcp, this`trace
      ensures Valid() && trace == old(trace).Alone()
      ensures flow.tcphLen >= 20 && IphLen(flow.tcpKey.isV6) + flow.tcphLen <= |trace.input[pktI]|
      ensures tcp == old(tcp)[flow.tcpKey := old(tcp[flow.tcpKey]) + [NewTcpItem(flow.tcpKey, flow.tcphLen, trace.input[pktI], pktI)]]
    {
      hide Trace.Tracked, FlowOf, Trace.TcpList, Trace.UdpList, U32, Trace.Buffers;
      ghost var b := bufs[..];
      trace.OwnBuffer(b);
      trace.TcpSizes(pktI);
      var pkt, key := bufs[pktI].pkt, flow.tcpKey;
      var iphLen := IphLen(key.isV6);
      trace.SeqAt(key.isV6, pktI);
      var item := TcpItem(key, U32(pkt, iphLen + 4), pktI, 0, |pkt| - iphLen - flow.tcphLen, iphLen, flow.tcphLen,
                          pkt[iphLen + 13] == ACKPSH);
      ghost var tcp0 := tcp;
      trace.TcpInserted(b, tcp[key], item);
      trace.AloneBuffers(b);
      tcp := tcp[key := tcp[key] + [item]];
      trace.TcpStepTables(b, tcp0, udp, trace.Alone(), b, pktI, tcp);
      trace.TrackedMore(tcp0, udp, tcp, udp);
      trace.TrackedAlone(tcp, udp);
      trace := trace.Alone();
    }

    /** The items of a flow are tried from the newest to the oldest. */
    method TryItems(pktI: nat, flow: Flow) returns (result: GroResult)
      requires Valid() && pktI == |trace.home| < |trace.input| && flow.TcpFlow? && flow == trace.FlowAt(pktI)
      requires flow.tcpKey in tcp
      modifies this`tcp, this`trace, bufs
      ensures Valid() && flow.tcpKey in tcp && trace.input == old(trace.input)
      ensures result != Coalesced ==> trace == old(trace)
      ensures result == Coalesced ==> |trace.home| == pktI + 1 && trace.origin.Keys == old(trace.origin.Keys)
      ensures result == old(TcpSearch(bufs[..], tcp[flow.tcpKey], |tcp[flow.tcpKey]|, pktI, flow.tcphLen, offset))
      ensures old(trace).Undisturbed(old(bufs[..]), old(tcp), udp, bufs[..], tcp, udp, pktI)
      ensures result == Coalesced ==> old(trace).Untouched(trace, old(bufs[..]), bufs[..], pktI)
      ensures result != Coalesced ==> bufs[..] == old(bufs[..])
      ensures result != Coalesced ==>
        tcp == old(tcp)[flow.tcpKey := old(TcpLeft(bufs[..], tcp[flow.tcpKey], |tcp[flow.tcpKey]|, pktI, flow.tcphLen, offset))]
    {
      hide Trace.Tracked, FlowOf, Trace.UdpList, Trace.TcpList, Trace.Buffers, TcpOutcome, Comparable, Trace.Untouched, Trace.BadSum, Trace.Undisturbed, Trace.Listed, MergedBufs, TcpCan;
      var key := flow.tcpKey;
      var items := tcp[key];
      ghost var b := bufs[..];
      trace.BufferCount(b);
      trace.NothingDisturbed(b, tcp, udp, pktI);
      var i := |items| - 1;
      while i >= 0
        invariant -1 <= i < |items| && Valid() && trace == old(trace) && key in tcp && bufs[..] == b
        invariant TcpSearch(b, items, |items|, pktI, flow.tcphLen, offset) == TcpSearch(b, items, i + 1, pktI, flow.tcphLen, offset)
        invariant i < |tcp[key]| && tcp[key][..i + 1] == items[..i + 1]
        invariant trace.Undisturbed(b, old(tcp), udp, b, tcp, udp, pktI)
        invariant TcpLeft(b, items, |items|, pktI, flow.tcphLen, offset) == TcpLeft(b, tcp[key], i + 1, pktI, flow.tcphLen, offset)
        invariant tcp == old(tcp)[key := tcp[key]]
      {
        assert tcp[key][i] == items[i] by { assert tcp[key][..i + 1][i] == items[..i + 1][i]; }
        assert tcp[key][..i] == items[..i] by { assert tcp[key][..i + 1][..i] == items[..i + 1][..i]; }
        ghost var tcp1 := tcp;
        assert trace.TcpList(b, key, tcp1[key]);
        var r := TryItem(pktI, flow, i);
        if r == Success {
          OtherBufs(TcpCan(b, items[i], pktI, flow.tcphLen), b, items[i], pktI);
          old(trace).TcpMergeUndisturbed(b, tcp1, udp, bufs[..], key, i, tcp[key][i], pktI);
          old(trace).StillUndisturbed(b, old(tcp), udp, b, tcp1, udp, bufs[..], tcp, udp, pktI);
          MergeUntouched(old(trace), b, items[i], pktI, TcpCan(b, items[i], pktI, flow.tcphLen), trace);
          return Coalesced;
        } else if r == PktInvalidCSum {
          return Noop;
        } else if r == ItemInvalidCSum {
          InvalidItem(trace, b, key, tcp1[key], i, pktI, flow.tcphLen, offset);
          trace.TcpDropUndisturbed(b, tcp1, udp, key, i, pktI);
          trace.StillUndisturbed(b, old(tcp), udp, b, tcp1, udp, b, tcp, udp, pktI);
        }
        i := i - 1;
      }
      result := TableInsert;
    }

    /** Item `i` of the flow: merged into, dropped for a bad checksum, or left as it is. */
    method TryItem(pktI: nat, flow: Flow, i: nat) returns (r: CoalesceResult)
      requires Valid() && pktI == |trace.home| < |trace.input| && flow.TcpFlow? && flow == trace.FlowAt(pktI)
      requires flow.tcpKey in tcp && i < |tcp[flow.tcpKey]|
      modifies this`tcp, this`trace, bufs
      ensures Valid() && flow.tcpKey in tcp && trace.input == old(trace.input)
      ensures i <= |tcp[flow.tcpKey]| && tcp[flow.tcpKey][..i] == old(tcp[flow.tcpKey][..i])
      ensures r != Success ==> trace == old(trace)
      ensures r == Success ==> |trace.home| == pktI + 1 && trace.origin.Keys == old(trace.origin.Keys)
      ensures r == Success ==> var w := old(tcp[flow.tcpKey][i].bufsIndex);
        w in old(trace).origin && exists append :: trace == old(trace).Into(w, old(trace).Extended(w, append))
      ensures r != Success ==> bufs[..] == old(bufs[..])
      ensures old(Comparable(bufs[..], tcp[flow.tcpKey][i], pktI, flow.tcphLen))
      ensures r == old(TcpOutcome(bufs[..], tcp[flow.tcpKey][i], pktI, flow.tcphLen, offset))
      ensures r == Success ==> old(tcp[flow.tcpKey][i].tcphLen) == flow.tcphLen
      ensures r == Success ==>
        var mode := old(TcpCan(bufs[..], tcp[flow.tcpKey][i], pktI, flow.tcphLen));
        && tcp == old(tcp)[flow.tcpKey := old(tcp[flow.tcpKey])[i := MergedItem(mode, old(tcp[flow.tcpKey][i]), old(bufs[pktI].pkt))]]
        && bufs[..] == MergedBufs(mode, old(bufs[..]), old(tcp[flow.tcpKey][i]), pktI)
      ensures r == ItemInvalidCSum ==> tcp == old(tcp)[flow.tcpKey := old(tcp[flow.tcpKey][..i] + tcp[flow.tcpKey][i + 1..])]
      ensures r != Success && r != ItemInvalidCSum ==> tcp == old(tcp)
    {
      hide Trace.Tracked, FlowOf, Trace.UdpList, Trace.TcpItemOk, Trace.Buffers, TcpPacketsCanCoalesce, Trace.TcpMergeable, U32,
           TcpVerdict, MergedBufs, MergedItem;
      var key := flow.tcpKey;
      ghost var b := bufs[..];
      assert trace.TcpList(b, key, tcp[key]);
      var item := tcp[key][i];
      trace.Comparable(b, item);
      trace.TcpItemShape(b, key, tcp[key], i);
      trace.OwnBuffer(b);
      var pkt := bufs[pktI].pkt;
      var can := TcpPacketsCanCoalesce(pkt, item.iphLen, flow.tcphLen, U32(pkt, item.iphLen + 4), pkt[item.iphLen + 13] == ACKPSH,
                                       |pkt| - flow.tcphLen - item.iphLen, item, bufs[item.bufsIndex].pkt);
      DifferentLengths(pkt, flow.tcphLen, item, bufs[item.bufsIndex].pkt);
      if can == Unavailable {
        return InsufficientCap;
      }
      var item';
      r, item' := CoalesceTcpPackets(can, pktI, item);
      if r == Success {
        FinishTcpMerge(b, pktI, key, i, can == Append, item');
      } else if r == ItemInvalidCSum {
        DropItem(key, i);
      }
    }

    /** Files the merged item and records where the packet went. */
    method FinishTcpMerge(ghost b: seq<Buf>, pktI: nat, key: TcpKey, i: nat, append: bool, item': TcpItem)
      requires Capacities() && trace.canUDPGRO == canUDPGRO && pktI == |trace.home| < |trace.input| == |b| == bufs.Length
      requires trace.Buffers(b) && trace.Tables(b, tcp, udp) && trace.Tracked(tcp, udp) && key in tcp && i < |tcp[key]|
      requires trace.FlowAt(pktI).TcpFlow?
      requires tcp[key][i].bufsIndex in trace.origin && TcpMergedInto(b, tcp[key][i], item', pktI, append)
      modifies this`tcp, this`trace
      ensures tcp == old(tcp)[key := old(tcp[key])[i := item']]
      ensures Valid() && key in tcp && i <= |tcp[key]| && tcp[key][..i] == old(tcp[key][..i])
      ensures trace == old(trace).Into(old(tcp[key][i].bufsIndex), old(trace).Extended(old(tcp[key][i].bufsIndex), append))
      ensures trace.input == old(trace.input) && |trace.home| == pktI + 1 && trace.origin.Keys == old(trace.origin.Keys)
    {
      hide Trace.Tracked, FlowOf, Trace.UdpList, Trace.TcpItemOk, Trace.Buffers, Trace.TcpList;
      ghost var items, w := tcp[key], tcp[key][i].bufsIndex;
      assert items[i].key == key && trace.FlowAt(w).TcpFlow? && trace.FlowAt(w).tcpKey == key by { trace.TcpListPlace(b, key, items, i); }
      trace.TcpMerged(b, key, items, i, append, bufs[..], item');
      ghost var t := trace.Into(w, trace.Extended(w, append));
      ghost var tcp0 := tcp;
      tcp := tcp[key := tcp[key][i := item']];
      trace.TcpStepTables(b, tcp0, udp, t, bufs[..], w, tcp);
      trace.TrackedTcpMerge(tcp0, udp, key, i, item', trace.Extended(w, append));
      trace := t;
      assert trace.origin.Keys == old(trace.origin.Keys);
    }

    method DropItem(key: TcpKey, i: nat)
      requires Valid() && key in tcp && i < |tcp[key]| && tcp[key][i].numMerged == 0
      modifies this`tcp
      ensures tcp == old(tcp)[key := old(tcp[key][..i] + tcp[key][i + 1..])]
      ensures Valid() && key in tcp && i <= |tcp[key]| && tcp[key][..i] == old(tcp[key][..i])
    {
      hide Trace.Tracked, FlowOf, Trace.UdpList, Trace.Buffers, Trace.TcpList;
      trace.TcpDropped(bufs[..], key, tcp[key], i);
      trace.TcpItemShape(bufs[..], key, tcp[key], i);
      trace.TrackedDrop(tcp, udp, key, i);
      tcp := tcp[key := tcp[key][..i] + tcp[key][i + 1..]];
    }

    // ----- UDP

    /** One UDP packet: merged into the last item of its flow, or started as a new item behind it. */
    method UdpGRO(pktI: nat, isV6: bool) returns (result: GroResult)
      requires Valid() && pktI == |trace.home| < |trace.input|
      requires IphLen(isV6) + UDPHLEN <= |trace.input[pktI]| && trace.FlowAt(pktI) == ParseUdp(trace.input[pktI], isV6)
      modifies this`udp, this`trace, bufs
      ensures Valid() && trace.input == old(trace.input) && |trace.home| == pktI + 1
      ensures result != Coalesced ==> trace == old(trace).Alone()
      ensures result == Coalesced ==> trace.origin.Keys == old(trace.origin.Keys)
      ensures result == match ParseUdp(trace.input[pktI], isV6) {
          case UdpFlow(key) => if old(UdpLast(pktI, key)) == Success then Coalesced else TableInsert
          case _ => Noop
        }
      ensures result == TableInsert ==>
        var key := ParseUdp(trace.input[pktI], isV6).udpKey;
        udp == old(udp)[key := (if key in old(udp) then old(udp)[key] else [])
                               + [NewUdpItem(key, trace.input[pktI], pktI, old(UdpLast(pktI, key)) == PktInvalidCSum)]]
      ensures old(trace).Undisturbed(old(bufs[..]), tcp, old(udp), bufs[..], tcp, udp, pktI)
      ensures result != Coalesced ==> (result == TableInsert <==> old(trace).Listed(tcp, udp, pktI))
      ensures old(trace).Untouched(trace, old(bufs[..]), bufs[..], pktI) && (result != Coalesced ==> bufs[..] == old(bufs[..]))
    {
      hide Trace.Tracked, Trace.Undisturbed, Trace.Untouched, NewUdpItem, Trace.Listed, ParseUdp, FlowOf, Trace.Buffers, Trace.TcpList, UdpPacketsCanCoalesce, Trace.UdpItemOk, Trace.UdpMergeable, Trace.Arrivals, Trace.Flat;
      ghost var b := bufs[..];
      trace.OwnBuffer(b);
      trace.NothingDisturbed(b, tcp, udp, pktI);
      trace.AloneUntouched(b, b);
      var pkt := bufs[pktI].pkt;
      var flow := ParseUdp(pkt, isV6);
      if flow.Raw? {
        LeaveAlone(pktI);
        return Noop;
      }
      var key := flow.udpKey;
      if key !in udp {
        trace.UdpFirst(b, tcp, udp, key);
        InsertUdp(pktI, key, [], false);
        old(trace).UdpInsertUndisturbed(b, tcp, old(udp), key, udp[key][0], pktI);
        old(trace).UdpNowListed(tcp, udp, key, pktI);
        return TableInsert;
      }
      result := UdpExisting(pktI, key);
      if result == TableInsert {
        old(trace).UdpNowListed(tcp, udp, key, pktI);
      }
    }

    /** The packet of a flow that has items: merged into the last one, or started as a new item behind it. */
    method UdpExisting(pktI: nat, key: UdpKey) returns (result: GroResult)
      requires Valid() && pktI == |trace.home| < |trace.input| && trace.FlowAt(pktI) == UdpFlow(key) && key in udp
      modifies this`udp, this`trace, bufs
      ensures Valid() && trace.input == old(trace.input) && |trace.home| == pktI + 1
      ensures result != Coalesced ==> trace == old(trace).Alone()
      ensures result == Coalesced ==> trace.origin.Keys == old(trace.origin.Keys)
      ensures result == if old(UdpLast(pktI, key)) == Success then Coalesced else TableInsert
      ensures IphLen(key.isV6) + UDPHLEN <= |trace.input[pktI]|
      ensures result == TableInsert ==>
        udp == old(udp)[key := old(udp)[key] + [NewUdpItem(key, trace.input[pktI], pktI, old(UdpLast(pktI, key)) == PktInvalidCSum)]]
      ensures old(trace).Undisturbed(old(bufs[..]), tcp, old(udp), bufs[..], tcp, udp, pktI)
      ensures old(trace).Untouched(trace, old(bufs[..]), bufs[..], pktI) && (result != Coalesced ==> bufs[..] == old(bufs[..]))
    {
      hide Trace.Tracked, Trace.Undisturbed, Trace.Untouched, NewUdpItem, Trace.Listed, FlowOf, Trace.Buffers, Trace.TcpList, Trace.UdpItemOk, Trace.Arrivals, Trace.Flat, UdpTried;
      trace.OwnBuffer(bufs[..]);
      trace.UdpSizes(pktI);
      assert trace.UdpList(bufs[..], key, udp[key]);
      var r := TryLast(pktI, key);
      if r == Success {
        return Coalesced;
      }
      ghost var b := bufs[..];
      InsertUdp(pktI, key, udp[key], r == PktInvalidCSum);
      old(trace).AloneUntouched(b, b);
      old(trace).UdpInsertUndisturbed(b, tcp, old(udp), key, udp[key][|old(udp[key])|], pktI);
      return TableInsert;
    }

    method TryLast(pktI: nat, key: UdpKey) returns (r: CoalesceResult)
      requires Valid() && pktI == |trace.home| < |trace.input| && trace.FlowAt(pktI) == UdpFlow(key) && key in udp
      modifies this`udp, this`trace, bufs
      ensures Valid() && trace.input == old(trace.input)
      ensures r == old(UdpLast(pktI, key))
      ensures r != Success ==> trace == old(trace) && udp == old(udp) && bufs[..] == old(bufs[..])
      ensures r == Success ==> |trace.home| == pktI + 1 && trace.origin.Keys == old(trace.origin.Keys)
      ensures r == Success ==> old(trace).Undisturbed(old(bufs[..]), tcp, old(udp), bufs[..], tcp, udp, pktI)
      ensures r == Success ==> old(trace).Untouched(trace, old(bufs[..]), bufs[..], pktI)
    {
      hide Trace.Tracked, Trace.Undisturbed, Trace.Untouched, Trace.Listed, FlowOf, Trace.Buffers, Trace.TcpList, UdpPacketsCanCoalesce, Trace.UdpItemOk,
           Trace.UdpMergeable, Trace.Arrivals, Trace.Flat, MergedUdpBufs;
      ghost var b := bufs[..];
      trace.OwnBuffer(b);
      var pkt, items := bufs[pktI].pkt, udp[key];
      assert trace.UdpList(b, key, items);
      trace.UdpComparable(b, key, items);
      var item := items[|items| - 1];
      if UdpPacketsCanCoalesce(pkt, item.iphLen, |pkt| - UDPHLEN - item.iphLen, item, bufs[item.bufsIndex].pkt) != Append {
        return InsufficientCap;
      }
      r := CoalesceUdpPackets(pktI, key);
      if r == Success {
        OtherUdpBufs(b, item, pktI);
        old(trace).UdpMergeUndisturbed(b, tcp, old(udp), bufs[..], key, udp[key][|items| - 1], pktI);
        UdpMergeUntouched(old(trace), b, item, pktI);
      }
    }

    /** What comes of trying to merge the packet into the last item of its flow. */
    ghost function UdpLast(pktI: nat, key: UdpKey): CoalesceResult
      reads this`udp, bufs
    {
      UdpTried(bufs[..], if key in udp then udp[key] else [], pktI, offset)
    }

    method InsertUdp(pktI: nat, key: UdpKey, items: seq<UdpItem>, invalid: bool)
      requires Valid() && pktI == |trace.home| < |trace.input| && trace.FlowAt(pktI) == UdpFlow(key)
      requires if key in udp then items == udp[key] && |items| > 0 else items == [] && trace.Arrivals(pktI, key) == []
      modifies this`udp, this`trace
      ensures Valid() && trace == old(trace).Alone()
      ensures IphLen(key.isV6) + UDPHLEN <= |trace.input[pktI]|
      ensures udp == old(udp)[key := items + [NewUdpItem(key, trace.input[pktI], pktI, invalid)]]
    {
      hide Trace.Tracked, FlowOf, Trace.TcpList, Trace.UdpList, Trace.Buffers, Trace.Arrivals;
      ghost var b := bufs[..];
      trace.OwnBuffer(b);
      trace.UdpSizes(pktI);
      var pkt := bufs[pktI].pkt;
      var iphLen := IphLen(key.isV6);
      var item := UdpItem(key, pktI, 0, |pkt| - iphLen - UDPHLEN, iphLen, invalid);
      ghost var udp0 := udp;
      trace.UdpInserted(b, items, item);
      trace.AloneBuffers(b);
      udp := udp[key := items + [item]];
      trace.UdpStepTables(b, tcp, udp0, trace.Alone(), b, pktI, key, udp);
      trace.TrackedMore(tcp, udp0, tcp, udp);
      trace.TrackedAlone(tcp, udp);
      trace := trace.Alone();
    }

    /** Merges packet `pktI` into the last item of its flow, if checksums and capacity allow. */
    method CoalesceUdpPackets(pktI: nat, key: UdpKey) returns (r: CoalesceResult)
      requires Valid() && pktI == |trace.home| < |trace.input| && trace.FlowAt(pktI) == UdpFlow(key) && key in udp && |udp[key]| > 0
      requires trace.UdpMergeable(bufs[..], udp[key][|udp[key]| - 1])
      modifies this`udp, this`trace, bufs
      ensures Valid() && trace.input == old(trace.input)
      ensures r != Success ==> trace == old(trace) && udp == old(udp) && bufs[..] == old(bufs[..])
      ensures r == Success ==> |trace.home| == pktI + 1 && trace.origin.Keys == old(trace.origin.Keys)
      ensures r == old(UdpLast(pktI, key))
      ensures r == Success ==>
        && udp == old(udp)[key := old(udp[key][..|udp[key]| - 1]) + [old(udp[key][|udp[key]| - 1]).(numMerged := old(udp[key][|udp[key]| - 1]).numMerged + 1)]]
        && old(UdpReady(bufs[..], udp[key][|udp[key]| - 1], pktI))
        && bufs[..] == MergedUdpBufs(old(bufs[..]), old(udp[key][|udp[key]| - 1]), pktI)
      ensures r == Success ==> var w := old(udp[key][|udp[key]| - 1].bufsIndex);
        w in old(trace).origin && trace == old(trace).Into(w, old(trace).Extended(w, true))
    {
      hide Trace.Tracked, FlowOf, Trace.TcpList, Trace.Buffers, Trace.UdpItemOk, Trace.Arrivals, Trace.Flat, Trace.UdpMergeable, UdpPacketsCanCoalesce;
      ghost var b := bufs[..];
      trace.OwnBuffer(b);
      var items := udp[key];
      assert trace.UdpList(b, key, items);
      trace.UdpComparable(b, key, items);
      trace.UdpMergeableCan(b, items[|items| - 1]);
      var item := items[|items| - 1];
      var w := item.bufsIndex;
      var pkt, target := bufs[pktI].pkt, bufs[w].pkt;
      var headersLen := item.iphLen + UDPHLEN;
      if bufs[w].cap < |target| + |pkt| - headersLen + offset {
        return InsufficientCap;
      }
      r := CheckUdpSums(item, target, pkt);
      if r == Success {
        trace.UdpVerified(b, item);
        AppendUdp(pktI, key);
      }
    }

    /** As for TCP, but a failed check is remembered in the item. */
    method CheckUdpSums(item: UdpItem, target: seq<byte>, pkt: seq<byte>) returns (r: CoalesceResult)
      requires item.iphLen == IphLen(item.key.isV6) && item.iphLen <= |target| && item.iphLen <= |pkt|
      ensures r == UdpSums(item, target, pkt)
    {
      if item.numMerged == 0 {
        var ok := CheckChecksum(little, target, item.iphLen, UDP, item.key.isV6);
        if item.cSumKnownInvalid || !ok {
          return ItemInvalidCSum;
        }
      }
      var ok := CheckChecksum(little, pkt, item.iphLen, UDP, item.key.isV6);
      return if ok then Success else PktInvalidCSum;
    }

    method AppendUdp(pktI: nat, key: UdpKey)
      requires Valid() && pktI == |trace.home| < |trace.input| && trace.FlowAt(pktI) == UdpFlow(key) && key in udp && |udp[key]| > 0
      requires trace.UdpMergeable(bufs[..], udp[key][|udp[key]| - 1])
      requires var it := udp[key][|udp[key]| - 1];
        && pktI < bufs.Length && it.bufsIndex < bufs.Length && it.iphLen + UDPHLEN <= |bufs[pktI].pkt|
        && |bufs[it.bufsIndex].pkt| + |bufs[pktI].pkt| - (it.iphLen + UDPHLEN) + offset <= bufs[it.bufsIndex].cap
        && it.bufsIndex in trace.origin && trace.AllVerified(it.bufsIndex, it.key.isV6, UDP)
      modifies this`udp, this`trace, bufs
      ensures Valid() && trace.input == old(trace.input) && |trace.home| == pktI + 1 && trace.origin.Keys == old(trace.origin.Keys)
      ensures udp == old(udp)[key := old(udp[key][..|udp[key]| - 1]) + [old(udp[key][|udp[key]| - 1]).(numMerged := old(udp[key][|udp[key]| - 1]).numMerged + 1)]]
      ensures bufs[..] == MergedUdpBufs(old(bufs[..]), old(udp[key][|udp[key]| - 1]), pktI)
      ensures var w := old(udp[key][|udp[key]| - 1].bufsIndex); trace == old(trace).Into(w, old(trace).Extended(w, true))
    {
      hide Trace.Tracked, FlowOf, Trace.TcpList, Trace.Buffers, Trace.UdpItemOk, Trace.Arrivals, Trace.Flat, Trace.UdpMergeable;
      ghost var b := bufs[..];
      trace.OwnBuffer(b);
      var items := udp[key];
      assert trace.UdpList(b, key, items);
      trace.UdpComparable(b, key, items);
      hide Trace.Tracked, Trace.UdpList;
      var item := items[|items| - 1];
      var w := item.bufsIndex;
      bufs[w] := bufs[w].(pkt := bufs[w].pkt + bufs[pktI].pkt[item.iphLen + UDPHLEN..]);
      trace.UdpAppended(b, item, bufs[..]);
      FinishUdpMerge(b, key, item.(numMerged := item.numMerged + 1));
    }

    /** Files the merged item and records where the packet went. */
    method FinishUdpMerge(ghost b: seq<Buf>, key: UdpKey, item': UdpItem)
      requires Capacities() && trace.canUDPGRO == canUDPGRO && |trace.home| < |trace.input| == |b| == bufs.Length
      requires trace.Buffers(b) && trace.Tables(b, tcp, udp) && trace.Tracked(tcp, udp) && key in udp && |udp[key]| > 0
      requires trace.FlowAt(|trace.home|) == UdpFlow(key) && item'.key == key && item'.bufsIndex == udp[key][|udp[key]| - 1].bufsIndex
      requires forall v :: 0 <= v < bufs.Length && v != item'.bufsIndex ==> bufs[v] == b[v]
      requires item'.bufsIndex in trace.origin && trace.Into(item'.bufsIndex, trace.Extended(item'.bufsIndex, true)).UdpItemOk(bufs[..], item')
      modifies this`udp, this`trace
      ensures udp == old(udp)[key := old(udp[key][..|udp[key]| - 1]) + [item']]
      ensures trace == old(trace).Into(item'.bufsIndex, old(trace).Extended(item'.bufsIndex, true))
      ensures Valid() && trace.input == old(trace.input) && |trace.home| == old(|trace.home|) + 1 && trace.origin.Keys == old(trace.origin.Keys)
    {
      hide Trace.Tracked, FlowOf, Trace.TcpList, Trace.UdpList, Trace.Buffers, Trace.UdpItemOk;
      var items := udp[key];
      ghost var w := item'.bufsIndex;
      trace.UdpListPlace(b, key, items, |items| - 1);
      trace.UdpMerged(b, key, items, bufs[..], item');
      ghost var t, udp0 := trace.Into(w, trace.Extended(w, true)), udp;
      udp := udp[key := items[..|items| - 1] + [item']];
      trace.UdpStepTables(b, tcp, udp0, t, bufs[..], w, key, udp);
      trace.TrackedUdpMerge(tcp, udp0, key, item', trace.Extended(w, true));
      trace := t;
      assert trace.origin.Keys == old(trace.origin.Keys);
    }

    // ----- Accounting

    /** New headers for the packet of one item, if anything was merged into it. */
    method AccountTcpItem(key: TcpKey, k: nat)
      requires Valid() && |trace.home| == |trace.input| && key in tcp && k < |tcp[key]|
      modifies bufs
      ensures Valid() && tcp[key][k].bufsIndex < bufs.Length && TcpAnnounced(bufs[tcp[key][k].bufsIndex], tcp[key][k])
      ensures forall v :: 0 <= v < bufs.Length && v != tcp[key][k].bufsIndex ==> bufs[v] == old(bufs[v])
    {
      hide FlowOf, Trace.Tracked, Trace.TcpList, Trace.UdpList, Trace.Buffers, SaysLength, HoldsPseudoSum, Trace.Reheaded;
      var it := tcp[key][k];
      ghost var b := bufs[..];
      trace.TcpItemShape(b, key, tcp[key], k);
      var w := it.bufsIndex;
      if it.numMerged > 0 {
        var pkt := AccountTcpPacket(little, bufs[w].pkt, key.isV6);
        bufs[w] := bufs[w].(vnet := TcpHdr(it), pkt := pkt);
        trace.TcpReheaded(b, bufs[..], w, it);
        trace.TcpTablesReheaded(b, bufs[..], tcp, udp, key, k);
      } else {
        bufs[w] := bufs[w].(vnet := ZERO_HDR);
        trace.SamePackets(b, bufs[..], tcp, udp);
      }
    }

    method AccountUdpItem(key: UdpKey, k: nat)
      requires Valid() && |trace.home| == |trace.input| && key in udp && k < |udp[key]|
      modifies bufs
      ensures Valid() && udp[key][k].bufsIndex < bufs.Length && UdpAnnounced(bufs[udp[key][k].bufsIndex], udp[key][k])
      ensures forall v :: 0 <= v < bufs.Length && v != udp[key][k].bufsIndex ==> bufs[v] == old(bufs[v])
    {
      hide FlowOf, Trace.Tracked, Trace.TcpList, Trace.UdpList, Trace.Buffers, SaysLength, HoldsPseudoSum, Trace.Reheaded;
      var it := udp[key][k];
      ghost var b := bufs[..];
      trace.UdpItemShape(b, key, udp[key], k);
      var w := it.bufsIndex;
      if it.numMerged > 0 {
        var pkt := AccountUdpPacket(little, bufs[w].pkt, key.isV6);
        bufs[w] := bufs[w].(vnet := UdpHdr(it), pkt := pkt);
        trace.UdpReheaded(b, bufs[..], w, it);
        trace.UdpTablesReheaded(b, bufs[..], tcp, udp, key, k);
      } else {
        bufs[w] := bufs[w].(vnet := ZERO_HDR);
        trace.SamePackets(b, bufs[..], tcp, udp);
      }
    }

    ghost predicate TcpAccounted(keys: set<TcpKey>)
      reads this`tcp, bufs
    {
      forall key {:trigger tcp[key]} :: key in keys && key in tcp ==> TcpDone(bufs[..], tcp[key], |tcp[key]|)
    }

    ghost predicate UdpAccounted(keys: set<UdpKey>)
      reads this`udp, bufs
    {
      forall key {:trigger udp[key]} :: key in keys && key in udp ==> UdpDone(bufs[..], udp[key], |udp[key]|)
    }

    /** The items of one flow. */
    method AccountTcpFlow(key: TcpKey, ghost done: set<TcpKey>)
      requires Valid() && |trace.home| == |trace.input| && key in tcp && key !in done && TcpAccounted(done)
      modifies bufs
      ensures Valid() && TcpAccounted(done + {key}) && trace.Undisturbed(old(bufs[..]), tcp, udp, bufs[..], tcp, udp, bufs.Length)
    {
      hide FlowOf, Trace.Tracked, Trace.TcpList, Trace.UdpList, Trace.Buffers, TcpAnnounced, TcpDone;
      var k := 0;
      trace.BufferCount(bufs[..]);
      TcpNoneDone(bufs[..], tcp[key]);
      while k < |tcp[key]|
        invariant k <= |tcp[key]| && Valid() && TcpAccounted(done) && TcpDone(bufs[..], tcp[key], k)
        invariant trace.Undisturbed(old(bufs[..]), tcp, udp, bufs[..], tcp, udp, bufs.Length)
      {
        ghost var b, w := bufs[..], tcp[key][k].bufsIndex;
        trace.TcpListPlace(b, key, tcp[key], k);
        assert trace.Listed(tcp, udp, w);
        AccountTcpItem(key, k);
        TcpDoneStep(b, bufs[..], key, k);
        forall q | q in done && q in tcp ensures TcpDone(bufs[..], tcp[q], |tcp[q]|) {
          trace.OtherTcpKey(b, q, tcp[q], w);
          TcpDoneFrame(b, bufs[..], tcp[q], |tcp[q]|, w);
        }
        k := k + 1;
      }
    }

    lemma TcpDoneStep(b: seq<Buf>, b': seq<Buf>, key: TcpKey, k: nat)
      requires |trace.home| <= |trace.input| && key in tcp && k < |tcp[key]| && |b| == |b'| && trace.TcpList(b, key, tcp[key])
      requires TcpDone(b, tcp[key], k) && tcp[key][k].bufsIndex < |b|
      requires forall v :: 0 <= v < |b| && v != tcp[key][k].bufsIndex ==> b'[v] == b[v]
      requires TcpAnnounced(b'[tcp[key][k].bufsIndex], tcp[key][k])
      ensures TcpDone(b', tcp[key], k + 1)
    {
      hide Trace.TcpItemOk, TcpAnnounced;
      TcpDoneFrame(b, b', tcp[key], k, tcp[key][k].bufsIndex);
    }

    method AccountUdpFlow(key: UdpKey, ghost done: set<UdpKey>)
      requires Valid() && |trace.home| == |trace.input| && key in udp && key !in done && TcpAccounted(tcp.Keys) && UdpAccounted(done)
      modifies bufs
      ensures Valid() && TcpAccounted(tcp.Keys) && UdpAccounted(done + {key})
      ensures trace.Undisturbed(old(bufs[..]), tcp, udp, bufs[..], tcp, udp, bufs.Length)
    {
      hide FlowOf, Trace.Tracked, Trace.TcpList, Trace.UdpList, Trace.Buffers, UdpAnnounced, UdpDone, TcpDone;
      var k := 0;
      trace.BufferCount(bufs[..]);
      UdpNoneDone(bufs[..], udp[key]);
      while k < |udp[key]|
        invariant k <= |udp[key]| && Valid() && TcpAccounted(tcp.Keys) && UdpAccounted(done) && UdpDone(bufs[..], udp[key], k)
        invariant trace.Undisturbed(old(bufs[..]), tcp, udp, bufs[..], tcp, udp, bufs.Length)
      {
        ghost var b, w := bufs[..], udp[key][k].bufsIndex;
        trace.UdpListPlace(b, key, udp[key], k);
        assert trace.Listed(tcp, udp, w);
        AccountUdpItem(key, k);
        UdpDoneStep(b, bufs[..], key, k);
        forall q | q in done && q in udp ensures UdpDone(bufs[..], udp[q], |udp[q]|) {
          trace.OtherUdpKey(b, q, udp[q], w);
          UdpDoneFrame(b, bufs[..], udp[q], |udp[q]|, w);
        }
        forall q | q in tcp ensures TcpDone(bufs[..], tcp[q], |tcp[q]|) {
          trace.OtherTcpKey(b, q, tcp[q], w);
          TcpDoneFrame(b, bufs[..], tcp[q], |tcp[q]|, w);
        }
        k := k + 1;
      }
    }

    lemma UdpDoneStep(b: seq<Buf>, b': seq<Buf>, key: UdpKey, k: nat)
      requires |trace.home| <= |trace.input| && key in udp && k < |udp[key]| && |b| == |b'| && trace.UdpList(b, key, udp[key])
      requires UdpDone(b, udp[key], k) && udp[key][k].bufsIndex < |b|
      requires forall v :: 0 <= v < |b| && v != udp[key][k].bufsIndex ==> b'[v] == b[v]
      requires UdpAnnounced(b'[udp[key][k].bufsIndex], udp[key][k])
      ensures UdpDone(b', udp[key], k + 1)
    {
      hide Trace.UdpItemOk, UdpAnnounced, Trace.Flat, Trace.Arrivals;
      UdpDoneFrame(b, b', udp[key], k, udp[key][k].bufsIndex);
    }

    method ApplyTCPCoalesceAccounting()
      requires Valid() && |trace.home| == |trace.input|
      modifies bufs
      ensures Valid() && TcpAccounted(tcp.Keys) && trace.Undisturbed(old(bufs[..]), tcp, udp, bufs[..], tcp, udp, bufs.Length)
    {
      hide FlowOf, Trace.Tracked, Trace.Tables, Trace.Buffers, TcpDone, Trace.Listed;
      trace.BufferCount(bufs[..]);
      var keys := tcp.Keys;
      ghost var done := {};
      while keys != {}
        invariant keys !! done && keys + done == tcp.Keys && Valid() && TcpAccounted(done)
        invariant trace.Undisturbed(old(bufs[..]), tcp, udp, bufs[..], tcp, udp, bufs.Length)
        decreases |keys|
      {
        var key :| key in keys;
        AccountTcpFlow(key, done);
        keys, done := keys - {key}, done + {key};
      }
      assert done == tcp.Keys;
    }

    method ApplyUDPCoalesceAccounting()
      requires Valid() && |trace.home| == |trace.input| && TcpAccounted(tcp.Keys)
      modifies bufs
      ensures Valid() && TcpAccounted(tcp.Keys) && UdpAccounted(udp.Keys)
      ensures trace.Undisturbed(old(bufs[..]), tcp, udp, bufs[..], tcp, udp, bufs.Length)
    {
      hide FlowOf, Trace.Tracked, Trace.Tables, Trace.Buffers, TcpDone, UdpDone, Trace.Listed;
      trace.BufferCount(bufs[..]);
      var keys := udp.Keys;
      ghost var done := {};
      while keys != {}
        invariant keys !! done && keys + done == udp.Keys && Valid() && TcpAccounted(tcp.Keys) && UdpAccounted(done)
        invariant trace.Undisturbed(old(bufs[..]), tcp, udp, bufs[..], tcp, udp, bufs.Length)
        decreases |keys|
      {
        var key :| key in keys;
        AccountUdpFlow(key, done);
        keys, done := keys - {key}, done + {key};
      }
      assert done == udp.Keys;
    }

    // ----- The batch

    /** What to do with packet `i`. */
    method Dispatch(i: nat) returns (result: GroResult)
      requires Valid() && i == |trace.home| < |trace.input|
      modifies this`tcp, this`udp, this`trace, bufs
      ensures Valid() && trace.input == old(trace.input) && |trace.home| == i + 1
      ensures result != Coalesced ==> trace == old(trace).Alone() && bufs[..] == old(bufs[..])
      ensures result == Coalesced ==> trace.origin.Keys == old(trace.origin.Keys)
      ensures result != Coalesced ==> (result == TableInsert <==> old(trace).Listed(tcp, udp, i))
      ensures old(trace).FlowAt(i).Raw? ==> result == Noop
      ensures old(trace).Undisturbed(old(bufs[..]), old(tcp), old(udp), bufs[..], tcp, udp, i)
      ensures old(trace).Untouched(trace, old(bufs[..]), bufs[..], i)
      ensures Follows(trace.input[i], canUDPGRO, offset, Stage(old(bufs[..]), old(tcp), old(udp)), Stage(bufs[..], tcp, udp), i, result)
    {
      hide TcpSearch, TcpLeft, NewTcpItem, NewUdpItem, ParseTcp, ParseUdp, Trace.Tables, Trace.Tracked, Trace.Buffers, Trace.Listed, Trace.Undisturbed,
           Trace.Untouched;
      trace.OwnBuffer(bufs[..]);
      trace.NothingDisturbed(bufs[..], tcp, udp, i);
      trace.AloneUntouched(bufs[..], bufs[..]);
      match PacketIsGROCandidate(bufs[i].pkt, canUDPGRO) {
        case Tcp4 => result := TcpGRO(i, false);
        case Tcp6 => result := TcpGRO(i, true);
        case Udp4 => result := UdpGRO(i, false);
        case Udp6 => result := UdpGRO(i, true);
        case NotCandidate =>
          LeaveAlone(i);
          result := Noop;
      }
    }

    /** A packet that joins no table gets an empty virtio header. */
    method Offer(i: nat) returns (result: GroResult)
      requires Valid() && i == |trace.home| < |trace.input|
      modifies this`tcp, this`udp, this`trace, bufs
      ensures Valid() && trace.input == old(trace.input) && |trace.home| == i + 1
      ensures result != Coalesced ==> trace == old(trace).Alone()
      ensures result == Coalesced ==> trace.origin.Keys == old(trace.origin.Keys)
      ensures old(trace).FlowAt(i).Raw? ==> result == Noop
      ensures old(trace).Undisturbed(old(bufs[..]), old(tcp), old(udp), bufs[..], tcp, udp, i)
      ensures result == Noop ==> trace.Plain(bufs[..], tcp, udp, i)
      ensures result == TableInsert ==> trace.Listed(tcp, udp, i) && bufs[..] == old(bufs[..])
      ensures old(trace).Untouched(trace, old(bufs[..]), bufs[..], i)
      ensures Follows(trace.input[i], canUDPGRO, offset, Stage(old(bufs[..]), old(tcp), old(udp)), Stage(bufs[..], tcp, udp), i, result)
    {
      hide FlowOf, TcpSearch, TcpLeft, NewTcpItem, Trace.Tables, Trace.Tracked, Trace.Buffers, Trace.Listed, Trace.Undisturbed, Trace.Untouched;
      result := Dispatch(i);
      if result != Coalesced {
        old(trace).AloneListed(tcp, udp, i);
      }
      if result == Noop {
        ghost var b := bufs[..];
        ClearHeader(i);
        old(trace).OwnUndisturbed(old(bufs[..]), old(tcp), old(udp), b, bufs[..], tcp, udp);
        old(trace).AloneUntouched(old(bufs[..]), bufs[..]);
      }
    }

    method ClearHeader(i: nat)
      requires Valid() && i < |trace.input| && !trace.Listed(tcp, udp, i)
      modifies bufs
      ensures Valid() && trace.Plain(bufs[..], tcp, udp, i) && forall v :: 0 <= v < bufs.Length && v != i ==> bufs[v] == old(bufs[v])
    {
      hide Trace.Tables, Trace.Tracked, Trace.Buffers, Trace.Listed;
      ghost var b := bufs[..];
      trace.BufferCount(b);
      bufs[i] := bufs[i].(vnet := ZERO_HDR);
      trace.SamePackets(b, bufs[..], tcp, udp);
    }

    ghost function Now(): Stage
      reads this`tcp, this`udp, bufs
    {
      Stage(bufs[..], tcp, udp)
    }

    /** One packet of the batch. */
    method OfferNext(i: nat, ghost was: seq<Buf>, ghost results: seq<GroResult>) returns (ghost result: GroResult)
      requires Valid() && WritesAll() && i == |trace.home| < |trace.input| == bufs.Length && |results| == i
      requires Accounted(trace, was, Now(), toWrite, results)
      modifies this`tcp, this`udp, this`trace, this`toWrite, bufs
      ensures Valid() && WritesAll() && trace.input == old(trace.input) && |trace.home| == i + 1
      ensures Accounted(trace, was, Now(), toWrite, results + [result])
      ensures Follows(trace.input[i], canUDPGRO, offset, old(Now()), Now(), i, result)
    {
      hide Trace.Tables, Trace.Tracked, Trace.Buffers, FlowOf, Trace.Written, Trace.Plain, Trace.Undisturbed, Trace.Untouched, Trace.Listed, Accounted,
           Follows;
      ghost var before := trace;
      before.WrittenAlone(bufs[..], toWrite);
      before.NextUnwritten(bufs[..], toWrite);
      var r := Offer(i);
      result := r;
      before.WrittenSame(trace, toWrite);
      AccountNext(before, trace, was, old(Now()), Now(), toWrite, results, r);
      if r != Coalesced {
        toWrite := toWrite + [i];
      }
    }

    /** Offers every packet of the batch to the tables, then accounts for what was merged. Of the buffers that are
      written, those left alone go out under an empty header, those of items under the header that describes them, and
      those whose item was dropped for its bad checksum as they were given. */
    method HandleGRO() returns (err: bool, ghost results: seq<GroResult>, ghost stages: seq<Stage>)
      requires Valid() && trace.home == [] && toWrite == []
      modifies this`tcp, this`udp, this`trace, this`toWrite, bufs
      ensures trace.input == old(trace.input) && |trace.input| == bufs.Length && trace.canUDPGRO == canUDPGRO
      ensures err <==> !Readable(trace.input, offset, |trace.input|)
      ensures !err ==> Finished(trace, bufs[..], tcp, udp) && trace.Written(toWrite)
      ensures !err ==> |results| == bufs.Length && forall w :: 0 <= w < bufs.Length ==>
        (trace.FlowAt(w).Raw? ==> results[w] == Noop) && (w in toWrite <==> results[w] != Coalesced)
      ensures !err ==> forall w :: 0 <= w < bufs.Length && results[w] == Noop ==>
        w in toWrite && bufs[w].pkt == trace.input[w] && bufs[w].vnet == ZERO_HDR
      ensures !err ==> forall w :: 0 <= w < bufs.Length && results[w] == TableInsert && !trace.Listed(tcp, udp, w) ==>
        trace.BadSum(w) && bufs[w] == old(bufs[w])
      ensures !err ==> Staged(trace, offset, stages, results) && stages[0] == Stage(old(bufs[..]), old(tcp), old(udp))
      ensures !err ==> stages[bufs.Length].tcp == tcp && stages[bufs.Length].udp == udp
    {
      hide Trace.Tables, Trace.Tracked, Trace.Buffers, FlowOf, Trace.Written, Trace.Plain, Trace.Undisturbed, Trace.Listed, Trace.BadSum, AsGiven,
           DropsBad, NoopsPlain, Staged, Follows;
      trace.BufferCount(bufs[..]);
      trace.WrittenNothing(bufs[..]);
      ghost var was := bufs[..];
      results, stages := [], [Now()];
      NothingOffered(trace, was, tcp, udp, offset, stages);
      for i := 0 to bufs.Length
        invariant Valid() && WritesAll() && |trace.home| == i && trace.input == old(trace.input) && |trace.input| == bufs.Length
        invariant Readable(trace.input, offset, i) && |results| == i && Accounted(trace, was, Now(), toWrite, results)
        invariant |stages| == i + 1 && stages[i] == Now() && Staged(trace, offset, stages, results)
        invariant stages[0] == Stage(was, old(tcp), old(udp))
      {
        trace.OwnBuffer(bufs[..]);
        if offset < 10 || |bufs[i].pkt| == 0 {
          return true, results, stages;
        }
        ghost var before := trace;
        ghost var result := OfferNext(i, was, results);
        SameStaged(before, trace, offset, stages, results);
        NextStage(trace, offset, stages, results, Now(), result);
        results, stages := results + [result], stages + [Now()];
      }
      ghost var last := Now();
      ApplyTCPCoalesceAccounting();
      ghost var b1 := bufs[..];
      ApplyUDPCoalesceAccounting();
      trace.StillUndisturbed(last.b, tcp, udp, b1, tcp, udp, bufs[..], tcp, udp, bufs.Length);
      NoopsStay(trace, trace, last, Now(), bufs.Length, results);
      NoopsUntouched(results);
      DroppedAsGiven(was, last.b, results);
      err := false;
    }

    /** A buffer whose item was dropped is as it was given. */
    lemma DroppedAsGiven(was: seq<Buf>, b: seq<Buf>, results: seq<GroResult>)
      requires Valid() && WritesAll() && Told(trace, toWrite, results) && |results| == bufs.Length == |trace.input| == |b| == |was|
      requires AsGiven(trace, was, b, results) && DropsBad(trace, tcp, udp, results)
      requires trace.Undisturbed(b, tcp, udp, bufs[..], tcp, udp, bufs.Length)
      ensures forall w :: 0 <= w < bufs.Length && results[w] == TableInsert && !trace.Listed(tcp, udp, w) ==> trace.BadSum(w) && bufs[w] == was[w]
    {
      hide Trace.Tables, Trace.Buffers, Trace.Listed, FlowOf, Trace.BadSum;
      forall w | 0 <= w < bufs.Length && results[w] == TableInsert && !trace.Listed(tcp, udp, w) ensures bufs[w] == was[w] {
        assert w in toWrite;
        assert |trace.origin[w]| == 1 by { trace.PlacedSome(bufs[..], w); }
        assert bufs[..][w] == b[w];
      }
    }

    lemma NoopsUntouched(results: seq<GroResult>)
      requires Valid() && WritesAll() && NoopsPlain(trace, Now(), results) && Told(trace, toWrite, results) && |results| <= bufs.Length == |trace.input|
      ensures forall w :: 0 <= w < |results| && results[w] == Noop ==> bufs[w].pkt == trace.input[w] && bufs[w].vnet == ZERO_HDR
    {
      hide Trace.Tables, Trace.Tracked, Trace.Buffers, Trace.Listed, FlowOf;
      forall w | 0 <= w < |results| && results[w] == Noop ensures bufs[w].pkt == trace.input[w] && bufs[w].vnet == ZERO_HDR {
        assert w in toWrite && trace.Plain(bufs[..], tcp, udp, w);
        trace.PlainPacket(bufs[..], tcp, udp, w);
      }
    }

    /** A buffer that was merged, handed to `gsoSplit` as its virtio header says, comes apart into the packets
      that were merged into it. */
    method SplitBuffer(w: nat, isV6: bool, input: array<byte>, outBuffs: array<seq<byte>>, sizes: array<nat>, outOffset: nat)
      returns (n: int, err: bool)
      requires Finished(trace, bufs[..], tcp, udp) && w in trace.origin && |trace.origin[w]| > 1
      requires w < |trace.input| && w < bufs.Length && isV6 == IsV6At(trace, w) && input[..] == bufs[w].pkt
      requires Room(bufs[w].vnet, input.Length, outBuffs[..], sizes.Length, outOffset)
      modifies input, outBuffs, sizes
      ensures !err ==>
        && n == |trace.origin[w]| && n <= outBuffs.Length && n <= sizes.Length
        && (forall k :: 0 <= k < n ==> outOffset + sizes[k] <= |outBuffs[k]|)
        && ComesApart(trace, w, Slices(outBuffs[..], sizes[..], outOffset, n))
    {
      hide Finished, WellFormed, SplitsInto, ComesApart, Room, Filled, ClearedOf, FlowOf;
      BufferRecovers(trace, bufs[..], tcp, udp, w, []);
      WellFormedInside(bufs[w].vnet, input.Length, isV6);
      n, err := GsoSplit(little, input, bufs[w].vnet, outBuffs, sizes, outOffset, isV6);
      if !err {
        ghost var segs := Slices(outBuffs[..], sizes[..], outOffset, n);
        BufferRecovers(trace, bufs[..], tcp, udp, w, segs);
        Apart(trace, w, segs);
      }
    }
  }

  lemma WellFormedInside(hdr: VirtioHdr, size: nat, isV6: bool)
    requires WellFormed(hdr, size, isV6)
    ensures Inside(hdr, size, isV6)
  {
  }

  lemma Apart(t: Trace, w: nat, segs: seq<seq<byte>>)
    requires w in t.origin && w < |t.input| && ComesApart(t, w, segs)
    ensures |segs| == |t.origin[w]|
  {
  }

  lemma NothingOffered(t: Trace, was: seq<Buf>, tcp: map<TcpKey, seq<TcpItem>>, udp: map<UdpKey, seq<UdpItem>>, offset: nat, stages: seq<Stage>)
    requires |stages| == 1
    ensures Accounted(t, was, Stage(was, tcp, udp), [], []) && Staged(t, offset, stages, [])
  {
  }

  lemma SameStaged(t: Trace, t': Trace, offset: nat, stages: seq<Stage>, results: seq<GroResult>)
    requires Staged(t, offset, stages, results) && t'.input == t.input && t'.canUDPGRO == t.canUDPGRO
    ensures Staged(t', offset, stages, results)
  {
    hide Follows;
  }

  lemma MergeUntouched(t: Trace, b: seq<Buf>, it: TcpItem, pktI: nat, mode: CanCoalesce, t': Trace)
    requires t.Buffers(b) && Comparable(b, it, pktI, it.tcphLen) && pktI == |t.home| && it.bufsIndex in t.origin
    requires exists append :: t' == t.Into(it.bufsIndex, t.Extended(it.bufsIndex, append))
    ensures |MergedBufs(mode, b, it, pktI)| == |b| && t.Untouched(t', b, MergedBufs(mode, b, it, pktI), pktI)
  {
    hide Trace.Untouched, Trace.Holds, Trace.Appended, FlowOf;
    assert t.PlacedAt(it.bufsIndex);
    var append :| t' == t.Into(it.bufsIndex, t.Extended(it.bufsIndex, append));
    t.IntoUntouched(it.bufsIndex, append, b, MergedBufs(mode, b, it, pktI));
  }

  lemma UdpMergeUntouched(t: Trace, b: seq<Buf>, it: UdpItem, pktI: nat)
    requires t.Buffers(b) && UdpReady(b, it, pktI) && pktI == |t.home| && it.bufsIndex in t.origin
    ensures |MergedUdpBufs(b, it, pktI)| == |b|
    ensures t.Untouched(t.Into(it.bufsIndex, t.Extended(it.bufsIndex, true)), b, MergedUdpBufs(b, it, pktI), pktI)
  {
    hide Trace.Untouched, Trace.Holds, FlowOf;
    assert t.PlacedAt(it.bufsIndex);
    t.IntoUntouched(it.bufsIndex, true, b, MergedUdpBufs(b, it, pktI));
  }

  lemma DifferentLengths(pkt: seq<byte>, tcphLen: nat, item: TcpItem, target: seq<byte>)
    requires item.iphLen + tcphLen < |pkt| && tcphLen >= 20 && item.iphLen + item.tcphLen <= |target| && item.gsoSize > 0
    ensures tcphLen != item.tcphLen ==>
      TcpPacketsCanCoalesce(pkt, item.iphLen, tcphLen, U32(pkt, item.iphLen + 4), pkt[item.iphLen + 13] == ACKPSH,
                            |pkt| - tcphLen - item.iphLen, item, target) == Unavailable
  {
    hide U32;
  }
}
