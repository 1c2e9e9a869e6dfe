/** What a whole batch looks like once `handleGRO` is done with it: nothing is lost, and UDP datagrams
  of a flow leave in the order they came. */
module GroOrder {
  import opened Bytes
  import opened Gso
  import opened Packets
  import opened Sequences
  import opened GroFlows
  import opened GroMerge
  import opened GroState
  import opened GroAccounting
  import opened GroRoundTrip

  /** The state at the end of `handleGRO`. */
  ghost predicate Finished(t: Trace, b: seq<Buf>, tcp: map<TcpKey, seq<TcpItem>>, udp: map<UdpKey, seq<UdpItem>>) {
    && t.Buffers(b) && |t.home| == |t.input| && t.Tables(b, tcp, udp) && t.Tracked(tcp, udp)
    && (forall key {:trigger tcp[key]} :: key in tcp ==> TcpDone(b, tcp[key], |tcp[key]|))
    && (forall key {:trigger udp[key]} :: key in udp ==> UdpDone(b, udp[key], |udp[key]|))
  }

  predicate IsV6At(t: Trace, w: nat)
    requires w < |t.input|
  {
    match t.FlowAt(w)
    case Raw => false
    case TcpFlow(key, _) => key.isV6
    case UdpFlow(key) => key.isV6
  }

  /** Sequence numbers and flow keys come back too, and what was merged had come with valid checksums. */
  ghost predicate HeadersBack(t: Trace, w: nat, segs: seq<seq<byte>>)
    requires w in t.origin && w < |t.input| && |segs| == |t.origin[w]|
  {
    match t.FlowAt(w)
    case Raw => false
    case TcpFlow(key, _) =>
      && (forall k :: 0 <= k < |segs| ==> HeaderBack(t, w, key, segs, k))
      && (forall j :: j in t.origin[w] ==> Trace.VerifiedAt(t.input, j, key.isV6, TCP))
    case UdpFlow(key) =>
      && (forall k :: 0 <= k < |segs| ==> UdpHeaderBack(key, segs[k]))
      && (forall j :: j in t.origin[w] ==> Trace.VerifiedAt(t.input, j, key.isV6, UDP))
  }

  ghost predicate ComesApart(t: Trace, w: nat, segs: seq<seq<byte>>)
    requires w in t.origin && w < |t.input|
  {
    Recovered(t, w, segs) && |segs| == |t.origin[w]| && HeadersBack(t, w, segs)
  }

  /** Every buffer either is a packet of the batch, untouched, or describes itself to `gsoSplit`, which
    then puts out exactly the packets merged into it: payloads, flow key and TCP sequence numbers. */
  lemma BufferRecovers(t: Trace, b: seq<Buf>, tcp: map<TcpKey, seq<TcpItem>>, udp: map<UdpKey, seq<UdpItem>>, w: nat, segs: seq<seq<byte>>)
    requires Finished(t, b, tcp, udp) && w in t.origin
    ensures w < |b| == |t.input|
    ensures |t.origin[w]| == 1 ==> b[w].pkt == t.input[w]
    ensures |t.origin[w]| != 1 ==> WellFormed(b[w].vnet, |b[w].pkt|, IsV6At(t, w))
    ensures |t.origin[w]| != 1 && SplitsInto(b[w].pkt, b[w].vnet, IsV6At(t, w), segs) ==> ComesApart(t, w, segs)
  {
    hide FlowOf, Trace.TcpList, Trace.UdpList, TcpAnnounced, UdpAnnounced, SplitsInto, WellFormed, Recovered, Join, ComesApart;
    assert t.Holds(b, w);
    assert t.PlacedAt(w);
    if |t.origin[w]| != 1 {
      assert t.Listed(tcp, udp, w);
      match t.FlowAt(w) {
        case TcpFlow(key, _) =>
          var i :| 0 <= i < |tcp[key]| && tcp[key][i].bufsIndex == w;
          TcpBuffer(t, b, key, tcp[key], i, segs);
        case UdpFlow(key) =>
          var i :| 0 <= i < |udp[key]| && udp[key][i].bufsIndex == w;
          UdpBuffer(t, b, key, udp[key], i, segs);
      }
    }
  }

  lemma TcpBuffer(t: Trace, b: seq<Buf>, key: TcpKey, items: seq<TcpItem>, i: nat, segs: seq<seq<byte>>)
    requires t.TcpList(b, key, items) && TcpDone(b, items, |items|) && i < |items|
    ensures var w := items[i].bufsIndex;
      && w in t.origin && w < |b| && w < |t.input|
      && (|t.origin[w]| > 1 ==> WellFormed(b[w].vnet, |b[w].pkt|, key.isV6))
      && (|t.origin[w]| > 1 && SplitsInto(b[w].pkt, b[w].vnet, key.isV6, segs) ==> ComesApart(t, w, segs))
  {
    hide FlowOf, Trace.TcpItemOk, SplitsInto, WellFormed, Recovered, SaysLength, HoldsPseudoSum, HeaderBack, Trace.VerifiedAt;
    var it := items[i];
    t.TcpItemShape(b, key, items, i);
    if it.numMerged > 0 {
      assert t.TcpItemOk(b, it) && TcpAnnounced(b[it.bufsIndex], it);
      TcpHdrWellFormed(t, b, it);
      TcpItemVerified(t, b, it);
      if SplitsInto(b[it.bufsIndex].pkt, b[it.bufsIndex].vnet, key.isV6, segs) {
        TcpRoundTrip(t, b, key, items, i, segs);
      }
    }
  }

  lemma TcpItemVerified(t: Trace, b: seq<Buf>, it: TcpItem)
    requires t.TcpItemOk(b, it) && it.numMerged > 0
    ensures it.bufsIndex in t.origin && forall j :: j in t.origin[it.bufsIndex] ==> Trace.VerifiedAt(t.input, j, it.key.isV6, TCP)
  {
    hide FlowOf, Sized, Contiguous, SeqOf, Trace.HeaderOf, Trace.Holds, Trace.VerifiedAt;
  }

  lemma UdpItemVerified(t: Trace, b: seq<Buf>, it: UdpItem)
    requires t.UdpItemOk(b, it) && it.numMerged > 0
    ensures it.bufsIndex in t.origin && forall j :: j in t.origin[it.bufsIndex] ==> Trace.VerifiedAt(t.input, j, it.key.isV6, UDP)
  {
    hide FlowOf, Sized, Trace.HeaderOf, Trace.Holds, Trace.VerifiedAt;
  }

  lemma UdpBuffer(t: Trace, b: seq<Buf>, key: UdpKey, items: seq<UdpItem>, i: nat, segs: seq<seq<byte>>)
    requires |t.home| <= |t.input| && t.UdpList(b, key, items) && UdpDone(b, items, |items|) && i < |items|
    ensures var w := items[i].bufsIndex;
      && w in t.origin && w < |b| && w < |t.input|
      && (|t.origin[w]| > 1 ==> WellFormed(b[w].vnet, |b[w].pkt|, key.isV6))
      && (|t.origin[w]| > 1 && SplitsInto(b[w].pkt, b[w].vnet, key.isV6, segs) ==> ComesApart(t, w, segs))
  {
    hide FlowOf, Trace.UdpItemOk, SplitsInto, WellFormed, Recovered, SaysLength, HoldsPseudoSum, Trace.Flat, Trace.Arrivals, UdpHeaderBack, Trace.VerifiedAt;
    var it := items[i];
    t.UdpItemShape(b, key, items, i);
    if it.numMerged > 0 {
      assert t.UdpItemOk(b, it) && UdpAnnounced(b[it.bufsIndex], it);
      UdpHdrWellFormed(t, b, it);
      UdpItemVerified(t, b, it);
      if SplitsInto(b[it.bufsIndex].pkt, b[it.bufsIndex].vnet, key.isV6, segs) {
        UdpRoundTrip(t, b, key, items, i, segs);
      }
    }
  }

  // ----- UDP order

  ghost predicate Increasing(s: seq<nat>) {
    forall a, b :: 0 <= a < b < |s| ==> s[a] < s[b]
  }

  /** Two increasing sequences of the same numbers are equal. */
  lemma {:induction false} IncreasingSame(s: seq<nat>, t: seq<nat>)
    requires Increasing(s) && Increasing(t) && forall x :: x in s <==> x in t
    ensures s == t
  {
    assert |t| > 0 ==> t[0] in s;
    if |s| == 0 {
    } else {
      assert s[0] in t;
      var m, n := |s| - 1, |t| - 1;
      SameLast(s, t);
      WithoutLast(s);
      WithoutLast(t);
      forall x ensures x in s[..m] <==> x in t[..n] {
        assert x in s <==> x in t;
      }
      IncreasingSame(s[..m], t[..n]);
      assert s == s[..m] + [s[m]] && t == t[..n] + [t[n]];
    }
  }

  lemma SameLast(s: seq<nat>, t: seq<nat>)
    requires Increasing(s) && Increasing(t) && |s| > 0 && |t| > 0 && forall x :: x in s <==> x in t
    ensures s[|s| - 1] == t[|t| - 1]
  {
    assert s[|s| - 1] in t && t[|t| - 1] in s;
  }

  lemma WithoutLast(s: seq<nat>)
    requires Increasing(s) && |s| > 0
    ensures Increasing(s[..|s| - 1]) && forall x :: x in s[..|s| - 1] <==> x in s && x != s[|s| - 1]
  {
    assert s == s[..|s| - 1] + [s[|s| - 1]];
  }

  /** The written buffers of one UDP flow. */
  ghost function OfFlow(t: Trace, ws: seq<nat>, key: UdpKey): seq<nat> {
    if ws == [] then []
    else
      var w := ws[|ws| - 1];
      OfFlow(t, ws[..|ws| - 1], key) + if w < |t.input| && t.FlowAt(w) == UdpFlow(key) then [w] else []
  }

  lemma {:induction false} OfFlowIs(t: Trace, ws: seq<nat>, key: UdpKey)
    requires Increasing(ws)
    ensures Increasing(OfFlow(t, ws, key))
    ensures forall w :: w in OfFlow(t, ws, key) <==> w in ws && w < |t.input| && t.FlowAt(w) == UdpFlow(key)
  {
    hide FlowOf, Increasing;
    if ws == [] {
    } else {
      var n := |ws| - 1;
      assert ws == ws[..n] + [ws[n]];
      IncreasingFront(ws[..n], ws[n]);
      OfFlowIs(t, ws[..n], key);
      IncreasingStep(OfFlow(t, ws[..n], key), ws[n]);
    }
  }

  lemma IncreasingFront(s: seq<nat>, x: nat)
    requires Increasing(s + [x])
    ensures Increasing(s) && forall y :: y in s ==> y < x
  {
    assert forall i :: 0 <= i < |s| ==> (s + [x])[i] == s[i];
    assert (s + [x])[|s|] == x;
  }

  lemma IncreasingStep(s: seq<nat>, x: nat)
    requires Increasing(s) && forall y :: y in s ==> y < x
    ensures Increasing(s + [x]) && Increasing(s + [])
  {
    assert s + [] == s;
    forall a, b | 0 <= a < b < |s + [x]| ensures (s + [x])[a] < (s + [x])[b] {
      assert s[a] in s;
    }
  }

  /** The packets in buffers `ws`, in the order they are written. */
  ghost function PacketsIn(t: Trace, ws: seq<nat>): seq<nat> {
    if ws == [] then []
    else PacketsIn(t, ws[..|ws| - 1]) + if ws[|ws| - 1] in t.origin then t.origin[ws[|ws| - 1]] else []
  }

  lemma PacketsStep(t: Trace, ws: seq<nat>, i: nat)
    requires i < |ws| && ws[i] in t.origin
    ensures PacketsIn(t, ws[..i + 1]) == PacketsIn(t, ws[..i]) + t.origin[ws[i]]
  {
    assert ws[..i + 1][..i] == ws[..i];
  }

  lemma {:induction false} PacketsUpTo(t: Trace, b: seq<Buf>, ws: seq<nat>, i: nat)
    requires t.Buffers(b) && t.Written(ws) && i <= |ws|
    ensures Distinct(PacketsIn(t, ws[..i]))
    ensures forall j :: j in PacketsIn(t, ws[..i]) <==> 0 <= j < |t.home| && t.home[j] in ws[..i]
  {
    hide Trace.Holds, PacketsIn;
    if i == 0 {
      NoPackets(t);
    } else {
      var w, before := ws[i - 1], PacketsIn(t, ws[..i - 1]);
      assert w in ws;
      PacketsUpTo(t, b, ws, i - 1);
      PacketsStep(t, ws, i - 1);
      assert t.PlacedAt(w);
      assert ws[..i] == ws[..i - 1] + [w];
      assert w !in ws[..i - 1];
      DistinctJoin(before, t.origin[w]);
    }
  }

  lemma NoPackets(t: Trace)
    ensures PacketsIn(t, []) == []
  {
  }

  lemma DistinctJoin(a: seq<nat>, b: seq<nat>)
    requires Distinct(a) && Distinct(b) && forall x :: x in a ==> x !in b
    ensures Distinct(a + b)
  {
    forall i, j | 0 <= i < j < |a + b| ensures (a + b)[i] != (a + b)[j] {
      if i < |a| <= j {
        assert a[i] in a && b[j - |a|] in b;
      }
    }
  }

  /** The written buffers hold every packet of the batch exactly once: read in order, they list a permutation of it. */
  lemma EveryPacketOnce(t: Trace, b: seq<Buf>, ws: seq<nat>)
    requires t.Buffers(b) && |t.home| == |t.input| && t.Written(ws)
    ensures Distinct(PacketsIn(t, ws)) && forall j :: j in PacketsIn(t, ws) <==> 0 <= j < |t.input|
  {
    hide Trace.Holds, PacketsIn;
    PacketsUpTo(t, b, ws, |ws|);
    assert ws[..|ws|] == ws;
  }

  ghost function Indices(items: seq<UdpItem>): (s: seq<nat>)
    ensures |s| == |items| && forall i :: 0 <= i < |s| ==> s[i] == items[i].bufsIndex
  {
    seq(|items|, i requires 0 <= i < |items| => items[i].bufsIndex)
  }

  lemma {:induction false} FlatIsPackets(t: Trace, items: seq<UdpItem>)
    ensures t.Flat(items) == PacketsIn(t, Indices(items))
  {
    if items == [] {
    } else {
      FlatIsPackets(t, items[..|items| - 1]);
      assert Indices(items)[..|items| - 1] == Indices(items[..|items| - 1]);
    }
  }

  lemma {:induction false} InFlat(t: Trace, items: seq<UdpItem>, j: nat) returns (i: nat)
    requires j in t.Flat(items)
    ensures i < |items| && items[i].bufsIndex in t.origin && j in t.origin[items[i].bufsIndex]
  {
    var n := |items| - 1;
    if j in t.Flat(items[..n]) {
      i := InFlat(t, items[..n], j);
    } else {
      i := n;
    }
  }

  lemma {:induction false} InArrivals(t: Trace, n: nat, key: UdpKey, j: nat)
    requires j < n <= |t.input| && t.FlowAt(j) == UdpFlow(key)
    ensures j in t.Arrivals(n, key)
  {
    hide FlowOf;
    if j >= n - 1 {
    } else {
      InArrivals(t, n - 1, key, j);
    }
  }

  /** A buffer of a UDP flow belongs to an item of that flow. */
  lemma UdpBufferListed(t: Trace, b: seq<Buf>, key: UdpKey, items: seq<UdpItem>, w: nat)
    requires t.Buffers(b) && |t.home| == |t.input| && t.UdpList(b, key, items)
    requires w in t.origin && w < |t.input| && t.FlowAt(w) == UdpFlow(key)
    ensures w in Indices(items)
  {
    hide FlowOf, Trace.Holds, Trace.UdpItemOk, Trace.Flat, Trace.Arrivals;
    assert t.PlacedAt(w);
    InArrivals(t, |t.home|, key, w);
    var i := InFlat(t, items, w);
    assert t.PlacedAt(items[i].bufsIndex);
    assert Indices(items)[i] == w;
  }

  /** The datagrams of every UDP flow are written in the order of their arrival. */
  lemma UdpOrder(t: Trace, b: seq<Buf>, tcp: map<TcpKey, seq<TcpItem>>, udp: map<UdpKey, seq<UdpItem>>, ws: seq<nat>, key: UdpKey)
    requires t.Buffers(b) && |t.home| == |t.input| && t.Tables(b, tcp, udp) && t.Written(ws) && key in udp
    ensures PacketsIn(t, OfFlow(t, ws, key)) == t.Arrivals(|t.input|, key)
  {
    hide FlowOf, Trace.Holds, Trace.UdpItemOk, Trace.Flat, Trace.Arrivals, Trace.Buffers, Trace.TcpList, PacketsIn, OfFlow;
    var items := udp[key];
    assert t.UdpList(b, key, items);
    var s := OfFlow(t, ws, key);
    OfFlowIs(t, ws, key);
    forall w ensures w in s <==> w in Indices(items) {
      if w in s {
        UdpBufferListed(t, b, key, items, w);
      }
      if w in Indices(items) {
        var i :| 0 <= i < |items| && Indices(items)[i] == w;
        t.UdpListPlace(b, key, items, i);
      }
    }
    IncreasingSame(s, Indices(items));
    FlatIsPackets(t, items);
  }
}
