/** The batching of datagrams into GSO messages and back: `coalesceMessages` and
  `splitCoalescedMessages` of conn/bind_std.go. */
module BindStd {
  import opened Bytes
  import opened Sequences
  import opened UdpGso

  const UDP_SEGMENT_MAX_DATAGRAMS: nat := 64

  function MaxPayloadLen(is6: bool): nat {
    if is6 then 65535 - 8 else 65535 - 20 - 8
  }

  // ----- Coalescing

  /** A slice: its contents and the capacity of the memory behind it. */
  datatype Slice = Slice(data: seq<byte>, cap: nat)

  /** Control data: the room for it, the source address put into it, and the segment sizes. */
  datatype Control = Control(cap: nat, src: seq<byte>, gso: seq<nat>)

  /** `setSrcControl` (conn/sticky_linux.go): what was there goes, unless there is no room for the source address. */
  function SetSrcControl(c: Control, src: seq<byte>): Control {
    if c.cap < |src| then c else c.(src := src, gso := [])
  }

  function SetGso(c: Control, sizes: seq<nat>): Control {
    c.(gso := c.gso + sizes)
  }

  /** An outgoing message. */
  datatype Message<A> = Message(buffer: seq<byte>, cap: nat, control: Control, addr: A)

  /** Where to send to, and the source address to send from. */
  datatype Endpoint<A> = Endpoint(addr: A, src: seq<byte>)

  function Datas(g: seq<Slice>): (r: seq<seq<byte>>)
    ensures |r| == |g| && forall k :: 0 <= k < |g| ==> r[k] == g[k].data
  {
    Map((b: Slice) => b.data, g)
  }

  function Joined(g: seq<Slice>): seq<byte> {
    Concat(Datas(g))
  }

  lemma JoinedAppend(g: seq<Slice>, b: Slice)
    ensures Joined(g + [b]) == Joined(g) + b.data
  {
    assert Datas(g + [b]) == Datas(g) + [b.data];
    ConcatAppend(Datas(g), b.data);
  }

  lemma JoinedOne(b: Slice)
    ensures Joined([b]) == b.data
  {
    assert Datas([b]) == [b.data];
    assert Concat([b.data]) == b.data + Concat([]);
  }

  /** A datagram shorter than the first ends its message. */
  ghost predicate Ended(g: seq<Slice>)
    requires |g| > 0
  {
    |g| > 1 && |g[|g| - 1].data| < |g[0].data|
  }

  /** Datagram `b` may join the datagrams `g` of a message. */
  ghost predicate Joins(g: seq<Slice>, b: Slice, max: nat)
    requires |g| > 0
  {
    && |b.data| + |Joined(g)| <= max
    && |b.data| <= |g[0].data|
    && |b.data| + |Joined(g)| <= g[0].cap
    && |g| < UDP_SEGMENT_MAX_DATAGRAMS
    && !Ended(g)
  }

  /** Each datagram of a message but the first was allowed to join. */
  ghost predicate Batch(g: seq<Slice>, max: nat) {
    |g| > 0 && forall k :: 0 < k < |g| ==> Joins(g[..k], g[k], max)
  }

  lemma BatchAppend(g: seq<Slice>, b: Slice, max: nat)
    requires Batch(g, max) && Joins(g, b, max)
    ensures Batch(g + [b], max)
  {
    hide Joins;
    var r := g + [b];
    forall k | 0 < k < |r| ensures Joins(r[..k], r[k], max) {
      if k < |g| {
        assert r[..k] == g[..k] && r[k] == g[k];
      } else {
        assert r[..k] == g;
      }
    }
  }

  /** Only the last datagram of a message is shorter than the first. */
  lemma BatchEven(g: seq<Slice>, max: nat)
    requires Batch(g, max) && |g| > 1
    ensures Even(Datas(g), |g[0].data|)
  {
    hide Joined;
    var n := |g| - 1;
    assert Joins(g[..n], g[n], max);
    forall k | 0 < k < n ensures |g[k].data| == |g[0].data| {
      assert Joins(g[..k], g[k], max);
      assert Joins(g[..k + 1], g[k + 1], max);
    }
  }

  /** A message of several datagrams: at most 64, within the payload limit, only the last short, and its
    segment size fits in 16 bits. */
  lemma BatchShape(g: seq<Slice>, is6: bool)
    requires Batch(g, MaxPayloadLen(is6)) && |g| > 1
    ensures |g| <= 64 && |Joined(g)| <= MaxPayloadLen(is6) && |g[0].data| < TWO16
    ensures Even(Datas(g), |g[0].data|)
  {
    hide Joined, Even, Datas;
    var n := |g| - 1;
    BatchEven(g, MaxPayloadLen(is6));
    assert Joins(g[..n], g[n], MaxPayloadLen(is6));
    assert Joins(g[..1], g[1], MaxPayloadLen(is6));
    assert g == g[..n] + [g[n]] && g[..1] == [g[0]];
    hide Batch;
    JoinedAppend(g[..n], g[n]);
    JoinedOne(g[0]);
  }

  /** Cutting a message of several datagrams at its segment size gives them back, if and only if none is empty. */
  lemma CoalesceCut(g: seq<Slice>, is6: bool)
    requires Batch(g, MaxPayloadLen(is6)) && |g| > 1
    ensures Cut(Joined(g), |g[0].data|) == Datas(g) <==> forall k :: 0 <= k < |g| ==> |g[k].data| > 0
  {
    BatchShape(g, is6);
    CutUndoes(Datas(g));
    assert (forall k :: 0 <= k < |g| ==> |g[k].data| > 0) <==> (forall k :: 0 <= k < |g| ==> |Datas(g)[k]| > 0);
  }

  function Flatten(groups: seq<seq<Slice>>): seq<Slice> {
    if groups == [] then [] else Flatten(groups[..|groups| - 1]) + groups[|groups| - 1]
  }

  lemma FlattenAppend(groups: seq<seq<Slice>>, g: seq<Slice>)
    ensures Flatten(groups + [g]) == Flatten(groups) + g
  {
    assert (groups + [g])[..|groups|] == groups;
  }

  /** The message carries the datagrams `g`; its segment size is set once if there are several, else not. */
  ghost predicate Carries<A>(m: Message<A>, was: Message<A>, g: seq<Slice>, ep: Endpoint<A>)
    requires |g| > 0
  {
    && m.buffer == Joined(g) && m.cap == g[0].cap && m.addr == ep.addr
    && m.control == SetGso(SetSrcControl(was.control, ep.src), if |g| > 1 then [|g[0].data|] else [])
  }

  /** The first `n` messages are settled, and nothing more could have joined any of them. */
  ghost predicate Settled<A(!new)>(msgs: seq<Message<A>>, was: seq<Message<A>>, groups: seq<seq<Slice>>, n: nat, max: nat, ep: Endpoint<A>) {
    && n <= |groups| <= |msgs| == |was|
    && (forall k :: 0 <= k < |groups| ==> Batch(groups[k], max))
    && (forall k :: 0 <= k < n ==> Carries(msgs[k], was[k], groups[k], ep))
    && (forall k :: 0 < k < |groups| ==> !Joins(groups[k - 1], groups[k][0], max))
  }

  /** The last group takes one more datagram. */
  lemma SettledWiden<A(!new)>(msgs: seq<Message<A>>, was: seq<Message<A>>, groups: seq<seq<Slice>>, max: nat, ep: Endpoint<A>, msgs': seq<Message<A>>, g: seq<Slice>)
    requires |groups| > 0 && |msgs'| == |msgs| && Settled(msgs, was, groups, |groups| - 1, max, ep)
    requires Batch(g, max) && Batch(groups[|groups| - 1], max) && g[0] == groups[|groups| - 1][0]
    requires forall k :: 0 <= k < |groups| - 1 ==> msgs'[k] == msgs[k]
    ensures Settled(msgs', was, groups[..|groups| - 1] + [g], |groups| - 1, max, ep)
  {
    hide Joined, Joins;
  }

  /** The last group is complete and a new one starts. */
  lemma SettledClose<A(!new)>(msgs: seq<Message<A>>, was: seq<Message<A>>, groups: seq<seq<Slice>>, max: nat, ep: Endpoint<A>, msgs': seq<Message<A>>, b: Slice)
    requires |msgs'| == |msgs| > |groups| && Settled(msgs, was, groups, if |groups| == 0 then 0 else |groups| - 1, max, ep)
    requires |groups| > 0 ==> Batch(groups[|groups| - 1], max) && Carries(msgs'[|groups| - 1], was[|groups| - 1], groups[|groups| - 1], ep)
    requires |groups| > 0 ==> !Joins(groups[|groups| - 1], b, max)
    requires Batch([b], max)
    requires forall k :: 0 <= k < |groups| - 1 ==> msgs'[k] == msgs[k]
    ensures Settled(msgs', was, groups + [[b]], |groups|, max, ep)
  {
    hide Joined, Joins, Carries;
  }

  /** Packs the datagrams into the messages, greedily and in order; `groups` are the datagrams of each. */
  method CoalesceMessages<A(!new)>(ep: Endpoint<A>, is6: bool, bufs: seq<Slice>, msgs: array<Message<A>>)
    returns (n: nat, ghost groups: seq<seq<Slice>>)
    requires msgs.Length >= |bufs|
    modifies msgs
    ensures n == |groups| <= |bufs| && Flatten(groups) == bufs
    ensures Settled(msgs[..], old(msgs[..]), groups, n, MaxPayloadLen(is6), ep)
    ensures forall k :: n <= k < msgs.Length ==> msgs[k] == old(msgs[k])
  {
    hide Joined, Joins, Batch, Settled, Ended, Open, Flatten, Carries;
    var base, endBatch := -1, false;
    var gsoSize: nat, dgramCnt: nat := 0, 0;
    var maxPayloadLen := MaxPayloadLen(is6);
    groups := [];
    ghost var was := msgs[..];
    SettledNothing(was, maxPayloadLen, ep);
    for i := 0 to |bufs|
      invariant base + 1 == |groups| <= i && (i > 0 <==> base >= 0) && Flatten(groups) == bufs[..i]
      invariant Settled(msgs[..], was, groups, if base < 0 then 0 else base as nat, maxPayloadLen, ep)
      invariant base < 0 ==> dgramCnt == 0
      invariant base >= 0 ==> Open(msgs[base], was[base], groups[base], ep, gsoSize, dgramCnt, endBatch, i == |bufs|)
      invariant forall k :: base < k < msgs.Length ==> msgs[k] == was[k]
    {
      var buf := bufs[i];
      ghost var before := msgs[..];
      assert bufs[..i + 1] == bufs[..i] + [buf];
      if base >= 0 {
        SettledBatch(before, was, groups, base, maxPayloadLen, ep);
        OpenJoins(msgs[base], was[base], groups[base], ep, gsoSize, dgramCnt, endBatch, buf, maxPayloadLen);
      }
      if i > 0 && |buf.data| + |msgs[base].buffer| <= maxPayloadLen && |buf.data| <= gsoSize
         && |buf.data| <= msgs[base].cap - |msgs[base].buffer| && dgramCnt < UDP_SEGMENT_MAX_DATAGRAMS && !endBatch {
        ghost var g := groups[base];
        Widened(before[base], was[base], g, ep, gsoSize, dgramCnt, buf, is6);
        msgs[base] := msgs[base].(buffer := msgs[base].buffer + buf.data);
        if i == |bufs| - 1 {
          msgs[base] := msgs[base].(control := SetGso(msgs[base].control, [gsoSize % TWO16]));
        }
        dgramCnt := dgramCnt + 1;
        if |buf.data| < gsoSize {
          endBatch := true;
        }
        assert msgs[base] == Appended(before[base], buf, gsoSize, i == |bufs| - 1);
        SettledWiden(before, was, groups, maxPayloadLen, ep, msgs[..], g + [buf]);
        assert groups == groups[..base] + [g];
        FlattenWiden(groups[..base], g, buf);
        groups := groups[..base] + [g + [buf]];
      } else {
        if base >= 0 {
          OpenCarries(before[base], was[base], groups[base], ep, gsoSize, dgramCnt, endBatch, is6);
        }
        if dgramCnt > 1 {
          msgs[base] := msgs[base].(control := SetGso(msgs[base].control, [gsoSize % TWO16]));
        }
        endBatch := false;
        base := base + 1;
        gsoSize := |buf.data|;
        msgs[base] := Started(msgs[base], buf, ep);
        dgramCnt := 1;
        NewGroup(before[base], buf, ep, maxPayloadLen, i == |bufs| - 1);
        SettledClose(before, was, groups, maxPayloadLen, ep, msgs[..], buf);
        FlattenAppend(groups, [buf]);
        groups := groups + [[buf]];
      }
    }
    n := base + 1;
    if base >= 0 {
      SettledEnd(msgs[..], was, groups, maxPayloadLen, ep, gsoSize, dgramCnt, endBatch);
    }
    assert bufs[..|bufs|] == bufs;
  }

  lemma SettledNothing<A(!new)>(was: seq<Message<A>>, max: nat, ep: Endpoint<A>)
    ensures Settled(was, was, [], 0, max, ep) && Flatten([]) == []
  {
  }

  lemma SettledBatch<A(!new)>(msgs: seq<Message<A>>, was: seq<Message<A>>, groups: seq<seq<Slice>>, n: nat, max: nat, ep: Endpoint<A>)
    requires n < |groups| && Settled(msgs, was, groups, n, max, ep)
    ensures Batch(groups[n], max) && |groups[n]| > 0
  {
  }

  lemma SettledEnd<A(!new)>(msgs: seq<Message<A>>, was: seq<Message<A>>, groups: seq<seq<Slice>>, max: nat, ep: Endpoint<A>,
                              gsoSize: nat, dgramCnt: nat, endBatch: bool)
    requires |groups| > 0 && Settled(msgs, was, groups, |groups| - 1, max, ep)
    requires Open(msgs[|groups| - 1], was[|groups| - 1], groups[|groups| - 1], ep, gsoSize, dgramCnt, endBatch, true)
    ensures Settled(msgs, was, groups, |groups|, max, ep)
  {
    hide Joined, Joins;
  }

  lemma FlattenWiden(front: seq<seq<Slice>>, g: seq<Slice>, b: Slice)
    ensures Flatten(front + [g + [b]]) == Flatten(front + [g]) + [b]
  {
    hide Flatten;
    FlattenAppend(front, g);
    FlattenAppend(front, g + [b]);
    assert Flatten(front) + (g + [b]) == Flatten(front) + g + [b];
  }

  /** The message being filled: its segment size is set only once the last datagram has been seen. */
  ghost predicate Open<A>(m: Message<A>, was: Message<A>, g: seq<Slice>, ep: Endpoint<A>, gsoSize: nat, dgramCnt: nat, endBatch: bool, atEnd: bool) {
    && |g| > 0 && m.buffer == Joined(g) && m.cap == g[0].cap && m.addr == ep.addr
    && gsoSize == |g[0].data| && dgramCnt == |g| && endBatch == Ended(g)
    && m.control == SetGso(SetSrcControl(was.control, ep.src), if |g| > 1 && atEnd then [|g[0].data|] else [])
  }

  lemma OpenJoins<A>(m: Message<A>, was: Message<A>, g: seq<Slice>, ep: Endpoint<A>, gsoSize: nat, dgramCnt: nat, endBatch: bool, b: Slice, max: nat)
    requires Open(m, was, g, ep, gsoSize, dgramCnt, endBatch, false)
    ensures Joins(g, b, max) <==>
      && |b.data| + |m.buffer| <= max && |b.data| <= gsoSize && |b.data| <= m.cap - |m.buffer|
      && dgramCnt < UDP_SEGMENT_MAX_DATAGRAMS && !endBatch
  {
    hide Joined;
  }

  /** The base message after one more datagram. */
  function Appended<A>(m: Message<A>, b: Slice, gsoSize: nat, last: bool): Message<A> {
    m.(buffer := m.buffer + b.data, control := if last then SetGso(m.control, [gsoSize % TWO16]) else m.control)
  }

  /** The base message when no more datagrams are to join. */
  lemma OpenCarries<A>(m: Message<A>, was: Message<A>, g: seq<Slice>, ep: Endpoint<A>, gsoSize: nat, dgramCnt: nat, endBatch: bool, is6: bool)
    requires Open(m, was, g, ep, gsoSize, dgramCnt, endBatch, false) && Batch(g, MaxPayloadLen(is6))
    ensures Carries(if dgramCnt > 1 then m.(control := SetGso(m.control, [gsoSize % TWO16])) else m, was, g, ep)
  {
    hide Joined, Joins, Batch;
    if |g| > 1 {
      BatchShape(g, is6);
    }
  }

  lemma Widened<A>(m: Message<A>, was: Message<A>, g: seq<Slice>, ep: Endpoint<A>, gsoSize: nat, dgramCnt: nat, b: Slice, is6: bool)
    requires Open(m, was, g, ep, gsoSize, dgramCnt, false, false) && Batch(g, MaxPayloadLen(is6)) && Joins(g, b, MaxPayloadLen(is6))
    ensures Batch(g + [b], MaxPayloadLen(is6))
    ensures forall last :: Open(Appended(m, b, gsoSize, last), was, g + [b], ep, gsoSize, dgramCnt + 1, |b.data| < gsoSize, last)
  {
    BatchAppend(g, b, MaxPayloadLen(is6));
    JoinedAppend(g, b);
    BatchShape(g + [b], is6);
    hide Joined, Batch, Joins;
  }

  /** A message that starts with datagram `b`. */
  function Started<A>(m: Message<A>, b: Slice, ep: Endpoint<A>): Message<A> {
    m.(buffer := b.data, cap := b.cap, control := SetSrcControl(m.control, ep.src), addr := ep.addr)
  }

  lemma NewGroup<A>(was: Message<A>, b: Slice, ep: Endpoint<A>, max: nat, last: bool)
    ensures Batch([b], max)
    ensures Open(Started(was, b, ep), was, [b], ep, |b.data|, 1, false, last)
  {
    JoinedOne(b);
  }

  /** Two datagrams in one message or in two. */
  lemma TwoDatagrams(groups: seq<seq<Slice>>, b: Slice)
    requires |groups| <= 2 && Flatten(groups) == [b, b] && forall k :: 0 <= k < |groups| ==> |groups[k]| > 0
    ensures groups == [[b, b]] || groups == [[b], [b]]
  {
    if |groups| == 0 {
      assert false;
    } else if |groups| == 1 {
      assert groups[..0] == [] && Flatten(groups) == Flatten([]) + groups[0] == groups[0];
    } else {
      assert groups[..1] == [groups[0]] && groups[..1][..0] == [];
      assert Flatten(groups[..1]) == Flatten([]) + groups[0] == groups[0];
      var both := groups[0] + groups[1];
      assert both == [b, b] && |groups[0]| == |groups[1]| == 1;
      assert groups[0] == [both[0]] && groups[1] == [both[1]];
      assert groups == [groups[0], groups[1]];
    }
  }

  lemma EmptyJoins(is6: bool)
    ensures Joins([Slice([], 100)], Slice([], 100), MaxPayloadLen(is6)) && Joined([Slice([], 100), Slice([], 100)]) == []
  {
    var b := Slice([], 100);
    JoinedOne(b);
    assert [b, b] == [b] + [b];
    JoinedAppend([b], b);
  }

  /** Two empty datagrams become one message with a segment size of 0, which stands for one datagram. */
  method EmptyDatagramsLost(is6: bool, src: seq<byte>) returns (msgs: array<Message<nat>>, n: nat)
    ensures n == 1 <= msgs.Length && msgs[0].buffer == [] && msgs[0].control.gso == [0] && Cut(msgs[0].buffer, 0) == [[]]
  {
    hide Joins, Joined, Flatten;
    var b := Slice([], 100);
    msgs := new Message<nat>[2](_ => Message([], 0, Control(100, [], []), 0));
    ghost var groups;
    n, groups := CoalesceMessages(Endpoint(0, src), is6, [b, b], msgs);
    TwoDatagrams(groups, b);
    assert |groups| == 2 ==> !Joins(groups[1 - 1], groups[1][0], MaxPayloadLen(is6));
    EmptyJoins(is6);
    assert Carries(msgs[..][0], Message([], 0, Control(100, [], []), 0), groups[0], Endpoint(0, src));
  }
}
