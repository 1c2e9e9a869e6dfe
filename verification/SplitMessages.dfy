/** `splitCoalescedMessages` of conn/bind_std.go: coalesced messages in the tail of a batch are cut into
  datagrams, which move to the front of the same batch. */
module SplitMessages {
  import opened Wrappers
  import opened Bytes
  import opened Sequences
  import opened Stride
  import opened UdpGso
  import BindStd

  /** An incoming message: its buffer, the number of bytes received into it, its sender, and the segment
    size its control data holds (0 for none, `None` if that cannot be parsed). */
  datatype Message<A> = Message(buf: seq<byte>, n: nat, addr: A, gso: Option<nat>)

  datatype Packet<A> = Packet(data: seq<byte>, addr: A)

  /** What the kernel guarantees: received bytes and segments lie within the buffer. */
  predicate Sound<A>(m: Message<A>) {
    m.n <= |m.buf| && (m.gso.Some? ==> m.gso.value <= |m.buf|)
  }

  /** The pieces the splitting loop copies out of a message. A segment size beyond the received bytes takes
    the buffer up to the segment size. */
  function Pieces<A>(m: Message<A>): (r: seq<seq<byte>>)
    requires Sound(m) && m.gso.Some?
    ensures |r| > 0
  {
    if m.gso.value > m.n then [m.buf[..m.gso.value]] else Cut(m.buf[..m.n], m.gso.value)
  }

  function Tagged<A>(ds: seq<seq<byte>>, addr: A): (r: seq<Packet<A>>)
    ensures |r| == |ds| && forall k :: 0 <= k < |r| ==> r[k] == Packet(ds[k], addr)
  {
    Map((d: seq<byte>) => Packet(d, addr), ds)
  }

  function Packets<A>(m: Message<A>): (r: seq<Packet<A>>)
    requires Sound(m) && m.gso.Some?
    ensures |r| == |Pieces(m)| && forall k :: 0 <= k < |r| ==> r[k] == Packet(Pieces(m)[k], m.addr)
  {
    Tagged(Pieces(m), m.addr)
  }

  /** Where splitting stops: at the first message that is empty. */
  function Stop<A>(msgs: seq<Message<A>>, i: nat): (e: nat)
    ensures i <= |msgs| ==> i <= e <= |msgs|
    ensures i <= |msgs| ==> forall k :: i <= k < e ==> msgs[k].n != 0
    ensures i <= e < |msgs| ==> msgs[e].n == 0
    decreases |msgs| - i
  {
    if i >= |msgs| || msgs[i].n == 0 then i else Stop(msgs, i + 1)
  }

  ghost predicate AllSound<A(!new)>(msgs: seq<Message<A>>, first: nat) {
    forall k :: first <= k < |msgs| ==> Sound(msgs[k])
  }

  /** All control data up to message `i` could be parsed. */
  ghost predicate Parsed<A(!new)>(msgs: seq<Message<A>>, first: nat, i: nat)
    requires i <= |msgs|
  {
    forall k :: first <= k < i ==> msgs[k].gso.Some?
  }

  /** The packets in messages `first` to `i`, in order. */
  function Upto<A(!new)>(msgs: seq<Message<A>>, first: nat, i: nat): seq<Packet<A>>
    requires first <= i <= |msgs| && AllSound(msgs, first) && Parsed(msgs, first, i)
  {
    if i == first then [] else Upto(msgs, first, i - 1) + Packets(msgs[i - 1])
  }

  /** The datagrams received in messages `first` to `i`: what came in, cut at the segment size it came with. */
  function Received<A(!new)>(msgs: seq<Message<A>>, first: nat, i: nat): seq<Packet<A>>
    requires first <= i <= |msgs| && AllSound(msgs, first) && Parsed(msgs, first, i)
  {
    if i == first then [] else
      var m := msgs[i - 1];
      Received(msgs, first, i - 1) + Tagged(Cut(m.buf[..m.n], m.gso.value), m.addr)
  }

  /** No segment size exceeds the bytes received with it. */
  ghost predicate Within<A(!new)>(msgs: seq<Message<A>>, first: nat, i: nat)
    requires i <= |msgs| && Parsed(msgs, first, i)
  {
    forall k :: first <= k < i ==> msgs[k].gso.value <= msgs[k].n
  }

  /** A message has room for the segments of every message that can end up in it. */
  ghost predicate Ample<A(!new)>(msgs: seq<Message<A>>, first: nat, i: nat)
    requires i <= |msgs| && Parsed(msgs, first, i)
  {
    forall j, k :: first <= j < i && 0 <= k <= j ==> Longest(msgs[j]) <= |msgs[k].buf|
  }

  function Longest<A>(m: Message<A>): nat
    requires m.gso.Some?
  {
    if m.gso.value > 0 then m.gso.value else m.n
  }

  /** Every message up to `i` finds room for its packets before or in its own place. */
  ghost predicate Fits<A(!new)>(msgs: seq<Message<A>>, first: nat, i: nat)
    requires first <= i <= |msgs| && AllSound(msgs, first)
  {
    Parsed(msgs, first, i) && forall k :: first <= k < i ==> Roomy(msgs, first, k)
  }

  ghost predicate Roomy<A(!new)>(msgs: seq<Message<A>>, first: nat, k: nat)
    requires first <= k < |msgs| && AllSound(msgs, first)
  {
    Parsed(msgs, first, k + 1) && |Upto(msgs, first, k + 1)| <= k + 1
  }

  /** Message `m` holds packet `p`, cut off where the buffer ends. */
  ghost predicate Holds<A>(m: Message<A>, p: Packet<A>) {
    && m.n == (if |p.data| < |m.buf| then |p.data| else |m.buf|)
    && m.buf[..m.n] == p.data[..m.n]
    && m.addr == p.addr
  }

  /** `copy` */
  function Copied(dst: seq<byte>, src: seq<byte>): (r: seq<byte>)
    ensures |r| == |dst|
    ensures var n := if |src| < |dst| then |src| else |dst|; r[..n] == src[..n] && r[n..] == dst[n..]
  {
    if |src| < |dst| then src + dst[|src|..] else src[..|dst|]
  }

  ghost predicate HoldsAll<A(!new)>(msgs: seq<Message<A>>, ps: seq<Packet<A>>) {
    |ps| <= |msgs| && forall k :: 0 <= k < |ps| ==> Holds(msgs[k], ps[k])
  }

  /** Puts piece `p` of message `i` into message `n`. */
  lemma HoldsNext<A(!new)>(msgs: seq<Message<A>>, ps: seq<Packet<A>>, p: Packet<A>, m: Message<A>)
    requires HoldsAll(msgs, ps) && |ps| < |msgs|
    requires var b := msgs[|ps|].buf;
      m.buf == Copied(b, p.data) && m.n == (if |p.data| < |b| then |p.data| else |b|) && m.addr == p.addr
    ensures HoldsAll(msgs[|ps| := m], ps + [p])
  {
  }

  /** `buf[start..end]` is piece `j` of the message. */
  ghost predicate At<A>(m: Message<A>, j: nat, start: nat, end: nat)
    requires Sound(m) && m.gso.Some? && j < |Pieces(m)|
  {
    && start <= end <= |m.buf| && m.buf[start..end] == Pieces(m)[j]
    && (0 < m.gso.value <= m.n ==> start == Off(m.gso.value, j) && end == PieceEnd(m.n, m.gso.value, j))
  }

  lemma AtPiece<A>(m: Message<A>, j: nat)
    requires Sound(m) && m.gso.Some? && 0 < m.gso.value <= m.n && j < |Pieces(m)|
    ensures At(m, j, Off(m.gso.value, j), PieceEnd(m.n, m.gso.value, j))
    ensures j + 1 < |Pieces(m)| ==> Off(m.gso.value, j + 1) == PieceEnd(m.n, m.gso.value, j)
  {
    hide Off, Cut;
    CutAt(m.buf[..m.n], m.gso.value, j);
    OffStep(m.gso.value, j);
  }

  lemma AtFirst<A>(m: Message<A>)
    requires Sound(m) && m.gso.Some? && m.n > 0
    ensures At(m, 0, 0, if m.gso.value > 0 then m.gso.value else m.n)
  {
    OffStep(m.gso.value, 0);
    if 0 < m.gso.value <= m.n {
      AtPiece(m, 0);
    } else {
      assert m.buf[0..m.n] == m.buf[..m.n];
    }
  }

  lemma AtNext<A>(m: Message<A>, j: nat, start: nat, end: nat)
    requires Sound(m) && m.gso.Some? && m.n > 0 && j + 1 < |Pieces(m)| && At(m, j, start, end)
    ensures At(m, j + 1, end, if end + m.gso.value > m.n then m.n else end + m.gso.value)
  {
    hide Off, Cut;
    OnlyOnePiece(m);
    AtPiece(m, j);
    AtPiece(m, j + 1);
    OffStep(m.gso.value, j + 1);
  }

  function NumToSplit(n: nat, gsoSize: nat): nat {
    if gsoSize > 0 then (n + gsoSize - 1) / gsoSize else 1
  }

  lemma PieceCount<A>(m: Message<A>)
    requires Sound(m) && m.gso.Some? && m.n > 0
    ensures |Pieces(m)| == NumToSplit(m.n, m.gso.value)
  {
    if m.gso.value > m.n {
      assert (m.n + m.gso.value - 1) / m.gso.value == 1 by { RoundUp(m.n, m.gso.value, 1); }
    } else if m.gso.value > 0 {
      CutCount(m.buf[..m.n], m.gso.value);
    }
  }

  /** The inner loop: the pieces of message `i` go to messages `n0`, `n0 + 1`, ... of which `i` may be the last. */
  method SplitMessage<A(!new)>(msgs: array<Message<A>>, i: nat, n0: nat, ghost done: seq<Packet<A>>) returns (n: nat, overflow: bool)
    requires n0 == |done| <= i < msgs.Length && Sound(msgs[i]) && msgs[i].gso.Some? && msgs[i].n > 0
    requires HoldsAll(msgs[..], done)
    modifies msgs
    ensures overflow <==> n0 + old(|Pieces(msgs[i])|) > i + 1
    ensures !overflow ==> n == n0 + old(|Pieces(msgs[i])|) && HoldsAll(msgs[..], done + old(Packets(msgs[i])))
    ensures forall k :: n <= k < msgs.Length && k != i ==> msgs[k] == old(msgs[k])
    ensures forall k :: 0 <= k < msgs.Length ==> |msgs[k].buf| == old(|msgs[k].buf|)
    ensures overflow ==> n == i + 1
    ensures !overflow && n <= i ==> msgs[i] == old(msgs[i]).(n := 0)
  {
    hide HoldsAll, Pieces, At, Copied, NumToSplit;
    ghost var m := msgs[i];
    ghost var ps := Packets(m);
    n := n0;
    var gsoSize := msgs[i].gso.value;
    var start: nat, end: nat := 0, msgs[i].n;
    var numToSplit := NumToSplit(msgs[i].n, gsoSize);
    if gsoSize > 0 {
      end := gsoSize;
    }
    PieceCount(m);
    AtFirst(m);
    assert done + ps[..0] == done;
    for j := 0 to numToSplit
      invariant n == n0 + j <= i + 1 && HoldsAll(msgs[..], done + ps[..j])
      invariant forall k :: n <= k < msgs.Length ==> msgs[k] == old(msgs[k])
      invariant forall k :: 0 <= k < msgs.Length ==> |msgs[k].buf| == old(|msgs[k].buf|)
      invariant n <= i && j < numToSplit ==> At(m, j, start, end)
    {
      if n > i {
        return n, true;
      }
      AtBounds(m, j, start, end);
      var piece := msgs[i].buf[start..end];
      ghost var before := msgs[..];
      msgs[n] := Filled(msgs[n], piece, msgs[i].addr);
      assert msgs[..] == before[n := msgs[n]];
      HoldsStep(before, done, ps, j, piece);
      if j + 1 < numToSplit {
        AtNext(m, j, start, end);
      }
      start := end;
      end := end + gsoSize;
      if end > msgs[i].n {
        end := msgs[i].n;
      }
      n := n + 1;
    }
    assert ps[..numToSplit] == ps;
    if i != n - 1 {
      NotHeld(msgs[..], done + ps, i);
      assert msgs[..][i := msgs[i].(n := 0)] == msgs[..][i := msgs[..][i].(n := 0)];
      msgs[i] := msgs[i].(n := 0);
    }
    overflow := false;
  }

  /** A message that has received a copy of `piece`. */
  function Filled<A>(m: Message<A>, piece: seq<byte>, addr: A): Message<A> {
    m.(buf := Copied(m.buf, piece), n := if |piece| < |m.buf| then |piece| else |m.buf|, addr := addr)
  }

  lemma AtBounds<A>(m: Message<A>, j: nat, start: nat, end: nat)
    requires Sound(m) && m.gso.Some? && j < |Pieces(m)| && At(m, j, start, end)
    ensures start <= end <= |m.buf| && m.buf[start..end] == Pieces(m)[j]
  {
  }

  lemma HoldsStep<A(!new)>(msgs: seq<Message<A>>, done: seq<Packet<A>>, ps: seq<Packet<A>>, j: nat, piece: seq<byte>)
    requires j < |ps| && HoldsAll(msgs, done + ps[..j]) && |done| + j < |msgs| && ps[j].data == piece
    ensures HoldsAll(msgs[|done| + j := Filled(msgs[|done| + j], piece, ps[j].addr)], done + ps[..j + 1])
  {
    assert done + ps[..j + 1] == (done + ps[..j]) + [ps[j]];
    HoldsNext(msgs, done + ps[..j], ps[j], Filled(msgs[|done| + j], piece, ps[j].addr));
  }

  lemma NotHeld<A(!new)>(msgs: seq<Message<A>>, ps: seq<Packet<A>>, i: nat)
    requires HoldsAll(msgs, ps) && |ps| <= i < |msgs|
    ensures HoldsAll(msgs[i := msgs[i].(n := 0)], ps)
  {
  }

  lemma OnlyOnePiece<A>(m: Message<A>)
    requires Sound(m) && m.gso.Some? && m.n > 0
    ensures |Pieces(m)| > 1 ==> 0 < m.gso.value <= m.n
  {
  }

  // ----- All messages

  /** Messages from `first` on that no longer hold a packet are empty. */
  ghost predicate Emptied<A(!new)>(msgs: seq<Message<A>>, n: nat, first: nat, i: nat)
    requires i <= |msgs|
  {
    forall k :: n <= k < i && first <= k ==> msgs[k].n == 0
  }

  lemma StopEnd<A>(msgs: seq<Message<A>>)
    ensures Stop(msgs, |msgs|) == |msgs|
  {
  }

  // ----- What is delivered against what was received

  lemma {:induction false} SameCount<A(!new)>(msgs: seq<Message<A>>, first: nat, i: nat)
    requires first <= i <= |msgs| && AllSound(msgs, first) && Parsed(msgs, first, i)
    ensures |Received(msgs, first, i)| == |Upto(msgs, first, i)|
    ensures Within(msgs, first, i) ==> Received(msgs, first, i) == Upto(msgs, first, i)
  {
    if i == first {
    } else {
      SameCount(msgs, first, i - 1);
    }
  }

  /** The datagrams of message `k` keep their places as more messages are split. */
  lemma {:induction false} Earlier<A(!new)>(msgs: seq<Message<A>>, first: nat, k: nat, i: nat)
    requires first <= k < i <= |msgs| && AllSound(msgs, first) && Parsed(msgs, first, i)
    ensures Upto(msgs, first, k + 1) <= Upto(msgs, first, i) && Received(msgs, first, k + 1) <= Received(msgs, first, i)
    decreases i
  {
    hide Pieces, Packets, Tagged, Cut;
    if k + 1 == i {
    } else {
      Earlier(msgs, first, k, i - 1);
    }
  }

  /** A segment size beyond the received bytes shows in the message it is copied to. */
  lemma StaleBytes<A(!new)>(msgs: seq<Message<A>>, was: seq<Message<A>>, first: nat, stop: nat, k: nat)
    requires first <= k < stop <= |was| == |msgs| && AllSound(was, first) && Fits(was, first, stop) && Ample(was, first, stop)
    requires forall j :: 0 <= j < |was| ==> |msgs[j].buf| == |was[j].buf|
    requires HoldsAll(msgs, Upto(was, first, stop)) && was[k].gso.value > was[k].n
    ensures !HoldsAll(msgs, Received(was, first, stop))
  {
    SameCount(was, first, k);
    Earlier(was, first, k, stop);
    var j := |Upto(was, first, k)|;
    assert Roomy(was, first, k);
    assert Upto(was, first, k + 1)[j].data == was[k].buf[..was[k].gso.value];
    assert Received(was, first, k + 1)[j].data == was[k].buf[..was[k].n];
    assert Longest(was[k]) <= |was[j].buf|;
    assert msgs[j].n == was[k].gso.value by { assert Holds(msgs[j], Upto(was, first, stop)[j]); }
    assert !Holds(msgs[j], Received(was, first, stop)[j]);
  }

  /** The messages hold the received datagrams exactly when no segment size exceeds what was received with it. */
  lemma DeliveredExactly<A(!new)>(msgs: seq<Message<A>>, was: seq<Message<A>>, first: nat, stop: nat)
    requires first <= stop <= |was| == |msgs| && AllSound(was, first) && Fits(was, first, stop)
    requires forall j :: 0 <= j < |was| ==> |msgs[j].buf| == |was[j].buf|
    requires HoldsAll(msgs, Upto(was, first, stop))
    ensures |Received(was, first, stop)| == |Upto(was, first, stop)|
    ensures Ample(was, first, stop) ==> (HoldsAll(msgs, Received(was, first, stop)) <==> Within(was, first, stop))
  {
    hide HoldsAll, Upto, Received, Ample;
    SameCount(was, first, stop);
    if Ample(was, first, stop) && !Within(was, first, stop) {
      var k :| first <= k < stop && was[k].gso.value > was[k].n;
      StaleBytes(msgs, was, first, stop, k);
    }
  }

  function Contents<A>(ps: seq<Packet<A>>): (r: seq<seq<byte>>)
    ensures |r| == |ps| && forall k :: 0 <= k < |r| ==> r[k] == ps[k].data
  {
    Map((p: Packet<A>) => p.data, ps)
  }

  /** The bytes received in messages `first` to `i`. */
  function ReceivedBytes<A(!new)>(msgs: seq<Message<A>>, first: nat, i: nat): seq<byte>
    requires first <= i <= |msgs| && AllSound(msgs, first)
  {
    if i == first then [] else ReceivedBytes(msgs, first, i - 1) + msgs[i - 1].buf[..msgs[i - 1].n]
  }

  lemma ContentsJoin<A>(ps: seq<Packet<A>>, ds: seq<seq<byte>>, addr: A)
    ensures Concat(Contents(ps + Tagged(ds, addr))) == Concat(Contents(ps)) + Concat(ds)
  {
    hide Concat;
    assert Contents(ps + Tagged(ds, addr)) == Contents(ps) + ds;
    ConcatJoin(Contents(ps), ds);
  }

  /** The received datagrams are the received bytes, none lost and none added. */
  lemma {:induction false} ReceivedConserves<A(!new)>(msgs: seq<Message<A>>, first: nat, i: nat)
    requires first <= i <= |msgs| && AllSound(msgs, first) && Parsed(msgs, first, i)
    ensures Concat(Contents(Received(msgs, first, i))) == ReceivedBytes(msgs, first, i)
  {
    hide Cut, Concat, Contents, Tagged;
    if i == first {
      NoContents<A>();
    } else {
      var m := msgs[i - 1];
      ReceivedConserves(msgs, first, i - 1);
      CutJoins(m.buf[..m.n], m.gso.value);
      ContentsJoin(Received(msgs, first, i - 1), Cut(m.buf[..m.n], m.gso.value), m.addr);
    }
  }

  lemma NoContents<A>()
    ensures Concat(Contents<A>([])) == []
  {
  }

  /** Splits the messages from `firstMsgAt` on. Without an error, the first `n` messages hold their packets in
    order; every other message that was split is empty, and the rest are as they were. Where the buffers have
    room, those are the received datagrams exactly if no segment size exceeds what was received. An error is reported
    exactly if control data cannot be parsed or some message's packets do not fit before or in its own place. */
  method SplitCoalescedMessages<A(!new)>(msgs: array<Message<A>>, firstMsgAt: nat) returns (n: nat, err: bool)
    requires firstMsgAt <= msgs.Length && AllSound(msgs[..], firstMsgAt)
    modifies msgs
    ensures forall k :: 0 <= k < msgs.Length ==> |msgs[k].buf| == old(|msgs[k].buf|)
    ensures var was := old(msgs[..]); err <==> !Fits(was, firstMsgAt, Stop(was, firstMsgAt))
    ensures var was := old(msgs[..]); var stop := Stop(was, firstMsgAt);
      !err ==>
        && n == |Upto(was, firstMsgAt, stop)| <= stop && HoldsAll(msgs[..], Upto(was, firstMsgAt, stop))
        && Emptied(msgs[..], n, firstMsgAt, stop)
        && forall k :: n <= k < msgs.Length && (k < firstMsgAt || k >= stop) ==> msgs[k] == was[k]
    ensures var was := old(msgs[..]); var stop := Stop(was, firstMsgAt);
      !err && Ample(was, firstMsgAt, stop) ==>
        n == |Received(was, firstMsgAt, stop)| && (HoldsAll(msgs[..], Received(was, firstMsgAt, stop)) <==> Within(was, firstMsgAt, stop))
  {
    hide HoldsAll, Pieces, Packets, Holds, Fits, Upto, Stop, Received, Ample, Within;
    ghost var was := msgs[..];
    n := 0;
    var i := firstMsgAt;
    NothingYet(was, firstMsgAt);
    while i < msgs.Length
      invariant firstMsgAt <= i <= Stop(was, firstMsgAt) && Stop(was, firstMsgAt) == Stop(was, i)
      invariant Fits(was, firstMsgAt, i) && Parsed(was, firstMsgAt, i)
      invariant n == |Upto(was, firstMsgAt, i)| <= i && HoldsAll(msgs[..], Upto(was, firstMsgAt, i))
      invariant Emptied(msgs[..], n, firstMsgAt, i)
      invariant forall k :: n <= k < msgs.Length && (k < firstMsgAt || k >= i) ==> msgs[k] == was[k]
      invariant forall k :: 0 <= k < msgs.Length ==> |msgs[k].buf| == |was[k].buf|
    {
      StopStep(was, i);
      if msgs[i].n == 0 {
        DeliveredExactly(msgs[..], was, firstMsgAt, i);
        return n, false;
      }
      FitsStep(was, firstMsgAt, i, Stop(was, firstMsgAt));
      if msgs[i].gso.None? {
        return n, true;
      }
      var overflow;
      ghost var done := Upto(was, firstMsgAt, i);
      n, overflow := SplitMessage(msgs, i, n, done);
      if overflow {
        return n, true;
      }
      i := i + 1;
    }
    StopEnd(was);
    DeliveredExactly(msgs[..], was, firstMsgAt, i);
    err := false;
  }

  lemma NothingYet<A(!new)>(msgs: seq<Message<A>>, first: nat)
    requires first <= |msgs| && AllSound(msgs, first)
    ensures Fits(msgs, first, first) && Upto(msgs, first, first) == [] && HoldsAll(msgs, [])
  {
  }

  lemma StopStep<A>(msgs: seq<Message<A>>, i: nat)
    requires i < |msgs|
    ensures Stop(msgs, i) == if msgs[i].n == 0 then i else Stop(msgs, i + 1)
  {
  }

  /** One more message: it must be readable and its packets must find room. */
  lemma FitsStep<A(!new)>(msgs: seq<Message<A>>, first: nat, i: nat, stop: nat)
    requires first <= i < stop <= |msgs| && AllSound(msgs, first) && Fits(msgs, first, i)
    ensures Fits(msgs, first, stop) ==> Fits(msgs, first, i + 1)
    ensures Fits(msgs, first, i + 1) ==> msgs[i].gso.Some?
    ensures msgs[i].gso.Some? ==>
      && Parsed(msgs, first, i + 1)
      && Upto(msgs, first, i + 1) == Upto(msgs, first, i) + Packets(msgs[i])
      && (Fits(msgs, first, i + 1) <==> |Upto(msgs, first, i + 1)| <= i + 1)
  {
    hide Pieces, Packets;
    assert Fits(msgs, first, i + 1) ==> Roomy(msgs, first, i);
  }

  const STALE: Message<nat> := Message([1, 2, 3], 1, 0, Some(2))

  lemma StaleSegments()
    ensures Stop([STALE], 0) == 1 && Fits([STALE], 0, 1)
    ensures Upto([STALE], 0, 1) == [Packet([1, 2], 0)] && Received([STALE], 0, 1) == [Packet([1], 0)]
  {
    assert Stop([STALE], 1) == 1;
    assert Pieces(STALE) == [[1, 2]] by { assert STALE.buf[..2] == [1, 2]; }
    assert Cut(STALE.buf[..1], 2) == [[1]] by { assert STALE.buf[..1] == [1]; }
    assert Upto([STALE], 0, 0) == [] && Received([STALE], 0, 0) == [];
  }

  /** One received byte, a segment size of two: a byte nobody sent is delivered. */
  method StaleByteDelivered() returns (msgs: array<Message<nat>>, n: nat, err: bool)
    ensures Received([STALE], 0, 1) == [Packet([1], 0)]
    ensures !err && n == 1 && msgs.Length == 1 && msgs[0].n == 2 <= |msgs[0].buf| && msgs[0].buf[..2] == [1, 2]
  {
    hide Upto, Received, Stop, Fits;
    msgs := new Message<nat>[1](_ => STALE);
    assert msgs[..] == [STALE];
    StaleSegments();
    n, err := SplitCoalescedMessages(msgs, 0);
    assert Holds(msgs[..][0], Packet([1, 2], 0));
  }

  /** A message packed by `coalesceMessages` from nonempty datagrams, received with the segment size it was
    sent with, comes apart into those datagrams. */
  lemma SplitUndoesCoalesce<A>(g: seq<BindStd.Slice>, is6: bool, m: Message<A>)
    requires BindStd.Batch(g, BindStd.MaxPayloadLen(is6)) && forall k :: 0 <= k < |g| ==> |g[k].data| > 0
    requires Sound(m) && m.buf[..m.n] == BindStd.Joined(g) && m.gso == Some(if |g| > 1 then |g[0].data| else 0)
    ensures Pieces(m) == BindStd.Datas(g)
  {
    if |g| > 1 {
      BindStd.CoalesceCut(g, is6);
      assert Cut(m.buf[..m.n], m.gso.value)[0] == g[0].data;
    } else {
      assert g == [g[0]];
      BindStd.JoinedOne(g[0]);
    }
  }
}
