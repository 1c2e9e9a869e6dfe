/** Runs of the peers of one device on the index table they share: what each operation does to the table and to
  the peers' indices, over any sequence of operations. */
module IndexRuns {
  import opened Peers

  datatype State = State(table: Table, views: map<Peer, View>)
  {
    ghost predicate Sound() {
      Peers.Sound(table, views)
    }
  }

  datatype Step =
    | Reindex(peer: Peer, index: nat)
    | Unindex(peer: Peer)
    | Move(peer: Peer, state: HandshakeState)
    | Begin(peer: Peer, keypair: Keypair)
    | Confirm(peer: Peer)
    | Drop(peer: Peer)

  /** The handshake of `p` deletes its index and takes another. */
  ghost function Drawn(s: State, p: Peer, index: nat): (r: State)
    requires p in s.views
    ensures r.views.Keys == s.views.Keys
  {
    State((s.table - {s.views[p].localIndex})[index := HandshakeEntry(p)], s.views[p := s.views[p].(localIndex := index)])
  }

  /** What a step does. */
  ghost function Apply(s: State, step: Step): (r: State)
    requires step.peer in s.views
    ensures r.views.Keys == s.views.Keys
  {
    var p := step.peer;
    var v := s.views[p];
    match step
    case Reindex(_, index) => Drawn(s, p, index)
    case Unindex(_) => State(s.table - {v.localIndex}, s.views[p := v.(localIndex := 0, state := Zeroed)])
    case Move(_, state) => s.(views := s.views[p := v.(state := state)])
    case Begin(_, k) =>
      State((if k.localIndex in s.table then s.table[k.localIndex := KeypairEntry(s.table[k.localIndex].peer, k)] else s.table) - Retired(v, k),
            s.views[p := Begun(v, k)])
    case Confirm(_) =>
      State(s.table - KeypairIndex(v.previous), s.views[p := v.(previous := v.current, current := v.next, next := null)])
    case Drop(_) =>
      State(s.table - KeypairIndex(v.previous) - KeypairIndex(v.current) - KeypairIndex(v.next),
            s.views[p := v.(current := null, previous := null, next := null)])
  }

  /** When a step can happen: draws are unused and not 0, a session begins with a new keypair from a finished
    handshake, and only a next keypair can be confirmed. */
  ghost predicate Enabled(s: State, step: Step) {
    && step.peer in s.views
    && var v := s.views[step.peer];
       match step
       case Reindex(_, index) => index != 0 && index !in s.table - {v.localIndex}
       case Unindex(_) => true
       case Move(_, state) => v.(state := state).Indexed()
       case Begin(_, k) => v.localIndex != 0 && k.localIndex == v.localIndex && !v.Live(k)
       case Confirm(_) => v.next != null
       case Drop(_) => true
  }

  /** Every step keeps the table sound and leaves other peers' entries alone. */
  lemma StepSound(s: State, step: Step)
    requires s.Sound() && Enabled(s, step)
    ensures Apply(s, step).Sound() && OthersKept(s.table, Apply(s, step).table, step.peer)
  {
    hide Peers.Sound, OthersKept;
    var p := step.peer;
    match step {
      case Reindex(_, index) => Reindexed(s.table, s.views, p, index);
      case Unindex(_) => Unindexed(s.table, s.views, p, Zeroed);
      case Move(_, state) =>
        Moved(s.table, s.views, p, state);
        KeptSame(s.table, p);
      case Begin(_, k) =>
        OwnIndex(s, p);
        SessionBegun(s.table, s.views, p, k);
      case Confirm(_) => Confirmed(s.table, s.views, p);
      case Drop(_) => Dropped(s.table, s.views, p);
    }
  }

  /** Beginning a session zeroes the handshake anyway. */
  lemma ZeroedBegin(s: State, p: Peer, k: Keypair)
    requires p in s.views
    ensures Apply(Apply(s, Move(p, Zeroed)), Begin(p, k)) == Apply(s, Begin(p, k))
  {
    assert Apply(s, Move(p, Zeroed)).views[p := Begun(s.views[p], k)] == s.views[p := Begun(s.views[p], k)];
  }

  lemma SlotsOnly(v: View, k: Keypair)
    ensures Retired(v.(localIndex := 0), k) == Retired(v, k) && Begun(v.(localIndex := 0), k) == Begun(v, k)
    ensures Begun(v, k).state == Zeroed && Begun(v, k).localIndex == 0 && Begun(v.(state := Zeroed), k) == Begun(v, k)
  {
  }

  lemma OwnIndex(s: State, p: Peer)
    requires s.Sound() && p in s.views && s.views[p].localIndex != 0
    ensures s.views[p].localIndex in s.table && s.table[s.views[p].localIndex].peer == p
  {
    assert Settled(s.table, p, s.views[p]);
  }

  /** A run of steps by peers other than `p`. */
  ghost predicate RunWithout(s: State, p: Peer, steps: seq<Step>)
    decreases |steps|
  {
    steps == [] || (steps[0].peer != p && Enabled(s, steps[0]) && RunWithout(Apply(s, steps[0]), p, steps[1..]))
  }

  ghost function After(s: State, p: Peer, steps: seq<Step>): State
    requires RunWithout(s, p, steps)
    decreases |steps|
  {
    if steps == [] then s else After(Apply(s, steps[0]), p, steps[1..])
  }

  /** Over any run of the others, an entry of `p` stays. */
  lemma {:induction false} EntryStays(s: State, p: Peer, steps: seq<Step>, index: nat)
    requires s.Sound() && RunWithout(s, p, steps) && index in s.table && s.table[index].peer == p
    ensures index in After(s, p, steps).table && After(s, p, steps).table[index] == s.table[index]
    decreases |steps|
  {
    if steps == [] {
    } else {
      hide Apply, Enabled;
      StepSound(s, steps[0]);
      EntryStays(Apply(s, steps[0]), p, steps[1..], index);
    }
  }

  /** With an index of 0, any other peer removes the entry by expiring its keypairs twice: first it gives up the
    index it has, then it deletes index 0. */
  lemma ZeroLost(s: State, p: Peer, q: Peer)
    requires p in s.views && q in s.views && p != q
    ensures RunWithout(Drawn(s, p, 0), p, [Unindex(q), Unindex(q)])
    ensures 0 in Drawn(s, p, 0).table && 0 !in After(Drawn(s, p, 0), p, [Unindex(q), Unindex(q)]).table
  {
    var s0 := Drawn(s, p, 0);
    var s1 := Apply(s0, Unindex(q));
    assert [Unindex(q), Unindex(q)][1..] == [Unindex(q)] && [Unindex(q)][1..] == [];
    assert RunWithout(s1, p, [Unindex(q)]);
    assert After(s1, p, [Unindex(q)]) == Apply(s1, Unindex(q));
  }

  /** An unused index drawn by a peer survives every run of the other peers exactly if it is not 0, or there is no
    other peer. */
  lemma SafeExactly(s: State, p: Peer, index: nat)
    requires s.Sound() && p in s.views && index !in s.table - {s.views[p].localIndex}
    ensures (forall steps :: RunWithout(Drawn(s, p, index), p, steps) ==> index in After(Drawn(s, p, index), p, steps).table)
      <==> index != 0 || s.views.Keys == {p}
  {
    hide Peers.Sound, Apply;
    var t := Drawn(s, p, index);
    if index != 0 {
      Reindexed(s.table, s.views, p, index);
      forall steps | RunWithout(t, p, steps) ensures index in After(t, p, steps).table {
        EntryStays(t, p, steps, index);
      }
    } else if s.views.Keys == {p} {
      forall steps | RunWithout(t, p, steps) ensures index in After(t, p, steps).table {
        NobodyElse(t, p, steps);
      }
    } else {
      var q :| q in s.views.Keys && q != p;
      ZeroLost(s, p, q);
    }
  }

  lemma NobodyElse(t: State, p: Peer, steps: seq<Step>)
    requires t.views.Keys == {p} && RunWithout(t, p, steps)
    ensures steps == []
  {
    assert forall q :: q in t.views ==> q in t.views.Keys;
  }
}
