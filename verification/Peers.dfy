/** Peers with their handshakes and keypairs, and who owns which entry of the index table they share
  (device/peer.go, device/keypair.go, device/indextable.go). */
module Peers {
  import opened Noise
  import opened Wrappers

  const ZERO: Bytes := []

  datatype HandshakeState = Zeroed | InitiationCreated | InitiationConsumed | ResponseCreated | ResponseConsumed

  class Keypair {
    var sendNonce: nat
    const send: Bytes
    const receive: Bytes
    const isInitiator: bool
    const localIndex: nat
    const remoteIndex: nat

    constructor (send: Bytes, receive: Bytes, isInitiator: bool, localIndex: nat, remoteIndex: nat)
      ensures sendNonce == 0 && this.send == send && this.receive == receive && this.isInitiator == isInitiator
      ensures this.localIndex == localIndex && this.remoteIndex == remoteIndex
    {
      sendNonce := 0;
      this.send, this.receive, this.isInitiator, this.localIndex, this.remoteIndex := send, receive, isInitiator, localIndex, remoteIndex;
    }
  }

  /** A peer with its handshake and its keypair slots. Index 0 means no index. */
  class Peer {
    const remoteStatic: Bytes
    const precomputedStaticStatic: Option<Bytes>
    const presharedKey: Bytes
    var isRunning: bool
    var state: HandshakeState
    var hash: Bytes
    var chainKey: Bytes
    var localEphemeral: Bytes
    var localIndex: nat
    var remoteIndex: nat
    var remoteEphemeral: Bytes
    var lastTimestamp: int
    var lastInitiationConsumption: int
    var current: Keypair?
    var previous: Keypair?
    var next: Keypair?

    constructor (remoteStatic: Bytes, staticStatic: Option<Bytes>, psk: Bytes)
      ensures this.remoteStatic == remoteStatic && precomputedStaticStatic == staticStatic && presharedKey == psk
      ensures state == Zeroed && localIndex == 0 && current == null && previous == null && next == null
      ensures isRunning && lastTimestamp == 0 && lastInitiationConsumption == 0
    {
      this.remoteStatic, precomputedStaticStatic, presharedKey := remoteStatic, staticStatic, psk;
      isRunning, state, hash, chainKey, localEphemeral, remoteEphemeral := true, Zeroed, ZERO, ZERO, ZERO, ZERO;
      localIndex, remoteIndex, lastTimestamp, lastInitiationConsumption := 0, 0, 0, 0;
      current, previous, next := null, null, null;
    }

    /** What bears on the index table. */
    ghost function Shown(): View
      reads this`state, this`localIndex, this`current, this`previous, this`next
    {
      View(state, localIndex, current, previous, next)
    }

    method Clear()
      modifies this`localEphemeral, this`remoteEphemeral, this`chainKey, this`hash, this`localIndex, this`state
      ensures localIndex == 0 && state == Zeroed
      ensures localEphemeral == remoteEphemeral == chainKey == hash == ZERO
    {
      localEphemeral, remoteEphemeral, chainKey, hash := ZERO, ZERO, ZERO, ZERO;
      localIndex, state := 0, Zeroed;
    }

    ghost function Keys(): Keys
      reads this`chainKey, this`hash
    {
      Noise.Keys(chainKey, hash)
    }
  }

  datatype Entry = HandshakeEntry(peer: Peer) | KeypairEntry(peer: Peer, keypair: Keypair)

  // ----- Who owns an index

  datatype View = View(state: HandshakeState, localIndex: nat, current: Keypair?, previous: Keypair?, next: Keypair?)
  {
    ghost predicate Live(k: Keypair) {
      k == current || k == previous || k == next
    }

    /** The keypairs are distinct, and there is no previous one while the next is unconfirmed. */
    ghost predicate Rotated() {
      && (current != null ==> current != previous && current != next)
      && (previous == null || next == null)
    }

    /** A handshake under way holds an index. */
    ghost predicate Indexed() {
      state == InitiationCreated || state == ResponseCreated || state == ResponseConsumed ==> localIndex != 0
    }

    /** The entry belongs to the handshake, or to a live keypair. */
    ghost predicate Owns(i: nat, e: Entry) {
      match e
      case HandshakeEntry(_) => localIndex == i
      case KeypairEntry(_, k) => Live(k) && k.localIndex == i
    }
  }

  type Table = map<nat, Entry>

  ghost predicate FiledKeypair(table: Table, p: Peer, k: Keypair?) {
    k != null ==> k.localIndex in table && table[k.localIndex] == KeypairEntry(p, k)
  }

  /** The index of the peer's handshake and those of its live keypairs lead back to them. */
  ghost predicate Filed(table: Table, p: Peer, v: View) {
    && (v.localIndex != 0 ==> v.localIndex in table && table[v.localIndex] == HandshakeEntry(p))
    && FiledKeypair(table, p, v.current) && FiledKeypair(table, p, v.previous) && FiledKeypair(table, p, v.next)
  }

  ghost predicate Owned(table: Table, views: map<Peer, View>, i: nat)
    requires i in table
  {
    table[i].peer in views && views[table[i].peer].Owns(i, table[i])
  }

  ghost predicate Settled(table: Table, p: Peer, v: View) {
    Filed(table, p, v) && v.Rotated() && v.Indexed()
  }

  /** Every table entry has an owner, and everything that needs an entry has it. */
  ghost predicate Sound(table: Table, views: map<Peer, View>) {
    && 0 !in table
    && (forall i :: i in table ==> Owned(table, views, i))
    && (forall p {:trigger views[p]} :: p in views ==> Settled(table, p, views[p]))
  }

  ghost function KeypairIndex(k: Keypair?): (s: set<nat>)
    ensures |s| <= 1
  {
    if k == null then {} else {k.localIndex}
  }

  /** The indices a peer holds. */
  ghost function Indices(v: View): set<nat> {
    (if v.localIndex == 0 then {} else {v.localIndex}) + KeypairIndex(v.current) + KeypairIndex(v.previous) + KeypairIndex(v.next)
  }

  lemma IndicesSize(v: View)
    requires v.Rotated()
    ensures |Indices(v)| <= 3
  {
    NoIndex();
    hide KeypairIndex;
    var handshake := if v.localIndex == 0 then {} else {v.localIndex};
    UnionSize(handshake, KeypairIndex(v.current));
    UnionSize(handshake + KeypairIndex(v.current), KeypairIndex(v.previous));
    UnionSize(handshake + KeypairIndex(v.current) + KeypairIndex(v.previous), KeypairIndex(v.next));
  }

  lemma NoIndex()
    ensures KeypairIndex(null) == {}
  {
  }

  lemma UnionSize(a: set<nat>, b: set<nat>)
    ensures |a + b| <= |a| + |b|
  {
    assert a + b == a + (b - a);
  }

  lemma InTable(table: Table, p: Peer, v: View, i: nat)
    requires Filed(table, p, v) && i in Indices(v)
    ensures i in table && table[i].peer == p
  {
  }

  /** The entries of a peer are those of its handshake and live keypairs, three at most. */
  lemma AtMostThree(table: Table, views: map<Peer, View>, p: Peer)
    requires Sound(table, views) && p in views
    ensures forall i :: i in table && table[i].peer == p <==> i in Indices(views[p])
    ensures |Indices(views[p])| <= 3
  {
    hide Filed, Indices;
    var v := views[p];
    assert Settled(table, p, v);
    IndicesSize(v);
    forall i ensures i in table && table[i].peer == p <==> i in Indices(v) {
      if i in table && table[i].peer == p {
        assert Owned(table, views, i);
        OwnsIndex(v, i, table[i]);
      }
      if i in Indices(v) {
        InTable(table, p, v, i);
      }
    }
  }

  lemma OwnsIndex(v: View, i: nat, e: Entry)
    requires v.Owns(i, e)
    ensures i != 0 ==> i in Indices(v)
  {
  }

  /** One index has one owner. */
  lemma OneOwner(table: Table, views: map<Peer, View>, p: Peer, q: Peer, i: nat)
    requires Sound(table, views) && p in views && q in views && i in Indices(views[p]) && i in Indices(views[q])
    ensures p == q
  {
    hide Indices;
    assert Settled(table, p, views[p]) && Settled(table, q, views[q]);
    InTable(table, p, views[p], i);
    InTable(table, q, views[q], i);
  }

  // ----- Steps

  /** No entry of another peer is touched. */
  ghost predicate OthersKept(table: Table, table': Table, p: Peer) {
    && (forall i :: i in table && table[i].peer != p ==> i in table' && table'[i] == table[i])
    && (forall i :: i in table' && table'[i].peer != p ==> i in table && table'[i] == table[i])
  }

  lemma KeptTransitive(table: Table, table': Table, table'': Table, p: Peer)
    requires OthersKept(table, table', p) && OthersKept(table', table'', p)
    ensures OthersKept(table, table'', p)
  {
  }

  lemma KeptSame(table: Table, p: Peer)
    ensures OthersKept(table, table, p)
  {
  }

  /** A peer that changes only its own entries, and keeps them in order, leaves the table sound. */
  lemma OwnChange(table: Table, views: map<Peer, View>, p: Peer, table': Table, v: View)
    requires Sound(table, views) && p in views && 0 !in table'
    requires OthersKept(table, table', p)
    requires forall i :: i in table' && table'[i].peer == p ==> v.Owns(i, table'[i])
    requires Settled(table', p, v)
    ensures Sound(table', views[p := v])
  {
    var views' := views[p := v];
    forall i | i in table' ensures Owned(table', views', i) {
      assert table'[i].peer != p ==> Owned(table, views, i);
    }
    forall q {:trigger views'[q]} | q in views' ensures Settled(table', q, views'[q]) {
      assert Settled(table, q, views[q]);
    }
  }

  /** The entries of a peer are its own. */
  lemma OwnEntries(table: Table, views: map<Peer, View>, p: Peer)
    requires Sound(table, views) && p in views
    ensures Settled(table, p, views[p])
    ensures forall i :: i in table && table[i].peer == p ==> views[p].Owns(i, table[i])
  {
    forall i | i in table && table[i].peer == p ensures views[p].Owns(i, table[i]) { assert Owned(table, views, i); }
  }

  /** The handshake gives up its index. */
  lemma Unindexed(table: Table, views: map<Peer, View>, p: Peer, state: HandshakeState)
    requires Sound(table, views) && p in views && (state == Zeroed || state == InitiationConsumed)
    ensures Sound(table - {views[p].localIndex}, views[p := views[p].(localIndex := 0, state := state)])
    ensures OthersKept(table, table - {views[p].localIndex}, p)
  {
    OwnEntries(table, views, p);
    OwnChange(table, views, p, table - {views[p].localIndex}, views[p].(localIndex := 0, state := state));
  }

  /** The handshake trades its index for an unused one. */
  lemma Reindexed(table: Table, views: map<Peer, View>, p: Peer, index: nat)
    requires Sound(table, views) && p in views && index != 0 && index !in table - {views[p].localIndex}
    ensures Sound((table - {views[p].localIndex})[index := HandshakeEntry(p)], views[p := views[p].(localIndex := index)])
    ensures OthersKept(table, (table - {views[p].localIndex})[index := HandshakeEntry(p)], p)
  {
    OwnEntries(table, views, p);
    OwnChange(table, views, p, (table - {views[p].localIndex})[index := HandshakeEntry(p)], views[p].(localIndex := index));
  }

  /** The handshake moves on; an index is held where one is needed. */
  lemma Moved(table: Table, views: map<Peer, View>, p: Peer, state: HandshakeState)
    requires Sound(table, views) && p in views && views[p].(state := state).Indexed()
    ensures Sound(table, views[p := views[p].(state := state)])
  {
    OwnEntries(table, views, p);
    OwnChange(table, views, p, table, views[p].(state := state));
  }

  // ----- Rotating keypairs

  /** The slots after a session begins with keypair `k`. */
  ghost function Begun(v: View, k: Keypair): View {
    if k.isInitiator then View(Zeroed, 0, k, if v.next != null then v.next else v.current, null)
    else View(Zeroed, 0, v.current, null, k)
  }

  /** The indices of the keypairs that are then dropped. */
  ghost function Retired(v: View, k: Keypair): set<nat> {
    KeypairIndex(v.previous) +
    if k.isInitiator then (if v.next != null then KeypairIndex(v.current) else {}) else KeypairIndex(v.next)
  }

  /** The handshake's entry becomes the new keypair's, and the slots rotate. */
  lemma SessionBegun(table: Table, views: map<Peer, View>, p: Peer, k: Keypair)
    requires Sound(table, views) && p in views && views[p].localIndex != 0 && k.localIndex == views[p].localIndex && !views[p].Live(k)
    ensures Sound(table[k.localIndex := KeypairEntry(p, k)] - Retired(views[p], k), views[p := Begun(views[p], k)])
    ensures OthersKept(table, table[k.localIndex := KeypairEntry(p, k)] - Retired(views[p], k), p)
  {
    OwnEntries(table, views, p);
    var v, table' := views[p], table[k.localIndex := KeypairEntry(p, k)] - Retired(views[p], k);
    assert forall i :: i in Retired(v, k) ==> i in table && table[i].peer == p && i != k.localIndex;
    BegunSettled(table, p, v, k);
    hide Settled;
    OwnChange(table, views, p, table', Begun(v, k));
  }

  lemma BegunSettled(table: Table, p: Peer, v: View, k: Keypair)
    requires Settled(table, p, v) && v.localIndex != 0 && k.localIndex == v.localIndex && !v.Live(k)
    ensures Settled(table[k.localIndex := KeypairEntry(p, k)] - Retired(v, k), p, Begun(v, k))
  {
  }

  /** The unconfirmed keypair has been used by the other side. */
  lemma Confirmed(table: Table, views: map<Peer, View>, p: Peer)
    requires Sound(table, views) && p in views && views[p].next != null
    ensures Sound(table - KeypairIndex(views[p].previous), views[p := views[p].(previous := views[p].current, current := views[p].next, next := null)])
    ensures OthersKept(table, table - KeypairIndex(views[p].previous), p)
  {
    OwnEntries(table, views, p);
    var v := views[p];
    assert table - KeypairIndex(v.previous) == table;
    OwnChange(table, views, p, table, v.(previous := v.current, current := v.next, next := null));
  }

  /** The peer gives up its keypairs. */
  lemma Dropped(table: Table, views: map<Peer, View>, p: Peer)
    requires Sound(table, views) && p in views
    ensures Sound(table - KeypairIndex(views[p].previous) - KeypairIndex(views[p].current) - KeypairIndex(views[p].next),
                  views[p := views[p].(current := null, previous := null, next := null)])
    ensures OthersKept(table, table - KeypairIndex(views[p].previous) - KeypairIndex(views[p].current) - KeypairIndex(views[p].next), p)
  {
    OwnEntries(table, views, p);
    var v := views[p];
    OwnChange(table, views, p, table - KeypairIndex(v.previous) - KeypairIndex(v.current) - KeypairIndex(v.next),
              v.(current := null, previous := null, next := null));
  }

  /** A new peer. */
  lemma Admitted(table: Table, views: map<Peer, View>, p: Peer)
    requires Sound(table, views) && p !in views
    ensures Sound(table, views[p := View(Zeroed, 0, null, null, null)])
  {
    var views' := views[p := View(Zeroed, 0, null, null, null)];
    forall i | i in table ensures Owned(table, views', i) { assert Owned(table, views, i); }
    forall q {:trigger views'[q]} | q in views' ensures Settled(table, q, views'[q]) {
      assert q != p ==> q in views && Settled(table, q, views[q]);
    }
  }
}
