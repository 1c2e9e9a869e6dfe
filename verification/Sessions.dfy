/** Whole runs: the index table over any sequence of steps, and one handshake between two devices. */
module Sessions {
  import opened Noise
  import opened Wrappers
  import opened IndexRuns
  import opened Peers
  import opened Devices

  // ----- Any run of one device

  datatype Op =
    | Add(remoteStatic: Bytes, psk: Bytes)
    | CreateInitiation(to: Bytes, newPrivateKey: Option<Bytes>, timestamp: int, draws: seq<nat>)
    | ConsumeInitiation(initiation: InitiationMsg, now: int)
    | CreateResponse(to: Bytes, newPrivateKey: Option<Bytes>, draws: seq<nat>)
    | ConsumeResponse(response: ResponseMsg)
    | BeginSession(to: Bytes)
    | Receive(index: nat)
    | Zero(to: Bytes)
    | Expire(to: Bytes)

  // ----- Initiations accepted in a run

  /** An initiation that was accepted: whose it is, the time it bears, and when that was. */
  datatype Accepted = Accepted(from: Bytes, time: int, now: int, msg: InitiationMsg)

  /** The static key and the timestamp a device reads in an initiation. */
  ghost function Reading(crypto: Crypto, privateKey: Bytes, msg: InitiationMsg): Option<(Bytes, int)> {
    var got := OpenStatic(crypto, privateKey, crypto.publicKey(privateKey), msg.ephemeral, msg.sealedStatic);
    if got.None? then None else
      var time := OpenTime(crypto, got.value.0, crypto.sharedSecret(privateKey, got.value.1), msg.sealedTime);
      if time.None? then None else Some((got.value.1, time.value.1))
  }

  /** The secrets the peers were set up with. */
  ghost predicate Precomputed(d: Device)
    reads d`peers
  {
    forall s :: s in d.peers ==> d.peers[s].precomputedStaticStatic == d.crypto.sharedSecret(d.privateKey, s)
  }

  /** For each peer, the timestamp and the time of the last initiation accepted. */
  ghost function Latest(d: Device): (r: map<Bytes, (int, int)>)
    reads d`peers, d.peers.Values`lastTimestamp, d.peers.Values`lastInitiationConsumption
    ensures r.Keys == d.peers.Keys
  {
    map s | s in d.peers :: (d.peers[s].lastTimestamp, d.peers[s].lastInitiationConsumption)
  }

  /** What one step does to them: an initiation is accepted only if newer and not too soon, and is then the latest. */
  ghost predicate Noted(crypto: Crypto, privateKey: Bytes, before: map<Bytes, (int, int)>, after: map<Bytes, (int, int)>, op: Op, accepted: Option<Accepted>) {
    if accepted.None? then forall s :: s in before ==> s in after && after[s] == before[s]
    else
      var a := accepted.value;
      && op == ConsumeInitiation(a.msg, a.now) && Reading(crypto, privateKey, a.msg) == Some((a.from, a.time))
      && a.from in before && a.time > before[a.from].0 && a.now - before[a.from].1 > HANDSHAKE_INITIATION_RATE
      && after == before[a.from := (a.time, a.now)]
  }

  /** Of any two initiations accepted from one peer, the later bears a later time and comes more than 20ms later. */
  ghost predicate Increasing(log: seq<Option<Accepted>>) {
    forall i, j :: 0 <= i < j < |log| && log[i].Some? && log[j].Some? && log[i].value.from == log[j].value.from ==>
      log[i].value.time < log[j].value.time && log[j].value.now - log[i].value.now > HANDSHAKE_INITIATION_RATE
  }

  ghost predicate Logged(crypto: Crypto, privateKey: Bytes, log: seq<Option<Accepted>>, ops: seq<Op>, latest: map<Bytes, (int, int)>) {
    && |log| <= |ops| && Increasing(log)
    && forall k :: 0 <= k < |log| && log[k].Some? ==>
      var a := log[k].value;
      && ops[k] == ConsumeInitiation(a.msg, a.now) && Reading(crypto, privateKey, a.msg) == Some((a.from, a.time))
      && a.from in latest && a.time <= latest[a.from].0 && a.now <= latest[a.from].1
  }

  lemma LogStep(crypto: Crypto, privateKey: Bytes, log: seq<Option<Accepted>>, ops: seq<Op>, before: map<Bytes, (int, int)>,
                after: map<Bytes, (int, int)>, accepted: Option<Accepted>)
    requires Logged(crypto, privateKey, log, ops, before) && |log| < |ops|
    requires Noted(crypto, privateKey, before, after, ops[|log|], accepted)
    ensures Logged(crypto, privateKey, log + [accepted], ops, after)
  {
    hide Reading;
  }

  /** No initiation is accepted twice. */
  lemma NeverTwice(crypto: Crypto, privateKey: Bytes, log: seq<Option<Accepted>>, ops: seq<Op>, latest: map<Bytes, (int, int)>)
    requires Logged(crypto, privateKey, log, ops, latest)
    ensures forall i, j :: 0 <= i < j < |log| && log[i].Some? && log[j].Some? ==> log[i].value.msg != log[j].value.msg
  {
    hide Reading;
  }

  /** Any number of peers, any messages, in any order: the index table stays sound, and initiations are accepted
    with increasing times, none twice. Steps that name no known peer, or whose draws would never end, do nothing. */
  method Run(crypto: Crypto, privateKey: Bytes, ops: seq<Op>) returns (d: Device, log: seq<Option<Accepted>>)
    ensures fresh(d) && d.crypto == crypto && d.privateKey == privateKey && d.Valid()
    ensures forall p :: p in d.peers.Values ==> |Indices(p.Shown())| <= 3 && (p.previous == null || p.next == null)
    ensures forall i :: i in d.table ==> d.table[i].peer in d.peers.Values && i in Indices(d.table[i].peer.Shown())
    ensures forall p, i :: p in d.peers.Values && i in Indices(p.Shown()) ==> i in d.table && d.table[i].peer == p
    ensures |log| == |ops| && Logged(crypto, privateKey, log, ops, Latest(d))
    ensures forall i, j :: 0 <= i < j < |log| && log[i].Some? && log[j].Some? ==> log[i].value.msg != log[j].value.msg
  {
    hide Apply, Device.Indexes, Device.Valid, Indices, Within, Latest, Noted, Precomputed;
    d := new Device(crypto, privateKey);
    log := [];
    ghost var world: set<object> := {d};
    assert Within(d, world) && Precomputed(d) by { Alone(d, world); }
    for n := 0 to |ops|
      invariant d.crypto == crypto && d.privateKey == privateKey && d.Valid() && Within(d, world) && fresh(world) && d in world
      invariant |log| == n && Precomputed(d) && Logged(crypto, privateKey, log, ops, Latest(d))
    {
      ghost var before := Latest(d);
      var accepted;
      accepted, world := Step(d, ops[n], world);
      LogStep(crypto, privateKey, log, ops, before, Latest(d), accepted);
      log := log + [accepted];
    }
    NeverTwice(crypto, privateKey, log, ops, Latest(d));
    Summary(d);
  }

  /** The device, its peers and their keypairs are among `world`. */
  ghost predicate Within(d: Device, world: set<object>)
    reads d`peers, d.peers.Values`current, d.peers.Values`previous, d.peers.Values`next
  {
    d in world && forall p :: p in d.peers.Values ==> PeerWithin(p, world)
  }

  ghost predicate PeerWithin(p: Peer, world: set<object>)
    reads p`current, p`previous, p`next
  {
    && p in world
    && (p.current != null ==> p.current in world) && (p.previous != null ==> p.previous in world) && (p.next != null ==> p.next in world)
  }

  lemma Alone(d: Device, world: set<object>)
    requires d in world && d.peers == map[]
    ensures Within(d, world) && Precomputed(d)
  {
  }

  method Step(d: Device, op: Op, ghost world: set<object>) returns (accepted: Option<Accepted>, ghost world': set<object>)
    requires d.Valid() && Within(d, world) && Precomputed(d)
    modifies world
    ensures d.Valid() && Within(d, world') && fresh(world' - world) && d in world' && Precomputed(d)
    ensures Noted(d.crypto, d.privateKey, old(Latest(d)), Latest(d), op, accepted)
    ensures op.ConsumeInitiation? ==> (accepted.Some? <==> old(d.Acceptable(op.initiation, op.now)))
  {
    hide Apply, Device.Indexes, Device.Valid, Device.GoodDraws, Device.Acceptable, Latest, Precomputed, Reading;
    accepted, world' := None, world;
    match op {
      case Add(remoteStatic, psk) =>
        if remoteStatic !in d.peers {
          world' := Enroll(d, remoteStatic, psk, world);
        }
      case ConsumeInitiation(msg, now) =>
        accepted := Consume(d, msg, now, world);
      case ConsumeResponse(msg) =>
        var _ := d.ConsumeMessageResponse(msg);
      case Receive(index) =>
        if index in d.table && d.table[index].KeypairEntry? {
          Confirm(d, index, world);
        }
      case BeginSession(to) =>
        if to in d.peers {
          Named(d, to, world);
          world' := Begin(d, d.peers[to], world);
        }
      case CreateInitiation(to, _, _, _) =>
        if to in d.peers {
          Named(d, to, world);
          Send(d, op, d.peers[to], world);
        }
      case CreateResponse(to, _, _) =>
        if to in d.peers {
          Named(d, to, world);
          Send(d, op, d.peers[to], world);
        }
      case Zero(to) =>
        if to in d.peers {
          Named(d, to, world);
          Empty(d, d.peers[to], world);
        }
      case Expire(to) =>
        if to in d.peers {
          Named(d, to, world);
          UseUp(d, d.peers[to], world);
        }
    }
  }

  method Consume(d: Device, msg: InitiationMsg, now: int, ghost world: set<object>) returns (accepted: Option<Accepted>)
    requires d.Valid() && Within(d, world) && Precomputed(d)
    modifies world
    ensures d.Valid() && Within(d, world) && d.peers == old(d.peers)
    ensures Noted(d.crypto, d.privateKey, old(Latest(d)), Latest(d), ConsumeInitiation(msg, now), accepted)
    ensures accepted.Some? <==> old(d.Acceptable(msg, now))
  {
    hide Apply, Device.Indexes, Device.Valid, OpenStatic, OpenTime;
    var from := d.ConsumeMessageInitiation(msg, now);
    if from == null {
      assert Latest(d) == old(Latest(d));
      return None;
    }
    d.Registered(from);
    accepted := Some(Accepted(from.remoteStatic, from.lastTimestamp, now, msg));
    assert Latest(d) == old(Latest(d))[from.remoteStatic := (from.lastTimestamp, now)];
    assert Reading(d.crypto, d.privateKey, msg) == Some((from.remoteStatic, from.lastTimestamp));
  }

  lemma Named(d: Device, to: Bytes, world: set<object>)
    requires Within(d, world) && to in d.peers
    ensures d.peers[to] in d.peers.Values && PeerWithin(d.peers[to], world)
  {
  }

  method Enroll(d: Device, remoteStatic: Bytes, psk: Bytes, ghost world: set<object>) returns (ghost world': set<object>)
    requires d.Valid() && Within(d, world) && Precomputed(d) && remoteStatic !in d.peers
    modifies d
    ensures d.Valid() && Within(d, world') && fresh(world' - world) && d in world'
    ensures Precomputed(d) && Latest(d) == old(Latest(d))[remoteStatic := (0, 0)]
  {
    hide Apply, Device.Indexes, Device.Valid;
    ghost var before := d.peers;
    var p := d.AddPeer(remoteStatic, psk);
    NewValue(before, remoteStatic, p);
    world' := world + {p};
  }

  method Confirm(d: Device, index: nat, ghost world: set<object>)
    requires d.Valid() && Within(d, world) && index in d.table && d.table[index].KeypairEntry?
    modifies world
    ensures d.Valid() && Within(d, world)
    ensures d.peers == old(d.peers) && Latest(d) == old(Latest(d))
  {
    hide Apply, Device.Indexes, Device.Valid, OthersKept, Latest;
    d.EntryPeer(index);
    var p := d.table[index].peer;
    assert PeerWithin(p, world);
    var _ := d.ReceivedWithKeypair(p, d.table[index].keypair);
  }

  /** The steps that leave the slots of a peer alone. */
  method Send(d: Device, op: Op, p: Peer, ghost world: set<object>)
    requires d.Valid() && Within(d, world) && p in d.peers.Values && d in world && p in world
    modifies world
    ensures d.Valid() && Within(d, world)
    ensures d.peers == old(d.peers) && Latest(d) == old(Latest(d))
  {
    hide Apply, Device.Indexes, Device.Valid, OthersKept, Latest, Device.GoodDraws, Within, PeerWithin;
    match op {
      case CreateInitiation(_, newPrivateKey, timestamp, draws) =>
        if d.GoodDraws(draws, p.localIndex) {
          var _ := d.CreateMessageInitiation(p, newPrivateKey, timestamp, draws);
        }
      case CreateResponse(_, newPrivateKey, draws) =>
        if d.GoodDraws(draws, p.localIndex) {
          var _ := d.CreateMessageResponse(p, newPrivateKey, draws);
        }
      case _ =>
    }
  }

  method Empty(d: Device, p: Peer, ghost world: set<object>)
    requires d.Valid() && Within(d, world) && p in d.peers.Values && PeerWithin(p, world)
    modifies world
    ensures d.Valid() && Within(d, world)
    ensures d.peers == old(d.peers) && Latest(d) == old(Latest(d))
  {
    hide Apply, Device.Indexes, Device.Valid, OthersKept, Latest;
    d.ZeroAndFlushAll(p);
  }

  method UseUp(d: Device, p: Peer, ghost world: set<object>)
    requires d.Valid() && Within(d, world) && d in world && p in d.peers.Values && PeerWithin(p, world)
    modifies world
    ensures d.Valid() && Within(d, world)
    ensures d.peers == old(d.peers) && Latest(d) == old(Latest(d))
  {
    hide Apply, Device.Indexes, Device.Valid, OthersKept, Latest, Within;
    d.ExpireCurrentKeypairs(p);
  }

  method Begin(d: Device, p: Peer, ghost world: set<object>) returns (ghost world': set<object>)
    requires d.Valid() && Within(d, world) && p in d.peers.Values && PeerWithin(p, world)
    modifies world
    ensures d.Valid() && Within(d, world') && fresh(world' - world) && d in world'
    ensures d.peers == old(d.peers) && Latest(d) == old(Latest(d))
  {
    hide Apply, Device.Indexes, Device.Valid, OthersKept, Latest;
    ghost var k;
    var ok;
    ok, k := d.BeginSymmetricSession(p);
    world' := world;
    if ok {
      world' := world' + {k};
    }
  }

  lemma Summary(d: Device)
    requires d.Valid()
    ensures forall p :: p in d.peers.Values ==> |Indices(p.Shown())| <= 3 && (p.previous == null || p.next == null)
    ensures forall i :: i in d.table ==> d.table[i].peer in d.peers.Values && i in Indices(d.table[i].peer.Shown())
    ensures forall p, i :: p in d.peers.Values && i in Indices(p.Shown()) ==> i in d.table && d.table[i].peer == p
  {
    hide Indices;
    forall p | p in d.peers.Values
      ensures |Indices(p.Shown())| <= 3 && (p.previous == null || p.next == null)
      ensures forall i :: i in d.table && d.table[i].peer == p <==> i in Indices(p.Shown())
    {
      assert Settled(d.table, p, d.Views()[p]);
      AtMostThree(d.table, d.Views(), p);
    }
    forall i | i in d.table ensures d.table[i].peer in d.peers.Values {
      assert Owned(d.table, d.Views(), i);
    }
  }

  // ----- Two devices

  /** The initiator's device and the responder's device know each other by their public keys and share a
    preshared key. */
  ghost predicate Acquainted(i: Device, toR: Peer, r: Device, toI: Peer)
    reads i`peers, r`peers
  {
    && i.crypto == r.crypto && Laws(i.crypto)
    && toR in i.peers.Values && toI in r.peers.Values && i.peers.Values !! r.peers.Values
    && toR.remoteStatic == i.crypto.publicKey(r.privateKey) && toI.remoteStatic == i.crypto.publicKey(i.privateKey)
    && toR.precomputedStaticStatic == i.crypto.sharedSecret(i.privateKey, toR.remoteStatic)
    && toI.precomputedStaticStatic == i.crypto.sharedSecret(r.privateKey, toI.remoteStatic)
    && toR.presharedKey == toI.presharedKey
    && toI.remoteStatic in r.peers && r.peers[toI.remoteStatic] == toI
  }

  /** No Diffie-Hellman result of the handshake is zero. */
  ghost predicate NonZero(c: Crypto, i: Bytes, e: Bytes, r: Bytes, f: Bytes) {
    && c.sharedSecret(e, c.publicKey(r)).Some? && c.sharedSecret(i, c.publicKey(r)).Some?
    && c.sharedSecret(f, c.publicKey(e)).Some? && c.sharedSecret(f, c.publicKey(i)).Some?
  }

  /** The first message: if it can be made and the responder is ready for it, it is accepted, and both sides
    hold the same chain key and hash. */
  method DeliverInitiation(i: Device, toR: Peer, r: Device, toI: Peer, e: Bytes, timestamp: int, now: int, draws: seq<nat>)
    returns (msg: Option<InitiationMsg>)
    requires i.Valid() && r.Valid() && Acquainted(i, toR, r, toI) && i != r && i.GoodDraws(draws, toR.localIndex)
    requires toI.isRunning && timestamp > toI.lastTimestamp && now - toI.lastInitiationConsumption > HANDSHAKE_INITIATION_RATE
    modifies i`table, toR`hash, toR`chainKey, toR`localEphemeral, toR`localIndex, toR`state,
      r.peers.Values`hash, r.peers.Values`chainKey, r.peers.Values`remoteIndex, r.peers.Values`remoteEphemeral,
      r.peers.Values`lastTimestamp, r.peers.Values`lastInitiationConsumption, r.peers.Values`state
    ensures i.Valid() && r.Valid()
    ensures msg.Some? <==> i.Initiated(toR, e, timestamp).Some?
    ensures msg.Some? ==>
      && toR.Keys() == toI.Keys() && toR.localEphemeral == e && toI.remoteEphemeral == i.crypto.publicKey(e)
      && toR.state == InitiationCreated && toI.state == InitiationConsumed && toI.remoteIndex == toR.localIndex
      && toR.localIndex in i.table && i.table[toR.localIndex] == HandshakeEntry(toR)
  {
    hide Apply, Device.Indexes, Device.Valid, OthersKept, Initiate, OpenStatic, OpenTime, Laws;
    msg := i.CreateMessageInitiation(toR, Some(e), timestamp, draws);
    if msg.None? {
      return;
    }
    InitiationAgrees(i.crypto, e, i.privateKey, r.privateKey, timestamp);
    var from := r.ConsumeMessageInitiation(msg.value, now);
  }

  /** The second message: likewise, with the roles exchanged. */
  method DeliverResponse(i: Device, toR: Peer, r: Device, toI: Peer, f: Bytes, draws: seq<nat>) returns (msg: Option<ResponseMsg>)
    requires i.Valid() && r.Valid() && Acquainted(i, toR, r, toI) && i != r && r.GoodDraws(draws, toI.localIndex)
    requires toR.Keys() == toI.Keys() && toI.remoteEphemeral == i.crypto.publicKey(toR.localEphemeral)
    requires toR.state == InitiationCreated && toI.state == InitiationConsumed && toI.remoteIndex == toR.localIndex
    requires toR.localIndex in i.table && i.table[toR.localIndex] == HandshakeEntry(toR)
    modifies r`table, toI`hash, toI`chainKey, toI`localEphemeral, toI`localIndex, toI`state,
      i.peers.Values`hash, i.peers.Values`chainKey, i.peers.Values`remoteIndex, i.peers.Values`state
    ensures i.Valid() && r.Valid()
    ensures msg.Some? <==> old(r.Responded(toI, f)).Some?
    ensures msg.Some? ==>
      && toR.Keys() == toI.Keys() && toR.state == ResponseConsumed && toI.state == ResponseCreated
      && toR.remoteIndex == toI.localIndex && toI.remoteIndex == toR.localIndex
  {
    hide Apply, Device.Indexes, Device.Valid, Device.GoodDraws, OthersKept, Respond, OpenResponse, Laws;
    ResponseAgrees(i.crypto, toI.Keys(), f, toR.localEphemeral, i.privateKey, toI.presharedKey);
    msg := r.CreateMessageResponse(toI, Some(f), draws);
    if msg.None? {
      return;
    }
    var from := i.ConsumeMessageResponse(msg.value);
  }

  /** A delivered initiation and response leave both sides with a keypair each: what one sends with the other
    receives with, and each index is known to the other side as remote. It succeeds if no shared secret is zero. */
  method Agree(i: Device, toR: Peer, r: Device, toI: Peer, e: Bytes, f: Bytes, timestamp: int, now: int, draws: seq<nat>, draws': seq<nat>)
    returns (ki: Keypair?, kr: Keypair?)
    requires i.Valid() && r.Valid() && Acquainted(i, toR, r, toI) && i != r
    requires i.GoodDraws(draws, toR.localIndex) && r.GoodDraws(draws', toI.localIndex)
    requires toI.isRunning && timestamp > toI.lastTimestamp && now - toI.lastInitiationConsumption > HANDSHAKE_INITIATION_RATE
    modifies i`table, r`table, i.peers.Values, r.peers.Values
    ensures i.Valid() && r.Valid()
    ensures ki != null && kr != null <==> NonZero(i.crypto, i.privateKey, e, r.privateKey, f)
    ensures ki != null && kr != null ==>
      && ki == toR.current && kr == toI.next && ki.isInitiator && !kr.isInitiator
      && ki.send == kr.receive && ki.receive == kr.send
      && ki.localIndex == kr.remoteIndex && ki.remoteIndex == kr.localIndex
  {
    hide Apply, Device.Indexes, Device.Valid, OthersKept;
    SecretsNeeded(i, toR, r, toI, e, f, timestamp);
    hide Laws, Initiate, Respond;
    ki, kr := null, null;
    var msg := DeliverInitiation(i, toR, r, toI, e, timestamp, now, draws);
    if msg.None? {
      return;
    }
    var msg' := DeliverResponse(i, toR, r, toI, f, draws');
    if msg'.None? {
      return;
    }
    ki, kr := BeginBoth(i, toR, r, toI);
  }

  /** The messages can be made exactly if the secrets exist. */
  lemma SecretsNeeded(i: Device, toR: Peer, r: Device, toI: Peer, e: Bytes, f: Bytes, timestamp: int)
    requires Acquainted(i, toR, r, toI)
    ensures i.Initiated(toR, e, timestamp).Some? <==>
      i.crypto.sharedSecret(e, i.crypto.publicKey(r.privateKey)).Some? && i.crypto.sharedSecret(i.privateKey, i.crypto.publicKey(r.privateKey)).Some?
    ensures forall k :: Respond(i.crypto, k, f, i.crypto.publicKey(e), toI.remoteStatic, toI.presharedKey).Some? <==>
      i.crypto.sharedSecret(f, i.crypto.publicKey(e)).Some? && i.crypto.sharedSecret(f, i.crypto.publicKey(i.privateKey)).Some?
  {
  }

  method BeginBoth(i: Device, toR: Peer, r: Device, toI: Peer) returns (ki: Keypair, kr: Keypair)
    requires i.Valid() && r.Valid() && Acquainted(i, toR, r, toI) && i != r
    requires toR.chainKey == toI.chainKey && toR.state == ResponseConsumed && toI.state == ResponseCreated
    requires toR.remoteIndex == toI.localIndex && toI.remoteIndex == toR.localIndex
    modifies i`table, r`table, toR, toI
    ensures i.Valid() && r.Valid()
    ensures ki == toR.current && kr == toI.next && ki.isInitiator && !kr.isInitiator
    ensures ki.send == kr.receive && ki.receive == kr.send
    ensures ki.localIndex == kr.remoteIndex && ki.remoteIndex == kr.localIndex
  {
    hide Apply, Device.Indexes, Device.Valid, OthersKept, Laws;
    var _, _ := i.BeginSymmetricSession(toR);
    ki := toR.current;
    var _, _ := r.BeginSymmetricSession(toI);
    kr := toI.next;
  }

  /** A draw of 0 is taken for no index: whatever state the other peer `q` is in, its entry is gone once `q` has
    expired its keypairs twice. */
  method ZeroDraw(d: Device, p: Peer, q: Peer)
    requires d.Valid() && p in d.peers.Values && q in d.peers.Values && p != q
    modifies d`table, p`localIndex, q`localEphemeral, q`remoteEphemeral, q`chainKey, q`hash, q`localIndex, q`state
    ensures p.localIndex == 0 && 0 !in d.table
  {
    hide State.Sound;
    d.NoZero();
    d.Delete(p.localIndex);
    assert [0][0] !in d.table;
    p.localIndex := d.NewIndexForHandshake(p, [0]);
    assert d.table[p.localIndex] == HandshakeEntry(p);
    d.Delete(q.localIndex);
    q.Clear();
    d.Delete(q.localIndex);
    q.Clear();
  }
}
