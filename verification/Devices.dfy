/** Handshakes of one device with many peers over one index table (device/noise-protocol.go,
  device/indextable.go, device/keypair.go, device/peer.go).

  Each method is one step. Locks, timers and queues are not modelled. Random draws, clock readings and
  fresh private keys are parameters. */
module Devices {
  import Nonce
  import Words = Bytes
  import opened Noise
  import opened Wrappers
  import opened IndexRuns
  import opened Peers

  const HANDSHAKE_INITIATION_RATE: int := 20_000_000

  datatype InitiationMsg = InitiationMsg(sender: nat, ephemeral: Bytes, sealedStatic: Bytes, sealedTime: Bytes)

  datatype ResponseMsg = ResponseMsg(sender: nat, receiver: nat, ephemeral: Bytes, sealedEmpty: Bytes)

  class Device {
    const crypto: Crypto
    const privateKey: Bytes
    var peers: map<Bytes, Peer>
    var table: map<nat, Entry>

    constructor (crypto: Crypto, privateKey: Bytes)
      ensures Valid() && this.crypto == crypto && this.privateKey == privateKey && peers == map[] && table == map[]
    {
      this.crypto, this.privateKey := crypto, privateKey;
      peers, table := map[], map[];
    }

    ghost function Views(): map<Peer, View>
      reads this`peers, peers.Values`state, peers.Values`localIndex, peers.Values`current, peers.Values`previous, peers.Values`next
    {
      map p | p in peers.Values :: p.Shown()
    }

    /** The index table and what the peers hold in it. */
    ghost function Indexes(): (s: State)
      reads this`table, this`peers, peers.Values`state, peers.Values`localIndex, peers.Values`current, peers.Values`previous, peers.Values`next
      ensures s.table == table && s.views.Keys == peers.Values
    {
      State(table, Views())
    }

    ghost predicate Valid()
      reads this`peers, this`table, peers.Values`state, peers.Values`localIndex, peers.Values`current, peers.Values`previous, peers.Values`next
    {
      && (forall s :: s in peers ==> peers[s].remoteStatic == s)
      && Indexes().Sound()
    }

    // ----- The index table

    method Delete(index: nat)
      modifies this`table
      ensures table == old(table) - {index}
    {
      table := table - {index};
    }

    method SwapIndexForKeypair(index: nat, keypair: Keypair)
      modifies this`table
      ensures table == if index in old(table) then old(table)[index := KeypairEntry(old(table)[index].peer, keypair)] else old(table)
    {
      if index !in table {
        return;
      }
      table := table[index := KeypairEntry(table[index].peer, keypair)];
    }

    /** Takes the first unused index among the random draws. */
    method NewIndexForHandshake(peer: Peer, draws: seq<nat>) returns (index: nat)
      requires exists k :: 0 <= k < |draws| && draws[k] !in table
      modifies this`table
      ensures index in draws && index !in old(table) && table == old(table)[index := HandshakeEntry(peer)]
      ensures exists k :: 0 <= k < |draws| && index == draws[k] && forall j :: 0 <= j < k ==> draws[j] in old(table)
    {
      var k := 0;
      while draws[k] in table
        invariant 0 <= k < |draws| && forall j :: 0 <= j < k ==> draws[j] in table
        invariant exists m :: k <= m < |draws| && draws[m] !in table
        decreases |draws| - k
      {
        k := k + 1;
      }
      index := draws[k];
      table := table[index := HandshakeEntry(peer)];
    }

    method Lookup(id: nat) returns (entry: Option<Entry>)
      ensures entry == if id in table then Some(table[id]) else None
    {
      entry := if id in table then Some(table[id]) else None;
    }

    method DeleteKeypair(key: Keypair?)
      modifies this`table
      ensures table == old(table) - KeypairIndex(key)
    {
      if key != null {
        Delete(key.localIndex);
      }
    }

    /** Nonzero 32-bit draws of which one is unused; an index the caller has given up counts as unused. */
    predicate GoodDraws(draws: seq<nat>, freed: nat)
      reads this`table
    {
      && (forall k :: 0 <= k < |draws| ==> 0 < draws[k] < Words.TWO32)
      && exists k :: 0 <= k < |draws| && draws[k] !in table - {freed}
    }

    /** A new index for the peer's handshake, in place of the one it had. */
    method Reindex(peer: Peer, draws: seq<nat>)
      requires Valid() && peer in peers.Values && GoodDraws(draws, peer.localIndex)
      modifies this`table, peer`localIndex
      ensures Valid() && peer.localIndex != 0 && OthersKept(old(table), table, peer)
      ensures Indexes() == Apply(old(Indexes()), Step.Reindex(peer, peer.localIndex))
      ensures table == (old(table) - {old(peer.localIndex)})[peer.localIndex := HandshakeEntry(peer)]
    {
      hide State.Sound, OthersKept;
      ghost var s := Indexes();
      Delete(peer.localIndex);
      var index := NewIndexForHandshake(peer, draws);
      StepSound(s, Step.Reindex(peer, index));
      peer.localIndex := index;
      assert Views() == s.views[peer := peer.Shown()];
    }

    /** Moves the peer's handshake to another state. */
    method SetState(peer: Peer, state: HandshakeState)
      requires Valid() && peer in peers.Values && (state != Zeroed && state != InitiationConsumed ==> peer.localIndex != 0)
      modifies peer`state
      ensures Valid() && peer.state == state && Indexes() == Apply(old(Indexes()), Move(peer, state))
    {
      hide State.Sound, OthersKept;
      ghost var s := Indexes();
      StepSound(s, Move(peer, state));
      peer.state := state;
      assert Views() == s.views[peer := peer.Shown()];
    }

    // ----- Handshake messages

    /** Starts a handshake. If that fails, the old index stays. */
    method CreateMessageInitiation(peer: Peer, newPrivateKey: Option<Bytes>, timestamp: int, draws: seq<nat>) returns (msg: Option<InitiationMsg>)
      requires Valid() && peer in peers.Values && GoodDraws(draws, peer.localIndex)
      modifies this`table, peer`hash, peer`chainKey, peer`localEphemeral, peer`localIndex, peer`state
      ensures Valid() && OthersKept(old(table), table, peer)
      ensures msg.Some? <==> newPrivateKey.Some? && Initiated(peer, newPrivateKey.value, timestamp).Some?
      ensures msg.Some? ==>
        var sent := Initiated(peer, newPrivateKey.value, timestamp).value;
        && msg.value == InitiationMsg(peer.localIndex, crypto.publicKey(newPrivateKey.value), sent.sealedStatic, sent.sealedTime)
        && peer.Keys() == sent.keys && peer.localEphemeral == newPrivateKey.value && peer.state == InitiationCreated
        && peer.localIndex in table && table[peer.localIndex] == HandshakeEntry(peer)
      ensures msg.Some? ==>
        Indexes() == Apply(Apply(old(Indexes()), Step.Reindex(peer, peer.localIndex)), Move(peer, InitiationCreated))
      ensures msg.None? ==> table == old(table) && peer.localIndex == old(peer.localIndex) && peer.state == old(peer.state)
    {
      hide OthersKept, Valid, Initiated, Indexes, Apply, Views;
      KeptSame(table, peer);
      var sealed := WriteInitiation(peer, newPrivateKey, timestamp);
      if sealed.None? {
        return None;
      }
      var (sealedStatic, sealedTime) := sealed.value;
      Publish(peer, sealedTime, draws);
      msg := Some(InitiationMsg(peer.localIndex, crypto.publicKey(peer.localEphemeral), sealedStatic, sealedTime));
    }

    /** The handshake gets its index, and awaits a response. */
    method Publish(peer: Peer, sealedTime: Bytes, draws: seq<nat>)
      requires Valid() && peer in peers.Values && GoodDraws(draws, peer.localIndex)
      modifies this`table, peer`hash, peer`localIndex, peer`state
      ensures Valid() && OthersKept(old(table), table, peer)
      ensures Indexes() == Apply(Apply(old(Indexes()), Step.Reindex(peer, peer.localIndex)), Move(peer, InitiationCreated))
      ensures peer.hash == crypto.mixHash(old(peer.hash), sealedTime) && peer.state == InitiationCreated
      ensures peer.localIndex in table && table[peer.localIndex] == HandshakeEntry(peer)
    {
      hide OthersKept, Valid, Indexes, Apply, Views;
      Reindex(peer, draws);
      peer.hash := crypto.mixHash(peer.hash, sealedTime);
      SetState(peer, InitiationCreated);
    }

    /** The transcript of an initiation, up to its timestamp; the sealed static key and timestamp. */
    method WriteInitiation(peer: Peer, newPrivateKey: Option<Bytes>, timestamp: int) returns (sealed: Option<(Bytes, Bytes)>)
      modifies peer`hash, peer`chainKey, peer`localEphemeral
      ensures sealed.Some? <==> newPrivateKey.Some? && Initiated(peer, newPrivateKey.value, timestamp).Some?
      ensures sealed.Some? ==>
        var sent := Initiated(peer, newPrivateKey.value, timestamp).value;
        && sealed.value == (sent.sealedStatic, sent.sealedTime) && peer.localEphemeral == newPrivateKey.value
        && sent.keys == Noise.Keys(peer.chainKey, crypto.mixHash(peer.hash, sent.sealedTime))
    {
      peer.hash, peer.chainKey := crypto.initialHash, crypto.initialChainKey;
      if newPrivateKey.None? {
        return None;
      }
      peer.localEphemeral := newPrivateKey.value;
      peer.hash := crypto.mixHash(peer.hash, peer.remoteStatic);
      var ephemeral := crypto.publicKey(peer.localEphemeral);
      peer.chainKey := crypto.kdf1(peer.chainKey, ephemeral);
      peer.hash := crypto.mixHash(peer.hash, ephemeral);
      var ss := crypto.sharedSecret(peer.localEphemeral, peer.remoteStatic);
      if ss.None? {
        return None;
      }
      var sealedStatic := SealWith(peer, ss.value, crypto.publicKey(privateKey));
      peer.hash := crypto.mixHash(peer.hash, sealedStatic);
      if peer.precomputedStaticStatic.None? {
        return None;
      }
      var sealedTime := SealWith(peer, peer.precomputedStaticStatic.value, [timestamp]);
      sealed := Some((sealedStatic, sealedTime));
    }

    /** Derives the next chain key and a key, and seals `text` with the latter. */
    method SealWith(peer: Peer, secret: Bytes, text: Bytes) returns (sealed: Bytes)
      modifies peer`chainKey
      ensures sealed == Sealed(crypto, old(peer.Keys()), secret, text)
      ensures peer.chainKey == Stretch(crypto, old(peer.Keys()), secret).0
    {
      var (chainKey, key) := crypto.kdf2(peer.chainKey, secret);
      peer.chainKey := chainKey;
      sealed := crypto.seal(key, text, peer.hash);
    }

    ghost function Initiated(peer: Peer, ephemeral: Bytes, timestamp: int): Option<Initiation> {
      Initiate(crypto, ephemeral, crypto.publicKey(privateKey), peer.remoteStatic, peer.precomputedStaticStatic, timestamp)
    }

    /** Accepts an initiation that opens, is newer than the last and does not come too soon. */
    method ConsumeMessageInitiation(msg: InitiationMsg, now: int) returns (from: Peer?)
      requires Valid()
      modifies peers.Values`hash, peers.Values`chainKey, peers.Values`remoteIndex, peers.Values`remoteEphemeral,
        peers.Values`lastTimestamp, peers.Values`lastInitiationConsumption, peers.Values`state
      ensures Valid()
      ensures from != null <==> old(Acceptable(msg, now))
      ensures from == null ==> Indexes() == old(Indexes())
      ensures from != null ==> from in peers.Values && Indexes() == Apply(old(Indexes()), Move(from, InitiationConsumed))
      ensures forall p :: p in peers.Values && p != from ==> unchanged(p)
      ensures from != null ==>
        var got := OpenStatic(crypto, privateKey, crypto.publicKey(privateKey), msg.ephemeral, msg.sealedStatic).value;
        && got.1 in peers && from == peers[got.1]
        && from.state == InitiationConsumed && from.remoteIndex == msg.sender && from.remoteEphemeral == msg.ephemeral
        && from.Keys() == OpenTime(crypto, got.0, from.precomputedStaticStatic, msg.sealedTime).value.0
        && from.lastTimestamp == OpenTime(crypto, got.0, from.precomputedStaticStatic, msg.sealedTime).value.1
        && from.lastInitiationConsumption == now
    {
      hide OthersKept, Valid, OpenStatic, OpenTime, Indexes, Apply;
      var got := ReadStatic(msg);
      if got.None? {
        return null;
      }
      var (k, peerPK) := got.value;
      if peerPK !in peers || !peers[peerPK].isRunning {
        return null;
      }
      var peer := peers[peerPK];
      var time := ReadTime(k, peer, msg.sealedTime);
      if time.None? {
        return null;
      }
      var (keys, timestamp) := time.value;
      if timestamp <= peer.lastTimestamp || now - peer.lastInitiationConsumption <= HANDSHAKE_INITIATION_RATE {
        return null;
      }
      Note(peer, keys, msg, timestamp, now);
      SetState(peer, InitiationConsumed);
      from := peer;
    }

    method Note(peer: Peer, keys: Keys, msg: InitiationMsg, timestamp: int, now: int)
      modifies peer`hash, peer`chainKey, peer`remoteIndex, peer`remoteEphemeral, peer`lastTimestamp, peer`lastInitiationConsumption
      ensures peer.Keys() == keys && peer.remoteIndex == msg.sender && peer.remoteEphemeral == msg.ephemeral
      ensures peer.lastTimestamp == if timestamp > old(peer.lastTimestamp) then timestamp else old(peer.lastTimestamp)
      ensures peer.lastInitiationConsumption == if now > old(peer.lastInitiationConsumption) then now else old(peer.lastInitiationConsumption)
    {
      peer.hash, peer.chainKey := keys.hash, keys.chainKey;
      peer.remoteIndex, peer.remoteEphemeral := msg.sender, msg.ephemeral;
      if timestamp > peer.lastTimestamp {
        peer.lastTimestamp := timestamp;
      }
      if now > peer.lastInitiationConsumption {
        peer.lastInitiationConsumption := now;
      }
    }

    /** Decrypts the initiator's static key. */
    method ReadStatic(msg: InitiationMsg) returns (got: Option<(Keys, Bytes)>)
      ensures got == OpenStatic(crypto, privateKey, crypto.publicKey(privateKey), msg.ephemeral, msg.sealedStatic)
    {
      var hash := crypto.mixHash(crypto.initialHash, crypto.publicKey(privateKey));
      hash := crypto.mixHash(hash, msg.ephemeral);
      var chainKey := crypto.kdf1(crypto.initialChainKey, msg.ephemeral);
      var ss := crypto.sharedSecret(privateKey, msg.ephemeral);
      if ss.None? {
        return None;
      }
      var (chainKey', key) := crypto.kdf2(chainKey, ss.value);
      var peerPK := crypto.open(key, msg.sealedStatic, hash);
      if peerPK.None? {
        return None;
      }
      hash := crypto.mixHash(hash, msg.sealedStatic);
      got := Some((Keys(chainKey', hash), peerPK.value));
    }

    /** Decrypts the timestamp. */
    method ReadTime(k: Keys, peer: Peer, sealedTime: Bytes) returns (time: Option<(Keys, int)>)
      ensures time == OpenTime(crypto, k, peer.precomputedStaticStatic, sealedTime)
    {
      if peer.precomputedStaticStatic.None? {
        return None;
      }
      var (chainKey, key) := crypto.kdf2(k.chainKey, peer.precomputedStaticStatic.value);
      var timestamp := crypto.open(key, sealedTime, k.hash);
      if timestamp.None? || |timestamp.value| != 1 {
        return None;
      }
      time := Some((Keys(chainKey, crypto.mixHash(k.hash, sealedTime)), timestamp.value[0]));
    }

    ghost predicate Acceptable(msg: InitiationMsg, now: int)
      reads this`peers, peers.Values
    {
      var got := OpenStatic(crypto, privateKey, crypto.publicKey(privateKey), msg.ephemeral, msg.sealedStatic);
      && got.Some? && got.value.1 in peers
      && var p := peers[got.value.1];
         && p.isRunning
         && var time := OpenTime(crypto, got.value.0, p.precomputedStaticStatic, msg.sealedTime);
            && time.Some? && time.value.1 > p.lastTimestamp && now - p.lastInitiationConsumption > HANDSHAKE_INITIATION_RATE
    }

    /** Answers an initiation. The new index is kept even if a later step fails. */
    method CreateMessageResponse(peer: Peer, newPrivateKey: Option<Bytes>, draws: seq<nat>) returns (msg: Option<ResponseMsg>)
      requires Valid() && peer in peers.Values && GoodDraws(draws, peer.localIndex)
      modifies this`table, peer`hash, peer`chainKey, peer`localEphemeral, peer`localIndex, peer`state
      ensures Valid() && OthersKept(old(table), table, peer)
      ensures msg.Some? <==> old(peer.state) == InitiationConsumed && newPrivateKey.Some? && old(Responded(peer, newPrivateKey.value)).Some?
      ensures old(peer.state) != InitiationConsumed ==> Indexes() == old(Indexes())
      ensures old(peer.state) == InitiationConsumed ==>
        var drawn := Apply(old(Indexes()), Step.Reindex(peer, peer.localIndex));
        Indexes() == if msg.Some? then Apply(drawn, Move(peer, ResponseCreated)) else drawn
      ensures msg.Some? ==>
        var sent := old(Responded(peer, newPrivateKey.value)).value;
        && msg.value == ResponseMsg(peer.localIndex, peer.remoteIndex, crypto.publicKey(newPrivateKey.value), sent.sealedEmpty)
        && peer.Keys() == sent.keys && peer.state == ResponseCreated
        && peer.localIndex in table && table[peer.localIndex] == HandshakeEntry(peer)
    {
      hide OthersKept, Valid, Responded, Indexes, Apply, Views;
      KeptSame(table, peer);
      if peer.state != InitiationConsumed {
        return None;
      }
      Reindex(peer, draws);
      var sealedEmpty := WriteResponse(peer, newPrivateKey);
      if sealedEmpty.None? {
        return None;
      }
      SetState(peer, ResponseCreated);
      msg := Some(ResponseMsg(peer.localIndex, peer.remoteIndex, crypto.publicKey(peer.localEphemeral), sealedEmpty.value));
    }

    /** The transcript of a response. */
    method WriteResponse(peer: Peer, newPrivateKey: Option<Bytes>) returns (sealedEmpty: Option<Bytes>)
      modifies peer`hash, peer`chainKey, peer`localEphemeral
      ensures sealedEmpty.Some? <==> newPrivateKey.Some? && old(Responded(peer, newPrivateKey.value)).Some?
      ensures sealedEmpty.Some? ==>
        var sent := old(Responded(peer, newPrivateKey.value)).value;
        sealedEmpty.value == sent.sealedEmpty && peer.Keys() == sent.keys && peer.localEphemeral == newPrivateKey.value
    {
      if newPrivateKey.None? {
        return None;
      }
      peer.localEphemeral := newPrivateKey.value;
      var ephemeral := crypto.publicKey(peer.localEphemeral);
      peer.hash := crypto.mixHash(peer.hash, ephemeral);
      peer.chainKey := crypto.kdf1(peer.chainKey, ephemeral);
      var ss := crypto.sharedSecret(peer.localEphemeral, peer.remoteEphemeral);
      if ss.None? {
        return None;
      }
      peer.chainKey := crypto.kdf1(peer.chainKey, ss.value);
      ss := crypto.sharedSecret(peer.localEphemeral, peer.remoteStatic);
      if ss.None? {
        return None;
      }
      peer.chainKey := crypto.kdf1(peer.chainKey, ss.value);
      var (chainKey, tau, key) := crypto.kdf3(peer.chainKey, peer.presharedKey);
      peer.chainKey := chainKey;
      peer.hash := crypto.mixHash(peer.hash, tau);
      var sealed := crypto.seal(key, [], peer.hash);
      peer.hash := crypto.mixHash(peer.hash, sealed);
      sealedEmpty := Some(sealed);
    }

    ghost function Responded(peer: Peer, ephemeral: Bytes): Option<Response>
      reads peer`hash, peer`chainKey, peer`remoteEphemeral
    {
      Respond(crypto, peer.Keys(), ephemeral, peer.remoteEphemeral, peer.remoteStatic, peer.presharedKey)
    }

    /** Accepts the response to an initiation under way. */
    method ConsumeMessageResponse(msg: ResponseMsg) returns (from: Peer?)
      requires Valid()
      modifies peers.Values`hash, peers.Values`chainKey, peers.Values`remoteIndex, peers.Values`state
      ensures Valid()
      ensures from != null <==> old(Answered(msg))
      ensures from == null ==> Indexes() == old(Indexes())
      ensures from != null ==> from in peers.Values && Indexes() == Apply(old(Indexes()), Move(from, ResponseConsumed))
      ensures forall p :: p in peers.Values && p != from ==> unchanged(p)
      ensures from != null ==>
        && msg.receiver in table && table[msg.receiver] == HandshakeEntry(from) && from in peers.Values
        && from.Keys() == old(Finished(from, msg)).value
        && from.state == ResponseConsumed && from.remoteIndex == msg.sender
    {
      hide OthersKept, Valid, OpenResponse, Indexes, Apply;
      var lookup := Lookup(msg.receiver);
      if lookup.None? || lookup.value.KeypairEntry? {
        return null;
      }
      var peer := lookup.value.peer;
      EntryPeer(msg.receiver);
      if peer.state != InitiationCreated {
        return null;
      }
      var keys := ReadResponse(peer, msg);
      if keys.None? {
        return null;
      }
      peer.hash, peer.chainKey := keys.value.hash, keys.value.chainKey;
      peer.remoteIndex := msg.sender;
      SetState(peer, ResponseConsumed);
      from := peer;
    }

    lemma NoZero()
      requires Valid()
      ensures 0 !in table
    {
    }

    /** A peer is known by its static key. */
    lemma Registered(p: Peer)
      requires Valid() && p in peers.Values
      ensures p.remoteStatic in peers && peers[p.remoteStatic] == p
      ensures forall s :: s in peers && peers[s] == p ==> s == p.remoteStatic
    {
      var s :| s in peers && peers[s] == p;
    }

    /** The peer of an entry is one of the device's, and holds an index if its handshake is under way. */
    lemma EntryPeer(i: nat)
      requires Valid() && i in table
      ensures table[i].peer in peers.Values
      ensures table[i].HandshakeEntry? ==> table[i].peer.localIndex == i && i != 0
    {
      assert Owned(table, Views(), i);
    }

    method ReadResponse(peer: Peer, msg: ResponseMsg) returns (keys: Option<Keys>)
      ensures keys == Finished(peer, msg)
    {
      var hash := crypto.mixHash(peer.hash, msg.ephemeral);
      var chainKey := crypto.kdf1(peer.chainKey, msg.ephemeral);
      var ss := crypto.sharedSecret(peer.localEphemeral, msg.ephemeral);
      if ss.None? {
        return None;
      }
      chainKey := crypto.kdf1(chainKey, ss.value);
      ss := crypto.sharedSecret(privateKey, msg.ephemeral);
      if ss.None? {
        return None;
      }
      chainKey := crypto.kdf1(chainKey, ss.value);
      var (chainKey', tau, key) := crypto.kdf3(chainKey, peer.presharedKey);
      hash := crypto.mixHash(hash, tau);
      if crypto.open(key, msg.sealedEmpty, hash).None? {
        return None;
      }
      keys := Some(Keys(chainKey', crypto.mixHash(hash, msg.sealedEmpty)));
    }

    ghost function Finished(peer: Peer, msg: ResponseMsg): Option<Keys>
      reads peer`hash, peer`chainKey, peer`localEphemeral
    {
      OpenResponse(crypto, peer.Keys(), peer.localEphemeral, privateKey, peer.presharedKey, msg.ephemeral, msg.sealedEmpty)
    }

    ghost predicate Answered(msg: ResponseMsg)
      reads this`table, (if msg.receiver in table then {table[msg.receiver].peer} else {})
    {
      && msg.receiver in table && table[msg.receiver].HandshakeEntry?
      && var p := table[msg.receiver].peer; p.state == InitiationCreated && Finished(p, msg).Some?
    }

    // ----- Keypairs

    /** Turns a finished handshake into a keypair, which takes over its index. */
    method BeginSymmetricSession(peer: Peer) returns (ok: bool, ghost k: Keypair?)
      requires Valid() && peer in peers.Values
      modifies this`table, peer`chainKey, peer`hash, peer`localEphemeral, peer`state, peer`localIndex, peer`current, peer`previous, peer`next
      ensures Valid() && OthersKept(old(table), table, peer)
      ensures ok <==> old(peer.state) == ResponseConsumed || old(peer.state) == ResponseCreated
      ensures ok ==>
        && k != null && fresh(k) && k.isInitiator == (old(peer.state) == ResponseConsumed)
        && k.localIndex == old(peer.localIndex) && k.remoteIndex == peer.remoteIndex
        && peer.Shown() == Begun(old(peer.Shown()), k) && Indexes() == Apply(old(Indexes()), Begin(peer, k))
        && var (a, b) := crypto.kdf2(old(peer.chainKey), []);
           if k.isInitiator then k.send == a && k.receive == b else k.receive == a && k.send == b
      ensures ok ==> peer.chainKey == peer.hash == peer.localEphemeral == ZERO
      ensures !ok ==> table == old(table) && peer.Shown() == old(peer.Shown())
    {
      hide OthersKept, Valid, Apply, Indexes, Begun, Views;
      KeptSame(table, peer);
      if peer.state != ResponseConsumed && peer.state != ResponseCreated {
        return false, null;
      }
      HandshakeEntryOf(peer);
      var keypair := DeriveKeypair(peer, peer.state == ResponseConsumed);
      Finish(peer, keypair);
      ok, k := true, keypair;
    }

    /** The handshake is over, and its keypair takes its place. */
    method Finish(peer: Peer, keypair: Keypair)
      requires Valid() && peer in peers.Values && peer.localIndex != 0 && peer.localIndex in table && table[peer.localIndex].peer == peer
      requires keypair.localIndex == peer.localIndex && !peer.Shown().Live(keypair)
      modifies this`table, peer`state, peer`localIndex, peer`current, peer`previous, peer`next
      ensures Valid() && OthersKept(old(table), table, peer) && peer.Shown() == Begun(old(peer.Shown()), keypair)
      ensures Indexes() == Apply(old(Indexes()), Begin(peer, keypair))
    {
      hide OthersKept, Valid, Apply, Indexes, Begun, Views;
      ghost var s := Indexes();
      SlotsOnly(peer.Shown(), keypair);
      SetState(peer, Zeroed);
      Install(peer, keypair);
      ZeroedBegin(s, peer, keypair);
    }

    /** The keypair for a finished handshake, whose secrets are zeroed. */
    method DeriveKeypair(peer: Peer, isInitiator: bool) returns (k: Keypair)
      modifies peer`chainKey, peer`hash, peer`localEphemeral
      ensures fresh(k) && k.isInitiator == isInitiator && k.localIndex == peer.localIndex && k.remoteIndex == peer.remoteIndex
      ensures var (a, b) := crypto.kdf2(old(peer.chainKey), []);
        if isInitiator then k.send == a && k.receive == b else k.receive == a && k.send == b
      ensures peer.chainKey == peer.hash == peer.localEphemeral == ZERO
    {
      var (a, b) := crypto.kdf2(peer.chainKey, []);
      peer.chainKey, peer.hash, peer.localEphemeral := ZERO, ZERO, ZERO;
      k := new Keypair(if isInitiator then a else b, if isInitiator then b else a, isInitiator, peer.localIndex, peer.remoteIndex);
    }

    /** The new keypair takes over the index of the handshake, and the slots rotate. */
    method Install(peer: Peer, keypair: Keypair)
      requires Valid() && peer in peers.Values && peer.localIndex != 0 && peer.localIndex in table && table[peer.localIndex].peer == peer
      requires keypair.localIndex == peer.localIndex && !peer.Shown().Live(keypair) && peer.state == Zeroed
      modifies this`table, peer`localIndex, peer`current, peer`previous, peer`next
      ensures Valid() && OthersKept(old(table), table, peer) && peer.Shown() == Begun(old(peer.Shown()), keypair)
      ensures Indexes() == Apply(old(Indexes()), Begin(peer, keypair))
    {
      hide State.Sound, OthersKept, Retired, Begun;
      ghost var s := Indexes();
      StepSound(s, Begin(peer, keypair));
      SlotsOnly(peer.Shown(), keypair);
      SwapIndexForKeypair(peer.localIndex, keypair);
      peer.localIndex := 0;
      Rotate(peer, keypair);
      assert Views() == s.views[peer := peer.Shown()];
    }

    /** The slots after a session has begun; dropped keypairs lose their entries. */
    method Rotate(peer: Peer, keypair: Keypair)
      modifies this`table, peer`current, peer`previous, peer`next
      ensures table == old(table) - Retired(old(peer.Shown()), keypair)
      ensures peer.Shown() == Begun(old(peer.Shown()), keypair).(state := peer.state, localIndex := peer.localIndex)
    {
      hide KeypairIndex;
      var previous, next, current := peer.previous, peer.next, peer.current;
      MinusBoth(table, KeypairIndex(current), KeypairIndex(previous));
      MinusBoth(table, KeypairIndex(next), KeypairIndex(previous));
      assert KeypairIndex(previous) + {} == KeypairIndex(previous);
      if keypair.isInitiator {
        if next != null {
          peer.next := null;
          peer.previous := next;
          DeleteKeypair(current);
        } else {
          peer.previous := current;
        }
        DeleteKeypair(previous);
        peer.current := keypair;
      } else {
        peer.next := keypair;
        DeleteKeypair(next);
        peer.previous := null;
        DeleteKeypair(previous);
      }
    }

    lemma HandshakeEntryOf(peer: Peer)
      requires Valid() && peer in peers.Values && (peer.state == ResponseConsumed || peer.state == ResponseCreated)
      ensures peer.localIndex != 0 && peer.localIndex in table && table[peer.localIndex] == HandshakeEntry(peer)
    {
      assert Settled(table, peer, Views()[peer]);
    }

    /** The other side has used the unconfirmed keypair, which becomes current. */
    method ReceivedWithKeypair(peer: Peer, receivedKeypair: Keypair) returns (ok: bool)
      requires Valid() && peer in peers.Values
      modifies this`table, peer`current, peer`previous, peer`next
      ensures Valid() && OthersKept(old(table), table, peer) && ok == (old(peer.next) == receivedKeypair)
      ensures ok ==> peer.current == receivedKeypair && peer.previous == old(peer.current) && peer.next == null
      ensures ok ==> Indexes() == Apply(old(Indexes()), Confirm(peer))
      ensures !ok ==> table == old(table) && peer.Shown() == old(peer.Shown())
    {
      hide State.Sound, OthersKept;
      KeptSame(table, peer);
      if peer.next != receivedKeypair {
        return false;
      }
      ghost var s := Indexes();
      StepSound(s, Confirm(peer));
      Promote(peer);
      assert Views() == s.views[peer := peer.Shown()];
      ok := true;
    }

    method Promote(peer: Peer)
      modifies this`table, peer`current, peer`previous, peer`next
      ensures table == old(table) - old(KeypairIndex(peer.previous))
      ensures peer.previous == old(peer.current) && peer.current == old(peer.next) && peer.next == null
    {
      var previous := peer.previous;
      peer.previous := peer.current;
      DeleteKeypair(previous);
      peer.current := peer.next;
      peer.next := null;
    }

    /** Drops all keypairs and the handshake. */
    method ZeroAndFlushAll(peer: Peer)
      requires Valid() && peer in peers.Values
      modifies this`table, peer`current, peer`previous, peer`next,
        peer`localEphemeral, peer`remoteEphemeral, peer`chainKey, peer`hash, peer`localIndex, peer`state
      ensures Valid() && OthersKept(old(table), table, peer) && peer.Shown() == View(Zeroed, 0, null, null, null)
      ensures forall i :: i in table ==> table[i].peer != peer
      ensures Indexes() == Apply(Apply(old(Indexes()), Drop(peer)), Unindex(peer))
    {
      hide OthersKept, Valid, Apply, Indexes;
      DropKeypairs(peer);
      ghost var between := table;
      DropHandshake(peer);
      KeptTransitive(old(table), between, table, peer);
      NoEntries(peer);
    }

    method DropKeypairs(peer: Peer)
      requires Valid() && peer in peers.Values
      modifies this`table, peer`current, peer`previous, peer`next
      ensures Valid() && OthersKept(old(table), table, peer) && peer.Shown() == old(peer.Shown()).(current := null, previous := null, next := null)
      ensures Indexes() == Apply(old(Indexes()), Drop(peer))
    {
      hide State.Sound, OthersKept, KeypairIndex;
      ghost var s := Indexes();
      StepSound(s, Drop(peer));
      ClearSlots(peer);
      assert Views() == s.views[peer := peer.Shown()];
    }

    method ClearSlots(peer: Peer)
      modifies this`table, peer`current, peer`previous, peer`next
      ensures table == old(table) - old(KeypairIndex(peer.previous)) - old(KeypairIndex(peer.current)) - old(KeypairIndex(peer.next))
      ensures peer.current == peer.previous == peer.next == null
    {
      hide KeypairIndex;
      DeleteKeypair(peer.previous);
      DeleteKeypair(peer.current);
      DeleteKeypair(peer.next);
      peer.previous, peer.current, peer.next := null, null, null;
    }

    method DropHandshake(peer: Peer)
      requires Valid() && peer in peers.Values
      modifies this`table, peer`localEphemeral, peer`remoteEphemeral, peer`chainKey, peer`hash, peer`localIndex, peer`state
      ensures Valid() && OthersKept(old(table), table, peer) && peer.Shown() == old(peer.Shown()).(localIndex := 0, state := Zeroed)
      ensures Indexes() == Apply(old(Indexes()), Unindex(peer))
    {
      hide State.Sound, OthersKept;
      ghost var s := Indexes();
      StepSound(s, Unindex(peer));
      Delete(peer.localIndex);
      peer.Clear();
      assert Views() == s.views[peer := peer.Shown()];
    }

    lemma NoEntries(peer: Peer)
      requires Valid() && peer in peers.Values && peer.Shown() == View(Zeroed, 0, null, null, null)
      ensures forall i :: i in table ==> table[i].peer != peer
    {
      forall i | i in table ensures table[i].peer != peer {
        assert Owned(table, Views(), i);
      }
    }

    /** Drops the handshake and uses up the nonces of the keypairs for sending. */
    method ExpireCurrentKeypairs(peer: Peer)
      requires Valid() && peer in peers.Values
      modifies this`table, peer`localEphemeral, peer`remoteEphemeral, peer`chainKey, peer`hash, peer`localIndex, peer`state,
        peer.current, peer.next
      ensures Valid() && OthersKept(old(table), table, peer) && peer.Shown() == old(peer.Shown()).(localIndex := 0, state := Zeroed)
      ensures Indexes() == Apply(old(Indexes()), Unindex(peer))
      ensures peer.current != null ==> peer.current.sendNonce == Nonce.REJECT_AFTER_MESSAGES
      ensures peer.next != null ==> peer.next.sendNonce == Nonce.REJECT_AFTER_MESSAGES
    {
      hide OthersKept, Valid, Apply, Indexes;
      DropHandshake(peer);
      if peer.current != null {
        peer.current.sendNonce := Nonce.REJECT_AFTER_MESSAGES;
      }
      if peer.next != null {
        peer.next.sendNonce := Nonce.REJECT_AFTER_MESSAGES;
      }
    }

    /** A new peer has no index and no keypairs. */
    method AddPeer(remoteStatic: Bytes, psk: Bytes) returns (peer: Peer)
      requires Valid() && remoteStatic !in peers
      modifies this`peers
      ensures Valid() && fresh(peer) && peers == old(peers)[remoteStatic := peer]
      ensures peer.remoteStatic == remoteStatic && peer.presharedKey == psk
      ensures peer.precomputedStaticStatic == crypto.sharedSecret(privateKey, remoteStatic)
      ensures peer.Shown() == View(Zeroed, 0, null, null, null)
      ensures peer.isRunning && peer.lastTimestamp == 0 && peer.lastInitiationConsumption == 0
    {
      hide Peers.Sound, OthersKept;
      ghost var views := Views();
      peer := new Peer(remoteStatic, crypto.sharedSecret(privateKey, remoteStatic), psk);
      Admitted(table, views, peer);
      peers := peers[remoteStatic := peer];
      NewValue(old(peers), remoteStatic, peer);
      assert Views() == views[peer := peer.Shown()];
    }
  }

  lemma MinusBoth(table: Table, a: set<nat>, b: set<nat>)
    ensures table - a - b == table - (b + a)
  {
  }

  lemma NewValue(m: map<Bytes, Peer>, key: Bytes, p: Peer)
    requires key !in m
    ensures m[key := p].Values == m.Values + {p}
  {
    forall q | q in m.Values ensures q in m[key := p].Values {
      var s :| s in m && m[s] == q;
      assert m[key := p][s] == q;
    }
    assert m[key := p][key] == p;
  }
}
