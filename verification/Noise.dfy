/** The Noise IKpsk2 handshake of device/noise-protocol.go as functions of its inputs, over uninterpreted
  primitives. */
module Noise {
  import opened Wrappers

  type Bytes = seq<int>

  /** Hash, key derivation, Diffie-Hellman (`None` for the all-zero result) and authenticated encryption. */
  datatype Crypto = Crypto(
    initialHash: Bytes,
    initialChainKey: Bytes,
    mixHash: (Bytes, Bytes) -> Bytes,
    kdf1: (Bytes, Bytes) -> Bytes,
    kdf2: (Bytes, Bytes) -> (Bytes, Bytes),
    kdf3: (Bytes, Bytes) -> (Bytes, Bytes, Bytes),
    publicKey: Bytes -> Bytes,
    sharedSecret: (Bytes, Bytes) -> Option<Bytes>,
    seal: (Bytes, Bytes, Bytes) -> Bytes,
    open: (Bytes, Bytes, Bytes) -> Option<Bytes>)

  /** What agreement rests on: Diffie-Hellman commutes, and opening undoes sealing. */
  ghost predicate Laws(c: Crypto) {
    && (forall a, b :: c.sharedSecret(a, c.publicKey(b)) == c.sharedSecret(b, c.publicKey(a)))
    && (forall key, text, ad :: c.open(key, c.seal(key, text, ad), ad) == Some(text))
  }

  datatype Keys = Keys(chainKey: Bytes, hash: Bytes)

  /** The transcript after the responder's static and the initiator's ephemeral key. */
  function Start(c: Crypto, responder: Bytes, ephemeral: Bytes): Keys {
    Keys(c.kdf1(c.initialChainKey, ephemeral), c.mixHash(c.mixHash(c.initialHash, responder), ephemeral))
  }

  /** The next chain key and encryption key. */
  function Stretch(c: Crypto, k: Keys, secret: Bytes): (Bytes, Bytes) {
    c.kdf2(k.chainKey, secret)
  }

  function Absorb(c: Crypto, k: Keys, secret: Bytes, sealed: Bytes): Keys {
    Keys(Stretch(c, k, secret).0, c.mixHash(k.hash, sealed))
  }

  function Sealed(c: Crypto, k: Keys, secret: Bytes, text: Bytes): Bytes {
    c.seal(Stretch(c, k, secret).1, text, k.hash)
  }

  function Opened(c: Crypto, k: Keys, secret: Bytes, sealed: Bytes): Option<Bytes> {
    c.open(Stretch(c, k, secret).1, sealed, k.hash)
  }

  datatype Initiation = Initiation(keys: Keys, sealedStatic: Bytes, sealedTime: Bytes)

  /** The initiator's side of the first message. */
  function Initiate(c: Crypto, ephemeral: Bytes, initiator: Bytes, responder: Bytes, staticStatic: Option<Bytes>, time: int): Option<Initiation> {
    var es := c.sharedSecret(ephemeral, responder);
    if es.None? || staticStatic.None? then None
    else
      var k0 := Start(c, responder, c.publicKey(ephemeral));
      var sealedStatic := Sealed(c, k0, es.value, initiator);
      var k1 := Absorb(c, k0, es.value, sealedStatic);
      var sealedTime := Sealed(c, k1, staticStatic.value, [time]);
      Some(Initiation(Absorb(c, k1, staticStatic.value, sealedTime), sealedStatic, sealedTime))
  }

  /** The responder's side, up to the initiator's identity. */
  function OpenStatic(c: Crypto, secret: Bytes, responder: Bytes, ephemeral: Bytes, sealedStatic: Bytes): Option<(Keys, Bytes)> {
    var k0 := Start(c, responder, ephemeral);
    var es := c.sharedSecret(secret, ephemeral);
    if es.None? then None
    else
      var initiator := Opened(c, k0, es.value, sealedStatic);
      if initiator.None? then None else Some((Absorb(c, k0, es.value, sealedStatic), initiator.value))
  }

  /** The responder's side, from the initiator's identity on. */
  function OpenTime(c: Crypto, k: Keys, staticStatic: Option<Bytes>, sealedTime: Bytes): Option<(Keys, int)> {
    if staticStatic.None? then None
    else
      var time := Opened(c, k, staticStatic.value, sealedTime);
      if time.None? || |time.value| != 1 then None else Some((Absorb(c, k, staticStatic.value, sealedTime), time.value[0]))
  }

  /** A delivered initiation leaves the responder with the initiator's keys, identity and timestamp. */
  lemma InitiationAgrees(c: Crypto, ephemeral: Bytes, initiator: Bytes, responder: Bytes, time: int)
    requires Laws(c)
    ensures var sent := Initiate(c, ephemeral, c.publicKey(initiator), c.publicKey(responder),
                                 c.sharedSecret(initiator, c.publicKey(responder)), time);
      sent.Some? ==>
        var got := OpenStatic(c, responder, c.publicKey(responder), c.publicKey(ephemeral), sent.value.sealedStatic);
        && got.Some? && got.value.1 == c.publicKey(initiator)
        && OpenTime(c, got.value.0, c.sharedSecret(responder, c.publicKey(initiator)), sent.value.sealedTime)
             == Some((sent.value.keys, time))
  {
  }

  // ----- The response

  /** Mixes in the responder's ephemeral key and the two shared secrets it opens up. */
  function MixThree(c: Crypto, k: Keys, ephemeral: Bytes, ee: Bytes, se: Bytes): Keys {
    Keys(c.kdf1(c.kdf1(c.kdf1(k.chainKey, ephemeral), ee), se), c.mixHash(k.hash, ephemeral))
  }

  /** Mixes in the preshared key: the keys for the empty text, and the key it is sealed with. */
  function MixPsk(c: Crypto, k: Keys, psk: Bytes): (Keys, Bytes) {
    var (chainKey, tau, key) := c.kdf3(k.chainKey, psk);
    (Keys(chainKey, c.mixHash(k.hash, tau)), key)
  }

  datatype Response = Response(keys: Keys, sealedEmpty: Bytes)

  function Respond(c: Crypto, k: Keys, ephemeral: Bytes, remoteEphemeral: Bytes, initiator: Bytes, psk: Bytes): Option<Response> {
    var ee := c.sharedSecret(ephemeral, remoteEphemeral);
    var se := c.sharedSecret(ephemeral, initiator);
    if ee.None? || se.None? then None
    else
      var (k1, key) := MixPsk(c, MixThree(c, k, c.publicKey(ephemeral), ee.value, se.value), psk);
      var sealedEmpty := c.seal(key, [], k1.hash);
      Some(Response(k1.(hash := c.mixHash(k1.hash, sealedEmpty)), sealedEmpty))
  }

  function OpenResponse(c: Crypto, k: Keys, localEphemeral: Bytes, secret: Bytes, psk: Bytes, ephemeral: Bytes, sealedEmpty: Bytes): Option<Keys> {
    var ee := c.sharedSecret(localEphemeral, ephemeral);
    var se := c.sharedSecret(secret, ephemeral);
    if ee.None? || se.None? then None
    else
      var (k1, key) := MixPsk(c, MixThree(c, k, ephemeral, ee.value, se.value), psk);
      if c.open(key, sealedEmpty, k1.hash).None? then None
      else Some(k1.(hash := c.mixHash(k1.hash, sealedEmpty)))
  }

  /** A delivered response leaves the initiator with the responder's keys. */
  lemma ResponseAgrees(c: Crypto, k: Keys, ephemeral: Bytes, initiatorEphemeral: Bytes, initiator: Bytes, psk: Bytes)
    requires Laws(c)
    ensures var sent := Respond(c, k, ephemeral, c.publicKey(initiatorEphemeral), c.publicKey(initiator), psk);
      sent.Some? ==>
        OpenResponse(c, k, initiatorEphemeral, initiator, psk, c.publicKey(ephemeral), sent.value.sealedEmpty) == Some(sent.value.keys)
  {
    assert c.sharedSecret(ephemeral, c.publicKey(initiatorEphemeral)) == c.sharedSecret(initiatorEphemeral, c.publicKey(ephemeral));
    assert c.sharedSecret(ephemeral, c.publicKey(initiator)) == c.sharedSecret(initiator, c.publicKey(ephemeral));
  }
}
