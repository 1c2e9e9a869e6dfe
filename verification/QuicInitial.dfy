/** The QUIC Initial datagram of device/obf_imitate_quic.go, and how a receiver opens it (section 17.2.2 of RFC
  9000, section 5.4 of RFC 9001). Key derivation, AES and AES-GCM are parameters. */
module QuicInitial {
  import opened Bytes
  import opened Imitation
  import opened QuicCodec
  import opened Wrappers
  import opened ClientHello

  const DATAGRAM_LEN: nat := 1200

  datatype Secrets = Secrets(key: seq<byte>, iv: seq<byte>, hp: seq<byte>)

  datatype Prims = Prims(
    derive: seq<byte> -> Secrets,
    seal: (seq<byte>, seq<byte>, seq<byte>, seq<byte>) -> seq<byte>,
    open: (seq<byte>, seq<byte>, seq<byte>, seq<byte>) -> Option<seq<byte>>,
    mask: (seq<byte>, seq<byte>) -> seq<byte>)

  /** A 12-byte IV, a 16-byte tag, a 16-byte mask, and opening undoes sealing. */
  ghost predicate Laws(c: Prims) {
    && (forall d :: |c.derive(d).iv| == 12)
    && (forall k, n, t, a :: |c.seal(k, n, t, a)| == |t| + 16)
    && (forall k, n, t, a :: c.open(k, n, c.seal(k, n, t, a), a) == Some(t))
    && (forall h, s :: |c.mask(h, s)| == 16)
  }

  // ----- Masking

  /** XORs the last bytes of the IV with the packet number. */
  function Nonce(iv: seq<byte>, pn: seq<byte>): (n: seq<byte>)
    requires |iv| == 12 && |pn| <= 12
    ensures |n| == 12
  {
    seq(12, i requires 0 <= i < 12 => if i < 12 - |pn| then iv[i] else XorByte(iv[i], pn[i - (12 - |pn|)]))
  }

  /** Masks a run of bytes. */
  function Masked(b: seq<byte>, mask: seq<byte>): (r: seq<byte>)
    requires |b| < |mask|
    ensures |r| == |b|
  {
    seq(|b|, i requires 0 <= i < |b| => XorByte(b[i], mask[1 + i]))
  }

  lemma MaskedTwice(b: seq<byte>, mask: seq<byte>)
    requires |b| < |mask|
    ensures Masked(Masked(b, mask), mask) == b
  {
    forall i | 0 <= i < |b| ensures XorByte(XorByte(b[i], mask[1 + i]), mask[1 + i]) == b[i] {
      XorTwice(b[i], mask[1 + i]);
    }
  }

  // ----- Opening

  datatype Opened = Opened(sni: seq<byte>, dcid: seq<byte>, scid: seq<byte>, initialScid: seq<byte>)

  /** The parts of a protected packet: connection identifiers, and what starts with the packet number. */
  datatype Parts = Parts(dcid: seq<byte>, scid: seq<byte>, rest: seq<byte>)

  /** Splits a datagram that is exactly one version 1 Initial. */
  function Split(pkt: seq<byte>): Option<Parts> {
    if |pkt| < 5 || pkt[0] / 16 != 0xC || U32(pkt, 1) != 1 then None
    else
      var dcid := ReadU8Vec(pkt[5..]);
      if dcid.None? then None
      else
        var scid := ReadU8Vec(dcid.value.1);
        if scid.None? then None
        else
          var token := ReadVarint(scid.value.1);
          if token.None? || |scid.value.1| < token.value.1 + token.value.0 then None
          else
            var b := scid.value.1[token.value.1 + token.value.0..];
            var length := ReadVarint(b);
            if length.None? || |b| != length.value.1 + length.value.0 then None
            else Some(Parts(dcid.value.0, scid.value.0, b[length.value.1..]))
  }

  /** Removes header protection and encryption. */
  function Decrypt(c: Prims, pkt: seq<byte>, p: Parts): Option<seq<byte>> {
    if |p.rest| < 20 || |p.rest| > |pkt| || pkt == [] then None
    else
      var s := c.derive(p.dcid);
      var mask := c.mask(s.hp, p.rest[4..20]);
      if |mask| < 5 || |s.iv| != 12 then None
      else
        var first := XorByte(pkt[0], mask[0] % 16);
        var pn := Masked(p.rest[..first % 4 + 1], mask);
        var pnOffset := |pkt| - |p.rest|;
        if pnOffset < 1 then None
        else c.open(s.key, Nonce(s.iv, pn), p.rest[|pn|..], [first] + pkt[1..pnOffset] + pn)
  }

  function ReadPayload(text: seq<byte>): Option<(seq<byte>, seq<byte>)> {
    var hello := ReadCrypto(text);
    if hello.None? then None
    else
      var exts := ReadHello(hello.value);
      if exts.None? then None
      else
        var name, params := FindExtension(exts.value, SERVER_NAME), FindExtension(exts.value, TRANSPORT_PARAMETERS);
        if name.None? || params.None? then None
        else
          var sni, scid := ReadServerName(name.value), FindParameter(params.value, INITIAL_SOURCE_CONNECTION_ID);
          if sni.None? || scid.None? then None else Some((sni.value, scid.value))
  }

  /** Everything an observer of the datagram can read. */
  function OpenInitial(c: Prims, pkt: seq<byte>): Option<Opened> {
    var p := Split(pkt);
    if p.None? then None
    else
      var text := Decrypt(c, pkt, p.value);
      if text.None? then None
      else
        var names := ReadPayload(text.value);
        if names.None? then None else Some(Opened(names.value.0, p.value.dcid, p.value.scid, names.value.1))
  }

  // ----- Building

  lemma ExtensionsSize(list: seq<Extension>, i: nat)
    requires (forall k :: 0 <= k < |list| ==> list[k].Fits()) && i < |list|
    ensures |Extensions(list[i..])| == 4 + |list[i].data| + |Extensions(list[i + 1..])|
  {
    assert list[i..][1..] == list[i + 1..];
  }

  /** The ClientHello for a host name. */
  function HelloFor(sni: seq<byte>, scid: seq<byte>, share: seq<byte>, random: seq<byte>): (b: seq<byte>)
    requires 1 <= |sni| <= 255 && |scid| == 8 && |share| == |random| == 32
    ensures |b| == 152 + |sni|
  {
    var list := HelloExtensions(sni, scid, share);
    SevenSizes(sni, scid, share);
    Hello(random, Extensions(list))
  }

  lemma SevenSizes(sni: seq<byte>, scid: seq<byte>, share: seq<byte>)
    requires 1 <= |sni| <= 255 && |scid| == 8 && |share| == 32
    ensures |Extensions(HelloExtensions(sni, scid, share))| == 101 + |sni|
  {
    var list := HelloExtensions(sni, scid, share);
    assert list[0..] == list && list[7..] == [];
    ExtensionsSize(list, 0);
    ExtensionsSize(list, 1);
    ExtensionsSize(list, 2);
    ExtensionsSize(list, 3);
    ExtensionsSize(list, 4);
    ExtensionsSize(list, 5);
    ExtensionsSize(list, 6);
  }

  lemma CryptoSize(hello: seq<byte>)
    requires 153 <= |hello| <= 407
    ensures |CryptoFrame(hello)| == 4 + |hello|
  {
  }

  /** The payload: a CRYPTO frame with the ClientHello, then PADDING frames. */
  function Payload(hello: seq<byte>): (b: seq<byte>)
    requires 153 <= |hello| <= 407
    ensures |b| == 1154
  {
    var crypto := CryptoFrame(hello);
    CryptoSize(hello);
    crypto + seq(1154 - |crypto|, _ => 0)
  }

  lemma PayloadReads(sni: seq<byte>, scid: seq<byte>, share: seq<byte>, random: seq<byte>)
    requires 1 <= |sni| <= 255 && |scid| == 8 && |share| == |random| == 32
    ensures ReadPayload(Payload(HelloFor(sni, scid, share, random))) == Some((sni, scid))
  {
    hide CryptoFrame, ReadCrypto, ReadHello, Hello, FindExtension, Extensions, ReadServerName, FindParameter, U16Vec;
    var list := HelloExtensions(sni, scid, share);
    var hello := HelloFor(sni, scid, share, random);
    SevenSizes(sni, scid, share);
    CryptoSize(hello);
    CryptoReads(hello, seq(1154 - |CryptoFrame(hello)|, _ => 0));
    HelloReads(random, Extensions(list));
    ExtensionFound(list, 0);
    ExtensionFound(list, 6);
    ServerNameReads(sni);
    ParameterReads(scid);
  }

  // ----- The packet

  /** The length field: packet number, payload and tag. */
  const LENGTH: nat := 4 + 1154 + 16

  /** The header behind its first byte, up to the packet number. */
  function HeaderTail(dcid: seq<byte>, scid: seq<byte>): (b: seq<byte>)
    requires |dcid| == |scid| == 8
    ensures |b| == 25
  {
    Be32(1) + (U8Vec(dcid) + (U8Vec(scid) + (Varint(0) + Varint(LENGTH))))
  }

  lemma SplitReads(first: byte, dcid: seq<byte>, scid: seq<byte>, rest: seq<byte>)
    requires |dcid| == |scid| == 8 && |rest| == LENGTH && first / 16 == 0xC
    ensures Split([first] + HeaderTail(dcid, scid) + rest) == Some(Parts(dcid, scid, rest))
  {
    hide ReadU8Vec, ReadVarint, U8Vec, Varint, Be32;
    var tail := Varint(0) + (Varint(LENGTH) + rest);
    var pkt := [first] + HeaderTail(dcid, scid) + rest;
    HeaderSlices(first, dcid, scid, rest);
    U8VecReads(dcid, U8Vec(scid) + tail);
    U8VecReads(scid, tail);
    ZeroVarint();
    ShortVarint(0, Varint(LENGTH) + rest);
    assert tail[1..] == Varint(LENGTH) + rest;
    LengthVarint();
    TwoByteVarint(LENGTH, rest);
    assert (Varint(LENGTH) + rest)[2..] == rest;
  }

  lemma LengthVarint()
    ensures |Varint(LENGTH)| == 2
  {
  }

  lemma HeaderSlices(first: byte, dcid: seq<byte>, scid: seq<byte>, rest: seq<byte>)
    requires |dcid| == |scid| == 8
    ensures var pkt := [first] + HeaderTail(dcid, scid) + rest;
      U32(pkt, 1) == 1 && pkt[5..] == U8Vec(dcid) + (U8Vec(scid) + (Varint(0) + (Varint(LENGTH) + rest)))
  {
    hide U8Vec, Varint;
    var pkt := [first] + HeaderTail(dcid, scid) + rest;
    assert Be32(1) == [0, 0, 0, 1];
    assert pkt[1] == 0 && pkt[2] == 0 && pkt[3] == 0 && pkt[4] == 1;
  }

  /** The datagram before and after header protection. */
  function Datagram(first: byte, dcid: seq<byte>, scid: seq<byte>, pn: seq<byte>, sealed: seq<byte>): (b: seq<byte>)
    requires |dcid| == |scid| == 8 && |pn| == 4
    ensures |b| == 30 + |sealed| && b[0] == first && b[26..30] == pn && b[30..] == sealed
  {
    [first] + HeaderTail(dcid, scid) + (pn + sealed)
  }

  /** Removing protection and encryption gives the payload back. */
  lemma DecryptReads(c: Prims, dcid: seq<byte>, scid: seq<byte>, pn: seq<byte>, payload: seq<byte>)
    requires Laws(c) && |dcid| == |scid| == 8 && |pn| == 4 && |payload| == 1154
    ensures var s := c.derive(dcid);
      var sealed := c.seal(s.key, Nonce(s.iv, pn), payload, [0xC3] + HeaderTail(dcid, scid) + pn);
      var mask := c.mask(s.hp, sealed[..16]);
      var pkt := Datagram(XorByte(0xC3, mask[0] % 16), dcid, scid, Masked(pn, mask), sealed);
      && Split(pkt) == Some(Parts(dcid, scid, Masked(pn, mask) + sealed))
      && Decrypt(c, pkt, Parts(dcid, scid, Masked(pn, mask) + sealed)) == Some(payload)
  {
    hide HeaderTail, Masked, Nonce, XorByte, Split;
    var s := c.derive(dcid);
    var sealed := c.seal(s.key, Nonce(s.iv, pn), payload, [0xC3] + HeaderTail(dcid, scid) + pn);
    var mask := c.mask(s.hp, sealed[..16]);
    var first := XorByte(0xC3, mask[0] % 16);
    var rest := Masked(pn, mask) + sealed;
    XorLow(0xC3, mask[0] % 16);
    XorTwice(0xC3, mask[0] % 16);
    SplitReads(first, dcid, scid, rest);
    var pkt := [first] + HeaderTail(dcid, scid) + rest;
    assert rest[4..20] == sealed[..16] && rest[..4] == Masked(pn, mask) && rest[4..] == sealed;
    MaskedTwice(pn, mask);
    assert pkt[1..26] == HeaderTail(dcid, scid);
  }

  /** Header and sealed payload in one buffer, with the header protected in place. */
  method Assemble(c: Prims, hp: seq<byte>, dcid: seq<byte>, scid: seq<byte>, pn: seq<byte>, sealed: seq<byte>) returns (pkt: array<byte>)
    requires Laws(c) && |dcid| == |scid| == 8 && |pn| == 4 && |sealed| == DATAGRAM_LEN - 30
    ensures fresh(pkt) && pkt.Length == DATAGRAM_LEN
    ensures var mask := c.mask(hp, sealed[..16]);
      pkt[..] == Datagram(XorByte(0xC3, mask[0] % 16), dcid, scid, Masked(pn, mask), sealed)
  {
    hide HeaderTail, XorByte;
    var hdr := [0xC3] + HeaderTail(dcid, scid) + pn;
    pkt := new byte[DATAGRAM_LEN];
    Copy(pkt, 0, hdr);
    Copy(pkt, 30, sealed);
    Whole(pkt[..], hdr, sealed);
    assert pkt[..] == Datagram(0xC3, dcid, scid, pn, sealed);
    assert pkt[30..46] == sealed[..16];
    var mask := c.mask(hp, pkt[30..46]);
    ProtectHeader(pkt, mask);
  }

  /** Builds the datagram from a stream of random bytes: connection identifiers, packet number, key share, random. */
  method BuildQuicInitial(c: Prims, stream: seq<byte>, sni: seq<byte>) returns (pkt: array<byte>)
    requires Laws(c) && |stream| >= 84 && 1 <= |sni| <= 255
    ensures fresh(pkt) && pkt.Length == DATAGRAM_LEN
    ensures OpenInitial(c, pkt[..]) == Some(Opened(sni, stream[..8], stream[8..16], stream[8..16]))
  {
    hide HeaderTail, Payload, HelloFor, Split, Decrypt, ReadPayload, Datagram, Masked, XorByte;
    var dcid, scid, pn := stream[..8], stream[8..16], stream[16..20];
    var share, random := stream[20..52], stream[52..84];
    var s := c.derive(dcid);
    var payload := Payload(HelloFor(sni, scid, share, random));
    var nonce := XorNonce(s.iv, pn);
    var sealed := c.seal(s.key, nonce, payload, [0xC3] + HeaderTail(dcid, scid) + pn);
    pkt := Assemble(c, s.hp, dcid, scid, pn, sealed);
    DecryptReads(c, dcid, scid, pn, payload);
    PayloadReads(sni, scid, share, random);
  }

  lemma Whole(b: seq<byte>, hdr: seq<byte>, sealed: seq<byte>)
    requires |hdr| == 30 && |b| == 30 + |sealed| && Has(b, 0, hdr) && Has(b, 30, sealed)
    ensures b == hdr + sealed
  {
    assert forall i :: 0 <= i < |hdr| ==> b[0 + i] == hdr[i];
    forall i | 30 <= i < |b| ensures b[i] == sealed[i - 30] {
      assert b[30 + (i - 30)] == sealed[i - 30];
    }
  }

  method XorNonce(iv: seq<byte>, pn: seq<byte>) returns (nonce: seq<byte>)
    requires |iv| == 12 && |pn| == 4
    ensures nonce == Nonce(iv, pn)
  {
    nonce := iv;
    for i := 0 to 4
      invariant |nonce| == 12
      invariant forall k :: 0 <= k < 12 ==> nonce[k] == if 8 <= k < 8 + i then XorByte(iv[k], pn[k - 8]) else iv[k]
    {
      nonce := nonce[8 + i := XorByte(nonce[8 + i], pn[i])];
    }
  }

  /** Masks the low bits of the first byte and the packet number, in place. */
  method ProtectHeader(pkt: array<byte>, mask: seq<byte>)
    requires pkt.Length >= 30 && |mask| == 16
    modifies pkt
    ensures pkt[..] == [XorByte(old(pkt[0]), mask[0] % 16)] + old(pkt[1..26]) + Masked(old(pkt[26..30]), mask) + old(pkt[30..])
  {
    pkt[0] := XorByte(pkt[0], mask[0] % 16);
    for i := 0 to 4
      invariant pkt[0] == XorByte(old(pkt[0]), mask[0] % 16)
      invariant forall k :: 1 <= k < pkt.Length && !(26 <= k < 26 + i) ==> pkt[k] == old(pkt[k])
      invariant forall k :: 26 <= k < 26 + i ==> pkt[k] == XorByte(old(pkt[k]), mask[1 + (k - 26)])
    {
      pkt[26 + i] := XorByte(pkt[26 + i], mask[1 + i]);
    }
  }
}
