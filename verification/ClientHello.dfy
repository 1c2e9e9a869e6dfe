/** The TLS ClientHello and CRYPTO frame inside a QUIC Initial (device/obf_imitate_quic.go), written and read. */
module ClientHello {
  import opened Bytes
  import opened QuicCodec
  import opened Wrappers

  const SERVER_NAME: nat := 0x0000
  const TRANSPORT_PARAMETERS: nat := 0x0039
  const INITIAL_SOURCE_CONNECTION_ID: nat := 0x0f

  // ----- Writing

  function HelloExtensions(sni: seq<byte>, scid: seq<byte>, share: seq<byte>): (list: seq<Extension>)
    requires |sni| <= 255 && |scid| < 64 && |share| == 32
    ensures |list| == 7 && forall i :: 0 <= i < |list| ==> list[i].Fits()
  {
    [ Extension(SERVER_NAME, U16Vec([0] + U16Vec(sni))),
      Extension(0x002b, U8Vec([0x03, 0x04])),
      Extension(0x000a, U16Vec([0x00, 0x1d])),
      Extension(0x0033, U16Vec([0x00, 0x1d] + U16Vec(share))),
      Extension(0x000d, U16Vec([0x04, 0x03, 0x08, 0x04, 0x04, 0x01])),
      Extension(0x0010, U16Vec(U8Vec([0x68, 0x33]))),
      Extension(TRANSPORT_PARAMETERS, [INITIAL_SOURCE_CONNECTION_ID, |scid|] + scid) ]
  }

  const CIPHER_SUITES: seq<byte> := [0x13, 0x01, 0x13, 0x02, 0x13, 0x03]

  /** What follows the random bytes. */
  function HelloTail(exts: seq<byte>): (b: seq<byte>)
    requires |exts| <= 0xFFFF
    ensures |b| == 13 + |exts|
  {
    U8Vec([]) + (U16Vec(CIPHER_SUITES) + (U8Vec([0]) + (U16Vec(exts) + [])))
  }

  function Hello(random: seq<byte>, exts: seq<byte>): (b: seq<byte>)
    requires |random| == 32 && |exts| <= 0xFFFF
    ensures |b| == 51 + |exts|
  {
    var length := 47 + |exts|;
    [0x01, length / 65536 % 256, length / 256 % 256, length % 256] + ([0x03, 0x03] + random) + HelloTail(exts)
  }

  /** Type, offset 0, length, data. */
  function CryptoFrame(data: seq<byte>): (b: seq<byte>)
    requires |data| < TWO62
  {
    [0x06] + (Varint(0) + (Varint(|data|) + data))
  }

  // ----- Reading

  /** The extensions of a ClientHello that is exactly `b`. */
  function ReadHello(b: seq<byte>): Option<seq<byte>> {
    if |b| < 38 || b[0] != 0x01 || b[1] * 65536 as int + b[2] * 256 as int + b[3] as int != |b| - 4 then None
    else
      var session := ReadU8Vec(b[38..]);
      if session.None? then None
      else
        var suites := ReadU16Vec(session.value.1);
        if suites.None? then None
        else
          var compression := ReadU8Vec(suites.value.1);
          if compression.None? then None
          else
            var exts := ReadU16Vec(compression.value.1);
            if exts.None? || exts.value.1 != [] then None else Some(exts.value.0)
  }

  /** The host name in a server_name extension. */
  function ReadServerName(data: seq<byte>): Option<seq<byte>> {
    var list := ReadU16Vec(data);
    if list.None? || list.value.1 != [] || list.value.0 == [] || list.value.0[0] != 0 then None
    else
      var name := ReadU16Vec(list.value.0[1..]);
      if name.None? || name.value.1 != [] then None else Some(name.value.0)
  }

  /** A transport parameter (section 18 of RFC 9000). */
  function FindParameter(b: seq<byte>, id: nat): Option<seq<byte>>
    decreases |b|
  {
    var key := ReadVarint(b);
    if key.None? then None
    else
      var rest := b[key.value.1..];
      var length := ReadVarint(rest);
      if length.None? || |rest| < length.value.1 + length.value.0 then None
      else
        var value := rest[length.value.1..length.value.1 + length.value.0];
        if key.value.0 == id then Some(value) else FindParameter(rest[length.value.1 + length.value.0..], id)
  }

  /** The data of the CRYPTO frame in front of `b`, at offset 0. */
  function ReadCrypto(b: seq<byte>): Option<seq<byte>> {
    if b == [] || b[0] != 0x06 then None
    else
      var offset := ReadVarint(b[1..]);
      if offset.None? || offset.value.0 != 0 then None
      else
        var rest := b[1 + offset.value.1..];
        var length := ReadVarint(rest);
        if length.None? || |rest| < length.value.1 + length.value.0 then None
        else Some(rest[length.value.1..length.value.1 + length.value.0])
  }

  // ----- Reading undoes writing

  lemma HelloReads(random: seq<byte>, exts: seq<byte>)
    requires |random| == 32 && |exts| <= 0xFFFF
    ensures ReadHello(Hello(random, exts)) == Some(exts)
  {
    hide ReadU8Vec, ReadU16Vec, U8Vec, U16Vec;
    var b := Hello(random, exts);
    assert b[38..] == HelloTail(exts);
    U8VecReads([], U16Vec(CIPHER_SUITES) + (U8Vec([0]) + (U16Vec(exts) + [])));
    U16VecReads(CIPHER_SUITES, U8Vec([0]) + (U16Vec(exts) + []));
    U8VecReads([0], U16Vec(exts) + []);
    U16VecReads(exts, []);
  }

  lemma ServerNameReads(sni: seq<byte>)
    requires |sni| <= 255
    ensures ReadServerName(U16Vec([0] + U16Vec(sni))) == Some(sni)
  {
    hide ReadU16Vec, U16Vec;
    var list := [0] + U16Vec(sni);
    U16VecReads(list, []);
    assert U16Vec(list) + [] == U16Vec(list);
    assert list[1..] == U16Vec(sni) + [];
    U16VecReads(sni, []);
  }

  lemma ParameterReads(scid: seq<byte>)
    requires |scid| < 64
    ensures FindParameter([INITIAL_SOURCE_CONNECTION_ID, |scid|] + scid, INITIAL_SOURCE_CONNECTION_ID) == Some(scid)
  {
    hide ReadVarint, Varint, FindParameter;
    var rest := [|scid|] + scid;
    var b := [INITIAL_SOURCE_CONNECTION_ID, |scid|] + scid;
    ByteVarint(INITIAL_SOURCE_CONNECTION_ID);
    ByteVarint(|scid|);
    assert b == [INITIAL_SOURCE_CONNECTION_ID] + rest;
    ShortVarint(INITIAL_SOURCE_CONNECTION_ID, rest);
    ShortVarint(|scid|, scid);
    Slices(INITIAL_SOURCE_CONNECTION_ID, |scid|, scid);
    FoundHere(b, INITIAL_SOURCE_CONNECTION_ID, 1, |scid|, 1);
  }

  lemma FoundHere(b: seq<byte>, id: nat, n: nat, length: nat, m: nat)
    requires ReadVarint(b) == Some((id, n)) && n <= |b| && ReadVarint(b[n..]) == Some((length, m)) && n + m + length <= |b|
    ensures FindParameter(b, id) == Some(b[n..][m..m + length])
  {
    hide ReadVarint;
  }

  lemma ByteVarint(v: nat)
    requires v < 64
    ensures Varint(v) == [v]
  {
  }

  lemma Slices(x: byte, y: byte, s: seq<byte>)
    ensures ([x] + ([y] + s))[1..] == [y] + s && ([y] + s)[1..1 + |s|] == s
  {
  }

  lemma CryptoReads(data: seq<byte>, rest: seq<byte>)
    requires |data| < TWO62
    ensures ReadCrypto(CryptoFrame(data) + rest) == Some(data)
  {
    hide ReadVarint, Varint;
    var b := CryptoFrame(data) + rest;
    var tail := Varint(|data|) + (data + rest);
    VarintRoundTrip(0, tail);
    ZeroVarint();
    assert b[1..] == Varint(0) + tail;
    assert b[2..] == tail;
    VarintRoundTrip(|data|, data + rest);
    var n := |Varint(|data|)|;
    assert tail[n..n + |data|] == data;
  }

  lemma ZeroVarint()
    ensures Varint(0) == [0]
  {
  }
}
