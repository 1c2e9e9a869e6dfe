/** QUIC variable-length integers, TLS vectors and the ClientHello of device/obf_imitate_quic.go, and how a
  receiver reads them. */
module QuicCodec {
  import opened Wrappers
  import opened Arithmetic
  import opened Bytes
  import opened Imitation

  // ----- Variable-length integers (section 16 of RFC 9000)

  const TWO62: nat := 0x4000_0000_0000_0000

  /** `appendQUICVarint`; the two length bits overwrite the top bits of a number that does not fit. */
  function Varint(v: nat): (b: seq<byte>)
    requires v < TWO64
    ensures |b| == 1 || |b| == 2 || |b| == 4 || |b| == 8
  {
    if v <= 63 then [v]
    else if v <= 16383 then [0x40 + v / 256, v % 256]
    else if v <= 1073741823 then [0x80 + v / 0x1000000] + PutBE(v, 3)
    else [0xc0 + v / 0x100_0000_0000_0000 % 64] + PutBE(v, 7)
  }

  function VarintLength(first: byte): nat {
    if first < 0x40 then 1 else if first < 0x80 then 2 else if first < 0xc0 then 4 else 8
  }

  /** The number in front of `b`, and the bytes it takes. */
  function ReadVarint(b: seq<byte>): Option<(nat, nat)> {
    if b == [] || |b| < VarintLength(b[0]) then None
    else Some((BE([b[0] % 64] + b[1..VarintLength(b[0])]), VarintLength(b[0])))
  }

  lemma {:induction false} BEAppend(a: seq<byte>, b: seq<byte>)
    ensures BE(a + b) == BE(a) * Pow256(|b|) + BE(b)
  {
    if b == [] {
      assert a + b == a;
    } else {
      BEAppend(a, b[..|b| - 1]);
      assert (a + b)[..|a + b| - 1] == a + b[..|b| - 1];
    }
  }

  lemma BEOne(x: byte)
    ensures BE([x]) == x
  {
    assert [x][..0] == [];
  }

  lemma {:induction false} PutBEModulo(v: nat, n: nat)
    ensures BE(PutBE(v, n)) == v % Pow256(n)
  {
    if n == 0 {
    } else {
      PutBEModulo(v / 256, n - 1);
      assert PutBE(v, n)[..n - 1] == PutBE(v / 256, n - 1);
      ModStep(v, Pow256(n - 1));
    }
  }

  lemma ModStep(v: nat, p: nat)
    requires p > 0
    ensures (v / 256 % p) * 256 + v % 256 == v % (256 * p)
  {
    var q, r := v / 256 / p, v / 256 % p;
    assert v / 256 == q * p + r;
    assert v == (q * p + r) * 256 + v % 256;
    assert v == q * (256 * p) + (r * 256 + v % 256);
    assert r * 256 + v % 256 < 256 * p;
    ModIs(v, 256 * p, q, r * 256 + v % 256);
  }

  lemma ModIs(v: nat, m: nat, q: nat, r: nat)
    requires r < m && v == q * m + r
    ensures v % m == r
  {
    MulMonotone(m, v / m + 1, q);
    MulMonotone(m, q + 1, v / m);
  }

  lemma ShortVarint(v: nat, rest: seq<byte>)
    requires v <= 63
    ensures ReadVarint(Varint(v) + rest) == Some((v, 1))
  {
    assert [v % 64] + (Varint(v) + rest)[1..1] == [v];
    BEOne(v);
  }

  lemma TwoByteVarint(v: nat, rest: seq<byte>)
    requires 63 < v <= 16383
    ensures ReadVarint(Varint(v) + rest) == Some((v, 2))
  {
    var b := Varint(v) + rest;
    assert [b[0] % 64] + b[1..2] == [v / 256] + [v % 256];
    BEAppend([v / 256], [v % 256]);
    BEOne(v / 256);
    BEOne(v % 256);
    assert Pow256(1) == 256 * Pow256(0);
  }

  lemma FourByteVarint(v: nat, rest: seq<byte>)
    requires 16383 < v <= 1073741823
    ensures ReadVarint(Varint(v) + rest) == Some((v, 4))
  {
    hide PutBE, BE;
    var b := Varint(v) + rest;
    assert [b[0] % 64] + b[1..4] == [v / 0x1000000] + PutBE(v, 3);
    BEAppend([v / 0x1000000], PutBE(v, 3));
    BEOne(v / 0x1000000);
    PutBEModulo(v, 3);
    ThreeBytes();
  }

  lemma ThreeBytes()
    ensures Pow256(3) == 0x1000000
  {
    Pow256Eight();
  }

  lemma EightByteVarint(v: nat, rest: seq<byte>)
    requires 1073741823 < v < TWO64
    ensures var r: nat := v % TWO62; ReadVarint(Varint(v) + rest) == Some((r, 8))
  {
    hide PutBE, BE;
    var b := Varint(v) + rest;
    var top := v / 0x100_0000_0000_0000 % 64;
    assert [b[0] % 64] + b[1..8] == [top] + PutBE(v, 7);
    BEAppend([top], PutBE(v, 7));
    BEOne(top);
    PutBEModulo(v, 7);
    SevenBytes();
    TopBits(v);
  }

  lemma SevenBytes()
    ensures Pow256(7) == 0x100_0000_0000_0000
  {
    Pow256Eight();
  }

  lemma TopBits(v: nat)
    requires v < TWO64
    ensures v / 0x100_0000_0000_0000 % 64 * 0x100_0000_0000_0000 + v % 0x100_0000_0000_0000 == v % TWO62
  {
  }

  /** Reading undoes writing exactly for the numbers below 2^62. */
  lemma VarintRoundTrip(v: nat, rest: seq<byte>)
    requires v < TWO64
    ensures ReadVarint(Varint(v) + rest) == Some((v, |Varint(v)|)) <==> v < TWO62
  {
    hide ReadVarint;
    if v <= 63 {
      ShortVarint(v, rest);
    } else if v <= 16383 {
      TwoByteVarint(v, rest);
    } else if v <= 1073741823 {
      FourByteVarint(v, rest);
    } else {
      EightByteVarint(v, rest);
    }
  }

  // ----- Vectors

  function U8Vec(body: seq<byte>): (b: seq<byte>)
    requires |body| <= 0xFF
    ensures |b| == 1 + |body|
  {
    [|body|] + body
  }

  function U16Vec(body: seq<byte>): (b: seq<byte>)
    requires |body| <= 0xFFFF
    ensures |b| == 2 + |body|
  {
    Be16(|body|) + body
  }

  /** The vector in front of `b`, and what follows. */
  function ReadU8Vec(b: seq<byte>): Option<(seq<byte>, seq<byte>)> {
    if b == [] then None
    else
      var n: nat := b[0];
      if |b| < 1 + n then None else Some((b[1..1 + n], b[1 + n..]))
  }

  function ReadU16Vec(b: seq<byte>): Option<(seq<byte>, seq<byte>)> {
    if |b| < 2 || |b| < 2 + U16(b, 0) then None else Some((b[2..2 + U16(b, 0)], b[2 + U16(b, 0)..]))
  }

  lemma U8VecReads(body: seq<byte>, rest: seq<byte>)
    requires |body| <= 0xFF
    ensures ReadU8Vec(U8Vec(body) + rest) == Some((body, rest))
  {
    var b := U8Vec(body) + rest;
    assert b[1..1 + |body|] == body && b[1 + |body|..] == rest;
  }

  lemma U16VecReads(body: seq<byte>, rest: seq<byte>)
    requires |body| <= 0xFFFF
    ensures ReadU16Vec(U16Vec(body) + rest) == Some((body, rest))
  {
    var b := U16Vec(body) + rest;
    assert U16(b, 0) == |body|;
    assert b[2..2 + |body|] == body && b[2 + |body|..] == rest;
  }

  // ----- Extensions

  datatype Extension = Extension(kind: nat, data: seq<byte>)
  {
    predicate Fits() {
      kind < TWO16 && |data| <= 0xFFFF
    }
  }

  /** The extensions, one after the other. */
  function Extensions(list: seq<Extension>): (b: seq<byte>)
    requires forall i :: 0 <= i < |list| ==> list[i].Fits()
  {
    if list == [] then [] else assert list[0].Fits(); Be16(list[0].kind) + U16Vec(list[0].data) + Extensions(list[1..])
  }

  /** The data of the first extension of the given kind. */
  function FindExtension(b: seq<byte>, kind: nat): Option<seq<byte>>
    decreases |b|
  {
    if |b| < 2 then None
    else
      var data := ReadU16Vec(b[2..]);
      if data.None? then None
      else if U16(b, 0) == kind then Some(data.value.0)
      else FindExtension(data.value.1, kind)
  }

  lemma FindStep(e: Extension, rest: seq<byte>, kind: nat)
    requires e.Fits()
    ensures FindExtension(Be16(e.kind) + U16Vec(e.data) + rest, kind) == if e.kind == kind then Some(e.data) else FindExtension(rest, kind)
  {
    hide U16Vec, ReadU16Vec;
    var b := Be16(e.kind) + U16Vec(e.data) + rest;
    assert b[2..] == U16Vec(e.data) + rest;
    U16VecReads(e.data, rest);
    assert U16(b, 0) == e.kind;
  }

  /** Reading a list of extensions finds the one that was put in. */
  lemma {:induction false} ExtensionFound(list: seq<Extension>, i: nat)
    requires (forall k :: 0 <= k < |list| ==> list[k].Fits()) && i < |list|
    requires forall k :: 0 <= k < i ==> list[k].kind != list[i].kind
    ensures FindExtension(Extensions(list), list[i].kind) == Some(list[i].data)
  {
    hide FindExtension, U16Vec, Be16;
    FindStep(list[0], Extensions(list[1..]), list[i].kind);
    if i == 0 {
    } else {
      ExtensionFound(list[1..], i - 1);
    }
  }
}
