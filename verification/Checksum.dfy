/** The unrolled 64-bit Internet checksum of tun/checksum.go.

  `little` is the byte order of the machine. The accumulator of the source works in
  native order and is converted on entry and exit; `Tracks` says what it holds.
 */
module InternetChecksum {
  import opened Bytes
  import opened OnesComplement

  function Native(little: bool, b: seq<byte>): nat {
    if little then LE(b) else BE(b)
  }

  /** The bytes of a word in native order. */
  function PutNative(little: bool, v: nat, n: nat): (b: seq<byte>)
    ensures |b| == n
  {
    if little then PutLE(v, n) else PutBE(v, n)
  }

  /** What native byte order does to a sum of words, modulo 65535. */
  function Scaled(little: bool, s: nat): nat {
    if little then 256 * s else s
  }

  /** The accumulator `ac` stands for the plain sum `s`. */
  ghost predicate Tracks(little: bool, ac: nat, s: nat) {
    ac < TWO64 && Cong(ac, Scaled(little, s)) && (ac == 0 <==> s == 0)
  }

  lemma NativeIsSum(little: bool, b: seq<byte>)
    requires |b| % 2 == 0
    ensures Cong(Native(little, b), Scaled(little, Sum16(b)))
    ensures Native(little, b) == 0 <==> Sum16(b) == 0
    ensures |b| <= 8 ==> Native(little, b) < TWO64
  {
    if little { LEIsSum(b); } else { BEIsSum(b); }
    if |b| <= 8 { NativeFits(little, b); }
  }

  lemma NativeFits(little: bool, b: seq<byte>)
    requires |b| <= 8
    ensures Native(little, b) < TWO64
  {
    if little { LEBound(b); } else { BEBound(b); }
    Pow256Grows(|b|, 8);
    Pow256Eight();
  }

  lemma NativeRoundTrip(little: bool, v: nat)
    requires v < TWO64
    ensures Native(little, PutNative(little, v, 8)) == v
  {
    Pow256Eight();
    if little { PutLEInverts(v, 8); } else { PutBEInverts(v, 8); }
  }

  /** Reading big-endian what was put in native order multiplies by the factor, both ways. */
  lemma SwapTracks(little: bool, v: nat)
    requires v < TWO64
    ensures Tracks(little, BE(PutNative(little, v, 8)), v)
  {
    hide Cong, BE, Sum16, Native, PutNative, Pow256;
    var t := PutNative(little, v, 8);
    NativeRoundTrip(little, v);
    NativeIsSum(little, t);
    BEIsSum(t);
    BEBound(t);
    Pow256Eight();
    FactorInverts(little, BE(t), Sum16(t), v);
  }

  /** The factor is its own inverse modulo 65535. */
  lemma FactorInverts(little: bool, x: nat, s: nat, v: nat)
    requires Cong(x, s) && Cong(v, Scaled(little, s))
    ensures Cong(x, Scaled(little, v))
  {
    hide Cong;
    if little {
      CongScale(v, 256 * s, 256);
      CongMultiple(256 * (256 * s), s, s);
      CongTrans(256 * v, 256 * (256 * s), s);
      CongTrans(x, s, 256 * v);
    } else {
      CongTrans(x, s, v);
    }
  }

  // ----- bits.Add64

  /** Sum and carry of two 64-bit words and a carry. */
  function Add64(x: nat, y: nat, carry: nat): (nat, nat) {
    if x + y + carry < TWO64 then (x + y + carry, 0) else (x + y + carry - TWO64, 1)
  }

  /** 64-bit addition of a carry bit. */
  function Plus64(x: nat, carry: nat): nat {
    if x + carry < TWO64 then x + carry else x + carry - TWO64
  }

  /** Mid-chain: the accumulator plus the pending carry stand for `s`; the carry can still be added. */
  ghost predicate Chained(little: bool, ac: nat, carry: nat, s: nat) {
    && ac < TWO64 && carry <= 1 && (carry == 1 ==> ac < TWO64 - 1)
    && Cong(ac + carry, Scaled(little, s))
    && (ac + carry == 0 <==> s == 0)
  }

  lemma ChainStep(little: bool, ac: nat, carry: nat, s: nat, b: seq<byte>)
    requires Chained(little, ac, carry, s) && |b| <= 8 && |b| % 2 == 0
    ensures var (x, c) := Add64(ac, Native(little, b), carry);
      Chained(little, x, c, s + Sum16(b))
  {
    hide Cong, Native, Sum16, Scaled;
    NativeIsSum(little, b);
    WordAdded(little, ac, carry, s, Native(little, b), Sum16(b));
  }

  lemma WordAdded(little: bool, ac: nat, carry: nat, s: nat, w: nat, t: nat)
    requires Chained(little, ac, carry, s) && w < TWO64 && Cong(w, Scaled(little, t)) && (w == 0 <==> t == 0)
    ensures var (x, c) := Add64(ac, w, carry); Chained(little, x, c, s + t)
  {
    hide Cong;
    var (x, c) := Add64(ac, w, carry);
    CongAdd(ac + carry, Scaled(little, s), w, Scaled(little, t));
    assert Scaled(little, s + t) == Scaled(little, s) + Scaled(little, t);
    assert TWO64 == 1 + MAX16 * 281479271743489;
    CongMultiple(x + c, ac + carry + w, -281479271743489 * c);
    CongTrans(x + c, ac + carry + w, Scaled(little, s + t));
  }

  /** The unrolled run of `words` carried additions, ended by adding the last carry. */
  method AddChain(little: bool, ac: nat, b: seq<byte>, words: nat, ghost s: nat) returns (r: nat)
    requires Tracks(little, ac, s) && 8 * words <= |b|
    ensures Tracks(little, r, s + Sum16(b[..8 * words]))
  {
    hide Cong, Native, Sum16, Scaled, Add64;
    var carry := 0;
    r := ac;
    assert Sum16(b[..0]) == 0 by { EmptySum(b[..0]); }
    for i := 0 to words
      invariant Chained(little, r, carry, s + Sum16(b[..8 * i]))
    {
      var chunk := b[8 * i..8 * i + 8];
      ChainStep(little, r, carry, s + Sum16(b[..8 * i]), chunk);
      var (x, c) := Add64(r, Native(little, chunk), carry);
      r, carry := x, c;
      PrefixGrows(b, i);
    }
    r := Plus64(r, carry);
  }

  lemma PrefixGrows(b: seq<byte>, i: nat)
    requires 8 * i + 8 <= |b|
    ensures Sum16(b[..8 * (i + 1)]) == Sum16(b[..8 * i]) + Sum16(b[8 * i..8 * i + 8])
  {
    hide Sum16;
    assert 8 * i == 2 * (4 * i);
    assert b[..8 * (i + 1)] == b[..8 * i] + b[8 * i..8 * i + 8];
    Sum16Concat(b[..8 * i], b[8 * i..8 * i + 8]);
  }

  /** One addition of a short native word, ended by adding its carry. */
  method AddOne(little: bool, ac: nat, chunk: seq<byte>, ghost s: nat) returns (r: nat)
    requires Tracks(little, ac, s) && |chunk| <= 8 && |chunk| % 2 == 0
    ensures Tracks(little, r, s + Sum16(chunk))
  {
    hide Cong, Native, Sum16, Scaled;
    ChainStep(little, ac, 0, s, chunk);
    var (x, carry) := Add64(ac, Native(little, chunk), 0);
    r := Plus64(x, carry);
  }

  lemma EmptySum(b: seq<byte>)
    requires |b| == 0
    ensures Sum16(b) == 0
  {
  }

  lemma SumPrefix(b: seq<byte>, n: nat)
    requires n <= |b| && n % 2 == 0
    ensures Sum16(b) == Sum16(b[..n]) + Sum16(b[n..])
  {
    hide Sum16;
    assert b == b[..n] + b[n..];
    Sum16Concat(b[..n], b[n..]);
  }

  /** One of the blocks of 64, 32, 16 and 8 bytes that may follow the main loop. */
  method AddBlock(little: bool, ac: nat, b: seq<byte>, words: nat, ghost s: nat)
    returns (r: nat, rest: seq<byte>, ghost t: nat)
    requires Tracks(little, ac, s) && |b| < 16 * words
    ensures |rest| < 8 * words
    ensures Tracks(little, r, t) && t + Sum16(rest) == s + Sum16(b)
  {
    hide Cong, Sum16, Scaled;
    r, rest, t := ac, b, s;
    if |b| >= 8 * words {
      assert 8 * words == 2 * (4 * words);
      SumPrefix(b, 8 * words);
      r := AddChain(little, ac, b, words, s);
      t := s + Sum16(b[..8 * words]);
      rest := b[8 * words..];
    }
  }

  /** The last one to seven bytes. */
  method AddTail(little: bool, ac: nat, b: seq<byte>, ghost s: nat) returns (r: nat)
    requires Tracks(little, ac, s) && |b| < 8
    ensures Tracks(little, r, s + Sum16(b))
  {
    hide Cong, Sum16, Scaled;
    ghost var t := s;
    var rest := b;
    r := ac;
    if |rest| >= 4 {
      SumPrefix(rest, 4);
      r := AddOne(little, r, rest[..4], t);
      t := t + Sum16(rest[..4]);
      rest := rest[4..];
    }
    if |rest| >= 2 {
      SumPrefix(rest, 2);
      r := AddOne(little, r, rest[..2], t);
      t := t + Sum16(rest[..2]);
      rest := rest[2..];
    }
    if |rest| == 1 {
      OddByte(rest);
      r := AddOne(little, r, [rest[0], 0], t);
    } else {
      EmptySum(rest);
    }
  }

  lemma OddByte(b: seq<byte>)
    requires |b| == 1
    ensures Sum16([b[0], 0]) == Sum16(b)
  {
    assert [b[0], 0][2..] == [];
  }

  method ChecksumNoFold(little: bool, b: seq<byte>, initial: nat) returns (r: nat)
    requires initial < TWO64
    ensures r < TWO64 && Cong(r, initial + Sum16(b)) && (r == 0 <==> initial + Sum16(b) == 0)
  {
    hide Cong, Sum16, BE, PutNative, Scaled;
    var ac := BE(PutNative(little, initial, 8));
    SwapTracks(little, initial);
    var rest := b;
    ghost var s: nat := initial;
    while |rest| >= 128
      invariant Tracks(little, ac, s) && s + Sum16(rest) == initial + Sum16(b)
    {
      SumPrefix(rest, 128);
      ac := AddChain(little, ac, rest, 16, s);
      s := s + Sum16(rest[..128]);
      rest := rest[128..];
    }
    ac, rest, s := AddBlock(little, ac, rest, 8, s);
    ac, rest, s := AddBlock(little, ac, rest, 4, s);
    ac, rest, s := AddBlock(little, ac, rest, 2, s);
    ac, rest, s := AddBlock(little, ac, rest, 1, s);
    ac := AddTail(little, ac, rest, s);
    SwapTracks(little, ac);
    r := BE(PutNative(little, ac, 8));
    CongRefl(s + Sum16(rest));
    FactorInverts(little, s + Sum16(rest), s + Sum16(rest), ac);
    CongTrans(r, Scaled(little, ac), initial + Sum16(b));
  }

  // ----- Folding

  function Fold(ac: nat): nat {
    ac / 65536 + ac % 65536
  }

  lemma FoldKeeps(ac: nat)
    ensures Cong(Fold(ac), ac) && (Fold(ac) == 0 <==> ac == 0)
  {
    CongMultiple(Fold(ac), ac, -(ac / 65536));
  }

  lemma FourFoldsFit(ac: nat)
    requires ac < TWO64
    ensures Fold(Fold(Fold(Fold(ac)))) <= MAX16
  {
    var f1 := Fold(ac);
    assert f1 <= 0x1_0000_0000_0000 + 65534;
    var f2 := Fold(f1);
    assert f2 <= 0x1_0000_0000 + 65534;
    var f3 := Fold(f2);
    assert f3 <= 65536 + 65534;
  }

  /** The folded checksum is the ones'-complement sum of the initial value and the words of `b`. */
  method Checksum(little: bool, b: seq<byte>, initial: nat) returns (r: nat)
    requires initial < TWO64
    ensures r == Rep(initial + Sum16(b)) && r <= MAX16
  {
    hide Cong, Sum16, Fold, Rep;
    var ac := ChecksumNoFold(little, b, initial);
    var f := Fold(Fold(Fold(Fold(ac))));
    FourFoldsKeep(ac);
    FourFoldsFit(ac);
    CongTrans(f, ac, initial + Sum16(b));
    RepCong(f, initial + Sum16(b));
    RepOfSmall(f);
    r := f % 65536;
  }

  lemma FourFoldsKeep(ac: nat)
    ensures var f := Fold(Fold(Fold(Fold(ac)))); Cong(f, ac) && (f == 0 <==> ac == 0)
  {
    hide Cong, Fold;
    var a, b, c := Fold(ac), Fold(Fold(ac)), Fold(Fold(Fold(ac)));
    FoldKeeps(ac);
    FoldKeeps(a);
    FoldKeeps(b);
    FoldKeeps(c);
    CongTrans(b, a, ac);
    CongTrans(c, b, ac);
    CongTrans(Fold(c), c, ac);
  }

  lemma RepOfSmall(x: nat)
    requires x <= MAX16
    ensures Rep(x) == x
  {
  }

  /** In particular, from a 16-bit initial value it is the sum of RFC 1071 over that word followed by `b`. */
  lemma ChecksumIsOnesSum(b: seq<byte>, initial: nat)
    requires initial <= MAX16
    ensures Rep(initial + Sum16(b)) == OnesSum([initial / 256, initial % 256] + b)
  {
    var w: seq<byte> := [initial / 256, initial % 256];
    OnesSumIsRep(w + b);
    Sum16Concat(w, b);
    assert Sum16(w) == initial by { assert w[2..] == []; }
  }

  // ----- The pseudo header

  /** The bytes of the pseudo header that a transport checksum covers. */
  function PseudoHeader(protocol: byte, src: seq<byte>, dst: seq<byte>, totalLen: nat): seq<byte>
    requires totalLen < TWO16
  {
    src + dst + [0, protocol] + [totalLen / 256, totalLen % 256]
  }

  method PseudoHeaderChecksumNoFold(little: bool, protocol: byte, src: seq<byte>, dst: seq<byte>, totalLen: nat)
    returns (sum: nat)
    requires |src| % 2 == 0 && |dst| % 2 == 0 && totalLen < TWO16
    ensures sum < TWO64
    ensures var s := Sum16(PseudoHeader(protocol, src, dst, totalLen)); Cong(sum, s) && (sum == 0 <==> s == 0)
  {
    hide Cong, Sum16;
    var tmp: seq<byte> := [totalLen / 256, totalLen % 256];
    sum := ChecksumNoFold(little, src, 0);
    sum := AddPart(little, src, dst, sum);
    sum := AddPart(little, src + dst, [0, protocol], sum);
    sum := AddPart(little, src + dst + [0, protocol], tmp, sum);
  }

  /** One more part of the pseudo header. */
  method AddPart(little: bool, ghost done: seq<byte>, part: seq<byte>, sum: nat) returns (r: nat)
    requires sum < TWO64 && |done| % 2 == 0 && Cong(sum, Sum16(done)) && (sum == 0 <==> Sum16(done) == 0)
    ensures r < TWO64 && Cong(r, Sum16(done + part)) && (r == 0 <==> Sum16(done + part) == 0)
  {
    hide Cong, Sum16;
    r := ChecksumNoFold(little, part, sum);
    CongRefl(Sum16(part));
    CongAdd(sum, Sum16(done), Sum16(part), Sum16(part));
    CongTrans(r, sum + Sum16(part), Sum16(done) + Sum16(part));
    Sum16Concat(done, part);
  }
}
