/** Filling a packet prefix in place: helpers shared by the protocol imitation writers of
  device/obf_imitate.go. */
module Imitation {
  import opened Arithmetic
  import opened Bytes

  /** The glibc generator, in 32 bits. */
  function LcgStep(state: nat): (s: nat)
    ensures s < TWO32
  {
    (state * 1103515245 + 12345) % TWO32
  }

  /** The generator after `n` steps. */
  function Drawn(seed: nat, n: nat): (state: nat)
    ensures seed < TWO32 ==> state < TWO32
  {
    if n == 0 then seed else LcgStep(Drawn(seed, n - 1))
  }

  /** Exclusive or of `n`-bit numbers, lowest bit first. */
  function XorBits(a: nat, b: nat, n: nat): (r: nat)
    ensures r < Pow2(n)
  {
    if n == 0 then 0 else XorBit(a, b) + 2 * XorBits(a / 2, b / 2, n - 1)
  }

  function XorBit(a: nat, b: nat): (r: nat)
    ensures r < 2
  {
    if a % 2 == b % 2 then 0 else 1
  }

  lemma XorStep(a: nat, b: nat, n: nat)
    requires n > 0
    ensures XorBits(a, b, n) / 2 == XorBits(a / 2, b / 2, n - 1) && XorBits(a, b, n) % 2 == XorBit(a, b)
  {
    hide XorBit;
  }

  lemma {:induction false} XorBitsTwice(a: nat, b: nat, n: nat)
    requires a < Pow2(n)
    ensures XorBits(XorBits(a, b, n), b, n) == a
  {
    if n == 0 {
    } else {
      XorBitsTwice(a / 2, b / 2, n - 1);
      XorStep(a, b, n);
      var x := XorBits(a, b, n);
      assert XorBit(x, b) == a % 2;
      assert XorBits(x, b, n) == XorBit(x, b) + 2 * XorBits(x / 2, b / 2, n - 1);
    }
  }

  lemma {:induction false} XorNothing(a: nat, n: nat)
    requires a < Pow2(n)
    ensures XorBits(a, 0, n) == a
  {
    if n == 0 {
    } else {
      XorNothing(a / 2, n - 1);
    }
  }

  lemma EightBits()
    ensures Pow2(8) == 256 && Pow2(4) == 16
  {
    assert Pow2(2) == 4 && Pow2(3) == 8 && Pow2(5) == 32 && Pow2(6) == 64 && Pow2(7) == 128;
  }

  function XorByte(a: byte, b: byte): byte {
    EightBits();
    XorBits(a, b, 8)
  }

  /** Masking twice is no masking. */
  lemma XorTwice(a: byte, b: byte)
    ensures XorByte(XorByte(a, b), b) == a
  {
    EightBits();
    XorBitsTwice(a, b, 8);
  }

  /** A mask of four bits leaves the upper four alone. */
  lemma XorLow(a: byte, m: nat)
    requires m < 16
    ensures XorByte(a, m) / 16 == a / 16
  {
    hide XorBits;
    EightBits();
    XorStep(a, m, 8);
    XorStep(a / 2, m / 2, 7);
    XorStep(a / 4, m / 4, 6);
    XorStep(a / 8, m / 8, 5);
    assert a / 2 / 2 == a / 4 && a / 4 / 2 == a / 8 && a / 8 / 2 == a / 16;
    assert m / 2 / 2 == m / 4 && m / 4 / 2 == m / 8 && m / 8 / 2 == 0;
    XorNothing(a / 16, 4);
  }

  /** The bytes of `b` from `at` on are `s`. */
  ghost predicate Has(b: seq<byte>, at: nat, s: seq<byte>) {
    at + |s| <= |b| && forall i :: 0 <= i < |s| ==> b[at + i] == s[i]
  }

  /** `a` and `b` differ at most from `lo` to `hi`. */
  ghost predicate SameOutside(a: seq<byte>, b: seq<byte>, lo: nat, hi: nat) {
    |a| == |b| && forall i :: 0 <= i < |a| && !(lo <= i < hi) ==> a[i] == b[i]
  }

  lemma SameOutsideChain(a: seq<byte>, b: seq<byte>, c: seq<byte>, lo: nat, hi: nat)
    requires SameOutside(a, b, lo, hi) && SameOutside(b, c, lo, hi)
    ensures SameOutside(a, c, lo, hi)
  {
  }

  lemma HasKept(a: seq<byte>, b: seq<byte>, lo: nat, hi: nat, at: nat, s: seq<byte>)
    requires SameOutside(a, b, lo, hi) && Has(a, at, s) && (at + |s| <= lo || hi <= at)
    ensures Has(b, at, s)
  {
  }

  method Copy(buf: array<byte>, at: nat, s: seq<byte>)
    requires at + |s| <= buf.Length
    modifies buf
    ensures Has(buf[..], at, s) && SameOutside(old(buf[..]), buf[..], at, at + |s|)
  {
    for i := 0 to |s|
      invariant forall k :: 0 <= k < i ==> buf[at + k] == s[k]
      invariant forall k :: 0 <= k < buf.Length && !(at <= k < at + i) ==> buf[k] == old(buf[k])
    {
      buf[at + i] := s[i];
    }
  }

  method Fill(buf: array<byte>, from: nat, to: nat, value: byte)
    requires from <= to <= buf.Length
    modifies buf
    ensures SameOutside(old(buf[..]), buf[..], from, to) && forall i :: from <= i < to ==> buf[i] == value
  {
    for i := from to to
      invariant forall k :: from <= k < i ==> buf[k] == value
      invariant forall k :: 0 <= k < buf.Length && !(from <= k < i) ==> buf[k] == old(buf[k])
    {
      buf[i] := value;
    }
  }

  /** A 16-bit field in network order. */
  function Be16(v: nat): (s: seq<byte>)
    requires v < TWO16
    ensures |s| == 2
  {
    [v / 256, v % 256]
  }

  lemma HasU16(b: seq<byte>, at: nat, v: nat)
    requires v < TWO16 && Has(b, at, Be16(v))
    ensures U16(b, at) == v
  {
    assert b[at + 0] == Be16(v)[0] && b[at + 1] == Be16(v)[1];
  }

  function Be32(v: nat): (s: seq<byte>)
    requires v < TWO32
    ensures |s| == 4
  {
    Be16(v / TWO16) + Be16(v % TWO16)
  }

  lemma HasPrefix(b: seq<byte>, at: nat, s: seq<byte>, t: seq<byte>)
    requires Has(b, at, s + t)
    ensures Has(b, at, s) && Has(b, at + |s|, t)
  {
    assert forall i :: 0 <= i < |s| ==> (s + t)[i] == s[i];
    forall i | 0 <= i < |t| ensures b[at + |s| + i] == t[i] {
      assert b[at + (|s| + i)] == (s + t)[|s| + i];
    }
  }

  lemma Widen(a: seq<byte>, b: seq<byte>, lo: nat, hi: nat, lo': nat, hi': nat)
    requires SameOutside(a, b, lo, hi) && lo' <= lo && hi <= hi'
    ensures SameOutside(a, b, lo', hi')
  {
  }

  lemma Unchanged(b: seq<byte>, lo: nat, hi: nat)
    ensures SameOutside(b, b, lo, hi)
  {
  }
}
