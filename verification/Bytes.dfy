/** Bytes and the fixed-width integers that the packet code reads from them and writes to them. */
module Bytes {

  type byte = b: int | 0 <= b < 256

  function Word(hi: int, lo: int): int {
    hi * 256 + lo
  }

  /** Big-endian value. */
  function BE(b: seq<byte>): (v: nat) {
    if b == [] then 0 else BE(b[..|b| - 1]) * 256 + b[|b| - 1]
  }

  /** Little-endian value. */
  function LE(b: seq<byte>): (v: nat) {
    if b == [] then 0 else b[0] + 256 * LE(b[1..])
  }

  function PutLE(v: nat, n: nat): (b: seq<byte>)
    ensures |b| == n
  {
    if n == 0 then [] else [v % 256] + PutLE(v / 256, n - 1)
  }

  function PutBE(v: nat, n: nat): (b: seq<byte>)
    ensures |b| == n
  {
    if n == 0 then [] else PutBE(v / 256, n - 1) + [v % 256]
  }

  function Pow256(n: nat): (p: nat)
    ensures p > 0
  {
    if n == 0 then 1 else 256 * Pow256(n - 1)
  }

  lemma {:induction false} PutLEInverts(v: nat, n: nat)
    requires v < Pow256(n)
    ensures LE(PutLE(v, n)) == v
  {
    if n == 0 {
    } else {
      PutLEInverts(v / 256, n - 1);
      assert PutLE(v, n)[1..] == PutLE(v / 256, n - 1);
    }
  }

  lemma {:induction false} PutBEInverts(v: nat, n: nat)
    requires v < Pow256(n)
    ensures BE(PutBE(v, n)) == v
  {
    if n == 0 {
    } else {
      PutBEInverts(v / 256, n - 1);
      assert PutBE(v, n)[..n - 1] == PutBE(v / 256, n - 1);
    }
  }

  lemma {:induction false} BEBound(b: seq<byte>)
    ensures BE(b) < Pow256(|b|)
  {
    if b == [] {
    } else {
      BEBound(b[..|b| - 1]);
    }
  }

  lemma {:induction false} LEBound(b: seq<byte>)
    ensures LE(b) < Pow256(|b|)
  {
    if b == [] {
    } else {
      LEBound(b[1..]);
    }
  }

  // Fixed widths, spelled out

  const TWO16: nat := 65536
  const TWO32: nat := 0x1_0000_0000
  const TWO64: nat := 0x1_0000_0000_0000_0000

  /** 32-bit wrap-around. */
  function Wrap32(v: nat): (w: nat)
    ensures w < TWO32
    ensures v < TWO32 ==> w == v
  {
    v % TWO32
  }

  function U16(b: seq<byte>, at: nat): (v: nat)
    requires at + 2 <= |b|
    ensures v < TWO16
  {
    Word(b[at], b[at + 1])
  }

  function U32(b: seq<byte>, at: nat): (v: nat)
    requires at + 4 <= |b|
    ensures v < TWO32
  {
    U16(b, at) * TWO16 + U16(b, at + 2)
  }

  lemma {:induction false} Pow256Grows(n: nat, m: nat)
    requires n <= m
    ensures Pow256(n) <= Pow256(m)
  {
    if n >= m {
    } else {
      Pow256Grows(n, m - 1);
    }
  }

  lemma Pow256Eight()
    ensures Pow256(8) == TWO64 && Pow256(4) == TWO32 && Pow256(2) == TWO16
  {
    assert Pow256(1) == 256;
    assert Pow256(3) == 256 * 65536;
    assert Pow256(4) == TWO32;
    assert Pow256(5) == 256 * TWO32;
    assert Pow256(6) == 65536 * TWO32;
    assert Pow256(7) == 256 * 65536 * TWO32;
  }

  function Zeros(n: nat): (z: seq<byte>)
    ensures |z| == n && forall i :: 0 <= i < n ==> z[i] == 0
  {
    seq(n, _ => 0)
  }
}
