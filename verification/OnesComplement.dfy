/** The 16-bit ones'-complement sum of section 2 of RFC 1071, and what it depends on. */
module OnesComplement {
  import opened Bytes

  const MAX16: nat := 65535

  /** Addition with end-around carry. */
  function OnesAdd(x: nat, y: nat): nat {
    if x + y > MAX16 then x + y - MAX16 else x + y
  }

  /** The ones'-complement sum of the 16-bit words of `b`, an odd last byte padded with zero. */
  function OnesSum(b: seq<byte>): nat {
    if b == [] then 0
    else if |b| == 1 then Word(b[0], 0)
    else OnesAdd(Word(b[0], b[1]), OnesSum(b[2..]))
  }

  /** The plain sum of the same words. */
  function Sum16(b: seq<byte>): nat {
    if b == [] then 0
    else if |b| == 1 then Word(b[0], 0)
    else Word(b[0], b[1]) + Sum16(b[2..])
  }

  /** The 16-bit representative of a sum, all carries added back in: zero only for zero. */
  function Rep(s: nat): (r: nat)
    ensures r <= MAX16
    ensures r == 0 <==> s == 0
  {
    if s <= MAX16 then s else Rep(s - MAX16)
  }

  lemma {:induction false} RepAdd(x: nat, s: nat)
    requires x <= MAX16
    ensures OnesAdd(x, Rep(s)) == Rep(x + s)
  {
    if s <= MAX16 {
    } else {
      RepAdd(x, s - MAX16);
    }
  }

  lemma {:induction false} RepMultiple(s: nat, q: nat)
    requires s > 0
    ensures Rep(s + MAX16 * q) == Rep(s)
  {
    if q == 0 {
    } else {
      RepMultiple(s, q - 1);
    }
  }

  lemma {:induction false} OnesSumIsRep(b: seq<byte>)
    ensures OnesSum(b) == Rep(Sum16(b))
  {
    if |b| <= 1 {
    } else {
      OnesSumIsRep(b[2..]);
      RepAdd(Word(b[0], b[1]), Sum16(b[2..]));
    }
  }

  lemma {:induction false} Sum16Concat(a: seq<byte>, b: seq<byte>)
    requires |a| % 2 == 0
    ensures Sum16(a + b) == Sum16(a) + Sum16(b)
  {
    if a == [] {
      assert a + b == b;
    } else {
      assert (a + b)[2..] == a[2..] + b;
      Sum16Concat(a[2..], b);
    }
  }

  // ----- Congruence modulo 65535

  ghost predicate Cong(x: nat, y: nat) {
    x % MAX16 == y % MAX16
  }

  lemma CongMultiple(x: nat, y: nat, q: int)
    requires x == y + MAX16 * q
    ensures Cong(x, y)
  {
  }

  lemma CongQuotient(x: nat, y: nat) returns (q: int)
    requires Cong(x, y)
    ensures x == y + MAX16 * q
  {
    q := x / MAX16 - y / MAX16;
  }

  lemma CongAdd(a: nat, b: nat, c: nat, d: nat)
    requires Cong(a, b) && Cong(c, d)
    ensures Cong(a + c, b + d)
  {
    hide Cong;
    var p := CongQuotient(a, b);
    var q := CongQuotient(c, d);
    CongMultiple(a + c, b + d, p + q);
  }

  lemma CongTrans(a: nat, b: nat, c: nat)
    requires Cong(a, b) && (Cong(b, c) || Cong(c, b))
    ensures Cong(a, c)
  {
  }

  lemma CongRefl(a: nat)
    ensures Cong(a, a)
  {
  }

  lemma CongScale(a: nat, b: nat, k: nat)
    requires Cong(a, b)
    ensures Cong(k * a, k * b)
  {
    hide Cong;
    var q := CongQuotient(a, b);
    assert k * a == k * b + MAX16 * (k * q);
    CongMultiple(k * a, k * b, k * q);
  }

  /** The representative depends only on the residue and on being zero. */
  lemma RepCong(x: nat, s: nat)
    requires Cong(x, s) && (x == 0 <==> s == 0)
    ensures Rep(x) == Rep(s)
  {
    hide Cong, Rep;
    if x != 0 {
      var q := CongQuotient(x, s);
      if q >= 0 { RepMultiple(s, q); } else { RepMultiple(x, -q); }
    }
  }

  lemma CongShift(x: nat, s: nat, w: nat)
    requires Cong(x, s) && (x == 0 <==> s == 0)
    ensures Cong(65536 * x + w, s + w) && (65536 * x + w == 0 <==> s + w == 0)
  {
    hide Cong;
    CongMultiple(65536 * x + w, x + w, x);
    CongRefl(w);
    CongAdd(x, s, w, w);
    CongTrans(65536 * x + w, x + w, s + w);
  }

  lemma LastDigits(b: seq<byte>)
    requires |b| >= 2
    ensures BE(b) == 65536 * BE(b[..|b| - 2]) + Word(b[|b| - 2], b[|b| - 1])
  {
    var n := |b| - 2;
    assert b[..n + 1][..n] == b[..n];
    assert BE(b[..n + 1]) == BE(b[..n]) * 256 + b[n];
  }

  lemma LastWord(b: seq<byte>)
    requires |b| >= 2 && |b| % 2 == 0
    ensures Sum16(b) == Sum16(b[..|b| - 2]) + Word(b[|b| - 2], b[|b| - 1])
  {
    var n := |b| - 2;
    var w := b[n..];
    assert Sum16(w) == Word(w[0], w[1]) + Sum16(w[2..]) && w[2..] == [];
    hide Sum16;
    assert b == b[..n] + w;
    Sum16Concat(b[..n], w);
  }

  /** Read as big-endian, an even number of bytes is congruent to the sum of its words. */
  lemma {:induction false} BEIsSum(b: seq<byte>)
    requires |b| % 2 == 0
    ensures Cong(BE(b), Sum16(b))
    ensures BE(b) == 0 <==> Sum16(b) == 0
    decreases |b|
  {
    hide Cong;
    if b == [] {
      CongRefl(0);
    } else {
      BEIsSum(b[..|b| - 2]);
      LastDigits(b);
      LastWord(b);
      hide BE, Sum16;
      CongShift(BE(b[..|b| - 2]), Sum16(b[..|b| - 2]), Word(b[|b| - 2], b[|b| - 1]));
    }
  }

  lemma CongLift(x: nat, s: nat, hi: byte, lo: byte)
    requires Cong(x, 256 * s) && (x == 0 <==> s == 0)
    ensures var v, w := Word(lo, hi) + 65536 * x, Word(hi, lo) + s; Cong(v, 256 * w) && (v == 0 <==> w == 0)
  {
    hide Cong;
    CongMultiple(Word(lo, hi), 256 * Word(hi, lo), -(hi as int));
    CongMultiple(65536 * x, x, x);
    CongTrans(65536 * x, x, 256 * s);
    CongAdd(Word(lo, hi), 256 * Word(hi, lo), 65536 * x, 256 * s);
  }

  /** Read as little-endian, it is congruent to 256 times that sum. */
  lemma {:induction false} LEIsSum(b: seq<byte>)
    requires |b| % 2 == 0
    ensures Cong(LE(b), 256 * Sum16(b))
    ensures LE(b) == 0 <==> Sum16(b) == 0
    decreases |b|
  {
    hide Cong;
    if b == [] {
      CongRefl(0);
    } else {
      var t := b[2..];
      LEIsSum(t);
      assert b[1..][1..] == t;
      assert LE(b) == Word(b[1], b[0]) + 65536 * LE(t);
      CongLift(LE(t), Sum16(t), b[0], b[1]);
    }
  }

  lemma {:induction false} ZeroSum(z: seq<byte>)
    requires forall p :: 0 <= p < |z| ==> z[p] == 0
    ensures Sum16(z) == 0
  {
    if |z| <= 1 {
    } else {
      ZeroSum(z[2..]);
    }
  }
}
