/** UDP generic segmentation: datagrams joined into one message, and a message cut into datagrams. */
module UdpGso {
  import opened Arithmetic
  import opened Bytes
  import opened Sequences
  import opened Stride

  /** What the receiving side makes of a message with a segment size; 0 stands for none. */
  function Cut(b: seq<byte>, size: nat): (r: seq<seq<byte>>)
    ensures |r| > 0
    decreases |b|
  {
    if size == 0 || |b| <= size then [b] else [b[..size]] + Cut(b[size..], size)
  }

  lemma {:induction false} CutJoins(b: seq<byte>, size: nat)
    ensures Concat(Cut(b, size)) == b
    decreases |b|
  {
    if size == 0 || |b| <= size {
      assert Concat([b]) == b + Concat([]);
    } else {
      CutJoins(b[size..], size);
      var r := [b[..size]] + Cut(b[size..], size);
      assert r[1..] == Cut(b[size..], size);
    }
  }

  /** All of `size` bytes, except that the last may be shorter. */
  ghost predicate Even(g: seq<seq<byte>>, size: nat) {
    && |g| > 0
    && (forall k :: 0 <= k < |g| - 1 ==> |g[k]| == size)
    && |g[|g| - 1]| <= size
  }

  lemma {:induction false} CutConcat(g: seq<seq<byte>>, size: nat)
    requires Even(g, size) && |g[|g| - 1]| > 0
    ensures Cut(Concat(g), size) == g && |Concat(g)| > 0
  {
    if |g| == 1 {
      assert g == [g[0]] && g[1..] == [] && Concat(g) == g[0];
    } else {
      CutConcat(g[1..], size);
      var b := Concat(g);
      assert b[..size] == g[0] && b[size..] == Concat(g[1..]);
    }
  }

  lemma {:induction false} ConcatEmptyLast(g: seq<seq<byte>>)
    requires |g| > 0 && g[|g| - 1] == []
    ensures Concat(g) == Concat(g[..|g| - 1])
  {
    if |g| <= 1 {
    } else {
      ConcatEmptyLast(g[1..]);
      assert g[1..][..|g| - 2] == g[..|g| - 1][1..];
    }
  }

  /** A message of several datagrams can be cut back exactly when none of them is empty. */
  lemma CutUndoes(g: seq<seq<byte>>)
    requires |g| > 1 && Even(g, |g[0]|)
    ensures Cut(Concat(g), |g[0]|) == g <==> forall k :: 0 <= k < |g| ==> |g[k]| > 0
  {
    var n, size := |g| - 1, |g[0]|;
    if |g[n]| > 0 {
      CutConcat(g, size);
    } else if size > 0 {
      ConcatEmptyLast(g);
      CutConcat(g[..n], size);
    }
  }

  // ----- Where the pieces of a cut are

  function PieceEnd(n: nat, size: nat, k: nat): nat {
    if Off(size, k + 1) > n then n else Off(size, k + 1)
  }

  lemma {:induction false} CutAt(b: seq<byte>, size: nat, k: nat)
    requires size > 0 && k < |Cut(b, size)|
    ensures Off(size, k) <= |b| && Off(size, k) <= PieceEnd(|b|, size, k)
    ensures Cut(b, size)[k] == b[Off(size, k)..PieceEnd(|b|, size, k)]
    ensures k + 1 < |Cut(b, size)| ==> Off(size, k + 1) < |b|
    ensures k + 1 == |Cut(b, size)| ==> Off(size, k + 1) >= |b|
    decreases k
  {
    hide Off;
    OffStep(size, 0);
    OffStep(size, k);
    if |b| <= size {
    } else {
      if k > 0 {
        var rest := b[size..];
        CutAt(rest, size, k - 1);
        OffStep(size, k - 1);
        assert Cut(b, size)[k] == Cut(rest, size)[k - 1] && |Cut(b, size)| == |Cut(rest, size)| + 1;
        hide Cut;
        assert PieceEnd(|b|, size, k) == size + PieceEnd(|rest|, size, k - 1);
        DropSlice(b, size, Off(size, k - 1), PieceEnd(|rest|, size, k - 1));
      } else {
        assert Cut(b, size)[0] == b[..size];
      }
    }
  }

  /** The number of pieces is the quotient rounded up. */
  lemma CutCount(b: seq<byte>, size: nat)
    requires size > 0 && |b| > 0
    ensures |Cut(b, size)| == (|b| + size - 1) / size
  {
    hide Off;
    var n := |Cut(b, size)|;
    CutAt(b, size, n - 1);
    if n > 1 {
      CutAt(b, size, n - 2);
    } else {
      OffStep(size, 0);
    }
    OffIsProduct(size, n);
    OffIsProduct(size, n - 1);
    RoundUp(|b|, size, n);
  }

  lemma RoundUp(x: nat, d: nat, n: nat)
    requires d > 0 && n > 0 && d * (n - 1) < x <= d * n
    ensures (x + d - 1) / d == n
  {
    var q := (x + d - 1) / d;
    MulMonotone(d, q, n - 1);
    MulMonotone(d, n + 1, q);
  }
}
