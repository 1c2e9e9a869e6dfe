/** Sequences of sequences, and sequences without repetition. */
module Sequences {
  function Concat<T>(g: seq<seq<T>>): seq<T> {
    if g == [] then [] else g[0] + Concat(g[1..])
  }

  lemma {:induction false} ConcatJoin<T>(a: seq<seq<T>>, b: seq<seq<T>>)
    ensures Concat(a + b) == Concat(a) + Concat(b)
  {
    if a == [] {
      assert a + b == b;
    } else {
      calc {
        Concat(a + b);
        { assert (a + b)[1..] == a[1..] + b; }
        a[0] + Concat(a[1..] + b);
        { ConcatJoin(a[1..], b); }
        a[0] + (Concat(a[1..]) + Concat(b));
        Concat(a) + Concat(b);
      }
    }
  }

  lemma ConcatAppend<T>(g: seq<seq<T>>, b: seq<T>)
    ensures Concat(g + [b]) == Concat(g) + b
  {
    ConcatJoin(g, [b]);
    assert Concat([b]) == b + Concat([b][1..]);
  }

  function Map<T, R>(f: T -> R, s: seq<T>): (r: seq<R>)
    ensures |r| == |s| && forall k :: 0 <= k < |s| ==> r[k] == f(s[k])
  {
    seq(|s|, k requires 0 <= k < |s| => f(s[k]))
  }

  lemma DropSlice<T>(s: seq<T>, h: nat, i: nat, j: nat)
    requires h <= |s| && i <= j <= |s| - h
    ensures s[h..][i..j] == s[h + i..h + j]
  {
  }

  ghost predicate Distinct<T>(s: seq<T>) {
    forall i, j :: 0 <= i < j < |s| ==> s[i] != s[j]
  }
}
