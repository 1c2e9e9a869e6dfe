/** What a merged buffer consists of: the payloads of the packets merged into it, in order. */
module GroMerge {
  import opened Bytes
  import opened Stride
  import opened GroFlows

  /** The bytes of packet `j` behind a header of length `h`. */
  function Payload(input: seq<seq<byte>>, h: nat, j: nat): seq<byte> {
    if j < |input| && h <= |input[j]| then input[j][h..] else []
  }

  function Join(input: seq<seq<byte>>, h: nat, js: seq<nat>): seq<byte> {
    if js == [] then [] else Join(input, h, js[..|js| - 1]) + Payload(input, h, js[|js| - 1])
  }

  lemma JoinAppend(input: seq<seq<byte>>, h: nat, js: seq<nat>, j: nat)
    ensures Join(input, h, js + [j]) == Join(input, h, js) + Payload(input, h, j)
  {
    hide Payload;
    assert (js + [j])[..|js|] == js;
  }

  lemma {:induction false} JoinPrepend(input: seq<seq<byte>>, h: nat, js: seq<nat>, j: nat)
    ensures Join(input, h, [j] + js) == Payload(input, h, j) + Join(input, h, js)
  {
    hide Payload;
    if js == [] {
      assert [j] + js == [] + [j];
      JoinAppend(input, h, [], j);
    } else {
      hide Join;
      var n := |js| - 1;
      calc {
        Join(input, h, [j] + js);
        { assert [j] + js == ([j] + js[..n]) + [js[n]]; }
        Join(input, h, ([j] + js[..n]) + [js[n]]);
        { JoinAppend(input, h, [j] + js[..n], js[n]); }
        Join(input, h, [j] + js[..n]) + Payload(input, h, js[n]);
        { JoinPrepend(input, h, js[..n], j); }
        Payload(input, h, j) + Join(input, h, js[..n]) + Payload(input, h, js[n]);
        { JoinAppend(input, h, js[..n], js[n]); assert js == js[..n] + [js[n]]; }
        Payload(input, h, j) + Join(input, h, js);
      }
    }
  }

  /** All payloads have length `g`, except that the last may be shorter but not empty. */
  ghost predicate Sized(input: seq<seq<byte>>, h: nat, js: seq<nat>, g: nat) {
    && |js| > 0
    && (forall k :: 0 <= k < |js| - 1 ==> |Payload(input, h, js[k])| == g)
    && 1 <= |Payload(input, h, js[|js| - 1])| <= g
  }

  lemma {:induction false} JoinPrefixLength(input: seq<seq<byte>>, h: nat, js: seq<nat>, g: nat, n: nat)
    requires n <= |js| && forall k :: 0 <= k < n ==> |Payload(input, h, js[k])| == g
    ensures |Join(input, h, js[..n])| == Off(g, n)
  {
    if n == 0 {
    } else {
      JoinPrefixLength(input, h, js, g, n - 1);
      assert js[..n][..n - 1] == js[..n - 1];
    }
  }

  lemma JoinLength(input: seq<seq<byte>>, h: nat, js: seq<nat>, g: nat)
    requires Sized(input, h, js, g)
    ensures |Join(input, h, js)| == Off(g, |js| - 1) + |Payload(input, h, js[|js| - 1])|
  {
    JoinPrefixLength(input, h, js, g, |js| - 1);
  }

  lemma {:induction false} JoinPrefix(input: seq<seq<byte>>, h: nat, js: seq<nat>, n: nat)
    requires n <= |js|
    ensures Join(input, h, js[..n]) <= Join(input, h, js)
    decreases |js| - n
  {
    if n < |js| {
      JoinPrefix(input, h, js, n + 1);
      assert js[..n + 1][..n] == js[..n];
    } else {
      assert js[..n] == js;
    }
  }

  /** Cut at multiples of `g`, the joined payload falls apart into the payloads it was made of. */
  lemma CutsAtBoundaries(input: seq<seq<byte>>, h: nat, js: seq<nat>, g: nat, k: nat)
    requires Sized(input, h, js, g) && k < |js|
    ensures var d := Join(input, h, js);
      && Off(g, k) < |d|
      && d[Off(g, k)..if Off(g, k) + g > |d| then |d| else Off(g, k) + g] == Payload(input, h, js[k])
  {
    hide Off, Payload;
    var d := Join(input, h, js);
    var head, p := Join(input, h, js[..k]), Payload(input, h, js[k]);
    JoinPrefixLength(input, h, js, g, k);
    JoinPrefix(input, h, js, k + 1);
    assert js[..k + 1][..k] == js[..k];
    assert Join(input, h, js[..k + 1]) == head + p;
    if k == |js| - 1 {
      assert js[..k + 1] == js;
    }
    assert d[|head|..|head| + |p|] == p;
  }

  /** A total length that is a multiple of `g` leaves no short last payload. */
  lemma FullMultiple(g: nat, n: nat, l: nat)
    requires 1 <= l <= g && (Off(g, n) + l) % g == 0
    ensures l == g
  {
    OffIsProduct(g, n);
    ModOfSum(g, n, l);
  }

  lemma ModOfSum(g: nat, n: nat, l: nat)
    requires g > 0
    ensures (g * n + l) % g == l % g
  {
    var q, r := l / g, l % g;
    assert g * n + l == g * (n + q) + r;
    ModUnique(g, g * n + l, n + q, r);
  }

  lemma ModUnique(g: nat, x: nat, q: nat, r: nat)
    requires r < g && x == g * q + r
    ensures x % g == r
  {
    NextMultiple(g, q, x / g);
    NextMultiple(g, x / g, q);
  }

  lemma NextMultiple(g: nat, a: nat, b: nat)
    ensures a < b ==> g * b >= g * a + g
  {
    if a < b {
      assert g * b == g * (a + 1) + g * (b - a - 1);
    }
  }

  // ----- TCP

  function SeqOf(input: seq<seq<byte>>, isV6: bool, j: nat): nat {
    if j < |input| && IphLen(isV6) + 8 <= |input[j]| then U32(input[j], IphLen(isV6) + 4) else 0
  }

  /** The packets follow each other in sequence space. */
  ghost predicate Contiguous(input: seq<seq<byte>>, isV6: bool, js: seq<nat>, g: nat) {
    && |js| > 0
    && forall k :: 0 <= k < |js| ==> SeqOf(input, isV6, js[k]) == Wrap32(SeqOf(input, isV6, js[0]) + Off(g, k))
  }

  /** The 16-bit length computed by the source is the true one while it fits. */
  lemma LhsLenIsExact(g: nat, numMerged: nat)
    requires Off(g, numMerged + 1) < TWO16
    ensures LhsLen(g, numMerged) == Off(g, numMerged + 1)
  {
    OffIsProduct(g, numMerged);
    OffStep(g, numMerged);
    var m := numMerged * g;
    assert m == Off(g, numMerged);
    WrapSum(g, m);
  }

  lemma WrapSum(x: nat, m: nat)
    ensures (x + m % TWO16) % TWO16 == (x + m) % TWO16
  {
  }

  lemma AppendContiguous(input: seq<seq<byte>>, isV6: bool, js: seq<nat>, g: nat, j: nat)
    requires Contiguous(input, isV6, js, g)
    requires SeqOf(input, isV6, j) == Wrap32(SeqOf(input, isV6, js[0]) + Off(g, |js|))
    ensures Contiguous(input, isV6, js + [j], g)
  {
  }

  lemma PrependContiguous(input: seq<seq<byte>>, isV6: bool, js: seq<nat>, g: nat, g': nat, j: nat)
    requires Contiguous(input, isV6, js, g) && g <= g' && (|js| > 1 ==> g == g')
    requires Wrap32(SeqOf(input, isV6, j) + g') == SeqOf(input, isV6, js[0])
    ensures Contiguous(input, isV6, [j] + js, g')
  {
    hide SeqOf, Wrap32, Off;
    var s := [j] + js;
    assert s[0] == j;
    forall k | 0 <= k < |s| ensures SeqOf(input, isV6, s[k]) == Wrap32(SeqOf(input, isV6, j) + Off(g', k)) {
      if k == 0 {
        FirstSeq(input, isV6, j, g');
      } else {
        assert s[k] == js[k - 1];
        PrependedSeq(input, isV6, js, g, g', j, k);
      }
    }
  }

  lemma SeqSmall(input: seq<seq<byte>>, isV6: bool, j: nat)
    ensures SeqOf(input, isV6, j) < TWO32
  {
  }

  lemma FirstSeq(input: seq<seq<byte>>, isV6: bool, j: nat, g: nat)
    ensures SeqOf(input, isV6, j) == Wrap32(SeqOf(input, isV6, j) + Off(g, 0))
  {
    hide SeqOf, Wrap32, Off;
    SeqSmall(input, isV6, j);
    OffStep(g, 0);
  }

  lemma PrependedSeq(input: seq<seq<byte>>, isV6: bool, js: seq<nat>, g: nat, g': nat, j: nat, k: nat)
    requires Contiguous(input, isV6, js, g) && (|js| > 1 ==> g == g') && 0 < k <= |js|
    requires Wrap32(SeqOf(input, isV6, j) + g') == SeqOf(input, isV6, js[0])
    ensures SeqOf(input, isV6, js[k - 1]) == Wrap32(SeqOf(input, isV6, j) + Off(g', k))
  {
    hide SeqOf, Wrap32, Off;
    assert SeqOf(input, isV6, js[k - 1]) == Wrap32(SeqOf(input, isV6, js[0]) + Off(g, k - 1));
    hide Contiguous;
    OneMore(g, g', k);
    Rebase(SeqOf(input, isV6, j), g', Off(g, k - 1));
  }

  lemma OneMore(g: nat, g': nat, k: nat)
    requires k > 0 && (k > 1 ==> g == g')
    ensures Off(g', k) == Off(g, k - 1) + g'
  {
    hide Off;
    OffStep(g', k - 1);
    OffStep(g, 0);
  }

  lemma Rebase(b: nat, x: nat, y: nat)
    ensures Wrap32(Wrap32(b + x) + y) == Wrap32(b + (y + x))
  {
  }

  lemma AppendSized(input: seq<seq<byte>>, h: nat, js: seq<nat>, g: nat, j: nat)
    requires Sized(input, h, js, g) && |Join(input, h, js)| % g == 0 && 1 <= |Payload(input, h, j)| <= g
    ensures Sized(input, h, js + [j], g) && |Payload(input, h, js[|js| - 1])| == g
    ensures |Join(input, h, js)| == Off(g, |js|)
  {
    hide Join, Payload, Off;
    JoinLength(input, h, js, g);
    FullMultiple(g, |js| - 1, |Payload(input, h, js[|js| - 1])|);
    OffStep(g, |js| - 1);
  }

  lemma PrependSized(input: seq<seq<byte>>, h: nat, js: seq<nat>, g: nat, g': nat, j: nat)
    requires Sized(input, h, js, g) && g <= g' && (|js| > 1 ==> g == g') && |Payload(input, h, j)| == g'
    ensures Sized(input, h, [j] + js, g')
  {
    var s := [j] + js;
    forall k | 0 <= k < |s| - 1 ensures |Payload(input, h, s[k])| == g' {
      if k > 0 {
        assert s[k] == js[k - 1];
      }
    }
  }
}
