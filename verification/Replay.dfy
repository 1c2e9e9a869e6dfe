/** The sliding-window replay filter of replay/replay.go (RFC 6479). */
module Replay {
  import opened Arithmetic
  import opened Bytes

  const BLOCK_BITS: nat := 64
  const RING_BLOCKS: nat := 128
  const WINDOW_SIZE: nat := (RING_BLOCKS - 1) * BLOCK_BITS

  // ----- Blocks of 64 marks

  /** Bit `bit` of `block`. */
  predicate Marked(block: nat, bit: nat) {
    if bit == 0 then block % 2 == 1 else Marked(block / 2, bit - 1)
  }

  /** `block | 1 << bit` */
  function Mark(block: nat, bit: nat): nat {
    if bit == 0 then block / 2 * 2 + 1 else Mark(block / 2, bit - 1) * 2 + block % 2
  }

  lemma {:induction false} MarkSets(block: nat, at: nat, bit: nat)
    ensures Marked(Mark(block, at), bit) <==> at == bit || Marked(block, bit)
    ensures Mark(block, at) != block <==> !Marked(block, at)
    decreases at + bit
  {
    if at > 0 {
      assert Mark(block, at) / 2 == Mark(block / 2, at - 1) && Mark(block, at) % 2 == block % 2;
      MarkSets(block / 2, at - 1, if bit > 0 then bit - 1 else 0);
    } else {
      assert Mark(block, at) / 2 == block / 2;
    }
  }

  lemma {:induction false} NoMarks(bit: nat)
    ensures !Marked(0, bit)
  {
    if bit == 0 {
    } else {
      NoMarks(bit - 1);
    }
  }

  lemma {:induction false} Positive(n: nat)
    ensures Pow2(n) > 0
  {
    if n == 0 {
    } else {
      Positive(n - 1);
    }
  }

  lemma HalfFits(x: nat, p: nat)
    requires x < 2 * p
    ensures x / 2 < p
  {
  }

  lemma DoubleFits(m: nat, x: nat, p: nat)
    requires m < p
    ensures m * 2 + x % 2 < 2 * p
  {
  }

  /** A marked block still fits its 64 bits. */
  lemma {:induction false} MarkFits(block: nat, at: nat, n: nat)
    requires block < Pow2(n) && at < n
    ensures Mark(block, at) < Pow2(n)
  {
    if at == 0 {
    } else {
      HalfFits(block, Pow2(n - 1));
      MarkFits(block / 2, at - 1, n - 1);
      DoubleFits(Mark(block / 2, at - 1), block, Pow2(n - 1));
    }
  }

  // ----- Slots of the ring

  function Slot(k: nat): (s: nat)
    ensures s < RING_BLOCKS
  {
    k % RING_BLOCKS
  }

  lemma OtherSlot(a: nat, b: nat)
    requires a < b < a + RING_BLOCKS
    ensures Slot(a) != Slot(b)
  {
  }

  /** Any block shares its slot with one of the 128 blocks after `current`. */
  lemma SameSlot(current: nat, k: nat) returns (t: nat)
    requires k > current
    ensures current < t <= current + RING_BLOCKS && t <= k && Slot(t) == Slot(k)
  {
    t := current + 1 + (k - current - 1) % RING_BLOCKS;
    assert k == t + RING_BLOCKS * ((k - current - 1) / RING_BLOCKS);
  }

  /** The marks of `block` are the accepted counters of block `k`. */
  ghost predicate Records(block: nat, k: nat, accepted: set<nat>) {
    forall bit :: 0 <= bit < BLOCK_BITS ==> (Marked(block, bit) <==> Counter(k, bit) in accepted)
  }

  function Counter(k: nat, bit: nat): nat {
    k * BLOCK_BITS + bit
  }

  lemma CounterParts(c: nat)
    ensures c == Counter(c / BLOCK_BITS, c % BLOCK_BITS) && c % BLOCK_BITS < BLOCK_BITS
  {
  }

  lemma CounterUnique(k: nat, bit: nat, c: nat)
    requires bit < BLOCK_BITS
    ensures Counter(k, bit) == c <==> k == c / BLOCK_BITS && bit == c % BLOCK_BITS
  {
  }

  /** What the filter is for: `c` is below the limit, was not accepted before, and is not more than the window
    size below the highest counter accepted. */
  ghost predicate Fresh(accepted: set<nat>, c: nat, limit: nat) {
    && c < limit
    && c !in accepted
    && forall a :: a in accepted ==> a <= c + WINDOW_SIZE
  }

  lemma EmptyBlock(k: nat, accepted: set<nat>, last: nat)
    requires last / BLOCK_BITS < k && forall a :: a in accepted ==> a <= last
    ensures Records(0, k, accepted)
  {
    hide Marked;
    forall bit | 0 <= bit < BLOCK_BITS ensures Marked(0, bit) <==> Counter(k, bit) in accepted {
      NoMarks(bit);
    }
  }

  /** Marking counter `c` in its block. */
  lemma MarkedBlock(block: nat, c: nat, accepted: set<nat>)
    requires Records(block, c / BLOCK_BITS, accepted)
    ensures Records(Mark(block, c % BLOCK_BITS), c / BLOCK_BITS, accepted + {c})
    ensures Mark(block, c % BLOCK_BITS) != block <==> c !in accepted
  {
    hide Marked, Mark, Counter;
    CounterParts(c);
    MarkSets(block, c % BLOCK_BITS, c % BLOCK_BITS);
    forall bit | 0 <= bit < BLOCK_BITS
      ensures Marked(Mark(block, c % BLOCK_BITS), bit) <==> Counter(c / BLOCK_BITS, bit) in accepted + {c}
    {
      MarkSets(block, c % BLOCK_BITS, bit);
      CounterUnique(c / BLOCK_BITS, bit, c);
    }
  }

  lemma OtherBlock(block: nat, k: nat, c: nat, accepted: set<nat>)
    requires Records(block, k, accepted) && k != c / BLOCK_BITS
    ensures Records(block, k, accepted + {c})
  {
    hide Marked, Counter;
    forall bit | 0 <= bit < BLOCK_BITS ensures Marked(block, bit) <==> Counter(k, bit) in accepted + {c} {
      CounterUnique(k, bit, c);
    }
  }

  class Filter {
    var last: nat
    const ring: array<nat>
    ghost var accepted: set<nat>

    /** The ring slots of the current block and the 127 before it record the accepted counters. Slots that
      stand for no such block may hold anything. */
    ghost predicate Valid()
      reads this, ring
    {
      && ring.Length == RING_BLOCKS && last < TWO64
      && (forall s :: 0 <= s < RING_BLOCKS ==> ring[s] < Pow2(BLOCK_BITS))
      && (if accepted == {} then last == 0 else last in accepted)
      && (forall a :: a in accepted ==> a <= last)
      && Window(ring[..], last / BLOCK_BITS, accepted)
    }

    constructor ()
      ensures Valid() && accepted == {} && fresh(ring)
    {
      last, accepted := 0, {};
      ring := new nat[RING_BLOCKS](_ => 0);
      new;
      Positive(BLOCK_BITS);
      EmptyFirst(ring[..]);
    }

    /** Starts over, clearing only slot 0. */
    method Reset()
      requires ring.Length == RING_BLOCKS && forall s :: 0 <= s < RING_BLOCKS ==> ring[s] < Pow2(BLOCK_BITS)
      modifies this, ring
      ensures Valid() && accepted == {}
      ensures ring[..] == old(ring[..])[0 := 0]
    {
      Positive(BLOCK_BITS);
      last, accepted := 0, {};
      ring[0] := 0;
      EmptyFirst(ring[..]);
    }

    /** Accepts exactly the fresh counters, and remembers them. */
    method ValidateCounter(counter: nat, limit: nat) returns (ok: bool)
      requires Valid() && counter < TWO64 && limit < TWO64
      modifies this, ring
      ensures Valid()
      ensures ok <==> Fresh(old(accepted), counter, limit)
      ensures accepted == old(accepted) + if ok then {counter} else {}
    {
      hide Window, Mark, Pow2;
      Positive(BLOCK_BITS);
      if counter >= limit {
        return false;
      }
      var indexBlock := counter / BLOCK_BITS;
      if counter > last {
        Advance(indexBlock);
        last := counter;
      } else if last - counter > WINDOW_SIZE {
        return false;
      }
      InWindow(counter, last);
      var slot, bit := indexBlock % RING_BLOCKS, counter % BLOCK_BITS;
      var block := ring[slot];
      var marked := Mark(block, bit);
      MarkFits(block, bit, BLOCK_BITS);
      SetMark(ring[..], last, counter, accepted);
      ring[slot] := marked;
      accepted := accepted + {counter};
      ok := block != marked;
    }

    /** Moves the window forward to block `indexBlock`, clearing what it newly covers. */
    method Advance(indexBlock: nat)
      requires Valid() && indexBlock >= last / BLOCK_BITS
      modifies ring
      ensures Window(ring[..], indexBlock, accepted) && forall s :: 0 <= s < RING_BLOCKS ==> ring[s] < Pow2(BLOCK_BITS)
    {
      hide Marked, Window, Records, Pow2;
      Positive(BLOCK_BITS);
      var current := last / BLOCK_BITS;
      var diff := indexBlock - current;
      if diff > RING_BLOCKS {
        diff := RING_BLOCKS;
      }
      ghost var before := ring[..];
      for i := current + 1 to current + diff + 1
        invariant forall s :: 0 <= s < RING_BLOCKS ==> ring[s] < Pow2(BLOCK_BITS)
        invariant forall k {:trigger Slot(k)} :: current < k < i ==> ring[Slot(k)] == 0
        invariant forall k {:trigger Slot(k)} :: 0 <= k <= current && i <= k + RING_BLOCKS ==> ring[Slot(k)] == before[Slot(k)]
      {
        forall k {:trigger Slot(k)} | 0 <= k <= current && i + 1 <= k + RING_BLOCKS ensures Slot(k) != Slot(i) {
          OtherSlot(k, i);
        }
        ring[i % RING_BLOCKS] := 0;
      }
      Advanced(before, ring[..], last, indexBlock, accepted);
    }
  }

  /** Every block from 127 before `current` up to `current` has its accepted counters recorded in its slot. */
  ghost predicate Window(ring: seq<nat>, current: nat, accepted: set<nat>)
    requires |ring| == RING_BLOCKS
  {
    forall k {:trigger Slot(k)} :: 0 <= k <= current < k + RING_BLOCKS ==> Records(ring[Slot(k)], k, accepted)
  }

  lemma EmptyFirst(ring: seq<nat>)
    requires |ring| == RING_BLOCKS && ring[0] == 0
    ensures Window(ring, 0, {})
  {
    hide Marked;
    forall bit | 0 <= bit < BLOCK_BITS ensures !Marked(0, bit) {
      NoMarks(bit);
    }
  }

  lemma Advanced(before: seq<nat>, ring: seq<nat>, last: nat, indexBlock: nat, accepted: set<nat>)
    requires |before| == |ring| == RING_BLOCKS && Window(before, last / BLOCK_BITS, accepted) && indexBlock >= last / BLOCK_BITS
    requires forall a :: a in accepted ==> a <= last
    requires var current := last / BLOCK_BITS;
      var end := if indexBlock - current > RING_BLOCKS then current + RING_BLOCKS else indexBlock;
      && (forall k {:trigger Slot(k)} :: current < k <= end ==> ring[Slot(k)] == 0)
      && (forall k {:trigger Slot(k)} :: 0 <= k <= current && end < k + RING_BLOCKS ==> ring[Slot(k)] == before[Slot(k)])
    ensures Window(ring, indexBlock, accepted)
  {
    hide Records, Marked;
    var current := last / BLOCK_BITS;
    forall k {:trigger Slot(k)} | 0 <= k <= indexBlock < k + RING_BLOCKS ensures Records(ring[Slot(k)], k, accepted) {
      if k > current {
        var t := SameSlot(current, k);
        EmptyBlock(k, accepted, last);
      }
    }
  }

  lemma InWindow(counter: nat, last: nat)
    requires counter <= last && last - counter <= WINDOW_SIZE
    ensures counter / BLOCK_BITS <= last / BLOCK_BITS < counter / BLOCK_BITS + RING_BLOCKS
  {
  }

  lemma SetMark(ring: seq<nat>, last: nat, c: nat, accepted: set<nat>)
    requires |ring| == RING_BLOCKS && Window(ring, last / BLOCK_BITS, accepted)
    requires c / BLOCK_BITS <= last / BLOCK_BITS < c / BLOCK_BITS + RING_BLOCKS
    ensures var s := Slot(c / BLOCK_BITS); var marked := Mark(ring[s], c % BLOCK_BITS);
      && Window(ring[s := marked], last / BLOCK_BITS, accepted + {c})
      && (marked != ring[s] <==> c !in accepted)
  {
    hide Records, Marked, Mark;
    var current, b := last / BLOCK_BITS, c / BLOCK_BITS;
    var r := ring[Slot(b) := Mark(ring[Slot(b)], c % BLOCK_BITS)];
    MarkedBlock(ring[Slot(b)], c, accepted);
    forall k {:trigger Slot(k)} | 0 <= k <= current < k + RING_BLOCKS ensures Records(r[Slot(k)], k, accepted + {c}) {
      if k != b {
        OtherSlot(if k < b then k else b, if k < b then b else k);
        OtherBlock(ring[Slot(k)], k, c, accepted);
      }
    }
  }

  // ----- Whole runs

  datatype Op = Reset | Validate(counter: nat, limit: nat)

  ghost function AfterOps(ops: seq<Op>): (accepted: set<nat>) {
    if ops == [] then {}
    else
      var before := AfterOps(ops[..|ops| - 1]);
      match ops[|ops| - 1]
      case Reset => {}
      case Validate(c, limit) => before + if Fresh(before, c, limit) then {c} else {}
  }

  /** The answer to operation `i`: whether its counter is fresh after the operations before it. */
  ghost predicate Answer(ops: seq<Op>, i: nat)
    requires i < |ops|
  {
    ops[i].Validate? && Fresh(AfterOps(ops[..i]), ops[i].counter, ops[i].limit)
  }

  /** Any run, starting with a reset of a filter whose ring may hold anything. */
  method Run(f: Filter, ops: seq<Op>) returns (answers: seq<bool>)
    requires f.ring.Length == RING_BLOCKS && forall s :: 0 <= s < RING_BLOCKS ==> f.ring[s] < Pow2(BLOCK_BITS)
    requires forall i :: 0 <= i < |ops| && ops[i].Validate? ==> ops[i].counter < TWO64 && ops[i].limit < TWO64
    modifies f, f.ring
    ensures |answers| == |ops| && forall i :: 0 <= i < |ops| ==> answers[i] == Answer(ops, i)
  {
    hide Fresh;
    f.Reset();
    answers := [];
    for i := 0 to |ops|
      invariant f.Valid() && f.accepted == AfterOps(ops[..i])
      invariant |answers| == i && forall k :: 0 <= k < i ==> answers[k] == Answer(ops, k)
    {
      assert ops[..i + 1][..i] == ops[..i];
      match ops[i] {
        case Reset =>
          f.Reset();
          answers := answers + [false];
        case Validate(c, limit) =>
          var ok := f.ValidateCounter(c, limit);
          answers := answers + [ok];
      }
    }
  }
}
