/** The link structure of the allowed-IPs trie as a value.

  `Graph` records, for every entry of the table, the fields that device/allowedips.go
  rewires: peer, back-link, branch bit and the two children. A slot that points at an
  entry (the `parentBit` of the source) is the pair of the entry holding it and the
  branch bit, with bit 2 for the two root slots. The heap operations in AllowedIPs.dfy
  are proved to transform graphs as the functions here do.
 */
module TrieGraph {
  import opened AddressBits
  import opened Sequences

  /** A prefix: the address family followed by the bits of the prefix. */
  type Key = seq<bool>

  function Prefix(ip: seq<bv8>, cidr: nat): (k: Key)
    ensures cidr <= 8 * |ip| ==> |k| == cidr + 1
  {
    [|ip| == 16] + if cidr <= 8 * |ip| then Bits(ip)[..cidr] else []
  }

  function Bit(b: bool): (bit: nat)
    ensures bit < 2
  {
    if b then 1 else 0
  }

  class Peer {
    var trieEntries: seq<TrieEntry>

    constructor ()
      ensures trieEntries == []
    {
      trieEntries := [];
    }
  }

  class TrieEntry {
    var peer: Peer?
    var child0: TrieEntry?
    var child1: TrieEntry?
    var parent: TrieEntry?
    var parentBitType: nat
    var perPeerElem: bool
    const cidr: nat
    const bits: seq<bv8>
    ghost const key: Key

    constructor (bits: seq<bv8>, cidr: nat, peer: Peer?)
      ensures this.bits == bits && this.cidr == cidr && this.peer == peer
      ensures key == Prefix(bits, cidr)
      ensures child0 == null && child1 == null && parent == null && parentBitType == 2 && !perPeerElem
    {
      this.bits, this.cidr, this.peer := bits, cidr, peer;
      key := Prefix(bits, cidr);
      child0, child1, parent, parentBitType, perPeerElem := null, null, null, 2, false;
    }

    ghost predicate Sound() {
      IsAddress(bits) && cidr <= 8 * |bits| && key == Prefix(bits, cidr)
    }
  }

  // ----- Entry lists

  /** The list without its element for `n`. */
  function Without(s: seq<TrieEntry>, n: TrieEntry): seq<TrieEntry> {
    if s == [] then [] else if s[0] == n then s[1..] else [s[0]] + Without(s[1..], n)
  }

  lemma {:induction false} WithoutIs(s: seq<TrieEntry>, n: TrieEntry)
    requires Distinct(s)
    ensures Distinct(Without(s, n))
    ensures forall m :: m in Without(s, n) <==> m in s && m != n
  {
    if s == [] {
    } else {
      assert s == [s[0]] + s[1..];
      WithoutIs(s[1..], n);
      assert s[0] !in s[1..];
      assert s[0] !in Without(s[1..], n);
    }
  }

  datatype Cell = Cell(peer: Peer?, parent: TrieEntry?, up: nat, child0: TrieEntry?, child1: TrieEntry?)
  {
    function Child(bit: nat): TrieEntry? {
      if bit == 0 then child0 else child1
    }

    function SetChild(bit: nat, c: TrieEntry?): Cell {
      if bit == 0 then this.(child0 := c) else this.(child1 := c)
    }
  }

  datatype Graph = Graph(root4: TrieEntry?, root6: TrieEntry?, cells: map<TrieEntry, Cell>)
  {
    function Root(v6: bool): TrieEntry? {
      if v6 then root6 else root4
    }

    // ----- Well-formedness

    /** Everything said about the links of one entry. */
    ghost predicate Linked(n: TrieEntry)
      requires n in cells
    {
      n.Sound() && LinkedUp(n) && LinkedDown(n, 0) && LinkedDown(n, 1)
    }

    ghost predicate LinkedUp(n: TrieEntry)
      requires n in cells
    {
      var c := cells[n];
      if c.parent == null then
        c.up == 2 && Root(|n.bits| == 16) == n
      else
        && c.parent in cells
        && c.up < 2
        && c.parent.cidr < n.cidr
        && cells[c.parent].Child(c.up) == n
        && c.parent.key + [c.up == 1] <= n.key
    }

    ghost predicate LinkedDown(n: TrieEntry, bit: nat)
      requires n in cells
    {
      var d := cells[n].Child(bit);
      d != null ==> d in cells && cells[d].parent == n && cells[d].up == bit
    }

    ghost predicate LinkedRoot(v6: bool) {
      Root(v6) != null ==> Root(v6) in cells && cells[Root(v6)].parent == null && (|Root(v6).bits| == 16) == v6
    }

    ghost predicate Links() {
      && LinkedRoot(false)
      && LinkedRoot(true)
      && forall n {:trigger Linked(n)} :: n in cells ==> Linked(n)
    }

    /** An entry without a peer exists only to branch. */
    ghost predicate Branches(n: TrieEntry)
      requires n in cells
    {
      cells[n].peer == null ==> cells[n].child0 != null && cells[n].child1 != null
    }

    ghost predicate Canonical() {
      Links() && forall n {:trigger Branches(n)} :: n in cells ==> Branches(n)
    }

    // ----- Paths

    /** `a` lies on the chain of back-links from `n` to the root. */
    ghost predicate Above(a: TrieEntry, n: TrieEntry)
      requires Links() && n in cells
      decreases n.cidr
    {
      a == n || (Linked(n) && cells[n].parent != null && Above(a, cells[n].parent))
    }

    lemma {:induction false} AboveIsPrefix(a: TrieEntry, n: TrieEntry)
      requires Links() && n in cells && Above(a, n)
      ensures a in cells && a.key <= n.key
      ensures a != n ==> a.cidr < n.cidr
      decreases n.cidr
    {
      assert Linked(n);
      if a == n {
      } else {
        AboveIsPrefix(a, cells[n].parent);
      }
    }

    /** Below an entry, the branch is chosen by the next bit of the key. */
    lemma {:induction false} StepDown(a: TrieEntry, n: TrieEntry)
      requires Links() && n in cells && Above(a, n) && a != n
      ensures a.cidr < n.cidr && a in cells && a.cidr + 1 < |n.key|
      ensures var c := cells[a].Child(Bit(n.key[a.cidr + 1])); c != null && c in cells && Above(c, n)
      decreases n.cidr
    {
      AboveIsPrefix(a, n);
      var p := cells[n].parent;
      assert Linked(n) && Linked(a);
      if p == a {
      } else {
        AboveIsPrefix(a, p);
        StepDown(a, p);
        assert Linked(p);
        assert p.key[a.cidr + 1] == n.key[a.cidr + 1];
      }
    }

    /** All entries whose prefix covers one address lie on one path. */
    lemma {:induction false} OnePath(addr: Key, a: TrieEntry, n: TrieEntry)
      requires Links() && a in cells && n in cells
      requires a.key <= addr && n.key <= addr && a.cidr <= n.cidr
      ensures Above(a, n)
      decreases a.cidr + n.cidr
    {
      assert Linked(a) && Linked(n);
      if a == n {
      } else {
        var p := cells[n].parent;
        assert a.key[0] == addr[0] == n.key[0];
        if p == null {
          if cells[a].parent != null {
            OnePath(addr, cells[a].parent, n);
          }
        } else if p.cidr >= a.cidr {
          OnePath(addr, a, p);
        } else {
          OnePath(addr, p, a);
          StepDown(p, a);
          assert Linked(p);
          AboveIsPrefix(n, a);
        }
      }
    }

    /** No two entries hold the same prefix. */
    lemma SameKey(a: TrieEntry, n: TrieEntry)
      requires Links() && a in cells && n in cells && a.key == n.key
      ensures a == n
    {
      assert Linked(a) && Linked(n);
      OnePath(n.key, a, n);
      AboveIsPrefix(a, n);
    }

    // ----- Rewiring, cell by cell

    ghost predicate Hangable(parent: TrieEntry?, x: TrieEntry) {
      x !in cells && (parent != null ==> parent in cells)
    }

    ghost predicate FitsAt(parent: TrieEntry?, bit: nat, x: TrieEntry) {
      && Hangable(parent, x) && x.Sound()
      && if parent == null then bit == 2 && Root(|x.bits| == 16) == null
         else && bit < 2 && cells[parent].Child(bit) == null
              && parent.cidr < x.cidr && parent.key + [bit == 1] <= x.key
    }

    /** In `h` the new entry `x` hangs in the free slot `bit` of `parent`, or in its root slot. */
    ghost predicate Attached(h: Graph, parent: TrieEntry?, bit: nat, x: TrieEntry)
      requires Hangable(parent, x)
    {
      && h.cells.Keys == cells.Keys + {x}
      && h.cells[x] == Cell(h.cells[x].peer, parent, bit, null, null)
      && (parent != null ==> h.root4 == root4 && h.root6 == root6)
      && (parent != null ==> h.cells[parent] == cells[parent].SetChild(bit, x))
      && (parent == null ==> h.Root(|x.bits| == 16) == x && h.Root(|x.bits| != 16) == Root(|x.bits| != 16))
      && forall m :: m in cells && m != parent ==> h.cells[m] == cells[m]
    }

    lemma AttachedLinked(h: Graph, parent: TrieEntry?, bit: nat, x: TrieEntry, n: TrieEntry)
      requires Links() && FitsAt(parent, bit, x) && Attached(h, parent, bit, x) && n in h.cells
      ensures h.Linked(n)
    {
      if n != x { assert Linked(n); }
      AttachedUp(h, parent, bit, x, n);
      AttachedDown(h, parent, bit, x, n, 0);
      AttachedDown(h, parent, bit, x, n, 1);
    }

    lemma AttachedUp(h: Graph, parent: TrieEntry?, bit: nat, x: TrieEntry, n: TrieEntry)
      requires Links() && FitsAt(parent, bit, x) && Attached(h, parent, bit, x) && n in h.cells
      ensures h.LinkedUp(n)
    {
      if n != x { assert Linked(n); }
    }

    lemma AttachedDown(h: Graph, parent: TrieEntry?, bit: nat, x: TrieEntry, n: TrieEntry, b: nat)
      requires Links() && FitsAt(parent, bit, x) && Attached(h, parent, bit, x) && n in h.cells && b < 2
      ensures h.LinkedDown(n, b)
    {
      if n != x {
        assert Linked(n);
        var d := cells[n].Child(b);
        if d != null { assert Linked(d); }
      }
    }

    lemma AttachedLinks(h: Graph, parent: TrieEntry?, bit: nat, x: TrieEntry)
      requires Links() && FitsAt(parent, bit, x) && Attached(h, parent, bit, x)
      ensures h.Links()
    {
      forall n | n in h.cells ensures h.Linked(n) {
        AttachedLinked(h, parent, bit, x, n);
      }
    }

    ghost predicate Placeable(x: TrieEntry, down: TrieEntry) {
      && down in cells && x !in cells
      && (cells[down].parent != null ==> cells[down].parent in cells && cells[down].parent != down)
    }

    /** The new entry `x` may take the slot of `down`, with `down` below it. */
    ghost predicate FitsAbove(x: TrieEntry, down: TrieEntry) {
      && Placeable(x, down) && x.Sound() && down.Sound()
      && x.cidr < down.cidr && x.key <= down.key
      && var d := cells[down];
         d.parent != null ==> d.parent.cidr < x.cidr && d.parent.key + [d.up == 1] <= x.key
    }

    /** In `h` the new entry `x` has taken the slot of `down`, which hangs at `bit` below it. */
    ghost predicate Displaced(h: Graph, x: TrieEntry, down: TrieEntry, bit: nat)
      requires Placeable(x, down)
    {
      && h.cells.Keys == cells.Keys + {x}
      && var d := cells[down];
         && h.cells[x] == Cell(h.cells[x].peer, d.parent, d.up, null, null).SetChild(bit, down)
         && h.cells[down] == d.(parent := x, up := bit)
         && (d.parent != null ==> h.root4 == root4 && h.root6 == root6)
         && (d.parent != null ==> h.cells[d.parent] == cells[d.parent].SetChild(d.up, x))
         && (d.parent == null ==> h.Root(|x.bits| == 16) == x && h.Root(|x.bits| != 16) == Root(|x.bits| != 16))
         && forall m :: m in cells && m != down && m != d.parent ==> h.cells[m] == cells[m]
    }

    /** In `h` the slot of `down` has passed to the new entry `x`. */
    ghost predicate TakenSlot(h: Graph, x: TrieEntry, down: TrieEntry)
      requires Placeable(x, down)
    {
      && h.cells.Keys == cells.Keys + {x}
      && var d := cells[down];
         && h.cells[x] == Cell(h.cells[x].peer, d.parent, d.up, null, null)
         && (d.parent != null ==> h.root4 == root4 && h.root6 == root6)
         && (d.parent != null ==> h.cells[d.parent] == cells[d.parent].SetChild(d.up, x))
         && (d.parent == null ==> h.Root(|x.bits| == 16) == x && h.Root(|x.bits| != 16) == Root(|x.bits| != 16))
         && forall m :: m in cells && m != d.parent ==> h.cells[m] == cells[m]
    }

    /** In `h` entry `down` hangs at `bit` below `x`. */
    ghost predicate HungBelow(h: Graph, x: TrieEntry, down: TrieEntry, bit: nat)
      requires x in cells && down in cells && x != down
    {
      && h.root4 == root4 && h.root6 == root6 && h.cells.Keys == cells.Keys
      && h.cells[x] == cells[x].SetChild(bit, down)
      && h.cells[down] == cells[down].(parent := x, up := bit)
      && forall m :: m in cells && m != x && m != down ==> h.cells[m] == cells[m]
    }

    lemma DisplacedInTwo(mid: Graph, h: Graph, x: TrieEntry, down: TrieEntry, bit: nat)
      requires Placeable(x, down) && TakenSlot(mid, x, down) && mid.HungBelow(h, x, down, bit)
      ensures Displaced(h, x, down, bit)
    {
    }

    lemma DisplacedUp(h: Graph, x: TrieEntry, down: TrieEntry, n: TrieEntry)
      requires Links() && FitsAbove(x, down) && Displaced(h, x, down, Choose(down.bits, x.cidr)) && n in h.cells
      ensures h.LinkedUp(n)
    {
      hide Links, FitsAbove, LinkedUp;
      if n == x || n == down {
        DisplacedPair(h, x, down);
      } else {
        DisplacedOther(h, x, down, n);
      }
    }

    lemma DisplacedPair(h: Graph, x: TrieEntry, down: TrieEntry)
      requires Links() && FitsAbove(x, down) && Displaced(h, x, down, Choose(down.bits, x.cidr))
      ensures h.LinkedUp(x) && h.LinkedUp(down)
    {
      hide LinkedDown;
      assert Linked(down);
      assert x.key[0] == down.key[0];
      assert Bits(down.bits)[x.cidr] == down.key[x.cidr + 1];
      assert x.key + [down.key[x.cidr + 1]] <= down.key;
    }

    lemma DisplacedOther(h: Graph, x: TrieEntry, down: TrieEntry, n: TrieEntry)
      requires Links() && FitsAbove(x, down) && Displaced(h, x, down, Choose(down.bits, x.cidr)) && n in cells && n != x && n != down
      ensures h.LinkedUp(n)
    {
      hide LinkedDown;
      assert Linked(down) && Linked(n);
      assert x.key[0] == down.key[0];
      var p := cells[n].parent;
      if p != null && p != down && p != cells[down].parent {
        assert h.cells[p] == cells[p];
      }
    }

    lemma DisplacedDown(h: Graph, x: TrieEntry, down: TrieEntry, n: TrieEntry, b: nat)
      requires Links() && FitsAbove(x, down) && Displaced(h, x, down, Choose(down.bits, x.cidr)) && n in h.cells && b < 2
      ensures h.LinkedDown(n, b)
    {
      assert Linked(down);
      if n != x {
        assert Linked(n);
        var c := cells[n].Child(b);
        if c != null && c != down {
          assert Linked(c);
          assert h.cells[c].parent == cells[c].parent;
        }
      }
    }

    lemma DisplacedLinked(h: Graph, x: TrieEntry, down: TrieEntry, n: TrieEntry)
      requires Links() && FitsAbove(x, down) && Displaced(h, x, down, Choose(down.bits, x.cidr)) && n in h.cells
      ensures h.Linked(n)
    {
      if n != x { assert Linked(n); }
      DisplacedUp(h, x, down, n);
      DisplacedDown(h, x, down, n, 0);
      DisplacedDown(h, x, down, n, 1);
    }

    lemma DisplacedRoot(h: Graph, x: TrieEntry, down: TrieEntry, v6: bool)
      requires Links() && FitsAbove(x, down) && Displaced(h, x, down, Choose(down.bits, x.cidr))
      ensures h.LinkedRoot(v6)
    {
      assert Linked(down) && LinkedRoot(v6);
      assert x.key[0] == down.key[0];
    }

    lemma DisplacedLinks(h: Graph, x: TrieEntry, down: TrieEntry)
      requires Links() && FitsAbove(x, down) && Displaced(h, x, down, Choose(down.bits, x.cidr))
      ensures h.Links()
    {
      DisplacedRoot(h, x, down, false);
      DisplacedRoot(h, x, down, true);
      forall n | n in h.cells ensures h.Linked(n) {
        DisplacedLinked(h, x, down, n);
      }
    }

    function OnlyChild(n: TrieEntry): TrieEntry?
      requires n in cells
    {
      if cells[n].child0 == null then cells[n].child1 else cells[n].child0
    }

    ghost predicate Spliceable(n: TrieEntry) {
      && n in cells && (cells[n].child0 == null || cells[n].child1 == null)
      && (cells[n].parent != null ==> cells[n].parent in cells && cells[n].parent != n)
      && (OnlyChild(n) != null ==> OnlyChild(n) in cells && OnlyChild(n) != n && OnlyChild(n) != cells[n].parent)
    }

    /** In `h` the entry `n` has been replaced by its only child, if any. */
    ghost predicate Spliced(h: Graph, n: TrieEntry)
      requires Spliceable(n)
    {
      && h.cells.Keys == cells.Keys - {n}
      && var c, child := cells[n], OnlyChild(n);
         && (child != null ==> h.cells[child] == cells[child].(parent := c.parent, up := c.up))
         && (c.parent != null ==> h.root4 == root4 && h.root6 == root6)
         && (c.parent != null ==> h.cells[c.parent] == cells[c.parent].SetChild(c.up, child))
         && (c.parent == null ==> h.Root(|n.bits| == 16) == child && h.Root(|n.bits| != 16) == Root(|n.bits| != 16))
         && forall m :: m in h.cells && m != child && m != c.parent ==> h.cells[m] == cells[m]
    }

    lemma IsSpliceable(n: TrieEntry)
      requires Links() && n in cells && (cells[n].child0 == null || cells[n].child1 == null)
      ensures Spliceable(n)
    {
      assert Linked(n);
      if OnlyChild(n) != null { assert Linked(OnlyChild(n)); }
      if cells[n].parent != null { assert Linked(cells[n].parent); }
    }

    lemma SplicedUp(h: Graph, n: TrieEntry, m: TrieEntry)
      requires Links() && Spliceable(n) && Spliced(h, n) && m in h.cells
      ensures h.LinkedUp(m)
    {
      assert Linked(n) && Linked(m);
      var child := OnlyChild(n);
      if m == child {
        assert child.key[0] == n.key[0];
      } else {
        var p := cells[m].parent;
        if p != null {
          assert p != n;
          assert Linked(p);
        }
      }
    }

    lemma SplicedDown(h: Graph, n: TrieEntry, m: TrieEntry, b: nat)
      requires Links() && Spliceable(n) && Spliced(h, n) && m in h.cells && b < 2
      ensures h.LinkedDown(m, b)
    {
      assert Linked(n) && Linked(m);
      var child := OnlyChild(n);
      if child != null { assert Linked(child); }
      var d := cells[m].Child(b);
      if d != null {
        assert Linked(d);
      }
    }

    lemma SplicedLinked(h: Graph, n: TrieEntry, m: TrieEntry)
      requires Links() && Spliceable(n) && Spliced(h, n) && m in h.cells
      ensures h.Linked(m)
    {
      assert Linked(m);
      SplicedUp(h, n, m);
      SplicedDown(h, n, m, 0);
      SplicedDown(h, n, m, 1);
    }

    lemma SplicedRoot(h: Graph, n: TrieEntry, v6: bool)
      requires Links() && Spliceable(n) && Spliced(h, n)
      ensures h.LinkedRoot(v6)
    {
      assert Linked(n) && LinkedRoot(v6);
      var child := OnlyChild(n);
      if child != null {
        assert Linked(child);
        assert child.key[0] == n.key[0];
      }
    }

    lemma SplicedLinks(h: Graph, n: TrieEntry)
      requires Links() && Spliceable(n) && Spliced(h, n)
      ensures h.Links()
    {
      SplicedRoot(h, n, false);
      SplicedRoot(h, n, true);
      forall m | m in h.cells ensures h.Linked(m) {
        SplicedLinked(h, n, m);
      }
    }

    // ----- Walking down from the root

    /** What hangs below `last` in the direction of `target`; the root slot when there is no `last`. */
    ghost function Slot(target: Key, last: TrieEntry?): TrieEntry?
      requires Reached(target, last)
    {
      if last == null then Root(target[0]) else cells[last].Child(Bit(target[last.cidr + 1]))
    }

    /** A walk has reached `last` on the path towards `target`. */
    ghost predicate Reached(target: Key, last: TrieEntry?) {
      |target| > 0 && (last != null ==> last in cells && last.key <= target && last.cidr + 1 < |target|)
    }

    lemma {:induction false} Beyond(target: Key, last: TrieEntry?, m: TrieEntry)
      requires Links() && Reached(target, last)
      requires m in cells && m.key <= target && (last != null ==> last.cidr < m.cidr)
      ensures var d := Slot(target, last); d != null && d in cells && Above(d, m)
      decreases m.cidr
    {
      assert Linked(m);
      if last != null {
        assert Linked(last);
        OnePath(target, last, m);
        StepDown(last, m);
        assert m.key[last.cidr + 1] == target[last.cidr + 1];
      } else if cells[m].parent != null {
        Beyond(target, null, cells[m].parent);
        var d := Slot(target, null);
        assert Above(d, m);
      } else {
        assert m.key[0] == target[0];
      }
    }

    /** The loop test of both walks compares prefixes. */
    static ghost predicate Test(ip: seq<bv8>, cidr: nat, d: TrieEntry)
      requires IsAddress(ip)
    {
      && |d.bits| == |ip|
      && d.cidr <= 8 * |ip|
      && (d.cidr <= cidr && CommonBits(d.bits, ip) >= d.cidr <==> d.key <= Prefix(ip, cidr))
    }

    static lemma TestHolds(ip: seq<bv8>, cidr: nat, d: TrieEntry)
      requires d.Sound() && IsAddress(ip) && cidr <= 8 * |ip| && |d.bits| == |ip|
      ensures Test(ip, cidr, d)
    {
      CommonBitsReach(d.bits, ip, d.cidr);
      var target := Prefix(ip, cidr);
      if d.cidr <= cidr {
        assert target[1..][..d.cidr] == Bits(ip)[..d.cidr];
        assert d.key[1..] == Bits(d.bits)[..d.cidr];
        assert d.key <= target <==> d.key == target[..d.cidr + 1];
        assert target[..d.cidr + 1] == [target[0]] + target[1..][..d.cidr];
      }
    }

    /** A walk towards `ip/cidr` stands at `node`, having passed `last`. */
    ghost predicate Walking(ip: seq<bv8>, cidr: nat, last: TrieEntry?, node: TrieEntry?)
      requires IsAddress(ip)
    {
      && Reached(Prefix(ip, cidr), last)
      && node == Slot(Prefix(ip, cidr), last)
      && (node != null ==> node in cells && Test(ip, cidr, node) && (last != null ==> last.cidr < node.cidr))
    }

    lemma WalkStart(ip: seq<bv8>, cidr: nat)
      requires Links() && IsAddress(ip) && cidr <= 8 * |ip|
      ensures Walking(ip, cidr, null, Root(|ip| == 16))
    {
      var d := Root(|ip| == 16);
      if d != null {
        assert LinkedRoot(|ip| == 16) && Linked(d);
        TestHolds(ip, cidr, d);
      }
    }

    lemma WalkStep(ip: seq<bv8>, cidr: nat, last: TrieEntry?, node: TrieEntry)
      requires Links() && IsAddress(ip) && cidr <= 8 * |ip| && Walking(ip, cidr, last, node)
      requires node.key <= Prefix(ip, cidr) && node.cidr < cidr
      ensures Walking(ip, cidr, node, cells[node].Child(Choose(ip, node.cidr)))
    {
      assert Linked(node);
      assert Prefix(ip, cidr)[node.cidr + 1] == Bits(ip)[node.cidr];
      var d := cells[node].Child(Choose(ip, node.cidr));
      if d != null {
        assert Linked(d);
        assert d.key[0] == node.key[0];
        TestHolds(ip, cidr, d);
      }
    }

    /** A walk that cannot go on has passed every entry covering its target. */
    lemma WalkEnd(ip: seq<bv8>, cidr: nat, last: TrieEntry?, node: TrieEntry?, m: TrieEntry)
      requires Links() && IsAddress(ip) && Walking(ip, cidr, last, node)
      requires node != null ==> !(node.key <= Prefix(ip, cidr))
      requires m in cells && m.key <= Prefix(ip, cidr)
      ensures last != null && m.cidr <= last.cidr
    {
      if last == null || m.cidr > last.cidr {
        Beyond(Prefix(ip, cidr), last, m);
        AboveIsPrefix(node, m);
      }
    }

    // ----- The prefix map a graph stands for, and longest-prefix match

    ghost predicate Stored(k: Key) {
      exists n :: n in cells && n.key == k && cells[n].peer != null
    }

    ghost predicate Routed(routes: map<Key, Peer>, n: TrieEntry)
      requires n in cells
    {
      cells[n].peer != null ==> n.key in routes && routes[n.key] == cells[n].peer
    }

    /** `routes` is exactly the map from stored prefixes to their peers. */
    ghost predicate Represents(routes: map<Key, Peer>) {
      && (forall n {:trigger Routed(routes, n)} :: n in cells ==> Routed(routes, n))
      && (forall k {:trigger Stored(k)} :: k in routes ==> Stored(k))
    }

    /** The best entry seen once a walk has passed every match no longer than `depth`. */
    ghost predicate Best(addr: Key, depth: int, best: TrieEntry?) {
      && (best != null ==> best in cells && cells[best].peer != null && best.key <= addr)
      && forall m :: m in cells && cells[m].peer != null && m.key <= addr && m.cidr <= depth ==>
           best != null && m.cidr <= best.cidr
    }

    lemma BestStep(addr: Key, last: TrieEntry?, best: TrieEntry?, node: TrieEntry)
      requires Links() && Reached(addr, last) && node == Slot(addr, last) && node in cells && node.key <= addr
      requires last != null ==> last.cidr < node.cidr
      requires Best(addr, if last == null then -1 else last.cidr, best)
      requires best != null ==> best.cidr < node.cidr
      ensures Best(addr, node.cidr, if cells[node].peer != null then node else best)
    {
      forall m | m in cells && m.key <= addr && m.cidr <= node.cidr
        ensures m == node || (last != null && m.cidr <= last.cidr)
      {
        if last == null || last.cidr < m.cidr {
          Beyond(addr, last, m);
          AboveIsPrefix(node, m);
        }
      }
    }

    lemma BestEnd(ip: seq<bv8>, last: TrieEntry?, node: TrieEntry?, best: TrieEntry?)
      requires Links() && IsAddress(ip) && Walking(ip, 8 * |ip|, last, node)
      requires node != null ==> !(node.key <= Prefix(ip, 8 * |ip|))
      requires Best(Prefix(ip, 8 * |ip|), if last == null then -1 else last.cidr, best)
      ensures Best(Prefix(ip, 8 * |ip|), 8 * |ip|, best)
    {
      var addr := Prefix(ip, 8 * |ip|);
      forall m | m in cells && m.key <= addr ensures last != null && m.cidr <= last.cidr {
        WalkEnd(ip, 8 * |ip|, last, node, m);
      }
    }

    lemma BestIsLongestMatch(routes: map<Key, Peer>, ip: seq<bv8>, best: TrieEntry?)
      requires Links() && Represents(routes) && IsAddress(ip) && Best(Prefix(ip, 8 * |ip|), 8 * |ip|, best)
      ensures (if best == null then null else cells[best].peer) == SlowLookup(routes, Prefix(ip, 8 * |ip|), 8 * |ip| + 1)
    {
      hide SlowLookup, LinkedUp, LinkedDown, LinkedRoot;
      var addr := Prefix(ip, 8 * |ip|);
      forall k | k in routes && k <= addr ensures best != null && |k| <= best.cidr + 1 {
        BestCovers(routes, ip, best, k);
      }
      if best == null {
        SlowLookupMisses(routes, addr, 8 * |ip| + 1);
      } else {
        assert Linked(best) && Routed(routes, best);
        assert addr[..best.cidr + 1] == best.key;
        SlowLookupFinds(routes, addr, best.cidr + 1, 8 * |ip| + 1);
      }
    }

    lemma BestCovers(routes: map<Key, Peer>, ip: seq<bv8>, best: TrieEntry?, k: Key)
      requires Links() && Represents(routes) && IsAddress(ip) && Best(Prefix(ip, 8 * |ip|), 8 * |ip|, best)
      requires k in routes && k <= Prefix(ip, 8 * |ip|)
      ensures best != null && |k| <= best.cidr + 1
    {
      hide LinkedUp, LinkedDown, LinkedRoot;
      assert Stored(k);
      var m :| m in cells && m.key == k && cells[m].peer != null;
      assert Linked(m);
    }

    // ----- What rewiring does to the prefix map and to branching

    /** The entries common to `h` keep their peers. */
    ghost predicate KeepsPeers(h: Graph) {
      forall m {:trigger h.cells[m]} :: m in cells && m in h.cells ==> h.cells[m].peer == cells[m].peer
    }

    lemma GrownRepresents(h: Graph, x: TrieEntry, routes: map<Key, Peer>)
      requires Represents(routes) && KeepsPeers(h) && x !in cells && h.cells.Keys == cells.Keys + {x}
      requires h.cells[x].peer != null ==> forall m :: m in cells ==> m.key != x.key
      ensures h.Represents(if h.cells[x].peer == null then routes else routes[x.key := h.cells[x].peer])
    {
      var r := if h.cells[x].peer == null then routes else routes[x.key := h.cells[x].peer];
      forall n | n in h.cells ensures h.Routed(r, n) {
        if n != x { assert Routed(routes, n); }
      }
      forall k | k in r ensures h.Stored(k) {
        if k in routes && (h.cells[x].peer == null || k != x.key) { assert Stored(k); }
      }
    }

    lemma ShrunkRepresents(h: Graph, n: TrieEntry, routes: map<Key, Peer>)
      requires Represents(routes) && KeepsPeers(h) && n in cells && h.cells.Keys == cells.Keys - {n}
      requires cells[n].peer == null
      ensures h.Represents(routes)
    {
      forall m | m in h.cells ensures h.Routed(routes, m) {
        assert Routed(routes, m);
      }
      forall k | k in routes ensures h.Stored(k) {
        assert Stored(k);
      }
    }

    /** In `h` only the peer of `n` has changed. */
    ghost predicate Repeered(h: Graph, n: TrieEntry) {
      && n in cells
      && h.root4 == root4 && h.root6 == root6 && h.cells.Keys == cells.Keys
      && h.cells[n] == cells[n].(peer := h.cells[n].peer)
      && forall m :: m in cells && m != n ==> h.cells[m] == cells[m]
    }

    lemma RepeeredLinks(h: Graph, n: TrieEntry)
      requires Links() && Repeered(h, n)
      ensures h.Links()
    {
      forall m | m in h.cells ensures h.Linked(m) {
        assert Linked(m);
      }
    }

    lemma RepeeredRepresents(h: Graph, n: TrieEntry, routes: map<Key, Peer>)
      requires Links() && Represents(routes) && Repeered(h, n)
      ensures h.Represents(if h.cells[n].peer == null then routes - {n.key} else routes[n.key := h.cells[n].peer])
    {
      var r := if h.cells[n].peer == null then routes - {n.key} else routes[n.key := h.cells[n].peer];
      forall m | m in h.cells ensures h.Routed(r, m) {
        assert Routed(routes, m);
        if m != n && m.key == n.key { SameKey(m, n); }
      }
      forall k | k in r ensures h.Stored(k) {
        if k != n.key { assert Stored(k); }
      }
    }

    lemma RepeeredCanonical(h: Graph, n: TrieEntry, routes: map<Key, Peer>)
      requires Canonical() && Represents(routes) && Repeered(h, n) && h.cells[n].peer != null
      ensures h.Canonical() && h.Represents(routes[n.key := h.cells[n].peer])
    {
      RepeeredLinks(h, n);
      RepeeredRepresents(h, n, routes);
      forall m | m in h.cells ensures h.Branches(m) {
        assert Branches(m);
      }
    }

    lemma ExactKey(n: TrieEntry, ip: seq<bv8>, cidr: nat)
      requires Links() && n in cells && cidr <= 8 * |ip| && n.cidr == cidr && n.key <= Prefix(ip, cidr)
      ensures n.key == Prefix(ip, cidr)
    {
      assert Linked(n);
    }

    /** Either no entry holds `k`, or the one that does, `n`, carries another peer. */
    lemma NotRoutedTo(routes: map<Key, Peer>, k: Key, peer: Peer, n: TrieEntry?, held: bool)
      requires Links() && Represents(routes)
      requires if held then n != null && n in cells && n.key == k && cells[n].peer != peer else Unused(k)
      ensures !(k in routes && routes[k] == peer)
    {
      if k in routes {
        assert Stored(k);
        var m :| m in cells && m.key == k && cells[m].peer != null;
        assert Routed(routes, m);
        if held { SameKey(m, n); }
      }
    }

    ghost predicate Unused(k: Key) {
      forall m :: m in cells ==> m.key != k
    }

    lemma AttachedCanonical(h: Graph, parent: TrieEntry?, bit: nat, x: TrieEntry, routes: map<Key, Peer>)
      requires Canonical() && Represents(routes) && FitsAt(parent, bit, x) && Attached(h, parent, bit, x)
      requires h.cells[x].peer != null && Unused(x.key)
      ensures h.Canonical() && h.Represents(routes[x.key := h.cells[x].peer])
    {
      AttachedLinks(h, parent, bit, x);
      GrownRepresents(h, x, routes);
      forall m | m in h.cells ensures h.Branches(m) {
        if m != x { assert Branches(m); }
      }
    }

    lemma DisplacedCanonical(h: Graph, x: TrieEntry, down: TrieEntry, routes: map<Key, Peer>)
      requires Canonical() && Represents(routes) && FitsAbove(x, down)
      requires Displaced(h, x, down, Choose(down.bits, x.cidr))
      requires h.cells[x].peer != null && Unused(x.key)
      ensures h.Canonical() && h.Represents(routes[x.key := h.cells[x].peer])
    {
      DisplacedLinks(h, x, down);
      GrownRepresents(h, x, routes);
      forall m | m in h.cells ensures h.Branches(m) {
        if m != x { assert Branches(m); }
      }
    }

    /** `mid` fits above `down`, and `x` fits on the free side of `mid`. */
    ghost predicate FitsAround(x: TrieEntry, down: TrieEntry, mid: TrieEntry) {
      && FitsAbove(mid, down)
      && x !in cells && x != mid && x.Sound() && mid.cidr < x.cidr
      && mid.key + [Bits(x.bits)[mid.cidr]] <= x.key
      && Choose(x.bits, mid.cidr) == 1 - Choose(down.bits, mid.cidr)
    }

    lemma AroundPlaceable(x: TrieEntry, down: TrieEntry, mid: TrieEntry)
      requires FitsAround(x, down, mid)
      ensures Placeable(mid, down) && mid.cidr < 8 * |down.bits| && mid.cidr < 8 * |x.bits| && x !in cells && x != mid && x != down
    {
    }

    lemma SplitFits(h: Graph, x: TrieEntry, down: TrieEntry, mid: TrieEntry)
      requires FitsAround(x, down, mid) && Displaced(h, mid, down, Choose(down.bits, mid.cidr))
      ensures h.FitsAt(mid, Choose(x.bits, mid.cidr), x) && h.Hangable(mid, x)
    {
    }

    lemma SplitCanonical(h: Graph, k: Graph, x: TrieEntry, down: TrieEntry, mid: TrieEntry, routes: map<Key, Peer>)
      requires Canonical() && Represents(routes) && FitsAround(x, down, mid)
      requires Displaced(h, mid, down, Choose(down.bits, mid.cidr)) && h.cells[mid].peer == null
      requires h.FitsAt(mid, Choose(x.bits, mid.cidr), x) && h.Attached(k, mid, Choose(x.bits, mid.cidr), x)
      requires k.cells[x].peer != null && Unused(x.key)
      ensures k.Canonical() && k.Represents(routes[x.key := k.cells[x].peer])
    {
      DisplacedLinks(h, mid, down);
      GrownRepresents(h, mid, routes);
      h.AttachedLinks(k, mid, Choose(x.bits, mid.cidr), x);
      assert mid.key != x.key;
      h.GrownRepresents(k, x, routes);
      forall m | m in k.cells ensures k.Branches(m) {
        SplitBranches(h, k, x, down, mid, m);
      }
    }

    lemma SplitBranches(h: Graph, k: Graph, x: TrieEntry, down: TrieEntry, mid: TrieEntry, m: TrieEntry)
      requires Canonical() && FitsAround(x, down, mid) && Displaced(h, mid, down, Choose(down.bits, mid.cidr))
      requires h.FitsAt(mid, Choose(x.bits, mid.cidr), x) && h.Attached(k, mid, Choose(x.bits, mid.cidr), x)
      requires k.cells[x].peer != null && m in k.cells
      ensures k.Branches(m)
    {
      if m != x && m != mid { assert Branches(m); }
    }

    // ----- Removal

    /** Canonical except that `e`, if given, may lack a branch. */
    ghost predicate CanonicalBut(e: TrieEntry?) {
      Links() && forall m {:trigger Branches(m)} :: m in cells && m != e ==> Branches(m)
    }

    lemma ClearedCanonicalBut(h: Graph, n: TrieEntry, routes: map<Key, Peer>)
      requires Canonical() && Represents(routes) && Repeered(h, n) && h.cells[n].peer == null
      ensures h.CanonicalBut(n) && h.Represents(routes - {n.key})
    {
      RepeeredLinks(h, n);
      RepeeredRepresents(h, n, routes);
      forall m | m in h.cells && m != n ensures h.Branches(m) {
        assert Branches(m);
      }
    }

    lemma BranchingStill(n: TrieEntry)
      requires CanonicalBut(n) && n in cells && cells[n].child0 != null && cells[n].child1 != null
      ensures Canonical()
    {
    }

    /** Splicing out a peerless entry leaves at most its parent short of a branch. */
    lemma SplicedCanonicalBut(h: Graph, n: TrieEntry, routes: map<Key, Peer>)
      requires CanonicalBut(n) && Represents(routes) && Spliceable(n) && Spliced(h, n) && cells[n].peer == null
      ensures h.CanonicalBut(if OnlyChild(n) == null then cells[n].parent else null) && h.Represents(routes)
    {
      SplicedLinks(h, n);
      ShrunkRepresents(h, n, routes);
      forall m | m in h.cells && (OnlyChild(n) != null || m != cells[n].parent) ensures h.Branches(m) {
        assert Branches(m);
      }
    }

    lemma SplicedParent(h: Graph, n: TrieEntry)
      requires CanonicalBut(n) && Spliceable(n) && Spliced(h, n) && OnlyChild(n) == null
      requires cells[n].parent != null && cells[cells[n].parent].peer == null
      ensures cells[n].parent in h.cells && h.OnlyChild(cells[n].parent) != null && h.Spliceable(cells[n].parent)
    {
      var p := cells[n].parent;
      assert Linked(n) && Branches(p);
      SplicedLinks(h, n);
      h.IsSpliceable(p);
    }

    // ----- Where a new prefix goes

    lemma ReachedBit(parent: TrieEntry, x: TrieEntry)
      requires Links() && Reached(x.key, parent) && x.Sound()
      ensures parent.cidr < x.cidr && x.key[parent.cidr + 1] == Bits(x.bits)[parent.cidr]
      ensures parent.key + [Bits(x.bits)[parent.cidr]] <= x.key
    {
      assert Linked(parent);
      PrefixExtends(x.bits, parent.cidr, x.cidr);
      assert parent.key + [x.key[parent.cidr + 1]] == x.key[..parent.cidr + 2];
    }

    /** `down` blocks the walk towards the key of the new entry `x`, which has reached `parent`. */
    ghost predicate Blocked(parent: TrieEntry?, x: TrieEntry, down: TrieEntry) {
      && Links() && x !in cells && x.Sound()
      && Reached(x.key, parent) && Slot(x.key, parent) == down
      && down in cells && |down.bits| == |x.bits| && !(down.key <= x.key)
    }

    lemma BlockedSlot(parent: TrieEntry?, x: TrieEntry, down: TrieEntry)
      requires Blocked(parent, x, down)
      ensures down.Sound() && cells[down].parent == parent
      ensures parent != null ==> cells[down].up == Bit(x.key[parent.cidr + 1])
      ensures parent != null ==> parent.key + [x.key[parent.cidr + 1]] <= x.key
      ensures parent != null ==> parent.cidr < CommonBits(down.bits, x.bits)
    {
      assert Linked(down);
      if parent == null {
        assert LinkedRoot(x.key[0]);
      } else {
        assert Linked(parent);
        var k := parent.key + [x.key[parent.cidr + 1]];
        assert k == x.key[..parent.cidr + 2];
        SharedPrefix(down, x, k);
      }
    }

    /** The new prefix is a proper prefix of `down`. */
    lemma CoversBlocker(parent: TrieEntry?, x: TrieEntry, down: TrieEntry)
      requires Blocked(parent, x, down) && x.cidr <= CommonBits(down.bits, x.bits)
      ensures FitsAbove(x, down)
    {
      BlockedSlot(parent, x, down);
      TestHolds(x.bits, x.cidr, down);
      CommonBitsReach(x.bits, down.bits, x.cidr);
      TestHolds(down.bits, down.cidr, x);
      CommonIsSymmetric(x.bits, down.bits);
    }

    static lemma CommonIsSymmetric(a: seq<bv8>, b: seq<bv8>)
      requires IsAddress(a) && |a| == |b|
      ensures CommonBits(a, b) == CommonBits(b, a)
    {
      CommonBitsReach(a, b, CommonBits(b, a));
      CommonBitsReach(b, a, CommonBits(a, b));
    }

    /** The new prefix and `down` part at a bit where a branching entry `mid` is needed. */
    lemma SplitsBlocker(parent: TrieEntry?, x: TrieEntry, down: TrieEntry, mid: TrieEntry)
      requires Blocked(parent, x, down) && CommonBits(down.bits, x.bits) < x.cidr
      requires mid !in cells && mid.Sound() && |mid.bits| == |x.bits|
      requires mid.cidr == CommonBits(down.bits, x.bits) && mid.key == Prefix(x.bits, mid.cidr)
      ensures FitsAbove(mid, down)
      ensures mid.key + [Bits(x.bits)[mid.cidr]] <= x.key
      ensures Choose(x.bits, mid.cidr) == 1 - Choose(down.bits, mid.cidr)
    {
      BlockedSlot(parent, x, down);
      var c := mid.cidr;
      TestHolds(x.bits, x.cidr, down);
      assert c < down.cidr;
      assert Bits(x.bits)[..c] == Bits(down.bits)[..c];
      PrefixExtends(x.bits, c, x.cidr);
      PrefixExtends(down.bits, c, down.cidr);
      if parent != null {
        var k := parent.key + [x.key[parent.cidr + 1]];
        assert Linked(parent);
        assert k == x.key[..parent.cidr + 2];
        assert mid.key == x.key[..c + 1];
      }
    }

    static lemma PrefixExtends(ip: seq<bv8>, a: nat, b: nat)
      requires a < b <= 8 * |ip|
      ensures Prefix(ip, a) + [Bits(ip)[a]] <= Prefix(ip, b)
      ensures Prefix(ip, b)[a + 1] == Bits(ip)[a]
    {
      TakeExtends([|ip| == 16], Bits(ip), a, b);
    }

    static lemma TakeExtends(f: seq<bool>, s: seq<bool>, a: nat, b: nat)
      requires a < b <= |s| && |f| == 1
      ensures f + s[..a] + [s[a]] <= f + s[..b]
      ensures (f + s[..b])[a + 1] == s[a]
    {
      assert f + s[..a] + [s[a]] == (f + s[..b])[..a + 2];
    }

    /** Two keys that share their first `n + 1` elements come from addresses that share `n` bits. */
    static lemma SharedPrefix(d: TrieEntry, x: TrieEntry, k: Key)
      requires d.Sound() && x.Sound() && |d.bits| == |x.bits| && |k| > 0
      requires k <= d.key && k <= x.key
      ensures CommonBits(d.bits, x.bits) >= |k| - 1
    {
      var n := |k| - 1;
      TakeOfKey([|d.bits| == 16], Bits(d.bits), d.cidr, k);
      TakeOfKey([|x.bits| == 16], Bits(x.bits), x.cidr, k);
      CommonBitsReach(d.bits, x.bits, n);
    }

    static lemma TakeOfKey(f: seq<bool>, s: seq<bool>, cidr: nat, k: Key)
      requires cidr <= |s| && |f| == 1 && |k| > 0 && k <= f + s[..cidr]
      ensures s[..|k| - 1] == k[1..]
    {
      assert k == (f + s[..cidr])[..|k|];
    }

    static lemma MaskedPrefix(masked: seq<bv8>, ip: seq<bv8>, cidr: nat)
      requires IsMasked(masked, ip, cidr)
      ensures Prefix(masked, cidr) == Prefix(ip, cidr)
    {
      assert Bits(masked)[..cidr] == Bits(ip)[..cidr];
    }
  }

  // ----- The naive router

  /** Scan prefix lengths from the longest down. */
  function SlowLookup(routes: map<Key, Peer>, addr: Key, n: nat): (p: Peer?)
    requires n <= |addr|
  {
    if addr[..n] in routes then routes[addr[..n]]
    else if n == 0 then null
    else SlowLookup(routes, addr, n - 1)
  }

  /** `n` is the length of the longest stored prefix of `addr`. */
  ghost predicate LongestMatch(routes: map<Key, Peer>, addr: Key, n: nat) {
    && n <= |addr|
    && addr[..n] in routes
    && forall k :: k in routes && k <= addr ==> |k| <= n
  }

  lemma {:induction false} SlowLookupFinds(routes: map<Key, Peer>, addr: Key, n: nat, m: nat)
    requires LongestMatch(routes, addr, n) && n <= m <= |addr|
    ensures SlowLookup(routes, addr, m) == routes[addr[..n]]
  {
    if m <= n {
    } else {
      assert addr[..m] <= addr;
      SlowLookupFinds(routes, addr, n, m - 1);
    }
  }

  lemma {:induction false} SlowLookupMisses(routes: map<Key, Peer>, addr: Key, m: nat)
    requires m <= |addr|
    requires forall k :: k in routes ==> !(k <= addr)
    ensures SlowLookup(routes, addr, m) == null
  {
    assert addr[..m] <= addr;
    if m == 0 {
    } else {
      SlowLookupMisses(routes, addr, m - 1);
    }
  }
}
