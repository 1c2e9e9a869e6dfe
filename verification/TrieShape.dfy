/** Canonicity: the prefix map determines the shape of the trie.

  Two canonical graphs that stand for the same prefix map are the same tree up to the
  identity of their entries, and a root slot is empty exactly when no prefix of its
  family is stored.
 */
module TrieShape {
  import opened TrieGraph

  /** A trie without the identity of its entries. */
  datatype Tree = Empty | Node(key: Key, peer: Peer?, zero: Tree, one: Tree)

  ghost function ShapeOf(g: Graph, n: TrieEntry?): Tree
    requires g.Links() && (n != null ==> n in g.cells)
    decreases if n == null then 0 else 200 - n.cidr
  {
    if n == null then Empty
    else
      assert g.Linked(n);
      var c := g.cells[n];
      assert c.child0 != null ==> g.Linked(c.child0);
      assert c.child1 != null ==> g.Linked(c.child1);
      Node(n.key, c.peer, ShapeOf(g, c.child0), ShapeOf(g, c.child1))
  }

  /** Every subtree of a canonical trie holds a stored prefix. */
  lemma HoldsPeer(g: Graph, n: TrieEntry) returns (m: TrieEntry)
    requires g.Canonical() && n in g.cells
    ensures m in g.cells && g.Above(n, m) && g.cells[m].peer != null
    decreases 200 - n.cidr
  {
    assert g.Linked(n) && g.Branches(n);
    if g.cells[n].peer != null {
      m := n;
    } else {
      var c := g.cells[n].child0;
      assert g.Linked(c);
      m := HoldsPeer(g, c);
      Transitive(g, n, c, m);
    }
  }

  lemma {:induction false} Transitive(g: Graph, p: TrieEntry, c: TrieEntry, m: TrieEntry)
    requires g.Links() && p in g.cells && c in g.cells && m in g.cells
    requires g.cells[c].parent == p && g.Above(c, m)
    ensures g.Above(p, m)
    decreases m.cidr
  {
    assert g.Linked(m);
    if m != c {
      Transitive(g, p, c, g.cells[m].parent);
    } else {
      assert g.Above(p, p);
    }
  }

  /** A stored prefix below the given branch of an entry. */
  lemma HoldsPeerAt(g: Graph, n: TrieEntry, bit: nat) returns (m: TrieEntry)
    requires g.Canonical() && n in g.cells && bit < 2 && g.cells[n].Child(bit) != null
    ensures m in g.cells && g.cells[m].peer != null && n.key + [bit == 1] <= m.key
  {
    assert g.Linked(n);
    var c := g.cells[n].Child(bit);
    assert g.Linked(c);
    m := HoldsPeer(g, c);
    g.AboveIsPrefix(c, m);
  }

  lemma NextBit(k: Key, x: bool, c: Key, a: Key)
    requires k + [x] <= a && c <= a
    ensures |c| > |k| ==> c[|k|] == x
    ensures |c| <= |k| ==> c <= k
  {
    assert a[|k|] == (k + [x])[|k|];
    assert a[..|k|] == k;
  }

  /** Where two entries part, there is an entry. */
  lemma {:induction false} Fork(g: Graph, k: Key, r: TrieEntry, a: TrieEntry, b: TrieEntry) returns (e: TrieEntry)
    requires g.Links() && r in g.cells && a in g.cells && b in g.cells
    requires g.Above(r, a) && g.Above(r, b) && r.key <= k
    requires k + [false] <= a.key && k + [true] <= b.key
    ensures e in g.cells && e.key == k
    decreases |k| - |r.key|
  {
    assert g.Linked(r);
    if |r.key| == |k| {
      e := r;
    } else {
      g.StepDown(r, a);
      g.StepDown(r, b);
      assert a.key[r.cidr + 1] == k[r.cidr + 1] == b.key[r.cidr + 1];
      var c := g.cells[r].Child(Bit(k[r.cidr + 1]));
      g.AboveIsPrefix(c, a);
      g.AboveIsPrefix(c, b);
      assert g.Linked(c);
      NextBit(k, false, c.key, a.key);
      NextBit(k, true, c.key, b.key);
      e := Fork(g, k, c, a, b);
    }
  }

  lemma StoredEntry(g: Graph, routes: map<Key, Peer>, k: Key) returns (n: TrieEntry)
    requires g.Links() && g.Represents(routes) && k in routes
    ensures n in g.cells && n.key == k && g.cells[n].peer == routes[k]
  {
    assert g.Stored(k);
    n :| n in g.cells && n.key == k && g.cells[n].peer != null;
    assert g.Routed(routes, n);
  }

  /** Tries with the same prefix map have entries for the same prefixes, with the same peers. */
  lemma SameEntries(g: Graph, h: Graph, routes: map<Key, Peer>, n: TrieEntry) returns (m: TrieEntry)
    requires g.Canonical() && h.Canonical() && g.Represents(routes) && h.Represents(routes) && n in g.cells
    ensures m in h.cells && m.key == n.key
  {
    assert g.Linked(n) && g.Branches(n);
    if g.cells[n].peer != null {
      assert g.Routed(routes, n);
      m := StoredEntry(h, routes, n.key);
    } else {
      var a := HoldsPeerAt(g, n, 0);
      var b := HoldsPeerAt(g, n, 1);
      assert g.Routed(routes, a) && g.Routed(routes, b);
      var a' := StoredEntry(h, routes, a.key);
      var b' := StoredEntry(h, routes, b.key);
      assert n.key[0] == a.key[0] == b.key[0];
      h.Beyond(a.key, null, a');
      h.Beyond(b.key, null, b');
      var r := h.Root(n.key[0]);
      h.AboveIsPrefix(r, a');
      h.AboveIsPrefix(r, b');
      NextBit(n.key, false, r.key, a.key);
      NextBit(n.key, true, r.key, b.key);
      m := Fork(h, n.key, r, a', b');
    }
  }

  lemma SamePeer(g: Graph, h: Graph, routes: map<Key, Peer>, n: TrieEntry, m: TrieEntry)
    requires g.Links() && h.Links() && g.Represents(routes) && h.Represents(routes)
    requires n in g.cells && m in h.cells && n.key == m.key
    ensures g.cells[n].peer == h.cells[m].peer
  {
    assert g.Routed(routes, n) && h.Routed(routes, m);
    if g.cells[n].peer != null {
      var m' := StoredEntry(h, routes, n.key);
      h.SameKey(m, m');
    } else if h.cells[m].peer != null {
      var n' := StoredEntry(g, routes, n.key);
      g.SameKey(n, n');
    }
  }

  /** An entry below `n` on the side `bit` forces a child on that side whose key it extends. */
  lemma ChildTowards(g: Graph, n: TrieEntry, bit: nat, m: TrieEntry)
    requires g.Links() && n in g.cells && m in g.cells && bit < 2 && n.key + [bit == 1] <= m.key
    ensures var c := g.cells[n].Child(bit); c != null && c in g.cells && c.key <= m.key
  {
    assert g.Linked(n) && g.Linked(m);
    assert n.key <= n.key + [bit == 1] <= m.key;
    g.OnePath(m.key, n, m);
    g.StepDown(n, m);
    assert m.key[n.cidr + 1] == (n.key + [bit == 1])[n.cidr + 1];
    g.AboveIsPrefix(g.cells[n].Child(bit), m);
  }

  lemma SameChild(g: Graph, h: Graph, routes: map<Key, Peer>, n: TrieEntry, m: TrieEntry, bit: nat)
    requires g.Canonical() && h.Canonical() && g.Represents(routes) && h.Represents(routes)
    requires n in g.cells && m in h.cells && n.key == m.key && bit < 2
    requires g.cells[n].Child(bit) != null
    ensures h.cells[m].Child(bit) != null && h.cells[m].Child(bit).key <= g.cells[n].Child(bit).key
  {
    assert g.Linked(n);
    var c := g.cells[n].Child(bit);
    assert g.Linked(c);
    var c' := SameEntries(g, h, routes, c);
    ChildTowards(h, m, bit, c');
  }

  lemma {:induction false} SameShapeAt(g: Graph, h: Graph, routes: map<Key, Peer>, n: TrieEntry?, m: TrieEntry?)
    requires g.Canonical() && h.Canonical() && g.Represents(routes) && h.Represents(routes)
    requires n != null ==> n in g.cells
    requires m != null ==> m in h.cells
    requires (n == null <==> m == null) && (n != null ==> n.key == m.key)
    ensures ShapeOf(g, n) == ShapeOf(h, m)
    decreases if n == null then 0 else 200 - n.cidr
  {
    if n == null {
    } else {
      assert g.Linked(n) && h.Linked(m);
      SamePeer(g, h, routes, n, m);
      SameBranch(g, h, routes, n, m, 0);
      SameBranch(g, h, routes, n, m, 1);
      SameShapeAt(g, h, routes, g.cells[n].child0, h.cells[m].child0);
      SameShapeAt(g, h, routes, g.cells[n].child1, h.cells[m].child1);
    }
  }

  lemma SameBranch(g: Graph, h: Graph, routes: map<Key, Peer>, n: TrieEntry, m: TrieEntry, bit: nat)
    requires g.Canonical() && h.Canonical() && g.Represents(routes) && h.Represents(routes)
    requires n in g.cells && m in h.cells && n.key == m.key && bit < 2
    ensures var c, d := g.cells[n].Child(bit), h.cells[m].Child(bit);
      && (c == null <==> d == null)
      && (c != null ==> c in g.cells && d in h.cells && c.key == d.key && n.cidr < c.cidr <= 128)
  {
    assert g.Linked(n) && h.Linked(m);
    var c, d := g.cells[n].Child(bit), h.cells[m].Child(bit);
    if c != null { SameChild(g, h, routes, n, m, bit); assert g.Linked(c); }
    if d != null { SameChild(h, g, routes, m, n, bit); }
  }

  /** A root slot is empty exactly when no prefix of its family is stored. */
  lemma RootEmptyIffNoPrefix(g: Graph, routes: map<Key, Peer>, v6: bool)
    requires g.Canonical() && g.Represents(routes)
    ensures g.Root(v6) == null <==> forall k :: k in routes ==> !([v6] <= k)
  {
    assert g.LinkedRoot(v6);
    if g.Root(v6) != null {
      var r := g.Root(v6);
      assert g.Linked(r);
      var m := HoldsPeer(g, r);
      g.AboveIsPrefix(r, m);
      assert g.Routed(routes, m);
      assert [v6] <= m.key;
    }
    forall k | k in routes && [v6] <= k ensures g.Root(v6) != null {
      var m := StoredEntry(g, routes, k);
      g.Beyond(k, null, m);
    }
  }

  /** The prefix map determines the whole shape. */
  lemma SameShape(g: Graph, h: Graph, routes: map<Key, Peer>, v6: bool)
    requires g.Canonical() && h.Canonical() && g.Represents(routes) && h.Represents(routes)
    ensures (g.Root(v6) != null ==> g.Root(v6) in g.cells) && (h.Root(v6) != null ==> h.Root(v6) in h.cells)
    ensures ShapeOf(g, g.Root(v6)) == ShapeOf(h, h.Root(v6))
  {
    assert g.LinkedRoot(v6) && h.LinkedRoot(v6);
    RootEmptyIffNoPrefix(g, routes, v6);
    RootEmptyIffNoPrefix(h, routes, v6);
    var r, s := g.Root(v6), h.Root(v6);
    if r != null {
      RootPrecedes(g, h, routes, v6);
      RootPrecedes(h, g, routes, v6);
      SameShapeAt(g, h, routes, r, s);
    }
  }

  lemma RootPrecedes(g: Graph, h: Graph, routes: map<Key, Peer>, v6: bool)
    requires g.Canonical() && h.Canonical() && g.Represents(routes) && h.Represents(routes)
    requires g.Root(v6) != null && h.Root(v6) != null
    ensures h.Root(v6).key <= g.Root(v6).key
  {
    var r := g.Root(v6);
    assert g.LinkedRoot(v6) && g.Linked(r);
    var s := SameEntries(g, h, routes, r);
    h.Beyond(r.key, null, s);
    h.AboveIsPrefix(h.Root(v6), s);
  }
}
