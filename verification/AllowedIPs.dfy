/** The allowed-IPs routing table of device/allowedips.go on the heap.

  The table carries its set of entries, the peers it knows and the plain prefix map it
  stands for as ghost state; `Valid` ties all three to the linked structure.
 */
module AllowedIps {
  import opened AddressBits
  import opened Sequences
  import opened TrieGraph

  /** A configuration step on the table. */
  datatype Op =
    | InsertOp(ip: seq<bv8>, cidr: nat, peer: Peer)
    | RemoveOp(ip: seq<bv8>, cidr: nat, peer: Peer)
    | RemoveByPeerOp(peer: Peer)
  {
    predicate Sound() {
      RemoveByPeerOp? || (IsAddress(ip) && cidr <= 8 * |ip|)
    }

    /** What the step does to a plain map from prefixes to peers. */
    function Apply(routes: map<Key, Peer>): map<Key, Peer> {
      match this
      case InsertOp(ip, cidr, peer) => routes[Prefix(ip, cidr) := peer]
      case RemoveOp(ip, cidr, peer) =>
        var k := Prefix(ip, cidr);
        if k in routes && routes[k] == peer then routes - {k} else routes
      case RemoveByPeerOp(peer) => map k | k in routes && routes[k] != peer :: routes[k]
    }
  }

  function ApplyAll(ops: seq<Op>, routes: map<Key, Peer>): map<Key, Peer> {
    if ops == [] then routes else ops[|ops| - 1].Apply(ApplyAll(ops[..|ops| - 1], routes))
  }

  class AllowedIPs {
    var IPv4: TrieEntry?
    var IPv6: TrieEntry?
    ghost var nodes: set<TrieEntry>
    ghost var peers: set<Peer>
    ghost var routes: map<Key, Peer>

    constructor ()
      ensures Valid() && routes == map[] && nodes == {} && peers == {}
    {
      IPv4, IPv6, nodes, peers, routes := null, null, {}, {}, map[];
    }

    ghost function Wiring(): Graph
      reads this`IPv4, this`IPv6, this`nodes
      reads nodes`peer, nodes`parent, nodes`parentBitType, nodes`child0, nodes`child1
    {
      Graph(IPv4, IPv6, map n | n in nodes :: Cell(n.peer, n.parent, n.parentBitType, n.child0, n.child1))
    }

    /** The list of a peer holds exactly the entries that carry it, each once. */
    ghost predicate ListWithin(s: set<TrieEntry>, p: Peer)
      reads s`peer, p`trieEntries
    {
      && (forall n :: n in p.trieEntries ==> n in s && n.peer == p)
      && (forall n :: n in s && n.peer == p ==> n in p.trieEntries)
      && Distinct(p.trieEntries)
    }

    ghost predicate ListOf(p: Peer)
      reads this`nodes, nodes`peer, p`trieEntries
    {
      ListWithin(nodes, p)
    }

    ghost predicate Listed(n: TrieEntry)
      reads this`peers, n`peer, n`perPeerElem
    {
      n.perPeerElem == (n.peer != null) && (n.peer != null ==> n.peer in peers)
    }

    ghost predicate Lists()
      reads this`nodes, this`peers, nodes`peer, nodes`perPeerElem, peers`trieEntries
    {
      && (forall p {:trigger ListOf(p)} :: p in peers ==> ListOf(p))
      && (forall n {:trigger Listed(n)} :: n in nodes ==> Listed(n))
    }

    ghost predicate Valid()
      reads this, nodes, peers
    {
      Wiring().Canonical() && Wiring().Represents(routes) && Lists()
    }

    function Root(v6: bool): TrieEntry?
      reads this
    {
      if v6 then IPv6 else IPv4
    }

    function Child(n: TrieEntry, bit: nat): TrieEntry?
      reads n
    {
      if bit == 0 then n.child0 else n.child1
    }

    // ----- Reading

    /** The deepest entry whose prefix covers `ip/cidr`; `exact` when it is that very prefix. */
    method NodePlacement(ip: seq<bv8>, cidr: nat) returns (parent: TrieEntry?, exact: bool)
      requires Wiring().Links() && IsAddress(ip) && cidr <= 8 * |ip|
      ensures parent != null ==> parent in nodes && parent.key <= Prefix(ip, cidr)
      ensures exact == (parent != null && parent.cidr == cidr)
      ensures !exact ==> Wiring().Reached(Prefix(ip, cidr), parent)
      ensures !exact ==> var d := Wiring().Slot(Prefix(ip, cidr), parent);
        d != null ==> d in nodes && |d.bits| == |ip| && !(d.key <= Prefix(ip, cidr))
      ensures !exact ==> forall m :: m in nodes ==> m.key != Prefix(ip, cidr)
    {
      ghost var g := Wiring();
      var node := Root(|ip| == 16);
      parent, exact := null, false;
      g.WalkStart(ip, cidr);
      while node != null && node.cidr <= cidr && CommonBits(node.bits, ip) >= node.cidr
        invariant g.Walking(ip, cidr, parent, node)
        decreases if node == null then 0 else 1 + 8 * |ip| - node.cidr
      {
        if node.cidr == cidr {
          return node, true;
        }
        g.WalkStep(ip, cidr, parent, node);
        parent := node;
        var bit := Choose(ip, node.cidr);
        node := Child(node, bit);
      }
      forall m | m in nodes ensures m.key != Prefix(ip, cidr) {
        if m.key == Prefix(ip, cidr) {
          assert g.Linked(m);
          g.WalkEnd(ip, cidr, parent, node, m);
        }
      }
    }

    /** The peer of the longest stored prefix covering `ip`. */
    method Lookup(ip: seq<bv8>) returns (found: Peer?)
      requires Valid() && IsAddress(ip)
      ensures found == SlowLookup(routes, Prefix(ip, 8 * |ip|), 8 * |ip| + 1)
    {
      ghost var g, full := Wiring(), 8 * |ip|;
      var node := Root(|ip| == 16);
      found := null;
      ghost var last: TrieEntry?, best: TrieEntry? := null, null;
      g.WalkStart(ip, full);
      while node != null && CommonBits(node.bits, ip) >= node.cidr
        invariant g.Walking(ip, full, last, node)
        invariant g.Best(Prefix(ip, full), if last == null then -1 else last.cidr, best)
        invariant best != null ==> last != null && best.cidr <= last.cidr
        invariant found == if best == null then null else best.peer
        decreases if node == null then 0 else 1 + 8 * |ip| - node.cidr
      {
        g.BestStep(Prefix(ip, full), last, best, node);
        if node.peer != null {
          found := node.peer;
          best := node;
        }
        if node.cidr / 8 == |ip| {
          break;
        }
        g.WalkStep(ip, full, last, node);
        var bit := Choose(ip, node.cidr);
        last := node;
        node := Child(node, bit);
      }
      if !(node != null && node.key <= Prefix(ip, full)) {
        g.BestEnd(ip, last, node, best);
      }
      g.BestIsLongestMatch(routes, ip, best);
    }

    // ----- Relinking

    /** Writes the slot described by an entry and a branch bit. */
    method SetSlot(parent: TrieEntry?, bit: nat, v6: bool, child: TrieEntry?)
      requires parent != null ==> parent in nodes
      modifies this`IPv4, this`IPv6, nodes`child0, nodes`child1
      ensures parent != null ==> IPv4 == old(IPv4) && IPv6 == old(IPv6)
      ensures parent == null ==> Root(v6) == child && Root(!v6) == old(Root(!v6))
      ensures parent != null && bit == 0 ==> parent.child0 == child && parent.child1 == old(parent.child1)
      ensures parent != null && bit != 0 ==> parent.child1 == child && parent.child0 == old(parent.child0)
      ensures forall n :: n in nodes && n != parent ==> n.child0 == old(n.child0) && n.child1 == old(n.child1)
    {
      if parent == null {
        if v6 { IPv6 := child; } else { IPv4 := child; }
      } else if bit == 0 {
        parent.child0 := child;
      } else {
        parent.child1 := child;
      }
    }

    method Attach(parent: TrieEntry?, bit: nat, x: TrieEntry)
      requires Wiring().Hangable(parent, x) && x.child0 == null && x.child1 == null
      modifies this`IPv4, this`IPv6, this`nodes, nodes`child0, nodes`child1, x`parent, x`parentBitType
      ensures old(Wiring()).Attached(Wiring(), parent, bit, x)
      ensures nodes == old(nodes) + {x}
    {
      SetSlot(parent, bit, |x.bits| == 16, x);
      x.parent, x.parentBitType := parent, bit;
      nodes := nodes + {x};
    }

    method PutAbove(x: TrieEntry, down: TrieEntry)
      requires Wiring().Placeable(x, down) && x.child0 == null && x.child1 == null && x.cidr < 8 * |down.bits|
      modifies this`IPv4, this`IPv6, this`nodes, x`parent, x`parentBitType, x`child0, x`child1
      modifies nodes`child0, nodes`child1, nodes`parent, nodes`parentBitType
      ensures old(Wiring()).Displaced(Wiring(), x, down, Choose(down.bits, x.cidr))
      ensures nodes == old(nodes) + {x}
    {
      hide Choose, Graph.Displaced;
      ghost var g := Wiring();
      var bit := Choose(down.bits, x.cidr);
      TakeSlot(x, down);
      ghost var mid := Wiring();
      HangBelow(x, down, bit);
      g.DisplacedInTwo(mid, Wiring(), x, down, bit);
    }

    /** The slot of `down` passes to the new entry `x`. */
    method TakeSlot(x: TrieEntry, down: TrieEntry)
      requires Wiring().Placeable(x, down) && x.child0 == null && x.child1 == null
      modifies this`IPv4, this`IPv6, this`nodes, nodes`child0, nodes`child1, x`parent, x`parentBitType
      ensures old(Wiring()).TakenSlot(Wiring(), x, down)
      ensures nodes == old(nodes) + {x} && x.child0 == null && x.child1 == null
    {
      var parent, up := down.parent, down.parentBitType;
      SetSlot(parent, up, |x.bits| == 16, x);
      x.parent, x.parentBitType := parent, up;
      nodes := nodes + {x};
    }

    /** `down` hangs below `x`. */
    method HangBelow(x: TrieEntry, down: TrieEntry, bit: nat)
      requires x in nodes && down in nodes && x != down
      modifies x`child0, x`child1, down`parent, down`parentBitType
      ensures old(Wiring()).HungBelow(Wiring(), x, down, bit)
    {
      down.parent, down.parentBitType := x, bit;
      if bit == 0 { x.child0 := down; } else { x.child1 := down; }
    }

    method SpliceOut(n: TrieEntry)
      requires Wiring().Spliceable(n)
      modifies this`IPv4, this`IPv6, this`nodes
      modifies nodes`child0, nodes`child1, nodes`parent, nodes`parentBitType
      ensures old(Wiring()).Spliced(Wiring(), n)
      ensures nodes == old(nodes) - {n}
    {
      var child := if n.child0 == null then n.child1 else n.child0;
      if child != null {
        child.parent, child.parentBitType := n.parent, n.parentBitType;
      }
      SetSlot(n.parent, n.parentBitType, |n.bits| == 16, child);
      nodes := nodes - {n};
      // zeroizePointers
      n.child0, n.child1, n.parent := null, null, null;
    }

    // ----- Insert

    method LinkLeaf(parent: TrieEntry?, bit: nat, x: TrieEntry)
      requires Wiring().Canonical() && Wiring().Represents(routes) && Wiring().FitsAt(parent, bit, x)
      requires x.peer != null && x.child0 == null && x.child1 == null && Wiring().Unused(x.key)
      modifies this`IPv4, this`IPv6, this`nodes, nodes`child0, nodes`child1, x`parent, x`parentBitType
      ensures Wiring().Canonical() && Wiring().Represents(routes[x.key := x.peer])
      ensures nodes == old(nodes) + {x}
    {
      ghost var g := Wiring();
      Attach(parent, bit, x);
      g.AttachedCanonical(Wiring(), parent, bit, x, routes);
    }

    method LinkAbove(x: TrieEntry, down: TrieEntry)
      requires Wiring().Canonical() && Wiring().Represents(routes) && Wiring().FitsAbove(x, down)
      requires x.peer != null && x.child0 == null && x.child1 == null && Wiring().Unused(x.key)
      modifies this`IPv4, this`IPv6, this`nodes, x`parent, x`parentBitType, x`child0, x`child1
      modifies nodes`child0, nodes`child1, nodes`parent, nodes`parentBitType
      ensures Wiring().Canonical() && Wiring().Represents(routes[x.key := x.peer])
      ensures nodes == old(nodes) + {x}
    {
      ghost var g := Wiring();
      PutAbove(x, down);
      g.DisplacedCanonical(Wiring(), x, down, routes);
    }

    method LinkSplit(x: TrieEntry, down: TrieEntry, mid: TrieEntry)
      requires Wiring().Canonical() && Wiring().Represents(routes) && Wiring().FitsAround(x, down, mid)
      requires x.peer != null && x.child0 == null && x.child1 == null && Wiring().Unused(x.key)
      requires mid.peer == null && mid.child0 == null && mid.child1 == null
      modifies this`IPv4, this`IPv6, this`nodes, x`parent, x`parentBitType
      modifies mid`parent, mid`parentBitType, mid`child0, mid`child1
      modifies nodes`child0, nodes`child1, nodes`parent, nodes`parentBitType
      ensures Wiring().Canonical() && Wiring().Represents(routes[x.key := x.peer])
      ensures nodes == old(nodes) + {x, mid}
    {
      hide Graph.Canonical, Graph.Represents, Graph.Displaced, Graph.Attached, Graph.FitsAround, Graph.FitsAt, Graph.Unused;
      ghost var g := Wiring();
      g.AroundPlaceable(x, down, mid);
      PutAbove(mid, down);
      ghost var h := Wiring();
      var bit := Choose(x.bits, mid.cidr);
      g.SplitFits(h, x, down, mid);
      Attach(mid, bit, x);
      g.SplitCanonical(h, Wiring(), x, down, mid, routes);
    }

    /** A new entry `x` for a prefix that no entry holds yet. */
    ghost predicate NewPrefix(parent: TrieEntry?, x: TrieEntry)
      reads this, nodes, x
    {
      && x !in nodes && x.Sound() && x.peer != null && x.child0 == null && x.child1 == null
      && Wiring().Reached(x.key, parent)
      && Wiring().Unused(x.key)
      && var d := Wiring().Slot(x.key, parent);
         d != null ==> d in nodes && |d.bits| == |x.bits| && !(d.key <= x.key)
    }

    /** Links the new entry `x` below `parent`, the deepest entry covering it. */
    method Link(parent: TrieEntry?, x: TrieEntry)
      requires Wiring().Canonical() && Wiring().Represents(routes) && NewPrefix(parent, x)
      modifies this`IPv4, this`IPv6, this`nodes, x`parent, x`parentBitType, x`child0, x`child1
      modifies nodes`child0, nodes`child1, nodes`parent, nodes`parentBitType
      ensures Wiring().Canonical() && Wiring().Represents(routes[x.key := x.peer])
      ensures nodes >= old(nodes) + {x}
      ensures forall n :: n in nodes && n !in old(nodes) && n != x ==> fresh(n) && n.peer == null && !n.perPeerElem
    {
      ghost var g := Wiring();
      var down: TrieEntry?;
      if parent == null {
        down := Root(|x.bits| == 16);
        if down == null {
          LinkLeaf(parent, 2, x);
          return;
        }
      } else {
        var bit := Choose(x.bits, parent.cidr);
        g.ReachedBit(parent, x);
        down := Child(parent, bit);
        if down == null {
          LinkLeaf(parent, bit, x);
          return;
        }
      }
      assert g.Blocked(parent, x, down);
      var common := CommonBits(down.bits, x.bits);
      if x.cidr <= common {
        g.CoversBlocker(parent, x, down);
        LinkAbove(x, down);
      } else {
        LinkBranch(parent, x, down);
      }
    }

    /** A branching entry is created where the new prefix and `down` part. */
    method LinkBranch(parent: TrieEntry?, x: TrieEntry, down: TrieEntry)
      requires Wiring().Canonical() && Wiring().Represents(routes) && Wiring().Blocked(parent, x, down)
      requires x.peer != null && x.child0 == null && x.child1 == null && Wiring().Unused(x.key)
      requires CommonBits(down.bits, x.bits) < x.cidr
      modifies this`IPv4, this`IPv6, this`nodes, x`parent, x`parentBitType
      modifies nodes`child0, nodes`child1, nodes`parent, nodes`parentBitType
      ensures Wiring().Canonical() && Wiring().Represents(routes[x.key := x.peer])
      ensures nodes >= old(nodes) + {x}
      ensures forall n :: n in nodes && n !in old(nodes) && n != x ==> fresh(n) && n.peer == null && !n.perPeerElem
    {
      var common := CommonBits(down.bits, x.bits);
      var masked := MaskSelf(x.bits, common);
      var mid := new TrieEntry(masked, common, null);
      Graph.MaskedPrefix(masked, x.bits, common);
      Wiring().SplitsBlocker(parent, x, down, mid);
      LinkSplit(x, down, mid);
    }

    // ----- Peers and their lists

    /** The entry leaves the list of its peer, if it has one. */
    method Unpeer(node: TrieEntry)
      requires Lists() && node in nodes
      modifies node`peer, node`perPeerElem, peers`trieEntries
      ensures old(Wiring()).Repeered(Wiring(), node) && node.peer == null && Lists()
      ensures old(node.peer) != null ==> old(node.peer).trieEntries == Without(old(node.peer.trieEntries), node)
    {
      assert Listed(node);
      var q := node.peer;
      if q != null {
        assert ListOf(q);
        WithoutIs(q.trieEntries, node);
        q.trieEntries := Without(q.trieEntries, node);
      }
      node.perPeerElem := false;
      node.peer := null;
      forall r | r in peers ensures ListOf(r) {
        assert old(ListOf(r));
      }
      forall n | n in nodes ensures Listed(n) {
        assert old(Listed(n));
      }
    }

    /** A peerless entry joins the list of `p`. */
    method Endow(node: TrieEntry, p: Peer)
      requires Lists() && node in nodes && node.peer == null && p in peers
      modifies node`peer, node`perPeerElem, p`trieEntries
      ensures old(Wiring()).Repeered(Wiring(), node) && node.peer == p && Lists()
    {
      assert node !in p.trieEntries by { assert ListOf(p); }
      node.peer := p;
      p.trieEntries := p.trieEntries + [node];
      node.perPeerElem := true;
      forall r | r in peers ensures ListOf(r) {
        assert old(ListOf(r));
      }
      forall n | n in nodes ensures Listed(n) {
        assert old(Listed(n));
      }
    }

    /** Appends the freshly linked entry `x` to the list of its peer. */
    method Enlist(x: TrieEntry, ghost before: set<TrieEntry>)
      requires x in nodes && x !in before && before <= nodes && x.peer != null && x.peer in peers
      requires forall n :: n in nodes && n !in before && n != x ==> n.peer == null && !n.perPeerElem
      requires forall n :: n in before ==> Listed(n)
      requires forall p :: p in peers ==> ListWithin(before, p)
      modifies x`perPeerElem, x.peer`trieEntries
      ensures Lists()
    {
      var p := x.peer;
      assert ListWithin(before, p);
      p.trieEntries := p.trieEntries + [x];
      x.perPeerElem := true;
      forall r | r in peers ensures ListOf(r) {
        assert old(ListWithin(before, r));
      }
    }

    // ----- The operations

    /** Stores `ip/cidr` for `peer`, replacing the peer of that prefix if there is one. */
    method Insert(ip: seq<bv8>, cidr: nat, peer: Peer)
      requires Valid() && IsAddress(ip) && cidr <= 8 * |ip|
      requires peer in peers || peer.trieEntries == []
      modifies this, nodes, peers, peer
      ensures Valid() && routes == old(routes)[Prefix(ip, cidr) := peer]
      ensures peers == old(peers) + {peer} && fresh(nodes - old(nodes))
    {
      AdmitPeer(peer);
      hide Lists, Graph.Linked, Graph.Branches, Graph.Represents;
      var node, exact := NodePlacement(ip, cidr);
      if exact {
        Wiring().ExactKey(node, ip, cidr);
        Reassign(node, peer);
      } else {
        InsertNew(node, ip, cidr, peer);
      }
    }

    method InsertNew(parent: TrieEntry?, ip: seq<bv8>, cidr: nat, peer: Peer)
      requires Valid() && IsAddress(ip) && cidr <= 8 * |ip| && peer in peers
      requires Wiring().Reached(Prefix(ip, cidr), parent) && Wiring().Unused(Prefix(ip, cidr))
      requires var d := Wiring().Slot(Prefix(ip, cidr), parent);
        d != null ==> d in nodes && |d.bits| == |ip| && !(d.key <= Prefix(ip, cidr))
      modifies this`IPv4, this`IPv6, this`nodes, this`routes, nodes`child0, nodes`child1, nodes`parent, nodes`parentBitType
      modifies peer`trieEntries
      ensures Valid() && routes == old(routes)[Prefix(ip, cidr) := peer] && fresh(nodes - old(nodes))
    {
      hide Valid;
      var masked := MaskSelf(ip, cidr);
      var x := new TrieEntry(masked, cidr, peer);
      Graph.MaskedPrefix(masked, ip, cidr);
      Store(parent, x, peer);
    }

    method Reassign(node: TrieEntry, peer: Peer)
      requires Valid() && node in nodes && peer in peers
      modifies this`routes, node`peer, node`perPeerElem, peers`trieEntries
      ensures Valid() && routes == old(routes)[node.key := peer]
    {
      hide Lists, Graph.Canonical, Graph.Represents;
      ghost var g := Wiring();
      Unpeer(node);
      Endow(node, peer);
      g.RepeeredCanonical(Wiring(), node, routes);
      routes := routes[node.key := peer];
    }

    method Store(parent: TrieEntry?, x: TrieEntry, peer: Peer)
      requires Valid() && NewPrefix(parent, x) && x.peer == peer && peer in peers && !x.perPeerElem
      modifies this`IPv4, this`IPv6, this`nodes, this`routes, nodes`child0, nodes`child1, nodes`parent, nodes`parentBitType
      modifies x`parent, x`parentBitType, x`child0, x`child1, x`perPeerElem, peer`trieEntries
      ensures Valid() && routes == old(routes)[x.key := peer]
      ensures forall n :: n in nodes && n !in old(nodes) && n != x ==> fresh(n)
    {
      hide Graph.Canonical, Graph.Represents, NewPrefix;
      ghost var before := nodes;
      Link(parent, x);
      forall n | n in before ensures Listed(n) { assert old(Listed(n)); }
      forall p | p in peers ensures ListWithin(before, p) { assert old(ListOf(p)); }
      Enlist(x, before);
      routes := routes[x.key := peer];
    }

    ghost method AdmitPeer(peer: Peer)
      requires Valid() && (peer in peers || peer.trieEntries == [])
      modifies this`peers
      ensures Valid() && peers == old(peers) + {peer}
    {
      peers := peers + {peer};
      forall n | n in nodes ensures Listed(n) {
        assert old(Listed(n));
      }
      forall r | r in peers ensures ListOf(r) {
        if r in old(peers) { assert old(ListOf(r)); } else { assert forall n :: n in nodes ==> old(Listed(n)); }
      }
    }

    /** Takes the peer off `node` and removes the entries that no longer branch. */
    method RemoveNode(node: TrieEntry)
      requires Valid() && node in nodes && node.peer != null
      modifies this, nodes, peers`trieEntries
      ensures Valid() && routes == old(routes) - {node.key} && nodes <= old(nodes) && peers == old(peers)
      ensures forall n :: n in nodes && n != node ==> n.peer == old(n.peer)
      ensures old(node.peer).trieEntries == Without(old(node.peer.trieEntries), node)
    {
      hide Lists, Graph.Represents, Graph.Canonical, Graph.CanonicalBut;
      Unroute(node);
      if node.child0 == null || node.child1 == null {
        Prune(node);
      } else {
        Wiring().BranchingStill(node);
      }
    }

    /** Takes the peer off `node`; at most `node` then fails to branch. */
    method Unroute(node: TrieEntry)
      requires Valid() && node in nodes && node.peer != null
      modifies this`routes, node`peer, node`perPeerElem, peers`trieEntries
      ensures Wiring().CanonicalBut(node) && Wiring().Represents(routes) && Lists() && routes == old(routes) - {node.key}
      ensures node.peer == null && old(node.peer).trieEntries == Without(old(node.peer.trieEntries), node)
    {
      hide Lists, Graph.Represents, Graph.Canonical, Graph.CanonicalBut, Graph.Repeered;
      ghost var g := Wiring();
      Unpeer(node);
      g.ClearedCanonicalBut(Wiring(), node, routes);
      routes := routes - {node.key};
    }

    method Prune(node: TrieEntry)
      requires Wiring().CanonicalBut(node) && Wiring().Represents(routes) && Lists()
      requires node in nodes && node.peer == null && (node.child0 == null || node.child1 == null)
      modifies this`IPv4, this`IPv6, this`nodes
      modifies nodes`child0, nodes`child1, nodes`parent, nodes`parentBitType
      ensures Valid() && nodes <= old(nodes)
    {
      ghost var g := Wiring();
      var parent := node.parent;
      var leaf := node.child0 == null && node.child1 == null;
      g.IsSpliceable(node);
      SpliceOut(node);
      g.SplicedCanonicalBut(Wiring(), node, routes);
      if leaf && parent != null && parent.peer == null {
        ghost var h := Wiring();
        g.SplicedParent(h, node);
        SpliceOut(parent);
        h.SplicedCanonicalBut(Wiring(), parent, routes);
      }
      forall p | p in peers ensures ListOf(p) { assert old(ListOf(p)); }
      forall n | n in nodes ensures Listed(n) { assert old(Listed(n)); }
    }

    /** Removes `ip/cidr` if it is stored for `peer`. */
    method Remove(ip: seq<bv8>, cidr: nat, peer: Peer)
      requires Valid() && IsAddress(ip) && cidr <= 8 * |ip|
      modifies this, nodes, peers`trieEntries
      ensures Valid() && routes == RemoveOp(ip, cidr, peer).Apply(old(routes))
      ensures nodes <= old(nodes) && peers == old(peers)
    {
      var node, exact := NodePlacement(ip, cidr);
      ghost var g := Wiring();
      if exact {
        g.ExactKey(node, ip, cidr);
        assert g.Routed(routes, node);
      }
      if !exact || peer != node.peer {
        g.NotRoutedTo(routes, Prefix(ip, cidr), peer, node, exact);
        return;
      }
      RemoveNode(node);
    }

    /** Removes every prefix stored for `peer`. */
    method RemoveByPeer(peer: Peer)
      requires Valid() && (peer in peers || peer.trieEntries == [])
      modifies this, nodes, peers`trieEntries
      ensures Valid() && routes == RemoveByPeerOp(peer).Apply(old(routes))
      ensures nodes <= old(nodes) && peers == old(peers)
    {
      while peer.trieEntries != []
        invariant Valid() && nodes <= old(nodes) && peers == old(peers)
        invariant peer in peers || peer.trieEntries == []
        invariant forall k :: k in routes ==> k in old(routes) && routes[k] == old(routes)[k]
        invariant forall k :: k in old(routes) && old(routes)[k] != peer ==> k in routes
        decreases |peer.trieEntries|
      {
        var node := peer.trieEntries[0];
        assert ListOf(peer) && Wiring().Routed(routes, node);
        RemoveNode(node);
      }
      forall k | k in routes ensures routes[k] != peer {
        NoneLeft(peer, k);
      }
    }

    lemma NoneLeft(peer: Peer, k: Key)
      requires Valid() && peer.trieEntries == [] && k in routes
      ensures routes[k] != peer
    {
      var g := Wiring();
      assert g.Stored(k);
      var n :| n in g.cells && n.key == k && g.cells[n].peer != null;
      assert g.Routed(routes, n) && Listed(n);
      assert ListOf(n.peer);
    }

    /** Every run of configuration steps leaves the table standing for the map the steps describe. */
    method Run(ops: seq<Op>)
      requires Valid() && forall i :: 0 <= i < |ops| ==> ops[i].Sound() && (ops[i].peer in peers || ops[i].peer.trieEntries == [])
      modifies this, nodes, peers, set i | 0 <= i < |ops| :: ops[i].peer
      ensures Valid() && routes == ApplyAll(ops, old(routes))
    {
      hide Valid;
      AdmitPeers(ops);
      ghost var known := peers;
      for i := 0 to |ops|
        invariant Valid() && peers == known && fresh(nodes - old(nodes))
        invariant routes == ApplyAll(ops[..i], old(routes))
      {
        match ops[i] {
          case InsertOp(ip, cidr, peer) => Insert(ip, cidr, peer);
          case RemoveOp(ip, cidr, peer) => Remove(ip, cidr, peer);
          case RemoveByPeerOp(peer) => RemoveByPeer(peer);
        }
        assert ops[..i + 1][..i] == ops[..i];
      }
      assert ops[..|ops|] == ops;
    }

    ghost method AdmitPeers(ops: seq<Op>)
      requires Valid() && forall i :: 0 <= i < |ops| ==> ops[i].peer in peers || ops[i].peer.trieEntries == []
      modifies this`peers
      ensures Valid() && peers == old(peers) + set i | 0 <= i < |ops| :: ops[i].peer
    {
      hide Valid;
      for i := 0 to |ops|
        invariant Valid() && peers == old(peers) + set k | 0 <= k < i :: ops[k].peer
      {
        AdmitPeer(ops[i].peer);
      }
    }
  }
}
