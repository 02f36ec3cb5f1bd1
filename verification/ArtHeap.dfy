// How the parts of a tree in memory are taken apart and put together: each lemma splits off or
// adds one child, so that a change below one child leaves what is known of the others alone.

module ArtHeap {
  import opened Bytes
  import opened Values
  import opened ArtTree
  import opened ArtNode

  /** `c` leads to a tree of its own. */
  ghost predicate ValidPtr(c: Ptr)
    reads if c.ToNode? then {c.node} else {}, Foot(c)
  {
    && (c.ToNode? ==> c.node in c.node.Repr && c.node.Valid())
  }

  ghost function TreeOf(c: Ptr): Tree
    requires c != Null
    reads if c.ToNode? then {c.node} else if c.ToLeaf? then {c.leaf} else {}
  {
    if c.ToLeaf? then Leaf(c.leaf.key, c.leaf.value) else c.node.tree
  }

  /** The map below a pointer. */
  ghost function DictOf(c: Ptr): map<seq<Byte>, Value>
    reads if c.ToNode? then {c.node} else if c.ToLeaf? then {c.leaf} else {}
  {
    if c == Null then map[] else Dict(TreeOf(c))
  }

  /** The pointer and its tree, built from its own objects only. */
  lemma LeadsOwn(c: Ptr, R: set<object>)
    requires c != Null && ValidPtr(c) && Foot(c) <= R
    ensures Leads(c, TreeOf(c), R)
  {
  }

  lemma LeadsValid(c: Ptr, t: Tree, R: set<object>)
    requires Leads(c, t, R)
    ensures ValidPtr(c) && c != Null && TreeOf(c) == t && Foot(c) <= R
  {
  }

  /** Fewer objects are enough if they still include the ones used. */
  lemma LeadsWithin(c: Ptr, t: Tree, R: set<object>, S: set<object>)
    requires Leads(c, t, R) && Foot(c) <= S
    ensures Leads(c, t, S)
  {
    LeadsValid(c, t, R);
    LeadsOwn(c, S);
  }

  /** Taking one child away: the others are built from what the child does not use. */
  lemma KidsDrop(kids: map<Byte, Ptr>, ts: map<Byte, Tree>, R: set<object>, b: Byte)
    requires Kids(kids, ts, R) && b in kids
    ensures Leads(kids[b], ts[b], R)
    ensures Kids(kids - {b}, ts - {b}, R - Foot(kids[b]))
  {
    hide Leads;
    var rest := R - Foot(kids[b]);
    forall a: Byte | a in kids - {b} ensures Leads(kids[a], ts[a], rest) {
      LeadsValid(kids[a], ts[a], R);
      assert Foot(kids[a]) !! Foot(kids[b]);
      LeadsWithin(kids[a], ts[a], R, rest);
    }
  }

  /** Putting one child in, built from objects of its own. */
  lemma KidsAdd(kids: map<Byte, Ptr>, ts: map<Byte, Tree>, R: set<object>, b: Byte, c: Ptr)
    requires Kids(kids, ts, R) && b !in kids && c != Null && ValidPtr(c) && Foot(c) !! R
    ensures Kids(kids[b := c], ts[b := TreeOf(c)], R + Foot(c))
  {
    hide Leads;
    var all := R + Foot(c);
    forall a: Byte | a in kids ensures Leads(kids[a], ts[a], all) && Foot(kids[a]) <= R {
      LeadsValid(kids[a], ts[a], R);
      LeadsWithin(kids[a], ts[a], R, all);
    }
    LeadsOwn(c, all);
  }

  lemma KidsNone()
    ensures Kids(map[], map[], {})
  {
  }

  lemma MapPutBack<T>(m: map<Byte, T>, b: Byte, x: T)
    ensures (m - {b})[b := x] == m[b := x]
  {
  }

  // ----- the leftmost leaf and the prefix comparisons, in memory -----

  lemma FirstKidMin(t: Tree, b: Byte)
    requires t.Inner? && b in t.kids && forall a: Byte :: a in t.kids ==> b <= a
    ensures MinKey(t) == MinKey(t.kids[b])
  {
    var c := MinKeyFromIs(t, 0);
  }

  lemma NodeParts(n: Node)
    requires n.Valid()
    ensures n.Own() <= n.Repr && n.Layout() && Resting(n.kind, |n.kids|) && |n.kids| >= 2
    ensures n.prefix.Length == MAX_PREFIX_LEN
    ensures n.tree.Inner? && n.tree.prefixLen == n.prefixLen && n.tree.stored == n.Stored()
    ensures n.kids.Keys == n.tree.kids.Keys && Kids(n.kids, n.tree.kids, n.Repr - n.Own())
  {
    hide Kids;
    n.Counted();
    KidsKeys(n.kids, n.tree.kids, n.Repr - n.Own());
  }

  /** A node at rest: how many children it has by its kind, how many bytes it stores, and that the count
      of the children is kept modulo 256. */
  lemma NodeShape(n: Node)
    requires n.Valid()
    ensures n.tree.Inner? && n.kids.Keys == n.tree.kids.Keys && n.numChildren == |n.tree.kids| % 256
    ensures var c := |n.tree.kids|;
            && (n.kind == Node4 ==> 2 <= c <= 4) && (n.kind == Node16 ==> 4 <= c <= 16)
            && (n.kind == Node48 ==> 13 <= c <= 48) && (n.kind == Node256 ==> 38 <= c <= 256)
    ensures n.prefix.Length == 10 && n.tree.stored == n.prefix[..if n.prefixLen < 10 then n.prefixLen else 10]
  {
    NodeParts(n);
    hide Kids;
    assert |n.kids.Keys| == |n.kids| && |n.tree.kids.Keys| == |n.tree.kids|;
  }

  lemma KidsKeys(kids: map<Byte, Ptr>, ts: map<Byte, Tree>, R: set<object>)
    requires Kids(kids, ts, R)
    ensures kids.Keys == ts.Keys
  {
  }

  lemma NodeKid(n: Node, b: Byte)
    requires n.Valid() && b in n.kids
    ensures b in n.tree.kids && n.kids[b] != Null && ValidPtr(n.kids[b]) && TreeOf(n.kids[b]) == n.tree.kids[b]
    ensures Foot(n.kids[b]) <= n.Repr - n.Own() && n in n.Repr
  {
    LeadsValid(n.kids[b], n.tree.kids[b], n.Repr - n.Own());
  }

  /** `node_get_minimum`. */
  method MinLeaf(node: Node) returns (l: LeafNode)
    requires node.Valid()
    ensures l.key == MinKey(node.tree)
  {
    hide Node.Layout;
    hide Leads;
    hide Kids;
    hide MinKey;
    var c := ToNode(node);
    while c.ToNode?
      invariant c != Null && ValidPtr(c) && MinKey(TreeOf(c)) == MinKey(node.tree)
      decreases Foot(c)
    {
      var n := c.node;
      NodeParts(n);
      ghost var b;
      c, b := n.FirstChild();
      FirstKidMin(n.tree, b);
      NodeKid(n, b);
    }
    LeafMin(TreeOf(c));
    l := c.leaf;
  }

  lemma LeafMin(t: Tree)
    requires t.Leaf?
    ensures MinKey(t) == t.key
  {
  }

  /** `check_prefix_partial`. */
  method PartialMatch(node: Node, key: seq<Byte>, depth: nat) returns (len: nat)
    requires node.Valid() && depth <= |key|
    ensures node.tree.Inner? && |node.tree.stored| == Min(node.tree.prefixLen, MAX_PREFIX_LEN)
    ensures len == CheckPrefixPartial(node.tree, key, depth)
  {
    hide Node.Valid;
    hide Node.Layout;
    hide Kids;
    NodeParts(node);
    var maxCmp := Min(Min(node.prefixLen, MAX_PREFIX_LEN), |key| - depth);
    len := 0;
    while len < maxCmp && key[depth + len] == node.prefix[len]
      invariant len <= maxCmp
      invariant Matching(node.tree.stored, key, depth, 0, maxCmp) == Matching(node.tree.stored, key, depth, len, maxCmp)
    {
      len := len + 1;
    }
  }

  /** `check_prefix`: when the stored bytes all match, the leftmost leaf has the rest. */
  method FullMatch(node: Node, key: seq<Byte>, depth: nat) returns (len: nat)
    requires node.Valid() && depth <= |key| && node.tree.Inner?
    requires |node.tree.stored| == Min(node.tree.prefixLen, MAX_PREFIX_LEN)
    requires depth + Min(node.tree.prefixLen, MAX_PREFIX_LEN) <= |MinKey(node.tree)|
    ensures len == CheckPrefix(node.tree, key, depth)
  {
    hide Node.Valid;
    hide MinKey;
    len := PartialMatch(node, key, depth);
    if len < MAX_PREFIX_LEN {
      return;
    }
    var leaf := MinLeaf(node);
    ghost var from := len;
    var maxCmp := Min(|leaf.key|, |key|) - depth;
    while len < maxCmp && leaf.key[depth + len] == key[depth + len]
      invariant from <= len && depth + len <= |leaf.key| && depth + len <= |key|
      invariant Diverge(leaf.key, key, depth + from) == Diverge(leaf.key, key, depth + len)
    {
      len := len + 1;
    }
  }
}
